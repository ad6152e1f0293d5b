# Parser combinators over strings — a Dafny model

This project models `index.ts` of the `parser` repository. That file is a small
parser-combinator library. A parser is a function from an input string to
either `{ value, remaining }` or `null`. The library has four layers:

- primitives that look at the head of the input: `space`, `digit`,
  `character(v)`, `notCharacter(v)` and `literal(v)`;
- combinators: `many` (zero or more), `oneOf` (ordered first match) and
  `combine` (fail-fast sequencing);
- derived parsers: `spaces`, `number`, `nil` and `string`;
- the entry point `json = oneOf(string, number, nil)`.

The model is functional, like the source. `Result<T>` is `Fail | Ok(value,
remaining)`, where `Fail` stands for `null`. `Parser<T>` is `string -> Result<T>`.
A combinator applied to its parsers and then to an input, `many(p)(s)`, is
written `Many(p, s)`, and `character(v)(s)` is `Character(v, s)`. The variadic
parser lists of `oneOf` and `combine` become sequences. They are consumed head
first by recursion, as in the source.

Modules:

- `ParseResults` (parse_result.dfy) holds the result type, the parser type and
  three parser properties. `Progressing` means every success consumes input.
  `SuffixSound` means every remainder is a suffix of the input. `IsCharClass`
  means the parser is a single-character parser for a class of characters.
- `Text` (text.dfy) models the JavaScript built-ins the parsers use. These are
  `parseInt` on digit runs and `join("")`. It also has `ShowNat`, the decimal
  rendering of a number, which is used to state the `number` round trip.
- `Primitives` (primitives.dfy), `Combinators` (combinators.dfy) and `Grammar`
  (grammar.dfy) follow the layers of `index.ts`.
- `Scenarios` (scenarios.dfy) holds concrete inputs and their results. One of them is the
  repository's test case.

Points where the model states behaviour that the code has but does not spell out:

- `many` has no guard in the source. Its recursion (index.ts:50) terminates
  only when the parser consumes input on success. `Many` therefore requires
  `Progressing(p)`. Every parser the library builds `many` from (`space`,
  `digit`, `notCharacter('"')`) is proved to satisfy it.
- The `rest === null` branch of `many` (index.ts:52-57) is kept as written.
  The contract `r.Ok?` of `Many` shows that it never runs.
- `number` does not reject an empty digit run by itself. It relies on
  `parseInt("")` being NaN (index.ts:103-107). The model does the same:
  `ParseInt` returns `None` on a string that does not start with a digit.
- `character(v)` compares the one-character string `input[0]` with `v`. So a
  `v` that is not exactly one character long never matches. For the same
  reason, `notCharacter(v)` with such a `v` accepts any character. The
  contracts of `Character` and `NotCharacter` state this.
- `literal("")` succeeds on every input and consumes nothing.
- `json` widens `string | number | null`. The model uses a `JsonValue`
  datatype and `Result.Map` to do this.
- The three alternatives of `json` start with different characters, so at most
  one of them can succeed (`JsonAlternativesDisjoint`).

## Model

| member | source | states |
|---|---|---|
| `Primitives.Space` | index.ts:8-19 | succeeds iff the input starts with `' '`; then the value is `" "` and value + remainder is the input (exactly one character consumed) |
| `Primitives.Digit` | index.ts:21-38 | succeeds iff the first character is one of `0`..`9`; then exactly that one character is consumed and returned |
| `Primitives.Literal` | index.ts:85-94 | succeeds iff the input starts with `v`; then the value is `v` and `v` + remainder is the input, so an empty `v` consumes nothing |
| `Primitives.Character` | index.ts:129-142 | succeeds iff the input is non-empty and its first character is the one-character string `v`; then the value is `v` and `v` + remainder is the input |
| `Primitives.NotCharacter` | index.ts:144-159 | succeeds iff the input is non-empty and its first character differs from `v`; then one character, different from `v`, is consumed and returned |
| `Primitives.SpaceIsCharClass` | index.ts:8-19 | `space` is the single-character parser of the class `{' '}`: fails on the empty input and on every other character |
| `Primitives.DigitIsCharClass` | index.ts:21-38 | `digit` is the single-character parser of the class `0`..`9` |
| `Text.ParseInt` | index.ts:28-32 | `parseInt` gives a number iff the text starts with a digit; on an all-digit text it is the text's decimal value |
| `Text.DecimalValueOfShowNat` | index.ts:103 | reading the decimal rendering of `n` back gives `n` |
| `Text.JoinChars` | index.ts:212 | `join("")` of the one-character parts of a text is the text |
| `Combinators.Many` | index.ts:40-63 | for a progressing parser, never fails; the remainder is no longer than the input; the parser fails on the remainder (the run stops at the first failure); the value is empty iff the first attempt fails |
| `Combinators.ManyIsLongestRun` | index.ts:40-63 | sequencing `n` copies of `p` succeeds iff `n` is at most the length of `many(p)`'s value, yields a prefix of that value, and for exactly that length equals `many(p)`'s result: the value is the maximal run of successes, in order |
| `Combinators.ManyOfEmpty` | index.ts:41-47 | `many(p)("")` is `[]` with remainder `""` |
| `Combinators.ManyOfCharClass` | index.ts:40-63 | `many` of a single-character class parser returns one string per character of the longest in-class prefix and leaves the rest of the input |
| `Combinators.ManySuffix` | index.ts:40-63 | if `p` leaves suffixes of its input, so does `many(p)` |
| `Combinators.OneOf` | index.ts:65-81 | fails iff every alternative fails on the input (so `oneOf()` always fails); when alternative `i` is the first that succeeds, the result is exactly its result |
| `Combinators.OneOfThree` | index.ts:65-81 | `oneOf(a, b, c)` is `a` if it succeeds, else `b` if it succeeds, else `c`'s result |
| `Combinators.OneOfSuffix` | index.ts:65-81 | if every alternative leaves suffixes of its input, so does `oneOf` |
| `Combinators.Combine` | index.ts:161-188 | `combine()` succeeds with `[]` and the input untouched; a success has exactly one value per parser |
| `Combinators.CombineThreads` | index.ts:161-188 | `combine` succeeds iff there is a thread of states in which each parser succeeds on the previous remainder; any such thread gives exactly `combine`'s values and final remainder |
| `Combinators.CombineAppend` | index.ts:161-188 | `combine(ps1 ++ ps2)` is `combine(ps1)` followed by `combine(ps2)` on its remainder with the values concatenated; a failure on either side is a failure of the whole |
| `Combinators.CombineFailFast` | index.ts:171-175 | if the parsers before position `i` succeed and parser `i` fails on their remainder, `combine` fails with no partial value |
| `Combinators.CombineSuffix` | index.ts:161-188 | if every parser leaves suffixes of its input, so does `combine` |
| `Grammar.Spaces` | index.ts:83 | `spaces` never fails |
| `Grammar.SpacesConsumesLeadingSpaces` | index.ts:83 | `spaces` returns one `" "` per leading space and leaves the input after the leading spaces |
| `Grammar.DigitRun` | index.ts:97 | `many(digit)` returns one string per leading digit and leaves the input after the digit run |
| `Grammar.NumberReadsDigitRun` | index.ts:96-113 | `number` succeeds iff the input starts with a digit; then the value is the decimal value of the whole leading digit run, the input is that run followed by the remainder, and the remainder is empty or starts with a non-digit |
| `Grammar.NumberOfShowNat` | index.ts:96-113 | round trip: `number` applied to the decimal rendering of `n` followed by a text that does not start with a digit gives `n` and that text |
| `Grammar.Nil` | index.ts:115-127 | succeeds iff the input starts with `null`; then `"null"` + remainder is the input |
| `Grammar.ContentCharIsCharClass` | index.ts:198 | `notCharacter('"')` is the single-character parser of the non-quote characters |
| `Grammar.ContentRun` | index.ts:198-199 | the string content parser returns one string per character up to the next quote and leaves the input from that quote on |
| `Grammar.QuotedStringAfterOpen` | index.ts:190-215 | after an opening quote, `string` succeeds iff a quote follows the quote-free run `t`; then the value is `t` and the remainder is what follows that quote |
| `Grammar.OpenedStringShape` | index.ts:198-214 | after an opening quote, `string` succeeds iff the rest holds a quote; the rest is then value + quote + remainder with no quote in the value |
| `Grammar.QuotedStringShape` | index.ts:190-215 | `string` succeeds iff the input starts with `"` and holds a second `"`; then the input is `"` + value + `"` + remainder and the value holds no `"` (no escapes) |
| `Grammar.QuotedStringRoundTrip` | index.ts:190-215 | for any quote-free `t` and any `r`, `string('"' + t + '"' + r)` yields `t` and `r` |
| `Grammar.JsonPriority` | index.ts:217 | `json` gives `string`'s result if it succeeds, else `number`'s, else `nil`'s, and fails if none succeeds |
| `Grammar.JsonAlternativesDisjoint` | index.ts:217 | no input is accepted by two of `string`, `number` and `nil` |
| `Grammar.JsonLeavesSuffix` | index.ts:217 | every successful `json` parse leaves a suffix of its input |
| `Scenarios.HelloWorldString` | index.test.ts:4-9 | `string('"Hello, world!"')` is `Hello, world!` with remainder `""` |
| `Scenarios.StringStopsAtClosingQuote` | index.ts:190-215 | `string('"abc" rest')` is `abc` with remainder `" rest"`; `string('"abc')` fails |
| `Scenarios.NumberStopsAtNonDigit` | index.ts:96-113 | `number("123abc")` is 123 with remainder `abc` |
| `Scenarios.NumberWithLeadingZeros` | index.ts:96-113 | `number("007")` is 7 with remainder `""` |
| `Scenarios.NumberNeedsDigit` | index.ts:103-107 | `number("abc")` fails |
| `Scenarios.NilExample` | index.ts:115-127 | `nil("nullx")` gives null with remainder `x`; `nil("nul")` fails |
| `Scenarios.JsonOfString` | index.ts:217 | `json('"x"')` is the string `x` with remainder `""` |
| `Scenarios.JsonOfNumber` | index.ts:217 | `json("42")` is the number 42 with remainder `""` |
| `Scenarios.JsonRejectsTruthy` | index.ts:217 | `json("truthy")` fails |
| `Scenarios.EmptyCases` | index.ts:40-188 | `many(digit)("")` is `[]` with remainder `""`; `oneOf()` fails and `combine()` returns `[]` with the input untouched |

## Left out

- `parseInt` floating-point semantics: JavaScript numbers are doubles, so a long digit run loses precision or becomes `Infinity`. `number`'s value is modelled as the exact natural number of the digit run.
- `parseInt` details that the parsers never reach: leading whitespace, signs and radix prefixes. The parsers only pass it one character or a run of ASCII digits, and for one character the model agrees with JavaScript: only `0`..`9` give a number.
- UTF-16 code units: the input is a `seq<char>`. `input[0]`, `slice` and `startsWith` become indexing, slicing and prefix tests on that sequence.
- Call-stack depth of the recursive `many`, `oneOf` and `combine` is a runtime resource limit, not behaviour.
- Many: is modelled only for progressing parsers. The source recurses forever (until the stack overflows) on a parser that succeeds without consuming input, such as `many(literal(""))`; that behaviour is not modelled.
- The test harness of index.test.ts (`Deno.test`, `expect`) is not part of this model; its one case is the lemma `HelloWorldString`.
