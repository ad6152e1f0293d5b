/** The primitive parsers of index.ts: each looks at the head of the input
    and consumes one character (`space`, `digit`, `character`,
    `notCharacter`) or a fixed prefix (`literal`). Parsers that the source
    builds from an argument (`character(v)`) are written here with the
    argument and the input side by side: `character(v)(s)` is
    `Character(v, s)`. */
module Primitives {
  import opened ParseResults
  import opened Text

  /** `space`: one `' '`. The JavaScript test `input[0] !== " "` also
      rejects the empty input, where `input[0]` is `undefined`. */
  function Space(input: string): (r: Result<string>)
    ensures r.Ok? <==> |input| > 0 && input[0] == ' '
    ensures r.Ok? ==> r.value == " " && r.value + r.remaining == input
  {
    if |input| == 0 || input[0] != ' ' then Fail
    else Ok([input[0]], input[1..])
  }

  /** `digit`: one character on which `parseInt` does not give NaN. */
  function Digit(input: string): (r: Result<string>)
    ensures r.Ok? <==> |input| > 0 && IsDigit(input[0])
    ensures r.Ok? ==> |r.value| == 1 && r.value + r.remaining == input
  {
    if |input| == 0 then Fail
    else if ParseInt([input[0]]).None? then Fail
    else Ok([input[0]], input[1..])
  }

  /** `literal(v)`: the exact prefix `v` (`input.startsWith(v)`). */
  function Literal(v: string, input: string): (r: Result<string>)
    ensures r.Ok? <==> |v| <= |input| && input[..|v|] == v
    ensures r.Ok? ==> r.value == v && v + r.remaining == input
  {
    if !(v <= input) then Fail
    else Ok(v, input[|v|..])
  }

  /** `character(v)`: one character equal to `v`. As in JavaScript, the
      one-character string `input[0]` is compared with `v`, so a `v` that is
      not exactly one character long never matches. */
  function Character(v: string, input: string): (r: Result<string>)
    ensures r.Ok? <==> |input| > 0 && |v| == 1 && input[0] == v[0]
    ensures r.Ok? ==> r.value == v && v + r.remaining == input
  {
    if |input| == 0 then Fail
    else if [input[0]] != v then Fail
    else Ok([input[0]], input[1..])
  }

  /** `notCharacter(v)`: one character different from `v`; for a `v` that
      is not exactly one character long, any character. */
  function NotCharacter(v: string, input: string): (r: Result<string>)
    ensures r.Ok? <==> |input| > 0 && !(|v| == 1 && input[0] == v[0])
    ensures r.Ok? ==> |r.value| == 1 && r.value != v && r.value + r.remaining == input
  {
    if |input| == 0 then Fail
    else if [input[0]] == v then Fail
    else Ok([input[0]], input[1..])
  }

  /** `space` and `digit` are the single-character parsers of their classes. */
  lemma SpaceIsCharClass()
    ensures IsCharClass(Space, IsSpace)
  {
  }

  lemma DigitIsCharClass()
    ensures IsCharClass(Digit, IsDigit)
  {
  }
}
