/** The parsers index.ts derives from the primitives and combinators —
    `spaces`, `number`, `nil`, `string` — and the `json` entry point, an
    ordered alternation over the last three. */
module Grammar {
  import opened ParseResults
  import opened Text
  import opened Primitives
  import opened Combinators

  /** `spaces = many(space)`: always succeeds, consuming the run of
      leading spaces. */
  function Spaces(input: string): (r: Result<seq<string>>)
    ensures r.Ok?
  {
    SpaceIsCharClass();
    CharClassProgresses(Space, IsSpace);
    Many(Space, input)
  }

  lemma SpacesConsumesLeadingSpaces(s: string)
    ensures var run := LongestPrefix(IsSpace, s);
            Spaces(s) == Ok(Chars(run), s[|run|..])
  {
    SpaceIsCharClass();
    ManyOfCharClass(Space, IsSpace, s);
  }

  /** `number`: the decimal value of the leading digit run. `many(digit)`
      cannot fail, so the source's `result === null` test never fires;
      an empty run is rejected because `parseInt("")` is NaN. */
  function Number(input: string): (r: Result<nat>)
  {
    DigitIsCharClass();
    CharClassProgresses(Digit, IsDigit);
    match Many(Digit, input)
    case Fail => Fail
    case Ok(digits, rest) =>
      match ParseInt(Join(digits))
      case None => Fail
      case Some(n) => Ok(n, rest)
  }

  /** `number` succeeds exactly on inputs that start with a digit, and then
      returns the value of the whole leading digit run (leading zeros
      allowed) and leaves what follows it, which does not start with a
      digit. */
  lemma NumberReadsDigitRun(s: string)
    ensures Number(s).Ok? <==> |s| > 0 && IsDigit(s[0])
    ensures Number(s).Ok? ==> Number(s).value == DecimalValue(LongestPrefix(IsDigit, s))
    ensures Number(s).Ok? ==> s == LongestPrefix(IsDigit, s) + Number(s).remaining
    ensures Number(s).Ok? ==> Number(s).remaining == [] || !IsDigit(Number(s).remaining[0])
  {
    var run := LongestPrefix(IsDigit, s);
    DigitRun(s);
    JoinChars(run);
    PrefixSplit(run, s);
    assert AllDigits(run);
    assert Number(s) == if |run| == 0 then Fail else Ok(DecimalValue(run), s[|run|..]);
  }

  /** `many(digit)` reads the run of leading digits. */
  lemma DigitRun(s: string)
    ensures var run := LongestPrefix(IsDigit, s);
            && Progressing(Digit)
            && Many(Digit, s) == Ok(Chars(run), s[|run|..])
  {
    DigitIsCharClass();
    ManyOfCharClass(Digit, IsDigit, s);
  }

  /** Round trip: `number` reads back the decimal rendering of any natural
      number, up to the first character that is not a digit. */
  lemma NumberOfShowNat(n: nat, rest: string)
    requires rest == [] || !IsDigit(rest[0])
    ensures Number(ShowNat(n) + rest) == Ok(n, rest)
  {
    var s := ShowNat(n) + rest;
    NumberReadsDigitRun(s);
    LongestPrefixOfSplit(IsDigit, ShowNat(n), rest);
    DecimalValueOfShowNat(n);
    assert s[0] == ShowNat(n)[0];
    assert s[|ShowNat(n)|..] == rest;
  }

  /** `nil`: the literal `null`, whose value is JavaScript's `null`. */
  function Nil(input: string): (r: Result<()>)
    ensures r.Ok? <==> |input| >= 4 && input[..4] == "null"
    ensures r.Ok? ==> "null" + r.remaining == input
  {
    match Literal("null", input)
    case Fail => Fail
    case Ok(_, rest) => Ok((), rest)
  }

  const Quote: string := "\""

  predicate IsNotQuote(c: char) {
    c != '"'
  }

  /** `character('"')`, the string delimiter. */
  const Delimiter: Parser<string> := s => Character(Quote, s)

  /** `notCharacter('"')`, one character of string content. */
  const ContentChar: Parser<string> := s => NotCharacter(Quote, s)

  lemma ContentCharIsCharClass()
    ensures IsCharClass(ContentChar, IsNotQuote)
  {
  }

  /** `string`: an opening `"`, the run of characters up to the next `"`,
      and that closing `"`; no escape sequences. The value is the content
      joined back into one string. */
  function QuotedString(input: string): (r: Result<string>)
  {
    match Delimiter(input)
    case Fail => Fail
    case Ok(_, afterOpen) =>
      ContentCharIsCharClass();
      CharClassProgresses(ContentChar, IsNotQuote);
      match Many(ContentChar, afterOpen)
      case Fail => Fail
      case Ok(content, afterContent) =>
        match Delimiter(afterContent)
        case Fail => Fail
        case Ok(_, afterClose) => Ok(Join(content), afterClose)
  }

  /** `many(notCharacter('"'))` reads the run of characters up to the
      next quote. */
  lemma ContentRun(s: string)
    ensures var run := LongestPrefix(IsNotQuote, s);
            && Progressing(ContentChar)
            && Many(ContentChar, s) == Ok(Chars(run), s[|run|..])
  {
    ContentCharIsCharClass();
    ManyOfCharClass(ContentChar, IsNotQuote, s);
  }

  /** What `string` does after an opening quote: with `t` the quote-free
      run that follows it, it succeeds iff a quote comes after `t`. */
  lemma QuotedStringAfterOpen(body: string)
    ensures var t := LongestPrefix(IsNotQuote, body);
            QuotedString(Quote + body) ==
              if |t| < |body| then Ok(t, body[|t| + 1..]) else Fail
  {
    var t := LongestPrefix(IsNotQuote, body);
    assert Delimiter(Quote + body) == Ok(Quote, body) by {
      assert (Quote + body)[1..] == body;
    }
    ContentRun(body);
    JoinChars(t);
    if |t| < |body| {
      SplitAfterPrefix(t, body);
      assert body[|t|..] == Quote + body[|t| + 1..];
    }
  }

  /** `string` succeeds exactly when the input opens with `"` and holds a
      second `"`; the value is the quote-free text between the two and the
      remainder is what follows the closing quote. */
  lemma QuotedStringShape(s: string)
    ensures QuotedString(s).Ok? <==> |s| > 0 && s[0] == '"' && '"' in s[1..]
    ensures QuotedString(s).Ok? ==>
              && s == Quote + QuotedString(s).value + Quote + QuotedString(s).remaining
              && '"' !in QuotedString(s).value
  {
    if |s| > 0 && s[0] == '"' {
      assert s == Quote + s[1..];
      OpenedStringShape(s[1..]);
    }
  }

  lemma OpenedStringShape(body: string)
    ensures QuotedString(Quote + body).Ok? <==> '"' in body
    ensures QuotedString(Quote + body).Ok? ==>
              && body == QuotedString(Quote + body).value + Quote + QuotedString(Quote + body).remaining
              && '"' !in QuotedString(Quote + body).value
  {
    QuotedStringAfterOpen(body);
    var t := LongestPrefix(IsNotQuote, body);
    if '"' in body {
      var k :| 0 <= k < |body| && body[k] == '"';
      assert !IsNotQuote(body[k]);
    }
    if |t| < |body| {
      SplitAfterPrefix(t, body);
      assert '"' !in t by {
        forall k | 0 <= k < |t| ensures t[k] != '"' {
          assert IsNotQuote(t[k]);
        }
      }
    }
  }

  /** Round trip: any quote-free text between quotes is read back whole,
      leaving exactly what followed the closing quote. */
  lemma QuotedStringRoundTrip(t: string, rest: string)
    requires '"' !in t
    ensures QuotedString(Quote + t + Quote + rest) == Ok(t, rest)
  {
    var body := t + (Quote + rest);
    assert Quote + t + Quote + rest == Quote + body;
    assert LongestPrefix(IsNotQuote, body) == t by {
      assert forall i | 0 <= i < |t| :: IsNotQuote(t[i]);
      LongestPrefixOfSplit(IsNotQuote, t, Quote + rest);
    }
    assert body[|t| + 1..] == rest;
    QuotedStringAfterOpen(body);
  }

  /** The values `json` can produce: TypeScript's `string | number | null`. */
  datatype JsonValue = JString(s: string) | JNumber(n: nat) | JNull

  const StringAlternative: Parser<JsonValue> := s => QuotedString(s).Map(t => JString(t))
  const NumberAlternative: Parser<JsonValue> := s => Number(s).Map(n => JNumber(n))
  const NilAlternative: Parser<JsonValue> := s => Nil(s).Map(_ => JNull)

  /** `json = oneOf(string, number, nil)`. */
  function Json(input: string): (r: Result<JsonValue>)
  {
    OneOf([StringAlternative, NumberAlternative, NilAlternative], input)
  }

  /** `json` tries `string`, then `number`, then `nil`, and fails when none
      of them matches. */
  lemma JsonPriority(s: string)
    ensures Json(s) ==
              if QuotedString(s).Ok? then Ok(JString(QuotedString(s).value), QuotedString(s).remaining)
              else if Number(s).Ok? then Ok(JNumber(Number(s).value), Number(s).remaining)
              else if Nil(s).Ok? then Ok(JNull, Nil(s).remaining)
              else Fail
  {
    OneOfThree(StringAlternative, NumberAlternative, NilAlternative, s);
  }

  /** The three alternatives of `json` start with different characters
      (`"`, a digit, `n`), so at most one of them succeeds on any input and
      their order does not change what `json` accepts. */
  lemma JsonAlternativesDisjoint(s: string)
    ensures !(QuotedString(s).Ok? && Number(s).Ok?)
    ensures !(QuotedString(s).Ok? && Nil(s).Ok?)
    ensures !(Number(s).Ok? && Nil(s).Ok?)
  {
    QuotedStringShape(s);
    NumberReadsDigitRun(s);
    if Nil(s).Ok? {
      assert s[0] == "null"[0];
    }
  }

  /** Every successful `json` parse leaves a suffix of its input. */
  lemma JsonLeavesSuffix(s: string)
    ensures Json(s).Ok? ==> IsSuffix(Json(s).remaining, s)
  {
    JsonPriority(s);
    QuotedStringShape(s);
    NumberReadsDigitRun(s);
    if QuotedString(s).Ok? {
      ConsumedPrefix(Quote + QuotedString(s).value + Quote, QuotedString(s).remaining, s);
    } else if Number(s).Ok? {
      ConsumedPrefix(LongestPrefix(IsDigit, s), Number(s).remaining, s);
    } else if Nil(s).Ok? {
      ConsumedPrefix("null", Nil(s).remaining, s);
    }
  }
}
