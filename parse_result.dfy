/** The result model shared by every parser (index.ts:1-6).
    A parse either fails with nothing, or succeeds with a value and the
    unconsumed remainder of the input. */
module ParseResults {

  /** `ParseResult<Type> | null`: `Fail` stands for `null`. */
  datatype Result<+T> = Fail | Ok(value: T, remaining: string) {

    /** Re-labels a successful value and keeps the remainder; used where
        TypeScript widens `Parse<string>` to `Parse<string | number | null>`. */
    function Map<U>(f: T -> U): (r: Result<U>)
      ensures r.Ok? <==> Ok?
      ensures Ok? ==> r.value == f(value) && r.remaining == remaining
    {
      match this
      case Fail => Fail
      case Ok(v, rest) => Ok(f(v), rest)
    }
  }

  /** `Parse<Type>`: a parser is a function from the input to a result. */
  type Parser<T> = string -> Result<T>

  /** `t` is what is left of `s` after dropping some prefix of it. */
  predicate IsSuffix(t: string, s: string) {
    |t| <= |s| && s[|s| - |t|..] == t
  }

  /** Every success of `p` consumes at least one character: the condition
      under which repeating `p` terminates. */
  ghost predicate Progressing<T>(p: Parser<T>) {
    forall s :: p(s).Ok? ==> |p(s).remaining| < |s|
  }

  /** Every success of `p` leaves a suffix of its input. */
  ghost predicate SuffixSound<T>(p: Parser<T>) {
    forall s :: p(s).Ok? ==> IsSuffix(p(s).remaining, s)
  }

  /** `p` is a single-character parser for the character class `ok`: it
      consumes one character satisfying `ok`, returns it as a one-character
      string, and fails on anything else. */
  ghost predicate IsCharClass(p: Parser<string>, ok: char -> bool) {
    forall s :: p(s) == if |s| > 0 && ok(s[0]) then Ok([s[0]], s[1..]) else Fail
  }

  lemma CharClassProgresses(p: Parser<string>, ok: char -> bool)
    requires IsCharClass(p, ok)
    ensures Progressing(p)
  {
    forall s | p(s).Ok? ensures |p(s).remaining| < |s| {
    }
  }

  lemma SuffixTransitive(a: string, b: string, c: string)
    requires IsSuffix(a, b) && IsSuffix(b, c)
    ensures IsSuffix(a, c)
  {
    assert c[|c| - |a|..] == c[|c| - |b|..][|b| - |a|..];
  }

  lemma ConsumedPrefix(pre: string, rest: string, s: string)
    requires pre + rest == s
    ensures IsSuffix(rest, s)
  {
    assert s[|s| - |rest|..] == (pre + rest)[|pre|..];
  }
}
