/** The combinators of index.ts: `many` (zero or more repetitions),
    `oneOf` (ordered first-match alternation) and `combine` (fail-fast
    sequencing). A combinator applied to its parsers and then to an input,
    `many(p)(s)`, is written `Many(p, s)`; the variadic parser lists of
    `oneOf` and `combine` are sequences, consumed head first as the source
    destructures `[parse, ...remainingParsers]`. */
module Combinators {
  import opened ParseResults
  import opened Text

  /** `many(p)`. The source recurses on the remainder with no guard, so it
      only terminates for a parser that consumes input on success; that is
      the precondition here. The `rest === null` branch is kept as written:
      the contract shows it never runs. */
  function Many<T>(p: Parser<T>, input: string): (r: Result<seq<T>>)
    requires Progressing(p)
    ensures r.Ok?
    ensures |r.remaining| <= |input|
    ensures p(r.remaining).Fail?
    ensures r.value == [] <==> p(input).Fail?
    decreases |input|
  {
    match p(input)
    case Fail => Ok([], input)
    case Ok(v, rest) =>
      var tail := Many(p, rest);
      if tail.Fail? then Ok([], input)
      else Ok([v] + tail.value, tail.remaining)
  }

  /** `oneOf(...ps)`: every alternative sees the same input; the result is
      the first success verbatim, and failure only when all alternatives
      fail (in particular when there are none). */
  function OneOf<T>(ps: seq<Parser<T>>, input: string): (r: Result<T>)
    ensures r.Fail? <==> forall i | 0 <= i < |ps| :: ps[i](input).Fail?
    ensures forall i | 0 <= i < |ps| ::
              ps[i](input).Ok? && (forall j | 0 <= j < i :: ps[j](input).Fail?) ==> r == ps[i](input)
    decreases |ps|
  {
    if |ps| == 0 then Fail
    else
      var result := ps[0](input);
      if result.Ok? then result
      else
        assert forall i | 1 <= i < |ps| :: ps[1..][i - 1] == ps[i];
        OneOf(ps[1..], input)
  }

  /** `oneOf(a, b, c)` unfolded: `a` if it succeeds, else `b` if it
      succeeds, else whatever `c` gives. */
  lemma OneOfThree<T>(a: Parser<T>, b: Parser<T>, c: Parser<T>, s: string)
    ensures OneOf([a, b, c], s) == if a(s).Ok? then a(s) else if b(s).Ok? then b(s) else c(s)
  {
    assert [a, b, c][1..] == [b, c] && [b, c][1..] == [c] && [c][1..] == [];
    assert OneOf([c], s) == c(s);
    assert OneOf([b, c], s) == if b(s).Ok? then b(s) else c(s);
  }

  /** `combine(...ps)`: the parsers run in order, each on the remainder of
      the previous one; one value per parser, and no partial value on
      failure. */
  function Combine<T>(ps: seq<Parser<T>>, input: string): (r: Result<seq<T>>)
    ensures ps == [] ==> r == Ok([], input)
    ensures r.Ok? ==> |r.value| == |ps|
    decreases |ps|
  {
    if |ps| == 0 then Ok([], input)
    else
      match ps[0](input)
      case Fail => Fail
      case Ok(v, rest) =>
        match Combine(ps[1..], rest)
        case Fail => Fail
        case Ok(vs, last) => Ok([v] + vs, last)
  }

  /** `states` threads `ps` from `states[0]`: parser `i` turns `states[i]`
      into value `vs[i]` and remainder `states[i + 1]`. */
  ghost predicate Threads<T>(ps: seq<Parser<T>>, vs: seq<T>, states: seq<string>) {
    && |vs| == |ps|
    && |states| == |ps| + 1
    && forall i | 0 <= i < |ps| :: ps[i](states[i]) == Ok(vs[i], states[i + 1])
  }

  /** `combine` succeeds exactly when each parser succeeds on the previous
      one's remainder, and then returns the values and the last remainder
      of that thread. */
  lemma {:induction false} CombineThreads<T>(ps: seq<Parser<T>>, s: string)
    ensures Combine(ps, s).Ok? <==> exists vs, states :: Threads(ps, vs, states) && states[0] == s
    ensures forall vs, states | Threads(ps, vs, states) && states[0] == s ::
              Combine(ps, s) == Ok(vs, states[|ps|])
    decreases |ps|
  {
    if |ps| == 0 {
      assert Threads(ps, [], [s]);
    } else {
      forall vs, states | Threads(ps, vs, states) && states[0] == s
        ensures Combine(ps, s) == Ok(vs, states[|ps|])
      {
        CombineThreads(ps[1..], states[1]);
        assert Threads(ps[1..], vs[1..], states[1..]);
        assert [vs[0]] + vs[1..] == vs;
      }
      var first := ps[0](s);
      if first.Ok? {
        CombineThreads(ps[1..], first.remaining);
        if Combine(ps, s).Ok? {
          var vs, states :| Threads(ps[1..], vs, states) && states[0] == first.remaining;
          assert Threads(ps, [first.value] + vs, [s] + states);
        }
      }
    }
  }

  /** Sequencing splits: running `ps1 + ps2` is running `ps1`, then `ps2` on
      what `ps1` left, concatenating the values; a failure of `ps1` is a
      failure of the whole. */
  lemma {:induction false} CombineAppend<T>(ps1: seq<Parser<T>>, ps2: seq<Parser<T>>, s: string)
    ensures Combine(ps1 + ps2, s) ==
              match Combine(ps1, s)
              case Fail => Fail
              case Ok(vs1, rest) =>
                match Combine(ps2, rest)
                case Fail => Fail
                case Ok(vs2, last) => Ok(vs1 + vs2, last)
    decreases |ps1|
  {
    if |ps1| == 0 {
      assert ps1 + ps2 == ps2;
      match Combine(ps2, s)
      case Fail =>
      case Ok(vs2, last) => assert [] + vs2 == vs2;
    } else {
      assert (ps1 + ps2)[0] == ps1[0];
      assert (ps1 + ps2)[1..] == ps1[1..] + ps2;
      match ps1[0](s)
      case Fail =>
      case Ok(v, rest) =>
        CombineAppend(ps1[1..], ps2, rest);
        match Combine(ps1[1..], rest)
        case Fail =>
        case Ok(vs1, mid) =>
          match Combine(ps2, mid)
          case Fail =>
          case Ok(vs2, last) =>
            assert [v] + (vs1 + vs2) == ([v] + vs1) + vs2;
    }
  }

  /** Fail-fast: once the parsers before position `i` have succeeded and
      parser `i` fails on their remainder, `combine` fails as a whole. */
  lemma CombineFailFast<T>(ps: seq<Parser<T>>, s: string, i: nat)
    requires i < |ps|
    requires Combine(ps[..i], s).Ok?
    requires ps[i](Combine(ps[..i], s).remaining).Fail?
    ensures Combine(ps, s).Fail?
  {
    var rest := Combine(ps[..i], s).remaining;
    assert ps == ps[..i] + ps[i..];
    CombineAppend(ps[..i], ps[i..], s);
    assert ps[i..][0] == ps[i];
  }

  function Repeat<T>(p: Parser<T>, n: nat): (ps: seq<Parser<T>>)
    ensures |ps| == n && forall i | 0 <= i < n :: ps[i] == p
  {
    seq(n, _ => p)
  }

  /** `many(p)` is the longest run of `p`: sequencing `n` copies of `p`
      succeeds exactly for `n` up to the length of `many`'s value, yields a
      prefix of that value, and for exactly that length reproduces `many`'s
      result. */
  lemma {:induction false} ManyIsLongestRun<T>(p: Parser<T>, s: string, n: nat)
    requires Progressing(p)
    ensures Combine(Repeat(p, n), s).Ok? <==> n <= |Many(p, s).value|
    ensures n <= |Many(p, s).value| ==> Combine(Repeat(p, n), s).value == Many(p, s).value[..n]
    ensures n == |Many(p, s).value| ==> Combine(Repeat(p, n), s) == Many(p, s)
    decreases n
  {
    if n > 0 {
      assert Repeat(p, n)[1..] == Repeat(p, n - 1);
      match p(s)
      case Fail =>
      case Ok(v, rest) =>
        ManyIsLongestRun(p, rest, n - 1);
        var m := Many(p, rest);
        assert Many(p, s).value == [v] + m.value;
        if n - 1 <= |m.value| {
          assert ([v] + m.value)[..n] == [v] + m.value[..n - 1];
        }
    }
  }

  /** `many(p)("")` is `[]` with nothing left: a progressing parser cannot
      succeed on the empty input. */
  lemma ManyOfEmpty<T>(p: Parser<T>)
    requires Progressing(p)
    ensures Many(p, "") == Ok([], "")
  {
  }

  /** `many` of a single-character class parser consumes exactly the
      longest prefix of characters in the class, one string per character. */
  lemma {:induction false} ManyOfCharClass(p: Parser<string>, ok: char -> bool, s: string)
    requires IsCharClass(p, ok)
    ensures Progressing(p)
    ensures Many(p, s) == Ok(Chars(LongestPrefix(ok, s)), s[|LongestPrefix(ok, s)|..])
    decreases |s|
  {
    CharClassProgresses(p, ok);
    if |s| > 0 && ok(s[0]) {
      ManyOfCharClass(p, ok, s[1..]);
      var t := LongestPrefix(ok, s[1..]);
      assert LongestPrefix(ok, s) == [s[0]] + t;
      assert Chars([s[0]] + t) == [[s[0]]] + Chars(t);
    } else {
      assert s[0..] == s;
    }
  }

  /** Remainders stay suffixes of the input through every combinator. */
  lemma {:induction false} ManySuffix<T>(p: Parser<T>, s: string)
    requires Progressing(p) && SuffixSound(p)
    ensures IsSuffix(Many(p, s).remaining, s)
    decreases |s|
  {
    match p(s)
    case Fail =>
    case Ok(v, rest) =>
      ManySuffix(p, rest);
      SuffixTransitive(Many(p, rest).remaining, rest, s);
  }

  lemma {:induction false} OneOfSuffix<T>(ps: seq<Parser<T>>, s: string)
    requires forall i | 0 <= i < |ps| :: SuffixSound(ps[i])
    ensures OneOf(ps, s).Ok? ==> IsSuffix(OneOf(ps, s).remaining, s)
    decreases |ps|
  {
    if |ps| > 0 {
      assert SuffixSound(ps[0]);
      if ps[0](s).Fail? {
        assert forall i | 0 <= i < |ps| - 1 :: ps[1..][i] == ps[i + 1];
        OneOfSuffix(ps[1..], s);
      }
    }
  }

  lemma {:induction false} CombineSuffix<T>(ps: seq<Parser<T>>, s: string)
    requires forall i | 0 <= i < |ps| :: SuffixSound(ps[i])
    ensures Combine(ps, s).Ok? ==> IsSuffix(Combine(ps, s).remaining, s)
    decreases |ps|
  {
    if |ps| == 0 {
      assert s[0..] == s;
    } else {
      match ps[0](s)
      case Fail =>
      case Ok(v, rest) =>
        assert SuffixSound(ps[0]);
        CombineSuffix(ps[1..], rest);
        if Combine(ps, s).Ok? {
          SuffixTransitive(Combine(ps[1..], rest).remaining, rest, s);
        }
    }
  }
}
