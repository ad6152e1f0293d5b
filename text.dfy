/** The JavaScript string and number operations the parsers rely on:
    `parseInt` on decimal digit runs, `Array.prototype.join("")`, and the
    decimal rendering of a natural number used to state round trips. */
module Text {

  datatype Option<+T> = None | Some(value: T)

  predicate IsSpace(c: char) {
    c == ' '
  }

  predicate IsDigit(c: char) {
    '0' <= c <= '9'
  }

  predicate AllDigits(s: string) {
    forall i | 0 <= i < |s| :: IsDigit(s[i])
  }

  function DigitValue(c: char): (d: nat)
    requires IsDigit(c)
    ensures d < 10
  {
    c as int - '0' as int
  }

  function DigitChar(d: nat): (c: char)
    requires d < 10
    ensures IsDigit(c) && DigitValue(c) == d
  {
    ('0' as int + d) as char
  }

  /** The number a run of decimal digits denotes, most significant first;
      leading zeros contribute nothing. */
  function DecimalValue(digits: string): nat
    requires AllDigits(digits)
    decreases |digits|
  {
    if |digits| == 0 then 0
    else 10 * DecimalValue(digits[..|digits| - 1]) + DigitValue(digits[|digits| - 1])
  }

  /** The shortest decimal rendering of `n` (no leading zeros). */
  function ShowNat(n: nat): (s: string)
    ensures |s| > 0 && AllDigits(s)
    ensures n > 0 ==> s[0] != '0'
    decreases n
  {
    if n < 10 then [DigitChar(n)] else ShowNat(n / 10) + [DigitChar(n % 10)]
  }

  lemma {:induction false} DecimalValueOfShowNat(n: nat)
    ensures DecimalValue(ShowNat(n)) == n
    decreases n
  {
    if n >= 10 {
      var s := ShowNat(n);
      assert s[..|s| - 1] == ShowNat(n / 10);
      DecimalValueOfShowNat(n / 10);
    }
  }

  /** The longest prefix of `s` whose characters all satisfy `ok`. */
  function LongestPrefix(ok: char -> bool, s: string): (t: string)
    ensures t <= s
    ensures forall i | 0 <= i < |t| :: ok(t[i])
    ensures |t| < |s| ==> !ok(s[|t|])
    decreases |s|
  {
    if |s| > 0 && ok(s[0]) then [s[0]] + LongestPrefix(ok, s[1..]) else []
  }

  lemma PrefixSplit(t: string, s: string)
    requires t <= s
    ensures s == t + s[|t|..]
  {
    assert t == s[..|t|];
  }

  lemma SplitAfterPrefix(t: string, s: string)
    requires t <= s && |t| < |s|
    ensures s == t + [s[|t|]] + s[|t| + 1..]
    ensures s[|t|..] == [s[|t|]] + s[|t| + 1..]
  {
    assert t == s[..|t|];
  }

  /** A prefix made only of `ok` characters and followed by the end of the
      input or a character that is not `ok` is the longest such prefix. */
  lemma LongestPrefixOfSplit(ok: char -> bool, a: string, b: string)
    requires forall i | 0 <= i < |a| :: ok(a[i])
    requires b == [] || !ok(b[0])
    ensures LongestPrefix(ok, a + b) == a
  {
    var t := LongestPrefix(ok, a + b);
    assert |t| == |a|;
    assert t == (a + b)[..|a|];
  }

  lemma LongestPrefixOfWhole(ok: char -> bool, s: string)
    ensures (forall i | 0 <= i < |s| :: ok(s[i])) ==> LongestPrefix(ok, s) == s
  {
    if forall i | 0 <= i < |s| :: ok(s[i]) {
      LongestPrefixOfSplit(ok, s, []);
      assert s + [] == s;
    }
  }

  /** `parseInt(text)` restricted to what the parsers pass it: the value of
      the leading run of ASCII digits, or `None` (NaN) when there is none. */
  function ParseInt(text: string): (r: Option<nat>)
    ensures r.Some? <==> |text| > 0 && IsDigit(text[0])
    ensures r.Some? && AllDigits(text) ==> r.value == DecimalValue(text)
  {
    var run := LongestPrefix(IsDigit, text);
    LongestPrefixOfWhole(IsDigit, text);
    if |run| == 0 then None else Some(DecimalValue(run))
  }

  /** `parts.join("")`. */
  function Join(parts: seq<string>): string
    decreases |parts|
  {
    if |parts| == 0 then [] else parts[0] + Join(parts[1..])
  }

  /** `s` split into one-character strings. */
  function Chars(s: string): (parts: seq<string>)
    ensures |parts| == |s|
    ensures forall i | 0 <= i < |s| :: parts[i] == [s[i]]
  {
    seq(|s|, i requires 0 <= i < |s| => [s[i]])
  }

  lemma {:induction false} JoinChars(s: string)
    ensures Join(Chars(s)) == s
    decreases |s|
  {
    if |s| > 0 {
      assert Chars(s)[1..] == Chars(s[1..]);
      JoinChars(s[1..]);
      assert [s[0]] + s[1..] == s;
    }
  }
}
