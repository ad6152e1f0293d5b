/** Concrete inputs and what the parsers give on them: the repository's
    own test case and the edge cases the library's behaviour turns on. */
module Scenarios {
  import opened ParseResults
  import opened Text
  import opened Primitives
  import opened Combinators
  import opened Grammar

  /** The repository's test: `string('"Hello, world!"')`. */
  lemma HelloWorldString()
    ensures QuotedString("\"Hello, world!\"") == Ok("Hello, world!", "")
  {
    assert "\"Hello, world!\"" == Quote + "Hello, world!" + Quote + "";
    QuotedStringRoundTrip("Hello, world!", "");
  }

  /** The closing quote ends the string; what follows is left over. A
      missing closing quote is a failure. */
  lemma StringStopsAtClosingQuote()
    ensures QuotedString("\"abc\" rest") == Ok("abc", " rest")
    ensures QuotedString("\"abc").Fail?
  {
    assert "\"abc\" rest" == Quote + "abc" + Quote + " rest";
    QuotedStringRoundTrip("abc", " rest");
    QuotedStringShape("\"abc");
    assert "\"abc"[1..] == "abc";
  }

  /** `number("123abc")` reads 123 and leaves `abc`. */
  lemma NumberStopsAtNonDigit()
    ensures Number("123abc") == Ok(123, "abc")
  {
    assert "123abc" == ShowNat(123) + "abc";
    NumberOfShowNat(123, "abc");
  }

  /** Leading zeros are accepted. */
  lemma NumberWithLeadingZeros()
    ensures Number("007") == Ok(7, "")
  {
    assert LongestPrefix(IsDigit, "007") == "007" by {
      LongestPrefixOfSplit(IsDigit, "007", "");
      assert "007" + "" == "007";
    }
    NumberReadsDigitRun("007");
  }

  lemma NumberNeedsDigit()
    ensures Number("abc").Fail?
  {
    NumberReadsDigitRun("abc");
  }

  lemma NilExample()
    ensures Nil("nullx") == Ok((), "x")
    ensures Nil("nul").Fail?
  {
  }

  /** `json` on a string, a number and a word outside the grammar. */
  lemma JsonOfString()
    ensures Json("\"x\"") == Ok(JString("x"), "")
  {
    assert QuotedString("\"x\"") == Ok("x", "") by {
      assert "\"x\"" == Quote + "x" + Quote + "";
      QuotedStringRoundTrip("x", "");
    }
    JsonPriority("\"x\"");
  }

  lemma JsonOfNumber()
    ensures Json("42") == Ok(JNumber(42), "")
  {
    assert QuotedString("42").Fail? by {
      QuotedStringShape("42");
    }
    assert Number("42") == Ok(42, "") by {
      assert "42" == ShowNat(42) + "";
      NumberOfShowNat(42, "");
    }
    JsonPriority("42");
  }

  lemma JsonRejectsTruthy()
    ensures Json("truthy").Fail?
  {
    assert QuotedString("truthy").Fail? by {
      QuotedStringShape("truthy");
    }
    assert Number("truthy").Fail? by {
      NumberReadsDigitRun("truthy");
    }
    JsonPriority("truthy");
  }

  /** `many(digit)("")`, `oneOf()` and `combine()` on any input. */
  lemma EmptyCases<T>(s: string)
    ensures Many(Digit, "") == Ok([], "")
    ensures OneOf<T>([], s).Fail?
    ensures Combine<T>([], s) == Ok([], s)
  {
    DigitRun("");
  }
}
