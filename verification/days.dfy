/**
 Reading the length of the search window from the user's reply: the reply
 is stripped, a string of digits is read as a decimal number, and anything
 else means the default of 30 days.
 */
module Days {
  import opened Whitespace
  import opened Decimal

  const DefaultDays: nat := 30

  /**
   The window length a reply asks for. A stripped reply of digits is the
   decimal text of the result with some zeros in front; any other reply
   gives the default.
   */
  function ParseDays(text: string): (days: nat)
    ensures IsDigits(Strip(text)) ==> ZeroPadded(Strip(text), Show(days))
    ensures !IsDigits(Strip(text)) ==> days == DefaultDays
  {
    var t := Strip(text);
    if IsDigits(t) then
      ShowOfValueWithZeros(t);
      Value(t)
    else DefaultDays
  }

  /** A number written in decimal, with any whitespace around it, is read back exactly. */
  lemma ParseDaysOfShow(n: nat, before: string, after: string)
    requires AllSpace(before) && AllSpace(after)
    ensures ParseDays(before + Show(n) + after) == n
  {
    var s := Show(n);
    assert !IsSpace(s[0]) && !IsSpace(s[|s| - 1]);
    StripPadded(before, s, after);
    ValueOfShow(n);
  }

  /** Zeros in front of the number change nothing: "007" is read as 7. */
  lemma ParseDaysPadded(n: nat, k: nat, before: string, after: string)
    requires AllSpace(before) && AllSpace(after)
    ensures ParseDays(before + Zeros(k) + Show(n) + after) == n
  {
    var z, d := Zeros(k), Show(n);
    var s := z + d;
    assert s[|s| - 1] == d[|d| - 1];
    assert !IsSpace(s[0]) && !IsSpace(s[|s| - 1]);
    assert before + s + after == before + z + d + after;
    StripPadded(before, s, after);
    ValueOfZerosPrefix(z, d);
    ValueOfShow(n);
  }

  /** A reply with any non-digit character left after stripping means the default. */
  lemma ParseDaysFallback(text: string, i: nat)
    requires i < |Strip(text)| && !IsDigit(Strip(text)[i])
    ensures ParseDays(text) == DefaultDays
  {
  }

  /** An empty or whitespace-only reply means the default. */
  lemma ParseDaysBlank(text: string)
    requires AllSpace(text)
    ensures ParseDays(text) == DefaultDays
  {
    assert text + [] + [] == text;
    StripPadded(text, [], []);
  }

  /** The replies "", "abc" and "-5" mean the default of 30 days. */
  lemma ParseDaysRejects()
    ensures ParseDays("") == 30
    ensures ParseDays("abc") == 30
    ensures ParseDays("-5") == 30
  {
    ParseDaysBlank("");
    NotDigitsAtStart("abc");
    NotDigitsAtStart("-5");
  }

  lemma NotDigitsAtStart(s: string)
    requires s != [] && !IsSpace(s[0]) && !IsSpace(s[|s| - 1]) && !IsDigit(s[0])
    ensures ParseDays(s) == DefaultDays
  {
    assert [] + s + [] == s;
    StripPadded([], s, []);
  }

  /** The replies "7" and " 10\n" give 7 and 10 days; "007" gives 7. */
  lemma ParseDaysAccepts()
    ensures ParseDays("7") == 7
    ensures ParseDays(" 10\n") == 10
    ensures ParseDays("007") == 7
  {
    SingleDigit();
    PaddedTen();
    LeadingZeros();
  }

  lemma SingleDigit()
    ensures ParseDays("7") == 7
  {
    assert Show(7) == "7";
    assert [] + "7" + [] == "7";
    ParseDaysOfShow(7, [], []);
  }

  lemma PaddedTen()
    ensures ParseDays(" 10\n") == 10
  {
    assert Show(10) == "10";
    assert " " + "10" + "\n" == " 10\n";
    ParseDaysOfShow(10, " ", "\n");
  }

  lemma LeadingZeros()
    ensures ParseDays("007") == 7
  {
    assert Zeros(2) == "00" && Show(7) == "7";
    assert [] + Zeros(2) + Show(7) + [] == "007";
    ParseDaysPadded(7, 2, [], []);
  }
}
