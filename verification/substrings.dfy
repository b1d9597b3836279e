/**
 The two substring operations the record mapping uses: `s.replace(pat, "")`
 and `s.split(c)[0]` for a single-character separator.
 */
module Substrings {

  /** pat occurs in s starting at index i. */
  predicate OccursAt(s: string, pat: string, i: nat)
  {
    i + |pat| <= |s| && s[i..i + |pat|] == pat
  }

  predicate Occurs(s: string, pat: string)
  {
    exists i :: 0 <= i <= |s| && OccursAt(s, pat, i)
  }

  /**
   `s.replace(pat, "")`: Python scans left to right and deletes each
   occurrence it meets; occurrences do not overlap and the result is not
   scanned again.
   */
  function RemoveAll(s: string, pat: string): (r: string)
    requires pat != []
    ensures |r| <= |s|
    // something is deleted exactly when pat occurs somewhere
    ensures |r| < |s| <==> Occurs(s, pat)
    decreases |s|
  {
    if |s| < |pat| then
      assert !Occurs(s, pat);
      s
    else if s[..|pat|] == pat then
      assert OccursAt(s, pat, 0);
      RemoveAll(s[|pat|..], pat)
    else
      var r := RemoveAll(s[1..], pat);
      TailOccurrence(s, pat);
      [s[0]] + r
  }

  /** Text without pat passes through unchanged, and only such text does. */
  lemma RemoveAllUnchanged(s: string, pat: string)
    requires pat != []
    ensures RemoveAll(s, pat) == s <==> !Occurs(s, pat)
  {
    if !Occurs(s, pat) {
      RemoveAllNoOccurrence(s, pat);
    }
  }

  lemma {:induction false} RemoveAllNoOccurrence(s: string, pat: string)
    requires pat != []
    requires !Occurs(s, pat)
    ensures RemoveAll(s, pat) == s
    decreases |s|
  {
    if |s| >= |pat| {
      assert !OccursAt(s, pat, 0);
      NoOccurrenceInTail(s, pat);
      RemoveAllNoOccurrence(s[1..], pat);
    }
  }

  lemma NoOccurrenceInTail(s: string, pat: string)
    requires s != []
    requires !Occurs(s, pat)
    ensures !Occurs(s[1..], pat)
  {
    TailOccurrence(s, pat);
  }

  /** An occurrence in the tail of s is one in s, one index further on, and vice versa away from index 0. */
  lemma TailOccurrence(s: string, pat: string)
    requires s != []
    ensures Occurs(s[1..], pat) ==> Occurs(s, pat)
    ensures Occurs(s, pat) && !OccursAt(s, pat, 0) ==> Occurs(s[1..], pat)
  {
    if Occurs(s[1..], pat) {
      var i :| 0 <= i <= |s[1..]| && OccursAt(s[1..], pat, i);
      assert s[1..][i..i + |pat|] == s[i + 1..i + 1 + |pat|];
      assert OccursAt(s, pat, i + 1);
    }
    if Occurs(s, pat) && !OccursAt(s, pat, 0) {
      var i :| 0 <= i <= |s| && OccursAt(s, pat, i);
      assert s[1..][i - 1..i - 1 + |pat|] == s[i..i + |pat|];
      assert OccursAt(s[1..], pat, i - 1);
    }
  }

  /** Text shorter than the pattern cannot hold it. */
  lemma ShorterThanPattern(s: string, pat: string)
    requires |s| < |pat|
    ensures !Occurs(s, pat)
  {
  }

  /** No proper suffix of pat is also a prefix of it, so two occurrences never overlap. */
  predicate Borderless(pat: string)
  {
    forall k :: 0 < k < |pat| ==> pat[k..] != pat[..|pat| - k]
  }

  /**
   For a borderless pattern, an occurrence that follows text free of the
   pattern is deleted, and the text before it is kept verbatim.
   */
  lemma {:induction false} RemoveAllAfterClean(x: string, pat: string, y: string)
    requires pat != [] && Borderless(pat)
    requires !Occurs(x, pat)
    ensures RemoveAll(x + pat + y, pat) == x + RemoveAll(y, pat)
    decreases |x|
  {
    var s := x + pat + y;
    if x == [] {
      assert s == pat + y;
      assert s[..|pat|] == pat;
      assert s[|pat|..] == y;
    } else {
      NotAtStart(x, pat, y);
      NoOccurrenceInTail(x, pat);
      assert s[1..] == x[1..] + pat + y;
      RemoveAllAfterClean(x[1..], pat, y);
      RemoveAllKeepsFirst(s, pat);
      KeepFirst(RemoveAll(s, pat), s[0], RemoveAll(s[1..], pat), x, RemoveAll(y, pat));
    }
  }

  /** Text that does not start with pat keeps its first character. */
  lemma RemoveAllKeepsFirst(s: string, pat: string)
    requires pat != [] && |s| >= |pat| && s[..|pat|] != pat
    ensures RemoveAll(s, pat) == [s[0]] + RemoveAll(s[1..], pat)
  {
  }

  lemma KeepFirst(whole: string, c: char, tail: string, x: string, rest: string)
    requires x != [] && c == x[0]
    requires whole == [c] + tail && tail == x[1..] + rest
    ensures whole == x + rest
  {
    assert x == [x[0]] + x[1..];
  }

  /** Text that starts with a non-empty, pattern-free x followed by a borderless pattern does not start with the pattern. */
  lemma NotAtStart(x: string, pat: string, y: string)
    requires pat != [] && Borderless(pat)
    requires x != [] && !Occurs(x, pat)
    ensures |x + pat + y| >= |pat| && (x + pat + y)[..|pat|] != pat
  {
    var s := x + pat + y;
    if |x| >= |pat| {
      assert s[..|pat|] == x[0..|pat|];
      assert !OccursAt(x, pat, 0);
    } else {
      var k := |x|;
      assert s[..|pat|] == x + pat[..|pat| - k];
      assert s[..|pat|][k..] == pat[..|pat| - k];
      assert pat[k..] != pat[..|pat| - k];
    }
  }

  /** `s.split(c)[0]`: the text in front of the first c, or all of s when there is none. */
  function BeforeFirst(s: string, c: char): (r: string)
    ensures |r| <= |s| && r == s[..|r|]
    ensures c !in r
    ensures r == s || s[|r|] == c
  {
    if s == [] || s[0] == c then []
    else
      var r := BeforeFirst(s[1..], c);
      assert [s[0]] + r == s[..|r| + 1];
      [s[0]] + r
  }

  /** The text in front of the first c is recovered from `x + c + y` when x holds no c. */
  lemma {:induction false} BeforeFirstSplitsAt(x: string, c: char, y: string)
    requires c !in x
    ensures BeforeFirst(x + [c] + y, c) == x
  {
    if x == [] {
      assert (x + [c] + y)[0] == c;
    } else {
      assert (x + [c] + y)[1..] == x[1..] + [c] + y;
      BeforeFirstSplitsAt(x[1..], c, y);
    }
  }
}
