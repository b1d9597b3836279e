/**
 Python's argument-less `str.split()` and `str.strip()`: both work on the
 characters `str.isspace()` accepts.
 */
module Whitespace {
  import opened Joining

  /** The characters Python's `str.split()` and `str.strip()` treat as whitespace. */
  predicate IsSpace(c: char)
  {
    || ('\t' <= c <= '\r')
    || ('\U{1C}' <= c <= '\U{1F}')
    || c == ' '
    || c == '\U{85}'
    || c == '\U{A0}'
    || c == '\U{1680}'
    || ('\U{2000}' <= c <= '\U{200A}')
    || c == '\U{2028}'
    || c == '\U{2029}'
    || c == '\U{202F}'
    || c == '\U{205F}'
    || c == '\U{3000}'
  }

  predicate NoSpace(s: string)
  {
    forall i :: 0 <= i < |s| ==> !IsSpace(s[i])
  }

  predicate AllSpace(s: string)
  {
    forall i :: 0 <= i < |s| ==> IsSpace(s[i])
  }

  /** A whitespace-separated word: non-empty and free of whitespace. */
  predicate IsWord(w: string)
  {
    w != [] && NoSpace(w)
  }

  /** The characters of s that are not whitespace, in order. */
  function Squeeze(s: string): (r: string)
    ensures NoSpace(r)
    ensures |r| <= |s|
  {
    if s == [] then []
    else if IsSpace(s[0]) then Squeeze(s[1..])
    else [s[0]] + Squeeze(s[1..])
  }

  /** Length of the longest whitespace-free prefix of s. */
  function WordLength(s: string): (n: nat)
    ensures n <= |s|
    ensures NoSpace(s[..n])
    ensures n < |s| ==> IsSpace(s[n])
  {
    if s == [] || IsSpace(s[0]) then 0
    else
      var k := WordLength(s[1..]);
      assert s[..k + 1] == [s[0]] + s[1..][..k];
      k + 1
  }

  /** `s.split()`: the maximal runs of non-whitespace characters, in order. */
  function Split(s: string): (ws: seq<string>)
    ensures forall k :: 0 <= k < |ws| ==> IsWord(ws[k])
    decreases |s|
  {
    if s == [] then []
    else if IsSpace(s[0]) then Split(s[1..])
    else
      var n := WordLength(s);
      [s[..n]] + Split(s[n..])
  }

  /** `s.lstrip()`: s with its leading whitespace removed. */
  function TrimLeft(s: string): (r: string)
    ensures |r| <= |s| && r == s[|s| - |r|..]
    ensures AllSpace(s[..|s| - |r|])
    ensures r == [] || !IsSpace(r[0])
  {
    if s != [] && IsSpace(s[0]) then
      var r := TrimLeft(s[1..]);
      TrimLeftStep(s[0], s[1..], r);
      assert [s[0]] + s[1..] == s;
      r
    else
      NothingRemoved(s);
      s
  }

  lemma NothingRemoved(s: string)
    ensures s == s[|s| - |s|..] && AllSpace(s[..|s| - |s|])
  {
    assert s[..0] == [];
  }

  /** Whitespace in front joins the removed prefix. */
  lemma TrimLeftStep(c: char, t: string, r: string)
    requires IsSpace(c)
    requires |r| <= |t| && r == t[|t| - |r|..] && AllSpace(t[..|t| - |r|])
    ensures var s := [c] + t;
            |r| <= |s| && r == s[|s| - |r|..] && AllSpace(s[..|s| - |r|])
  {
    var s := [c] + t;
    assert s[|s| - |r|..] == t[|t| - |r|..];
    assert s[..|s| - |r|] == [c] + t[..|t| - |r|];
  }

  /** `s.rstrip()`: s with its trailing whitespace removed. */
  function TrimRight(s: string): (r: string)
    ensures |r| <= |s| && r == s[..|r|]
    ensures AllSpace(s[|r|..])
    ensures r == [] || !IsSpace(r[|r| - 1])
  {
    if s != [] && IsSpace(s[|s| - 1]) then
      var r := TrimRight(s[..|s| - 1]);
      TrimRightStep(s[..|s| - 1], s[|s| - 1], r);
      assert s[..|s| - 1] + [s[|s| - 1]] == s;
      r
    else s
  }

  /** Whitespace behind joins the removed suffix. */
  lemma TrimRightStep(t: string, c: char, r: string)
    requires IsSpace(c)
    requires |r| <= |t| && r == t[..|r|] && AllSpace(t[|r|..])
    ensures var s := t + [c];
            |r| <= |s| && r == s[..|r|] && AllSpace(s[|r|..])
  {
    var s := t + [c];
    assert s[..|r|] == t[..|r|];
    assert s[|r|..] == t[|r|..] + [c];
  }

  /**
   `s.strip()`: the slice of s left after removing whitespace at both ends.
   What is removed is whitespace, and what is left neither starts nor ends
   with whitespace.
   */
  function Strip(s: string): (r: string)
    ensures |r| <= |s|
    ensures r == [] || (!IsSpace(r[0]) && !IsSpace(r[|r| - 1]))
    // r sits after the leading whitespace that TrimLeft removes
    ensures IsPadding(s, |s| - |TrimLeft(s)|, r)
  {
    var t := TrimLeft(s);
    var r := TrimRight(t);
    PaddingOfTrims(s, t, r);
    r
  }

  lemma PaddingOfTrims(s: string, t: string, r: string)
    requires |t| <= |s| && t == s[|s| - |t|..] && AllSpace(s[..|s| - |t|])
    requires |r| <= |t| && r == t[..|r|] && AllSpace(t[|r|..])
    ensures IsPadding(s, |s| - |t|, r)
  {
    var i := |s| - |t|;
    assert s[i..i + |r|] == r;
    assert s[i + |r|..] == t[|r|..];
  }

  /** s is r with whitespace in front of it (i characters) and behind it. */
  predicate IsPadding(s: string, i: nat, r: string)
  {
    && i + |r| <= |s|
    && s[i..i + |r|] == r
    && AllSpace(s[..i])
    && AllSpace(s[i + |r|..])
  }

  /** A whitespace-only string has no words. */
  lemma {:induction false} SplitAllSpace(b: string)
    requires AllSpace(b)
    ensures Split(b) == []
  {
    if b != [] {
      SplitAllSpace(b[1..]);
    }
  }

  /** A word splits to itself. */
  lemma SplitWord(w: string)
    requires IsWord(w)
    ensures Split(w) == [w]
  {
    var n := WordLength(w);
    assert w[..n] == w;
    assert w[n..] == [];
  }

  /** A whitespace character is a word boundary: the two sides split independently. */
  lemma {:induction false} SplitAtSpace(x: string, c: char, y: string)
    requires IsSpace(c)
    ensures Split(x + [c] + y) == Split(x) + Split(y)
    decreases |x|
  {
    if x == [] {
      assert (x + [c] + y)[1..] == y;
    } else if IsSpace(x[0]) {
      assert (x + [c] + y)[1..] == x[1..] + [c] + y;
      SplitAtSpace(x[1..], c, y);
    } else {
      FirstWordBeforeSpace(x, c, y);
      SplitAtSpace(x[WordLength(x)..], c, y);
      SplitAfterFirstWord(x, c, y);
    }
  }

  /** The step of SplitAtSpace past the first word of x. */
  lemma SplitAfterFirstWord(x: string, c: char, y: string)
    requires IsSpace(c) && x != [] && !IsSpace(x[0])
    requires Split(x[WordLength(x)..] + [c] + y) == Split(x[WordLength(x)..]) + Split(y)
    ensures Split(x + [c] + y) == Split(x) + Split(y)
  {
    var m := WordLength(x);
    FirstWordBeforeSpace(x, c, y);
    var s := x + [c] + y;
    assert s[0] == x[0];
    assert Split(s) == [s[..m]] + Split(s[m..]);
    assert Split(x) == [x[..m]] + Split(x[m..]);
    PrependWord(Split(s), x[..m], Split(s[m..]), Split(x[m..]), Split(y), Split(x));
  }

  lemma PrependWord(whole: seq<string>, w: string, tail: seq<string>, xs: seq<string>, ys: seq<string>, xws: seq<string>)
    requires whole == [w] + tail && tail == xs + ys && xws == [w] + xs
    ensures whole == xws + ys
  {
  }

  /** The first word of x + c + y lies inside x when c is whitespace. */
  lemma FirstWordBeforeSpace(x: string, c: char, y: string)
    requires IsSpace(c) && x != [] && !IsSpace(x[0])
    ensures 0 < WordLength(x) <= |x|
    ensures WordLength(x + [c] + y) == WordLength(x)
    ensures (x + [c] + y)[..WordLength(x)] == x[..WordLength(x)]
    ensures (x + [c] + y)[WordLength(x)..] == x[WordLength(x)..] + [c] + y
  {
    var z := [c] + y;
    assert x + [c] + y == x + z;
    WordLengthOfPrefix(x, z);
    var m := WordLength(x);
    assert (x + z)[..m] == x[..m];
    assert (x + z)[m..] == x[m..] + z;
  }

  /** The word length of x + z is x's when x's word ends inside x or z starts with whitespace. */
  lemma {:induction false} WordLengthOfPrefix(x: string, z: string)
    requires z != [] && IsSpace(z[0])
    ensures WordLength(x + z) == WordLength(x)
  {
    if x != [] {
      assert (x + z)[0] == x[0];
      if !IsSpace(x[0]) {
        assert (x + z)[1..] == x[1..] + z;
        WordLengthOfPrefix(x[1..], z);
      }
    } else {
      assert x + z == z;
    }
  }

  /** Leading whitespace is ignored by split. */
  lemma {:induction false} SplitSkipsLeadingSpace(a: string, x: string)
    requires AllSpace(a)
    ensures Split(a + x) == Split(x)
  {
    if a != [] {
      assert (a + x)[1..] == a[1..] + x;
      SplitSkipsLeadingSpace(a[1..], x);
    } else {
      assert a + x == x;
    }
  }

  /** Trailing whitespace is ignored by split. */
  lemma SplitSkipsTrailingSpace(x: string, b: string)
    requires AllSpace(b)
    ensures Split(x + b) == Split(x)
  {
    if b != [] {
      assert x + b == x + [b[0]] + b[1..];
      SplitAtSpace(x, b[0], b[1..]);
      SplitAllSpace(b[1..]);
    } else {
      assert x + b == x;
    }
  }

  /** Split inverts joining words with single spaces. */
  lemma {:induction false} SplitJoin(ws: seq<string>)
    requires forall k :: 0 <= k < |ws| ==> IsWord(ws[k])
    ensures Split(Join(" ", ws)) == ws
  {
    if |ws| == 1 {
      SplitWord(ws[0]);
    } else if |ws| > 1 {
      SplitJoin(ws[1..]);
      SplitWord(ws[0]);
      assert Join(" ", ws) == ws[0] + [' '] + Join(" ", ws[1..]);
      SplitAtSpace(ws[0], ' ', Join(" ", ws[1..]));
    }
  }

  /** The words of s hold exactly the non-whitespace characters of s, in order. */
  lemma {:induction false} SplitKeepsContent(s: string)
    ensures Concat(Split(s)) == Squeeze(s)
    decreases |s|
  {
    if s != [] {
      if IsSpace(s[0]) {
        SplitKeepsContent(s[1..]);
      } else {
        var n := WordLength(s);
        SplitKeepsContent(s[n..]);
        assert Concat(Split(s)) == s[..n] + Concat(Split(s[n..]));
        SqueezeAppend(s[..n], s[n..]);
        SqueezeWord(s[..n]);
        assert s == s[..n] + s[n..];
      }
    }
  }

  lemma {:induction false} SqueezeAppend(x: string, y: string)
    ensures Squeeze(x + y) == Squeeze(x) + Squeeze(y)
  {
    if x == [] {
      assert x + y == y;
    } else {
      assert (x + y)[1..] == x[1..] + y;
      SqueezeAppend(x[1..], y);
    }
  }

  lemma {:induction false} SqueezeWord(w: string)
    requires NoSpace(w)
    ensures Squeeze(w) == w
  {
    if w != [] {
      SqueezeWord(w[1..]);
    }
  }

  /** Strip recovers any text that neither starts nor ends with whitespace from its padding. */
  lemma StripPadded(a: string, core: string, b: string)
    requires AllSpace(a) && AllSpace(b)
    requires core == [] || (!IsSpace(core[0]) && !IsSpace(core[|core| - 1]))
    ensures Strip(a + core + b) == core
  {
    assert a + core + b == a + (core + b);
    TrimLeftPadded(a, core + b);
    TrimRightPadded(core, b);
  }

  lemma {:induction false} TrimLeftPadded(a: string, x: string)
    requires AllSpace(a)
    requires x == [] || !IsSpace(x[0]) || AllSpace(x)
    ensures TrimLeft(a + x) == (if AllSpace(x) then [] else x)
  {
    if a == [] {
      assert a + x == x;
      if x != [] && AllSpace(x) {
        TrimLeftAllSpace(x);
      }
    } else {
      assert (a + x)[1..] == a[1..] + x;
      TrimLeftPadded(a[1..], x);
    }
  }

  lemma {:induction false} TrimLeftAllSpace(x: string)
    requires AllSpace(x)
    ensures TrimLeft(x) == []
  {
    if x != [] {
      TrimLeftAllSpace(x[1..]);
    }
  }

  lemma {:induction false} TrimRightPadded(x: string, b: string)
    requires AllSpace(b)
    requires x == [] || !IsSpace(x[|x| - 1])
    ensures TrimRight(x + b) == x
    decreases |b|
  {
    if b == [] {
      assert x + b == x;
    } else {
      var s := x + b;
      assert s[..|s| - 1] == x + b[..|b| - 1];
      TrimRightPadded(x, b[..|b| - 1]);
    }
  }

  /** Stripping twice is stripping once. */
  lemma StripIdempotent(s: string)
    ensures Strip(Strip(s)) == Strip(s)
  {
    var r := Strip(s);
    assert [] + r + [] == r;
    assert AllSpace([]);
    StripPadded([], r, []);
  }

  /** Split sees the same words before and after strip. */
  lemma SplitOfStrip(s: string)
    ensures Split(Strip(s)) == Split(s)
  {
    SplitOfPadding(s, |s| - |TrimLeft(s)|, Strip(s));
  }

  lemma SplitOfPadding(s: string, i: nat, r: string)
    requires IsPadding(s, i, r)
    ensures Split(s) == Split(r)
  {
    var a, b := s[..i], s[i + |r|..];
    assert s == a + (r + b) by {
      assert s == s[..i] + s[i..i + |r|] + s[i + |r|..];
    }
    SplitSkipsLeadingSpace(a, r + b);
    SplitSkipsTrailingSpace(r, b);
  }
}
