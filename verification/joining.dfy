/**
 Python's `sep.join(xs)` and `"".join(xs)` on strings, with the facts the
 query builder and the record mapping rely on.
 */
module Joining {

  /** Sum of the lengths of the strings in xs. */
  function TotalLength(xs: seq<string>): nat
  {
    if xs == [] then 0 else |xs[0]| + TotalLength(xs[1..])
  }

  /** `sep.join(xs)`: the elements in order, one `sep` between neighbours. */
  function Join(sep: string, xs: seq<string>): (r: string)
    ensures |xs| == 0 ==> r == []
    ensures |xs| == 1 ==> r == xs[0]
    // n elements carry exactly n - 1 separators
    ensures |xs| > 0 ==> |r| + |sep| == TotalLength(xs) + |xs| * |sep|
  {
    if |xs| == 0 then []
    else if |xs| == 1 then xs[0]
    else xs[0] + sep + Join(sep, xs[1..])
  }

  /** `"".join(xs)`. */
  function Concat(xs: seq<string>): (r: string)
    ensures |r| == TotalLength(xs)
  {
    if xs == [] then [] else xs[0] + Concat(xs[1..])
  }

  /** Every element of xs followed by its own copy of sep. */
  function Terminate(xs: seq<string>, sep: string): seq<string>
  {
    seq(|xs|, i requires 0 <= i < |xs| => xs[i] + sep)
  }

  /** Joining a concatenation puts one separator at the seam. */
  lemma {:induction false} JoinAppend(sep: string, xs: seq<string>, ys: seq<string>)
    requires xs != [] && ys != []
    ensures Join(sep, xs + ys) == Join(sep, xs) + sep + Join(sep, ys)
  {
    if |xs| == 1 {
      assert (xs + ys)[1..] == ys;
    } else {
      assert (xs + ys)[1..] == xs[1..] + ys;
      JoinAppend(sep, xs[1..], ys);
    }
  }

  /**
   A joined list followed by one more separator is the same text as every
   element followed by its own separator.
   */
  lemma {:induction false} JoinThenSeparator(sep: string, xs: seq<string>)
    requires xs != []
    ensures Join(sep, xs) + sep == Concat(Terminate(xs, sep))
  {
    var ts := Terminate(xs, sep);
    if |xs| == 1 {
      assert ts == [xs[0] + sep];
      assert Concat(ts) == ts[0] + Concat([]);
    } else {
      JoinThenSeparator(sep, xs[1..]);
      assert ts[1..] == Terminate(xs[1..], sep);
      assert Concat(ts) == ts[0] + Concat(ts[1..]);
    }
  }
}
