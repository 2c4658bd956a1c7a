/** Nested sequences as one sequence, and positions in both. */
module Flattening {

  function Flatten<T>(xs: seq<seq<T>>): seq<T> {
    if |xs| == 0 then [] else Flatten(xs[..|xs| - 1]) + xs[|xs| - 1]
  }

  /** Where the `t`-th part begins. */
  function Offset<T>(xs: seq<seq<T>>, t: nat): nat
    requires t <= |xs|
  {
    if t == 0 then 0 else Offset(xs, t - 1) + |xs[t - 1]|
  }

  lemma OffsetNext<T>(xs: seq<seq<T>>, t: nat)
    requires t < |xs|
    ensures Offset(xs, t + 1) == Offset(xs, t) + |xs[t]|
  {
  }

  lemma {:induction false} OffsetPrefix<T>(xs: seq<seq<T>>, n: nat, t: nat)
    requires t <= n <= |xs|
    ensures Offset(xs[..n], t) == Offset(xs, t)
  {
    if t > 0 {
      OffsetPrefix(xs, n, t - 1);
    }
  }

  lemma {:induction false} FlattenLength<T>(xs: seq<seq<T>>)
    ensures |Flatten(xs)| == Offset(xs, |xs|)
  {
    if |xs| > 0 {
      var n := |xs| - 1;
      FlattenLength(xs[..n]);
      OffsetPrefix(xs, n, n);
    }
  }

  lemma {:induction false} OffsetGrows<T>(xs: seq<seq<T>>, t: nat, u: nat)
    requires t <= u <= |xs|
    ensures Offset(xs, t) <= Offset(xs, u)
  {
    if t < u {
      OffsetGrows(xs, t, u - 1);
    }
  }

  lemma {:induction false} FlattenAt<T>(xs: seq<seq<T>>, t: nat, i: nat)
    requires t < |xs| && i < |xs[t]|
    ensures Offset(xs, t) + i < |Flatten(xs)| && Flatten(xs)[Offset(xs, t) + i] == xs[t][i]
  {
    var n := |xs| - 1;
    FlattenLength(xs[..n]);
    OffsetPrefix(xs, n, n);
    OffsetPrefix(xs, n, t);
    if t < n {
      FlattenAt(xs[..n], t, i);
    }
  }

  /** Every position is in exactly one part. */
  lemma PositionsDiffer<T>(xs: seq<seq<T>>, t: nat, i: nat, u: nat, j: nat)
    requires t < |xs| && i < |xs[t]| && u < |xs| && j < |xs[u]|
    ensures Offset(xs, t) + i == Offset(xs, u) + j <==> t == u && i == j
  {
    if t < u {
      OffsetGrows(xs, t + 1, u);
    } else if u < t {
      OffsetGrows(xs, u + 1, t);
    }
  }

  lemma {:induction false} FlattenUpdate<T>(xs: seq<seq<T>>, t: nat, i: nat, x: T)
    requires t < |xs| && i < |xs[t]|
    ensures Offset(xs, t) + i < |Flatten(xs)|
    ensures Flatten(xs[t := xs[t][i := x]]) == Flatten(xs)[Offset(xs, t) + i := x]
  {
    FlattenAt(xs, t, i);
    var n := |xs| - 1;
    var ys := xs[t := xs[t][i := x]];
    FlattenLength(xs[..n]);
    OffsetPrefix(xs, n, n);
    OffsetPrefix(xs, n, t);
    if t < n {
      FlattenAt(xs[..n], t, i);
      FlattenUpdate(xs[..n], t, i, x);
      assert ys[..n] == xs[..n][t := xs[t][i := x]];
    } else {
      assert ys[..n] == xs[..n];
    }
  }

  lemma {:induction false} SameOffsets<T, U>(xs: seq<seq<T>>, ys: seq<seq<U>>, t: nat)
    requires |xs| == |ys| && t <= |xs| && forall u | 0 <= u < |xs| :: |xs[u]| == |ys[u]|
    ensures Offset(xs, t) == Offset(ys, t)
  {
    if t > 0 {
      SameOffsets(xs, ys, t - 1);
    }
  }
}
