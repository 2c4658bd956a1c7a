/** Logical tiles: rows that can be hidden one by one, and the iterator over the visible ones. */
module LogicalTiles {
  import opened SetOperations

  function Trues(vis: seq<bool>): nat {
    if |vis| == 0 then 0 else Trues(vis[..|vis| - 1]) + if vis[|vis| - 1] then 1 else 0
  }

  lemma {:induction false} TruesHidden(vis: seq<bool>, i: nat)
    requires i < |vis| && vis[i]
    ensures Trues(vis) == Trues(vis[i := false]) + 1
  {
    var n := |vis| - 1;
    if i < n {
      TruesHidden(vis[..n], i);
      assert vis[i := false][..n] == vis[..n][i := false];
    } else {
      assert vis[i := false][..n] == vis[..n];
    }
  }

  /** The first visible position from `i` on, or the number of rows. */
  ghost predicate IsNextVisible(vis: seq<bool>, i: nat, pos: nat) {
    && i <= pos <= |vis| && (forall j | i <= j < pos :: !vis[j])
    && (pos < |vis| ==> vis[pos])
  }

  class LogicalTile {
    const rows: seq<Row>
    var visible: seq<bool>
    var visibleTuples: nat

    ghost predicate Valid()
      reads this
    {
      |visible| == |rows| && visibleTuples == Trues(visible)
    }

    constructor (rows: seq<Row>)
      ensures Valid() && this.rows == rows && visible == seq(|rows|, _ => true)
    {
      this.rows := rows;
      visible, visibleTuples := seq(|rows|, _ => true), |rows|;
      new;
      AllTrue(|rows|);
    }

    method RemoveVisibility(i: nat)
      requires Valid() && i < |rows| && visible[i]
      modifies this
      ensures Valid() && visible == old(visible)[i := false] && visibleTuples == old(visibleTuples) - 1
    {
      TruesHidden(visible, i);
      visible := visible[i := false];
      visibleTuples := visibleTuples - 1;
    }

    /** The iterator: the first visible position at or after `i`. */
    method Seek(i: nat) returns (pos: nat)
      requires Valid() && i <= |rows|
      ensures IsNextVisible(visible, i, pos)
    {
      pos := i;
      while pos < |rows| && !visible[pos]
        invariant i <= pos <= |rows| && forall j | i <= j < pos :: !visible[j]
      {
        pos := pos + 1;
      }
    }
  }

  lemma {:induction false} AllTrue(n: nat)
    ensures Trues(seq(n, _ => true)) == n
  {
    if n > 0 {
      AllTrue(n - 1);
      assert seq(n, _ => true)[..n - 1] == seq(n - 1, _ => true);
    }
  }
}
