/** The hash set-operation executor over logical tiles. */
module HashSetOps {
  import opened Flattening
  import opened SetOperations
  import opened LogicalTiles

  /** The counters of one distinct row, and the tuple that represents it as the hash key. */
  datatype Group = Group(left: nat, right: nat, tile: nat, tuple: nat)

  type Groups = map<Row, Group>

  function Left(h: Groups): map<Row, nat> {
    map x | x in h :: h[x].left
  }

  // ----- The tiles as one sequence of rows -----

  function RowsOf(ts: seq<LogicalTile>): seq<seq<Row>> {
    seq(|ts|, t requires 0 <= t < |ts| => ts[t].rows)
  }

  ghost function VisOf(ts: seq<LogicalTile>): seq<seq<bool>>
    reads ts
  {
    seq(|ts|, t requires 0 <= t < |ts| reads ts => ts[t].visible)
  }

  ghost predicate TilesOk(ts: seq<LogicalTile>)
    reads ts
  {
    && (forall t | 0 <= t < |ts| :: ts[t].Valid())
    && (forall t, u | 0 <= t < u < |ts| :: ts[t] != ts[u])
  }

  ghost predicate AllValid(ts: seq<LogicalTile>)
    reads ts
  {
    forall t | 0 <= t < |ts| :: ts[t].Valid()
  }

  /** The visible ones of the first `n` rows. */
  function SeenTo(rows: seq<Row>, vis: seq<bool>, n: nat): seq<Row>
    requires n <= |rows| == |vis|
  {
    if n == 0 then [] else SeenTo(rows, vis, n - 1) + if vis[n - 1] then [rows[n - 1]] else []
  }

  lemma SeenNone(rows: seq<Row>, vis: seq<bool>)
    requires |rows| == |vis|
    ensures SeenTo(rows, vis, 0) == []
  {
  }

  lemma SeenNext(rows: seq<Row>, vis: seq<bool>, n: nat)
    requires n < |rows| == |vis| && vis[n]
    ensures SeenTo(rows, vis, n + 1) == SeenTo(rows, vis, n) + [rows[n]]
  {
  }

  lemma {:induction false} SeenSkip(rows: seq<Row>, vis: seq<bool>, i: nat, j: nat)
    requires i <= j <= |rows| == |vis| && forall k | i <= k < j :: !vis[k]
    ensures SeenTo(rows, vis, j) == SeenTo(rows, vis, i)
  {
    if i < j {
      SeenSkip(rows, vis, i, j - 1);
    }
  }

  ghost function SeenRows(tile: LogicalTile): seq<Row>
    reads tile
  {
    if |tile.rows| == |tile.visible| then SeenTo(tile.rows, tile.visible, |tile.rows|) else []
  }

  ghost function SeenOf(ts: seq<LogicalTile>): seq<seq<Row>>
    reads ts
  {
    seq(|ts|, t requires 0 <= t < |ts| reads ts => SeenRows(ts[t]))
  }

  /** The shapes of the rows and of the visibility flags agree. */
  ghost predicate SameShape(rowss: seq<seq<Row>>, viss: seq<seq<bool>>) {
    |rowss| == |viss| && forall t | 0 <= t < |rowss| :: |rowss[t]| == |viss[t]|
  }

  lemma ShapeFacts(rowss: seq<seq<Row>>, viss: seq<seq<bool>>)
    requires SameShape(rowss, viss)
    ensures |Flatten(rowss)| == |Flatten(viss)| == Offset(rowss, |rowss|)
  {
    FlattenLength(rowss);
    FlattenLength(viss);
    SameOffsets(rowss, viss, |rowss|);
  }

  lemma TileCount(ts: seq<LogicalTile>)
    ensures |RowsOf(ts)| == |ts| && Offset(RowsOf(ts), 0) == 0
  {
  }

  /** Row `i` of tile `t` in the flat sequences. */
  lemma ShapeAt(rowss: seq<seq<Row>>, viss: seq<seq<bool>>, t: nat, i: nat)
    requires SameShape(rowss, viss) && t < |rowss| && i < |rowss[t]|
    ensures var n := Offset(rowss, t) + i;
            && n < |Flatten(rowss)| == |Flatten(viss)|
            && Flatten(rowss)[n] == rowss[t][i] && Flatten(viss)[n] == viss[t][i]
  {
    ShapeFacts(rowss, viss);
    FlattenAt(rowss, t, i);
    FlattenAt(viss, t, i);
    SameOffsets(rowss, viss, t);
  }

  // ----- Counting -----

  /** The representative is a visible row of its group among the first `n`. */
  predicate Represents(rowss: seq<seq<Row>>, vis: seq<bool>, g: Group, x: Row, n: nat) {
    && g.tile < |rowss| && g.tuple < |rowss[g.tile]| && rowss[g.tile][g.tuple] == x
    && Offset(rowss, g.tile) + g.tuple < n && Offset(rowss, g.tile) + g.tuple < |vis|
    && vis[Offset(rowss, g.tile) + g.tuple]
  }

  /** The left counters after the first `n` rows. */
  ghost predicate Counted(rowss: seq<seq<Row>>, vis: seq<bool>, h: Groups, n: nat) {
    && n <= |Flatten(rowss)| == |vis|
    && (forall x | x in h ::
          h[x].left == CountTo(Flatten(rowss), vis, n, x) && h[x].right == 0 && Represents(rowss, vis, h[x], x, n))
    && (forall i | 0 <= i < n && vis[i] :: Flatten(rowss)[i] in h)
  }

  function CountIn(h: Groups, x: Row, t: nat, i: nat): Groups {
    h[x := if x in h then h[x].(left := h[x].left + 1) else Group(1, 0, t, i)]
  }

  lemma {:induction false} CountAbsent(rows: seq<Row>, vis: seq<bool>, n: nat, x: Row)
    requires n <= |rows| == |vis| && forall i | 0 <= i < n && vis[i] :: rows[i] != x
    ensures CountTo(rows, vis, n, x) == 0
  {
    if n > 0 {
      CountAbsent(rows, vis, n - 1, x);
    }
  }

  lemma CountOneMore(rowss: seq<seq<Row>>, vis: seq<bool>, h: Groups, t: nat, i: nat)
    requires t < |rowss| && i < |rowss[t]| && Counted(rowss, vis, h, Offset(rowss, t) + i)
    requires Offset(rowss, t) + i < |vis| && Flatten(rowss)[Offset(rowss, t) + i] == rowss[t][i] &&
             vis[Offset(rowss, t) + i]
    ensures Counted(rowss, vis, CountIn(h, rowss[t][i], t, i), Offset(rowss, t) + i + 1)
  {
    var n, x := Offset(rowss, t) + i, rowss[t][i];
    if x !in h {
      CountAbsent(Flatten(rowss), vis, n, x);
    }
  }

  lemma {:induction false} CountSkip(rowss: seq<seq<Row>>, vis: seq<bool>, h: Groups, n: nat, m: nat)
    requires Counted(rowss, vis, h, n) && n <= m <= |vis| && forall i | n <= i < m :: !vis[i]
    ensures Counted(rowss, vis, h, m)
    decreases m - n
  {
    if n < m {
      assert Counted(rowss, vis, h, n + 1);
      CountSkip(rowss, vis, h, n + 1, m);
    }
  }

  /** Counting is done: every group has its number of visible rows and a representative. */
  lemma CountedGroups(rowss: seq<seq<Row>>, vis: seq<bool>, h: Groups)
    requires Counted(rowss, vis, h, |vis|)
    ensures Grouped(Flatten(rowss), vis, FirstOf(rowss, h), Left(h))
    ensures forall x | x in h :: Left(h)[x] == Count(Flatten(rowss), vis, x) > 0
  {
    var rows := Flatten(rowss);
    forall x | x in h
      ensures var f := FirstOf(rowss, h)[x]; f < |rows| && vis[f] && rows[f] == x && Count(rows, vis, x) > 0
    {
      assert Represents(rowss, vis, h[x], x, |vis|);
      FlattenAt(rowss, h[x].tile, h[x].tuple);
      CountPositive(rows, vis, |rows|, FirstOf(rowss, h)[x]);
    }
  }

  /** The flat positions of the representatives. */
  function FirstOf(rowss: seq<seq<Row>>, h: Groups): map<Row, nat> {
    map x | x in h :: if h[x].tile <= |rowss| then Offset(rowss, h[x].tile) + h[x].tuple else 0
  }

  // ----- The first round -----

  /** Same groups with the same representatives; the counters may differ. */
  ghost predicate SameGroups(h: Groups, h': Groups) {
    h.Keys == h'.Keys && forall x | x in h :: h'[x].tile == h[x].tile && h'[x].tuple == h[x].tuple
  }

  lemma {:induction false} SweepSkip(rows: seq<Row>, vis: seq<bool>, first: map<Row, nat>, quota: map<Row, nat>,
                                     n: nat, m: nat)
    requires n <= m <= |rows| == |vis| && forall i | n <= i < m :: !vis[i]
    ensures Sweep(rows, vis, first, quota, n) == Sweep(rows, vis, first, quota, m)
    decreases m - n
  {
    if n < m {
      SweepSkip(rows, vis, first, quota, n, m - 1);
    }
  }

  /** The state of the first round after `n` rows: flags and counters are those of the sweep. */
  ghost predicate SweptTo(rowss: seq<seq<Row>>, vis: seq<bool>, h0: Groups, vis': seq<bool>, h: Groups, n: nat) {
    && n <= |Flatten(rowss)| == |vis| && SameGroups(h0, h)
    && Swept(vis', Left(h)) == Sweep(Flatten(rowss), vis, FirstOf(rowss, h0), Left(h0), n)
  }

  lemma SweptOneMore(rowss: seq<seq<Row>>, vis: seq<bool>, h0: Groups, vis': seq<bool>, h: Groups, t: nat, i: nat)
    requires t < |rowss| && i < |rowss[t]| && HasGroups(rowss, vis, h0)
    requires SweptTo(rowss, vis, h0, vis', h, Offset(rowss, t) + i)
    requires Offset(rowss, t) + i < |vis| && vis[Offset(rowss, t) + i] &&
             Flatten(rowss)[Offset(rowss, t) + i] == rowss[t][i]
    ensures var n, x := Offset(rowss, t) + i, rowss[t][i];
            && x in h && vis'[n]
            && (if h[x].tile == t && h[x].tuple == i then SweptTo(rowss, vis, h0, vis', h, n + 1)
                else if h[x].left > 0 then SweptTo(rowss, vis, h0, vis', h[x := h[x].(left := h[x].left - 1)], n + 1)
                else SweptTo(rowss, vis, h0, vis'[n := false], h, n + 1))
  {
    var n, x := Offset(rowss, t) + i, rowss[t][i];
    var rows, first, quota := Flatten(rowss), FirstOf(rowss, h0), Left(h0);
    SweepBeyond(rows, vis, first, quota, n, n);
    PositionsDiffer(rowss, h0[x].tile, h0[x].tuple, t, i);
    assert h[x].left > 0 ==> Left(h[x := h[x].(left := h[x].left - 1)]) == Left(h)[x := h[x].left - 1];
  }

  /** What the rounds know about the table: groups with valid representatives. */
  ghost predicate HasGroups(rowss: seq<seq<Row>>, vis: seq<bool>, h: Groups) {
    && Grouped(Flatten(rowss), vis, FirstOf(rowss, h), Left(h))
    && forall x | x in h :: h[x].tile < |rowss| && h[x].tuple < |rowss[h[x].tile]|
  }

  // ----- The second round -----

  lemma SettleOne(rowss: seq<seq<Row>>, s: Swept, first: map<Row, nat>, done: set<Row>, vis: seq<bool>, x: Row)
    requires Settled(Flatten(rowss), s, first, done, vis) && x in first && x !in done && s.vis[first[x]]
    requires Flatten(rowss)[first[x]] == x
    ensures vis[first[x]]
    ensures Settled(Flatten(rowss), s, first, done + {x}, if s.quota[x] == 0 then vis[first[x] := false] else vis)
  {
    var rows := Flatten(rowss);
    assert vis[first[x]] == (s.vis[first[x]] && !IsSpent(rows, s, first, done, first[x]));
    var vis' := if s.quota[x] == 0 then vis[first[x] := false] else vis;
    forall i | 0 <= i < |vis'| ensures vis'[i] == (s.vis[i] && !IsSpent(rows, s, first, done + {x}, i)) {
      assert vis[i] == (s.vis[i] && !IsSpent(rows, s, first, done, i));
    }
  }

  lemma SettleNone(rows: seq<Row>, s: Swept, first: map<Row, nat>)
    requires |s.vis| == |rows| && first.Keys == s.quota.Keys && forall x | x in first :: first[x] < |rows|
    ensures Settled(rows, s, first, {}, s.vis)
  {
  }

  // ----- The executor -----

  class HashSetOpExecutor {
    const tiles: seq<LogicalTile>
    var htable: Groups

    constructor (tiles: seq<LogicalTile>)
      ensures this.tiles == tiles && htable == map[]
    {
      this.tiles := tiles;
      htable := map[];
    }

    /** Count the visible rows of one left tile. */
    method CountTile(t: nat, ghost rowss: seq<seq<Row>>, ghost viss: seq<seq<bool>>)
      requires t < |tiles| && TilesOk(tiles) && rowss == RowsOf(tiles) && viss == VisOf(tiles)
      requires SameShape(rowss, viss) && Counted(rowss, Flatten(viss), htable, Offset(rowss, t))
      modifies this`htable
      ensures Counted(rowss, Flatten(viss), htable, Offset(rowss, t) + |rowss[t]|)
    {
      hide Counted, Flatten, Offset;
      var tile := tiles[t];
      assert viss[t] == tile.visible && rowss[t] == tile.rows;
      var i := tile.Seek(0);
      CountStart(rowss, viss, htable, t, i);
      while i < |tile.rows|
        invariant i <= |tile.rows| && (i < |tile.rows| ==> tile.visible[i])
        invariant Counted(rowss, Flatten(viss), htable, Offset(rowss, t) + i)
      {
        var next := tile.Seek(i + 1);
        CountVisit(rowss, viss, htable, t, i, next);
        htable := CountIn(htable, tile.rows[i], t, i);
        i := next;
      }
    }

    /** Scan the left child's tiles. */
    method CountLeft(ghost rowss: seq<seq<Row>>, ghost viss: seq<seq<bool>>)
      requires TilesOk(tiles) && rowss == RowsOf(tiles) && viss == VisOf(tiles) && SameShape(rowss, viss) &&
               htable == map[]
      modifies this`htable
      ensures Counted(rowss, Flatten(viss), htable, |Flatten(viss)|)
    {
      hide Counted, Flatten, SameShape, TilesOk, VisOf, RowsOf, Offset;
      ShapeFacts(rowss, viss);
      NothingCounted(rowss, viss);
      TileCount(tiles);
      for t := 0 to |tiles|
        invariant Counted(rowss, Flatten(viss), htable, Offset(rowss, t))
      {
        CountTile(t, rowss, viss);
        OffsetNext(rowss, t);
      }
    }

    /** Count the visible rows of one right tile; those without a group cannot be in the result. */
    method CountRightTile(tile: LogicalTile)
      requires tile.Valid()
      modifies this`htable
      ensures Matched(old(htable), htable, SeenRows(tile))
    {
      hide Matched, SeenTo, Trues;
      MatchNone(htable);
      SeenNone(tile.rows, tile.visible);
      var i := tile.Seek(0);
      SeenSkip(tile.rows, tile.visible, 0, i);
      while i < |tile.rows|
        invariant i <= |tile.rows| && (i < |tile.rows| ==> tile.visible[i])
        invariant Matched(old(htable), htable, SeenTo(tile.rows, tile.visible, i))
      {
        var row := tile.rows[i];
        MatchOne(old(htable), htable, SeenTo(tile.rows, tile.visible, i), row);
        SeenNext(tile.rows, tile.visible, i);
        if row in htable {
          htable := htable[row := htable[row].(right := htable[row].right + 1)];
        }
        var next := tile.Seek(i + 1);
        SeenSkip(tile.rows, tile.visible, i + 1, next);
        i := next;
      }
    }

    /** Scan the right child's tiles. */
    method CountRight(right: seq<LogicalTile>)
      requires AllValid(right)
      modifies this`htable
      ensures Matched(old(htable), htable, Flatten(SeenOf(right)))
    {
      hide Matched;
      ghost var seen := SeenOf(right);
      MatchNone(htable);
      for t := 0 to |right|
        invariant Matched(old(htable), htable, Flatten(seen[..t]))
      {
        ghost var was := htable;
        CountRightTile(right[t]);
        MatchMore(old(htable), was, htable, Flatten(seen[..t]), seen[t]);
        assert seen[t] == SeenRows(right[t]);
        assert seen[..t + 1][..t] == seen[..t];
      }
      assert seen[..|right|] == seen;
    }

    /** Turn the counters of each group into its number of output copies. */
    method CalculateCopies(op: SetOp)
      requires forall x | x in htable :: htable[x].left > 0
      modifies this`htable
      ensures SameGroups(old(htable), htable)
      ensures forall x | x in htable :: htable[x].left == Copies(op, old(htable)[x].left, old(htable)[x].right)
    {
      var rest := htable.Keys;
      while rest != {}
        invariant rest <= htable.Keys
        invariant SameGroups(old(htable), htable)
        invariant forall x | x in rest :: htable[x] == old(htable)[x]
        invariant forall x | x in htable && x !in rest ::
                    htable[x].left == Copies(op, old(htable)[x].left, old(htable)[x].right)
      {
        SomeMember(rest);
        var x :| x in rest;
        var l, r := htable[x].left, htable[x].right;
        var copies := match op
          case Intersect => if r > 0 then 1 else 0
          case IntersectAll => if l < r then l else r
          case Except => if r > 0 then 0 else 1
          case ExceptAll => if l > r then l - r else 0;
        htable := htable[x := htable[x].(left := copies)];
        rest := rest - {x};
      }
    }

    // ----- The two rounds -----

    /** One visible tuple in the first round. */
    method VisitTuple(t: nat, i: nat, ghost rowss: seq<seq<Row>>, ghost vis: seq<bool>, ghost h0: Groups)
      requires t < |tiles| && TilesOk(tiles) && rowss == RowsOf(tiles) && SameShape(rowss, VisOf(tiles))
      requires HasGroups(rowss, vis, h0) && i < |tiles[t].rows| && tiles[t].visible[i]
      requires Offset(rowss, t) + i < |vis| && vis[Offset(rowss, t) + i]
      requires SweptTo(rowss, vis, h0, Flatten(VisOf(tiles)), htable, Offset(rowss, t) + i)
      modifies this`htable, tiles[t]
      ensures TilesOk(tiles) && SameShape(rowss, VisOf(tiles))
      ensures SweptTo(rowss, vis, h0, Flatten(VisOf(tiles)), htable, Offset(rowss, t) + i + 1)
    {
      hide SweptTo, HasGroups, Flatten, Offset;
      ghost var viss := VisOf(tiles);
      ShapeAt(rowss, viss, t, i);
      SweptOneMore(rowss, vis, h0, Flatten(viss), htable, t, i);
      var row := tiles[t].rows[i];
      var group := htable[row];
      if group.tile == t && group.tuple == i {
      } else if group.left > 0 {
        htable := htable[row := group.(left := group.left - 1)];
      } else {
        HideFlat(rowss, viss, t, i);
        tiles[t].RemoveVisibility(i);
        assert VisOf(tiles) == viss[t := viss[t][i := false]];
      }
    }

    method FirstRoundTile(t: nat, ghost rowss: seq<seq<Row>>, ghost vis: seq<bool>, ghost h0: Groups)
      requires t < |tiles| && TilesOk(tiles) && rowss == RowsOf(tiles) && SameShape(rowss, VisOf(tiles))
      requires HasGroups(rowss, vis, h0) && SweptTo(rowss, vis, h0, Flatten(VisOf(tiles)), htable, Offset(rowss, t))
      modifies this`htable, tiles[t]
      ensures TilesOk(tiles) && SameShape(rowss, VisOf(tiles))
      ensures SweptTo(rowss, vis, h0, Flatten(VisOf(tiles)), htable, Offset(rowss, t) + |rowss[t]|)
    {
      hide SweptTo, HasGroups, Flatten, Offset;
      assert rowss[t] == tiles[t].rows;
      var i := tiles[t].Seek(0);
      SweptSkip(rowss, vis, h0, VisOf(tiles), htable, t, 0, i);
      while i < |tiles[t].rows|
        invariant i <= |tiles[t].rows| && TilesOk(tiles) && SameShape(rowss, VisOf(tiles))
        invariant i < |tiles[t].rows| ==>
                    tiles[t].visible[i] && Offset(rowss, t) + i < |vis| && vis[Offset(rowss, t) + i]
        invariant SweptTo(rowss, vis, h0, Flatten(VisOf(tiles)), htable, Offset(rowss, t) + i)
      {
        VisitTuple(t, i, rowss, vis, h0);
        var next := tiles[t].Seek(i + 1);
        SweptSkip(rowss, vis, h0, VisOf(tiles), htable, t, i + 1, next);
        i := next;
      }
    }

    method FirstRound(ghost rowss: seq<seq<Row>>, ghost vis: seq<bool>, ghost h0: Groups)
      requires TilesOk(tiles) && rowss == RowsOf(tiles) && SameShape(rowss, VisOf(tiles)) && HasGroups(rowss, vis, h0)
      requires htable == h0 && vis == Flatten(VisOf(tiles))
      modifies this`htable, tiles
      ensures TilesOk(tiles) && SameShape(rowss, VisOf(tiles))
      ensures SweptTo(rowss, vis, h0, Flatten(VisOf(tiles)), htable, |vis|)
    {
      hide SweptTo, HasGroups, Flatten, SameShape, TilesOk, VisOf, RowsOf, Offset;
      ShapeFacts(rowss, VisOf(tiles));
      NothingSwept(rowss, vis, h0);
      TileCount(tiles);
      for t := 0 to |tiles|
        invariant TilesOk(tiles) && SameShape(rowss, VisOf(tiles))
        invariant SweptTo(rowss, vis, h0, Flatten(VisOf(tiles)), htable, Offset(rowss, t))
      {
        FirstRoundTile(t, rowss, vis, h0);
        OffsetNext(rowss, t);
      }
    }

    /** One group in the second round: at most one copy is left to hand out. */
    method SettleGroup(x: Row, ghost rowss: seq<seq<Row>>, ghost s: Swept, ghost h0: Groups, ghost done: set<Row>)
      requires TilesOk(tiles) && rowss == RowsOf(tiles) && SameShape(rowss, VisOf(tiles)) && x in htable && x !in done
      requires Sweptable(rowss, s, h0, htable)
      requires Settled(Flatten(rowss), s, FirstOf(rowss, h0), done, Flatten(VisOf(tiles)))
      modifies tiles
      ensures TilesOk(tiles) && SameShape(rowss, VisOf(tiles))
      ensures Settled(Flatten(rowss), s, FirstOf(rowss, h0), done + {x}, Flatten(VisOf(tiles)))
    {
      ghost var viss := VisOf(tiles);
      assert GroupReady(rowss, s, FirstOf(rowss, h0), htable[x], x);
      SettlePlan(rowss, viss, s, FirstOf(rowss, h0), htable[x], done, x);
      hide Settled, Flatten, FirstOf, Sweptable;
      var group := htable[x];
      assert group.left == 0 || group.left == 1;
      if group.left == 0 {
        tiles[group.tile].RemoveVisibility(group.tuple);
        assert VisOf(tiles) == viss[group.tile := viss[group.tile][group.tuple := false]];
      }
    }

    method SecondRound(ghost rowss: seq<seq<Row>>, ghost s: Swept, ghost h0: Groups)
      requires TilesOk(tiles) && rowss == RowsOf(tiles) && SameShape(rowss, VisOf(tiles)) &&
               Sweptable(rowss, s, h0, htable)
      requires Flatten(VisOf(tiles)) == s.vis && |s.vis| == |Flatten(rowss)|
      modifies tiles
      ensures TilesOk(tiles) && SameShape(rowss, VisOf(tiles))
      ensures Settled(Flatten(rowss), s, FirstOf(rowss, h0), htable.Keys, Flatten(VisOf(tiles)))
    {
      forall x | x in htable ensures FirstOf(rowss, h0)[x] < |s.vis| {
        assert GroupReady(rowss, s, FirstOf(rowss, h0), htable[x], x);
      }
      SettleNone(Flatten(rowss), s, FirstOf(rowss, h0));
      hide Settled, Flatten, SameShape, TilesOk, VisOf, RowsOf, Sweptable, FirstOf;
      var rest := htable.Keys;
      ghost var done := {};
      while rest != {}
        invariant rest <= htable.Keys && done == htable.Keys - rest && TilesOk(tiles) && SameShape(rowss, VisOf(tiles))
        invariant Settled(Flatten(rowss), s, FirstOf(rowss, h0), done, Flatten(VisOf(tiles)))
      {
        SomeMember(rest);
        var x :| x in rest;
        SettleGroup(x, rowss, s, h0, done);
        done, rest := done + {x}, rest - {x};
      }
      assert done == htable.Keys;
    }

    /** Count both sides and decide how many copies of each row to keep. */
    method PlanCopies(right: seq<LogicalTile>, op: SetOp, ghost rowss: seq<seq<Row>>, ghost viss: seq<seq<bool>>)
      returns (ghost h: Groups)
      requires TilesOk(tiles) && rowss == RowsOf(tiles) && viss == VisOf(tiles) && SameShape(rowss, viss)
      requires htable == map[] && AllValid(right)
      modifies this`htable
      ensures Counted(rowss, Flatten(viss), h, |Flatten(viss)|) &&
              Planned(h, htable, op, multiset(Flatten(SeenOf(right))))
    {
      CountLeft(rowss, viss);
      h := htable;
      CountedGroups(rowss, Flatten(viss), h);
      forall x | x in h ensures h[x].left > 0 && h[x].right == 0 {
        assert Left(h)[x] == h[x].left;
      }
      hide Counted;
      CountRight(right);
      CalculateCopies(op);
    }

    /** The whole operation. Without a left tile there is no result; otherwise every row stays
        visible in the left tiles exactly as often as the SQL operation asks for. */
    method Execute(right: seq<LogicalTile>, op: SetOp) returns (ok: bool)
      requires TilesOk(tiles) && SameShape(RowsOf(tiles), VisOf(tiles)) && htable == map[] && AllValid(right)
      modifies this`htable, tiles
      ensures ok == (|tiles| > 0) && TilesOk(tiles) && SameShape(RowsOf(tiles), VisOf(tiles))
      ensures ok ==> forall x ::
                VisibleCount(RowsOf(tiles), VisOf(tiles), x) ==
                Copies(op, VisibleCount(RowsOf(tiles), old(VisOf(tiles)), x), old(multiset(Flatten(SeenOf(right)))[x]))
      ensures ok ==>
                multiset(Flatten(SeenOf(tiles))) ==
                SqlResult(op, old(multiset(Flatten(SeenOf(tiles)))), old(multiset(Flatten(SeenOf(right)))))
      ensures OnlyHidden(old(VisOf(tiles)), VisOf(tiles))
    {
      if |tiles| == 0 {
        return false;
      }
      ghost var rowss, viss := RowsOf(tiles), VisOf(tiles);
      ghost var vis, rightRows := Flatten(viss), multiset(Flatten(SeenOf(right)));
      TilesSeen(tiles);
      ShapeFacts(rowss, viss);
      ghost var h := PlanCopies(right, op, rowss, viss);
      ghost var h0 := htable;
      CopiesGroups(rowss, vis, h, h0);
      PlannedFits(rowss, vis, h, h0, op, rightRows);
      hide Counted, Planned, HasGroups, QuotasFit, Sweptable, Settled, Flatten, VisibleCount;
      hide TilesOk, SameShape, FirstOf;
      FirstRound(rowss, vis, h0);
      ghost var s := Sweep(Flatten(rowss), vis, FirstOf(rowss, h0), Left(h0), |vis|);
      SweepDone(rowss, vis, h0, VisOf(tiles), htable);
      SecondRound(rowss, s, h0);
      forall x ensures VisibleCount(rowss, VisOf(tiles), x) == Copies(op, VisibleCount(rowss, viss, x), rightRows[x]) {
        ExactCopies(rowss, viss, h, h0, VisOf(tiles), op, rightRows, x);
      }
      RoundsOnlyHide(rowss, viss, h0, VisOf(tiles));
      SqlExact(rowss, viss, VisOf(tiles), op, rightRows);
      TilesSeen(tiles);
      return true;
    }
  }

  function VisibleCount(rowss: seq<seq<Row>>, viss: seq<seq<bool>>, x: Row): nat {
    if |Flatten(rowss)| == |Flatten(viss)| then Count(Flatten(rowss), Flatten(viss), x) else 0
  }

  lemma CopiesGroups(rowss: seq<seq<Row>>, vis: seq<bool>, h: Groups, h0: Groups)
    requires Counted(rowss, vis, h, |vis|) && SameGroups(h, h0)
    ensures HasGroups(rowss, vis, h0)
  {
    CountedGroups(rowss, vis, h);
    forall x | x in h ensures FirstOf(rowss, h)[x] == FirstOf(rowss, h0)[x] {
      assert h[x].tile == h0[x].tile && h[x].tuple == h0[x].tuple;
    }
    assert FirstOf(rowss, h) == FirstOf(rowss, h0);
    forall x | x in h0 ensures h0[x].tile < |rowss| && h0[x].tuple < |rowss[h0[x].tile]| {
      assert Represents(rowss, vis, h[x], x, |vis|);
    }
  }

  ghost predicate QuotasFit(rowss: seq<seq<Row>>, vis: seq<bool>, h0: Groups) {
    |Flatten(rowss)| == |vis| && forall x | x in h0 :: h0[x].left <= Count(Flatten(rowss), vis, x)
  }

  lemma SweepDone(rowss: seq<seq<Row>>, vis: seq<bool>, h0: Groups, viss: seq<seq<bool>>, h: Groups)
    requires HasGroups(rowss, vis, h0) && QuotasFit(rowss, vis, h0) && SweptTo(rowss, vis, h0, Flatten(viss), h, |vis|)
    ensures var s := Sweep(Flatten(rowss), vis, FirstOf(rowss, h0), Left(h0), |vis|);
            Sweptable(rowss, s, h0, h) && Flatten(viss) == s.vis && |s.vis| == |Flatten(rowss)|
  {
    var rows, first, quota := Flatten(rowss), FirstOf(rowss, h0), Left(h0);
    var s := Sweep(rows, vis, first, quota, |vis|);
    forall x | x in h ensures GroupReady(rowss, s, first, h[x], x) {
      SweepLeavesOne(rows, vis, first, quota, x);
      assert Left(h)[x] == h[x].left;
    }
  }

  // ----- The result as a multiset of rows -----

  /** The visible rows of each tile. */
  function SeenEach(rowss: seq<seq<Row>>, viss: seq<seq<bool>>): seq<seq<Row>> {
    seq(|rowss|, t requires 0 <= t < |rowss| =>
      if t < |viss| && |rowss[t]| == |viss[t]| then SeenTo(rowss[t], viss[t], |rowss[t]|) else [])
  }

  lemma TilesSeen(ts: seq<LogicalTile>)
    requires TilesOk(ts)
    ensures SeenOf(ts) == SeenEach(RowsOf(ts), VisOf(ts))
  {
    hide SeenTo;
  }

  lemma {:induction false} SeenCounts(rows: seq<Row>, vis: seq<bool>, n: nat, x: Row)
    requires n <= |rows| == |vis|
    ensures multiset(SeenTo(rows, vis, n))[x] == CountTo(rows, vis, n, x)
  {
    if n > 0 {
      SeenCounts(rows, vis, n - 1, x);
      var before, last := SeenTo(rows, vis, n - 1), if vis[n - 1] then [rows[n - 1]] else [];
      assert SeenTo(rows, vis, n) == before + last;
      assert multiset(before + last) == multiset(before) + multiset(last);
    }
  }

  lemma {:induction false} CountConcat(rows: seq<Row>, vis: seq<bool>, rows': seq<Row>, vis': seq<bool>, n: nat, x: Row)
    requires |rows| == |vis| && n <= |rows'| == |vis'|
    ensures CountTo(rows + rows', vis + vis', |rows| + n, x) == Count(rows, vis, x) + CountTo(rows', vis', n, x)
  {
    if n == 0 {
      CountPrefix(rows, vis, rows', vis', |rows|, x);
    } else {
      CountConcat(rows, vis, rows', vis', n - 1, x);
    }
  }

  lemma {:induction false} CountPrefix(rows: seq<Row>, vis: seq<bool>, rows': seq<Row>, vis': seq<bool>, n: nat, x: Row)
    requires n <= |rows| == |vis| && |rows'| == |vis'|
    ensures CountTo(rows + rows', vis + vis', n, x) == CountTo(rows, vis, n, x)
  {
    if n > 0 {
      CountPrefix(rows, vis, rows', vis', n - 1, x);
    }
  }

  lemma {:induction false} FlatCounts(rowss: seq<seq<Row>>, viss: seq<seq<bool>>, x: Row)
    requires SameShape(rowss, viss)
    ensures multiset(Flatten(SeenEach(rowss, viss)))[x] == VisibleCount(rowss, viss, x)
  {
    hide SeenTo, CountTo, Offset;
    ShapeFacts(rowss, viss);
    if |rowss| == 0 {
      NoTiles(rowss, viss, x);
    } else {
      var n := |rowss| - 1;
      FlatCounts(rowss[..n], viss[..n], x);
      ShapeFacts(rowss[..n], viss[..n]);
      SeenEachLast(rowss, viss, n);
      CountConcat(Flatten(rowss[..n]), Flatten(viss[..n]), rowss[n], viss[n], |rowss[n]|, x);
      SeenCounts(rowss[n], viss[n], |rowss[n]|, x);
    }
  }

  lemma NoTiles(rowss: seq<seq<Row>>, viss: seq<seq<bool>>, x: Row)
    requires |rowss| == |viss| == 0
    ensures multiset(Flatten(SeenEach(rowss, viss)))[x] == 0 == VisibleCount(rowss, viss, x)
  {
  }

  lemma SeenEachLast(rowss: seq<seq<Row>>, viss: seq<seq<bool>>, n: nat)
    requires SameShape(rowss, viss) && |rowss| == n + 1
    ensures Flatten(SeenEach(rowss, viss)) ==
            Flatten(SeenEach(rowss[..n], viss[..n])) + SeenTo(rowss[n], viss[n], |rowss[n]|)
  {
    hide SeenTo;
    assert SeenEach(rowss, viss)[..n] == SeenEach(rowss[..n], viss[..n]);
  }

  lemma SqlExact(rowss: seq<seq<Row>>, viss: seq<seq<bool>>, viss': seq<seq<bool>>, op: SetOp, right: multiset<Row>)
    requires SameShape(rowss, viss) && SameShape(rowss, viss')
    requires forall x :: VisibleCount(rowss, viss', x) == Copies(op, VisibleCount(rowss, viss, x), right[x])
    ensures multiset(Flatten(SeenEach(rowss, viss'))) ==
            SqlResult(op, multiset(Flatten(SeenEach(rowss, viss))), right)
  {
    hide VisibleCount, SeenEach, Flatten, Copies, SqlResult;
    var left, result := multiset(Flatten(SeenEach(rowss, viss))), multiset(Flatten(SeenEach(rowss, viss')));
    forall x ensures result[x] == Copies(op, left[x], right[x]) {
      FlatCounts(rowss, viss, x);
      FlatCounts(rowss, viss', x);
    }
    CopiesAreSql(op, left, right, result);
  }

  /** No row becomes visible. */
  ghost predicate OnlyHidden(viss: seq<seq<bool>>, viss': seq<seq<bool>>) {
    |viss'| == |viss| && forall t, i | 0 <= t < |viss'| && 0 <= i < |viss'[t]| && viss'[t][i] ::
      i < |viss[t]| && viss[t][i]
  }

  lemma RoundsOnlyHide(rowss: seq<seq<Row>>, viss: seq<seq<bool>>, h0: Groups, viss': seq<seq<bool>>)
    requires SameShape(rowss, viss) && SameShape(rowss, viss') && |Flatten(rowss)| == |Flatten(viss)|
    requires var rows := Flatten(rowss);
             Settled(rows, Sweep(rows, Flatten(viss), FirstOf(rowss, h0), Left(h0), |rows|),
                     FirstOf(rowss, h0), h0.Keys, Flatten(viss'))
    ensures OnlyHidden(viss, viss')
  {
    var rows, vis := Flatten(rowss), Flatten(viss);
    forall t, i | 0 <= t < |viss'| && 0 <= i < |viss'[t]| && viss'[t][i] ensures i < |viss[t]| && viss[t][i] {
      ShapeAt(rowss, viss, t, i);
      ShapeAt(rowss, viss', t, i);
      SweepOnlyHides(rows, vis, FirstOf(rowss, h0), Left(h0), |rows|, Offset(rowss, t) + i);
    }
  }

  lemma {:induction false} SweepOnlyHides(rows: seq<Row>, vis: seq<bool>, first: map<Row, nat>, quota: map<Row, nat>,
                                          n: nat, i: nat)
    requires n <= |rows| == |vis| && i < |rows| && Sweep(rows, vis, first, quota, n).vis[i]
    ensures vis[i]
  {
    if n > 0 {
      SweepOnlyHides(rows, vis, first, quota, n - 1, i);
    }
  }

  /** Before the rounds the table holds the numbers of copies. */
  ghost predicate Planned(h: Groups, h0: Groups, op: SetOp, right: multiset<Row>) {
    SameGroups(h, h0) && forall x | x in h :: h0[x].left == Copies(op, h[x].left, right[x])
  }

  lemma PlannedFits(rowss: seq<seq<Row>>, vis: seq<bool>, h: Groups, h0: Groups, op: SetOp, right: multiset<Row>)
    requires Counted(rowss, vis, h, |vis|) && Planned(h, h0, op, right)
    ensures QuotasFit(rowss, vis, h0)
  {
    CountedGroups(rowss, vis, h);
    forall x | x in h0 ensures h0[x].left <= Count(Flatten(rowss), vis, x) {
      assert Left(h)[x] == h[x].left;
    }
  }

  lemma ExactCopies(rowss: seq<seq<Row>>, viss: seq<seq<bool>>, h: Groups, h0: Groups, viss': seq<seq<bool>>,
                    op: SetOp, right: multiset<Row>, x: Row)
    requires Counted(rowss, Flatten(viss), h, |Flatten(viss)|) && Planned(h, h0, op, right) &&
             HasGroups(rowss, Flatten(viss), h0)
    requires var rows := Flatten(rowss);
             Settled(rows, Sweep(rows, Flatten(viss), FirstOf(rowss, h0), Left(h0), |rows|),
                     FirstOf(rowss, h0), h0.Keys, Flatten(viss'))
    ensures VisibleCount(rowss, viss', x) == Copies(op, VisibleCount(rowss, viss, x), right[x])
  {
    var rows, vis, first, quota := Flatten(rowss), Flatten(viss), FirstOf(rowss, h0), Left(h0);
    CountedGroups(rowss, vis, h);
    if x in h {
      assert Left(h)[x] == h[x].left;
      TwoRounds(rows, vis, first, quota, Flatten(viss'), x);
    } else {
      CountAbsent(rows, vis, |rows|, x);
      forall i | 0 <= i < |rows| && Flatten(viss')[i] ensures vis[i] {
        SweepOnlyHides(rows, vis, first, quota, |rows|, i);
      }
      CountAbsent(rows, Flatten(viss'), |rows|, x);
    }
  }

  lemma SettlePlan(rowss: seq<seq<Row>>, viss: seq<seq<bool>>, s: Swept, first: map<Row, nat>, g: Group,
                   done: set<Row>, x: Row)
    requires SameShape(rowss, viss) && x !in done && GroupReady(rowss, s, first, g, x)
    requires Settled(Flatten(rowss), s, first, done, Flatten(viss))
    ensures viss[g.tile][g.tuple]
    ensures Settled(Flatten(rowss), s, first, done + {x},
                    if g.left == 0 then Flatten(viss[g.tile := viss[g.tile][g.tuple := false]]) else Flatten(viss))
  {
    hide Settled, Flatten;
    SettleOne(rowss, s, first, done, Flatten(viss), x);
    ShapeAt(rowss, viss, g.tile, g.tuple);
    HideFlat(rowss, viss, g.tile, g.tuple);
  }

  /** What the second round may rely on: the representative is still visible, and the counter is
      the sweep's, with at most one copy left. */
  predicate GroupReady(rowss: seq<seq<Row>>, s: Swept, first: map<Row, nat>, g: Group, x: Row) {
    && |s.vis| == |Flatten(rowss)| && x in first && x in s.quota && s.quota[x] == g.left <= 1
    && g.tile < |rowss| && g.tuple < |rowss[g.tile]|
    && first[x] == Offset(rowss, g.tile) + g.tuple < |s.vis| && s.vis[first[x]] && Flatten(rowss)[first[x]] == x
  }

  ghost predicate Sweptable(rowss: seq<seq<Row>>, s: Swept, h0: Groups, h: Groups) {
    && FirstOf(rowss, h0).Keys == s.quota.Keys == h.Keys
    && forall x | x in h :: GroupReady(rowss, s, FirstOf(rowss, h0), h[x], x)
  }

  lemma NothingSwept(rowss: seq<seq<Row>>, vis: seq<bool>, h0: Groups)
    requires HasGroups(rowss, vis, h0)
    ensures SweptTo(rowss, vis, h0, vis, h0, 0)
  {
  }

  /** Rows that the iterator passes over do not take part in the round. */
  lemma SweptSkip(rowss: seq<seq<Row>>, vis: seq<bool>, h0: Groups, viss: seq<seq<bool>>, h: Groups, t: nat, i: nat,
                  next: nat)
    requires SameShape(rowss, viss) && t < |rowss| && HasGroups(rowss, vis, h0) && i <= |rowss[t]|
    requires SweptTo(rowss, vis, h0, Flatten(viss), h, Offset(rowss, t) + i) && IsNextVisible(viss[t], i, next)
    ensures SweptTo(rowss, vis, h0, Flatten(viss), h, Offset(rowss, t) + next)
    ensures next < |rowss[t]| ==> Offset(rowss, t) + next < |vis| && vis[Offset(rowss, t) + next]
  {
    var rows, first, quota, n := Flatten(rowss), FirstOf(rowss, h0), Left(h0), Offset(rowss, t) + i;
    HiddenBetween(rowss, viss, t, i, next);
    forall j | n <= j < Offset(rowss, t) + next ensures !vis[j] {
      SweepBeyond(rows, vis, first, quota, n, j);
    }
    SweepSkip(rows, vis, first, quota, n, Offset(rowss, t) + next);
    if next < |rowss[t]| {
      ShapeAt(rowss, viss, t, next);
      SweepBeyond(rows, vis, first, quota, n, Offset(rowss, t) + next);
    }
  }

  /** Hiding a row of a tile hides that row of the flat sequence. */
  lemma HideFlat(rowss: seq<seq<Row>>, viss: seq<seq<bool>>, t: nat, i: nat)
    requires SameShape(rowss, viss) && t < |rowss| && i < |rowss[t]|
    ensures Offset(rowss, t) + i < |Flatten(viss)|
    ensures Flatten(viss[t := viss[t][i := false]]) == Flatten(viss)[Offset(rowss, t) + i := false]
  {
    SameOffsets(rowss, viss, t);
    FlattenUpdate(viss, t, i, false);
  }

  ghost predicate SameLeft(h: Groups, h': Groups) {
    SameGroups(h, h') && forall x | x in h :: h'[x].left == h[x].left
  }

  /** The right counters of the groups have grown by what `rows` holds of each. */
  ghost predicate Matched(h: Groups, h': Groups, rows: seq<Row>) {
    SameLeft(h, h') && forall x | x in h' :: h'[x].right == h[x].right + multiset(rows)[x]
  }

  lemma MatchNone(h: Groups)
    ensures Matched(h, h, [])
  {
  }

  lemma MatchOne(h: Groups, h': Groups, rows: seq<Row>, row: Row)
    requires Matched(h, h', rows)
    ensures Matched(h, if row in h' then h'[row := h'[row].(right := h'[row].right + 1)] else h', rows + [row])
  {
  }

  lemma MatchMore(h: Groups, h': Groups, h'': Groups, rows: seq<Row>, more: seq<Row>)
    requires Matched(h, h', rows) && Matched(h', h'', more)
    ensures Matched(h, h'', rows + more)
  {
  }

  lemma NothingCounted(rowss: seq<seq<Row>>, viss: seq<seq<bool>>)
    requires SameShape(rowss, viss)
    ensures Counted(rowss, Flatten(viss), map[], 0)
  {
    ShapeFacts(rowss, viss);
  }

  lemma CountStart(rowss: seq<seq<Row>>, viss: seq<seq<bool>>, h: Groups, t: nat, i: nat)
    requires SameShape(rowss, viss) && t < |rowss| && IsNextVisible(viss[t], 0, i)
    requires Counted(rowss, Flatten(viss), h, Offset(rowss, t))
    ensures Counted(rowss, Flatten(viss), h, Offset(rowss, t) + i)
  {
    HiddenBetween(rowss, viss, t, 0, i);
    CountSkip(rowss, Flatten(viss), h, Offset(rowss, t), Offset(rowss, t) + i);
  }

  lemma CountVisit(rowss: seq<seq<Row>>, viss: seq<seq<bool>>, h: Groups, t: nat, i: nat, next: nat)
    requires SameShape(rowss, viss) && t < |rowss| && i < |rowss[t]| && viss[t][i] &&
             IsNextVisible(viss[t], i + 1, next)
    requires Counted(rowss, Flatten(viss), h, Offset(rowss, t) + i)
    ensures Counted(rowss, Flatten(viss), CountIn(h, rowss[t][i], t, i), Offset(rowss, t) + next)
  {
    hide Counted;
    ShapeAt(rowss, viss, t, i);
    CountOneMore(rowss, Flatten(viss), h, t, i);
    HiddenBetween(rowss, viss, t, i + 1, next);
    CountSkip(rowss, Flatten(viss), CountIn(h, rowss[t][i], t, i), Offset(rowss, t) + i + 1, Offset(rowss, t) + next);
  }

  /** Rows that are hidden in their tile are hidden in the flat sequence. */
  lemma HiddenBetween(rowss: seq<seq<Row>>, viss: seq<seq<bool>>, t: nat, i: nat, j: nat)
    requires SameShape(rowss, viss) && t < |rowss| && i <= j <= |rowss[t]| && forall k | i <= k < j :: !viss[t][k]
    ensures Offset(rowss, t) + j <= |Flatten(viss)|
    ensures forall n | Offset(rowss, t) + i <= n < Offset(rowss, t) + j :: !Flatten(viss)[n]
  {
    ShapeFacts(rowss, viss);
    OffsetGrows(rowss, t + 1, |rowss|);
    forall n | Offset(rowss, t) + i <= n < Offset(rowss, t) + j ensures !Flatten(viss)[n] {
      ShapeAt(rowss, viss, t, n - Offset(rowss, t));
    }
  }

  lemma SomeMember(s: set<Row>)
    requires s != {}
    ensures exists x :: x in s
  {
    if forall x :: x !in s {
    }
  }
}
