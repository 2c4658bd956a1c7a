/** The hash and the sorted aggregator, and when they agree. */
module Aggregators {
  import opened Types
  import opened Aggregates

  // ----- Hash aggregation -----

  /** The aggregates of one group and the first tuple that was met. */
  datatype AggregateList = AggregateList(first: Tuple, accs: seq<Acc>)

  /** The table after the tuples `input`: one list per key, for that key's group. */
  ghost predicate Tabled(plan: Plan, input: seq<Tuple>, table: map<seq<Value>, AggregateList>) {
    && (forall k | k in table :: k in KeysOf(plan, input))
    && (forall k | k in KeysOf(plan, input) :: k in table && IsListFor(plan, GroupOf(plan, input, k), table[k]))
  }

  ghost predicate IsListFor(plan: Plan, group: seq<Tuple>, l: AggregateList) {
    |group| > 0 && l == AggregateList(group[0], Folded(plan, group))
  }

  lemma NewListFor(plan: Plan, t: Tuple)
    ensures IsListFor(plan, [t], AggregateList(t, AdvanceAll(plan, Folded(plan, []), t)))
    ensures Folded(plan, []) == seq(|plan.terms|, i requires 0 <= i < |plan.terms| => NewAcc(plan.terms[i].kind))
  {
    assert [] + [t] == [t];
    FoldedAppend(plan, [], t);
  }

  lemma TabledAppend(plan: Plan, input: seq<Tuple>, table: map<seq<Value>, AggregateList>, t: Tuple)
    requires Tabled(plan, input, table)
    ensures var k := KeyOf(plan, t);
            && (k in table ==> |table[k].accs| == |plan.terms|)
            && Tabled(plan, input + [t],
                      table[k := if k in table then table[k].(accs := AdvanceAll(plan, table[k].accs, t))
                                 else AggregateList(t, AdvanceAll(plan, Folded(plan, []), t))])
  {
    var k, keys := KeyOf(plan, t), KeysOf(plan, input);
    assert k in table <==> k in keys;
    var table' := table[k := if k in table then table[k].(accs := AdvanceAll(plan, table[k].accs, t))
                             else AggregateList(t, AdvanceAll(plan, Folded(plan, []), t))];
    KeysAppend(plan, input, t);
    forall x | x in KeysOf(plan, input + [t])
      ensures x in table' && IsListFor(plan, GroupOf(plan, input + [t], x), table'[x])
    {
      GroupAppend(plan, input, t, x);
      if x != k {
        assert GroupOf(plan, input + [t], x) == GroupOf(plan, input, x);
      } else if k in table {
        FoldedAppend(plan, GroupOf(plan, input, k), t);
      } else {
        AbsentGroup(plan, input, k);
        NewListFor(plan, t);
      }
    }
  }

  lemma {:induction false} AbsentGroup(plan: Plan, input: seq<Tuple>, k: seq<Value>)
    requires k !in KeysOf(plan, input)
    ensures GroupOf(plan, input, k) == []
  {
    if |input| > 0 {
      var n := |input| - 1;
      assert input == input[..n] + [input[n]];
      KeysAppend(plan, input[..n], input[n]);
      AbsentGroup(plan, input[..n], k);
    }
  }

  lemma RemoveAt(ls: seq<seq<Value>>, i: nat)
    requires i < |ls|
    ensures multiset(ls) == multiset(ls[..i] + ls[i + 1..]) + multiset{ls[i]}
  {
    assert ls == ls[..i] + [ls[i]] + ls[i + 1..];
  }

  lemma Cancel(a: multiset<seq<Value>>, b: multiset<seq<Value>>, k: seq<Value>)
    requires a + multiset{k} == b + multiset{k}
    ensures a == b
  {
    assert a == a + multiset{k} - multiset{k};
    assert b == b + multiset{k} - multiset{k};
  }

  /** One key's output can be taken out of the list. */
  lemma OutputsRemove(plan: Plan, input: seq<Tuple>, ls: seq<seq<Value>>, i: nat)
    requires i < |ls|
    ensures multiset(Outputs(plan, input, ls)) ==
            multiset(Outputs(plan, input, ls[..i] + ls[i + 1..]))
            + multiset(GroupOutput(plan, GroupOf(plan, input, ls[i])))
  {
    var k := ls[i];
    assert ls == (ls[..i] + [k]) + ls[i + 1..];
    OutputsSplit(plan, input, ls[..i], ls[i + 1..]);
    OutputsSplit(plan, input, ls[..i] + [k], ls[i + 1..]);
    assert (ls[..i] + [k])[..i] == ls[..i];
    assert Outputs(plan, input, ls[..i] + [k]) ==
           Outputs(plan, input, ls[..i]) + GroupOutput(plan, GroupOf(plan, input, k));
  }

  /** A permutation of the keys gives a permutation of the outputs. */
  lemma {:induction false} OutputsPermuted(plan: Plan, input: seq<Tuple>, ks: seq<seq<Value>>, ls: seq<seq<Value>>)
    requires multiset(ks) == multiset(ls)
    ensures multiset(Outputs(plan, input, ks)) == multiset(Outputs(plan, input, ls))
    decreases |ks|
  {
    if |ks| == 0 {
      assert |multiset(ls)| == 0;
    } else {
      var n := |ks| - 1;
      assert ks[n] in multiset(ls);
      var i :| 0 <= i < |ls| && ls[i] == ks[n];
      RemoveAt(ks, n);
      RemoveAt(ls, i);
      assert ks[..n] + ks[n + 1..] == ks[..n];
      Cancel(multiset(ks[..n]), multiset(ls[..i] + ls[i + 1..]), ks[n]);
      OutputsRemove(plan, input, ks, n);
      OutputsRemove(plan, input, ls, i);
      OutputsPermuted(plan, input, ks[..n], ls[..i] + ls[i + 1..]);
    }
  }

  lemma {:induction false} OutputsSplit(plan: Plan, input: seq<Tuple>, ks: seq<seq<Value>>, ls: seq<seq<Value>>)
    ensures Outputs(plan, input, ks + ls) == Outputs(plan, input, ks) + Outputs(plan, input, ls)
  {
    hide GroupOutput, GroupOf;
    if |ls| == 0 {
      assert ks + ls == ks;
    } else {
      var n := |ls| - 1;
      assert (ks + ls)[..|ks| + n] == ks + ls[..n];
      OutputsSplit(plan, input, ks, ls[..n]);
    }
  }

  class HashAggregator {
    const plan: Plan
    var table: map<seq<Value>, AggregateList>

    constructor (plan: Plan)
      ensures this.plan == plan && Tabled(plan, [], table)
    {
      this.plan := plan;
      table := map[];
    }

    /** Find or create the tuple's group and advance its aggregates. */
    method Advance(t: Tuple, ghost input: seq<Tuple>)
      requires Tabled(plan, input, table)
      modifies this`table
      ensures Tabled(plan, input + [t], table)
    {
      TabledAppend(plan, input, table, t);
      NewListFor(plan, t);
      var key := KeyOf(plan, t);
      if key !in table {
        var blank := seq(|plan.terms|, i requires 0 <= i < |plan.terms| => NewAcc(plan.terms[i].kind));
        table := table[key := AggregateList(t, blank)];
      }
      var list := table[key];
      table := table[key := list.(accs := AdvanceAll(plan, list.accs, t))];
    }

    /** Output every group, in whatever order the hash table is traversed. */
    method Finalize(ghost input: seq<Tuple>) returns (out: seq<Tuple>)
      requires Tabled(plan, input, table)
      ensures multiset(out) == multiset(Outputs(plan, input, KeysOf(plan, input)))
    {
      out := [];
      var rest := table.Keys;
      ghost var visited: seq<seq<Value>> := [];
      KeysExact(plan, input);
      while rest != {}
        invariant rest <= table.Keys && out == Outputs(plan, input, visited)
        invariant forall k | k in table :: multiset(visited)[k] == if k in rest then 0 else 1
        invariant forall k | k in visited :: k in table
      {
        var key :| key in rest;
        assert IsListFor(plan, GroupOf(plan, input, key), table[key]);
        out := out + Emitted(plan, table[key].first, table[key].accs);
        assert (visited + [key])[..|visited|] == visited;
        visited := visited + [key];
        rest := rest - {key};
      }
      SameMultiset(visited, KeysOf(plan, input));
      OutputsPermuted(plan, input, visited, KeysOf(plan, input));
    }
  }

  /** Two lists without repetitions and with the same members are permutations. */
  lemma SameMultiset(ks: seq<seq<Value>>, ls: seq<seq<Value>>)
    requires forall k | k in ls :: multiset(ks)[k] == 1
    requires forall k | k in ks :: k in ls
    requires forall i, j | 0 <= i < j < |ls| :: ls[i] != ls[j]
    ensures multiset(ks) == multiset(ls)
  {
    forall k ensures multiset(ks)[k] == multiset(ls)[k] {
      if k in ls {
        CountedOnce(ls, k);
      }
    }
  }

  lemma {:induction false} CountedOnce(ls: seq<seq<Value>>, k: seq<Value>)
    requires k in ls && forall i, j | 0 <= i < j < |ls| :: ls[i] != ls[j]
    ensures multiset(ls)[k] == 1
  {
    var n := |ls| - 1;
    assert ls == ls[..n] + [ls[n]];
    if k == ls[n] {
      assert k !in ls[..n];
    } else {
      CountedOnce(ls[..n], k);
    }
  }

  // ----- Sorted aggregation -----

  /** SQL's not-equal is true only of two different non-null values. */
  predicate NotEqual(a: Value, b: Value) {
    !a.Null? && !b.Null? && a != b
  }

  /** The current group's delegate tuple and aggregates, and what has been output. */
  datatype SortState = SortState(delegate: Tuple, accs: seq<Acc>, out: seq<Tuple>)

  predicate Crosses(plan: Plan, a: Tuple, b: Tuple) {
    exists i :: 0 <= i < |plan.columns| && NotEqual(KeyOf(plan, a)[i], KeyOf(plan, b)[i])
  }

  /** An empty delegate means that there is no current group. */
  function SortStep(plan: Plan, s: SortState, t: Tuple): SortState {
    if s.delegate == [] then SortState(t, AdvanceAll(plan, Folded(plan, []), t), s.out)
    else if Crosses(plan, t, s.delegate) then
      SortState(t, AdvanceAll(plan, Folded(plan, []), t), s.out + Emitted(plan, s.delegate, s.accs))
    else if |s.accs| == |plan.terms| then s.(accs := AdvanceAll(plan, s.accs, t))
    else s
  }

  function SortRun(plan: Plan, input: seq<Tuple>): SortState {
    if |input| == 0 then SortState([], [], [])
    else SortStep(plan, SortRun(plan, input[..|input| - 1]), input[|input| - 1])
  }

  function SortOutput(plan: Plan, s: SortState): seq<Tuple> {
    if s.delegate == [] then s.out else s.out + Emitted(plan, s.delegate, s.accs)
  }

  class SortedAggregator {
    const plan: Plan
    var delegate: Tuple
    var accs: seq<Acc>
    var out: seq<Tuple>

    function State(): SortState
      reads this
    {
      SortState(delegate, accs, out)
    }

    constructor (plan: Plan)
      ensures this.plan == plan && State() == SortRun(plan, [])
    {
      this.plan := plan;
      delegate, accs, out := [], [], [];
    }

    method Advance(t: Tuple)
      requires delegate != [] ==> |accs| == |plan.terms|
      modifies this
      ensures State() == SortStep(plan, old(State()), t)
      ensures |accs| == |plan.terms|
    {
      var start := delegate == [];
      if !start {
        start := CrossesBoundary(t);
        if start {
          out := out + Emitted(plan, delegate, accs);
        }
      }
      if start {
        NewListFor(plan, t);
        accs := seq(|plan.terms|, i requires 0 <= i < |plan.terms| => NewAcc(plan.terms[i].kind));
        delegate := t;
      }
      accs := AdvanceAll(plan, accs, t);
    }

    /** Compare the group-by columns until one differs. */
    method CrossesBoundary(t: Tuple) returns (crosses: bool)
      ensures crosses == Crosses(plan, t, delegate)
    {
      var k, d := KeyOf(plan, t), KeyOf(plan, delegate);
      for i := 0 to |plan.columns|
        invariant forall j | 0 <= j < i :: !NotEqual(k[j], d[j])
      {
        if NotEqual(k[i], d[i]) {
          return true;
        }
      }
      return false;
    }

    method Finalize() returns (result: seq<Tuple>)
      ensures result == SortOutput(plan, State())
    {
      result := if delegate == [] then out else out + Emitted(plan, delegate, accs);
    }
  }

  // ----- Agreement -----

  /** Equal keys are next to each other. */
  ghost predicate Contiguous(plan: Plan, input: seq<Tuple>) {
    forall i, j, k | 0 <= i < j < k < |input| ::
      KeyOf(plan, input[i]) == KeyOf(plan, input[k]) ==> KeyOf(plan, input[j]) == KeyOf(plan, input[k])
  }

  ghost predicate NoNullKeys(plan: Plan, input: seq<Tuple>) {
    forall i, c | 0 <= i < |input| && 0 <= c < |plan.columns| :: !KeyOf(plan, input[i])[c].Null?
  }

  ghost predicate NoEmptyTuples(input: seq<Tuple>) {
    forall i | 0 <= i < |input| :: input[i] != []
  }

  lemma CrossesIsDifferent(plan: Plan, a: Tuple, b: Tuple)
    requires forall c | 0 <= c < |plan.columns| :: !KeyOf(plan, a)[c].Null? && !KeyOf(plan, b)[c].Null?
    ensures Crosses(plan, a, b) <==> KeyOf(plan, a) != KeyOf(plan, b)
  {
    if KeyOf(plan, a) != KeyOf(plan, b) {
      var c :| 0 <= c < |plan.columns| && KeyOf(plan, a)[c] != KeyOf(plan, b)[c];
      assert NotEqual(KeyOf(plan, a)[c], KeyOf(plan, b)[c]);
    }
  }

  /** A key that was seen before belongs to the last tuple. */
  lemma {:induction false} SeenIsLast(plan: Plan, input: seq<Tuple>, k: seq<Value>) returns (i: nat)
    requires k in KeysOf(plan, input)
    ensures i < |input| && KeyOf(plan, input[i]) == k
  {
    var n := |input| - 1;
    if k == KeyOf(plan, input[n]) {
      i := n;
    } else {
      i := SeenIsLast(plan, input[..n], k);
    }
  }

  /** The state after `input`: all groups but the last have been output, and the last one's
      delegate and aggregates are current. */
  ghost predicate Current(plan: Plan, input: seq<Tuple>, s: SortState) {
    var keys := KeysOf(plan, input);
    && |input| > 0 && |keys| > 0
    && var last := keys[|keys| - 1];
       && last == KeyOf(plan, input[|input| - 1]) == KeyOf(plan, s.delegate) && s.delegate != []
       && IsListFor(plan, GroupOf(plan, input, last), AggregateList(s.delegate, s.accs))
       && s.out == Outputs(plan, input, keys[..|keys| - 1])
  }

  lemma StartsGroup(plan: Plan, input: seq<Tuple>, t: Tuple)
    requires t != [] && KeyOf(plan, t) !in KeysOf(plan, input)
    ensures Current(plan, input + [t],
                    SortState(t, AdvanceAll(plan, Folded(plan, []), t), Outputs(plan, input, KeysOf(plan, input))))
  {
    hide KeysOf, GroupOf, Outputs, Folded, AdvanceAll, KeyOf;
    var k, keys := KeyOf(plan, t), KeysOf(plan, input);
    KeysAppend(plan, input, t);
    assert (keys + [k])[..|keys|] == keys;
    OutputsSame(plan, input, t, keys);
    AbsentGroup(plan, input, k);
    GroupAppend(plan, input, t, k);
    assert [] + [t] == [t];
    NewListFor(plan, t);
  }

  lemma ContinuesGroup(plan: Plan, input: seq<Tuple>, s: SortState, t: Tuple)
    requires Current(plan, input, s) && KeyOf(plan, t) == KeyOf(plan, s.delegate)
    ensures |s.accs| == |plan.terms| && Current(plan, input + [t], s.(accs := AdvanceAll(plan, s.accs, t)))
  {
    var k, keys := KeyOf(plan, t), KeysOf(plan, input);
    KeysAppend(plan, input, t);
    KeysExact(plan, input);
    assert k !in keys[..|keys| - 1];
    OutputsSame(plan, input, t, keys[..|keys| - 1]);
    GroupAppend(plan, input, t, k);
    FoldedAppend(plan, GroupOf(plan, input, k), t);
  }

  lemma CurrentOutput(plan: Plan, input: seq<Tuple>, s: SortState)
    requires Current(plan, input, s)
    ensures s.out + Emitted(plan, s.delegate, s.accs) == Outputs(plan, input, KeysOf(plan, input))
  {
  }

  lemma ContiguousBefore(plan: Plan, input: seq<Tuple>, t: Tuple)
    requires Contiguous(plan, input + [t]) && |input| > 0
    ensures forall i | 0 <= i < |input| ::
              KeyOf(plan, input[i]) == KeyOf(plan, t) ==> KeyOf(plan, input[|input| - 1]) == KeyOf(plan, t)
  {
    var n, all := |input|, input + [t];
    forall i | 0 <= i < n && KeyOf(plan, input[i]) == KeyOf(plan, t)
      ensures KeyOf(plan, input[n - 1]) == KeyOf(plan, t)
    {
      assert all[i] == input[i] && all[n - 1] == input[n - 1] && all[n] == t;
    }
  }

  /** A key that differs from the previous tuple's has not been seen at all. */
  lemma NewKey(plan: Plan, input: seq<Tuple>, t: Tuple)
    requires Contiguous(plan, input + [t]) && |input| > 0 && KeyOf(plan, t) != KeyOf(plan, input[|input| - 1])
    ensures KeyOf(plan, t) !in KeysOf(plan, input)
  {
    ContiguousBefore(plan, input, t);
    if KeyOf(plan, t) in KeysOf(plan, input) {
      var i := SeenIsLast(plan, input, KeyOf(plan, t));
      assert false;
    }
  }

  lemma LastDiffers(plan: Plan, input: seq<Tuple>, t: Tuple, d: Tuple)
    requires NoNullKeys(plan, input + [t]) && |input| > 0 && KeyOf(plan, d) == KeyOf(plan, input[|input| - 1])
    ensures Crosses(plan, t, d) <==> KeyOf(plan, t) != KeyOf(plan, d)
  {
    var n, all := |input|, input + [t];
    assert all[n] == t && all[n - 1] == input[n - 1];
    assert forall c | 0 <= c < |plan.columns| :: !KeyOf(plan, all[n])[c].Null? && !KeyOf(plan, all[n - 1])[c].Null?;
    CrossesIsDifferent(plan, t, d);
  }

  lemma SortStepCurrent(plan: Plan, input: seq<Tuple>, s: SortState, t: Tuple)
    requires t != [] && (|input| > 0 ==> Current(plan, input, s)) && (|input| == 0 ==> s == SortState([], [], []))
    requires Contiguous(plan, input + [t]) && NoNullKeys(plan, input + [t])
    ensures Current(plan, input + [t], SortStep(plan, s, t))
  {
    if |input| == 0 {
      StartsGroup(plan, input, t);
    } else {
      LastDiffers(plan, input, t, s.delegate);
      if KeyOf(plan, t) == KeyOf(plan, s.delegate) {
        ContinuesGroup(plan, input, s, t);
      } else {
        NewKey(plan, input, t);
        CurrentOutput(plan, input, s);
        StartsGroup(plan, input, t);
      }
    }
  }

  lemma {:induction false} SortRunCurrent(plan: Plan, input: seq<Tuple>)
    requires Contiguous(plan, input) && NoNullKeys(plan, input) && NoEmptyTuples(input)
    ensures if |input| == 0 then SortRun(plan, input) == SortState([], [], [])
            else Current(plan, input, SortRun(plan, input))
  {
    if |input| > 0 {
      var n := |input| - 1;
      assert input == input[..n] + [input[n]];
      assert NoNullKeys(plan, input[..n]);
      SortRunCurrent(plan, input[..n]);
      SortStepCurrent(plan, input[..n], SortRun(plan, input[..n]), input[n]);
    }
  }

  /** On contiguous, non-null keys the sorted aggregator outputs exactly the groups, in order. */
  lemma SortedOutputs(plan: Plan, input: seq<Tuple>)
    requires Contiguous(plan, input) && NoNullKeys(plan, input) && NoEmptyTuples(input)
    ensures SortOutput(plan, SortRun(plan, input)) == Outputs(plan, input, KeysOf(plan, input))
  {
    SortRunCurrent(plan, input);
    if |input| > 0 {
      CurrentOutput(plan, input, SortRun(plan, input));
    }
  }

  /** The condition on tuples is needed: tuples without columns leave the delegate empty, so no
      group is ever output. */
  lemma {:induction false} EmptyTuplesOutputNothing(plan: Plan, input: seq<Tuple>)
    requires forall i | 0 <= i < |input| :: input[i] == []
    ensures SortOutput(plan, SortRun(plan, input)) == [] && SortRun(plan, input).delegate == []
  {
    if |input| > 0 {
      EmptyTuplesOutputNothing(plan, input[..|input| - 1]);
    }
  }

  lemma {:induction false} EmptyTuplesAreOneGroup(plan: Plan, input: seq<Tuple>)
    requires |input| > 0 && forall i | 0 <= i < |input| :: input[i] == []
    ensures KeysOf(plan, input) == [KeyOf(plan, [])] && GroupOf(plan, input, KeyOf(plan, [])) == input
  {
    hide KeyOf;
    var n := |input| - 1;
    assert input == input[..n] + [[]];
    if n > 0 {
      EmptyTuplesAreOneGroup(plan, input[..n]);
    }
  }

  /** On tuples without columns hash aggregation outputs their one group and sorted aggregation
      nothing, so they agree if and only if there is no input or HAVING drops the group. */
  lemma EmptyTuplesDisagree(plan: Plan, input: seq<Tuple>)
    requires forall i | 0 <= i < |input| :: input[i] == []
    ensures multiset(Outputs(plan, input, KeysOf(plan, input))) == multiset(SortOutput(plan, SortRun(plan, input))) <==>
            input == [] || plan.emit([], Finals(Folded(plan, input))).None?
  {
    hide GroupOf, KeysOf, SortRun, SortOutput;
    EmptyTuplesOutputNothing(plan, input);
    if |input| > 0 {
      var key := KeyOf(plan, []);
      EmptyTuplesAreOneGroup(plan, input);
      assert [key][..0] == [];
      assert Outputs(plan, input, [key]) == Emitted(plan, [], Folded(plan, input));
      assert |multiset(Emitted(plan, [], Folded(plan, input)))| == |Emitted(plan, [], Folded(plan, input))|;
    } else {
      NoKeys(plan, input);
    }
  }

  lemma NoKeys(plan: Plan, input: seq<Tuple>)
    requires input == []
    ensures Outputs(plan, input, KeysOf(plan, input)) == []
  {
  }

  /** SORTED AND HASH AGGREGATION AGREE. Run over the same contiguous input, both output the
      same multiset of tuples: for each group, what its fold and its first tuple produce. */
  method AggregateBoth(plan: Plan, input: seq<Tuple>)
    returns (hashed: seq<Tuple>, sorted: seq<Tuple>, ghost results: seq<Option<Tuple>>)
    requires Contiguous(plan, input) && NoNullKeys(plan, input) && NoEmptyTuples(input)
    ensures multiset(hashed) == multiset(sorted)
    ensures AreResults(plan, input, KeysOf(plan, input), results) && sorted == Somes(results)
    ensures forall t :: multiset(sorted)[t] == multiset(results)[Some(t)]
  {
    var h := new HashAggregator(plan);
    var s := new SortedAggregator(plan);
    for n := 0 to |input|
      invariant h.plan == plan && s.plan == plan
      invariant Tabled(plan, input[..n], h.table)
      invariant s.State() == SortRun(plan, input[..n]) && (n > 0 ==> |s.accs| == |plan.terms|)
      invariant n == 0 ==> s.delegate == []
    {
      assert input[..n + 1] == input[..n] + [input[n]] && input[..n + 1][..n] == input[..n];
      h.Advance(input[n], input[..n]);
      s.Advance(input[n]);
    }
    assert input[..|input|] == input;
    SortedOutputs(plan, input);
    hashed := h.Finalize(input);
    sorted := s.Finalize();
    KeysExact(plan, input);
    results := OutputsAre(plan, input, KeysOf(plan, input));
    forall t ensures multiset(sorted)[t] == multiset(results)[Some(t)] {
      SomesCount(results, t);
    }
  }
}
