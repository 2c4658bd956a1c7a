/** Grouped aggregation: what each group's output is, independently of how it is computed. */
module Aggregates {
  import opened Types

  datatype Value = Null | Int(i: int) | Dec(d: real)

  type Tuple = seq<Value>

  datatype Kind = Count | CountStar | Sum | Avg | Min | Max

  // ----- One aggregate over one column -----

  /** The state of an attribute aggregator. */
  datatype Acc = Acc(kind: Kind, have: bool, agg: int, count: nat)

  function NewAcc(kind: Kind): Acc {
    Acc(kind, false, 0, 0)
  }

  function Advance(a: Acc, v: Value): Acc {
    if a.kind.CountStar? then a.(count := a.count + 1)
    else if !v.Int? then a
    else match a.kind
      case Count => a.(count := a.count + 1)
      case Sum => a.(have := true, agg := if a.have then a.agg + v.i else v.i)
      case Avg => a.(agg := if a.count == 0 then v.i else a.agg + v.i, count := a.count + 1)
      case Min => a.(have := true, agg := if !a.have || v.i < a.agg then v.i else a.agg)
      case Max => a.(have := true, agg := if !a.have || a.agg < v.i then v.i else a.agg)
  }

  function Finalize(a: Acc): Value {
    match a.kind
    case Count => Int(a.count)
    case CountStar => Int(a.count)
    case Avg => if a.count == 0 then Null else Dec(a.agg as real / a.count as real)
    case _ => if a.have then Int(a.agg) else Null
  }

  function Fold(a: Acc, vs: seq<Value>): Acc {
    if |vs| == 0 then a else Advance(Fold(a, vs[..|vs| - 1]), vs[|vs| - 1])
  }

  /** The non-null numbers of a column. */
  function Numbers(vs: seq<Value>): seq<int> {
    if |vs| == 0 then []
    else Numbers(vs[..|vs| - 1]) + if vs[|vs| - 1].Int? then [vs[|vs| - 1].i] else []
  }

  function Total(xs: seq<int>): int {
    if |xs| == 0 then 0 else xs[0] + Total(xs[1..])
  }

  ghost predicate IsLeast(xs: seq<int>, m: int) {
    m in xs && forall x | x in xs :: m <= x
  }

  ghost predicate IsGreatest(xs: seq<int>, m: int) {
    m in xs && forall x | x in xs :: x <= m
  }

  lemma {:induction false} TotalAppend(xs: seq<int>, x: int)
    ensures Total(xs + [x]) == Total(xs) + x
  {
    if |xs| > 0 {
      assert (xs + [x])[1..] == xs[1..] + [x];
      TotalAppend(xs[1..], x);
    }
  }

  /** What the accumulated state means, in terms of the column alone. */
  ghost predicate Means(a: Acc, vs: seq<Value>) {
    var xs := Numbers(vs);
    match a.kind
    case CountStar => a.count == |vs|
    case Count => a.count == |xs|
    case Sum => (a.have <==> |xs| > 0) && (a.have ==> a.agg == Total(xs))
    case Avg => a.count == |xs| && (a.count > 0 ==> a.agg == Total(xs))
    case Min => (a.have <==> |xs| > 0) && (a.have ==> IsLeast(xs, a.agg))
    case Max => (a.have <==> |xs| > 0) && (a.have ==> IsGreatest(xs, a.agg))
  }

  /** Advancing over a column computes the count, sum, average, minimum or maximum of its
      non-null numbers. */
  lemma {:induction false} FoldMeans(kind: Kind, vs: seq<Value>)
    ensures Fold(NewAcc(kind), vs).kind == kind && Means(Fold(NewAcc(kind), vs), vs)
  {
    if |vs| > 0 {
      var n := |vs| - 1;
      FoldMeans(kind, vs[..n]);
      var xs := Numbers(vs[..n]);
      if vs[n].Int? {
        TotalAppend(xs, vs[n].i);
        assert Numbers(vs) == xs + [vs[n].i];
        assert forall x :: x in Numbers(vs) <==> x in xs || x == vs[n].i;
      } else {
        assert Numbers(vs) == xs;
      }
    }
  }

  /** `v` is the SQL value of the aggregate over the column: nulls are skipped, and without a
      number only the counts have a value. */
  ghost predicate IsAggregate(kind: Kind, vs: seq<Value>, v: Value) {
    var xs := Numbers(vs);
    match kind
    case CountStar => v == Int(|vs|)
    case Count => v == Int(|xs|)
    case Sum => if xs == [] then v.Null? else v == Int(Total(xs))
    case Avg => if xs == [] then v.Null? else v.Dec? && v.d * |xs| as real == Total(xs) as real
    case Min => if xs == [] then v.Null? else v.Int? && IsLeast(xs, v.i)
    case Max => if xs == [] then v.Null? else v.Int? && IsGreatest(xs, v.i)
  }

  /** AGGREGATES MEAN WHAT SQL SAYS. Advancing over a column and finalizing gives the value of the
      aggregate over that column. */
  lemma FinalizeMeans(kind: Kind, vs: seq<Value>)
    ensures IsAggregate(kind, vs, Finalize(Fold(NewAcc(kind), vs)))
  {
    FoldMeans(kind, vs);
    FinalMeans(Fold(NewAcc(kind), vs), vs);
  }

  lemma FinalMeans(a: Acc, vs: seq<Value>)
    requires Means(a, vs)
    ensures IsAggregate(a.kind, vs, Finalize(a))
  {
    hide Numbers, Total, IsLeast, IsGreatest;
    if a.kind.Avg? && a.count > 0 {
      Quotient(a.agg as real, a.count as real);
    }
  }

  lemma Quotient(x: real, n: real)
    requires n != 0.0
    ensures x / n * n == x
  {
  }

  /** No other value would do. */
  lemma AggregateIsUnique(kind: Kind, vs: seq<Value>, v: Value, w: Value)
    requires IsAggregate(kind, vs, v) && IsAggregate(kind, vs, w)
    ensures v == w
  {
    var xs := Numbers(vs);
    if kind.Avg? && xs != [] {
      Quotients(v.d, w.d, |xs| as real);
    }
  }

  lemma Quotients(x: real, y: real, n: real)
    requires n > 0.0 && x * n == y * n
    ensures x == y
  {
    assert x == x * n / n;
    assert y == y * n / n;
  }

  // ----- Groups -----

  /** An aggregate term: its kind and the expression it aggregates. */
  datatype Term = Term(kind: Kind, eval: Tuple -> Value)

  /** Group-by columns, aggregate terms, and what a group's first tuple and aggregates become:
      nothing when the HAVING predicate fails, otherwise the projected tuple. */
  datatype Plan = Plan(columns: seq<nat>, terms: seq<Term>, emit: (Tuple, seq<Value>) -> Option<Tuple>)

  function KeyOf(plan: Plan, t: Tuple): seq<Value> {
    seq(|plan.columns|, i requires 0 <= i < |plan.columns| =>
      if plan.columns[i] < |t| then t[plan.columns[i]] else Null)
  }

  /** The tuples of one group, in input order. */
  function GroupOf(plan: Plan, input: seq<Tuple>, key: seq<Value>): seq<Tuple> {
    if |input| == 0 then []
    else
      var n := |input| - 1;
      GroupOf(plan, input[..n], key) + if KeyOf(plan, input[n]) == key then [input[n]] else []
  }

  /** The distinct keys, by first appearance. */
  function KeysOf(plan: Plan, input: seq<Tuple>): seq<seq<Value>> {
    if |input| == 0 then []
    else
      var n := |input| - 1;
      var before := KeysOf(plan, input[..n]);
      if KeyOf(plan, input[n]) in before then before else before + [KeyOf(plan, input[n])]
  }

  function Column(term: Term, group: seq<Tuple>): seq<Value> {
    seq(|group|, i requires 0 <= i < |group| => term.eval(group[i]))
  }

  /** All aggregates of a group. */
  function Folded(plan: Plan, group: seq<Tuple>): seq<Acc> {
    seq(|plan.terms|, i requires 0 <= i < |plan.terms| =>
      Fold(NewAcc(plan.terms[i].kind), Column(plan.terms[i], group)))
  }

  function Finals(accs: seq<Acc>): seq<Value> {
    seq(|accs|, i requires 0 <= i < |accs| => Finalize(accs[i]))
  }

  /** What is inserted into the output table for a group. */
  function Emitted(plan: Plan, first: Tuple, accs: seq<Acc>): seq<Tuple> {
    match plan.emit(first, Finals(accs))
    case None => []
    case Some(t) => [t]
  }

  /** The output of a non-empty group: its first tuple is the delegate. */
  function GroupOutput(plan: Plan, group: seq<Tuple>): seq<Tuple> {
    if |group| == 0 then [] else Emitted(plan, group[0], Folded(plan, group))
  }

  /** The outputs of the groups `keys`, one after another. */
  function Outputs(plan: Plan, input: seq<Tuple>, keys: seq<seq<Value>>): seq<Tuple> {
    if |keys| == 0 then []
    else Outputs(plan, input, keys[..|keys| - 1]) + GroupOutput(plan, GroupOf(plan, input, keys[|keys| - 1]))
  }

  // ----- What is output -----

  function Kept(r: Option<Tuple>): seq<Tuple> {
    match r
    case None => []
    case Some(t) => [t]
  }

  /** The results without those that HAVING drops. */
  function Somes(rs: seq<Option<Tuple>>): seq<Tuple> {
    if |rs| == 0 then [] else Somes(rs[..|rs| - 1]) + Kept(rs[|rs| - 1])
  }

  lemma SomesAppend(rs: seq<Option<Tuple>>, r: Option<Tuple>)
    ensures Somes(rs + [r]) == Somes(rs) + Kept(r)
  {
    assert (rs + [r])[..|rs|] == rs;
  }

  /** Each result comes out as often as it is there. */
  lemma {:induction false} SomesCount(rs: seq<Option<Tuple>>, t: Tuple)
    ensures multiset(Somes(rs))[t] == multiset(rs)[Some(t)]
  {
    hide Somes;
    if |rs| == 0 {
      assert rs == [];
      NoSomes();
    } else {
      var n := |rs| - 1;
      SomesCount(rs[..n], t);
      assert rs == rs[..n] + [rs[n]];
      SomesAppend(rs[..n], rs[n]);
      KeptCount(rs[n], t);
    }
  }

  lemma NoSomes()
    ensures Somes([]) == []
  {
  }

  lemma KeptCount(r: Option<Tuple>, t: Tuple)
    ensures multiset(Kept(r))[t] == multiset([r])[Some(t)]
  {
  }

  /** `vals` are the values of all aggregate terms over a group. */
  ghost predicate AreAggregates(plan: Plan, group: seq<Tuple>, vals: seq<Value>) {
    && |vals| == |plan.terms|
    && forall i | 0 <= i < |vals| :: IsAggregate(plan.terms[i].kind, Column(plan.terms[i], group), vals[i])
  }

  /** `r` is what the plan makes of a group's first tuple and its aggregates. */
  ghost predicate IsResult(plan: Plan, group: seq<Tuple>, r: Option<Tuple>) {
    |group| > 0 && exists vals :: AreAggregates(plan, group, vals) && r == plan.emit(group[0], vals)
  }

  /** One result for each group, in the order of the keys. */
  ghost predicate AreResults(plan: Plan, input: seq<Tuple>, keys: seq<seq<Value>>, rs: seq<Option<Tuple>>) {
    |rs| == |keys| && forall i | 0 <= i < |keys| :: IsResult(plan, GroupOf(plan, input, keys[i]), rs[i])
  }

  lemma GroupResult(plan: Plan, group: seq<Tuple>)
    requires |group| > 0
    ensures IsResult(plan, group, plan.emit(group[0], Finals(Folded(plan, group))))
  {
    var vals := Finals(Folded(plan, group));
    forall i | 0 <= i < |vals| ensures IsAggregate(plan.terms[i].kind, Column(plan.terms[i], group), vals[i]) {
      FinalizeMeans(plan.terms[i].kind, Column(plan.terms[i], group));
    }
    assert AreAggregates(plan, group, vals);
  }

  /** The outputs are the results of the groups, one after another, without those that HAVING
      drops. */
  lemma {:induction false} OutputsAre(plan: Plan, input: seq<Tuple>, keys: seq<seq<Value>>)
    returns (rs: seq<Option<Tuple>>)
    requires forall k | k in keys :: |GroupOf(plan, input, k)| > 0
    ensures AreResults(plan, input, keys, rs) && Outputs(plan, input, keys) == Somes(rs)
  {
    hide GroupOf, IsResult, Somes, Finals, Folded;
    if |keys| == 0 {
      rs := [];
      NoSomes();
    } else {
      var n := |keys| - 1;
      assert forall k | k in keys[..n] :: k in keys;
      var before := OutputsAre(plan, input, keys[..n]);
      assert keys[n] in keys;
      var group := GroupOf(plan, input, keys[n]);
      GroupResult(plan, group);
      var last := plan.emit(group[0], Finals(Folded(plan, group)));
      rs := before + [last];
      SomesAppend(before, last);
      assert forall i | 0 <= i < n :: keys[i] == keys[..n][i] && rs[i] == before[i];
    }
  }

  /** A group holds exactly the tuples with its key, each as often as the input does. */
  lemma {:induction false} GroupCounts(plan: Plan, input: seq<Tuple>, key: seq<Value>, t: Tuple)
    ensures multiset(GroupOf(plan, input, key))[t] == if KeyOf(plan, t) == key then multiset(input)[t] else 0
  {
    hide KeyOf;
    if |input| > 0 {
      var n := |input| - 1;
      GroupCounts(plan, input[..n], key, t);
      assert input == input[..n] + [input[n]];
    }
  }

  /** The first tuple of the input with that key. */
  ghost predicate IsFirst(plan: Plan, input: seq<Tuple>, key: seq<Value>, i: nat) {
    i < |input| && KeyOf(plan, input[i]) == key && forall j | 0 <= j < i :: KeyOf(plan, input[j]) != key
  }

  /** The delegate of a group is the first tuple with its key. */
  lemma {:induction false} GroupFirst(plan: Plan, input: seq<Tuple>, key: seq<Value>, i: nat)
    requires IsFirst(plan, input, key, i)
    ensures |GroupOf(plan, input, key)| > 0 && GroupOf(plan, input, key)[0] == input[i]
  {
    hide KeyOf;
    var n := |input| - 1;
    if i < n {
      assert forall j | 0 <= j < n :: input[..n][j] == input[j];
      GroupFirst(plan, input[..n], key, i);
    } else {
      NoneBefore(plan, input, key, n);
    }
  }

  lemma {:induction false} NoneBefore(plan: Plan, input: seq<Tuple>, key: seq<Value>, n: nat)
    requires n <= |input| && forall j | 0 <= j < n :: KeyOf(plan, input[j]) != key
    ensures GroupOf(plan, input[..n], key) == []
  {
    if n > 0 {
      NoneBefore(plan, input, key, n - 1);
      assert input[..n][..n - 1] == input[..n - 1];
    }
  }

  // ----- One more tuple -----

  function AdvanceAll(plan: Plan, accs: seq<Acc>, t: Tuple): seq<Acc>
    requires |accs| == |plan.terms|
  {
    seq(|accs|, i requires 0 <= i < |accs| => Advance(accs[i], plan.terms[i].eval(t)))
  }

  lemma FoldedAppend(plan: Plan, group: seq<Tuple>, t: Tuple)
    ensures Folded(plan, group + [t]) == AdvanceAll(plan, Folded(plan, group), t)
  {
    forall i | 0 <= i < |plan.terms|
      ensures Folded(plan, group + [t])[i] == Advance(Folded(plan, group)[i], plan.terms[i].eval(t))
    {
      var term := plan.terms[i];
      assert Column(term, group + [t])[..|group|] == Column(term, group);
    }
  }

  lemma GroupAppend(plan: Plan, input: seq<Tuple>, t: Tuple, key: seq<Value>)
    ensures GroupOf(plan, input + [t], key) == GroupOf(plan, input, key) + if KeyOf(plan, t) == key then [t] else []
  {
    assert (input + [t])[..|input|] == input;
  }

  lemma KeysAppend(plan: Plan, input: seq<Tuple>, t: Tuple)
    ensures KeysOf(plan, input + [t]) ==
            if KeyOf(plan, t) in KeysOf(plan, input) then KeysOf(plan, input)
            else KeysOf(plan, input) + [KeyOf(plan, t)]
  {
    assert (input + [t])[..|input|] == input;
  }

  lemma {:induction false} OutputsSame(plan: Plan, input: seq<Tuple>, t: Tuple, keys: seq<seq<Value>>)
    requires KeyOf(plan, t) !in keys
    ensures Outputs(plan, input + [t], keys) == Outputs(plan, input, keys)
  {
    if |keys| > 0 {
      var n := |keys| - 1;
      assert keys[n] in keys;
      assert forall k | k in keys[..n] :: k in keys;
      OutputsSame(plan, input, t, keys[..n]);
      GroupAppend(plan, input, t, keys[n]);
      assert GroupOf(plan, input + [t], keys[n]) == GroupOf(plan, input, keys[n]);
    }
  }

  /** The keys are exactly those that occur, each once. */
  lemma {:induction false} KeysExact(plan: Plan, input: seq<Tuple>)
    ensures forall i | 0 <= i < |input| :: KeyOf(plan, input[i]) in KeysOf(plan, input)
    ensures forall k | k in KeysOf(plan, input) :: |GroupOf(plan, input, k)| > 0
    ensures forall i, j | 0 <= i < j < |KeysOf(plan, input)| :: KeysOf(plan, input)[i] != KeysOf(plan, input)[j]
  {
    if |input| > 0 {
      var n := |input| - 1;
      KeysExact(plan, input[..n]);
      assert input == input[..n] + [input[n]];
      forall k | k in KeysOf(plan, input) ensures |GroupOf(plan, input, k)| > 0 {
        GroupAppend(plan, input[..n], input[n], k);
      }
    }
  }
}
