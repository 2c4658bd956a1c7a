/** Runs of the header-by-header machine that end inside the windows of FineSafety. */
module FineWitness {
  import opened Types
  import opened VersionChain
  import opened Protocol
  import opened FineGrained
  import opened FineSafety

  /** After `steps`, chain 0 and its unfinished entries are as given, `running` are the running
      transactions and `known` all that ever began. */
  predicate At(steps: seq<FineStep>, ch: Chain, todo: map<nat, Entry>, running: set<nat>, known: set<nat>) {
    var f := FineRun(Start, steps);
    && 0 in f.raw.chains && f.raw.chains[0] == ch && 0 in f.todo && f.todo[0] == todo
    && f.raw.txns.Keys == known && forall c | c in known :: IsActive(f.raw, c) <==> c in running
  }

  lemma OneMore(steps: seq<FineStep>, a: FineStep)
    ensures FineRun(Start, steps + [a]) == FineNext(FineRun(Start, steps), a)
  {
    hide FineNext;
    assert (steps + [a])[..|steps|] == steps;
  }

  lemma Starts(c: nat, v: Value)
    requires IsIssued(c)
    ensures At([Do(Begin(c)), Do(Insert(c, 0, v))], Install([], c, MAX_CID, v), map[], {c}, {c})
  {
    OneMore([], Do(Begin(c)));
    OneMore([Do(Begin(c))], Do(Insert(c, 0, v)));
    assert [] + [Do(Begin(c))] == [Do(Begin(c))];
    assert [Do(Begin(c))] + [Do(Insert(c, 0, v))] == [Do(Begin(c)), Do(Insert(c, 0, v))];
  }

  lemma Joins(steps: seq<FineStep>, ch: Chain, todo: map<nat, Entry>, running: set<nat>, known: set<nat>, c: nat,
              running': set<nat>, known': set<nat>)
    requires At(steps, ch, todo, running, known) && IsIssued(c) && c !in known
    requires running' == running + {c} && known' == known + {c}
    ensures At(steps + [Do(Begin(c))], ch, todo, running', known')
  {
    OneMore(steps, Do(Begin(c)));
  }

  lemma Acts(steps: seq<FineStep>, ch: Chain, todo: map<nat, Entry>, running: set<nat>, known: set<nat>, step: Step,
             ch': Chain)
    requires At(steps, ch, todo, running, known) && OnChain(ch, step) && step.key == 0 && step.c in known &&
             step.c in running
    requires ch' == NewChain(ch, step)
    ensures At(steps + [Do(step)], ch', todo, running, known)
  {
    hide NewChain, NewOps;
    OneMore(steps, Do(step));
  }

  lemma Commits(steps: seq<FineStep>, ch: Chain, todo: map<nat, Entry>, running: set<nat>, known: set<nat>, c: nat,
                todo': map<nat, Entry>, running': set<nat>)
    requires At(steps, ch, todo, running, known) && c in known && c in running
    requires todo' == Enlist(todo, c, Plan(ch, c, true)) && running' == running - {c}
    ensures At(steps + [Do(Commit(c))], ch, todo', running', known)
  {
    hide Plan, Enlist;
    OneMore(steps, Do(Commit(c)));
  }

  lemma Writes(steps: seq<FineStep>, ch: Chain, todo: map<nat, Entry>, running: set<nat>, known: set<nat>, c: nat,
               ch': Chain, todo': map<nat, Entry>)
    requires At(steps, ch, todo, running, known) && c in todo && InRange(ch, todo[c])
    requires ch' == AfterWrite(ch, c, todo[c]) && todo' == Advance(todo, c)
    ensures At(steps + [WriteHeader(c, 0)], ch', todo', running, known)
  {
    hide AfterWrite, Advance, InRange;
    OneMore(steps, WriteHeader(c, 0));
  }

  // ----- Transaction 2 inserts a tuple and commits; transaction 3 reads and locks it -----

  const Inserting: seq<FineStep> := [Do(Begin(2)), Do(Insert(2, 0, 7))]
  const Stamping: seq<FineStep> := Inserting + [Do(Commit(2))] + [WriteHeader(2, 0)]
  const Installing: seq<FineStep> := Stamping + [WriteHeader(2, 0)] + [WriteHeader(2, 0)]
  const Reading: seq<FineStep> := Installing + [Do(Begin(3))] + [Do(Read(3, 0, 0))]
  const Locking: seq<FineStep> := Reading + [Do(Acquire(3, 0, 0))]

  const Held: Version := Version(3, 2, MAX_CID, 3, 7)

  function Unread(txn: nat, begin: nat, reader: nat): Chain {
    [Version(txn, begin, MAX_CID, reader, 7)]
  }

  function Todo(c: nat, kind: Kind, end0: nat, pc: nat): map<nat, Entry> {
    map[c := Entry(true, kind, 0, end0, pc)]
  }

  lemma IsStamped()
    ensures At(Stamping, Unread(2, 2, 0), Todo(2, Inserted, MAX_CID, 1), {}, {2})
  {
    hide At;
    Starts(2, 7);
    var todo := Todo(2, Inserted, MAX_CID, 0);
    assert Install([], 2, MAX_CID, 7) == Unread(2, MAX_CID, 0);
    Commits(Inserting, Unread(2, MAX_CID, 0), map[], {2}, {2}, 2, todo, {});
    Writes(Inserting + [Do(Commit(2))], Unread(2, MAX_CID, 0), todo, {}, {2}, 2,
           Unread(2, 2, 0), Todo(2, Inserted, MAX_CID, 1));
  }

  lemma IsInstalled()
    ensures At(Installing, Unread(INITIAL_TXN_ID, 2, 0), map[], {}, {2})
  {
    hide At;
    IsStamped();
    var todo := Todo(2, Inserted, MAX_CID, 2);
    Writes(Stamping, Unread(2, 2, 0), Todo(2, Inserted, MAX_CID, 1), {}, {2}, 2, Unread(2, 2, 0), todo);
    Writes(Stamping + [WriteHeader(2, 0)], Unread(2, 2, 0), todo, {}, {2}, 2, Unread(INITIAL_TXN_ID, 2, 0), map[]);
  }

  lemma IsLocked()
    ensures At(Locking, [Held], map[], {3}, {2, 3})
  {
    hide At;
    IsInstalled();
    Joins(Installing, Unread(INITIAL_TXN_ID, 2, 0), map[], {}, {2}, 3, {3}, {2, 3});
    Acts(Installing + [Do(Begin(3))], Unread(INITIAL_TXN_ID, 2, 0), map[], {3}, {2, 3},
         Read(3, 0, 0), Unread(INITIAL_TXN_ID, 2, 3));
    Acts(Reading, Unread(INITIAL_TXN_ID, 2, 3), map[], {3}, {2, 3}, Acquire(3, 0, 0), [Held]);
  }

  // ----- Inside the windows -----

  /** Transaction 3 writes and commits, up to its first header write. */
  function Writing(step: Step): seq<FineStep> {
    Locking + [Do(step)] + [Do(Commit(3))] + [WriteHeader(3, 0)]
  }

  lemma IsWritten(step: Step, end0: nat, value: Value)
    requires (step == Update(3, 0, value) && end0 == MAX_CID) ||
             (step == Delete(3, 0) && value == 7 && end0 == INVALID_CID)
    ensures At(Writing(step), [Held, Version(3, 3, end0, 0, value)], Todo(3, Written, end0, 1), {}, {2, 3})
  {
    hide At;
    var ch := [Held, Version(3, MAX_CID, end0, 0, value)];
    IsLocked();
    Acts(Locking, [Held], map[], {3}, {2, 3}, step, ch);
    Commits(Locking + [Do(step)], ch, map[], {3}, {2, 3}, 3, Todo(3, Written, end0, 0), {});
    Writes(Locking + [Do(step)] + [Do(Commit(3))], ch, Todo(3, Written, end0, 0), {}, {2, 3}, 3,
           [Held, Version(3, 3, end0, 0, value)], Todo(3, Written, end0, 1));
  }

  /** Transaction 3 has written the new begin stamp of an update: a viewer with id and timestamp 4
      is shown both versions, though it can read neither. */
  lemma UpdateShowsTwo()
    ensures var f := FineRun(Start, Writing(Update(3, 0, 8)));
            && 0 in f.raw.chains && |f.raw.chains[0]| == 2
            && IsOpen(f.raw.chains[0], 0, 4, 4) && IsOpen(f.raw.chains[0], 1, 4, 4)
            && !Readable(f.raw.chains[0], 0, 4) && !Readable(f.raw.chains[0], 1, 4)
  {
    hide FineRun;
    IsWritten(Update(3, 0, 8), MAX_CID, 8);
  }

  /** A delete shows both versions only after its second header write. */
  lemma DeleteShowsTwo()
    ensures var f := FineRun(Start, Writing(Delete(3, 0)));
            var f' := FineRun(Start, Writing(Delete(3, 0)) + [WriteHeader(3, 0)]);
            && 0 in f.raw.chains && 0 in f'.raw.chains && |f.raw.chains[0]| == |f'.raw.chains[0]| == 2
            && IsOpen(f.raw.chains[0], 0, 4, 4) && !IsOpen(f.raw.chains[0], 1, 4, 4)
            && IsOpen(f'.raw.chains[0], 0, 4, 4) && IsOpen(f'.raw.chains[0], 1, 4, 4)
  {
    hide FineRun;
    IsWritten(Delete(3, 0), INVALID_CID, 7);
    Writes(Writing(Delete(3, 0)), [Held, Version(3, 3, INVALID_CID, 0, 7)], Todo(3, Written, INVALID_CID, 1),
           {}, {2, 3}, 3,
           [Held, Version(3, 3, MAX_CID, 0, 7)], Todo(3, Written, INVALID_CID, 2));
  }
}
