/**
 Who owns which heap block in the job store.  The store of SpoolModel is run together with a heap that
 knows which addresses are live; an address may be handed out again once it has been released.
 */
module SpoolOwnership {
  import opened Bytes
  import opened SpoolModel

  datatype Kind = JobBlock | DataBlock | MetaBlock

  /** The block of one kind that belongs to one job id. */
  datatype Place = Place(id: nat, kind: Kind)

  datatype Owned = Owned(
    store: Spool,
    at: map<Place, nat>,   // the address in each pointer field of each table job
    live: set<nat>,        // addresses allocated and not yet released
    clean: bool)           // every release so far hit a live block

  /** Three addresses as calloc, malloc, malloc return them. */
  datatype Fresh = Fresh(job: nat, data: nat, meta: nat)

  ghost predicate Available(f: Fresh, live: set<nat>) {
    f.job !in live && f.data !in live + {f.job} && f.meta !in live + {f.job, f.data}
  }

  ghost predicate Injective(at: map<Place, nat>) {
    forall p, q :: p in at && q in at && p != q ==> at[p] != at[q]
  }

  /** The live blocks are exactly the job, data and meta blocks of the occupied slots, all distinct. */
  ghost predicate Conserved(o: Owned) {
    && Inv(o.store) && o.clean
    && (forall p :: p in o.at <==> p.id in o.store.jobs)
    && Injective(o.at)
    && o.live == o.at.Values
  }

  // ---- releasing -----------------------------------------------------------

  ghost function Free(o: Owned, b: nat): Owned {
    o.(live := o.live - {b}, clean := o.clean && b in o.live)
  }

  ghost predicate Holds(o: Owned, id: nat) {
    Place(id, MetaBlock) in o.at && Place(id, DataBlock) in o.at && Place(id, JobBlock) in o.at
  }

  /** free_job: meta, data, then the job itself. */
  ghost function FreeJob(o: Owned, id: nat): Owned
    requires Holds(o, id)
  {
    Free(Free(Free(o, o.at[Place(id, MetaBlock)]), o.at[Place(id, DataBlock)]), o.at[Place(id, JobBlock)])
  }

  ghost function PlacesOf(id: nat): (ps: set<Place>)
    ensures forall p :: p in ps <==> p.id == id
  {
    assert forall p: Place :: p.kind == JobBlock || p.kind == DataBlock || p.kind == MetaBlock;
    {Place(id, JobBlock), Place(id, DataBlock), Place(id, MetaBlock)}
  }

  ghost function RetireOwned(o: Owned, id: int): Owned {
    if id < 0 || id !in o.store.jobs || !Holds(o, id) then o else
    FreeJob(o, id).(store := Retire(o.store, id).0, at := o.at - PlacesOf(id))
  }

  /** JobWork: a cancelled job is freed before JobRetire finds it still in its slot. */
  ghost function WorkOwned(o: Owned, id: nat): Owned
    requires id in o.store.jobs && Holds(o, id)
  {
    var o1 := if o.store.jobs[id].state.Cancelled? then FreeJob(o, id) else o;
    FreeJob(o1, id).(store := Work(o.store, id), at := o.at - PlacesOf(id))
  }

  ghost predicate Mapped(o: Owned) {
    Linked(o.store) && forall p :: p in o.at <==> p.id in o.store.jobs
  }

  ghost function PumpOwned(o: Owned): Owned
    requires Mapped(o)
    decreases |o.store.queue|
  {
    if o.store.queue == [] then o else
    PumpOwned(PumpOne(o))
  }

  ghost function PumpOne(o: Owned): (r: Owned)
    requires Mapped(o) && o.store.queue != []
    ensures Mapped(r) && |r.store.queue| < |o.store.queue|
    ensures r.store == Work(Dequeue(o.store), o.store.queue[0])
  {
    LinkedTail(o.store);
    WorkStep(Dequeue(o.store), o.store.queue[0]);
    WorkValue(Dequeue(o.store), o.store.queue[0]);
    WorkOwned(o.(store := Dequeue(o.store)), o.store.queue[0])
  }

  // ---- operations ----------------------------------------------------------

  datatype Op =
    | OpSubmit(fmt: int, filter: Option<FilterFn>, init: seq<byte>, blocks: Fresh)
    | OpLookup(id: int)
    | OpAppend(id: int, arg: seq<byte>)
    | OpCancel(id: int)
    | OpRender(id: int)
    | OpRetire(id: int)
    | OpFlush

  ghost predicate NoneCancelled(s: Spool)
    requires Linked(s)
  {
    forall i :: 0 <= i < |s.queue| ==> !s.jobs[s.queue[i]].state.Cancelled?
  }

  /** The runs this accounting covers: the allocator hands out free addresses, and appends fit the buffer they
      find. */
  ghost predicate Allowed(o: Owned, op: Op)
    requires Linked(o.store)
  {
    match op
    case OpSubmit(_, _, _, blocks) => Available(blocks, o.live)
    case OpAppend(id, arg) =>
      var j := Lookup(o.store, id).1;
      j.Some? ==> |o.store.jobs[j.value].doc| + |arg| <= o.store.jobs[j.value].cap
    case _ => true
  }

  /** A flush meets no cancelled job. */
  ghost predicate Clear(o: Owned, op: Op)
    requires Linked(o.store)
  {
    op.OpFlush? ==> NoneCancelled(o.store)
  }

  ghost function Step(o: Owned, op: Op): Owned
    requires Mapped(o)
  {
    match op
    case OpSubmit(fmt, filter, init, b) =>
      var (s, id) := Submit(o.store, fmt, filter, init);
      if id < 0 then o else
      Owned(s, WithBlocks(o.at, id, b), o.live + {b.job, b.data, b.meta}, o.clean)
    case OpLookup(id) => o.(store := Lookup(o.store, id).0)
    case OpAppend(id, arg) => o.(store := Append(o.store, id, arg).0)
    case OpCancel(id) => o.(store := Cancel(o.store, id).0)
    case OpRender(id) =>
      var (s1, j) := Lookup(o.store, id);
      if j.None? then o.(store := s1) else
      var job := s1.jobs[j.value];
      RetireOwned(o.(store := s1.(calls := s1.calls + [Call(job.filter, job.doc)])), j.value)
    case OpRetire(id) => RetireOwned(o, id)
    case OpFlush => PumpOwned(o)
  }

  // ---- conservation --------------------------------------------------------

  /** Freeing a table job's three blocks hits three live blocks and removes just those. */
  lemma FreeJobOnce(o: Owned, id: nat)
    requires Injective(o.at) && o.live == o.at.Values && o.clean
    requires forall kind :: Place(id, kind) in o.at
    ensures Holds(o, id) && FreeJob(o, id).clean
    ensures Injective(o.at - PlacesOf(id)) && FreeJob(o, id).live == (o.at - PlacesOf(id)).Values
  {
    var m, d, j := Place(id, MetaBlock), Place(id, DataBlock), Place(id, JobBlock);
    assert o.at[m] in o.at.Values && o.at[d] in o.at.Values && o.at[j] in o.at.Values;
    var rest := o.at - PlacesOf(id);
    forall b
      ensures b in FreeJob(o, id).live <==> b in rest.Values
    {
      if b in FreeJob(o, id).live {
        var p :| p in o.at && o.at[p] == b;
        assert p in rest && rest[p] == b;
      }
      if b in rest.Values {
        var p :| p in rest && rest[p] == b;
        assert o.at[p] == b;
      }
    }
  }

  lemma RetireConserves(o: Owned, id: int)
    requires Conserved(o)
    ensures Conserved(RetireOwned(o, id)) && RetireOwned(o, id).store == Retire(o.store, id).0
  {
    hide Inv, Linked, Injective, FreeJob;
    if id >= 0 && id in o.store.jobs {
      assert forall kind :: Place(id, kind) in o.at;
      FreeJobOnce(o, id);
      RetireInv(o.store, id);
    }
  }

  /** Retiring the same id twice is retiring it once. */
  lemma RetireOwnedTwice(o: Owned, id: int)
    requires Conserved(o)
    ensures RetireOwned(RetireOwned(o, id), id) == RetireOwned(o, id)
  {
    RetireConserves(o, id);
  }

  ghost function WithBlocks(at: map<Place, nat>, id: nat, b: Fresh): map<Place, nat> {
    at[Place(id, JobBlock) := b.job][Place(id, DataBlock) := b.data][Place(id, MetaBlock) := b.meta]
  }

  /** Three fresh blocks for a new id: still injective, and exactly those three more are live. */
  lemma BlocksAdded(at: map<Place, nat>, id: nat, b: Fresh)
    requires Injective(at) && Available(b, at.Values) && forall p :: p in at ==> p.id != id
    ensures Injective(WithBlocks(at, id, b))
    ensures WithBlocks(at, id, b).Values == at.Values + {b.job, b.data, b.meta}
    ensures forall p :: p in WithBlocks(at, id, b) <==> p in at || p.id == id
  {
    var at' := WithBlocks(at, id, b);
    forall p: Place
      ensures p in at' <==> p in at || p in PlacesOf(id)
    {
    }
    assert forall p :: p in at ==> at[p] in at.Values && at'[p] == at[p];
    forall a | a in at.Values
      ensures a in at'.Values
    {
      var p :| p in at && at[p] == a;
      assert at'[p] == a;
    }
    assert at'[Place(id, JobBlock)] == b.job && at'[Place(id, DataBlock)] == b.data;
    assert at'[Place(id, MetaBlock)] == b.meta;
  }

  lemma SubmitConserves(o: Owned, op: Op)
    requires Conserved(o) && op.OpSubmit? && Allowed(o, op)
    ensures Conserved(Step(o, op))
  {
    hide Inv, Linked, Injective, Available;
    var (s, id) := Submit(o.store, op.fmt, op.filter, op.init);
    SubmitInv(o.store, op.fmt, op.filter, op.init);
    if id >= 0 { BlocksAdded(o.at, id, op.blocks); }
  }

  /** A pump step on an uncancelled head releases exactly that job's blocks. */
  lemma PumpOneConserves(o: Owned)
    requires Conserved(o) && o.store.queue != []
    requires !o.store.jobs[o.store.queue[0]].state.Cancelled?
    ensures Conserved(PumpOne(o)) && PumpOne(o).store == Popped(o.store)
  {
    var id := o.store.queue[0];
    assert forall kind :: Place(id, kind) in o.at;
    FreeJobOnce(o, id);
    LinkedTail(o.store);
    WorkValue(Dequeue(o.store), id);
    PoppedInv(o.store);
  }

  lemma {:induction false} PumpConserves(o: Owned)
    requires Conserved(o) && NoneCancelled(o.store)
    ensures Conserved(PumpOwned(o)) && PumpOwned(o).store.jobs == map[] && PumpOwned(o).live == {}
    decreases |o.store.queue|
  {
    if o.store.queue == [] {
      assert o.store.jobs == map[];
      assert o.at == map[];
    } else {
      PumpOneConserves(o);
      PumpConserves(PumpOne(o));
    }
  }

  /** Every allowed operation conserves ownership, unless it is a flush that meets a cancelled job. */
  lemma StepConserves(o: Owned, op: Op)
    requires Conserved(o) && Allowed(o, op) && Clear(o, op)
    ensures Mapped(o) && Conserved(Step(o, op))
  {
    match op
    case OpSubmit(_, _, _, _) => SubmitConserves(o, op);
    case OpLookup(id) =>
    case OpAppend(id, arg) => AppendAccepts(o.store, id, arg);
    case OpCancel(id) => CancelInv(o.store, id);
    case OpRender(id) =>
      var (s1, j) := Lookup(o.store, id);
      if j.Some? {
        var job := s1.jobs[j.value];
        RetireConserves(o.(store := s1.(calls := s1.calls + [Call(job.filter, job.doc)])), j.value);
      }
    case OpRetire(id) => RetireConserves(o, id);
    case OpFlush => PumpConserves(o);
  }

  /** The pump never regains a clean record. */
  lemma {:induction false} PumpStaysUnclean(o: Owned)
    requires Mapped(o) && !o.clean
    ensures !PumpOwned(o).clean
    decreases |o.store.queue|
  {
    if o.store.queue != [] {
      PumpStaysUnclean(PumpOne(o));
    }
  }

  /** The exact condition: a flush releases each block once if and only if no queued job is cancelled. */
  lemma {:induction false} FlushCleanExactly(o: Owned)
    requires Conserved(o)
    ensures Mapped(o) && (PumpOwned(o).clean <==> NoneCancelled(o.store))
    decreases |o.store.queue|
  {
    hide Inv, Linked, Injective, PumpOne, NoneCancelled;
    InvLinked(o.store);
    NoneCancelledTail(o.store);
    if o.store.queue != [] {
      if CancelledAt(o.store, 0) {
        CancelledHead(o);
        PumpStaysUnclean(PumpOne(o));
      } else {
        PumpOneConserves(o);
        FlushCleanExactly(PumpOne(o));
      }
    }
  }

  ghost predicate CancelledAt(s: Spool, i: nat) {
    i < |s.queue| && s.queue[i] in s.jobs && s.jobs[s.queue[i]].state.Cancelled?
  }

  lemma CancelledHead(o: Owned)
    requires Mapped(o) && o.store.queue != [] && o.store.jobs[o.store.queue[0]].state.Cancelled?
    ensures !PumpOne(o).clean
  {
  }

  lemma NoneCancelledTail(s: Spool)
    requires Inv(s)
    ensures Linked(s)
    ensures if s.queue == [] then NoneCancelled(s)
            else s.queue[0] in s.jobs && Linked(Popped(s)) &&
                 (NoneCancelled(s) <==> !CancelledAt(s, 0) && NoneCancelled(Popped(s)))
  {
    if s.queue != [] {
      PoppedInv(s);
      var q := Popped(s).queue;
      assert forall i :: 0 <= i < |q| ==> q[i] == s.queue[i + 1];
      assert forall i :: 0 < i < |s.queue| ==> s.queue[i] == q[i - 1];
    }
  }

  // ---- whole runs ----------------------------------------------------------

  /** The store is valid and every job of the table has its three addresses, whatever was released so far. */
  ghost predicate Whole(o: Owned) {
    Inv(o.store) && forall p :: p in o.at <==> p.id in o.store.jobs
  }

  lemma {:induction false} PumpWhole(o: Owned)
    requires Whole(o)
    ensures Mapped(o) && Whole(PumpOwned(o))
    decreases |o.store.queue|
  {
    InvLinked(o.store);
    if o.store.queue != [] {
      PumpOneWhole(o);
      PumpWhole(PumpOne(o));
    }
  }

  lemma PumpOneWhole(o: Owned)
    requires Whole(o) && o.store.queue != []
    ensures Mapped(o) && Whole(PumpOne(o))
  {
    InvLinked(o.store);
    LinkedTail(o.store);
    WorkValue(Dequeue(o.store), o.store.queue[0]);
    PoppedInv(o.store);
  }

  lemma RetireWhole(o: Owned, id: int)
    requires Whole(o)
    ensures Whole(RetireOwned(o, id)) && (RetireOwned(o, id).clean ==> o.clean)
  {
    RetireInv(o.store, id);
  }

  lemma SubmitWhole(o: Owned, fmt: int, filter: Option<FilterFn>, init: seq<byte>, b: Fresh)
    requires Whole(o)
    ensures Mapped(o) && Whole(Step(o, OpSubmit(fmt, filter, init, b)))
  {
    InvLinked(o.store);
    SubmitInv(o.store, fmt, filter, init);
    hide Inv, Linked;
    var (s, id) := Submit(o.store, fmt, filter, init);
    if id >= 0 {
      forall p: Place
        ensures p in WithBlocks(o.at, id, b) <==> p.id in s.jobs
      {
        assert p in PlacesOf(id) <==> p.id == id;
      }
    }
  }

  lemma RenderWhole(o: Owned, id: int)
    requires Whole(o)
    ensures Mapped(o) && Whole(Step(o, OpRender(id))) && (Step(o, OpRender(id)).clean ==> o.clean)
  {
    InvLinked(o.store);
    hide Inv, Linked, RetireOwned;
    var (s1, j) := Lookup(o.store, id);
    if j.Some? {
      var c := Call(s1.jobs[j.value].filter, s1.jobs[j.value].doc);
      CalledInv(s1, c);
      RetireWhole(o.(store := s1.(calls := s1.calls + [c])), j.value);
    }
  }

  /** Any operation leaves a whole store, and none makes up for a release that missed. */
  lemma StepWhole(o: Owned, op: Op)
    requires Whole(o)
    ensures Mapped(o) && Whole(Step(o, op)) && (Step(o, op).clean ==> o.clean)
  {
    InvLinked(o.store);
    hide Inv, Linked, Append, Cancel, PumpOwned, RetireOwned;
    match op
    case OpSubmit(fmt, filter, init, b) => SubmitWhole(o, fmt, filter, init, b);
    case OpLookup(id) =>
    case OpAppend(id, arg) =>
      AppendAccepts(o.store, id, arg);
      AppendKeepsIds(o.store, id, arg);
    case OpCancel(id) =>
      CancelInv(o.store, id);
      CancelKeepsIds(o.store, id);
    case OpRender(id) => RenderWhole(o, id);
    case OpRetire(id) => RetireWhole(o, id);
    case OpFlush =>
      PumpWhole(o);
      if !o.clean { PumpStaysUnclean(o); }
  }

  lemma CalledInv(s: Spool, c: Call)
    requires Inv(s)
    ensures Inv(s.(calls := s.calls + [c]))
  {
  }

  lemma AppendKeepsIds(s: Spool, id: int, arg: seq<byte>)
    requires Linked(s)
    ensures Append(s, id, arg).0.jobs.Keys == s.jobs.Keys
  {
  }

  lemma CancelKeepsIds(s: Spool, id: int)
    requires Linked(s)
    ensures Cancel(s, id).0.jobs.Keys == s.jobs.Keys
  {
  }

  ghost predicate AllowedRun(o: Owned, ops: seq<Op>)
    requires Whole(o)
    decreases |ops|
  {
    ops == [] || (
      StepWhole(o, ops[0]);
      Allowed(o, ops[0]) && AllowedRun(Step(o, ops[0]), ops[1..]))
  }

  /** No flush of the run meets a cancelled job. */
  ghost predicate ClearRun(o: Owned, ops: seq<Op>)
    requires Whole(o)
    decreases |ops|
  {
    ops == [] || (
      StepWhole(o, ops[0]);
      Clear(o, ops[0]) && ClearRun(Step(o, ops[0]), ops[1..]))
  }

  ghost function Final(o: Owned, ops: seq<Op>): (r: Owned)
    requires Whole(o)
    ensures Whole(r)
    decreases |ops|
  {
    if ops == [] then o else
    StepWhole(o, ops[0]);
    Final(Step(o, ops[0]), ops[1..])
  }

  /** Over every run in which no flush meets a cancelled job, the live blocks stay exactly those of the occupied
      slots, and every release hits a live block. */
  lemma {:induction false} RunConserves(o: Owned, ops: seq<Op>)
    requires Conserved(o) && AllowedRun(o, ops) && ClearRun(o, ops)
    ensures Conserved(Final(o, ops))
    decreases |ops|
  {
    assert Whole(o);
    hide Conserved, Allowed, Clear, Step;
    if ops != [] {
      StepWhole(o, ops[0]);
      StepConserves(o, ops[0]);
      RunConserves(Step(o, ops[0]), ops[1..]);
    }
  }

  lemma {:induction false} RunStaysUnclean(o: Owned, ops: seq<Op>)
    requires Whole(o) && !o.clean
    ensures !Final(o, ops).clean
    decreases |ops|
  {
    hide Whole, Step;
    if ops != [] {
      StepWhole(o, ops[0]);
      RunStaysUnclean(Step(o, ops[0]), ops[1..]);
    }
  }

  /** The exact condition for runs: every release of the run hits a live block if and only if none of its flushes
      meets a cancelled job. */
  lemma {:induction false} RunCleanExactly(o: Owned, ops: seq<Op>)
    requires Conserved(o) && AllowedRun(o, ops)
    ensures Final(o, ops).clean <==> ClearRun(o, ops)
    decreases |ops|
  {
    if ops != [] {
      var op := ops[0];
      StepWhole(o, op);
      if Clear(o, op) {
        StepConserves(o, op);
        RunCleanExactly(Step(o, op), ops[1..]);
      } else {
        FlushCleanExactly(o);
        RunStaysUnclean(Step(o, op), ops[1..]);
      }
    }
  }

  /** A run that is not clean: submit a job to the empty store, cancel it, and flush. */
  lemma CancelledRun(filter: FilterFn, init: seq<byte>, blocks: Fresh)
    requires Available(blocks, {})
    ensures var o := Owned(EMPTY, map[], {}, true);
            var ops := [OpSubmit(0, Some(filter), init, blocks), OpCancel(0), OpFlush];
            Conserved(o) && AllowedRun(o, ops) && !Final(o, ops).clean
  {
    var o := Owned(EMPTY, map[], {}, true);
    var submit, rest := OpSubmit(0, Some(filter), init, blocks), [OpCancel(0), OpFlush];
    assert Conserved(o) && Whole(o) && Allowed(o, submit);
    var o1 := Step(o, submit);
    SubmitThenCancel(o, filter, init, blocks);
    hide Conserved, Whole, Allowed, Clear, Step, Final, AllowedRun, ClearRun, Linked;
    StepWhole(o, submit);
    OneMore(o, submit, rest);
    StepWhole(o1, OpCancel(0));
    OneMore(o1, OpCancel(0), [OpFlush]);
    OneMore(Step(o1, OpCancel(0)), OpFlush, []);
    assert [submit] + rest == [submit, OpCancel(0), OpFlush];
    RunCleanExactly(o, [submit] + rest);
  }

  lemma OneMore(o: Owned, op: Op, rest: seq<Op>)
    requires Whole(o)
    ensures Mapped(o) && Whole(Step(o, op))
    ensures ClearRun(o, [op] + rest) <==> Clear(o, op) && ClearRun(Step(o, op), rest)
    ensures AllowedRun(o, [op] + rest) <==> Allowed(o, op) && AllowedRun(Step(o, op), rest)
    ensures rest == [] ==> AllowedRun(Step(o, op), rest)
  {
    StepWhole(o, op);
  }

  lemma SubmitThenCancel(o: Owned, filter: FilterFn, init: seq<byte>, blocks: Fresh)
    requires o == Owned(EMPTY, map[], {}, true)
    ensures Whole(o)
    ensures var o1 := Step(o, OpSubmit(0, Some(filter), init, blocks));
            Whole(o1) && Allowed(o1, OpCancel(0)) &&
            var o2 := Step(o1, OpCancel(0));
            Whole(o2) && Allowed(o2, OpFlush) && !Clear(o2, OpFlush)
  {
    hide Submit, Cancel, WithBlocks, Initial;
    var o1 := Step(o, OpSubmit(0, Some(filter), init, blocks));
    StepWhole(o, OpSubmit(0, Some(filter), init, blocks));
    StepWhole(o1, OpCancel(0));
    hide Whole, Inv, Linked;
    FirstCancelled(filter, init);
  }

  lemma FirstCancelled(filter: FilterFn, init: seq<byte>)
    ensures var s := Submit(EMPTY, 0, Some(filter), init).0;
            Linked(s) && Submit(EMPTY, 0, Some(filter), init).1 == 0 &&
            var c := Cancel(s, 0).0;
            Linked(c) && c.queue == [0] && 0 in c.jobs && c.jobs[0].state.Cancelled?
  {
    FirstSubmit(filter, init);
    SubmitInv(EMPTY, 0, Some(filter), init);
    CancelInv(Submit(EMPTY, 0, Some(filter), init).0, 0);
    hide FreeFrom, Initial, Inv, Linked;
  }

  lemma FirstSubmit(filter: FilterFn, init: seq<byte>)
    ensures Submit(EMPTY, 0, Some(filter), init) ==
            (Spool(map[0 := Initial(0, filter, init)], [0], Some(0), 1, []), 0)
  {
    hide Initial;
    assert FreeFrom(EMPTY.jobs, 0) == Some(0);
    assert EMPTY.queue + [0] == [0];
  }
}
