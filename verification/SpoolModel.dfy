/**
 The Encore job store as a value: what each operation of spoolcore.c does to the job table,
 the ready queue, the most-recent cache and the job count.  The pointer-level store in
 SpoolStore.dfy is proved to follow these functions step by step; the properties the store is
 for are proved here, about them.
 */
module SpoolModel {
  import opened Bytes

  const SPOOL_MAX: nat := 256
  const SPOOL_RECENT: int := 0xFFFF
  const ENC_MAX_DOC: nat := ONE_MIB
  const SPOOL_OK: int := 0
  const SPOOL_ERR: int := -1

  datatype JobState = Queued | Rendering | Done | Cancelled

  /** What a render filter gives back: its return code and the preview it wrote. */
  datatype Rendered = Rendered(rc: int, out: seq<byte>)

  /** A borrowing filter is a function of the document and the size of the output buffer. */
  type FilterFn = (seq<byte>, nat) -> Rendered

  /** One filter call, as an observer of the plugin would record it. */
  datatype Call = Call(filter: FilterFn, doc: seq<byte>)

  datatype JobValue = JobValue(
    fmt: int,
    state: JobState,
    filter: FilterFn,
    doc: seq<byte>,   // the first `len` bytes of the document buffer
    cap: nat,         // the size of the document buffer
    meta: seq<byte>)

  datatype Spool = Spool(
    jobs: map<nat, JobValue>,   // occupied slots
    queue: seq<nat>,            // ids in the ready queue, head first
    active: Option<nat>,        // id of the most-recently touched job
    count: int,
    calls: seq<Call>)           // every filter call made so far

  const EMPTY: Spool := Spool(map[], [], None, 0, [])

  // ---- invariants ----------------------------------------------------------

  ghost predicate JobOk(j: JobValue) {
    32 <= j.cap <= ENC_MAX_DOC && |j.doc| <= j.cap && |j.meta| == 16
  }

  /** What holds even while the pump has one job off the queue. */
  ghost predicate Linked(s: Spool) {
    && (forall k :: k in s.jobs ==> k < SPOOL_MAX && JobOk(s.jobs[k]))
    && (forall i :: 0 <= i < |s.queue| ==> s.queue[i] in s.jobs)
    && Distinct(s.queue)
    && (s.active.Some? ==> s.active.value in s.jobs)
  }

  /** The store invariant: queue and table hold exactly the same jobs, and `count` counts them. */
  ghost predicate Inv(s: Spool) {
    && Linked(s)
    && (forall k :: k in s.jobs ==> k in s.queue)
    && s.count == |s.queue|
  }

  // ---- helpers -------------------------------------------------------------

  /** The least free slot at or after `i`. */
  function FreeFrom(jobs: map<nat, JobValue>, i: nat): (r: Option<nat>)
    requires i <= SPOOL_MAX
    ensures r.Some? ==> i <= r.value < SPOOL_MAX && r.value !in jobs && forall k :: i <= k < r.value ==> k in jobs
    ensures r.None? ==> forall k :: i <= k < SPOOL_MAX ==> k in jobs
    decreases SPOOL_MAX - i
  {
    if i == SPOOL_MAX then None
    else if i !in jobs then Some(i)
    else FreeFrom(jobs, i + 1)
  }

  /** The queue with `id` unlinked. */
  function Without(q: seq<nat>, id: nat): (r: seq<nat>)
    ensures forall x :: x in r ==> x in q
    ensures forall x :: x in q && x != id ==> x in r
    ensures id !in q ==> r == q
    ensures id in q ==> |r| == |q| - 1
  {
    if q == [] then []
    else if q[0] == id then q[1..]
    else [q[0]] + Without(q[1..], id)
  }

  lemma {:induction false} WithoutDistinct(q: seq<nat>, id: nat)
    requires Distinct(q)
    ensures Distinct(Without(q, id)) && id !in Without(q, id)
  {
    if q != [] && q[0] != id {
      WithoutDistinct(q[1..], id);
      forall j | 0 <= j < |Without(q[1..], id)|
        ensures Without(q[1..], id)[j] != q[0]
      {
        assert Without(q[1..], id)[j] in q[1..];
      }
    }
  }

  /** Unlinking at a known position is splicing. */
  lemma {:induction false} WithoutAt(q: seq<nat>, k: nat)
    requires k < |q| && Distinct(q)
    ensures Without(q, q[k]) == q[..k] + q[k + 1..]
  {
    if k == 0 {
      assert q[..0] + q[1..] == q[1..];
    } else {
      WithoutAt(q[1..], k - 1);
      assert q[..k] + q[k + 1..] == [q[0]] + (q[1..][..k - 1] + q[1..][k..]);
    }
  }

  function InitialMeta(fmt: int): (m: seq<byte>)
    ensures |m| == 16
  {
    [fmt % 0x100] + seq(15, _ => 0)
  }

  /** A submitted job: the clamped bytes in a buffer of at least 32. */
  function Initial(fmt: int, filter: FilterFn, init: seq<byte>): JobValue {
    var doc := Take(init, ENC_MAX_DOC);
    JobValue(fmt, Queued, filter, doc, Max(32, |doc|), InitialMeta(fmt))
  }

  /** What a dup makes of a job: queued again, in a buffer of its own. */
  function CopyOf(job: JobValue): JobValue {
    job.(state := Queued, cap := Max(32, |job.doc|))
  }

  /** The job an id names in the store as it is at this moment. */
  function Named(s: Spool, id: int): Option<nat> {
    if id == SPOOL_RECENT then s.active
    else if 0 <= id < SPOOL_MAX && id in s.jobs then Some(id)
    else None
  }

  // ---- operations ----------------------------------------------------------

  ghost function NewJob(s: Spool, id: nat, job: JobValue): Spool {
    s.(jobs := s.jobs[id := job], count := s.count + 1, queue := s.queue + [id], active := Some(id))
  }

  ghost function Submit(s: Spool, fmt: int, filter: Option<FilterFn>, init: seq<byte>): (Spool, int) {
    if filter.None? then (s, SPOOL_ERR) else
    var slot := FreeFrom(s.jobs, 0);
    if slot.None? then (s, SPOOL_ERR) else
    (NewJob(s, slot.value, Initial(fmt, filter.value, init)), slot.value)
  }

  /** JobGet: the job an id names, and the cache it leaves behind. */
  ghost function Lookup(s: Spool, id: int): (r: (Spool, Option<nat>))
    requires Linked(s)
    ensures Linked(r.0) && (Inv(s) ==> Inv(r.0))
    ensures r.1.Some? ==> r.1.value in r.0.jobs && r.0.active == r.1
    ensures r.0 == s.(active := r.0.active)
  {
    (if Named(s, id).None? then s else s.(active := Named(s, id)), Named(s, id))
  }

  ghost function Retire(s: Spool, id: int): (Spool, int) {
    if id < 0 || id !in s.jobs then (s, SPOOL_ERR) else
    (s.(jobs := s.jobs - {id},
        queue := Without(s.queue, id),
        active := if s.active == Some(id) then None else s.active,
        count := s.count - 1), SPOOL_OK)
  }

  ghost function Render(s: Spool, id: int, outCap: nat): (Spool, Rendered)
    requires Linked(s)
  {
    var (s1, j) := Lookup(s, id);
    if j.None? then (s1, Rendered(SPOOL_ERR, [])) else
    var job := s1.jobs[j.value];
    (Retire(s1.(calls := s1.calls + [Call(job.filter, job.doc)]), j.value).0, job.filter(job.doc, outCap))
  }

  ghost function Append(s: Spool, id: int, arg: seq<byte>): (Spool, int)
    requires Linked(s)
  {
    var (s1, j) := Lookup(s, id);
    if j.None? then (s1, SPOOL_ERR) else
    var job := s1.jobs[j.value];
    var need := AddU32(|job.doc|, |arg|);
    if |arg| > ENC_MAX_DOC || need > ENC_MAX_DOC then (s1, SPOOL_ERR) else
    (s1.(jobs := s1.jobs[j.value := job.(doc := job.doc + arg, cap := Max(job.cap, need))]), SPOOL_OK)
  }

  ghost function Cancel(s: Spool, id: int): (Spool, int)
    requires Linked(s)
  {
    var (s1, j) := Lookup(s, id);
    if j.None? then (s1, SPOOL_ERR) else
    (s1.(jobs := s1.jobs[j.value := s1.jobs[j.value].(state := Cancelled)]), SPOOL_OK)
  }

  ghost function Recycle(s: Spool, id: int): (Spool, int)
    requires Linked(s)
  {
    var (s1, j) := Lookup(s, id);
    (s1, if j.None? then SPOOL_ERR else SPOOL_OK)
  }

  ghost function Dup(s: Spool, id: int): (Spool, int)
    requires Linked(s)
  {
    var (s1, j) := Lookup(s, id);
    if j.None? then (s1, SPOOL_ERR) else
    var slot := FreeFrom(s1.jobs, 0);
    if slot.None? then (s1, SPOOL_ERR) else
    (NewJob(s1, slot.value, CopyOf(s1.jobs[j.value])), slot.value)
  }

  /** JobDequeue on a non-empty queue. */
  ghost function Dequeue(s: Spool): Spool
    requires s.queue != []
  {
    s.(queue := s.queue[1..])
  }

  /** JobWork on the job just taken off the queue. */
  ghost function Work(s: Spool, id: nat): Spool
    requires id in s.jobs
  {
    var job := s.jobs[id];
    if job.state.Cancelled? then
      Retire(if s.active == Some(id) then s.(active := None) else s, id).0
    else
      Retire(s.(jobs := s.jobs[id := job.(state := Done)], calls := s.calls + [Call(job.filter, job.doc)]), id).0
  }

  lemma LinkedTail(s: Spool)
    requires Linked(s) && s.queue != []
    ensures Linked(Dequeue(s)) && s.queue[0] !in Dequeue(s).queue
  {
    assert forall i :: 0 <= i < |s.queue[1..]| ==> s.queue[1..][i] == s.queue[i + 1];
  }

  lemma WorkStep(s: Spool, id: nat)
    requires Linked(s) && id in s.jobs && id !in s.queue
    ensures Linked(Work(s, id)) && Work(s, id).queue == s.queue && id !in Work(s, id).jobs
  {
  }

  /** The drain loop of JobFlush. */
  ghost function Pump(s: Spool): Spool
    requires Linked(s)
    decreases |s.queue|
  {
    if s.queue == [] then s else
    var d := Dequeue(s);
    LinkedTail(s);
    WorkStep(d, s.queue[0]);
    Pump(Work(d, s.queue[0]))
  }

  // ---- the invariant over single operations --------------------------------

  lemma NewJobInv(s: Spool, id: nat, job: JobValue)
    requires Inv(s) && id < SPOOL_MAX && id !in s.jobs && JobOk(job)
    ensures Inv(NewJob(s, id, job))
  {
    var q := s.queue + [id];
    assert forall k :: k in s.queue ==> k in q;
    assert q[|q| - 1] == id;
  }

  /** Changing one job in place keeps the links. */
  lemma UpdateLinked(s: Spool, id: nat, job: JobValue)
    requires Linked(s) && id in s.jobs && JobOk(job)
    ensures Linked(s.(jobs := s.jobs[id := job]))
  {
  }

  lemma CallsLinked(s: Spool, c: Call)
    requires Linked(s)
    ensures Linked(s.(calls := s.calls + [c]))
  {
  }

  lemma InactiveLinked(s: Spool)
    requires Linked(s)
    ensures Linked(s.(active := None))
  {
  }

  lemma NewJobLinked(s: Spool, id: nat, job: JobValue)
    requires Linked(s) && id < SPOOL_MAX && id !in s.jobs && JobOk(job)
    ensures Linked(NewJob(s, id, job)) && id !in s.queue
  {
    assert forall i :: 0 <= i < |s.queue| ==> s.queue[i] != id;
  }

  lemma LinkedWithout(s: Spool, id: nat)
    requires Linked(s)
    ensures Linked(s.(queue := Without(s.queue, id)))
  {
    WithoutDistinct(s.queue, id);
    var q := Without(s.queue, id);
    assert forall i :: 0 <= i < |q| ==> q[i] in q && q[i] in s.queue;
  }

  lemma RetireLinked(s: Spool, id: int)
    requires Linked(s)
    ensures Linked(Retire(s, id).0)
  {
    if id >= 0 && id in s.jobs {
      WithoutDistinct(s.queue, id);
      var r := Retire(s, id).0;
      assert forall i :: 0 <= i < |r.queue| ==> r.queue[i] in r.queue && r.queue[i] in s.queue;
    }
  }

  lemma RetireInv(s: Spool, id: int)
    requires Inv(s)
    ensures Inv(Retire(s, id).0)
  {
    hide Linked, Without, Distinct;
    RetireLinked(s, id);
  }

  /** Retiring an id twice is retiring it once; the second call reports the error. */
  lemma RetireTwice(s: Spool, id: int)
    ensures Retire(Retire(s, id).0, id) == (Retire(s, id).0, SPOOL_ERR)
  {
  }

  /** JobAppend succeeds exactly when the job exists and the true sum of lengths fits: the 32-bit sum never lies.
      Then the document is the old bytes and the new ones; otherwise no job changes. */
  lemma AppendAccepts(s: Spool, id: int, arg: seq<byte>)
    requires Linked(s)
    ensures var j := Lookup(s, id).1;
            var (s', rc) := Append(s, id, arg);
            if j.Some? && |s.jobs[j.value].doc| + |arg| <= 0x10_0000
            then rc == 0 && j.value in s'.jobs && s'.jobs[j.value].doc == s.jobs[j.value].doc + arg
                 && s' == s.(active := j, jobs := s.jobs[j.value := s'.jobs[j.value]])
                 && s'.jobs[j.value].(doc := [], cap := 0) == s.jobs[j.value].(doc := [], cap := 0)
                 && s'.jobs[j.value].cap == (if s.jobs[j.value].cap < |s'.jobs[j.value].doc| then |s'.jobs[j.value].doc|
                                             else s.jobs[j.value].cap)
            else rc == -1 && s' == s.(active := if j.Some? then j else s.active)
    ensures Linked(Append(s, id, arg).0) && (Inv(s) ==> Inv(Append(s, id, arg).0))
  {
  }

  /** JobCancel changes the state of the job it names and nothing else; JobRecycle changes no job. */
  lemma CancelDoes(s: Spool, id: int)
    requires Linked(s)
    ensures var j := Lookup(s, id).1;
            Cancel(s, id) == if j.None? then (s, -1) else
              (s.(active := j, jobs := s.jobs[j.value := s.jobs[j.value].(state := Cancelled)]), 0)
    ensures Recycle(s, id) == (s.(active := if Named(s, id).Some? then Named(s, id) else s.active),
                               if Named(s, id).Some? then 0 else -1)
  {
  }

  // ---- flush ---------------------------------------------------------------

  /** The filter calls that draining the queue `q` makes: the uncancelled jobs, in order. */
  ghost function PendingCalls(jobs: map<nat, JobValue>, q: seq<nat>): seq<Call>
    requires forall i :: 0 <= i < |q| ==> q[i] in jobs
  {
    if q == [] then [] else
    CallsOf(jobs[q[0]]) + PendingCalls(jobs, q[1..])
  }

  lemma {:induction false} PendingCallsFrame(jobs: map<nat, JobValue>, id: nat, q: seq<nat>)
    requires id !in q
    requires forall i :: 0 <= i < |q| ==> q[i] in jobs
    ensures forall i :: 0 <= i < |q| ==> q[i] in jobs - {id}
    ensures PendingCalls(jobs - {id}, q) == PendingCalls(jobs, q)
  {
    if q != [] {
      assert forall i :: 0 <= i < |q| ==> q[i] in q;
      PendingCallsFrame(jobs, id, q[1..]);
    }
  }

  /** The calls one pump step makes. */
  ghost function CallsOf(job: JobValue): seq<Call> {
    if job.state.Cancelled? then [] else [Call(job.filter, job.doc)]
  }

  lemma WorkValue(d: Spool, id: nat)
    requires id in d.jobs && id !in d.queue
    ensures Work(d, id) == Spool(d.jobs - {id}, d.queue, if d.active == Some(id) then None else d.active,
                                 d.count - 1, d.calls + CallsOf(d.jobs[id]))
  {
    assert Work(d, id).jobs == d.jobs - {id};
  }

  /** The value of a whole store with the job at the head of the queue gone. */
  ghost function Popped(s: Spool): Spool
    requires s.queue != [] && s.queue[0] in s.jobs
  {
    var id := s.queue[0];
    Spool(s.jobs - {id}, s.queue[1..], if s.active == Some(id) then None else s.active,
          s.count - 1, s.calls + CallsOf(s.jobs[id]))
  }

  lemma PoppedInv(s: Spool)
    requires Inv(s) && s.queue != []
    ensures Inv(Popped(s))
  {
    var w := Popped(s);
    assert s.queue[0] !in s.queue[1..];
    assert forall k :: k in s.queue && k != s.queue[0] ==> k in w.queue;
    assert forall i :: 0 <= i < |w.queue| ==> w.queue[i] == s.queue[i + 1];
  }

  /** One pump step off the head of the queue leaves a store that is whole again. */
  lemma PumpStep(s: Spool) returns (w: Spool)
    requires Inv(s) && s.queue != []
    ensures Inv(w) && w == Popped(s) && Pump(s) == Pump(w)
  {
    assert s.queue[0] !in s.queue[1..];
    WorkValue(Dequeue(s), s.queue[0]);
    PoppedInv(s);
    w := Popped(s);
  }

  lemma PendingStep(jobs: map<nat, JobValue>, q: seq<nat>)
    requires q != [] && Distinct(q)
    requires forall i :: 0 <= i < |q| ==> q[i] in jobs
    ensures forall i :: 0 <= i < |q[1..]| ==> q[1..][i] in jobs - {q[0]}
    ensures PendingCalls(jobs, q) == CallsOf(jobs[q[0]]) + PendingCalls(jobs - {q[0]}, q[1..])
  {
    assert forall i :: 0 <= i < |q[1..]| ==> q[1..][i] == q[i + 1] && q[i + 1] in jobs;
    assert q[0] !in q[1..];
    PendingCallsFrame(jobs, q[0], q[1..]);
  }

  /** Flushing empties the queue, the table, the count and the cache, and the filter calls it
      makes are those of the uncancelled queued jobs, in queue order, once each. */
  lemma {:induction false} FlushDrains(s: Spool)
    requires Inv(s)
    ensures Pump(s) == Spool(map[], [], None, 0, s.calls + PendingCalls(s.jobs, s.queue))
    decreases |s.queue|
  {
    if s.queue == [] {
      assert s.jobs == map[];
      assert s.calls + PendingCalls(s.jobs, s.queue) == s.calls;
    } else {
      var w := PumpStep(s);
      FlushDrains(w);
      PendingStep(s.jobs, s.queue);
      ConcatAssoc(s.calls, CallsOf(s.jobs[s.queue[0]]), PendingCalls(w.jobs, w.queue));
    }
  }

  lemma {:induction false} CancelledMakesNoCall(jobs: map<nat, JobValue>, q: seq<nat>, k: nat)
    requires k in jobs && Distinct(q) && forall i :: 0 <= i < |q| ==> q[i] in jobs
    ensures forall i :: 0 <= i < |Without(q, k)| ==> Without(q, k)[i] in jobs
    ensures PendingCalls(jobs[k := jobs[k].(state := Cancelled)], q) == PendingCalls(jobs, Without(q, k))
  {
    assert forall x :: x in q ==> x in jobs;
    assert forall i :: 0 <= i < |Without(q, k)| ==> Without(q, k)[i] in Without(q, k);
    if q != [] {
      var rest := q[1..];
      CancelledMakesNoCall(jobs, rest, k);
      if q[0] == k {
        assert k !in rest;
      } else {
        assert Without(q, k) == [q[0]] + Without(rest, k);
      }
    }
  }

  /** Cancelling a job takes its call, and no other, out of what the next flush will do. */
  lemma CancelThenFlush(s: Spool, id: int)
    requires Inv(s) && Lookup(s, id).1.Some?
    ensures var k := Lookup(s, id).1.value;
            var c := Cancel(s, id).0;
            Inv(c) && (forall i :: 0 <= i < |Without(s.queue, k)| ==> Without(s.queue, k)[i] in s.jobs) &&
            Pump(c) == Spool(map[], [], None, 0, s.calls + PendingCalls(s.jobs, Without(s.queue, k)))
  {
    CancelInv(s, id);
    FlushDrains(Cancel(s, id).0);
    CancelledMakesNoCall(s.jobs, s.queue, Lookup(s, id).1.value);
  }

  // ---- the invariant over the operations of the server -----------------------

  lemma InvLinked(s: Spool)
    requires Inv(s)
    ensures Linked(s)
  {
  }

  lemma SubmitInv(s: Spool, fmt: int, filter: Option<FilterFn>, init: seq<byte>)
    requires Inv(s)
    ensures Inv(Submit(s, fmt, filter, init).0)
  {
    hide Inv, NewJob;
    if filter.Some? && FreeFrom(s.jobs, 0).Some? {
      NewJobInv(s, FreeFrom(s.jobs, 0).value, Initial(fmt, filter.value, init));
    }
  }

  lemma DupInv(s: Spool, id: int)
    requires Inv(s)
    ensures Linked(s) && Inv(Dup(s, id).0)
  {
    var (s1, j) := Lookup(s, id);
    if j.Some? && FreeFrom(s1.jobs, 0).Some? {
      var job := s1.jobs[j.value];
      assert JobOk(job);
      NewJobInv(s1, FreeFrom(s1.jobs, 0).value, CopyOf(job));
    }
  }

  lemma CancelInv(s: Spool, id: int)
    requires Inv(s)
    ensures Linked(s) && Inv(Cancel(s, id).0)
  {
  }

  lemma RenderInv(s: Spool, id: int)
    requires Inv(s)
    ensures Linked(s) && Inv(Render(s, id, 256).0)
  {
    var (s1, j) := Lookup(s, id);
    if j.Some? {
      var job := s1.jobs[j.value];
      RetireInv(s1.(calls := s1.calls + [Call(job.filter, job.doc)]), j.value);
    }
  }

  lemma FlushInv(s: Spool)
    requires Inv(s)
    ensures Linked(s) && Inv(Pump(s))
  {
    FlushDrains(s);
  }

  // ---- what the operations promise their callers ------------------------------

  ghost function Elements(q: seq<nat>): set<nat> {
    set x | x in q
  }

  lemma {:induction false} DistinctCard(q: seq<nat>)
    requires Distinct(q)
    ensures |Elements(q)| == |q|
  {
    if q != [] {
      DistinctCard(q[1..]);
      assert q[0] !in q[1..];
      assert Elements(q) == Elements(q[1..]) + {q[0]};
    }
  }

  /** `count` is the number of occupied slots and the length of the queue. */
  lemma CountIsExact(s: Spool)
    requires Inv(s)
    ensures |s.jobs| == |s.queue| == s.count <= SPOOL_MAX
    ensures s.count == SPOOL_MAX <==> FreeFrom(s.jobs, 0).None?
  {
    DistinctCard(s.queue);
    assert s.jobs.Keys == Elements(s.queue);
    BelowCard(s.jobs.Keys, SPOOL_MAX);
  }

  /** JobSubmit succeeds exactly when there is a filter and fewer than 256 jobs, and takes the least free id. */
  lemma SubmitAccepts(s: Spool, fmt: int, filter: Option<FilterFn>, init: seq<byte>)
    requires Inv(s)
    ensures var (s', id) := Submit(s, fmt, filter, init);
            if filter.Some? && s.count < 256
            then 0 <= id < 256 && id !in s.jobs && (forall k: nat :: k < id ==> k in s.jobs)
                 && id in s'.jobs && s'.jobs - {id} == s.jobs && s'.queue == s.queue + [id]
                 && s'.count == s.count + 1 && s'.active == Some(id) && s'.calls == s.calls
                 && s'.jobs[id].doc == Take(init, 0x10_0000) && s'.jobs[id].state == Queued
                 && s'.jobs[id].fmt == fmt && s'.jobs[id].filter == filter.value
                 && s'.jobs[id].cap == (if |init| < 32 then 32 else if |init| < 0x10_0000 then |init| else 0x10_0000)
                 && |s'.jobs[id].meta| == 16 && s'.jobs[id].meta[0] == fmt % 0x100
                 && (forall i :: 1 <= i < 16 ==> s'.jobs[id].meta[i] == 0)
            else s' == s && id == -1
  {
    hide Inv, Linked;
    CountIsExact(s);
  }

  /** JobDup succeeds exactly when the job exists and there are fewer than 256; the copy has the original's
      format, filter, document and metadata, and is queued behind everything else. */
  lemma DupAccepts(s: Spool, id: int)
    requires Inv(s)
    ensures Linked(s)
    ensures var (s', nid) := Dup(s, id);
            var j := Lookup(s, id).1;
            if j.Some? && s.count < 256
            then 0 <= nid < 256 && nid !in s.jobs && (forall k: nat :: k < nid ==> k in s.jobs)
                 && nid in s'.jobs && s'.jobs - {nid} == s.jobs && s'.queue == s.queue + [nid] && s'.jobs[nid].state == Queued
                 && s'.count == s.count + 1 && s'.active == Some(nid) && s'.calls == s.calls
                 && s'.jobs[nid].cap == (if |s.jobs[j.value].doc| < 32 then 32 else |s.jobs[j.value].doc|)
                 && s'.jobs[nid].(state := s.jobs[j.value].state, cap := s.jobs[j.value].cap) == s.jobs[j.value]
            else s' == s.(active := if j.Some? then j else s.active) && nid == -1
  {
    hide Inv, Linked;
    InvLinked(s);
    CountIsExact(s);
  }

  /** Which job an id names: 0xFFFF the most-recent one, an id below 256 the job of its own slot, anything else
      none. */
  lemma NamedIs(s: Spool, id: int)
    ensures Named(s, 0xFFFF) == s.active
    ensures 0 <= id < 256 && id in s.jobs ==> Named(s, id) == Some(id)
    ensures id != 0xFFFF && (id < 0 || id >= 256 || id !in s.jobs) ==> Named(s, id) == None
  {
  }

  /** A lookup returns that job and remembers it, and changes nothing when there is none. */
  lemma LookupIs(s: Spool, id: int)
    requires Linked(s)
    ensures Lookup(s, id) == (if Named(s, id).Some? then s.(active := Named(s, id)) else s, Named(s, id))
  {
  }

  /** Unlinking takes the one occurrence out and leaves what is before and after it in place. */
  lemma {:induction false} WithoutSplit(before: seq<nat>, id: nat, after: seq<nat>)
    requires id !in before
    ensures Without(before + [id] + after, id) == before + after
  {
    var q := before + [id] + after;
    if before == [] {
      assert q[1..] == after && before + after == after;
    } else {
      assert q[1..] == before[1..] + [id] + after;
      WithoutSplit(before[1..], id, after);
      assert [before[0]] + (before[1..] + after) == before + after;
    }
  }

  /** JobRetire on an occupied slot: that job goes from table and queue, the cache forgets it, the count drops by
      one, and everything else stays in its place. */
  lemma RetireDoes(s: Spool, id: nat, before: seq<nat>, after: seq<nat>)
    requires Linked(s) && id in s.jobs && s.queue == before + [id] + after
    ensures Retire(s, id) == (Spool(s.jobs - {id}, before + after, if s.active == Some(id) then None else s.active,
                                    s.count - 1, s.calls), 0)
    ensures forall bad: int :: bad !in s.jobs ==> Retire(s, bad) == (s, -1)
  {
    assert forall i :: 0 <= i < |before| ==> s.queue[i] == before[i];
    assert s.queue[|before|] == id;
    assert id !in before;
    WithoutSplit(before, id, after);
  }

  /** JobRender of a job: one call of its filter on its whole document, whose result is returned, and the job is
      retired. */
  lemma RenderDoes(s: Spool, id: int, outCap: nat, before: seq<nat>, after: seq<nat>)
    requires Linked(s) && Named(s, id).Some? && s.queue == before + [Named(s, id).value] + after
    ensures var k := Named(s, id).value;
            var job := s.jobs[k];
            Render(s, id, outCap) ==
              (Spool(s.jobs - {k}, before + after, None, s.count - 1, s.calls + [Call(job.filter, job.doc)]),
               job.filter(job.doc, outCap))
  {
    var k := Named(s, id).value;
    var job := s.jobs[k];
    LookupIs(s, id);
    var s1 := s.(active := Some(k), calls := s.calls + [Call(job.filter, job.doc)]);
    RetireDoes(s1, k, before, after);
  }

  /** The filter calls of a queue without cancelled jobs: one for each job, in order, on its whole document. */
  lemma {:induction false} CallsInOrder(jobs: map<nat, JobValue>, q: seq<nat>, i: nat)
    requires forall j :: 0 <= j < |q| ==> q[j] in jobs && jobs[q[j]].state != Cancelled
    requires i < |q|
    ensures |PendingCalls(jobs, q)| == |q|
    ensures PendingCalls(jobs, q)[i] == Call(jobs[q[i]].filter, jobs[q[i]].doc)
  {
    if |q| > 1 { CallsInOrder(jobs, q[1..], if i == 0 then 0 else i - 1); }
  }

  /** A cancelled job adds no call, wherever it is queued, and takes no other away. */
  lemma {:induction false} CallsSkipCancelled(jobs: map<nat, JobValue>, before: seq<nat>, id: nat, after: seq<nat>)
    requires forall x :: x in before || x in after ==> x in jobs
    requires id in jobs && jobs[id].state == Cancelled
    ensures forall i :: 0 <= i < |before + [id] + after| ==> (before + [id] + after)[i] in jobs
    ensures forall i :: 0 <= i < |before + after| ==> (before + after)[i] in jobs
    ensures PendingCalls(jobs, before + [id] + after) == PendingCalls(jobs, before + after)
  {
    var q, r := before + [id] + after, before + after;
    assert forall x :: x in q ==> x in jobs;
    assert forall x :: x in r ==> x in jobs;
    assert forall i :: 0 <= i < |q| ==> q[i] in q;
    assert forall i :: 0 <= i < |r| ==> r[i] in r;
    if before == [] {
      assert q[1..] == r;
    } else {
      CallsSkipCancelled(jobs, before[1..], id, after);
      assert q[1..] == before[1..] + [id] + after && r[1..] == before[1..] + after;
    }
  }

  /** `a` is `b` with some elements left out. */
  ghost predicate Subseq(a: seq<nat>, b: seq<nat>) {
    a == [] || (b != [] && (if a[0] == b[0] then Subseq(a[1..], b[1..]) else Subseq(a, b[1..])))
  }

  lemma {:induction false} SubseqSelf(a: seq<nat>)
    ensures Subseq(a, a)
  {
    if a != [] { SubseqSelf(a[1..]); }
  }

  lemma {:induction false} WithoutSubseq(q: seq<nat>, id: nat)
    requires Distinct(q)
    ensures Subseq(Without(q, id), q)
  {
    if q != [] {
      if q[0] == id {
        SubseqSelf(q[1..]);
        assert q[1..] == [] || q[1..][0] != q[0];
      } else {
        WithoutSubseq(q[1..], id);
        assert Without(q, id)[1..] == Without(q[1..], id);
      }
    }
  }
}
