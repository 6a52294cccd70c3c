/**
 spoolcore.c with its pointers: a job table of 256 slots, an intrusive ready queue threaded
 through the jobs, and the most-recent cache.  Each method is tied to the function of the same
 name in SpoolModel through the ghost field `model`.
 */
module SpoolStore {
  import opened Bytes
  import opened SpoolModel

  class Job {
    var id: int
    var fmt: int
    var state: JobState
    var filter: FilterFn
    var data: seq<byte>   // the whole document buffer, `cap` bytes
    var len: nat
    var cap: nat
    var meta: seq<byte>
    var qnext: Job?

    ghost predicate Holds(k: nat, v: JobValue)
      reads `id, `fmt, `state, `filter, `data, `len, `cap, `meta
    {
      && id == k && fmt == v.fmt && state == v.state && filter == v.filter
      && cap == v.cap == |data| && len <= cap && data[..len] == v.doc && meta == v.meta
    }

    constructor (id: nat, fmt: int, filter: FilterFn, cap: nat, doc: seq<byte>, meta: seq<byte>)
      requires |doc| <= cap
      ensures Holds(id, JobValue(fmt, Queued, filter, doc, cap, meta)) && qnext == null
    {
      this.id, this.fmt, this.state, this.filter := id, fmt, Queued, filter;
      this.cap, this.len := cap, |doc|;
      this.data := doc + seq(cap - |doc|, _ => 0);
      this.meta := meta;
      this.qnext := null;
    }
  }

  /** Queue positions and queued ids name the same jobs. */
  ghost predicate Matches(ready: seq<Job>, queue: seq<nat>, slots: seq<Job?>, owned: set<Job>) {
    && |ready| == |queue|
    && (forall i :: 0 <= i < |ready| ==> queue[i] < |slots| && ready[i] == slots[queue[i]] && ready[i] in owned)
  }

  lemma MatchesTail(ready: seq<Job>, queue: seq<nat>, slots: seq<Job?>, owned: set<Job>)
    requires Matches(ready, queue, slots, owned) && ready != []
    ensures Matches(ready[1..], queue[1..], slots, owned)
  {
  }

  /** Splicing the job of slot `id` out of the list, or finding none, is unlinking its id. */
  lemma MatchesUnlink(ready: seq<Job>, ready': seq<Job>, queue: seq<nat>, slots: seq<Job?>, owned: set<Job>,
                      id: nat, k: nat)
    requires Matches(ready, queue, slots, owned) && Distinct(queue) && id < |slots|
    requires k <= |ready| && forall i :: 0 <= i < k ==> ready[i] != slots[id]
    requires if k < |ready| then queue[k] == id && ready' == ready[..k] + ready[k + 1..] else ready' == ready
    ensures Matches(ready', Without(queue, id), slots, owned) && id !in Without(queue, id)
  {
    if k < |ready| {
      WithoutAt(queue, k);
    } else {
      assert id !in queue;
    }
    WithoutDistinct(queue, id);
  }

  /** Clearing the slot of a job that is off the queue does not disturb the queue. */
  lemma MatchesClear(ready: seq<Job>, queue: seq<nat>, slots: seq<Job?>, owned: set<Job>, id: nat)
    requires Matches(ready, queue, slots, owned) && id < |slots| && id !in queue
    ensures Matches(ready, queue, slots[id := null], owned)
  {
    forall i | 0 <= i < |ready|
      ensures queue[i] < |slots| && ready[i] == slots[id := null][queue[i]] && ready[i] in owned
    {
      assert queue[i] in queue;
    }
  }

  lemma MatchesPush(ready: seq<Job>, queue: seq<nat>, slots: seq<Job?>, owned: set<Job>, id: nat, j: Job)
    requires Matches(ready, queue, slots, owned) && id < |slots| && id !in queue
    ensures Matches(ready + [j], queue + [id], slots[id := j], owned + {j})
  {
    forall i | 0 <= i < |ready|
      ensures queue[i] < |slots| && ready[i] == slots[id := j][queue[i]] && ready[i] in owned
    {
      assert queue[i] in queue;
    }
  }

  class SpoolTable {
    const slots: array<Job?>
    var qhead: Job?
    var qtail: Job?
    var count: int
    var active: Job?             // g_active: one cache, one table per process
    var calls: seq<Call>         // every filter call made, in order
    ghost var ready: seq<Job>    // the jobs on the ready queue, head first
    ghost var owned: set<Job>    // every job this table ever made
    ghost var model: Spool

    // ---- representation ----------------------------------------------------

    /** The ready queue is an acyclic list from `qhead` through `qnext` to `qtail`. */
    ghost predicate Chain()
      reads `qhead, `qtail, `ready, ready`qnext
    {
      && Distinct(ready)
      && qhead == (if ready == [] then null else ready[0])
      && qtail == (if ready == [] then null else ready[|ready| - 1])
      && (forall i {:trigger ready[i].qnext} :: 0 <= i < |ready| ==>
            ready[i].qnext == if i + 1 < |ready| then ready[i + 1] else null)
    }

    /** Every slot holds the job its index names, or nothing. */
    ghost predicate Table(jobs: map<nat, JobValue>)
      reads `owned, slots
      reads owned`id, owned`fmt, owned`state, owned`filter, owned`data, owned`len, owned`cap, owned`meta
    {
      && slots.Length == SPOOL_MAX
      && (forall k :: k in jobs ==> k < SPOOL_MAX)
      && (forall k: nat {:trigger slots[k]} :: k < SPOOL_MAX ==>
            if k in jobs
            then slots[k] != null && slots[k] in owned && slots[k].Holds(k, jobs[k])
            else slots[k] == null)
    }

    ghost predicate Tied()
      reads this, slots, owned, ready
    {
      && Linked(model) && Table(model.jobs) && Chain()
      && Matches(ready, model.queue, slots[..], owned)
      && active == (if model.active.None? then null else slots[model.active.value])
      && count == model.count
      && calls == model.calls
    }

    /** The store invariant of the operations. */
    ghost predicate Valid()
      reads this, slots, owned, ready
    {
      Tied() && Inv(model)
    }

    constructor ()
      ensures Valid() && model == EMPTY && fresh(slots) && owned == {}
    {
      slots := new Job?[SPOOL_MAX](_ => null);
      qhead, qtail, active := null, null, null;
      count, calls, ready, owned, model := 0, [], [], {}, EMPTY;
    }

    /** The job of every occupied slot is on the queue. */
    lemma OccupiedIsQueued(i: nat)
      requires Valid() && i < SPOOL_MAX
      ensures slots.Length == SPOOL_MAX
      ensures slots[i] != null ==> slots[i].id == i && slots[i] in ready
    {
      Slots();
      if i in model.jobs {
        SlotOf(i);
        var k :| 0 <= k < |model.queue| && model.queue[k] == i;
        assert ready[k] == slots[i];
      }
    }

    /** Every queued job sits in the slot of its id. */
    lemma QueuedIsInSlot(k: nat)
      requires Valid() && k < |ready|
      ensures slots.Length == SPOOL_MAX && 0 <= ready[k].id < SPOOL_MAX && slots[ready[k].id] == ready[k]
      ensures ready[k].len <= ready[k].cap == |ready[k].data| && 32 <= ready[k].cap <= ENC_MAX_DOC
    {
      SlotOf(model.queue[k]);
    }

    lemma CountOccupied()
      requires Valid()
      ensures slots.Length == SPOOL_MAX && count == |ready| == |set i | 0 <= i < SPOOL_MAX && slots[i] != null|
    {
      hide Chain;
      Slots();
      CountIsExact(model);
      assert (set i | 0 <= i < SPOOL_MAX && slots[i] != null) == model.jobs.Keys;
    }

    /** The store invariant, read off the pointers: the ready queue is an acyclic list from `qhead` to `qtail`
        that holds the job of every occupied slot exactly once and nothing else, every job sits in the slot of
        its id, `count` is the number of occupied slots, and the cache is NULL or names a job of the table. */
    lemma StoreInvariant()
      requires Valid()
      ensures slots.Length == 256 && Chain()
      ensures forall i :: 0 <= i < 256 && slots[i] != null ==> slots[i].id == i && slots[i] in ready
      ensures forall k :: 0 <= k < |ready| ==> 0 <= ready[k].id < 256 && slots[ready[k].id] == ready[k]
      ensures count == |ready| == |set i | 0 <= i < 256 && slots[i] != null|
      ensures active != null ==> active in ready
      ensures forall k :: 0 <= k < |ready| ==>
        ready[k].len <= ready[k].cap == |ready[k].data| && 32 <= ready[k].cap <= 0x10_0000
    {
      hide Linked, Table, Chain, Matches, Inv;
      CountOccupied();
      ActiveInRange();
      if model.active.Some? { OccupiedIsQueued(model.active.value); }
      forall i: nat | i < SPOOL_MAX
        ensures slots[i] != null ==> slots[i].id == i && slots[i] in ready
      {
        OccupiedIsQueued(i);
      }
      forall k: nat | k < |ready|
        ensures 0 <= ready[k].id < SPOOL_MAX && slots[ready[k].id] == ready[k]
        ensures ready[k].len <= ready[k].cap == |ready[k].data| && 32 <= ready[k].cap <= ENC_MAX_DOC
      {
        QueuedIsInSlot(k);
      }
    }

    // ---- queue helpers -----------------------------------------------------

    method Enqueue(j: Job)
      requires Chain() && j !in ready
      modifies `qhead, `qtail, `ready, j`qnext, ready`qnext
      ensures Chain() && ready == old(ready) + [j]
    {
      j.qnext := null;
      if qtail != null {
        qtail.qnext := j;
      } else {
        qhead := j;
      }
      qtail := j;
      ready := ready + [j];
    }

    method PopHead() returns (j: Job?)
      requires Chain()
      modifies `qhead, `qtail, `ready, ready`qnext
      ensures Chain()
      ensures old(ready) == [] ==> j == null && ready == []
      ensures old(ready) != [] ==> j == old(ready)[0] && ready == old(ready)[1..]
    {
      j := qhead;
      if j != null {
        qhead := j.qnext;
        if qhead == null { qtail := null; }
        j.qnext := null;
        ready := ready[1..];
      }
    }

    /** Finds `j` by walking from the head; `k` is where it was, or the length of the queue. */
    method UnlinkQueue(j: Job) returns (ghost k: nat)
      requires Chain()
      modifies `qhead, `qtail, `ready, ready`qnext
      ensures Chain()
      ensures k <= |old(ready)| && forall i :: 0 <= i < k ==> old(ready)[i] != j
      ensures if k < |old(ready)| then old(ready)[k] == j && ready == old(ready)[..k] + old(ready)[k + 1..]
              else ready == old(ready)
    {
      var prev: Job? := null;
      var c := qhead;
      k := 0;
      while c != null
        invariant k <= |ready| && c == if k < |ready| then ready[k] else null
        invariant prev == if k == 0 then null else ready[k - 1]
        invariant forall i :: 0 <= i < k ==> ready[i] != j
        decreases |ready| - k
      {
        if c == j {
          if prev != null {
            prev.qnext := c.qnext;
          } else {
            qhead := c.qnext;
          }
          if qtail == c { qtail := prev; }
          ready := ready[..k] + ready[k + 1..];
          return;
        }
        prev, c, k := c, c.qnext, k + 1;
      }
    }

    lemma LinkedModel()
      requires Tied()
      ensures Linked(model)
    {
    }

    /** A model id in the table names a job of this table. */
    lemma SlotOf(id: nat)
      requires Table(model.jobs) && id in model.jobs
      ensures id < SPOOL_MAX == slots.Length && slots[id] != null && slots[id] in owned
      ensures slots[id].Holds(id, model.jobs[id])
    {
    }

    /** The table answers for every index; an id out of range names nothing. */
    lemma Slots()
      requires Table(model.jobs)
      ensures slots.Length == SPOOL_MAX
      ensures forall i: nat {:trigger slots[i]} :: i < SPOOL_MAX ==> (slots[i] == null <==> i !in model.jobs)
      ensures forall i: nat :: i in model.jobs ==> i < SPOOL_MAX
    {
    }

    /** The queue holds jobs of this table, each once, and names each by its own id. */
    lemma QueueFacts(id: nat)
      requires Tied() && id in model.jobs
      ensures id < SPOOL_MAX == slots.Length && slots[id] != null && Distinct(model.queue)
      ensures |ready| == |model.queue| && forall i :: 0 <= i < |ready| && ready[i] == slots[id] ==> model.queue[i] == id
    {
      SlotOf(id);
      forall i | 0 <= i < |ready| && ready[i] == slots[id]
        ensures model.queue[i] == id
      {
        SlotOf(model.queue[i]);
      }
    }

    lemma QueuedAreOwned()
      requires Tied()
      ensures forall j :: j in ready ==> j in owned
    {
    }

    /** The head of the queue, seen from both sides. */
    lemma HeadOf()
      requires Tied()
      ensures ready == [] <==> model.queue == []
      ensures ready != [] ==> model.queue[0] in model.jobs && model.queue[0] < SPOOL_MAX == slots.Length
                              && ready[0] == slots[model.queue[0]] && ready[0].id == model.queue[0]
    {
    }

    /** JobDequeue: take the job at the head of the queue, which keeps its slot. */
    method JobDequeue() returns (j: Job?)
      requires Tied()
      modifies `qhead, `qtail, `ready, `model, ready`qnext
      ensures Tied()
      ensures old(model.queue) == [] ==> j == null && model == old(model)
      ensures old(model.queue) != [] ==>
        var id := old(model.queue)[0];
        model == Dequeue(old(model)) && id in model.jobs && id !in model.queue &&
        id < slots.Length && j == slots[id] && j != null && j.id == id
    {
      hide Linked, Table, Chain, Matches, Job.Holds, Without, Distinct;
      HeadOf();
      j := PopHead();
      if j != null {
        MatchesTail(old(ready), model.queue, slots[..], owned);
        LinkedTail(model);
        model := Dequeue(model);
      }
    }

    /** free_job at value level: the job is dropped, and the cache forgets it. */
    method FreeJob(j: Job)
      modifies `active
      ensures active == if old(active) == j then null else old(active)
    {
      if active == j { active := null; }
    }

    /** unlink_queue on the job in slot `id`: whether or not it is queued, it is not queued afterwards. */
    method Unqueue(id: nat)
      requires Tied() && id in model.jobs
      modifies `qhead, `qtail, `ready, `model, ready`qnext
      ensures Tied() && model == old(model).(queue := Without(old(model.queue), id)) && id !in model.queue
    {
      hide Linked, Table, Chain, Matches, Job.Holds, Without, Distinct;
      QueueFacts(id);
      ghost var k := UnlinkQueue(slots[id]);
      MatchesUnlink(old(ready), ready, model.queue, slots[..], owned, id, k);
      LinkedWithout(model, id);
      model := model.(queue := Without(model.queue, id));
    }

    /** The cache names the job of slot `id` exactly when the model says so. */
    lemma ActiveFacts(id: nat)
      requires Tied() && id in model.jobs
      ensures id < SPOOL_MAX == slots.Length && slots[id] != null
      ensures active == slots[id] <==> model.active == Some(id)
      ensures model.active.Some? ==> model.active.value < SPOOL_MAX
    {
      SlotOf(id);
      if model.active.Some? { SlotOf(model.active.value); }
    }

    method ClearSlot(id: nat)
      requires Table(model.jobs) && id < SPOOL_MAX
      modifies slots
      ensures Table(model.jobs - {id}) && slots[..] == old(slots[..])[id := null]
    {
      slots[id] := null;
    }

    /** The body of JobRetire once its slot is known to be occupied. */
    method Release(id: nat)
      requires Tied() && id in model.jobs
      modifies this, slots, owned
      ensures Tied() && owned == old(owned)
      ensures model == Retire(old(model), id).0
    {
      hide Linked, Table, Chain, Matches, Job.Holds, Without, Distinct;
      QueuedAreOwned();
      ActiveFacts(id);
      Unqueue(id);
      FreeJob(slots[id]);
      MatchesClear(ready, model.queue, slots[..], owned, id);
      RetireLinked(model, id);
      ClearSlot(id);
      count := count - 1;
      model := Retire(model, id).0;
    }

    method JobRetire(id: int) returns (r: int)
      requires Tied()
      modifies this, slots, owned
      ensures Tied() && owned == old(owned)
      ensures (model, r) == Retire(old(model), id)
    {
      hide Linked, Table, Chain, Matches, Job.Holds, Without, Distinct;
      Slots();
      if id < 0 || id >= SPOOL_MAX { return SPOOL_ERR; }
      if slots[id] == null { return SPOOL_ERR; }
      Release(id);
      return SPOOL_OK;
    }

    // ---- submit and lookup -------------------------------------------------

    method AllocSlot() returns (r: int)
      requires Table(model.jobs)
      ensures r == match FreeFrom(model.jobs, 0) case None => -1 case Some(i) => i
    {
      hide Table, Job.Holds;
      Slots();
      for i := 0 to SPOOL_MAX
        invariant FreeFrom(model.jobs, 0) == FreeFrom(model.jobs, i)
      {
        if slots[i] == null { return i; }
      }
      return -1;
    }

    method FillSlot(id: nat, j: Job, ghost v: JobValue)
      requires Table(model.jobs) && id < SPOOL_MAX && j.Holds(id, v)
      modifies slots, `owned
      ensures owned == old(owned) + {j} && slots[..] == old(slots[..])[id := j]
      ensures Table(model.jobs[id := v])
    {
      slots[id] := j;
      owned := owned + {j};
    }

    /** Puts a new job into its slot, the ready queue and the cache. */
    method Install(id: nat, j: Job, ghost v: JobValue)
      requires Tied() && id < SPOOL_MAX && id !in model.jobs && j !in owned && j.Holds(id, v) && JobOk(v)
      modifies this, slots, owned, j
      ensures Tied() && owned == old(owned) + {j}
      ensures model == NewJob(old(model), id, v)
    {
      hide Linked, Table, Chain, Matches, Job.Holds, Without, Distinct, JobOk;
      QueuedAreOwned();
      Slots();
      NewJobLinked(model, id, v);
      MatchesPush(ready, model.queue, slots[..], owned, id, j);
      ActiveInRange();
      FillSlot(id, j, v);
      count := count + 1;
      Enqueue(j);
      active := j;
      model := NewJob(model, id, v);
    }

    lemma ActiveInRange()
      requires Tied()
      ensures model.active.Some? ==> model.active.value in model.jobs && model.active.value < SPOOL_MAX == slots.Length
      ensures active == if model.active.None? then null else slots[model.active.value]
    {
    }

    method JobSubmit(fmt: int, filter: Option<FilterFn>, init: seq<byte>) returns (r: int)
      requires Tied()
      modifies this, slots, owned
      ensures Tied() && fresh(owned - old(owned))
      ensures (model, r) == Submit(old(model), fmt, filter, init)
    {
      hide Linked, Table, Chain, Matches, Job.Holds, Without, Distinct;
      if filter.None? { return SPOOL_ERR; }
      var id := AllocSlot();
      if id < 0 { return SPOOL_ERR; }
      var doc := Take(init, ENC_MAX_DOC);
      var cap := if |doc| < 32 then 32 else |doc|;
      var j := new Job(id, fmt, filter.value, cap, doc, InitialMeta(fmt));
      Install(id, j, Initial(fmt, filter.value, init));
      return id;
    }

    /** JobGet: the cached job for 0xFFFF, the job in slot `id` for an id below 256, NULL for any other; whichever
        it is, it becomes the cached one. */
    method JobGet(id: int) returns (j: Job?)
      requires Tied()
      modifies `active, `model
      ensures slots.Length == 256
      ensures j == if id == 0xFFFF then old(active) else if 0 <= id < 256 then slots[id] else null
      ensures active == if j == null then old(active) else j
      ensures Tied() && model == Lookup(old(model), id).0
      ensures var k := Lookup(old(model), id).1;
              if k.None? then j == null
              else k.value in model.jobs && k.value < slots.Length && j == slots[k.value] &&
                   j != null && j.id == k.value
    {
      hide Linked, Table, Chain, Matches, Without, Distinct, JobOk;
      Slots();
      ActiveInRange();
      if Lookup(model, id).1.Some? { SlotOf(Lookup(model, id).1.value); }
      if id == SPOOL_RECENT {
        j := active;
      } else if id < 0 || id >= SPOOL_MAX {
        j := null;
      } else {
        j := slots[id];
        if j != null { active := j; }
      }
      model := Lookup(model, id).0;
    }

    // ---- operations on one job ---------------------------------------------

    method SetState(id: nat, j: Job, st: JobState)
      requires Tied() && id in model.jobs && id < slots.Length && j == slots[id]
      modifies `model, j`state
      ensures Tied() && model == old(model).(jobs := old(model).jobs[id := old(model).jobs[id].(state := st)])
    {
      hide Linked, Chain, Matches, Without, Distinct;
      SlotOf(id);
      OnlyHere(id);
      UpdateLinked(model, id, model.jobs[id].(state := st)) by { JobsOk(id); }
      j.state := st;
      model := model.(jobs := model.jobs[id := model.jobs[id].(state := st)]);
    }

    lemma JobsOk(id: nat)
      requires Tied() && id in model.jobs
      ensures JobOk(model.jobs[id])
    {
    }

    /** No other slot holds the job of slot `id`. */
    lemma OnlyHere(id: nat)
      requires Tied() && id in model.jobs
      ensures id < SPOOL_MAX == slots.Length
      ensures forall k: nat {:trigger slots[k]} :: k < SPOOL_MAX && k != id ==>
        slots[k] != slots[id] || slots[k] == null
    {
      SlotOf(id);
    }

    method JobCancel(id: int) returns (r: int)
      requires Tied()
      modifies this, owned
      ensures Tied() && owned == old(owned)
      ensures (model, r) == Cancel(old(model), id)
    {
      hide Linked, Table, Chain, Matches, Job.Holds, Without, Distinct;
      var j := JobGet(id);
      if j == null { return SPOOL_ERR; }
      SlotOf(j.id);
      SetState(j.id, j, Cancelled);
      return SPOOL_OK;
    }

    method JobRecycle(id: int) returns (r: int)
      requires Tied()
      modifies `active, `model
      ensures Tied()
      ensures (model, r) == Recycle(old(model), id)
    {
      var j := JobGet(id);
      return if j == null then SPOOL_ERR else SPOOL_OK;
    }

    /** Stores a longer document in the job, with its buffer grown to `cap` bytes when needed. */
    method SetDocument(id: nat, j: Job, arg: seq<byte>, need: nat)
      requires Tied() && id in model.jobs && id < slots.Length && j == slots[id]
      requires need == |model.jobs[id].doc| + |arg| <= ENC_MAX_DOC
      modifies `model, j`data, j`len, j`cap
      ensures Tied()
      ensures var job := old(model).jobs[id];
              model == old(model).(jobs := old(model).jobs[id := job.(doc := job.doc + arg, cap := Max(job.cap, need))])
    {
      hide Linked, Chain, Matches, Without, Distinct;
      SlotOf(id);
      OnlyHere(id);
      ghost var job := model.jobs[id];
      ghost var job' := job.(doc := job.doc + arg, cap := Max(job.cap, need));
      UpdateLinked(model, id, job') by { JobsOk(id); }
      if need > j.cap {
        j.data := j.data + seq(need - j.cap, _ => 0);
        j.cap := need;
      }
      j.data := j.data[..j.len] + arg + j.data[need..];
      j.len := need;
      assert j.data[..j.len] == job'.doc;
      model := model.(jobs := model.jobs[id := job']);
    }

    method JobAppend(id: int, arg: seq<byte>) returns (r: int)
      requires Tied()
      modifies this, owned
      ensures Tied() && owned == old(owned)
      ensures (model, r) == Append(old(model), id, arg)
    {
      hide Linked, Table, Chain, Matches, Without, Distinct;
      var j := JobGet(id);
      if j == null { return SPOOL_ERR; }
      SlotOf(j.id);
      JobsOk(j.id);
      var need := AddU32(j.len, |arg|);
      if |arg| > ENC_MAX_DOC || need > ENC_MAX_DOC { return SPOOL_ERR; }
      SetDocument(j.id, j, arg, need);
      return SPOOL_OK;
    }

    method JobDup(id: int) returns (r: int)
      requires Tied()
      modifies this, slots, owned
      ensures Tied() && fresh(owned - old(owned))
      ensures (model, r) == Dup(old(model), id)
    {
      hide Linked, Table, Chain, Matches, Without, Distinct;
      var j := JobGet(id);
      if j == null { return SPOOL_ERR; }
      var nid := AllocSlot();
      if nid < 0 { return SPOOL_ERR; }
      SlotOf(j.id);
      JobsOk(j.id);
      var cap := if j.len < 32 then 32 else j.len;
      var nj := new Job(nid, j.fmt, j.filter, cap, j.data[..j.len], j.meta);
      Install(nid, nj, CopyOf(model.jobs[j.id]));
      return nid;
    }

    method JobRender(id: int, outCap: nat) returns (r: Rendered)
      requires Tied()
      modifies this, slots, owned
      ensures Tied() && owned == old(owned)
      ensures (model, r) == Render(old(model), id, outCap)
    {
      hide Linked, Table, Chain, Matches, Without, Distinct;
      var j := JobGet(id);
      if j == null { return Rendered(SPOOL_ERR, []); }
      SlotOf(j.id);
      r := CallFilter(j.id, j, outCap);
      var _ := JobRetire(j.id);
    }

    method CallFilter(id: nat, j: Job, outCap: nat) returns (r: Rendered)
      requires Tied() && id in model.jobs && id < slots.Length && j == slots[id]
      modifies `calls, `model
      ensures Tied()
      ensures var job := old(model).jobs[id];
              model == old(model).(calls := old(model).calls + [Call(job.filter, job.doc)])
      ensures r == model.jobs[id].filter(model.jobs[id].doc, outCap)
    {
      hide Linked, Table, Chain, Matches, Without, Distinct;
      SlotOf(id);
      CallsLinked(model, Call(model.jobs[id].filter, model.jobs[id].doc));
      r := j.filter(j.data[..j.len], outCap);
      calls := calls + [Call(j.filter, j.data[..j.len])];
      model := model.(calls := model.calls + [Call(j.filter, j.data[..j.len])]);
    }

    // ---- the render pump ---------------------------------------------------

    /** JobWork on a job just taken off the queue, which still has its slot. */
    method JobWork(j: Job)
      requires Tied() && 0 <= j.id < slots.Length && j.id in model.jobs && j == slots[j.id]
      modifies this, slots, owned
      ensures Tied() && owned == old(owned)
      ensures model == Work(old(model), old(j.id))
    {
      hide Linked, Table, Chain, Matches, Without, Distinct;
      var id := j.id;
      SlotOf(id);
      if j.state == Cancelled {
        DropActive(id, j);
      } else {
        SetState(id, j, JobState.Rendering);
        var _ := CallFilter(id, j, 256);
        SetState(id, j, Done);
      }
      var _ := JobRetire(id);
    }

    /** What free_job does to the store before the slot is cleared. */
    method DropActive(id: nat, j: Job)
      requires Tied() && id in model.jobs && id < slots.Length && j == slots[id]
      modifies `active, `model
      ensures Tied() && model == if old(model).active == Some(id) then old(model).(active := None) else old(model)
    {
      hide Linked, Table, Chain, Matches, Without, Distinct;
      ActiveFacts(id);
      InactiveLinked(model);
      FreeJob(j);
      if model.active == Some(id) { model := model.(active := None); }
    }

    method JobFlush()
      requires Tied()
      modifies this, slots, owned
      ensures Tied() && owned == old(owned)
      ensures model == Pump(old(model))
      ensures old(Inv(model)) ==>
        model == Spool(map[], [], None, 0, old(model).calls + PendingCalls(old(model).jobs, old(model).queue))
    {
      if Inv(model) { FlushDrains(model); }
      hide Linked, Table, Chain, Matches, Without, Distinct, Work;
      while true
        invariant Tied() && owned == old(owned)
        invariant Pump(model) == Pump(old(model))
        decreases |model.queue|
      {
        ghost var s := model;
        QueuedAreOwned();
        var j := JobDequeue();
        if j == null { break; }
        WorkStep(model, j.id);
        JobWork(j);
      }
    }
  }
}
