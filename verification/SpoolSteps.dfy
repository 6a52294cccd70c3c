/**
 The handlers of spoold.c as programs of small steps, each of which reads or writes one part of the shared
 store: one slot, one field of a job, the count, the cache, or the queue as a whole.  An update of the count or
 of the queue is a read into a register and a later write, so another thread's step may fall between the two.
 */
module SpoolSteps {
  import opened Bytes
  import opened Wire
  import opened SpoolModel
  import opened SpoolServer

  datatype Instr =
    | Find(id: int)            // look a job up; nothing more to do when there is none
    | Touch(id: int)           // remember it, unless it was found through the cache
    | Alloc(at: nat)           // look at one slot of the scan for a free one; give up past the last
    | PutNew(job: JobValue)    // the submitted job into the slot
    | PutCopy                  // a copy of the found job into the slot
    | LoadCount
    | StoreCount(delta: int)
    | LoadQueue
    | StoreLinked              // the slot's job behind the queue that was read
    | StoreUnlinked            // the queue that was read without the found job
    | Remember                 // the slot's job is the most recent
    | Fits(arg: seq<byte>)     // the size check of an append; nothing more to do when it fails
    | GrowCap(arg: seq<byte>)
    | PutBytes(arg: seq<byte>)
    | SetState(state: JobState)
    | CallFilter
    | CallAndSay               // call the filter and answer with what it gives back
    | Forget                   // drop the cache when it names the found job
    | ClearSlot
    | RetireJob                // JobRetire: goes on only when the slot is occupied
    | TakeNext                 // take the head off the queue that was read, or leave the loop
    | WorkOn                   // JobWork: branches on the state of the job just taken
    | LoadActive               // the job in the cache; nothing more to do when there is none
    | Say(reply: Reply)
    | SaySlot                  // answer with the new job's id
    | SayCount                 // answer with the count that was read
    | SayPeek                  // add id, length and state of the job in the cache

  /** Where a handler is: the steps still to come, its registers, and what it would answer by now. */
  datatype Frame = Frame(code: seq<Instr>, it: nat, slot: nat, n: int, q: seq<nat>, reply: Reply)

  const PUBLISH: seq<Instr> := [LoadCount, StoreCount(1), LoadQueue, StoreLinked, Remember, SaySlot]
  const RETIRE: seq<Instr> := [LoadQueue, StoreUnlinked, Forget, ClearSlot, LoadCount, StoreCount(-1)]
  const PUMP: seq<Instr> := [LoadQueue, TakeNext]

  function SubmitCode(fmt: int, filter: Option<FilterFn>, init: seq<byte>): seq<Instr> {
    if filter.None? then [] else [Alloc(0), PutNew(Initial(fmt, filter.value, init))] + PUBLISH
  }

  function StatusCode(verbose: bool): seq<Instr> {
    [LoadCount, SayCount] + if verbose then [LoadActive, SayPeek] else []
  }

  /** The steps of one handler of the dispatch table. */
  function CodeFor(tcp: bool, filters: Filters, r: Request): seq<Instr>
    requires r.op <= OP_FLUSH
  {
    match r.op
    case 0 => SubmitCode(r.flags % 16, FilterFor(filters, r.flags % 16), r.arg)
    case 1 => [Find(r.id), Touch(r.id), CallAndSay, RetireJob]
    case 2 => [Find(r.id), Touch(r.id), Fits(r.arg), GrowCap(r.arg), PutBytes(r.arg), Say(Text("OK\n"))]
    case 3 => [Find(r.id), Touch(r.id), SetState(Cancelled)]
    case 4 => StatusCode(Verbose(r.flags) && !tcp)
    case 5 => if tcp then [] else [Find(r.id), Touch(r.id)]
    case 6 => if tcp then [Find(r.id), Touch(r.id), Alloc(0), PutCopy] + PUBLISH else []
    case _ => if tcp then PUMP else []
  }

  /** What a handler answers when it gets no further. */
  function Default(tcp: bool, r: Request): Reply
    requires r.op <= OP_FLUSH
  {
    match r.op
    case 0 => Text("ERR submit\n")
    case 1 => Text("ERR\n")
    case 2 => Text("ERR\n")
    case 3 => Text("OK\n")
    case 4 => Text("")
    case 5 => Text(if tcp then "ERR local-only\n" else "OK\n")
    case 6 => Text(if tcp then "ERR dup\n" else "ERR net-only\n")
    case _ => Text(if tcp then "OK\n" else "ERR net-only\n")
  }

  function Start(tcp: bool, filters: Filters, r: Request): Frame
    requires r.op <= OP_FLUSH
  {
    Frame(CodeFor(tcp, filters, r), 0, 0, 0, [], Default(tcp, r))
  }

  /** A write to a job is a write to nothing when the job is gone. */
  function SetJob(s: Spool, k: nat, job: JobValue): Spool {
    if k in s.jobs then s.(jobs := s.jobs[k := job]) else s
  }

  function JobAt(s: Spool, k: nat): JobValue {
    if k in s.jobs then s.jobs[k] else JobValue(0, Queued, NoFilter, [], 0, [])
  }

  function NoFilter(doc: seq<byte>, cap: nat): Rendered {
    Rendered(-1, [])
  }

  /** The answer to a render. */
  function Printed(out: Rendered): Reply {
    if out.rc < 0 then Text("ERR\n") else Preview(out.rc, out.out)
  }

  /** One step, in whatever store it finds. */
  function Exec(s: Spool, f: Frame): (Spool, Frame)
    requires f.code != []
  {
    var g := f.(code := f.code[1..]);
    var job := JobAt(s, f.it);
    match f.code[0]
    case Find(id) => (s, if Named(s, id).None? then g.(code := []) else g.(it := Named(s, id).value))
    case Touch(id) => (if id == SPOOL_RECENT then s else s.(active := Some(f.it)), g)
    case Alloc(at) =>
      (s, if at >= SPOOL_MAX then g.(code := [])
          else if at !in s.jobs then g.(slot := at)
          else g.(code := [Alloc(at + 1)] + g.code))
    case PutNew(made) => (s.(jobs := s.jobs[f.slot := made]), g)
    case PutCopy => (s.(jobs := s.jobs[f.slot := CopyOf(job)]), g)
    case LoadCount => (s, g.(n := s.count))
    case StoreCount(delta) => (s.(count := f.n + delta), g)
    case LoadQueue => (s, g.(q := s.queue))
    case StoreLinked => (s.(queue := f.q + [f.slot]), g)
    case StoreUnlinked => (s.(queue := Without(f.q, f.it)), g)
    case Remember => (s.(active := Some(f.slot)), g)
    case Fits(arg) =>
      (s, if |arg| > ENC_MAX_DOC || AddU32(|job.doc|, |arg|) > ENC_MAX_DOC then g.(code := []) else g)
    case GrowCap(arg) => (SetJob(s, f.it, job.(cap := Max(job.cap, AddU32(|job.doc|, |arg|)))), g)
    case PutBytes(arg) => (SetJob(s, f.it, job.(doc := job.doc + arg)), g)
    case SetState(state) => (SetJob(s, f.it, job.(state := state)), g)
    case CallFilter => (s.(calls := s.calls + [Call(job.filter, job.doc)]), g)
    case CallAndSay =>
      var out := job.filter(job.doc, 256);
      (s.(calls := s.calls + [Call(job.filter, job.doc)]),
       g.(reply := Printed(out)))
    case Forget => (if s.active == Some(f.it) then s.(active := None) else s, g)
    case ClearSlot => (s.(jobs := s.jobs - {f.it}), g)
    case RetireJob => (s, if f.it in s.jobs then g.(code := RETIRE + g.code) else g)
    case TakeNext =>
      if f.q == [] then (s, g)
      else (s.(queue := f.q[1..]), g.(it := f.q[0], code := [WorkOn] + PUMP + g.code))
    case WorkOn =>
      (s, g.(code := (if job.state.Cancelled? then [Forget, RetireJob]
                      else [SetState(Rendering), CallFilter, SetState(Done), RetireJob]) + g.code))
    case LoadActive => (s, if s.active.None? then g.(code := []) else g.(it := s.active.value))
    case Say(reply) => (s, g.(reply := reply))
    case SaySlot => (s, g.(reply := JobId(f.slot)))
    case SayCount => (s, g.(reply := Status(f.n, None)))
    case SayPeek => (s, g.(reply := Status(f.n, Some(Peek(f.it, |job.doc|, job.state)))))
  }

  /** Up to `n` steps with nobody in between. */
  ghost function Steps(s: Spool, f: Frame, n: nat): (Spool, Frame)
    decreases n
  {
    if n == 0 || f.code == [] then (s, f) else
    var (s1, f1) := Exec(s, f);
    Steps(s1, f1, n - 1)
  }

  /** A store and an answer. */
  type Result = (Spool, Reply)

  /** Left to itself the handler comes to its end, and leaves and answers `t`. */
  ghost predicate Completes(s: Spool, f: Frame, t: Result) {
    exists n: nat :: Ends(Steps(s, f, n), t)
  }

  ghost predicate Ends(m: (Spool, Frame), t: Result) {
    m.1.code == [] && t == (m.0, m.1.reply)
  }

  lemma AtEnd(s: Spool, f: Frame)
    requires f.code == []
    ensures Completes(s, f, (s, f.reply))
  {
    assert Ends(Steps(s, f, 0), (s, f.reply));
  }

  lemma EndOnly(s: Spool, f: Frame, t: Result)
    requires f.code == []
    ensures Completes(s, f, t) <==> t == (s, f.reply)
  {
    if Completes(s, f, t) {
      var n: nat :| Ends(Steps(s, f, n), t);
    } else if t == (s, f.reply) {
      AtEnd(s, f);
    }
  }

  /** A handler with a step to go completes as what that step leaves does. */
  lemma OneStep(s: Spool, f: Frame, t: Result)
    requires f.code != []
    ensures Completes(s, f, t) <==> Completes(Exec(s, f).0, Exec(s, f).1, t)
  {
    var (s1, f1) := Exec(s, f);
    if Completes(s1, f1, t) {
      var n: nat :| Ends(Steps(s1, f1, n), t);
      assert Ends(Steps(s, f, n + 1), t);
    }
    if Completes(s, f, t) {
      var n: nat :| Ends(Steps(s, f, n), t);
      assert Ends(Steps(s1, f1, n - 1), t);
    }
  }

  // ---- left to itself, a handler does what its function says -----------------

  /** The next step is `i` and `rest` comes after it. */
  ghost predicate At(f: Frame, i: Instr, rest: seq<Instr>) {
    f.code == [i] + rest
  }

  lemma StepTo(s: Spool, f: Frame, t: Result, i: Instr, rest: seq<Instr>)
    requires At(f, i, rest)
    ensures f.code != [] && f.code[0] == i && f.code[1..] == rest
    ensures Completes(s, f, t) <==> Completes(Exec(s, f).0, Exec(s, f).1, t)
  {
    OneStep(s, f, t);
  }

  /** The two steps of an update to the count. */
  lemma CountRuns(s: Spool, f: Frame, t: Result, delta: int, rest: seq<Instr>)
    requires f.code == [LoadCount, StoreCount(delta)] + rest
    ensures Completes(s, f, t) <==>
            Completes(s.(count := s.count + delta), f.(code := rest, n := s.count), t)
  {
    hide Completes;
    StepTo(s, f, t, LoadCount, [StoreCount(delta)] + rest);
    StepTo(s, f.(code := f.code[1..], n := s.count), t, StoreCount(delta), rest);
  }

  lemma LinkRuns(s: Spool, f: Frame, t: Result, rest: seq<Instr>)
    requires f.code == [LoadQueue, StoreLinked] + rest
    ensures Completes(s, f, t) <==>
            Completes(s.(queue := s.queue + [f.slot]), f.(code := rest, q := s.queue), t)
  {
    hide Completes;
    StepTo(s, f, t, LoadQueue, [StoreLinked] + rest);
    StepTo(s, f.(code := f.code[1..], q := s.queue), t, StoreLinked, rest);
  }

  lemma UnlinkRuns(s: Spool, f: Frame, t: Result, rest: seq<Instr>)
    requires f.code == [LoadQueue, StoreUnlinked] + rest
    ensures Completes(s, f, t) <==>
            Completes(s.(queue := Without(s.queue, f.it)), f.(code := rest, q := s.queue), t)
  {
    hide Completes;
    StepTo(s, f, t, LoadQueue, [StoreUnlinked] + rest);
    StepTo(s, f.(code := f.code[1..], q := s.queue), t, StoreUnlinked, rest);
  }

  /** The cache and the slot forget the found job. */
  lemma DropRuns(s: Spool, f: Frame, t: Result, rest: seq<Instr>)
    requires f.code == [Forget, ClearSlot] + rest
    ensures Completes(s, f, t) <==>
            Completes(s.(active := if s.active == Some(f.it) then None else s.active, jobs := s.jobs - {f.it}),
                      f.(code := rest), t)
  {
    hide Completes;
    StepTo(s, f, t, Forget, [ClearSlot] + rest);
    StepTo(if s.active == Some(f.it) then s.(active := None) else s, f.(code := f.code[1..]), t, ClearSlot, rest);
  }

  lemma RememberRuns(s: Spool, f: Frame)
    requires f.code == [Remember, SaySlot]
    ensures Completes(s, f, (s.(active := Some(f.slot)), JobId(f.slot)))
  {
    var t := (s.(active := Some(f.slot)), JobId(f.slot));
    StepTo(s, f, t, Remember, [SaySlot]);
    StepTo(t.0, f.(code := [SaySlot]), t, SaySlot, []);
    AtEnd(t.0, f.(code := [], reply := JobId(f.slot)));
  }

  /** A new job in the slot is counted, queued, remembered and answered. */
  lemma PublishRuns(s: Spool, f: Frame)
    requires f.code == PUBLISH
    ensures Completes(s, f, (s.(count := s.count + 1, queue := s.queue + [f.slot], active := Some(f.slot)),
                             JobId(f.slot)))
  {
    hide Completes, Exec;
    var t := (s.(count := s.count + 1, queue := s.queue + [f.slot], active := Some(f.slot)), JobId(f.slot));
    var s1, f1 := s.(count := s.count + 1), f.(code := [LoadQueue, StoreLinked, Remember, SaySlot], n := s.count);
    CountRuns(s, f, t, 1, f1.code);
    LinkRuns(s1, f1, t, [Remember, SaySlot]);
    RememberRuns(s1.(queue := s.queue + [f.slot]), f1.(code := [Remember, SaySlot], q := s.queue));
  }

  /** JobRetire on an occupied slot, and what comes after it. */
  lemma RetireRuns(s: Spool, f: Frame, t: Result, rest: seq<Instr>)
    requires At(f, RetireJob, rest) && f.it in s.jobs
    ensures Completes(s, f, t) <==> Completes(Retire(s, f.it).0, f.(code := rest, n := s.count, q := s.queue), t)
  {
    StepTo(s, f, t, RetireJob, rest);
    hide Completes, Exec, Without;
    var count := [LoadCount, StoreCount(-1)] + rest;
    var drop := [Forget, ClearSlot] + count;
    var f0 := f.(code := RETIRE + rest);
    assert f0.code == [LoadQueue, StoreUnlinked] + drop;
    UnlinkRuns(s, f0, t, drop);
    var s1, f1 := s.(queue := Without(s.queue, f.it)), f.(code := drop, q := s.queue);
    DropRuns(s1, f1, t, count);
    var s2 := s1.(active := if s.active == Some(f.it) then None else s.active, jobs := s.jobs - {f.it});
    CountRuns(s2, f1.(code := count), t, -1, rest);
  }

  /** A lookup, and what comes after it when it finds a job. */
  lemma FindRuns(s: Spool, f: Frame, id: int, rest: seq<Instr>, t: Result)
    requires f.code == [Find(id), Touch(id)] + rest && Linked(s)
    ensures var (s1, k) := Lookup(s, id);
            if k.None? then Completes(s, f, (s1, f.reply))
            else Completes(s, f, t) <==> Completes(s1, f.(code := rest, it := k.value), t)
  {
    hide Completes, Linked;
    var k := Lookup(s, id).1;
    if k.None? {
      StepTo(s, f, (s, f.reply), Find(id), [Touch(id)] + rest);
      AtEnd(s, f.(code := []));
    } else {
      StepTo(s, f, t, Find(id), [Touch(id)] + rest);
      StepTo(s, f.(code := [Touch(id)] + rest, it := k.value), t, Touch(id), rest);
    }
  }

  /** The scan for a free slot, from slot `at` on. */
  lemma {:induction false} AllocRuns(s: Spool, f: Frame, at: nat, rest: seq<Instr>, t: Result)
    requires At(f, Alloc(at), rest) && at <= SPOOL_MAX
    ensures var k := FreeFrom(s.jobs, at);
            if k.None? then Completes(s, f, (s, f.reply))
            else Completes(s, f, t) <==> Completes(s, f.(code := rest, slot := k.value), t)
    decreases SPOOL_MAX - at
  {
    hide Completes;
    StepTo(s, f, t, Alloc(at), rest);
    StepTo(s, f, (s, f.reply), Alloc(at), rest);
    if at == SPOOL_MAX {
      AtEnd(s, f.(code := []));
    } else if at in s.jobs {
      AllocRuns(s, f.(code := [Alloc(at + 1)] + rest), at + 1, rest, t);
    }
  }

  lemma SubmitCompletes(s: Spool, f: Frame, fmt: int, filter: Option<FilterFn>, init: seq<byte>)
    requires f.code == SubmitCode(fmt, filter, init) && f.reply == Text("ERR submit\n")
    ensures var (s', id) := Submit(s, fmt, filter, init);
            Completes(s, f, (s', Created(id, "ERR submit\n")))
  {
    hide Completes, FreeFrom, Initial;
    var (s', id) := Submit(s, fmt, filter, init);
    var t := (s', Created(id, "ERR submit\n"));
    if filter.None? {
      AtEnd(s, f);
    } else {
      var job := Initial(fmt, filter.value, init);
      var slot := FreeFrom(s.jobs, 0);
      AllocRuns(s, f, 0, [PutNew(job)] + PUBLISH, t);
      if slot.Some? {
        var f1 := f.(code := [PutNew(job)] + PUBLISH, slot := slot.value);
        StepTo(s, f1, t, PutNew(job), PUBLISH);
        PublishRuns(s.(jobs := s.jobs[slot.value := job]), f1.(code := PUBLISH));
      }
    }
  }

  lemma RenderCompletes(s: Spool, f: Frame, id: int)
    requires Linked(s) && f.code == [Find(id), Touch(id), CallAndSay, RetireJob] && f.reply == Text("ERR\n")
    ensures var (s', out) := Render(s, id, 256);
            Completes(s, f, (s', Printed(out)))
  {
    hide Completes, Linked, Without;
    var (s', out) := Render(s, id, 256);
    var t := (s', Printed(out));
    var (s1, k) := Lookup(s, id);
    FindRuns(s, f, id, [CallAndSay, RetireJob], t);
    if k.Some? {
      var f1 := f.(code := [CallAndSay, RetireJob], it := k.value);
      StepTo(s1, f1, t, CallAndSay, [RetireJob]);
      var job := s1.jobs[k.value];
      var s2 := s1.(calls := s1.calls + [Call(job.filter, job.doc)]);
      var f2 := f1.(code := [RetireJob], reply := Printed(out));
      RetireRuns(s2, f2, t, []);
      AtEnd(s', f2.(code := [], n := s2.count, q := s2.queue));
    }
  }

  lemma AppendCompletes(s: Spool, f: Frame, id: int, arg: seq<byte>)
    requires Linked(s) && f.reply == Text("ERR\n")
    requires f.code == [Find(id), Touch(id), Fits(arg), GrowCap(arg), PutBytes(arg), Say(Text("OK\n"))]
    ensures var (s', rc) := Append(s, id, arg);
            Completes(s, f, (s', Text(if rc != SPOOL_OK then "ERR\n" else "OK\n")))
  {
    hide Completes, Linked;
    var (s', rc) := Append(s, id, arg);
    var code := [Fits(arg), GrowCap(arg), PutBytes(arg), Say(Text("OK\n"))];
    var (s1, k) := Lookup(s, id);
    FindRuns(s, f, id, code, (s', Text(if rc != SPOOL_OK then "ERR\n" else "OK\n")));
    if k.Some? { AppendRuns(s1, f.(code := code, it := k.value), arg); }
  }

  lemma AppendRuns(s: Spool, f: Frame, arg: seq<byte>)
    requires f.it in s.jobs && f.reply == Text("ERR\n")
    requires f.code == [Fits(arg), GrowCap(arg), PutBytes(arg), Say(Text("OK\n"))]
    ensures var job := s.jobs[f.it];
            var need := AddU32(|job.doc|, |arg|);
            Completes(s, f, if |arg| > ENC_MAX_DOC || need > ENC_MAX_DOC then (s, Text("ERR\n")) else
                            (s.(jobs := s.jobs[f.it := job.(doc := job.doc + arg, cap := Max(job.cap, need))]),
                             Text("OK\n")))
  {
    hide Completes, AddU32;
    var job := s.jobs[f.it];
    var need := AddU32(|job.doc|, |arg|);
    if |arg| > ENC_MAX_DOC || need > ENC_MAX_DOC {
      StepTo(s, f, (s, f.reply), Fits(arg), [GrowCap(arg), PutBytes(arg), Say(Text("OK\n"))]);
      AtEnd(s, f.(code := []));
    } else {
      var t := (s.(jobs := s.jobs[f.it := job.(doc := job.doc + arg, cap := Max(job.cap, need))]), Text("OK\n"));
      StepTo(s, f, t, Fits(arg), [GrowCap(arg), PutBytes(arg), Say(Text("OK\n"))]);
      PutRuns(s, f.(code := [GrowCap(arg), PutBytes(arg), Say(Text("OK\n"))]), arg);
    }
  }

  lemma PutRuns(s: Spool, f: Frame, arg: seq<byte>)
    requires f.it in s.jobs && f.code == [GrowCap(arg), PutBytes(arg), Say(Text("OK\n"))]
    ensures var job := s.jobs[f.it];
            var cap := Max(job.cap, AddU32(|job.doc|, |arg|));
            Completes(s, f, (s.(jobs := s.jobs[f.it := job.(doc := job.doc + arg, cap := cap)]), Text("OK\n")))
  {
    hide Completes, AddU32;
    var job := s.jobs[f.it];
    var grown := job.(cap := Max(job.cap, AddU32(|job.doc|, |arg|)));
    var t := (s.(jobs := s.jobs[f.it := grown.(doc := job.doc + arg)]), Text("OK\n"));
    StepTo(s, f, t, GrowCap(arg), [PutBytes(arg), Say(Text("OK\n"))]);
    var s1 := s.(jobs := s.jobs[f.it := grown]);
    StepTo(s1, f.(code := [PutBytes(arg), Say(Text("OK\n"))]), t, PutBytes(arg), [Say(Text("OK\n"))]);
    assert s1.jobs[f.it := grown.(doc := job.doc + arg)] == s.jobs[f.it := grown.(doc := job.doc + arg)];
    SayRuns(t.0, f.(code := [Say(Text("OK\n"))]), Text("OK\n"));
  }

  lemma SayRuns(s: Spool, f: Frame, reply: Reply)
    requires f.code == [Say(reply)]
    ensures Completes(s, f, (s, reply))
  {
    StepTo(s, f, (s, reply), Say(reply), []);
    AtEnd(s, f.(code := [], reply := reply));
  }

  lemma CancelCompletes(s: Spool, f: Frame, id: int)
    requires Linked(s) && f.code == [Find(id), Touch(id), SetState(Cancelled)]
    ensures Completes(s, f, (Cancel(s, id).0, f.reply))
  {
    hide Completes, Linked;
    var t := (Cancel(s, id).0, f.reply);
    var (s1, k) := Lookup(s, id);
    FindRuns(s, f, id, [SetState(Cancelled)], t);
    if k.Some? {
      StepTo(s1, f.(code := [SetState(Cancelled)], it := k.value), t, SetState(Cancelled), []);
      AtEnd(t.0, f.(code := [], it := k.value));
    }
  }

  /** STATUS reads the count and, when asked, the job in the cache, and writes nothing. */
  lemma StatusCompletes(s: Spool, f: Frame, verbose: bool)
    requires Linked(s) && f.code == StatusCode(verbose)
    ensures Completes(s, f, (s, Status(s.count, if verbose then PeekOf(s) else None)))
  {
    hide Completes;
    var t := (s, Status(s.count, if verbose then PeekOf(s) else None));
    var rest := if verbose then [LoadActive, SayPeek] else [];
    StepTo(s, f, t, LoadCount, [SayCount] + rest);
    var f1 := f.(code := [SayCount] + rest, n := s.count);
    StepTo(s, f1, t, SayCount, rest);
    var f2 := f1.(code := rest, reply := Status(s.count, None));
    if verbose { PeekRuns(s, f2); } else { AtEnd(s, f2); }
  }

  lemma PeekRuns(s: Spool, f: Frame)
    requires Linked(s) && f.code == [LoadActive, SayPeek] && f.n == s.count && f.reply == Status(s.count, None)
    ensures Completes(s, f, (s, Status(s.count, PeekOf(s))))
  {
    hide Completes;
    var t := (s, Status(s.count, PeekOf(s)));
    StepTo(s, f, t, LoadActive, [SayPeek]);
    if s.active.None? {
      AtEnd(s, f.(code := []));
    } else {
      var f1 := f.(code := [SayPeek], it := s.active.value);
      StepTo(s, f1, t, SayPeek, []);
      AtEnd(s, f1.(code := [], reply := t.1));
    }
  }

  lemma RecycleCompletes(s: Spool, f: Frame, id: int)
    requires Linked(s) && f.code == [Find(id), Touch(id)]
    ensures Completes(s, f, (Recycle(s, id).0, f.reply))
  {
    hide Completes, Linked;
    var (s1, k) := Lookup(s, id);
    FindRuns(s, f, id, [], (s1, f.reply));
    if k.Some? { AtEnd(s1, f.(code := [], it := k.value)); }
  }

  lemma DupCompletes(s: Spool, f: Frame, id: int)
    requires Linked(s) && f.code == [Find(id), Touch(id), Alloc(0), PutCopy] + PUBLISH && f.reply == Text("ERR dup\n")
    ensures var (s', nid) := Dup(s, id);
            Completes(s, f, (s', Created(nid, "ERR dup\n")))
  {
    hide Completes, Linked, FreeFrom, CopyOf;
    var (s', nid) := Dup(s, id);
    var t := (s', Created(nid, "ERR dup\n"));
    var (s1, k) := Lookup(s, id);
    FindRuns(s, f, id, [Alloc(0), PutCopy] + PUBLISH, t);
    if k.Some? {
      var f1 := f.(code := [Alloc(0), PutCopy] + PUBLISH, it := k.value);
      AllocRuns(s1, f1, 0, [PutCopy] + PUBLISH, t);
      var slot := FreeFrom(s1.jobs, 0);
      if slot.Some? {
        var f2 := f1.(code := [PutCopy] + PUBLISH, slot := slot.value);
        StepTo(s1, f2, t, PutCopy, PUBLISH);
        PublishRuns(s1.(jobs := s1.jobs[slot.value := CopyOf(s1.jobs[k.value])]), f2.(code := PUBLISH));
      }
    }
  }

  lemma RenderedRuns(s: Spool, f: Frame, t: Result, rest: seq<Instr>)
    requires f.code == [SetState(Rendering), CallFilter, SetState(Done)] + rest && f.it in s.jobs
    ensures var job := s.jobs[f.it];
            Completes(s, f, t) <==>
            Completes(s.(jobs := s.jobs[f.it := job.(state := Done)], calls := s.calls + [Call(job.filter, job.doc)]),
                      f.(code := rest), t)
  {
    hide Completes;
    var job := s.jobs[f.it];
    var rendering := job.(state := JobState.Rendering);
    StepTo(s, f, t, SetState(Rendering), [CallFilter, SetState(Done)] + rest);
    var s1 := s.(jobs := s.jobs[f.it := rendering]);
    StepTo(s1, f.(code := [CallFilter, SetState(Done)] + rest), t, CallFilter, [SetState(Done)] + rest);
    var s2 := s1.(calls := s.calls + [Call(job.filter, job.doc)]);
    StepTo(s2, f.(code := [SetState(Done)] + rest), t, SetState(Done), rest);
    assert s2.jobs[f.it := job.(state := Done)] == s.jobs[f.it := job.(state := Done)];
  }

  lemma ForgetRuns(s: Spool, f: Frame, t: Result, rest: seq<Instr>)
    requires At(f, Forget, rest)
    ensures Completes(s, f, t) <==>
            Completes(if s.active == Some(f.it) then s.(active := None) else s, f.(code := rest), t)
  {
    StepTo(s, f, t, Forget, rest);
  }

  /** JobWork on a job of the table, and what comes after it. */
  lemma WorkRuns(s: Spool, f: Frame, t: Result, rest: seq<Instr>)
    requires At(f, WorkOn, rest) && f.it in s.jobs
    ensures Completes(s, f, t) <==> Completes(Work(s, f.it), f.(code := rest, n := s.count, q := s.queue), t)
  {
    StepTo(s, f, t, WorkOn, rest);
    var job := s.jobs[f.it];
    hide Completes, Exec, Retire;
    if job.state.Cancelled? {
      ForgetRuns(s, f.(code := [Forget, RetireJob] + rest), t, [RetireJob] + rest);
      RetireRuns(if s.active == Some(f.it) then s.(active := None) else s, f.(code := [RetireJob] + rest), t, rest);
    } else {
      var left := [RetireJob] + rest;
      assert [SetState(Rendering), CallFilter, SetState(Done), RetireJob] + rest ==
             [SetState(Rendering), CallFilter, SetState(Done)] + left;
      RenderedRuns(s, f.(code := [SetState(Rendering), CallFilter, SetState(Done)] + left), t, left);
      RetireRuns(s.(jobs := s.jobs[f.it := job.(state := Done)], calls := s.calls + [Call(job.filter, job.doc)]),
                 f.(code := left), t, rest);
    }
  }

  /** The drain loop, step by step, ends in the store that Pump describes. */
  lemma {:induction false} PumpCompletes(s: Spool, f: Frame)
    requires Inv(s) && f.code == PUMP
    ensures Linked(s) && Completes(s, f, (Pump(s), f.reply))
    decreases |s.queue|
  {
    InvLinked(s);
    var t := (Pump(s), f.reply);
    StepTo(s, f, t, LoadQueue, [TakeNext]);
    var f1 := f.(code := [TakeNext], q := s.queue);
    StepTo(s, f1, t, TakeNext, []);
    hide Completes, Exec;
    if s.queue == [] {
      AtEnd(s, f1.(code := []));
    } else {
      var id := s.queue[0];
      var w := PumpStep(s);
      var d, f2 := Dequeue(s), f1.(it := id, code := [WorkOn] + PUMP + []);
      assert f2.code == [WorkOn] + PUMP && Exec(s, f1) == (d, f2) by { TakeRuns(s, f1); }
      WorkRuns(d, f2, t, PUMP);
      WorkValue(d, id) by { assert s.queue[0] !in s.queue[1..]; }
      PumpCompletes(w, f2.(code := PUMP, n := d.count, q := d.queue));
    }
  }

  lemma TakeRuns(s: Spool, f: Frame)
    requires f.code == [TakeNext] && f.q == s.queue && s.queue != []
    ensures Exec(s, f) == (Dequeue(s), f.(it := s.queue[0], code := [WorkOn] + PUMP + []))
  {
    assert f.code[1..] == [];
  }

  /** Every handler, run step by step with nobody in between, leaves the store and gives the answer its handler
      function says. */
  lemma HandlerCompletes(s: Spool, tcp: bool, filters: Filters, r: Request)
    requires Inv(s) && r.op <= OP_FLUSH
    ensures Linked(s) && Completes(s, Start(tcp, filters, r), Handle(s, tcp, filters, r))
  {
    InvLinked(s);
    hide Completes, Inv, Linked, Exec, Submit, Render, Append, Cancel, Recycle, Dup, Pump;
    var f := Start(tcp, filters, r);
    match r.op
    case 0 => SubmitCompletes(s, f, r.flags % 16, FilterFor(filters, r.flags % 16), r.arg);
    case 1 => RenderCompletes(s, f, r.id);
    case 2 => AppendCompletes(s, f, r.id, r.arg);
    case 3 => CancelCompletes(s, f, r.id);
    case 4 => StatusCompletes(s, f, Verbose(r.flags) && !tcp);
    case 5 => if tcp { AtEnd(s, f); } else { RecycleCompletes(s, f, r.id); }
    case 6 => if tcp { DupCompletes(s, f, r.id); } else { AtEnd(s, f); }
    case _ => if tcp { PumpCompletes(s, f); } else { AtEnd(s, f); }
  }

  // ---- and why it must be left to itself -----------------------------------

  lemma StepsTo(s: Spool, f: Frame, n: nat, i: Instr, rest: seq<Instr>)
    requires At(f, i, rest) && n > 0
    ensures f.code != [] && f.code[0] == i && f.code[1..] == rest
    ensures Steps(s, f, n) == Steps(Exec(s, f).0, Exec(s, f).1, n - 1)
  {
  }

  lemma StepsNone(s: Spool, f: Frame)
    ensures Steps(s, f, 0) == (s, f)
  {
  }

  lemma PutSteps(s: Spool, f: Frame, job: JobValue, n: nat)
    requires f.code == [PutNew(job)] + PUBLISH && n >= 2
    ensures Steps(s, f, n) == Steps(s.(jobs := s.jobs[f.slot := job]), f.(code := PUBLISH[1..], n := s.count), n - 2)
  {
    hide Steps;
    StepsTo(s, f, n, PutNew(job), PUBLISH);
    StepsTo(s.(jobs := s.jobs[f.slot := job]), f.(code := PUBLISH), n - 1, LoadCount, PUBLISH[1..]);
  }

  lemma StoreSteps(s: Spool, f: Frame, n: nat)
    requires f.code == PUBLISH[1..] && n >= 1
    ensures Steps(s, f, n) == Steps(s.(count := f.n + 1), f.(code := PUBLISH[2..]), n - 1)
  {
    hide Steps;
    StepsTo(s, f, n, StoreCount(1), PUBLISH[2..]);
  }

  lemma LinkSteps(s: Spool, f: Frame, n: nat)
    requires f.code == PUBLISH[2..] && n >= 2
    ensures Steps(s, f, n) == Steps(s.(queue := s.queue + [f.slot]), f.(code := PUBLISH[4..], q := s.queue), n - 2)
  {
    hide Steps;
    StepsTo(s, f, n, LoadQueue, PUBLISH[3..]);
    StepsTo(s, f.(code := PUBLISH[3..], q := s.queue), n - 1, StoreLinked, PUBLISH[4..]);
  }

  lemma AnswerSteps(s: Spool, f: Frame)
    requires f.code == PUBLISH[4..]
    ensures Steps(s, f, 2) == (s.(active := Some(f.slot)), f.(code := [], reply := JobId(f.slot)))
  {
    hide Steps;
    StepsTo(s, f, 2, Remember, [SaySlot]);
    var s1 := s.(active := Some(f.slot));
    StepsTo(s1, f.(code := [SaySlot]), 1, SaySlot, []);
    StepsNone(s1, f.(code := [], reply := JobId(f.slot)));
  }

  /** The last five: the count that was read comes back one higher, whatever it is by now. */
  lemma PublishSteps(s: Spool, f: Frame)
    requires f.code == PUBLISH[1..]
    ensures Steps(s, f, 5) == (Spool(s.jobs, s.queue + [f.slot], Some(f.slot), f.n + 1, s.calls),
                               f.(code := [], q := s.queue, reply := JobId(f.slot)))
  {
    hide Steps, Exec;
    StoreSteps(s, f, 5);
    var s1, f1 := s.(count := f.n + 1), f.(code := PUBLISH[2..]);
    LinkSteps(s1, f1, 4);
    AnswerSteps(s1.(queue := s.queue + [f.slot]), f1.(code := PUBLISH[4..], q := s.queue));
  }

  /** A submit up to the reading of the count, on a store whose first slot is free. */
  lemma SubmitHalf(s: Spool, f: Frame, job: JobValue)
    requires f.code == [Alloc(0), PutNew(job)] + PUBLISH && 0 !in s.jobs
    ensures Steps(s, f, 3) == (s.(jobs := s.jobs[0 := job]), f.(code := PUBLISH[1..], slot := 0, n := s.count))
  {
    hide Steps;
    StepsTo(s, f, 3, Alloc(0), [PutNew(job)] + PUBLISH);
    PutSteps(s, f.(code := [PutNew(job)] + PUBLISH, slot := 0), job, 2);
    StepsNone(s.(jobs := s.jobs[0 := job]), f.(code := PUBLISH[1..], slot := 0, n := s.count));
  }

  /** A whole submit, on a store whose second slot is the first free one. */
  lemma SubmitAlone(s: Spool, f: Frame, job: JobValue)
    requires f.code == [Alloc(0), PutNew(job)] + PUBLISH && 0 in s.jobs && 1 !in s.jobs
    ensures var (s', f') := Steps(s, f, 9);
            f'.code == [] && s' == Spool(s.jobs[1 := job], s.queue + [1], Some(1), s.count + 1, s.calls)
  {
    hide Steps;
    var rest := [PutNew(job)] + PUBLISH;
    StepsTo(s, f, 9, Alloc(0), rest);
    var f1 := f.(code := [Alloc(1)] + rest);
    StepsTo(s, f1, 8, Alloc(1), rest);
    PutSteps(s, f1.(code := rest, slot := 1), job, 7);
    PublishSteps(s.(jobs := s.jobs[1 := job]), f1.(code := PUBLISH[1..], slot := 1, n := s.count));
  }

  /** Without the lock the invariant does not survive: when a whole submit falls between another's reading and
      writing of the count, two jobs are queued and one is counted. */
  lemma LostUpdate(filters: Filters, r: Request)
    requires r.op == 0 && FilterFor(filters, r.flags % 16).Some?
    ensures var f := Start(true, filters, r);
            var (s1, first) := Steps(EMPTY, f, 3);
            var (s2, second) := Steps(s1, f, 9);
            var (s3, last) := Steps(s2, first, 5);
            second.code == [] && last.code == [] && |s3.queue| == 2 && s3.count == 1 && !Inv(s3)
  {
    var f := Start(true, filters, r);
    var job := Initial(r.flags % 16, FilterFor(filters, r.flags % 16).value, r.arg);
    hide Steps, Linked, Initial;
    SubmitHalf(EMPTY, f, job);
    var (s1, first) := Steps(EMPTY, f, 3);
    SubmitAlone(s1, f, job);
    PublishSteps(Steps(s1, f, 9).0, first);
  }
}
