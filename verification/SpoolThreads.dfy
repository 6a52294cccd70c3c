/**
 The two server threads of spoold.c over one store: the pipe thread and the TCP loop each serve one
 connection after another, and every handler runs between EnterCriticalSection and
 LeaveCriticalSection.  Inside the section the handler takes small steps, each reading or writing a part of the
 store as it is at that moment, so the store may be torn, and what was read out of date, whenever the other
 thread takes a step; the lock is what keeps that from mattering.
 */
module SpoolThreads {
  import opened Bytes
  import opened Wire
  import opened SpoolModel
  import opened SpoolServer
  import opened SpoolSteps

  datatype Pc = Reading | Waiting(req: Request) | Inside(frame: Frame)

  /** A server thread: the unread bytes of the connections it has yet to serve, and where it is. */
  datatype Thread = Thread(conns: seq<seq<byte>>, pc: Pc)

  /** A request as the dispatch log records it: which thread ran it, and what it was. */
  datatype Item = Item(tcp: bool, req: Request)

  datatype System = System(
    store: Spool,
    lock: Option<bool>,   // the thread inside g_lock: true is the TCP loop
    pipe: Thread,
    tcp: Thread,
    log: seq<Item>,       // requests in the order their threads entered the lock
    answers: seq<Reply>)  // what the handlers that have left it answered, in that order

  ghost function ThreadOf(a: System, tid: bool): Thread {
    if tid then a.tcp else a.pipe
  }

  ghost function WithThread(a: System, tid: bool, t: Thread): System {
    if tid then a.(tcp := t) else a.(pipe := t)
  }

  // ---- steps ---------------------------------------------------------------

  /** A thread that has read one request, or given the connection up. */
  ghost function AfterRead(t: Thread): (r: Thread)
    requires t.conns != []
    ensures !r.pc.Inside? && (r.pc.Waiting? ==> r.pc.req.op <= OP_FLUSH)
  {
    match NextRequest(t.conns[0])
    case Got(req, rest) => Thread([rest] + t.conns[1..], if req.op <= OP_FLUSH then Waiting(req) else Reading)
    case _ => Thread(t.conns[1..], Reading)
  }

  /** serve reads one request, or gives the connection up. */
  ghost predicate Read(a: System, b: System, tid: bool) {
    var t := ThreadOf(a, tid);
    && t.pc == Reading && t.conns != []
    && b == WithThread(a, tid, AfterRead(t))
  }

  /** EnterCriticalSection: the thread is at the first step of the handler. */
  ghost predicate Acquire(a: System, b: System, tid: bool, filters: Filters) {
    var t := ThreadOf(a, tid);
    && t.pc.Waiting? && a.lock == None && t.pc.req.op <= OP_FLUSH
    && b == WithThread(a, tid, t.(pc := Inside(Start(tid, filters, t.pc.req))))
              .(lock := Some(tid), log := a.log + [Item(tid, t.pc.req)])
  }

  /** One step of the handler, in the store it finds. */
  ghost predicate HandlerStep(a: System, b: System, tid: bool) {
    var t := ThreadOf(a, tid);
    && t.pc.Inside? && t.pc.frame.code != []
    && var (s, f) := Exec(a.store, t.pc.frame);
       b == WithThread(a, tid, t.(pc := Inside(f))).(store := s)
  }

  ghost predicate Release(a: System, b: System, tid: bool) {
    var t := ThreadOf(a, tid);
    && t.pc.Inside? && t.pc.frame.code == []
    && b == WithThread(a, tid, t.(pc := Reading)).(lock := None, answers := a.answers + [t.pc.frame.reply])
  }

  ghost predicate Next(a: System, b: System, filters: Filters) {
    exists tid: bool :: Step(a, b, tid, filters)
  }

  ghost predicate Step(a: System, b: System, tid: bool, filters: Filters) {
    Read(a, b, tid) || Acquire(a, b, tid, filters) || HandlerStep(a, b, tid) || Release(a, b, tid)
  }

  ghost predicate Init(a: System) {
    Inv(a.store) && a.lock == None && a.pipe.pc == Reading && a.tcp.pc == Reading && a.log == [] && a.answers == []
  }

  // ---- what the steps add up to --------------------------------------------

  /** The handlers of the log, run one at a time in lock-acquisition order. */
  ghost function Serial(s: Spool, filters: Filters, log: seq<Item>): (r: Spool)
    requires Inv(s) && forall i :: 0 <= i < |log| ==> log[i].req.op <= OP_FLUSH
    ensures Inv(r)
    decreases |log|
  {
    if log == [] then s else
    var s1 := Serial(s, filters, log[..|log| - 1]);
    var last := log[|log| - 1];
    HandleInv(s1, last.tcp, filters, last.req);
    Handle(s1, last.tcp, filters, last.req).0
  }

  /** What those handlers answer, one after the other. */
  ghost function Answers(s: Spool, filters: Filters, log: seq<Item>): seq<Reply>
    requires Inv(s) && forall i :: 0 <= i < |log| ==> log[i].req.op <= OP_FLUSH
    decreases |log|
  {
    if log == [] then [] else
    var last := log[|log| - 1];
    Answers(s, filters, log[..|log| - 1]) +
    [Handle(Serial(s, filters, log[..|log| - 1]), last.tcp, filters, last.req).1]
  }

  /** Each answer is the one the request gets in the store the requests before it leave. */
  lemma {:induction false} AnswerAt(s: Spool, filters: Filters, log: seq<Item>, i: nat)
    requires Inv(s) && i < |log| && forall k :: 0 <= k < |log| ==> log[k].req.op <= OP_FLUSH
    ensures |Answers(s, filters, log)| == |log|
    ensures Answers(s, filters, log)[i] == Handle(Serial(s, filters, log[..i]), log[i].tcp, filters, log[i].req).1
    decreases |log|
  {
    hide Inv, Linked, Handle, Serial;
    var before := log[..|log| - 1];
    if i < |log| - 1 {
      AnswerAt(s, filters, before, i);
      assert before[..i] == log[..i];
    } else if i > 0 {
      AnswerAt(s, filters, before, i - 1);
    }
  }

  /** The requests of the log that thread `tid` ran. */
  ghost function Ran(log: seq<Item>, tid: bool): seq<Request> {
    if log == [] then [] else
    Ran(log[..|log| - 1], tid) + if log[|log| - 1].tcp == tid then [log[|log| - 1].req] else []
  }

  /** The requests a thread's connections will still bring. */
  ghost function Todo(conns: seq<seq<byte>>): seq<Request> {
    if conns == [] then [] else Known(Requests(conns[0]), OP_FLUSH) + Todo(conns[1..])
  }

  ghost function Ahead(t: Thread): seq<Request> {
    (if t.pc.Waiting? then [t.pc.req] else []) + Todo(t.conns)
  }

  /** Store and answers of the serial execution. */
  ghost function Outcome(init: System, filters: Filters, log: seq<Item>): (r: (Spool, seq<Reply>))
    requires Inv(init.store) && forall i :: 0 <= i < |log| ==> log[i].req.op <= OP_FLUSH
    ensures Inv(r.0)
  {
    (Serial(init.store, filters, log), Answers(init.store, filters, log))
  }

  /** The handler in the section, left to itself, gives the last answer still missing and leaves the serial store. */
  ghost predicate Owes(s: Spool, f: Frame, answers: seq<Reply>, outcome: (Spool, seq<Reply>)) {
    && |outcome.1| > 0 && outcome.1[..|outcome.1| - 1] == answers
    && Completes(s, f, (outcome.0, outcome.1[|outcome.1| - 1]))
  }

  ghost predicate Holds(a: System, init: System, filters: Filters)
    requires Inv(init.store)
  {
    && (forall i :: 0 <= i < |a.log| ==> a.log[i].req.op <= OP_FLUSH)
    && (forall tid :: ThreadOf(a, tid).pc.Waiting? ==> ThreadOf(a, tid).pc.req.op <= OP_FLUSH)
    && (forall tid :: ThreadOf(a, tid).pc.Inside? <==> a.lock == Some(tid))
    && (if a.lock.None? then (a.store, a.answers) == Outcome(init, filters, a.log)
        else Owes(a.store, ThreadOf(a, a.lock.value).pc.frame, a.answers, Outcome(init, filters, a.log)))
    && (forall tid :: Ran(a.log, tid) + Ahead(ThreadOf(a, tid)) == Todo(ThreadOf(init, tid).conns))
  }

  lemma InitHolds(a: System, filters: Filters)
    requires Init(a)
    ensures Holds(a, a, filters)
  {
    assert forall tid :: Ran(a.log, tid) + Ahead(ThreadOf(a, tid)) == Todo(ThreadOf(a, tid).conns);
  }

  lemma ReadAhead(t: Thread)
    requires t.pc == Reading && t.conns != []
    ensures Ahead(AfterRead(t)) == Ahead(t)
  {
    hide NextRequest;
    match NextRequest(t.conns[0])
    case Got(req, rest) =>
      var c := [rest] + t.conns[1..];
      assert c[0] == rest && c[1..] == t.conns[1..];
      assert Requests(t.conns[0])[1..] == Requests(rest);
      assert Known(Requests(t.conns[0]), OP_FLUSH) ==
             (if req.op <= OP_FLUSH then [req] else []) + Known(Requests(rest), OP_FLUSH);
    case _ =>
  }

  lemma ReadHolds(a: System, b: System, init: System, filters: Filters, tid: bool)
    requires Inv(init.store) && Holds(a, init, filters) && Read(a, b, tid)
    ensures Holds(b, init, filters)
  {
    hide Inv, Linked, Handle, Outcome, Owes, Ran, Ahead, AfterRead;
    ReadAhead(ThreadOf(a, tid));
    assert ThreadOf(b, !tid) == ThreadOf(a, !tid);
  }

  lemma AcquireHolds(a: System, b: System, init: System, filters: Filters, tid: bool)
    requires Inv(init.store) && Holds(a, init, filters) && Acquire(a, b, tid, filters)
    ensures Holds(b, init, filters)
  {
    hide Inv, Linked, Handle, Todo, Completes, Start, Outcome;
    var req := ThreadOf(a, tid).pc.req;
    assert ThreadOf(b, !tid) == ThreadOf(a, !tid);
    assert b.log[..|b.log| - 1] == a.log;
    AcquireAhead(a.log, ThreadOf(a, tid), tid, Start(tid, filters, req));
    assert Ran(b.log, !tid) == Ran(a.log, !tid);
    HandlerCompletes(a.store, tid, filters, req);
    NextOutcome(init, filters, a.log, Item(tid, req));
    var o := Outcome(init, filters, b.log);
    assert o.1[..|a.answers|] == a.answers && Handle(a.store, tid, filters, req) == (o.0, o.1[|a.answers|]);
  }

  lemma NextOutcome(init: System, filters: Filters, log: seq<Item>, item: Item)
    requires Inv(init.store) && item.req.op <= OP_FLUSH && forall i :: 0 <= i < |log| ==> log[i].req.op <= OP_FLUSH
    ensures var o := Outcome(init, filters, log);
            var (s, reply) := Handle(o.0, item.tcp, filters, item.req);
            Outcome(init, filters, log + [item]) == (s, o.1 + [reply])
  {
    hide Inv, Linked, Handle;
    assert (log + [item])[..|log|] == log;
  }

  /** Entering the lock moves a request from ahead of its thread to behind it. */
  lemma AcquireAhead(log: seq<Item>, t: Thread, tid: bool, f: Frame)
    requires t.pc.Waiting?
    ensures Ran(log + [Item(tid, t.pc.req)], tid) + Ahead(t.(pc := Inside(f))) == Ran(log, tid) + Ahead(t)
  {
    assert (log + [Item(tid, t.pc.req)])[..|log|] == log;
    ConcatAssoc(Ran(log, tid), [t.pc.req], Todo(t.conns));
    assert Ahead(t.(pc := Inside(f))) == Todo(t.conns);
  }

  lemma HandlerStepHolds(a: System, b: System, init: System, filters: Filters, tid: bool)
    requires Inv(init.store) && Holds(a, init, filters) && HandlerStep(a, b, tid)
    ensures Holds(b, init, filters)
  {
    hide Inv, Serial, Completes, Exec, Todo;
    assert ThreadOf(b, !tid) == ThreadOf(a, !tid);
    assert Ahead(ThreadOf(b, tid)) == Ahead(ThreadOf(a, tid));
    var o := Outcome(init, filters, a.log);
    OneStep(a.store, ThreadOf(a, tid).pc.frame, (o.0, o.1[|o.1| - 1]));
  }

  lemma ReleaseHolds(a: System, b: System, init: System, filters: Filters, tid: bool)
    requires Inv(init.store) && Holds(a, init, filters) && Release(a, b, tid)
    ensures Holds(b, init, filters)
  {
    hide Inv, Serial, Completes, Todo;
    var o := Outcome(init, filters, a.log);
    EndOnly(a.store, ThreadOf(a, tid).pc.frame, (o.0, o.1[|o.1| - 1]));
    assert o.1 == o.1[..|o.1| - 1] + [o.1[|o.1| - 1]];
    assert ThreadOf(b, !tid) == ThreadOf(a, !tid);
    assert Ahead(ThreadOf(b, tid)) == Ahead(ThreadOf(a, tid));
  }

  ghost predicate IsRun(run: seq<System>, filters: Filters) {
    && run != [] && Init(run[0])
    && forall i :: 0 <= i < |run| - 1 ==> Next(run[i], run[i + 1], filters)
  }

  lemma StepHolds(a: System, b: System, init: System, filters: Filters)
    requires Inv(init.store) && Holds(a, init, filters) && Next(a, b, filters)
    ensures Holds(b, init, filters)
  {
    hide Inv, Holds, Read, Acquire, HandlerStep, Release;
    var tid :| Step(a, b, tid, filters);
    if Read(a, b, tid) { ReadHolds(a, b, init, filters, tid); }
    else if Acquire(a, b, tid, filters) { AcquireHolds(a, b, init, filters, tid); }
    else if HandlerStep(a, b, tid) { HandlerStepHolds(a, b, init, filters, tid); }
    else { ReleaseHolds(a, b, init, filters, tid); }
  }

  lemma {:induction false} RunHolds(run: seq<System>, filters: Filters, n: nat)
    requires IsRun(run, filters) && n < |run|
    ensures Holds(run[n], run[0], filters)
  {
    hide Inv, Holds, Next;
    if n == 0 {
      InitHolds(run[0], filters);
    } else {
      RunHolds(run, filters, n - 1);
      assert Next(run[n - 1], run[n - 1 + 1], filters);
      StepHolds(run[n - 1], run[n], run[0], filters);
    }
  }

  /** Every interleaving is a serial execution: whenever the lock is free, the store is what the
      handlers logged so far leave when run one at a time in the order they took the lock, so the store
      invariant holds, and every answer given is the one that serial execution gives; and each thread has run
      exactly a prefix, in order, of what it was sent. */
  lemma Serializable(run: seq<System>, filters: Filters, n: nat)
    requires IsRun(run, filters) && n < |run| && run[n].lock == None
    ensures forall i :: 0 <= i < |run[n].log| ==> run[n].log[i].req.op <= OP_FLUSH
    ensures run[n].store == Serial(run[0].store, filters, run[n].log) && Inv(run[n].store)
    ensures run[n].answers == Answers(run[0].store, filters, run[n].log)
    ensures Ran(run[n].log, false) <= Todo(run[0].pipe.conns)
    ensures Ran(run[n].log, true) <= Todo(run[0].tcp.conns)
  {
    RunHolds(run, filters, n);
    var a := run[n];
    assert Ran(a.log, false) + Ahead(ThreadOf(a, false)) == Todo(ThreadOf(run[0], false).conns);
    assert Ran(a.log, true) + Ahead(ThreadOf(a, true)) == Todo(ThreadOf(run[0], true).conns);
  }

  /** At most one handler is ever inside the lock. */
  lemma MutualExclusion(run: seq<System>, filters: Filters, n: nat)
    requires IsRun(run, filters) && n < |run|
    ensures !(run[n].pipe.pc.Inside? && run[n].tcp.pc.Inside?)
  {
    RunHolds(run, filters, n);
    assert ThreadOf(run[n], false).pc == run[n].pipe.pc && ThreadOf(run[n], true).pc == run[n].tcp.pc;
  }

  ghost predicate Finished(t: Thread) {
    t.pc == Reading && t.conns == []
  }

  /** Once both threads are through, every request with a valid op has run exactly once. */
  lemma AllRan(run: seq<System>, filters: Filters, n: nat)
    requires IsRun(run, filters) && n < |run| && Finished(run[n].pipe) && Finished(run[n].tcp)
    ensures run[n].lock == None
    ensures Ran(run[n].log, false) == Todo(run[0].pipe.conns) && Ran(run[n].log, true) == Todo(run[0].tcp.conns)
  {
    RunHolds(run, filters, n);
    var a := run[n];
    assert ThreadOf(a, false) == a.pipe && ThreadOf(a, true) == a.tcp;
    assert Ran(a.log, false) + Ahead(ThreadOf(a, false)) == Todo(ThreadOf(run[0], false).conns);
    assert Ran(a.log, true) + Ahead(ThreadOf(a, true)) == Todo(ThreadOf(run[0], true).conns);
  }

  /** The lock never jams: while some thread has work left, some thread can take a step. */
  lemma Progress(run: seq<System>, filters: Filters, n: nat)
    requires IsRun(run, filters) && n < |run| && !(Finished(run[n].pipe) && Finished(run[n].tcp))
    ensures exists b :: Next(run[n], b, filters)
  {
    RunHolds(run, filters, n);
    var tid := Finished(run[n].pipe);
    assert !Finished(ThreadOf(run[n], tid));
    var stuck := run[n].lock.Some? && ThreadOf(run[n], tid).pc.Waiting?;
    var mover := if stuck then run[n].lock.value else tid;
    var b := Mover(run[n], run[0], filters, mover);
    assert Next(run[n], b, filters);
  }

  lemma Mover(a: System, init: System, filters: Filters, tid: bool) returns (b: System)
    requires Inv(init.store) && Holds(a, init, filters) && !Finished(ThreadOf(a, tid))
    requires ThreadOf(a, tid).pc.Waiting? ==> a.lock == None
    ensures Step(a, b, tid, filters)
  {
    hide Inv, Linked, Todo, Serial, Ran, Completes, Exec, Start;
    var t := ThreadOf(a, tid);
    match t.pc
    case Reading =>
      b := WithThread(a, tid, AfterRead(t));
    case Waiting(req) =>
      b := WithThread(a, tid, t.(pc := Inside(Start(tid, filters, req))))
             .(lock := Some(tid), log := a.log + [Item(tid, req)]);
    case Inside(f) =>
      if f.code == [] {
        b := WithThread(a, tid, t.(pc := Reading)).(lock := None, answers := a.answers + [f.reply]);
      } else {
        var (s, f') := Exec(a.store, f);
        b := WithThread(a, tid, t.(pc := Inside(f'))).(store := s);
      }
  }
}
