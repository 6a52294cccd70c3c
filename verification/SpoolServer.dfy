/**
 spoold.c: the op handlers with their transport rules, the dispatch table, and the request loop
 of one connection.
 */
module SpoolServer {
  import opened Bytes
  import opened Wire
  import opened SpoolModel
  import opened SpoolStore

  const NFILTERS: nat := 3
  const OP_FLUSH: nat := 7
  const FLAG_VERBOSE: nat := 0x40

  /** g_filters: what start-up resolved for each filter id. */
  type Filters = f: seq<Option<FilterFn>> | |f| == NFILTERS witness [None, None, None]

  datatype Peek = Peek(id: int, len: nat, state: JobState)

  datatype Reply =
    | Text(text: string)
    | JobId(id: int)
    | Preview(size: nat, out: seq<byte>)
    | Status(jobs: int, peek: Option<Peek>)

  function FilterFor(filters: Filters, id: nat): Option<FilterFn> {
    if id < NFILTERS then filters[id] else None
  }

  /** The STATUS preview bit of the flags byte. */
  function Verbose(flags: byte): bool {
    flags / FLAG_VERBOSE % 2 == 1
  }

  function Created(r: int, error: string): Reply {
    if r < 0 then Text(error) else JobId(r)
  }

  /** One handler of the dispatch table, run to completion. */
  ghost function Handle(s: Spool, tcp: bool, filters: Filters, r: Request): (Spool, Reply)
    requires Linked(s) && r.op <= OP_FLUSH
  {
    if r.op == 0 then
      var fmt := r.flags % 16;
      var (s1, id) := Submit(s, fmt, FilterFor(filters, fmt), r.arg);
      (s1, Created(id, "ERR submit\n"))
    else if r.op == 1 then
      var (s1, out) := Render(s, r.id, 256);
      (s1, if out.rc < 0 then Text("ERR\n") else Preview(out.rc, out.out))
    else if r.op == 2 then
      var (s1, rc) := Append(s, r.id, r.arg);
      (s1, if rc != SPOOL_OK then Text("ERR\n") else Text("OK\n"))
    else if r.op == 3 then
      (Cancel(s, r.id).0, Text("OK\n"))
    else if r.op == 4 then
      (s, Status(s.count, if Verbose(r.flags) && !tcp then PeekOf(s) else None))
    else if r.op == 5 then
      if tcp then (s, Text("ERR local-only\n")) else (Recycle(s, r.id).0, Text("OK\n"))
    else if r.op == 6 then
      if !tcp then (s, Text("ERR net-only\n")) else
      var (s1, id) := Dup(s, r.id);
      (s1, Created(id, "ERR dup\n"))
    else
      if !tcp then (s, Text("ERR net-only\n")) else (Pump(s), Text("OK\n"))
  }

  ghost function PeekOf(s: Spool): Option<Peek>
    requires Linked(s)
  {
    if s.active.None? then None else
    var j := s.jobs[s.active.value];
    Some(Peek(s.active.value, |j.doc|, j.state))
  }

  /** Every handler, whatever the request and the transport, keeps the store invariant. */
  lemma HandleInv(s: Spool, tcp: bool, filters: Filters, r: Request)
    requires Inv(s) && r.op <= OP_FLUSH
    ensures Inv(Handle(s, tcp, filters, r).0)
  {
    hide Inv, Pump, NewJob, Retire, Render, Submit, Dup, Append, Cancel;
    InvLinked(s);
    if r.op == 0 {
      SubmitInv(s, r.flags % 16, FilterFor(filters, r.flags % 16), r.arg);
    } else if r.op == 1 {
      RenderInv(s, r.id);
    } else if r.op == 2 {
      AppendAccepts(s, r.id, r.arg);
    } else if r.op == 3 {
      CancelInv(s, r.id);
    } else if r.op == 6 {
      DupInv(s, r.id);
    } else if r.op == 7 {
      FlushInv(s);
    }
  }

  /** The job a request is about, if any. */
  ghost function Target(s: Spool, r: Request): Option<nat>
    requires Linked(s)
  {
    if r.op in {1, 2, 3} then Lookup(s, r.id).1 else None
  }

  /** A request leaves every job but the one it names as it was, unless it is a flush. */
  lemma HandleTouchesOnlyTarget(s: Spool, tcp: bool, filters: Filters, r: Request, k: nat)
    requires Inv(s) && r.op < OP_FLUSH && k in s.jobs && Target(s, r) != Some(k)
    ensures var s' := Handle(s, tcp, filters, r).0;
            k in s'.jobs && s'.jobs[k] == s.jobs[k]
  {
    hide Inv, Without;
    InvLinked(s);
    if r.op == 0 {
      SubmitAccepts(s, r.flags % 16, FilterFor(filters, r.flags % 16), r.arg);
    } else if r.op == 6 {
      DupAccepts(s, r.id);
    }
  }

  /** A whole run: the handlers of `rs`, one after the other. */
  ghost function Run(s: Spool, tcp: bool, filters: Filters, rs: seq<Request>): (r: Spool)
    requires Inv(s) && forall i :: 0 <= i < |rs| ==> rs[i].op <= OP_FLUSH
    ensures Inv(r)
    decreases |rs|
  {
    if rs == [] then s else
    HandleInv(s, tcp, filters, rs[0]);
    Run(Handle(s, tcp, filters, rs[0]).0, tcp, filters, rs[1..])
  }

  /** One connection: what it does to the store and what it answers, as a function of the bytes sent. */
  ghost function ServeBytes(s: Spool, tcp: bool, filters: Filters, b: seq<byte>): (r: (Spool, seq<Reply>))
    requires Inv(s)
    ensures Inv(r.0)
    decreases |b|
  {
    match NextRequest(b)
    case End => (s, [])
    case TooBig => (s, [Text("ERR big\n")])
    case Got(req, rest) =>
      if req.op > OP_FLUSH then
        var (s1, replies) := ServeBytes(s, tcp, filters, rest);
        (s1, [Text("ERR op\n")] + replies)
      else
        HandleInv(s, tcp, filters, req);
        var (s1, reply) := Handle(s, tcp, filters, req);
        var (s2, replies) := ServeBytes(s1, tcp, filters, rest);
        (s2, [reply] + replies)
  }

  /** The loop dispatches exactly the requests whose op the table has, in the order they were sent. */
  lemma {:induction false} ServeRunsKnown(s: Spool, tcp: bool, filters: Filters, b: seq<byte>)
    requires Inv(s)
    ensures ServeBytes(s, tcp, filters, b).0 == Run(s, tcp, filters, Known(Requests(b), OP_FLUSH))
    decreases |b|
  {
    hide Inv, Linked, Handle;
    match NextRequest(b)
    case End =>
    case TooBig =>
    case Got(req, rest) =>
      assert Requests(b)[0] == req && Requests(b)[1..] == Requests(rest);
      if req.op > OP_FLUSH {
        ServeRunsKnown(s, tcp, filters, rest);
        assert Known(Requests(b), OP_FLUSH) == Known(Requests(rest), OP_FLUSH);
      } else {
        InvLinked(s);
        HandleInv(s, tcp, filters, req);
        var s1 := Handle(s, tcp, filters, req).0;
        ServeRunsKnown(s1, tcp, filters, rest);
        assert Known(Requests(b), OP_FLUSH)[1..] == Known(Requests(rest), OP_FLUSH);
      }
  }

  /** For every request sequence: sending its encoding, with any cut-off request after it, runs exactly
      the requests with a valid op; an unknown op is skipped with its payload. */
  lemma ServeEncoded(s: Spool, tcp: bool, filters: Filters, rs: seq<Request>, tail: seq<byte>)
    requires Inv(s)
    requires forall i :: 0 <= i < |rs| ==> WellFormed(rs[i])
    requires !NextRequest(tail).Got?
    ensures ServeBytes(s, tcp, filters, EncodeAll(rs) + tail).0 == Run(s, tcp, filters, Known(rs, OP_FLUSH))
  {
    RequestsRoundTrip(rs, tail);
    ServeRunsKnown(s, tcp, filters, EncodeAll(rs) + tail);
  }

  // ---- the server ----------------------------------------------------------

  /** One handler of the dispatch table, run with the lock held. */
  method Dispatch(t: SpoolTable, tcp: bool, filters: Filters, r: Request) returns (reply: Reply)
    requires t.Tied() && r.op <= OP_FLUSH
    modifies t, t.slots, t.owned
    ensures t.Tied() && fresh(t.owned - old(t.owned))
    ensures (t.model, reply) == Handle(old(t.model), tcp, filters, r)
  {
    hide SpoolTable.Tied, Linked, Pump, Submit, Render, Append, Cancel, Dup, Recycle;
    t.LinkedModel();
    match r.op
    case 0 =>
      var fmt := r.flags % 16;
      var id := t.JobSubmit(fmt, FilterFor(filters, fmt), r.arg);
      reply := Created(id, "ERR submit\n");
    case 1 =>
      var out := t.JobRender(r.id, 256);
      reply := if out.rc < 0 then Text("ERR\n") else Preview(out.rc, out.out);
    case 2 =>
      var rc := t.JobAppend(r.id, r.arg);
      reply := Text(if rc != SPOOL_OK then "ERR\n" else "OK\n");
    case 3 =>
      var _ := t.JobCancel(r.id);
      reply := Text("OK\n");
    case 4 =>
      reply := JobStatus(t, Verbose(r.flags) && !tcp);
    case 5 =>
      if tcp { return Text("ERR local-only\n"); }
      var _ := t.JobRecycle(r.id);
      reply := Text("OK\n");
    case 6 =>
      if !tcp { return Text("ERR net-only\n"); }
      var id := t.JobDup(r.id);
      reply := Created(id, "ERR dup\n");
    case _ =>
      if !tcp { return Text("ERR net-only\n"); }
      t.JobFlush();
      reply := Text("OK\n");
  }

  method JobStatus(t: SpoolTable, verbose: bool) returns (reply: Reply)
    requires t.Tied()
    ensures reply == Status(t.model.count, if verbose then PeekOf(t.model) else None)
  {
    var peek := None;
    if verbose && t.active != null {
      peek := Some(Peek(t.active.id, t.active.len, t.active.state));
    }
    reply := Status(t.count, peek);
  }

  /** The request loop of one connection: for every way the bytes are split into reads, the store and
      the replies are those of the byte stream as a whole. */
  method Serve(c: Conn, t: SpoolTable, tcp: bool, filters: Filters) returns (replies: seq<Reply>)
    requires c.Valid() && t.Valid()
    modifies c, t, t.slots, t.owned
    ensures c.Valid() && t.Valid() && fresh(t.owned - old(t.owned))
    ensures (t.model, replies) == ServeBytes(old(t.model), tcp, filters, old(c.Pending()))
  {
    hide SpoolTable.Tied, Inv, Linked, Handle;
    replies := [];
    ghost var whole := ServeBytes(t.model, tcp, filters, c.Pending());
    assert replies + whole.1 == whole.1;
    while true
      invariant c.Valid() && t.Valid() && fresh(t.owned - old(t.owned))
      invariant var (s, rest) := ServeBytes(t.model, tcp, filters, c.Pending()); whole == (s, replies + rest)
      decreases |c.Pending()|
    {
      ghost var rest := ServeBytes(t.model, tcp, filters, c.Pending()).1;
      var r, tooBig := c.NextFrame();
      if r.None? {
        if tooBig { replies := replies + [Text("ERR big\n")]; }
        assert replies + [] == replies;
        break;
      }
      var reply := Text("ERR op\n");
      if r.value.op <= OP_FLUSH {
        HandleInv(t.model, tcp, filters, r.value);
        reply := Dispatch(t, tcp, filters, r.value);
      }
      ConcatAssoc(replies, [reply], rest[1..]);
      assert rest == [reply] + rest[1..];
      replies := replies + [reply];
    }
  }
}
