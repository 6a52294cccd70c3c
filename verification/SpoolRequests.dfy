/**
 What each request to spoold.c amounts to, told from the request, the jobs and the queue alone: which job it is
 about, what becomes of it and of every other job, and what is answered.
 */
module SpoolRequests {
  import opened Bytes
  import opened Wire
  import opened SpoolModel
  import opened SpoolServer

  /** SUBMIT: the low four bits of the flags pick one of three filters.  With a filter and fewer than 256 jobs the
      new job takes the least free id, holds the first 2^20 bytes of the argument and goes behind the queue. */
  lemma SubmitRequest(s: Spool, tcp: bool, filters: Filters, r: Request)
    requires Inv(s) && r.op == 0
    ensures var fmt := r.flags % 16;
            var (s', reply) := Handle(s, tcp, filters, r);
            if fmt < 3 && filters[fmt].Some? && s.count < 256 then
              && reply.JobId? && 0 <= reply.id < 256 && reply.id !in s.jobs
              && (forall k: nat :: k < reply.id ==> k in s.jobs)
              && reply.id in s'.jobs && s'.jobs - {reply.id} == s.jobs
              && s'.queue == s.queue + [reply.id] && s'.count == s.count + 1
              && s'.active == Some(reply.id) && s'.calls == s.calls
              && var job := s'.jobs[reply.id];
                 job.fmt == fmt && job.filter == filters[fmt].value && job.state == Queued &&
                 job.doc == Take(r.arg, 0x10_0000)
            else s' == s && reply == Text("ERR submit\n")
  {
    hide Inv, Linked, Submit;
    SubmitAccepts(s, r.flags % 16, FilterFor(filters, r.flags % 16), r.arg);
  }

  /** RENDER: the job's filter is called once, on its whole document with 256 bytes of room; its preview, or the
      error, is the answer; and the job is gone, the others staying in their places. */
  lemma RenderRequest(s: Spool, tcp: bool, filters: Filters, r: Request, before: seq<nat>, after: seq<nat>)
    requires Inv(s) && r.op == 1
    requires Named(s, r.id).Some? ==> s.queue == before + [Named(s, r.id).value] + after
    ensures var (s', reply) := Handle(s, tcp, filters, r);
            if Named(s, r.id).None? then s' == s && reply == Text("ERR\n") else
            var k := Named(s, r.id).value;
            var out := s.jobs[k].filter(s.jobs[k].doc, 256);
            && s' == Spool(s.jobs - {k}, before + after, None, s.count - 1,
                           s.calls + [Call(s.jobs[k].filter, s.jobs[k].doc)])
            && reply == (if out.rc < 0 then Text("ERR\n") else Preview(out.rc, out.out))
  {
    InvLinked(s);
    LookupIs(s, r.id);
    if Named(s, r.id).Some? { RenderDoes(s, r.id, 256, before, after); }
    hide Inv, Linked, Retire;
  }

  /** APPEND: the argument goes behind the document of the job it names, when both fit in 2^20 bytes; every other
      job stays as it was, and the job it names too when they do not fit. */
  lemma AppendRequest(s: Spool, tcp: bool, filters: Filters, r: Request)
    requires Inv(s) && r.op == 2
    ensures var (s', reply) := Handle(s, tcp, filters, r);
            var k := Named(s, r.id);
            && s'.queue == s.queue && s'.count == s.count && s'.calls == s.calls && s'.jobs.Keys == s.jobs.Keys
            && (forall i :: i in s.jobs && Some(i) != k ==> s'.jobs[i] == s.jobs[i])
            && s'.active == (if k.Some? then k else s.active)
            && if k.Some? && |s.jobs[k.value].doc| + |r.arg| <= 0x10_0000
               then reply == Text("OK\n") && s'.jobs[k.value].doc == s.jobs[k.value].doc + r.arg
                    && s'.jobs[k.value].state == s.jobs[k.value].state
                    && s'.jobs[k.value].filter == s.jobs[k.value].filter
               else reply == Text("ERR\n") && s'.jobs == s.jobs
  {
    hide Inv, Append;
    InvLinked(s);
    LookupIs(s, r.id);
    AppendAccepts(s, r.id, r.arg);
  }

  /** In particular, with an id of the table: that job and no other. */
  lemma AppendToJob(s: Spool, tcp: bool, filters: Filters, r: Request)
    requires Inv(s) && r.op == 2 && r.id in s.jobs && |s.jobs[r.id].doc| + |r.arg| <= 0x10_0000
    ensures var s' := Handle(s, tcp, filters, r).0;
            s'.jobs.Keys == s.jobs.Keys && s'.jobs[r.id].doc == s.jobs[r.id].doc + r.arg &&
            forall k :: k in s.jobs && k != r.id ==> s'.jobs[k] == s.jobs[k]
  {
    InvLinked(s);
    NamedIs(s, r.id);
    AppendRequest(s, tcp, filters, r);
  }

  /** CANCEL: the state of the job it names, and nothing else of any job; the answer is the same without one. */
  lemma CancelRequest(s: Spool, tcp: bool, filters: Filters, r: Request)
    requires Inv(s) && r.op == 3
    ensures var k := Named(s, r.id);
            (k.Some? ==> k.value in s.jobs) &&
            Handle(s, tcp, filters, r) ==
              (if k.None? then s
               else s.(active := k, jobs := s.jobs[k.value := s.jobs[k.value].(state := Cancelled)]), Text("OK\n"))
  {
    hide Inv, Cancel;
    InvLinked(s);
    LookupIs(s, r.id);
    CancelDoes(s, r.id);
  }

  /** STATUS writes nothing.  Bit 6 of the flags, on the pipe only, asks for id, length and state of the
      most-recent job. */
  lemma StatusRequest(s: Spool, tcp: bool, filters: Filters, r: Request, high: nat, low: nat)
    requires Inv(s) && r.op == 4
    requires low < 64 && high < 2
    ensures (r.flags == 128 * high + low || (r.flags == 128 * high + 64 + low && (tcp || s.active == None))) ==>
              Handle(s, tcp, filters, r) == (s, Status(s.count, None))
    ensures r.flags == 128 * high + 64 + low && !tcp && s.active.Some? ==>
              s.active.value in s.jobs &&
              var job := s.jobs[s.active.value];
              Handle(s, tcp, filters, r) == (s, Status(s.count, Some(Peek(s.active.value, |job.doc|, job.state))))
  {
  }

  /** RECYCLE is refused on the network; on the pipe it remembers the job it names and changes no other. */
  lemma RecycleRequest(s: Spool, tcp: bool, filters: Filters, r: Request)
    requires Inv(s) && r.op == 5
    ensures Handle(s, tcp, filters, r) ==
              if tcp then (s, Text("ERR local-only\n"))
              else (s.(active := if Named(s, r.id).Some? then Named(s, r.id) else s.active), Text("OK\n"))
  {
    hide Inv, Linked, Recycle;
    InvLinked(s);
    CancelDoes(s, r.id);
  }

  /** DUP is refused on the pipe; on the network, a copy of the job it names takes the least free id and goes
      behind the queue. */
  lemma DupRequest(s: Spool, tcp: bool, filters: Filters, r: Request)
    requires Inv(s) && r.op == 6
    ensures var (s', reply) := Handle(s, tcp, filters, r);
            var k := Named(s, r.id);
            if !tcp then s' == s && reply == Text("ERR net-only\n")
            else if k.Some? && s.count < 256 then
              && k.value in s.jobs && reply.JobId? && 0 <= reply.id < 256 && reply.id !in s.jobs
              && (forall i: nat :: i < reply.id ==> i in s.jobs)
              && reply.id in s'.jobs && s'.jobs - {reply.id} == s.jobs
              && s'.queue == s.queue + [reply.id] && s'.count == s.count + 1
              && s'.active == Some(reply.id) && s'.calls == s.calls
              && var job, copy := s.jobs[k.value], s'.jobs[reply.id];
                 copy.state == Queued && copy.doc == job.doc && copy.fmt == job.fmt && copy.filter == job.filter &&
                 copy.meta == job.meta
            else s' == s.(active := if k.Some? then k else s.active) && reply == Text("ERR dup\n")
  {
    hide Inv, Dup;
    InvLinked(s);
    LookupIs(s, r.id);
    if tcp { DupAccepts(s, r.id); }
  }

  /** FLUSH is refused on the pipe; on the network, the filter of every uncancelled queued job is called once, in
      queue order, and nothing is left. */
  lemma FlushRequest(s: Spool, tcp: bool, filters: Filters, r: Request)
    requires Inv(s) && r.op == 7
    ensures Handle(s, tcp, filters, r) ==
              if !tcp then (s, Text("ERR net-only\n"))
              else (Spool(map[], [], None, 0, s.calls + PendingCalls(s.jobs, s.queue)), Text("OK\n"))
  {
    FlushDrains(s);
    hide Inv, Linked, Pump;
  }

  // ---- a connection's answers ----------------------------------------------

  /** One request of the loop: handled, or refused for its op. */
  ghost function Served(s: Spool, tcp: bool, filters: Filters, r: Request): (res: (Spool, Reply))
    requires Inv(s)
    ensures Inv(res.0)
  {
    if r.op > 7 then (s, Text("ERR op\n")) else
    HandleInv(s, tcp, filters, r);
    Handle(s, tcp, filters, r)
  }

  lemma ServeStep(s: Spool, tcp: bool, filters: Filters, r: Request, rest: seq<byte>)
    requires Inv(s) && WellFormed(r)
    ensures var (s1, reply) := Served(s, tcp, filters, r);
            var (s2, replies) := ServeBytes(s1, tcp, filters, rest);
            ServeBytes(s, tcp, filters, Encode(r) + rest) == (s2, [reply] + replies)
  {
    hide Inv, Linked, Handle, NextRequest;
    NextOfEncode(r, rest);
  }

  lemma ServeTail(s: Spool, tcp: bool, filters: Filters, tail: seq<byte>)
    requires Inv(s) && !NextRequest(tail).Got?
    ensures ServeBytes(s, tcp, filters, tail) == (s, if NextRequest(tail).TooBig? then [Text("ERR big\n")] else [])
  {
    hide Inv;
  }

  /** What a stream is answered: request by request, in order, each known op as its handler answers in the store
      the requests before it leave, each unknown one with an error; a length that is too big ends the stream with
      one more. */
  lemma {:induction false} AnswersInOrder(s: Spool, tcp: bool, filters: Filters, rs: seq<Request>, tail: seq<byte>,
                                          i: nat)
    requires Inv(s) && forall k :: 0 <= k < |rs| ==> WellFormed(rs[k])
    requires !NextRequest(tail).Got?
    ensures var replies := ServeBytes(s, tcp, filters, EncodeAll(rs) + tail).1;
            && |replies| == |rs| + (if NextRequest(tail).TooBig? then 1 else 0)
            && (i < |rs| ==> replies[i] == Served(Run(s, tcp, filters, Known(rs[..i], 7)), tcp, filters, rs[i]).1)
            && (NextRequest(tail).TooBig? ==> replies[|rs|] == Text("ERR big\n"))
    decreases |rs|
  {
    hide Inv, NextRequest, ServeBytes, Served, Encode;
    if rs == [] {
      assert EncodeAll(rs) + tail == tail;
      ServeTail(s, tcp, filters, tail);
    } else {
      var rest := EncodeAll(rs[1..]) + tail;
      ConcatAssoc(Encode(rs[0]), EncodeAll(rs[1..]), tail);
      ServeStep(s, tcp, filters, rs[0], rest);
      var s1 := Served(s, tcp, filters, rs[0]).0;
      AnswersInOrder(s1, tcp, filters, rs[1..], tail, if i == 0 then 0 else i - 1);
      var later := ServeBytes(s1, tcp, filters, rest).1;
      assert ServeBytes(s, tcp, filters, EncodeAll(rs) + tail).1 == [Served(s, tcp, filters, rs[0]).1] + later;
      if i == 0 {
        assert Run(s, tcp, filters, Known(rs[..0], 7)) == s;
      } else if i < |rs| {
        RunStep(s, tcp, filters, rs[..i]);
        assert rs[..i][1..] == rs[1..][..i - 1];
      }
    }
  }

  lemma RunStep(s: Spool, tcp: bool, filters: Filters, rs: seq<Request>)
    requires Inv(s) && rs != []
    ensures Run(s, tcp, filters, Known(rs, 7)) ==
            Run(Served(s, tcp, filters, rs[0]).0, tcp, filters, Known(rs[1..], 7))
  {
    hide Inv, Linked, Handle;
    var later := Known(rs[1..], 7);
    if rs[0].op <= 7 {
      assert Known(rs, 7)[0] == rs[0] && Known(rs, 7)[1..] == later;
    } else {
      assert Known(rs, 7) == later;
    }
  }
}
