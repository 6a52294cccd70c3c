/**
 What a job's document holds after any run: the reference is the history a client could keep, not the
 buffers of the store.
 */
module SpoolHistory {
  import opened Bytes
  import opened SpoolModel
  import opened SpoolServer
  import opened SpoolThreads

  /** What one request did to documents, as its sender sees it. */
  datatype Event =
    | Submitted(id: nat, init: seq<byte>)
    | Appended(id: nat, arg: seq<byte>)
    | Copied(id: nat, source: nat)
    | NoDocument

  ghost predicate Valid(log: seq<Item>) {
    forall i :: 0 <= i < |log| ==> log[i].req.op <= OP_FLUSH
  }

  ghost function EventOf(s: Spool, item: Item, filters: Filters): Event
    requires Inv(s)
  {
    var r := item.req;
    if r.op == 0 then
      var id := Submit(s, r.flags % 16, FilterFor(filters, r.flags % 16), r.arg).1;
      if id < 0 then NoDocument else Submitted(id, Take(r.arg, ENC_MAX_DOC))
    else if r.op == 2 then
      var j := Lookup(s, r.id).1;
      if Append(s, r.id, r.arg).1 != SPOOL_OK || j.None? then NoDocument else Appended(j.value, r.arg)
    else if r.op == 6 && item.tcp then
      var id := Dup(s, r.id).1;
      var j := Lookup(s, r.id).1;
      if id < 0 || j.None? then NoDocument else Copied(id, j.value)
    else NoDocument
  }

  ghost function History(log: seq<Item>, filters: Filters): seq<Event>
    requires Valid(log)
  {
    if log == [] then [] else
    var before := log[..|log| - 1];
    History(before, filters) + [EventOf(Serial(EMPTY, filters, before), log[|log| - 1], filters)]
  }

  /** The document a history gives job `id`: nothing before the job is made, then what it was made
      from, then every accepted append. */
  ghost function Document(h: seq<Event>, id: nat): seq<byte>
    decreases |h|
  {
    if h == [] then [] else
    var earlier := h[..|h| - 1];
    match h[|h| - 1]
    case Submitted(k, init) => if k == id then init else Document(earlier, id)
    case Appended(k, arg) => Document(earlier, id) + if k == id then arg else []
    case Copied(k, source) => Document(earlier, if k == id then source else id)
    case NoDocument => Document(earlier, id)
  }

  ghost predicate Agrees(s: Spool, h: seq<Event>) {
    forall k :: k in s.jobs ==> s.jobs[k].doc == Document(h, k)
  }

  lemma Extend(h: seq<Event>, e: Event)
    ensures (h + [e])[..|h|] == h
  {
  }

  lemma SubmitAgrees(s: Spool, h: seq<Event>, item: Item, filters: Filters)
    requires Inv(s) && Agrees(s, h) && item.req.op == 0
    ensures Agrees(Handle(s, item.tcp, filters, item.req).0, h + [EventOf(s, item, filters)])
  {
    hide Inv, Linked;
    InvLinked(s);
    Extend(h, EventOf(s, item, filters));
  }

  lemma AppendAgrees(s: Spool, h: seq<Event>, item: Item, filters: Filters)
    requires Inv(s) && Agrees(s, h) && item.req.op == 2
    ensures Agrees(Handle(s, item.tcp, filters, item.req).0, h + [EventOf(s, item, filters)])
  {
    hide Inv, Linked;
    InvLinked(s);
    Extend(h, EventOf(s, item, filters));
    assert forall d: seq<byte> :: d + [] == d;
  }

  lemma DupAgrees(s: Spool, h: seq<Event>, item: Item, filters: Filters)
    requires Inv(s) && Agrees(s, h) && item.req.op == 6
    ensures Agrees(Handle(s, item.tcp, filters, item.req).0, h + [EventOf(s, item, filters)])
  {
    hide Inv, Linked;
    InvLinked(s);
    Extend(h, EventOf(s, item, filters));
  }

  /** The other operations add no bytes: what jobs they leave, they leave as they were. */
  lemma OtherAgrees(s: Spool, h: seq<Event>, item: Item, filters: Filters)
    requires Inv(s) && Agrees(s, h) && item.req.op <= OP_FLUSH && item.req.op !in {0, 2, 6}
    ensures Agrees(Handle(s, item.tcp, filters, item.req).0, h + [EventOf(s, item, filters)])
  {
    if item.req.op == 7 { FlushDrains(s); }
    hide Inv, Linked, Pump;
    InvLinked(s);
    Extend(h, NoDocument);
  }

  /** After any run from the empty store, every job's document is the one its history tells. */
  lemma {:induction false} DocumentsFollowHistory(log: seq<Item>, filters: Filters)
    requires Valid(log)
    ensures Agrees(Serial(EMPTY, filters, log), History(log, filters))
    decreases |log|
  {
    if log != [] {
      hide Inv, Handle, Agrees, EventOf;
      var before, last := log[..|log| - 1], log[|log| - 1];
      DocumentsFollowHistory(before, filters);
      var s, h := Serial(EMPTY, filters, before), History(before, filters);
      if last.req.op == 0 { SubmitAgrees(s, h, last, filters); }
      else if last.req.op == 2 { AppendAgrees(s, h, last, filters); }
      else if last.req.op == 6 { DupAgrees(s, h, last, filters); }
      else { OtherAgrees(s, h, last, filters); }
    }
  }

  /** The bytes of the accepted appends to job `id`, in order. */
  ghost function AppendsTo(h: seq<Event>, id: nat): seq<byte>
    decreases |h|
  {
    if h == [] then [] else
    AppendsTo(h[..|h| - 1], id) + match h[|h| - 1] { case Appended(k, arg) => if k == id then arg else [] case _ => [] }
  }

  ghost predicate Remakes(e: Event, id: nat) {
    (e.Submitted? || e.Copied?) && e.id == id
  }

  /** A document is its initial bytes followed by all accepted appends since that submit. */
  lemma {:induction false} DocumentSinceSubmit(pre: seq<Event>, id: nat, init: seq<byte>, post: seq<Event>)
    requires forall i :: 0 <= i < |post| ==> !Remakes(post[i], id)
    ensures Document(pre + [Submitted(id, init)] + post, id) == init + AppendsTo(post, id)
    decreases |post|
  {
    var made := pre + [Submitted(id, init)];
    if post == [] {
      assert made + post == made && made[|made| - 1] == Submitted(id, init);
      assert init + [] == init;
    } else {
      var p, e := post[..|post| - 1], post[|post| - 1];
      assert made + post == (made + p) + [e];
      Extend(made + p, e);
      DocumentSinceSubmit(pre, id, init, p);
      assert !Remakes(e, id);
      var added := match e { case Appended(k, arg) => if k == id then arg else [] case _ => [] };
      assert Document(made + post, id) == Document(made + p, id) + added;
      ConcatAssoc(init, AppendsTo(p, id), added);
    }
  }

  /** A copy's document is what the copied job's was, followed by all accepted appends since. */
  lemma {:induction false} DocumentSinceCopy(pre: seq<Event>, id: nat, source: nat, post: seq<Event>)
    requires forall i :: 0 <= i < |post| ==> !Remakes(post[i], id)
    ensures Document(pre + [Copied(id, source)] + post, id) == Document(pre, source) + AppendsTo(post, id)
    decreases |post|
  {
    var made := pre + [Copied(id, source)];
    if post == [] {
      assert made + post == made && made[..|made| - 1] == pre;
    } else {
      var p, e := post[..|post| - 1], post[|post| - 1];
      assert made + post == (made + p) + [e];
      Extend(made + p, e);
      DocumentSinceCopy(pre, id, source, p);
      assert !Remakes(e, id);
      var added := match e { case Appended(k, arg) => if k == id then arg else [] case _ => [] };
      assert Document(made + post, id) == Document(made + p, id) + added;
      ConcatAssoc(Document(pre, source), AppendsTo(p, id), added);
    }
  }

  /** When job `id` was last made: the position of that event in the history. */
  ghost function LastMade(h: seq<Event>, id: nat): int
    decreases |h|
  {
    if h == [] then -1
    else if Remakes(h[|h| - 1], id) then |h| - 1
    else LastMade(h[..|h| - 1], id)
  }

  /** The event at LastMade made the job, and none after it did. */
  lemma {:induction false} LastMadeIs(h: seq<Event>, id: nat)
    ensures -1 <= LastMade(h, id) < |h|
    ensures LastMade(h, id) >= 0 ==> Remakes(h[LastMade(h, id)], id)
    ensures forall i :: LastMade(h, id) < i < |h| ==> !Remakes(h[i], id)
    decreases |h|
  {
    if h != [] && !Remakes(h[|h| - 1], id) { LastMadeIs(h[..|h| - 1], id); }
  }

  /** A history has one event for each request, told from the store that request met. */
  lemma {:induction false} HistoryAt(log: seq<Item>, filters: Filters, i: nat)
    requires Valid(log) && i < |log|
    ensures |History(log, filters)| == |log|
    ensures History(log, filters)[i] == EventOf(Serial(EMPTY, filters, log[..i]), log[i], filters)
    ensures History(log, filters)[..i] == History(log[..i], filters)
    decreases |log|
  {
    assert Inv(EMPTY);
    hide Inv, EventOf, Serial;
    var before := log[..|log| - 1];
    if i < |log| - 1 {
      HistoryAt(before, filters, i);
      assert before[..i] == log[..i];
    } else if i > 0 {
      HistoryAt(before, filters, i - 1);
    }
  }

  /** A job a handler leaves in the table was there before, or the handler's event made it. */
  lemma HandleMakes(s: Spool, item: Item, filters: Filters, k: nat)
    requires Inv(s) && item.req.op <= OP_FLUSH
    requires k in Handle(s, item.tcp, filters, item.req).0.jobs
    ensures k in s.jobs || Remakes(EventOf(s, item, filters), k)
  {
    if item.req.op == 7 { FlushDrains(s); }
    hide Inv, Linked, Pump, Without;
    InvLinked(s);
  }

  /** After any run, every job in the table was made by some event. */
  lemma {:induction false} JobsWereMade(log: seq<Item>, filters: Filters, k: nat)
    requires Valid(log) && k in Serial(EMPTY, filters, log).jobs
    ensures 0 <= LastMade(History(log, filters), k) < |log|
    decreases |log|
  {
    assert Inv(EMPTY);
    hide Inv, Handle, EventOf, Remakes;
    var before, last := log[..|log| - 1], log[|log| - 1];
    var s, h := Serial(EMPTY, filters, before), History(before, filters);
    HandleMakes(s, last, filters, k);
    Extend(h, EventOf(s, last, filters));
    HistoryAt(log, filters, 0);
    if k in s.jobs { JobsWereMade(before, filters, k); }
  }

  /** What a job is made from, given the store its event met. */
  ghost function MadeFrom(s: Spool, e: Event): seq<byte> {
    match e
    case Submitted(_, init) => init
    case Copied(_, source) => if source in s.jobs then s.jobs[source].doc else []
    case _ => []
  }

  /** The document after any run: a job is in the table because some request made it; its document is what that
      request gave it, the clamped bytes of a submit or the document its original had at that moment, followed by
      every append to it accepted since. */
  lemma DocumentAfterRun(log: seq<Item>, filters: Filters, k: nat)
    requires Valid(log) && k in Serial(EMPTY, filters, log).jobs
    ensures var h := History(log, filters);
            var i := LastMade(h, k);
            && |h| == |log| && 0 <= i < |log| && Remakes(h[i], k)
            && h[i] == EventOf(Serial(EMPTY, filters, log[..i]), log[i], filters)
            && (h[i].Submitted? ==> h[i].init == Take(log[i].req.arg, ENC_MAX_DOC))
            && (h[i].Copied? ==> h[i].source in Serial(EMPTY, filters, log[..i]).jobs)
            && Serial(EMPTY, filters, log).jobs[k].doc ==
               MadeFrom(Serial(EMPTY, filters, log[..i]), h[i]) + AppendsTo(h[i + 1..], k)
  {
    assert Inv(EMPTY);
    hide Inv, Serial, EventOf, Document, LastMade, AppendsTo, History;
    var h := History(log, filters);
    JobsWereMade(log, filters, k);
    var i := LastMade(h, k);
    HistoryAt(log, filters, i);
    DocumentIs(log, filters, k);
    DocumentSplit(h, k);
    EventFacts(Serial(EMPTY, filters, log[..i]), log[i], filters);
    if h[i].Copied? { DocumentIs(log[..i], filters, h[i].source); }
  }

  lemma DocumentIs(log: seq<Item>, filters: Filters, k: nat)
    requires Valid(log) && k in Serial(EMPTY, filters, log).jobs
    ensures Serial(EMPTY, filters, log).jobs[k].doc == Document(History(log, filters), k)
  {
    DocumentsFollowHistory(log, filters);
  }

  /** A document split at the event that last made its job. */
  lemma DocumentSplit(h: seq<Event>, k: nat)
    requires LastMade(h, k) >= 0
    ensures var i := LastMade(h, k);
            && i < |h| && Remakes(h[i], k)
            && Document(h, k) == (if h[i].Submitted? then h[i].init else Document(h[..i], h[i].source)) +
                                 AppendsTo(h[i + 1..], k)
  {
    LastMadeIs(h, k);
    hide Document, LastMade, AppendsTo;
    var i := LastMade(h, k);
    var pre, post := h[..i], h[i + 1..];
    assert h == pre + [h[i]] + post;
    if h[i].Submitted? {
      DocumentSinceSubmit(pre, k, h[i].init, post);
    } else {
      DocumentSinceCopy(pre, k, h[i].source, post);
    }
  }

  lemma EventFacts(s: Spool, item: Item, filters: Filters)
    requires Inv(s)
    ensures var e := EventOf(s, item, filters);
            && (e.Submitted? ==> e.init == Take(item.req.arg, ENC_MAX_DOC))
            && (e.Copied? ==> e.source in s.jobs)
  {
    hide Inv;
  }

  // ---- first in, first out -------------------------------------------------

  ghost predicate Makes(e: Event) {
    e.Submitted? || e.Copied?
  }

  /** One handler either puts the job it makes behind the queue, or only takes jobs out. */
  lemma HandleQueue(s: Spool, item: Item, filters: Filters)
    requires Inv(s) && item.req.op <= OP_FLUSH
    ensures var e := EventOf(s, item, filters);
            var q := Handle(s, item.tcp, filters, item.req).0.queue;
            if Makes(e) then e.id !in s.jobs && q == s.queue + [e.id] else Subseq(q, s.queue)
  {
    hide Inv, Pump, Without, Subseq;
    var r := item.req;
    InvLinked(s);
    SubseqSelf(s.queue);
    if r.op == 0 {
      SubmitAccepts(s, r.flags % 16, FilterFor(filters, r.flags % 16), r.arg);
    } else if r.op == 1 {
      var j := Lookup(s, r.id).1;
      if j.Some? { WithoutSubseq(s.queue, j.value); }
    } else if r.op == 6 {
      DupAccepts(s, r.id);
    } else if r.op == 7 {
      FlushDrains(s);
      NothingSubseq(s.queue);
    }
  }

  lemma NothingSubseq(q: seq<nat>)
    ensures Subseq([], q)
  {
  }

  ghost predicate InOrder(q: seq<nat>, h: seq<Event>) {
    forall i, j :: 0 <= i < j < |q| ==> LastMade(h, q[i]) < LastMade(h, q[j])
  }

  lemma {:induction false} SubseqMember(a: seq<nat>, b: seq<nat>, x: nat)
    requires Subseq(a, b) && x in a
    ensures x in b
  {
    if a[0] == b[0] {
      if x != a[0] { SubseqMember(a[1..], b[1..], x); }
    } else {
      SubseqMember(a, b[1..], x);
    }
  }

  lemma {:induction false} SubseqInOrder(a: seq<nat>, b: seq<nat>, h: seq<Event>)
    requires Subseq(a, b) && InOrder(b, h)
    ensures InOrder(a, h)
    decreases |b|
  {
    if a != [] {
      if a[0] == b[0] {
        SubseqInOrder(a[1..], b[1..], h);
        forall j | 0 < j < |a|
          ensures LastMade(h, a[0]) < LastMade(h, a[j])
        {
          assert a[j] in a[1..];
          SubseqMember(a[1..], b[1..], a[j]);
        }
      } else {
        SubseqInOrder(a, b[1..], h);
      }
    }
  }

  lemma {:induction false} QueueInOrder(log: seq<Item>, filters: Filters)
    requires Valid(log)
    ensures InOrder(Serial(EMPTY, filters, log).queue, History(log, filters))
    decreases |log|
  {
    if log != [] {
      hide Inv, Handle, EventOf, InOrder;
      var before, last := log[..|log| - 1], log[|log| - 1];
      QueueInOrder(before, filters);
      var s, h := Serial(EMPTY, filters, before), History(before, filters);
      HandleQueue(s, last, filters);
      NextInOrder(s, h, EventOf(s, last, filters), Handle(s, last.tcp, filters, last.req).0.queue);
    } else {
      assert InOrder([], []) by { NothingInOrder(); }
    }
  }

  /** After any run, every queued job was made by some request, and the ready queue is in the order of those
      requests, so that is the order a flush renders in. */
  lemma QueueInSubmissionOrder(log: seq<Item>, filters: Filters)
    requires Valid(log)
    ensures var q, h := Serial(EMPTY, filters, log).queue, History(log, filters);
            (forall i :: 0 <= i < |q| ==> 0 <= LastMade(h, q[i]) < |log|) && InOrder(q, h)
  {
    QueueInOrder(log, filters);
    var s := Serial(EMPTY, filters, log);
    InvLinked(s);
    hide Inv, Serial, InOrder, LastMade;
    forall i | 0 <= i < |s.queue|
      ensures 0 <= LastMade(History(log, filters), s.queue[i]) < |log|
    {
      JobsWereMade(log, filters, s.queue[i]);
    }
  }

  lemma NothingInOrder()
    ensures InOrder([], [])
  {
  }

  lemma NextInOrder(s: Spool, h: seq<Event>, e: Event, q: seq<nat>)
    requires Inv(s) && InOrder(s.queue, h)
    requires if Makes(e) then e.id !in s.jobs && q == s.queue + [e.id] else Subseq(q, s.queue)
    ensures InOrder(q, h + [e])
  {
    Extend(h, e);
    if Makes(e) {
      forall i | 0 <= i < |s.queue|
        ensures LastMade(h + [e], s.queue[i]) == LastMade(h, s.queue[i]) < |h|
      {
        LastMadeIs(h, s.queue[i]);
      }
    } else {
      SubseqInOrder(q, s.queue, h);
      assert forall id :: LastMade(h + [e], id) == LastMade(h, id);
    }
  }
}
