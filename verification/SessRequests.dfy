/**
 What each session request amounts to, told from the request and the store alone, for the server and for the
 replay; and how both take a stream of them.
 */
module SessRequests {
  import opened Bytes
  import opened Wire
  import opened SessModel
  import opened SessDrivers

  /** OPEN: the low four bits of the type pick the handler; with one, and fewer than 256 sessions, the new session
      takes the least free handle, holds the first 2^20 bytes of the argument and is the most recent. */
  lemma OpenRequest(s: Store, plugins: Plugins, realloc: Realloc, r: Request)
    requires Ok(s) && r.op == 0
    ensures var s' := HandleTcp(s, plugins, realloc, r);
            var k := |s.sessions|;
            if plugins[r.flags % 16].Some? && s.count < 256 then
              && |s'.sessions| == k + 1 && s.sessions <= s'.sessions && s.bufs <= s'.bufs && s'.batch == s.batch
              && s'.recent == Some(k) && s'.count == s.count + 1
              && var id := s'.sessions[k].id;
                 id < 256 && s.slots[id].None? && (forall i :: 0 <= i < id ==> s.slots[i].Some?) &&
                 s'.slots == s.slots[id := Some(k)] && s'.sessions[k].kind == r.flags % 16 &&
                 s'.sessions[k].handler == plugins[r.flags % 16].value && Contents(s', k) == Take(r.arg, 0x10_0000)
            else s' == s
  {
    var s' := HandleTcp(s, plugins, realloc, r);
    OpenAccepts(s, r.flags % 16, PluginFor(plugins, r.flags), r.arg);
    if plugins[r.flags % 16].Some? && s.count < 256 {
      HandleOf(s', Open(s, r.flags % 16, PluginFor(plugins, r.flags), r.arg).1);
    }
    hide Ok, Open, Contents;
  }

  lemma HandleOf(s: Store, id: int)
    requires Ok(s) && 0 <= id < 256 && s.slots[id].Some?
    ensures s.slots[id].value < |s.sessions| && s.sessions[s.slots[id].value].id == id
  {
  }

  /** A capture of the session that was just looked up. */
  lemma DeferIs(s: Store, id: int)
    requires Ok(s) && Named(s, id).Some? && s.recent == Named(s, id)
    ensures Named(s, id).value < |s.sessions|
    ensures var x := s.sessions[Named(s, id).value];
            Defer(s, id) == s.(batch := if |s.batch| < 64 then s.batch + [Deferred(x.buf, x.len)] else s.batch)
  {
    NamedIs(s, id);
    hide Ok;
  }

  lemma DeferNone(s: Store, id: int)
    requires Ok(s) && Named(s, id).None?
    ensures Defer(s, id) == s
  {
  }

  lemma RunRemembers(s: Store, id: int, arg: seq<byte>)
    requires Ok(s)
    ensures var (s1, out) := UseRun(s, id, arg, 256);
            var k := Named(s, id);
            if k.None? then s1 == s && out.rc == -1
            else k.value < |s.sessions| && s1 == s.(recent := k) && Named(s1, id) == k &&
                 out == s.sessions[k.value].handler(arg, 256)
  {
    UseRunCalls(s, id, arg, 256);
    hide Ok, UseRun;
  }

  /** USE_RUN changes no session: the one it names becomes the most recent, and is captured when the top bit of the
      type asks for it, its handler, given the argument and 256 bytes of room, reports no error, and fewer than 64
      are captured. */
  lemma RunRequest(s: Store, plugins: Plugins, realloc: Realloc, r: Request)
    requires Ok(s) && r.op == 1
    ensures var k := Named(s, r.id);
            (k.Some? ==> k.value < |s.sessions|) &&
            HandleTcp(s, plugins, realloc, r) ==
              if k.None? then s else
              var x := s.sessions[k.value];
              s.(recent := k,
                 batch := if r.flags >= 128 && x.handler(r.arg, 256).rc >= 0 && |s.batch| < 64
                          then s.batch + [Deferred(x.buf, x.len)] else s.batch)
  {
    hide Ok, UseRun, Named, Defer;
    RunRemembers(s, r.id, r.arg);
    if Named(s, r.id).Some? { DeferIs(UseRun(s, r.id, r.arg, 256).0, r.id); }
  }

  /** The replay does the same whatever the handler reports. */
  lemma RunRecord(s: Store, plugins: Plugins, realloc: Realloc, r: Request)
    requires Ok(s) && r.op == 1
    ensures var k := Named(s, r.id);
            (k.Some? ==> k.value < |s.sessions|) &&
            ReplayRecord(s, plugins, realloc, r) ==
              if k.None? then s else
              var x := s.sessions[k.value];
              s.(recent := k,
                 batch := if r.flags >= 128 && |s.batch| < 64 then s.batch + [Deferred(x.buf, x.len)] else s.batch)
  {
    hide Ok, UseRun, Named, Defer;
    RunRemembers(s, r.id, r.arg);
    if Named(s, r.id).Some? { DeferIs(UseRun(s, r.id, r.arg, 256).0, r.id); } else { DeferNone(s, r.id); }
  }

  /** USE_SET: the session it names holds as much of the argument as its buffer takes and is captured, with that
      length, when the top bit asks for it and there is room; every other session and capture stays. */
  lemma SetRequest(s: Store, plugins: Plugins, realloc: Realloc, r: Request)
    requires Ok(s) && r.op == 2
    ensures var s' := HandleTcp(s, plugins, realloc, r);
            var k := Named(s, r.id);
            if k.None? then s' == s else
            && k.value < |s.sessions| == |s'.sessions|
            && var b := s.sessions[k.value].buf;
               Contents(s', k.value) == Take(r.arg, |s.bufs[b]|) && s'.slots == s.slots && s'.count == s.count &&
               (forall i :: 0 <= i < |s.sessions| && i != k.value ==>
                  s'.sessions[i] == s.sessions[i] && Contents(s', i) == Contents(s, i)) &&
               s'.batch == if r.flags >= 128 && |s.batch| < 64
                           then s.batch + [Deferred(b, |Contents(s', k.value)|)] else s.batch
  {
    NamedIs(s, r.id);
    SetIs(s, plugins, realloc, r);
    UseSetWrites(s, r.id, r.arg);
    hide Ok, UseSet, HandleTcp, Named;
  }

  /** A capture after the write sees the new length. */
  lemma SetIs(s: Store, plugins: Plugins, realloc: Realloc, r: Request)
    requires Ok(s) && r.op == 2
    ensures var s1 := UseSet(s, r.id, r.arg).0;
            var k := Named(s, r.id);
            (k.Some? ==> k.value < |s1.sessions|) &&
            HandleTcp(s, plugins, realloc, r) ==
              if k.None? then s else
              var x := s1.sessions[k.value];
              s1.(batch := if r.flags >= 128 && |s1.batch| < 64 then s1.batch + [Deferred(x.buf, x.len)] else s1.batch)
  {
    hide Ok, UseSet, Named, Defer;
    SetRemembers(s, r.id, r.arg);
    if Named(s, r.id).Some? { DeferIs(UseSet(s, r.id, r.arg).0, r.id); }
  }

  lemma SetRemembers(s: Store, id: int, arg: seq<byte>)
    requires Ok(s)
    ensures var (s1, rc) := UseSet(s, id, arg);
            if Named(s, id).None? then s1 == s && rc == -1
            else rc == 0 && Named(s1, id) == Named(s, id) == s1.recent
  {
    hide Ok;
  }

  /** USE_APPEND: the session it names then holds what AfterAppend says; every other session, handle and capture
      stays. */
  lemma AppendRequest(s: Store, plugins: Plugins, realloc: Realloc, r: Request)
    requires Ok(s) && r.op == 3 && |r.arg| < U32_MOD
    ensures var s' := HandleTcp(s, plugins, realloc, r);
            var k := Named(s, r.id);
            if k.None? then s' == s else
            && OnlySession(s, s', k.value)
            && var held, was := s.bufs[s.sessions[k.value].buf], Contents(s, k.value);
               Contents(s', k.value) == AfterAppend(held, was, r.arg, realloc(held, |was| + |r.arg|))
  {
    hide Ok, UseAppend, OnlySession, AfterAppend, Named, Contents;
    UseAppendWrites(s, r.id, r.arg, realloc);
    assert HandleTcp(s, plugins, realloc, r) == UseAppend(s, r.id, r.arg, realloc).0;
  }

  /** CLOSE frees the handle below 256 it names, and touches nothing else; STAT touches nothing. */
  lemma CloseRequest(s: Store, plugins: Plugins, realloc: Realloc, r: Request)
    requires Ok(s)
    ensures r.op == 4 ==>
              HandleTcp(s, plugins, realloc, r) ==
                if r.id < 256 && s.slots[r.id].Some? then s.(slots := s.slots[r.id := None], count := s.count - 1)
                else s
    ensures r.op == 5 ==> HandleTcp(s, plugins, realloc, r) == s
  {
    if r.op == 4 { hide InUse; }
  }

  /** FLUSH writes the argument into every captured buffer, up to the greatest length captured for it, and empties
      the batch; no handle, session or other buffer changes. */
  lemma FlushRequest(s: Store, plugins: Plugins, realloc: Realloc, r: Request, b: nat)
    requires Ok(s) && r.op == 6 && b < |s.bufs|
    ensures var s' := HandleTcp(s, plugins, realloc, r);
            && s'.(bufs := s.bufs) == s.(batch := []) && |s'.bufs| == |s.bufs|
            && var n := if |r.arg| < Captured(s.batch, b) then |r.arg| else Captured(s.batch, b);
               n <= |s.bufs[b]| && s'.bufs[b] == r.arg[..n] + s.bufs[b][n..]
  {
    FlushWrites(s.bufs, s.batch, r.arg, b);
    hide Ok, FlushBufs, Captured;
  }

  // ---- streams -------------------------------------------------------------

  /** The server takes a stream request by request; an op over 6 is skipped with its argument, and what is no whole
      request, or one that is too long, ends the connection. */
  lemma StreamStep(s: Store, plugins: Plugins, realloc: Realloc, r: Request, rest: seq<byte>)
    requires Ok(s) && WellFormed(r)
    ensures ServeTcp(s, plugins, realloc, Encode(r) + rest) ==
              ServeTcp(if r.op > 6 then s else HandleTcp(s, plugins, realloc, r), plugins, realloc, rest)
  {
    hide Ok, HandleTcp, NextRequest, Encode;
    NextOfEncode(r, rest);
  }

  lemma StreamEnds(s: Store, plugins: Plugins, realloc: Realloc, tail: seq<byte>, n: nat)
    requires Ok(s) && !NextRequest(tail).Got?
    ensures ServeTcp(s, plugins, realloc, tail) == s && ReplayBytes(s, plugins, realloc, tail, n) == s
  {
    hide Ok, NextRequest;
  }

  /** The replay takes as many records as its header counts, and no more. */
  lemma RecordStep(s: Store, plugins: Plugins, realloc: Realloc, r: Request, rest: seq<byte>, n: nat)
    requires Ok(s) && WellFormed(r)
    ensures ReplayBytes(s, plugins, realloc, rest, 0) == s
    ensures ReplayBytes(s, plugins, realloc, Encode(r) + rest, n + 1) ==
              ReplayBytes(if r.op > 6 then s else ReplayRecord(s, plugins, realloc, r), plugins, realloc, rest, n)
  {
    hide Ok, NextRequest, Encode, Open, UseAppend, Close, Flush, UseRun, UseSet, Defer;
    NextOfEncode(r, rest);
  }
}
