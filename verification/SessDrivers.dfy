/**
 The two drivers of the session store: sessiond.c serving one TCP connection, and sessreplay.c replaying an
 op-log.  The replay is meant to act exactly as the server would.
 */
module SessDrivers {
  import opened Bytes
  import opened Wire
  import opened SessModel
  import opened SessStore

  const NPLUGINS: nat := 16
  const OP_FLUSH: nat := 6
  const FLAG_DEFER: nat := 0x80
  const OUT_CAP: nat := 256

  const OPLOG_MAGIC: seq<byte> := [82, 86, 78, 49]   // "RVN1"
  const OPLOG_MAX_RECORDS: nat := 65536

  type Plugins = p: seq<Option<HandlerFn>> | |p| == NPLUGINS witness seq(NPLUGINS, _ => None)

  function PluginFor(plugins: Plugins, flags: byte): Option<HandlerFn> {
    plugins[flags % 16]
  }

  function Defers(flags: byte): bool {
    flags / FLAG_DEFER % 2 == 1
  }

  // ---- one request ---------------------------------------------------------

  /** What a TCP request does to the store: a deferral follows only a successful use. */
  ghost function HandleTcp(s: Store, plugins: Plugins, realloc: Realloc, r: Request): (s': Store)
    requires Ok(s) && r.op <= OP_FLUSH
    ensures Ok(s')
  {
    match r.op
    case 0 => Open(s, r.flags % 16, PluginFor(plugins, r.flags), r.arg).0
    case 1 =>
      var (s1, out) := UseRun(s, r.id, r.arg, OUT_CAP);
      if out.rc < 0 || !Defers(r.flags) then s1 else Defer(s1, r.id)
    case 2 =>
      var (s1, rc) := UseSet(s, r.id, r.arg);
      if rc != SESS_OK || !Defers(r.flags) then s1 else Defer(s1, r.id)
    case 3 => UseAppend(s, r.id, r.arg, realloc).0
    case 4 => Close(s, r.id).0
    case 5 => s
    case _ => Flush(s, r.arg)
  }

  /** What the replay does with a record: a deferral is attempted whatever the use returned; an op it does
      not know is skipped. */
  ghost function ReplayRecord(s: Store, plugins: Plugins, realloc: Realloc, r: Request): (s': Store)
    requires Ok(s)
    ensures Ok(s')
  {
    match r.op
    case 0 => Open(s, r.flags % 16, PluginFor(plugins, r.flags), r.arg).0
    case 1 =>
      var s1 := UseRun(s, r.id, r.arg, OUT_CAP).0;
      if Defers(r.flags) then Defer(s1, r.id) else s1
    case 2 =>
      var s1 := UseSet(s, r.id, r.arg).0;
      if Defers(r.flags) then Defer(s1, r.id) else s1
    case 3 => UseAppend(s, r.id, r.arg, realloc).0
    case 4 => Close(s, r.id).0
    case 5 => s
    case 6 => Flush(s, r.arg)
    case _ => s
  }

  /** The one record on which the two part: a run that asks for a deferral, of a session that is there, whose
      handler reports an error, while the batch has room. */
  ghost predicate Parts(s: Store, r: Request)
    requires Ok(s)
  {
    && r.op == 1 && Defers(r.flags)
    && Named(s, r.id).Some? && UseRun(s, r.id, r.arg, OUT_CAP).1.rc < 0
    && |s.batch| < DEFER_MAX
  }

  lemma GetTwice(s: Store, id: int)
    requires Ok(s)
    ensures Get(Get(s, id).0, id) == Get(s, id)
  {
  }

  /** What one request does on the server's side of the loop, dispatched or skipped. */
  ghost function ServeRecord(s: Store, plugins: Plugins, realloc: Realloc, r: Request): (s': Store)
    requires Ok(s)
    ensures Ok(s')
  {
    if r.op <= OP_FLUSH then HandleTcp(s, plugins, realloc, r) else s
  }

  /** Record by record the two drivers agree except exactly there. */
  lemma RecordsAgreeExactly(s: Store, plugins: Plugins, realloc: Realloc, r: Request)
    requires Ok(s)
    ensures ReplayRecord(s, plugins, realloc, r) == ServeRecord(s, plugins, realloc, r) <==> !Parts(s, r)
  {
    hide Ok, Open, UseAppend, Close, Flush;
    GetTwice(s, r.id);
    if r.op == 1 && Defers(r.flags) {
      var (s1, out) := UseRun(s, r.id, r.arg, OUT_CAP);
      if out.rc < 0 && Named(s, r.id).Some? && |s.batch| < DEFER_MAX {
        assert |Defer(s1, r.id).batch| == |s1.batch| + 1;
      }
    }
  }

  /** When handlers never report an error, as the two that ship never do, the drivers agree on every record. */
  ghost predicate NoErrors(plugins: Plugins) {
    forall i, arg, cap :: 0 <= i < NPLUGINS && plugins[i].Some? ==> plugins[i].value(arg, cap).rc >= 0
  }

  /** Every session's handler came from the plugin table. */
  ghost predicate FromPlugins(s: Store, plugins: Plugins) {
    forall k :: 0 <= k < |s.sessions| ==> InTable(s.sessions[k].handler, plugins)
  }

  ghost predicate InTable(h: HandlerFn, plugins: Plugins) {
    exists i :: 0 <= i < NPLUGINS && plugins[i] == Some(h)
  }

  lemma FreshFromPlugins(plugins: Plugins)
    ensures Ok(FRESH) && FromPlugins(FRESH, plugins)
  {
  }

  lemma HandlersKept(s: Store, plugins: Plugins, realloc: Realloc, r: Request)
    requires Ok(s) && r.op <= OP_FLUSH && FromPlugins(s, plugins)
    ensures FromPlugins(HandleTcp(s, plugins, realloc, r), plugins)
  {
    hide Ok, HandleTcp;
    var s' := HandleTcp(s, plugins, realloc, r);
    NewHandler(s, plugins, realloc, r);
    forall k | 0 <= k < |s'.sessions|
      ensures InTable(s'.sessions[k].handler, plugins)
    {
      if k < |s.sessions| {
        SameHandler(s, plugins, realloc, r, k);
      } else {
        assert plugins[r.flags % 16] == Some(s'.sessions[k].handler);
      }
    }
  }

  lemma NewHandler(s: Store, plugins: Plugins, realloc: Realloc, r: Request)
    requires Ok(s) && r.op <= OP_FLUSH
    ensures var s' := HandleTcp(s, plugins, realloc, r);
            |s'.sessions| == |s.sessions| ||
            (|s'.sessions| == |s.sessions| + 1 && plugins[r.flags % 16] == Some(s'.sessions[|s.sessions|].handler))
  {
    hide Ok, Overlay, Fit, FlushBufs, FreeFrom;
  }

  lemma SameHandler(s: Store, plugins: Plugins, realloc: Realloc, r: Request, k: nat)
    requires Ok(s) && r.op <= OP_FLUSH && k < |s.sessions|
    ensures var s' := HandleTcp(s, plugins, realloc, r);
            k < |s'.sessions| && s'.sessions[k].handler == s.sessions[k].handler
  {
    hide Ok, Overlay, Fit, FlushBufs, FreeFrom;
  }

  lemma NeverParts(s: Store, plugins: Plugins, r: Request)
    requires Ok(s) && FromPlugins(s, plugins) && NoErrors(plugins)
    ensures !Parts(s, r)
  {
  }

  // ---- whole logs ----------------------------------------------------------

  /** A connection from its first byte to its last. */
  ghost function ServeTcp(s: Store, plugins: Plugins, realloc: Realloc, b: seq<byte>): (s': Store)
    requires Ok(s)
    ensures Ok(s')
    decreases |b|
  {
    match NextRequest(b)
    case Got(r, rest) =>
      ServeTcp(ServeRecord(s, plugins, realloc, r), plugins, realloc, rest)
    case _ => s
  }

  /** The record loop over the bytes after the log's header. */
  ghost function ReplayBytes(s: Store, plugins: Plugins, realloc: Realloc, b: seq<byte>, n: nat): (s': Store)
    requires Ok(s)
    ensures Ok(s')
    decreases n
  {
    if n == 0 then s else
    match NextRequest(b)
    case Got(r, rest) => ReplayBytes(ReplayRecord(s, plugins, realloc, r), plugins, realloc, rest, n - 1)
    case _ => s
  }

  /** The bytes of the first `n` records, or all of them when the log ends or is cut short before that. */
  function Records(b: seq<byte>, n: nat): (r: seq<byte>)
    ensures r <= b
    decreases n
  {
    if n == 0 then [] else
    match NextRequest(b)
    case Got(r, rest) => b[..|b| - |rest|] + Records(rest, n - 1)
    case _ => b
  }

  lemma RecordsStep(b: seq<byte>, n: nat) returns (sent: seq<byte>)
    requires n > 0 && NextRequest(b).Got?
    ensures NextRequest(Records(b, n)) == Got(NextRequest(b).req, sent) && sent == Records(NextRequest(b).rest, n - 1)
  {
    hide U16At, U32At;
    sent := Records(NextRequest(b).rest, n - 1);
    NextOfPrefix(b, sent);
  }

  /** No record of the log, met in the state the server reaches, is one the drivers part on. */
  ghost predicate NoneParts(s: Store, plugins: Plugins, realloc: Realloc, b: seq<byte>, n: nat)
    requires Ok(s)
    decreases n
  {
    n == 0 ||
    match NextRequest(b)
    case Got(r, rest) => !Parts(s, r) && NoneParts(ServeRecord(s, plugins, realloc, r), plugins, realloc, rest, n - 1)
    case _ => true
  }

  /** One more record on either side. */
  lemma LogStep(s: Store, plugins: Plugins, realloc: Realloc, b: seq<byte>, n: nat)
    requires Ok(s) && n > 0 && NextRequest(b).Got?
    ensures var Got(r, rest) := NextRequest(b);
            && ReplayBytes(s, plugins, realloc, b, n) ==
               ReplayBytes(ReplayRecord(s, plugins, realloc, r), plugins, realloc, rest, n - 1)
            && ServeTcp(s, plugins, realloc, Records(b, n)) ==
               ServeTcp(ServeRecord(s, plugins, realloc, r), plugins, realloc, Records(rest, n - 1))
  {
    hide Ok, ServeRecord, ReplayRecord, NextRequest, Records;
    var sent := RecordsStep(b, n);
  }

  lemma NoStep(s: Store, plugins: Plugins, realloc: Realloc, b: seq<byte>, n: nat)
    requires Ok(s) && (n == 0 || !NextRequest(b).Got?)
    ensures ReplayBytes(s, plugins, realloc, b, n) == s == ServeTcp(s, plugins, realloc, Records(b, n))
  {
    NothingSent();
    hide NextRequest;
  }

  /** For every log and any handlers: the replay leaves the session table, the most-recent reference and the
      deferred batch as one TCP connection sending the same records does, when no record parts the two. */
  lemma {:induction false} ReplayIsServe(s: Store, plugins: Plugins, realloc: Realloc, b: seq<byte>, n: nat)
    requires Ok(s) && NoneParts(s, plugins, realloc, b, n)
    ensures ReplayBytes(s, plugins, realloc, b, n) == ServeTcp(s, plugins, realloc, Records(b, n))
    decreases n
  {
    hide Ok, ServeRecord, ReplayRecord, NextRequest, Records, ReplayBytes, ServeTcp, Parts;
    if n > 0 && NextRequest(b).Got? {
      var Got(r, rest) := NextRequest(b);
      LogStep(s, plugins, realloc, b, n);
      RecordsAgreeExactly(s, plugins, realloc, r);
      ReplayIsServe(ServeRecord(s, plugins, realloc, r), plugins, realloc, rest, n - 1);
    } else {
      NoStep(s, plugins, realloc, b, n);
    }
  }

  /** And when some record does, the drivers leave different stores right after the first such record. */
  lemma {:induction false} PartingShows(s: Store, plugins: Plugins, realloc: Realloc, b: seq<byte>, n: nat)
    returns (m: nat)
    requires Ok(s) && !NoneParts(s, plugins, realloc, b, n)
    ensures m <= n && ReplayBytes(s, plugins, realloc, b, m) != ServeTcp(s, plugins, realloc, Records(b, m))
    decreases n
  {
    hide Ok, ServeRecord, ReplayRecord, NextRequest, Records, ReplayBytes, ServeTcp, Parts;
    var Got(r, rest) := NextRequest(b);
    RecordsAgreeExactly(s, plugins, realloc, r);
    if Parts(s, r) {
      m := 1;
      LogStep(s, plugins, realloc, b, 1);
      NoStep(ServeRecord(s, plugins, realloc, r), plugins, realloc, rest, 0);
      NoStep(ReplayRecord(s, plugins, realloc, r), plugins, realloc, rest, 0);
    } else {
      m := PartingShows(ServeRecord(s, plugins, realloc, r), plugins, realloc, rest, n - 1);
      m := m + 1;
      LogStep(s, plugins, realloc, b, m);
    }
  }

  lemma {:induction false} NonePartsShorter(s: Store, plugins: Plugins, realloc: Realloc, b: seq<byte>, n: nat, m: nat)
    requires Ok(s) && NoneParts(s, plugins, realloc, b, n) && m <= n
    ensures NoneParts(s, plugins, realloc, b, m)
    decreases n
  {
    hide Ok, ServeRecord, NextRequest, Parts;
    if m > 0 && NextRequest(b).Got? {
      var Got(r, rest) := NextRequest(b);
      NonePartsShorter(ServeRecord(s, plugins, realloc, r), plugins, realloc, rest, n - 1, m - 1);
    }
  }

  /** The drivers agree after every prefix of a log if and only if no record parts them. */
  lemma ReplayIsServeExactly(s: Store, plugins: Plugins, realloc: Realloc, b: seq<byte>, n: nat)
    requires Ok(s)
    ensures NoneParts(s, plugins, realloc, b, n) <==>
            forall m: nat :: m <= n ==>
              ReplayBytes(s, plugins, realloc, b, m) == ServeTcp(s, plugins, realloc, Records(b, m))
  {
    hide Ok, NoneParts, ReplayBytes, ServeTcp, Records;
    if NoneParts(s, plugins, realloc, b, n) {
      forall m: nat | m <= n
        ensures ReplayBytes(s, plugins, realloc, b, m) == ServeTcp(s, plugins, realloc, Records(b, m))
      {
        NonePartsShorter(s, plugins, realloc, b, n, m);
        ReplayIsServe(s, plugins, realloc, b, m);
      }
    } else {
      var m := PartingShows(s, plugins, realloc, b, n);
    }
  }

  /** Handlers that never report an error never part the drivers, whatever the log. */
  lemma {:induction false} NoErrorsNoneParts(s: Store, plugins: Plugins, realloc: Realloc, b: seq<byte>, n: nat)
    requires Ok(s) && FromPlugins(s, plugins) && NoErrors(plugins)
    ensures NoneParts(s, plugins, realloc, b, n)
    decreases n
  {
    hide Ok, FromPlugins, NoErrors, HandleTcp, NextRequest, Parts;
    if n > 0 && NextRequest(b).Got? {
      var Got(r, rest) := NextRequest(b);
      NeverParts(s, plugins, r);
      if r.op <= OP_FLUSH { HandlersKept(s, plugins, realloc, r); }
      NoErrorsNoneParts(ServeRecord(s, plugins, realloc, r), plugins, realloc, rest, n - 1);
    }
  }

  lemma NothingSent()
    ensures NextRequest([]) == End
  {
  }

  /** The records a log begins with are what sending only those puts on the wire. */
  lemma {:induction false} RecordsOfLog(rs: seq<Request>, m: nat)
    requires m <= |rs| && forall i :: 0 <= i < |rs| ==> WellFormed(rs[i])
    ensures Records(EncodeAll(rs), m) == EncodeAll(rs[..m])
  {
    if m > 0 {
      NextOfEncode(rs[0], EncodeAll(rs[1..]));
      RecordsOfLog(rs[1..], m - 1);
      assert rs[..m][0] == rs[0] && rs[..m][1..] == rs[1..][..m - 1];
    }
  }

  /** A well-formed log of any records up to the limit, on a fresh store: the replay is where a fresh server would
      be, after every record, if and only if no record parts the two. */
  lemma LogIsConnection(rs: seq<Request>, plugins: Plugins, realloc: Realloc)
    requires |rs| <= OPLOG_MAX_RECORDS && forall i :: 0 <= i < |rs| ==> WellFormed(rs[i])
    ensures Ok(FRESH)
    ensures NoneParts(FRESH, plugins, realloc, EncodeAll(rs), |rs|) <==>
            forall m: nat :: m <= |rs| ==>
              ReplayBytes(FRESH, plugins, realloc, EncodeAll(rs), m) ==
              ServeTcp(FRESH, plugins, realloc, EncodeAll(rs[..m]))
  {
    FreshFromPlugins(plugins);
    hide Ok, NoneParts, ReplayBytes, ServeTcp, Records, EncodeAll, WellFormed;
    ReplayIsServeExactly(FRESH, plugins, realloc, EncodeAll(rs), |rs|);
    forall m: nat | m <= |rs|
      ensures Records(EncodeAll(rs), m) == EncodeAll(rs[..m])
    {
      RecordsOfLog(rs, m);
    }
  }

  // ---- the shipped handlers ------------------------------------------------

  /** handler_echo.c */
  function Echo(arg: seq<byte>, cap: nat): Outcome {
    Outcome(Min(|arg|, cap), Take(arg, cap))
  }

  function Sum(arg: seq<byte>): nat {
    if arg == [] then 0 else (Sum(arg[..|arg| - 1]) + arg[|arg| - 1]) % U32_MOD
  }

  function Decimal(n: nat): seq<byte> {
    if n < 10 then [48 + n] else Decimal(n / 10) + [48 + n % 10]
  }

  /** handler_calc.c: "sum=" and the byte sum in decimal; a preview that does not fit counts as empty. */
  function Calc(arg: seq<byte>, cap: nat): Outcome {
    var text := [115, 117, 109, 61] + Decimal(Sum(arg));
    if |text| <= cap then Outcome(|text|, text) else Outcome(0, [])
  }

  /** g_plugins as both drivers load it. */
  function Shipped(): Plugins {
    [Some(Echo), Some(Calc)] + seq(NPLUGINS - 2, _ => None)
  }

  /** They never report an error: echo gives back what fits of its argument and how much that is, calc the text of
      the byte sum. */
  lemma ShippedNoErrors()
    ensures NoErrors(Shipped())
    ensures Shipped()[0] == Some(Echo) && Shipped()[1] == Some(Calc)
    ensures forall arg: seq<byte>, cap: nat :: Echo(arg, cap) == Outcome(|Take(arg, cap)|, Take(arg, cap))
  {
  }

  /** "sum=195", for the bytes of "ab". */
  lemma CalcOfAb()
    ensures Calc([97, 98], 256) == Outcome(7, [115, 117, 109, 61, 49, 57, 53])
  {
    assert Sum([97]) == (Sum([97][..0]) + 97) % U32_MOD;
    assert [97, 98][..1] == [97] && Sum([97, 98]) == 195;
    assert Decimal(195) == Decimal(19) + [53] && Decimal(19) == Decimal(1) + [57];
  }

  /** With the handlers that ship, replaying any well-formed log is sending it. */
  lemma ShippedLogs(rs: seq<Request>, realloc: Realloc)
    requires |rs| <= OPLOG_MAX_RECORDS && forall i :: 0 <= i < |rs| ==> WellFormed(rs[i])
    ensures Ok(FRESH)
    ensures ReplayBytes(FRESH, Shipped(), realloc, EncodeAll(rs), |rs|) ==
            ServeTcp(FRESH, Shipped(), realloc, EncodeAll(rs))
  {
    FreshFromPlugins(Shipped());
    hide Ok, NoneParts, ReplayBytes, ServeTcp, Records, EncodeAll, WellFormed, Shipped;
    ShippedNoErrors();
    NoErrorsNoneParts(FRESH, Shipped(), realloc, EncodeAll(rs), |rs|);
    LogIsConnection(rs, Shipped(), realloc);
    assert rs[..|rs|] == rs;
  }

  /** A handler that always reports an error. */
  function Failing(arg: seq<byte>, cap: nat): Outcome {
    Outcome(-1, [])
  }

  /** A log that the two drivers take apart: with a handler that fails, opening a session and running it with the
      deferral flag leaves one captured pointer after the replay and none after the server. */
  lemma FailingLogParts(realloc: Realloc)
    ensures Ok(FRESH)
    ensures var plugins := [Some(Failing)] + seq(NPLUGINS - 1, _ => None);
            var log := EncodeAll([Request(0, 0, 0, []), Request(1, FLAG_DEFER, 0xFFFF, [])]);
            |ReplayBytes(FRESH, plugins, realloc, log, 2).batch| == 1 &&
            |ServeTcp(FRESH, plugins, realloc, log).batch| == 0
  {
    hide Ok, ReplayRecord, ServeRecord, ReplayBytes, ServeTcp, EncodeAll;
    var plugins: Plugins := [Some(Failing)] + seq(NPLUGINS - 1, _ => None);
    var open, run := Request(0, 0, 0, []), Request(1, FLAG_DEFER, 0xFFFF, []);
    var s := FailingOpen(plugins, realloc, open);
    FailingRun(s, plugins, realloc, run);
    BothRequests(FRESH, plugins, realloc, open, run);
  }

  /** The first session of a fresh store. */
  lemma FirstOpen(handler: HandlerFn)
    ensures Ok(FRESH)
    ensures var s := Open(FRESH, 0, Some(handler), []).0;
            s.recent == Some(0) && |s.sessions| == 1 && s.sessions[0].handler == handler && s.batch == []
  {
    OpenAccepts(FRESH, 0, Some(handler), []);
    hide Open, Contents, InUse;
  }

  lemma FailingOpen(plugins: Plugins, realloc: Realloc, r: Request) returns (s: Store)
    requires plugins[0] == Some(Failing) && r == Request(0, 0, 0, [])
    ensures Ok(FRESH) && Ok(s)
    ensures ServeRecord(FRESH, plugins, realloc, r) == s == ReplayRecord(FRESH, plugins, realloc, r)
    ensures s.recent.Some? && s.recent.value < |s.sessions|
    ensures s.sessions[s.recent.value].handler == Failing && s.batch == []
  {
    hide Ok, Open;
    FirstOpen(Failing);
    s := Open(FRESH, 0, Some(Failing), []).0;
  }

  lemma BothRequests(s: Store, plugins: Plugins, realloc: Realloc, a: Request, b: Request)
    requires Ok(s) && WellFormed(a) && WellFormed(b)
    ensures var log := EncodeAll([a, b]);
            && ReplayBytes(s, plugins, realloc, log, 2) ==
               ReplayRecord(ReplayRecord(s, plugins, realloc, a), plugins, realloc, b)
            && ServeTcp(s, plugins, realloc, log) ==
               ServeRecord(ServeRecord(s, plugins, realloc, a), plugins, realloc, b)
  {
    TwoRequests(a, b);
    NothingSent();
    hide Ok, ReplayRecord, ServeRecord, EncodeAll, NextRequest;
    var t := ReplayRecord(s, plugins, realloc, a);
    assert ReplayBytes(t, plugins, realloc, EncodeAll([b]), 1) == ReplayRecord(t, plugins, realloc, b);
    var u := ServeRecord(s, plugins, realloc, a);
    assert ServeTcp(u, plugins, realloc, EncodeAll([b])) == ServeRecord(u, plugins, realloc, b);
  }

  lemma FailingRun(s: Store, plugins: Plugins, realloc: Realloc, r: Request)
    requires Ok(s) && s.recent.Some? && s.recent.value < |s.sessions|
    requires s.sessions[s.recent.value].handler == Failing && s.batch == []
    requires r == Request(1, FLAG_DEFER, 0xFFFF, [])
    ensures ServeRecord(s, plugins, realloc, r) == s && |ReplayRecord(s, plugins, realloc, r).batch| == 1
  {
    hide Ok;
  }

  lemma TwoRequests(a: Request, b: Request)
    requires WellFormed(a) && WellFormed(b)
    ensures NextRequest(EncodeAll([a, b])) == Got(a, EncodeAll([b]))
    ensures NextRequest(EncodeAll([b])) == Got(b, [])
  {
    hide NextRequest, Encode;
    NextOfEncode(a, EncodeAll([b]));
    NextOfEncode(b, []);
    assert [a, b][1..] == [b] && [b][1..] == [];
  }

  // ---- the loops -----------------------------------------------------------

  method Dispatch(t: SessTable, plugins: Plugins, r: Request)
    requires t.Valid() && r.op <= OP_FLUSH
    modifies t, t.slots, t.batchData, t.batchLen, t.owned, t.memory
    ensures t.Valid() && fresh(t.owned - old(t.owned)) && fresh(t.memory - old(t.memory))
    ensures t.model == HandleTcp(old(t.model), plugins, t.realloc, r)
  {
    hide Ok;
    match r.op
    case 0 => var _ := t.SessOpen(r.flags % 16, PluginFor(plugins, r.flags), r.arg);
    case 1 =>
      var out := t.SessUseRun(r.id, r.arg, OUT_CAP);
      if out.rc < 0 { return; }
      if Defers(r.flags) { t.SessDefer(r.id); }
    case 2 =>
      var rc := t.SessUseSet(r.id, r.arg);
      if rc != SESS_OK { return; }
      if Defers(r.flags) { t.SessDefer(r.id); }
    case 3 => var _ := t.SessUseAppend(r.id, r.arg);
    case 4 => var _ := t.SessClose(r.id);
    case 5 =>
    case _ => t.SessFlush(r.arg);
  }

  /** serve, on a TCP connection. */
  method Serve(c: Conn, t: SessTable, plugins: Plugins)
    requires c.Valid() && t.Valid()
    modifies c, t, t.slots, t.batchData, t.batchLen, t.owned, t.memory
    ensures c.Valid() && t.Valid() && fresh(t.owned - old(t.owned)) && fresh(t.memory - old(t.memory))
    ensures t.model == ServeTcp(old(t.model), plugins, t.realloc, old(c.Pending()))
  {
    hide Ok, HandleTcp;
    while true
      invariant c.Valid() && t.Valid() && fresh(t.owned - old(t.owned)) && fresh(t.memory - old(t.memory))
      invariant ServeTcp(t.model, plugins, t.realloc, c.Pending()) ==
                ServeTcp(old(t.model), plugins, t.realloc, old(c.Pending()))
      decreases |c.Pending()|
    {
      var r, _ := c.NextFrame();
      if r.None? { break; }
      if r.value.op <= OP_FLUSH { Dispatch(t, plugins, r.value); }
    }
  }

  /** One case of the replay switch. */
  method Replay(t: SessTable, plugins: Plugins, r: Request)
    requires t.Valid()
    modifies t, t.slots, t.batchData, t.batchLen, t.owned, t.memory
    ensures t.Valid() && fresh(t.owned - old(t.owned)) && fresh(t.memory - old(t.memory))
    ensures t.model == ReplayRecord(old(t.model), plugins, t.realloc, r)
  {
    hide Ok;
    match r.op
    case 0 => var _ := t.SessOpen(r.flags % 16, PluginFor(plugins, r.flags), r.arg);
    case 1 =>
      var _ := t.SessUseRun(r.id, r.arg, OUT_CAP);
      if Defers(r.flags) { t.SessDefer(r.id); }
    case 2 =>
      var _ := t.SessUseSet(r.id, r.arg);
      if Defers(r.flags) { t.SessDefer(r.id); }
    case 3 => var _ := t.SessUseAppend(r.id, r.arg);
    case 4 => var _ := t.SessClose(r.id);
    case 5 =>
    case 6 => t.SessFlush(r.arg);
    case _ =>
  }

  /** The record loop of the replay. */
  method ReplayRecords(t: SessTable, plugins: Plugins, body: seq<byte>, count: nat)
    requires t.Valid()
    modifies t, t.slots, t.batchData, t.batchLen, t.owned, t.memory
    ensures t.Valid() && fresh(t.owned - old(t.owned)) && fresh(t.memory - old(t.memory))
    ensures t.model == ReplayBytes(old(t.model), plugins, t.realloc, body, count)
  {
    hide Ok, ReplayRecord, NextRequest;
    var b := body;
    for i := 0 to count
      invariant t.Valid() && fresh(t.owned - old(t.owned)) && fresh(t.memory - old(t.memory))
      invariant ReplayBytes(t.model, plugins, t.realloc, b, count - i) ==
                ReplayBytes(old(t.model), plugins, t.realloc, body, count)
    {
      var next := NextRequest(b);
      if !next.Got? { break; }
      Replay(t, plugins, next.req);
      b := next.rest;
    }
  }

  /** The replay of a whole file; NULL when the header is bad or asks for too many records. */
  method ReplayFile(file: seq<byte>, plugins: Plugins, realloc: Realloc) returns (t: SessTable?)
    ensures t == null <==> |file| < 8 || file[..4] != [82, 86, 78, 49] || U32At(file, 4) > 65536
    ensures t != null ==> fresh(t) && t.Valid() && Ok(FRESH)
    ensures t != null ==> t.model == ReplayBytes(FRESH, plugins, realloc, file[8..], U32At(file, 4))
  {
    hide Ok, ReplayBytes, U16At, U32At;
    if |file| < 8 || file[..4] != OPLOG_MAGIC { return null; }
    var count := U32At(file, 4);
    if count > OPLOG_MAX_RECORDS { return null; }
    t := new SessTable(realloc);
    ReplayRecords(t, plugins, file[8..], count);
  }
}
