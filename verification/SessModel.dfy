/**
 The Revenant session store as a value.  Sessions and data buffers live in two arenas and a pointer is an
 index into its arena, so the store's own table, its most-recent reference and its deferred batch can name
 the same session or buffer, as they do in sesscore.c.  A session that is closed leaves the table; what
 other references still name it keeps its last contents.
 */
module SessModel {
  import opened Bytes

  const SESS_MAX: nat := 256
  const SESS_RECENT: int := 0xFFFF
  const SESS_MAX_DATA: nat := ONE_MIB
  const DEFER_MAX: nat := 64
  const SESS_OK: int := 0
  const SESS_ERR: int := -1

  datatype Outcome = Outcome(rc: int, out: seq<byte>)

  /** A handler is a function of its argument and the size of the output buffer. */
  type HandlerFn = (seq<byte>, nat) -> Outcome

  datatype SessionValue = SessionValue(id: nat, kind: int, handler: HandlerFn, buf: nat, len: nat)

  /** A captured data pointer and the length it had. */
  datatype Deferred = Deferred(buf: nat, len: nat)

  datatype Store = Store(
    sessions: seq<SessionValue>,      // every session ever opened
    bufs: seq<seq<byte>>,        // every data buffer; its length is the capacity
    slots: seq<Option<nat>>,     // the handle table
    recent: Option<nat>,         // g_recent
    batch: seq<Deferred>,        // g_batch
    count: int)

  /** How realloc behaves: grow in place, move, or refuse; `fill` is what the new bytes happen to hold. */
  datatype Grown = InPlace(fill: seq<byte>) | Moved(fill: seq<byte>) | Refused

  type Realloc = (seq<byte>, nat) -> Grown

  const FRESH: Store := Store([], [], seq(SESS_MAX, _ => None), None, [], 0)

  /** The handles in use. */
  ghost function InUse(slots: seq<Option<nat>>): set<int> {
    set i | 0 <= i < |slots| && slots[i].Some?
  }

  lemma InUseUpdate(slots: seq<Option<nat>>, id: nat, k: Option<nat>)
    requires id < |slots| && slots[id].Some? != k.Some?
    ensures |InUse(slots[id := k])| == |InUse(slots)| + if k.Some? then 1 else -1
  {
    var before, later := InUse(slots), InUse(slots[id := k]);
    if k.Some? {
      assert later == before + {id};
    } else {
      assert before == later + {id};
    }
  }

  /** Every reference is to something, every handle names a session that was given it, `count` counts the
      handles in use, no recorded length exceeds its buffer, sizes fit in 32 bits, and no two sessions share
      a buffer. */
  ghost predicate Ok(s: Store) {
    && |s.slots| == SESS_MAX && s.count == |InUse(s.slots)|
    && (forall i :: 0 <= i < SESS_MAX && s.slots[i].Some? ==>
          s.slots[i].value < |s.sessions| && s.sessions[s.slots[i].value].id == i)
    && (s.recent.Some? ==> s.recent.value < |s.sessions|)
    && (forall k :: 0 <= k < |s.sessions| ==>
          s.sessions[k].buf < |s.bufs| && s.sessions[k].len <= |s.bufs[s.sessions[k].buf]|)
    && (forall b :: 0 <= b < |s.bufs| ==> |s.bufs[b]| < U32_MOD)
    && (forall i, j :: 0 <= i < j < |s.sessions| ==> s.sessions[i].buf != s.sessions[j].buf)
    && |s.batch| <= DEFER_MAX
    && (forall k :: 0 <= k < |s.batch| ==> s.batch[k].buf < |s.bufs| && s.batch[k].len <= |s.bufs[s.batch[k].buf]|)
  }

  // ---- helpers -------------------------------------------------------------

  /** The least free handle at or after `i`, or SESS_MAX. */
  function FreeFrom(slots: seq<Option<nat>>, i: nat): (r: nat)
    requires i <= |slots|
    ensures i <= r <= |slots|
    ensures r < |slots| ==> slots[r].None?
    ensures forall k :: i <= k < r ==> slots[k].Some?
    decreases |slots| - i
  {
    if i == |slots| || slots[i].None? then i else FreeFrom(slots, i + 1)
  }

  /** Exactly `n` bytes that begin with `s`. */
  function Fit(s: seq<byte>, n: nat): (r: seq<byte>)
    ensures |r| == n
  {
    if n <= |s| then s[..n] else s + seq(n - |s|, _ => 0)
  }

  /** memcpy of `arg` into `buf` at `at`, as far as the buffer reaches. */
  function Overlay(buf: seq<byte>, at: nat, arg: seq<byte>): (r: seq<byte>)
    requires at <= |buf|
    ensures |r| == |buf|
  {
    var n := Min(|arg|, |buf| - at);
    buf[..at] + arg[..n] + buf[at + n..]
  }

  /** A copy into a buffer at `at` keeps what is before, and lands whole when it fits. */
  lemma OverlayParts(buf: seq<byte>, at: nat, arg: seq<byte>)
    requires at <= |buf|
    ensures Overlay(buf, at, arg)[..at] == buf[..at]
    ensures at + |arg| <= |buf| ==> Overlay(buf, at, arg)[..at + |arg|] == buf[..at] + arg
  {
  }

  /** What a session holds: the first `len` bytes of its buffer. */
  ghost function Contents(s: Store, k: nat): seq<byte>
    requires Ok(s) && k < |s.sessions|
  {
    s.bufs[s.sessions[k].buf][..s.sessions[k].len]
  }

  /** Apart from session `k`, the most-recent reference and buffers no session has, nothing differs. */
  ghost predicate OnlySession(s: Store, s': Store, k: nat)
    requires Ok(s) && Ok(s')
  {
    && s'.slots == s.slots && s'.batch == s.batch && s'.count == s.count && |s'.sessions| == |s.sessions|
    && forall i :: 0 <= i < |s.sessions| && i != k ==>
         s'.sessions[i] == s.sessions[i] && Contents(s', i) == Contents(s, i)
  }

  lemma SessionFacts(s: Store, k: nat)
    requires Ok(s) && k < |s.sessions|
    ensures s.sessions[k].buf < |s.bufs| && s.sessions[k].len <= |s.bufs[s.sessions[k].buf]|
    ensures forall i :: 0 <= i < |s.sessions| && i != k ==>
      s.sessions[i].buf != s.sessions[k].buf && s.sessions[i].buf < |s.bufs|
  {
  }

  /** Session `k` with its buffer overwritten, and possibly grown, where it is. */
  ghost function Rewritten(s: Store, k: nat, bytes: seq<byte>, len: nat): (r: Store)
    requires Ok(s) && k < |s.sessions| && len <= |bytes| < U32_MOD
    requires |s.bufs[s.sessions[k].buf]| <= |bytes|
    ensures Ok(r) && OnlySession(s, r, k) && Contents(r, k) == bytes[..len]
  {
    var x := s.sessions[k];
    SessionFacts(s, k);
    s.(bufs := s.bufs[x.buf := bytes], sessions := s.sessions[k := x.(len := len)])
  }

  /** Session `k` moved to a new buffer, with `left` in the one it had. */
  ghost function Relocated(s: Store, k: nat, left: seq<byte>, bytes: seq<byte>): (r: Store)
    requires Ok(s) && k < |s.sessions| && |bytes| < U32_MOD
    requires |left| == |s.bufs[s.sessions[k].buf]|
    ensures Ok(r) && OnlySession(s, r, k) && Contents(r, k) == bytes
  {
    var x := s.sessions[k];
    SessionFacts(s, k);
    s.(bufs := s.bufs[x.buf := left] + [bytes], sessions := s.sessions[k := x.(buf := |s.bufs|, len := |bytes|)])
  }

  // ---- operations ----------------------------------------------------------

  /** A new session with its data in handle `id`. */
  ghost function Installed(s: Store, id: nat, kind: int, handler: HandlerFn, data: seq<byte>): Store
    requires id < |s.slots|
  {
    var k := |s.sessions|;
    s.(sessions := s.sessions + [SessionValue(id, kind, handler, |s.bufs|, |data|)],
       bufs := s.bufs + [Fit(data, Max(32, |data|))],
       slots := s.slots[id := Some(k)],
       recent := Some(k),
       count := s.count + 1)
  }

  ghost function Open(s: Store, kind: int, handler: Option<HandlerFn>, init: seq<byte>): (r: (Store, int))
    requires Ok(s)
    ensures Ok(r.0)
  {
    if handler.None? then (s, SESS_ERR) else
    var id := FreeFrom(s.slots, 0);
    if id == SESS_MAX then (s, SESS_ERR) else
    InUseUpdate(s.slots, id, Some(|s.sessions|));
    (Installed(s, id, kind, handler.value, Take(init, SESS_MAX_DATA)), id)
  }

  /** The session a handle names: one of the table, or the most recent. */
  ghost function Named(s: Store, id: int): Option<nat> {
    if id == SESS_RECENT then s.recent
    else if 0 <= id < |s.slots| then s.slots[id]
    else None
  }

  ghost function Get(s: Store, id: int): (r: (Store, Option<nat>))
    requires Ok(s)
    ensures Ok(r.0) && r.0 == s.(recent := r.0.recent) && r.1 == Named(s, id)
    ensures r.1.Some? ==> r.1.value < |s.sessions|
    ensures r.1.None? ==> r.0 == s
  {
    (if id != SESS_RECENT && Named(s, id).Some? then s.(recent := Named(s, id)) else s, Named(s, id))
  }

  ghost function UseRun(s: Store, id: int, arg: seq<byte>, outCap: nat): (r: (Store, Outcome))
    requires Ok(s)
    ensures Ok(r.0)
  {
    var (s1, k) := Get(s, id);
    if k.None? then (s1, Outcome(SESS_ERR, [])) else (s1, s1.sessions[k.value].handler(arg, outCap))
  }

  ghost function UseSet(s: Store, id: int, arg: seq<byte>): (r: (Store, int))
    requires Ok(s)
    ensures Ok(r.0)
  {
    var (s1, k) := Get(s, id);
    if k.None? then (s1, SESS_ERR) else
    var x := s1.sessions[k.value];
    var n := Min(|arg|, |s1.bufs[x.buf]|);
    (Rewritten(s1, k.value, Overlay(s1.bufs[x.buf], 0, arg[..n]), n), SESS_OK)
  }

  /** The part of SessUseAppend for an argument that does not fit the buffer. */
  ghost function Grow(s: Store, k: nat, arg: seq<byte>, grown: Grown, need: nat): (r: (Store, int))
    requires Ok(s) && k < |s.sessions| && |s.bufs[s.sessions[k].buf]| < need < U32_MOD
    ensures Ok(r.0) && OnlySession(s, r.0, k)
  {
    SessionFacts(s, k);
    var x := s.sessions[k];
    var held := s.bufs[x.buf];
    match grown
    case Refused => (s, SESS_ERR)
    case InPlace(fill) =>
      (Rewritten(s, k, Overlay(held + Fit(fill, need - |held|), x.len, arg), need), SESS_OK)
    case Moved(fill) =>
      // the bytes of `arg` go to the block the session had before
      (Relocated(s, k, Overlay(held, x.len, arg), held + Fit(fill, need - |held|)), SESS_OK)
  }

  ghost function UseAppend(s: Store, id: int, arg: seq<byte>, realloc: Realloc): (r: (Store, int))
    requires Ok(s)
    ensures Ok(r.0)
  {
    var (s1, k) := Get(s, id);
    if k.None? then (s1, SESS_ERR) else
    var x := s1.sessions[k.value];
    var held := s1.bufs[x.buf];
    var need := AddU32(x.len, |arg|);
    if need <= |held| then (Rewritten(s1, k.value, Overlay(held, x.len, arg), need), SESS_OK) else
    Grow(s1, k.value, arg, realloc(held, need), need)
  }

  ghost function Close(s: Store, id: int): (r: (Store, int))
    requires Ok(s)
    ensures Ok(r.0)
  {
    if id < 0 || id >= SESS_MAX || s.slots[id].None? then (s, SESS_ERR)
    else
      InUseUpdate(s.slots, id, None);
      (s.(slots := s.slots[id := None], count := s.count - 1), SESS_OK)
  }

  ghost function Defer(s: Store, id: int): (r: Store)
    requires Ok(s)
    ensures Ok(r)
  {
    var (s1, k) := Get(s, id);
    if k.None? || |s1.batch| >= DEFER_MAX then s1
    else s1.(batch := s1.batch + [Deferred(s1.sessions[k.value].buf, s1.sessions[k.value].len)])
  }

  /** The writes of a flush, oldest capture first. */
  ghost function FlushBufs(bufs: seq<seq<byte>>, batch: seq<Deferred>, arg: seq<byte>): (r: seq<seq<byte>>)
    requires forall k :: 0 <= k < |batch| ==> batch[k].buf < |bufs|
    ensures |r| == |bufs| && forall k :: 0 <= k < |bufs| ==> |r[k]| == |bufs[k]|
    decreases |batch|
  {
    if batch == [] then bufs else
    var before := FlushBufs(bufs, batch[..|batch| - 1], arg);
    var d := batch[|batch| - 1];
    before[d.buf := Overlay(before[d.buf], 0, arg[..Min(|arg|, d.len)])]
  }

  ghost function Flush(s: Store, arg: seq<byte>): (r: Store)
    requires Ok(s)
    ensures Ok(r)
  {
    s.(bufs := FlushBufs(s.bufs, s.batch, arg), batch := [])
  }

  // ---- what the operations promise their callers ------------------------------

  /** SessOpen succeeds exactly when there is a handler and fewer than 256 sessions; it takes the least free
      handle, copies the clamped data, and leaves every other session as it was. */
  lemma OpenAccepts(s: Store, kind: int, handler: Option<HandlerFn>, init: seq<byte>)
    requires Ok(s)
    ensures var (s', id) := Open(s, kind, handler, init);
            var k := |s.sessions|;
            if handler.Some? && s.count < 256
            then 0 <= id < 256 && s.slots[id].None? && (forall i :: 0 <= i < id ==> s.slots[i].Some?)
                 && s'.slots == s.slots[id := Some(k)] && |s'.sessions| == k + 1 && s'.count == s.count + 1
                 && Contents(s', k) == Take(init, 0x10_0000)
                 && |s'.bufs[s'.sessions[k].buf]| == (if |init| < 32 then 32 else |Contents(s', k)|)
                 && s'.sessions[k].kind == kind && s'.sessions[k].handler == handler.value
                 && Named(s', id) == Named(s', 0xFFFF) == Some(k)
                 && s'.batch == s.batch && s.sessions <= s'.sessions && s.bufs <= s'.bufs
            else s' == s && id == -1
  {
    BelowCard(InUse(s.slots), SESS_MAX);
    assert forall i :: 0 <= i < SESS_MAX ==> (i in InUse(s.slots) <==> s.slots[i].Some?);
  }

  /** Which session a handle names: 0xFFFF the most-recent one, a handle below 256 the session of its own slot,
      anything else none; and a lookup that finds one remembers it. */
  lemma NamedIs(s: Store, id: int)
    requires Ok(s)
    ensures Named(s, 0xFFFF) == s.recent
    ensures 0 <= id < 256 ==> Named(s, id) == s.slots[id]
    ensures id != 0xFFFF && (id < 0 || id >= 256) ==> Named(s, id) == None
    ensures Get(s, id) == (s.(recent := if Named(s, id).Some? then Named(s, id) else s.recent), Named(s, id))
  {
  }

  /** SessUseRun calls the session's own handler on the argument itself and returns what it returns. */
  lemma UseRunCalls(s: Store, id: int, arg: seq<byte>, outCap: nat)
    requires Ok(s)
    ensures var (s', out) := UseRun(s, id, arg, outCap);
            s' == s.(recent := if Named(s, id).Some? then Named(s, id) else s.recent) &&
            if Named(s, id).None? then out == Outcome(-1, [])
            else Named(s, id).value < |s.sessions| && out == s.sessions[Named(s, id).value].handler(arg, outCap)
  {
  }

  /** What a handle finds, the most-recent sentinel finds next; looking up changes what no handle names. */
  lemma GetRemembers(s: Store, id: int)
    requires Ok(s)
    ensures var (s', k) := Get(s, id);
            Named(s', 0xFFFF) == (if k.Some? then k else s.recent) &&
            forall i :: i != 0xFFFF ==> Named(s', i) == Named(s, i)
  {
  }

  /** SessUseSet on an existing session: it holds as much of the argument as its buffer takes, the rest of the
      buffer stays, and no other session, captured pointer or handle is touched. */
  lemma UseSetWrites(s: Store, id: int, arg: seq<byte>)
    requires Ok(s)
    ensures var (s', rc) := UseSet(s, id, arg);
            var k := Named(s, id);
            if k.None? then s' == s && rc == -1 else
            var b := s.sessions[k.value].buf;
            && rc == 0 && OnlySession(s, s', k.value) && s'.sessions[k.value].buf == b
            && Contents(s', k.value) == Take(arg, |s.bufs[b]|)
            && s'.bufs[b][|Contents(s', k.value)|..] == s.bufs[b][|Contents(s', k.value)|..]
  {
    if Named(s, id).Some? {
      SessionFacts(s, Named(s, id).value);
      hide Ok;
    }
  }

  /** SessClose frees the handle, once: every other handle, the most-recent sentinel among them, still names what
      it named, and the second close of the same handle is an error that changes nothing. */
  lemma CloseForgets(s: Store, id: int)
    requires Ok(s)
    ensures var (s', rc) := Close(s, id);
            Close(s', id) == (s', -1) &&
            if 0 <= id < 256 && Named(s, id).Some?
            then rc == 0 && Named(s', id).None? && (forall i :: i != id ==> Named(s', i) == Named(s, i))
                 && s'.count == s.count - 1
                 && s'.sessions == s.sessions && s'.bufs == s.bufs && s'.batch == s.batch
            else s' == s && rc == -1
  {
    assert |s.slots| == SESS_MAX && Ok(Close(s, id).0);
    hide Ok, InUse;
  }

  lemma UseAppendOnly(s: Store, id: int, arg: seq<byte>, realloc: Realloc)
    requires Ok(s)
    ensures Named(s, id).Some? ==> OnlySession(s, UseAppend(s, id, arg, realloc).0, Named(s, id).value)
  {
    hide Ok, Overlay, Rewritten, Grow;
  }

  /** A length within the buffer needs no growth, and one past 32 bits wraps to one within it. */
  lemma UseAppendRoom(s: Store, id: int, arg: seq<byte>, realloc: Realloc)
    requires Ok(s) && |arg| < U32_MOD && Named(s, id).Some?
    ensures var (s', rc) := UseAppend(s, id, arg, realloc);
            var k := Named(s, id).value;
            var was := Contents(s, k);
            var total := |was| + |arg|;
            && (total >= U32_MOD ==> rc == SESS_OK && Contents(s', k) == was[..Min(|was|, total - U32_MOD)])
            && (total <= |s.bufs[s.sessions[k].buf]| ==> rc == SESS_OK && Contents(s', k) == was + arg)
  {
    var k := Named(s, id).value;
    SessionFacts(s, k);
    hide Ok, Get, Fit, Overlay, OnlySession, Rewritten, Grow, AddU32;
    OverlayParts(s.bufs[s.sessions[k].buf], s.sessions[k].len, arg);
  }

  /** What a session holds once its buffer has grown to take `arg`. */
  lemma GrowWrites(s: Store, k: nat, arg: seq<byte>, grown: Grown)
    requires Ok(s) && k < |s.sessions|
    requires |s.bufs[s.sessions[k].buf]| < |Contents(s, k)| + |arg| < U32_MOD
    ensures var held, was := s.bufs[s.sessions[k].buf], Contents(s, k);
            var (s', rc) := Grow(s, k, arg, grown, |was| + |arg|);
            if grown.Refused? then rc == SESS_ERR && s' == s
            else rc == SESS_OK && Contents(s', k) == if grown.InPlace? then was + arg
                                                     else held + Fit(grown.fill, |was| + |arg| - |held|)
  {
    SessionFacts(s, k);
    hide Ok, OnlySession, Fit, Overlay, Rewritten, Relocated;
    var held, at := s.bufs[s.sessions[k].buf], s.sessions[k].len;
    if grown.InPlace? {
      OverlayParts(held + Fit(grown.fill, at + |arg| - |held|), at, arg);
    }
  }

  lemma UseAppendGrows(s: Store, id: int, arg: seq<byte>, realloc: Realloc)
    requires Ok(s) && Named(s, id).Some?
    requires var k := Named(s, id).value;
             |s.bufs[s.sessions[k].buf]| < |Contents(s, k)| + |arg| < U32_MOD
    ensures var k := Named(s, id).value;
            var total := |Contents(s, k)| + |arg|;
            UseAppend(s, id, arg, realloc) ==
            Grow(Get(s, id).0, k, arg, realloc(s.bufs[s.sessions[k].buf], total), total)
  {
    SessionFacts(s, Named(s, id).value);
    hide Ok, Get, OnlySession, Fit, Overlay, Rewritten, Grow, AddU32;
  }

  /** What a session of `was` bytes in the buffer `held` holds after SessUseAppend. */
  ghost function AfterAppend(held: seq<byte>, was: seq<byte>, arg: seq<byte>, grown: Grown): seq<byte> {
    var total := |was| + |arg|;
    if total >= U32_MOD then was[..Min(|was|, total - U32_MOD)]      // the 32-bit length wrapped
    else if total <= |held| || grown.InPlace? then was + arg
    else if grown.Moved? then held + Fit(grown.fill, total - |held|)
    else was
  }

  /** What SessUseAppend does in every case; no other session, captured pointer or handle is touched. */
  lemma UseAppendWrites(s: Store, id: int, arg: seq<byte>, realloc: Realloc)
    requires Ok(s) && |arg| < U32_MOD
    ensures var (s', rc) := UseAppend(s, id, arg, realloc);
            var k := Named(s, id);
            if k.None? then s' == s && rc == -1 else
            var held, was := s.bufs[s.sessions[k.value].buf], Contents(s, k.value);
            var total := |was| + |arg|;
            var grown := realloc(held, total);
            && OnlySession(s, s', k.value)
            && Contents(s', k.value) == AfterAppend(held, was, arg, grown)
            && rc == (if |held| < total < U32_MOD && grown.Refused? then -1 else 0)
  {
    hide Ok, OnlySession, Fit, Overlay, Rewritten, Relocated, Grow;
    if Named(s, id).Some? {
      var k := Named(s, id).value;
      assert Get(s, id).1 == Some(k);
      SessionFacts(s, k);
      var held, was := s.bufs[s.sessions[k].buf], Contents(s, k);
      UseAppendOnly(s, id, arg, realloc);
      if |held| < |was| + |arg| < U32_MOD {
        UseAppendGrows(s, id, arg, realloc);
        GrowWrites(Get(s, id).0, k, arg, realloc(held, |was| + |arg|));
      } else {
        UseAppendRoom(s, id, arg, realloc);
      }
      hide UseAppend;
    }
  }

  /** A refused growth only remembers the session.  A success has the true length while that fits in 32 bits, with
      the old contents in front; past 32 bits it is the old contents cut to what wrapped. */
  lemma UseAppendLengths(s: Store, id: int, arg: seq<byte>, realloc: Realloc)
    requires Ok(s) && Named(s, id).Some? && |arg| < U32_MOD
    ensures var (s', rc) := UseAppend(s, id, arg, realloc);
            var k := Named(s, id).value;
            var was := Contents(s, k);
            var total := |was| + |arg|;
            && OnlySession(s, s', k)
            && (rc != 0 ==> s' == s.(recent := Some(k)))
            && (rc == 0 && total < 0x1_0000_0000 ==> was <= Contents(s', k) && |Contents(s', k)| == total)
            && (total >= 0x1_0000_0000 ==> rc == 0 && Contents(s', k) == was[..total - 0x1_0000_0000])
  {
    var k := Named(s, id).value;
    SessionFacts(s, k);
    UseAppendWrites(s, id, arg, realloc);
    NamedIs(s, id);
    var held, was := s.bufs[s.sessions[k].buf], Contents(s, k);
    if |held| < |was| + |arg| < U32_MOD {
      UseAppendGrows(s, id, arg, realloc);
      GrowWrites(Get(s, id).0, k, arg, realloc(held, |was| + |arg|));
    }
    hide Ok, OnlySession, UseAppend, Get, Grow;
  }

  /** A block that was moved away from keeps the old contents and takes as much of the argument as it has room for. */
  lemma MovedLeaves(s: Store, id: int, arg: seq<byte>, realloc: Realloc)
    requires Ok(s) && Named(s, id).Some?
    requires var k := Named(s, id).value;
             |s.bufs[s.sessions[k].buf]| < |Contents(s, k)| + |arg| < U32_MOD &&
             realloc(s.bufs[s.sessions[k].buf], |Contents(s, k)| + |arg|).Moved?
    ensures var s' := UseAppend(s, id, arg, realloc).0;
            var k := Named(s, id).value;
            var held, was := s.bufs[s.sessions[k].buf], Contents(s, k);
            && |s'.bufs| == |s.bufs| + 1 && s'.bufs[s.sessions[k].buf] == was + arg[..|held| - |was|]
            && k < |s'.sessions| && s'.sessions[k].buf == |s.bufs|
  {
    var k := Named(s, id).value;
    SessionFacts(s, k);
    UseAppendGrows(s, id, arg, realloc);
    hide Ok, OnlySession, UseAppend, Fit;
  }

  /** It appends if and only if the length fits in 32 bits, the buffer has room or can be grown, and growing does
      not move it to a block that happens to hold something else where the argument should go. */
  lemma AppendsExactly(held: seq<byte>, was: seq<byte>, arg: seq<byte>, grown: Grown)
    requires was <= held && |was| < U32_MOD
    ensures AfterAppend(held, was, arg, grown) == was + arg <==>
            var total := |was| + |arg|;
            total < U32_MOD && (total <= |held| || grown.InPlace? ||
                                (grown.Moved? && (held + Fit(grown.fill, total - |held|))[|was|..] == arg))
  {
    var total := |was| + |arg|;
    if |held| < total && grown.Moved? {
      var d := held + Fit(grown.fill, total - |held|);
      assert d[..|was|] == was && d == was + d[|was|..];
      assert d == was + arg ==> d[|was|..] == arg;
    }
  }

  /** With this allocator, a SessUseAppend that reports success has appended. */
  ghost predicate AppendsUnder(s: Store, id: int, arg: seq<byte>, realloc: Realloc)
    requires Ok(s) && Named(s, id).Some?
  {
    var (s', rc) := UseAppend(s, id, arg, realloc);
    var k := Named(s, id).value;
    rc == SESS_OK ==> k < |s'.sessions| && Contents(s', k) == Contents(s, k) + arg
  }

  /** A caller can rely on an append, whatever the allocator does, if and only if the buffer has room for it. */
  lemma AppendsUnderEveryAllocator(s: Store, id: int, arg: seq<byte>)
    requires Ok(s) && Named(s, id).Some? && |arg| < U32_MOD
    ensures var k := Named(s, id).value;
            (forall realloc: Realloc :: AppendsUnder(s, id, arg, realloc)) <==>
            |Contents(s, k)| + |arg| <= |s.bufs[s.sessions[k].buf]|
  {
    var k := Named(s, id).value;
    SessionFacts(s, k);
    var held, was := s.bufs[s.sessions[k].buf], Contents(s, k);
    hide Ok, Get, UseAppend, Fit;
    if |was| + |arg| <= |held| {
      forall realloc: Realloc
        ensures AppendsUnder(s, id, arg, realloc)
      {
        UseAppendWrites(s, id, arg, realloc);
      }
    } else {
      var realloc := Spoiling(held, was, arg);
      UseAppendWrites(s, id, arg, realloc);
      assert !AppendsUnder(s, id, arg, realloc);
    }
  }

  /** An allocator that moves the block to one that holds something else where the argument should go. */
  lemma Spoiling(held: seq<byte>, was: seq<byte>, arg: seq<byte>) returns (realloc: Realloc)
    requires was <= held && |held| < U32_MOD && |held| < |was| + |arg| && |arg| < U32_MOD
    ensures realloc(held, |was| + |arg|).Moved?
    ensures AfterAppend(held, was, arg, realloc(held, |was| + |arg|)) != was + arg
  {
    var total := |was| + |arg|;
    var other: byte := if arg[|arg| - 1] == 0 then 1 else 0;
    var fill: seq<byte> := seq(total, _ => other);
    realloc := (b, n) => Moved(fill);
    if total < U32_MOD {
      assert (held + Fit(fill, total - |held|))[total - 1] == other != (was + arg)[total - 1];
    }
  }

  /** Such an append: a fresh store, one session with a full buffer of 32 bytes, and one byte more under a realloc
      that moves.  It reports success, and what the session holds ends in the new block's byte. */
  lemma MovedAppend(handler: HandlerFn)
    ensures Ok(FRESH)
    ensures var s := Open(FRESH, 0, Some(handler), seq(32, _ => 7)).0;
            var (s', rc) := UseAppend(s, 0xFFFF, [1], (b, n) => Moved([0]));
            rc == 0 && Named(s, 0xFFFF) == Some(0) && |s'.sessions| == 1 &&
            Contents(s, 0) == seq(32, _ => 7) && Contents(s', 0) == seq(32, _ => 7) + [0]
  {
    var init: seq<byte> := seq(32, _ => 7);
    hide Ok, Open, UseAppend, Get;
    OpenFull(handler, init);
    FullAppend(Open(FRESH, 0, Some(handler), init).0);
  }

  lemma OpenFull(handler: HandlerFn, init: seq<byte>)
    requires |init| == 32
    ensures Ok(FRESH)
    ensures var s := Open(FRESH, 0, Some(handler), init).0;
            Named(s, SESS_RECENT) == Some(0) && |s.sessions| == 1 && Contents(s, 0) == init == s.bufs[s.sessions[0].buf]
  {
    OpenAccepts(FRESH, 0, Some(handler), init);
    hide InUse;
  }

  lemma FullAppend(s: Store)
    requires Ok(s) && Named(s, SESS_RECENT) == Some(0) && |s.sessions| == 1
    requires Contents(s, 0) == s.bufs[s.sessions[0].buf] && |Contents(s, 0)| == 32
    ensures var (s', rc) := UseAppend(s, SESS_RECENT, [1], (b, n) => Moved([0]));
            rc == SESS_OK && |s'.sessions| == 1 && Contents(s', 0) == Contents(s, 0) + [0]
  {
    var realloc: Realloc := (b, n) => Moved([0]);
    UseAppendWrites(s, SESS_RECENT, [1], realloc);
    hide Ok, UseAppend, Get;
    assert Fit([0], 1) == [0];
  }

  /** SessDefer captures the session's buffer and length exactly when the session is there and fewer than 64 are
      captured; no session changes either way. */
  lemma DeferCaptures(s: Store, id: int)
    requires Ok(s)
    ensures var s' := Defer(s, id);
            var k := Named(s, id);
            s' == Get(s, id).0.(batch := if k.Some? && |s.batch| < 64
                                         then s.batch + [Deferred(s.sessions[k.value].buf, |Contents(s, k.value)|)]
                                         else s.batch)
  {
  }

  /** The greatest length captured for a buffer. */
  ghost function Captured(batch: seq<Deferred>, b: nat): nat
    decreases |batch|
  {
    if batch == [] then 0 else
    var before, d := Captured(batch[..|batch| - 1], b), batch[|batch| - 1];
    if d.buf == b then Max(before, d.len) else before
  }

  /** Of two copies of the same bytes the longer one shows. */
  lemma OverlayTwice(buf: seq<byte>, arg: seq<byte>, m: nat, n: nat)
    requires m <= |buf| && n <= |buf| && m <= |arg| && n <= |arg|
    ensures Overlay(arg[..m] + buf[m..], 0, arg[..n]) == var k := Max(m, n); arg[..k] + buf[k..]
  {
    if n <= m {
      assert arg[..n] + arg[n..m] == arg[..m];
      assert (arg[..m] + buf[m..])[n..] == arg[n..m] + buf[m..];
    } else {
      assert (arg[..m] + buf[m..])[n..] == buf[n..];
    }
  }

  /** However often and in whatever order buffers were captured, a flush leaves each with the argument up to the
      greatest length captured for it, and its own bytes after that. */
  lemma {:induction false} FlushWrites(bufs: seq<seq<byte>>, batch: seq<Deferred>, arg: seq<byte>, b: nat)
    requires forall k :: 0 <= k < |batch| ==> batch[k].buf < |bufs| && batch[k].len <= |bufs[batch[k].buf]|
    requires b < |bufs|
    ensures var n := Min(|arg|, Captured(batch, b));
            n <= |bufs[b]| && FlushBufs(bufs, batch, arg)[b] == arg[..n] + bufs[b][n..]
    decreases |batch|
  {
    hide Overlay;
    if batch != [] {
      var before, d := batch[..|batch| - 1], batch[|batch| - 1];
      FlushWrites(bufs, before, arg, b);
      if d.buf == b { OverlayTwice(bufs[b], arg, Min(|arg|, Captured(before, b)), Min(|arg|, d.len)); }
    }
  }

  /** The captured length is one that was captured, and none captured is longer. */
  lemma {:induction false} CapturedIsGreatest(batch: seq<Deferred>, b: nat)
    ensures forall d :: d in batch && d.buf == b ==> d.len <= Captured(batch, b)
    ensures Captured(batch, b) > 0 ==> Deferred(b, Captured(batch, b)) in batch
    decreases |batch|
  {
    if batch != [] {
      CapturedIsGreatest(batch[..|batch| - 1], b);
      assert batch == batch[..|batch| - 1] + [batch[|batch| - 1]];
    }
  }

  lemma SameCaptured(s: seq<Deferred>, t: seq<Deferred>, b: nat)
    requires forall d :: d in s <==> d in t
    ensures Captured(s, b) == Captured(t, b)
  {
    CapturedIsGreatest(s, b);
    CapturedIsGreatest(t, b);
  }

  /** Flushing depends on which pointers and lengths were captured, not on their order or repetition. */
  lemma FlushIgnoresOrder(s: Store, t: Store, arg: seq<byte>)
    requires Ok(s) && Ok(t) && t == s.(batch := t.batch)
    requires forall d :: d in s.batch <==> d in t.batch
    ensures Flush(s, arg) == Flush(t, arg)
  {
    hide Captured;
    forall b: nat | b < |s.bufs|
      ensures FlushBufs(s.bufs, s.batch, arg)[b] == FlushBufs(s.bufs, t.batch, arg)[b]
    {
      SameCaptured(s.batch, t.batch, b);
      FlushWrites(s.bufs, s.batch, arg, b);
      FlushWrites(s.bufs, t.batch, arg, b);
    }
    assert FlushBufs(s.bufs, s.batch, arg) == FlushBufs(s.bufs, t.batch, arg);
  }

  /** A capture with room is what the next flush writes to: the session then holds the argument as far as its length
      at the capture goes, and its own bytes after that. */
  lemma DeferThenFlush(s: Store, id: int, arg: seq<byte>)
    requires Ok(s) && Named(s, id).Some? && |s.batch| < 64
    ensures var s' := Flush(Defer(s, id), arg);
            var k := Named(s, id).value;
            var n := Min(|arg|, |Contents(s, k)|);
            s'.sessions == s.sessions && s'.batch == [] && Contents(s', k) == arg[..n] + Contents(s, k)[n..]
  {
    var k := Named(s, id).value;
    SessionFacts(s, k);
    var x := s.sessions[k];
    var d := Defer(s, id);
    assert d.batch == s.batch + [Deferred(x.buf, x.len)];
    hide Ok;
    CapturedIsGreatest(d.batch, x.buf);
    assert Deferred(x.buf, x.len) in d.batch;
    FlushWrites(s.bufs, d.batch, arg, x.buf);
    OverlayCut(s.bufs[x.buf], arg, Min(|arg|, Captured(d.batch, x.buf)), x.len);
  }

  lemma OverlayCut(buf: seq<byte>, arg: seq<byte>, m: nat, len: nat)
    requires m <= |arg| && m <= |buf| && len <= |buf| && (m == |arg| || len <= m)
    ensures var n := Min(|arg|, len);
            (arg[..m] + buf[m..])[..len] == arg[..n] + buf[..len][n..]
  {
  }
}
