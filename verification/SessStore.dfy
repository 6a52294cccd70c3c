/**
 sesscore.c with its pointers: session objects that own a data block each, the handle table, the most-recent
 reference and the deferred batch, which keep pointers to the same objects.  Each method is tied to the function
 of the same name in SessModel through the ghost field `model`, whose indices are positions in `arena` and `blocks`.
 */
module SessStore {
  import opened Bytes
  import opened SessModel

  /** A heap block; a pointer to it stays a pointer to it when it grows in place. */
  class Block {
    var bytes: seq<byte>

    constructor (bytes: seq<byte>)
      ensures this.bytes == bytes
    {
      this.bytes := bytes;
    }
  }

  class Session {
    const id: nat
    const kind: int
    const handler: HandlerFn
    var data: Block
    var len: nat
    var cap: nat

    ghost predicate Holds(v: SessionValue, blocks: seq<Block>, bufs: seq<seq<byte>>)
      reads this
    {
      && id == v.id && kind == v.kind && handler == v.handler && len == v.len
      && v.buf < |blocks| == |bufs| && data == blocks[v.buf] && cap == |bufs[v.buf]|
    }

    constructor (id: nat, kind: int, handler: HandlerFn, data: Block, len: nat, cap: nat)
      ensures this.id == id && this.kind == kind && this.handler == handler
      ensures this.data == data && this.len == len && this.cap == cap
    {
      this.id, this.kind, this.handler := id, kind, handler;
      this.data, this.len, this.cap := data, len, cap;
    }
  }

  /** The store after realloc has given session `k` a block of `need` bytes. */
  ghost function Reallocated(s: Store, k: nat, grown: Grown, need: nat): Store
    requires Ok(s) && k < |s.sessions| && |s.bufs[s.sessions[k].buf]| < need
  {
    SessionFacts(s, k);
    var b := s.sessions[k].buf;
    var held := s.bufs[b];
    match grown
    case Refused => s
    case InPlace(fill) => s.(bufs := s.bufs[b := held + Fit(fill, need - |held|)])
    case Moved(fill) => s.(bufs := s.bufs + [held + Fit(fill, need - |held|)],
                           sessions := s.sessions[k := s.sessions[k].(buf := |s.bufs|)])
  }

  lemma RefusedIs(s: Store, k: nat, need: nat, arg: seq<byte>)
    requires Ok(s) && k < |s.sessions| && |s.bufs[s.sessions[k].buf]| < need < U32_MOD
    ensures Reallocated(s, k, Refused, need) == s && Grow(s, k, arg, Refused, need) == (s, SESS_ERR)
  {
  }

  /** Growing, then copying through the old pointer, then setting the length. */
  lemma GrowIs(s: Store, k: nat, arg: seq<byte>, grown: Grown, need: nat)
    requires Ok(s) && k < |s.sessions| && |s.bufs[s.sessions[k].buf]| < need < U32_MOD && !grown.Refused?
    ensures var x := s.sessions[k];
            var m := Reallocated(s, k, grown, need);
            && k < |m.sessions| && x.buf < |m.bufs| && x.len <= |m.bufs[x.buf]|
            && Grow(s, k, arg, grown, need) ==
               (m.(bufs := m.bufs[x.buf := Overlay(m.bufs[x.buf], x.len, arg)],
                   sessions := m.sessions[k := m.sessions[k].(len := need)]), SESS_OK)
  {
    SessionFacts(s, k);
    hide Ok, Fit, Overlay;
    var x := s.sessions[k];
    var m := Reallocated(s, k, grown, need);
    var o := Overlay(m.bufs[x.buf], x.len, arg);
    UpdateTwice(s.bufs, x.buf, m.bufs[x.buf], o);
    UpdateTwice(s.sessions, k, m.sessions[k], m.sessions[k].(len := need));
    UpdateAppend(s.bufs, x.buf, o, m.bufs[|m.bufs| - 1]);
  }

  class SessTable {
    const slots: array<Session?>
    var count: int
    var recent: Session?              // g_recent
    const batchData: array<Block?>    // g_batch
    const batchLen: array<nat>
    var batchN: nat
    const realloc: Realloc
    ghost var arena: seq<Session>     // every session ever opened
    ghost var blocks: seq<Block>      // every data block ever allocated
    ghost var owned: set<Session>
    ghost var memory: set<Block>
    ghost var model: Store

    // ---- representation ----------------------------------------------------

    ghost predicate Blocks(bufs: seq<seq<byte>>)
      reads `blocks, `memory, blocks
    {
      && |blocks| == |bufs| && Distinct(blocks)
      && forall b: nat {:trigger blocks[b]} :: b < |bufs| ==> blocks[b] in memory && blocks[b].bytes == bufs[b]
    }

    ghost predicate Sessions(xs: seq<SessionValue>, bufs: seq<seq<byte>>)
      reads `arena, `owned, `blocks, arena
    {
      && |arena| == |xs| && Distinct(arena)
      && forall k: nat {:trigger arena[k]} :: k < |xs| ==> arena[k] in owned && arena[k].Holds(xs[k], blocks, bufs)
    }

    /** The session a model reference stands for. */
    ghost function Ref(k: Option<nat>): Session?
      reads `arena
    {
      if k.Some? && k.value < |arena| then arena[k.value] else null
    }

    ghost predicate Handles(handles: seq<Option<nat>>)
      reads `arena, slots
    {
      && slots.Length == |handles| == SESS_MAX
      && forall i: nat {:trigger slots[i]} :: i < SESS_MAX ==> slots[i] == Ref(handles[i])
    }

    ghost predicate Batch(batch: seq<Deferred>)
      reads `blocks, `batchN, batchData, batchLen
    {
      && batchData.Length == batchLen.Length == DEFER_MAX && batchN == |batch| <= DEFER_MAX
      && forall i :: 0 <= i < |batch| ==>
           batch[i].buf < |blocks| && batchData[i] == blocks[batch[i].buf] && batchLen[i] == batch[i].len
    }

    /** Every pointer is to what the store `m` says. */
    ghost predicate Tied(m: Store)
      reads `recent, `count, `batchN, slots, batchData, batchLen
      reads `arena, `owned, arena, `blocks, `memory, blocks
    {
      && Blocks(m.bufs) && Sessions(m.sessions, m.bufs) && Handles(m.slots) && Batch(m.batch)
      && recent == Ref(m.recent) && count == m.count
    }

    ghost predicate Valid()
      reads this, slots, batchData, batchLen, arena, blocks
    {
      Ok(model) && Tied(model)
    }

    constructor (realloc: Realloc)
      ensures Valid() && model == FRESH && this.realloc == realloc
      ensures owned == {} && memory == {} && fresh(slots) && fresh(batchData) && fresh(batchLen)
    {
      this.realloc := realloc;
      slots := new Session?[SESS_MAX](_ => null);
      batchData := new Block?[DEFER_MAX](_ => null);
      batchLen := new nat[DEFER_MAX](_ => 0);
      count, recent, batchN := 0, null, 0;
      arena, blocks, owned, memory, model := [], [], {}, {}, FRESH;
    }

    lemma SlotHolds(i: nat)
      requires Valid() && i < SESS_MAX
      ensures slots.Length == SESS_MAX == |model.slots| && (slots[i] != null <==> model.slots[i].Some?)
      ensures slots[i] != null ==> slots[i].id == i && slots[i] in arena
    {
      if model.slots[i].Some? { assert arena[model.slots[i].value] in arena; }
    }

    lemma BlockOf(k: nat)
      requires Valid() && k < |arena|
      ensures k < |model.sessions| && model.sessions[k].buf < |blocks| && arena[k].data == blocks[model.sessions[k].buf]
      ensures arena[k].len <= arena[k].cap == |arena[k].data.bytes|
    {
    }

    /** The store invariant, read off the pointers: every session in the handle table has its handle as id and
        `count` counts them; no session is longer than its block and no two share one; every captured pointer is
        to a block at least as long as the length captured with it. */
    lemma TableInvariant()
      requires Valid()
      ensures slots.Length == 256 && count == |set i | 0 <= i < 256 && slots[i] != null|
      ensures forall i :: 0 <= i < 256 && slots[i] != null ==> slots[i].id == i && slots[i] in arena
      ensures recent != null ==> recent in arena
      ensures forall k :: 0 <= k < |arena| ==> arena[k].len <= arena[k].cap == |arena[k].data.bytes|
      ensures forall i, j :: 0 <= i < j < |arena| ==> arena[i].data != arena[j].data
      ensures batchN <= 64 == batchData.Length == batchLen.Length
      ensures forall i :: 0 <= i < batchN ==> batchData[i] != null && batchLen[i] <= |batchData[i].bytes|
    {
      assert recent != null ==> recent in arena;
      BatchBounds();
      ghost var xs := model.sessions;
      assert forall i, j :: 0 <= i < j < |xs| ==> xs[i].buf != xs[j].buf;
      assert Distinct(blocks) && model.count == |InUse(model.slots)| && count == model.count;
      hide Ok, Blocks, Sessions, Handles, Batch, Session.Holds;
      forall i: nat | i < SESS_MAX
        ensures slots.Length == SESS_MAX == |model.slots| && (slots[i] != null <==> model.slots[i].Some?)
        ensures slots[i] != null ==> slots[i].id == i && slots[i] in arena
      {
        SlotHolds(i);
      }
      SlotHolds(0);
      assert (set i | 0 <= i < SESS_MAX && slots[i] != null) == InUse(model.slots);
      forall k: nat | k < |arena|
        ensures k < |xs| && xs[k].buf < |blocks| && arena[k].data == blocks[xs[k].buf]
        ensures arena[k].len <= arena[k].cap == |arena[k].data.bytes|
      {
        BlockOf(k);
      }
    }

    lemma BatchBounds()
      requires Valid()
      ensures batchN <= DEFER_MAX == batchData.Length == batchLen.Length
      ensures forall i :: 0 <= i < batchN ==> batchData[i] != null && batchLen[i] <= |batchData[i].bytes|
    {
    }

    /** A slot is NULL exactly when the model's handle is free. */
    lemma SlotsAre()
      requires Valid()
      ensures slots.Length == SESS_MAX == |model.slots|
      ensures forall i: nat {:trigger slots[i]} :: i < SESS_MAX ==>
        (slots[i] == null <==> model.slots[i].None?) && slots[i] == Ref(model.slots[i])
    {
    }

    ghost predicate InRange(m: Store) {
      && (forall i :: 0 <= i < |m.slots| && m.slots[i].Some? ==> m.slots[i].value < |m.sessions|)
      && (m.recent.Some? ==> m.recent.value < |m.sessions|)
    }

    lemma RefsInRange(m: Store)
      requires Ok(m)
      ensures InRange(m)
    {
    }

    method Malloc(bytes: seq<byte>, ghost m: Store) returns (block: Block)
      requires Tied(m)
      modifies `blocks, `memory
      ensures Tied(m.(bufs := m.bufs + [bytes])) && fresh(block) && block.bytes == bytes
      ensures |m.bufs| == |old(blocks)| && blocks == old(blocks) + [block] && memory == old(memory) + {block}
    {
      block := new Block(bytes);
      blocks, memory := blocks + [block], memory + {block};
    }

    ghost method AddSession(s: Session, v: SessionValue, m: Store)
      requires Tied(m) && InRange(m) && s !in arena && s.Holds(v, blocks, m.bufs)
      modifies `arena, `owned
      ensures Tied(m.(sessions := m.sessions + [v])) && Ref(Some(|m.sessions|)) == s
      ensures arena == old(arena) + [s] && owned == old(owned) + {s}
    {
      arena, owned := arena + [s], owned + {s};
    }

    /** Puts a session of the arena into the handle table and makes it the most recent. */
    method Publish(id: nat, s: Session, ghost k: nat, ghost m: Store)
      requires Tied(m) && id < SESS_MAX && Ref(Some(k)) == s
      modifies slots, `count, `recent
      ensures Tied(m.(slots := m.slots[id := Some(k)], recent := Some(k), count := m.count + 1))
    {
      slots[id] := s;
      count := count + 1;
      recent := s;
    }

    method SessOpen(kind: int, handler: Option<HandlerFn>, init: seq<byte>) returns (r: int)
      requires Valid()
      modifies this, slots
      ensures Valid() && fresh(owned - old(owned)) && fresh(memory - old(memory))
      ensures (model, r) == Open(old(model), kind, handler, init)
    {
      hide Ok, Tied, Fit, InUse;
      if handler.None? { return SESS_ERR; }
      SlotsAre();
      var id := -1;
      for i := 0 to SESS_MAX
        invariant id == -1 && FreeFrom(model.slots, 0) == FreeFrom(model.slots, i)
      {
        if slots[i] == null {
          id := i;
          break;
        }
      }
      if id < 0 { return SESS_ERR; }
      Install(id, kind, handler.value, Take(init, SESS_MAX_DATA));
      model := Open(old(model), kind, handler, init).0;
      return id;
    }

    /** The two allocations of SessOpen. */
    method Create(id: nat, kind: int, handler: HandlerFn, data: seq<byte>, ghost m: Store) returns (s: Session)
      requires Tied(m)
      modifies `blocks, `memory
      ensures Tied(m.(bufs := m.bufs + [Fit(data, Max(32, |data|))])) && arena == old(arena)
      ensures fresh(s) && fresh(memory - old(memory))
      ensures s.Holds(SessionValue(id, kind, handler, |m.bufs|, |data|), blocks, m.bufs + [Fit(data, Max(32, |data|))])
    {
      hide Tied, Fit;
      var cap := if |data| < 32 then 32 else |data|;
      var block := Malloc(Fit(data, cap), m);
      s := new Session(id, kind, handler, block, |data|, cap);
    }

    /** SessOpen once it has found a free handle. */
    method Install(id: nat, kind: int, handler: HandlerFn, data: seq<byte>)
      requires Valid() && id < SESS_MAX
      modifies this, slots
      ensures fresh(owned - old(owned)) && fresh(memory - old(memory)) && model == old(model)
      ensures Tied(Installed(model, id, kind, handler, data))
    {
      hide Ok, Tied, InRange, Fit;
      RefsInRange(model);
      var s := Create(id, kind, handler, data, model);
      ghost var v := SessionValue(id, kind, handler, |model.bufs|, |data|);
      ghost var m := model.(bufs := model.bufs + [Fit(data, Max(32, |data|))]);
      AddSession(s, v, m);
      Publish(id, s, |m.sessions|, m.(sessions := m.sessions + [v]));
    }

    /** SessGet: the most-recent session for 0xFFFF, the session in slot `id` for an id below 256, NULL for any
        other; whichever it is, it becomes the most recent. */
    method SessGet(id: int) returns (s: Session?)
      requires Valid()
      modifies `recent, `model
      ensures slots.Length == 256
      ensures s == if id == 0xFFFF then old(recent) else if 0 <= id < 256 then slots[id] else null
      ensures recent == if s == null then old(recent) else s
      ensures Valid() && model == Get(old(model), id).0
      ensures s == Ref(Named(old(model), id)) && (s == null <==> Named(old(model), id).None?)
    {
      SlotsAre();
      model := Get(model, id).0;
      if id == SESS_RECENT { return recent; }
      if id < 0 || id >= SESS_MAX { return null; }
      s := slots[id];
      if s != null { recent := s; }
    }

    /** A non-NULL session reference, seen from both sides. */
    lemma SessionAt(k: nat)
      requires Valid() && Ref(Some(k)) != null
      ensures k < |model.sessions| == |arena| && Ref(Some(k)) == arena[k] && arena[k] in owned
      ensures arena[k].Holds(model.sessions[k], blocks, model.bufs)
      ensures model.sessions[k].buf < |blocks| && arena[k].data in memory
      ensures arena[k].data.bytes == model.bufs[model.sessions[k].buf] && arena[k].len <= arena[k].cap
    {
      SessionFacts(model, k);
    }

    /** Copies `arg` into a block, as far as the block reaches. */
    method Memcpy(block: Block, at: nat, arg: seq<byte>, ghost b: nat, ghost m: Store)
      requires Tied(m) && b < |blocks| && block == blocks[b] && at <= |block.bytes|
      modifies block
      ensures b < |m.bufs| && at <= |m.bufs[b]| && Tied(m.(bufs := m.bufs[b := Overlay(m.bufs[b], at, arg)]))
    {
      block.bytes := Overlay(block.bytes, at, arg);
    }

    /** Copies `arg` through a pointer and sets the length of session `k`. */
    method Write(s: Session, block: Block, at: nat, arg: seq<byte>, len: nat,
                 ghost b: nat, ghost k: nat, ghost m: Store)
      requires Tied(m) && b < |blocks| && block == blocks[b] && at <= |block.bytes|
      requires k < |arena| && s == arena[k]
      modifies block, s`len
      ensures b < |m.bufs| && at <= |m.bufs[b]| && k < |m.sessions|
      ensures Tied(m.(bufs := m.bufs[b := Overlay(m.bufs[b], at, arg)],
                      sessions := m.sessions[k := m.sessions[k].(len := len)]))
    {
      hide Overlay;
      Memcpy(block, at, arg, b, m);
      s.len := len;
    }

    method SessUseRun(id: int, arg: seq<byte>, outCap: nat) returns (r: Outcome)
      requires Valid()
      modifies `recent, `model
      ensures Valid() && (model, r) == UseRun(old(model), id, arg, outCap)
    {
      var s := SessGet(id);
      if s == null { return Outcome(SESS_ERR, []); }
      SessionAt(Named(old(model), id).value);
      r := s.handler(arg, outCap);
    }

    method SessUseSet(id: int, arg: seq<byte>) returns (r: int)
      requires Valid()
      modifies this, owned, memory
      ensures Valid() && owned == old(owned) && memory == old(memory)
      ensures (model, r) == UseSet(old(model), id, arg)
    {
      hide Ok, Tied, Overlay;
      var s := SessGet(id);
      if s == null { return SESS_ERR; }
      ghost var m, k := model, Named(old(model), id).value;
      SessionAt(k);
      var n := if |arg| < s.cap then |arg| else s.cap;
      Write(s, s.data, 0, arg[..n], n, m.sessions[k].buf, k, m);
      model := UseSet(old(model), id, arg).0;
      return SESS_OK;
    }

    /** realloc that grows the block of session `k` where it is: only that session sees it. */
    method GrowInPlace(s: Session, bytes: seq<byte>, ghost k: nat, ghost m: Store)
      requires Tied(m) && Ok(m) && k < |arena| && s == arena[k]
      modifies s`cap, s.data
      ensures s.data.bytes == bytes && k < |m.sessions| && m.sessions[k].buf < |m.bufs|
      ensures Tied(m.(bufs := m.bufs[m.sessions[k].buf := bytes]))
    {
      SessionFacts(m, k);
      hide Ok;
      s.data.bytes := bytes;
      s.cap := |bytes|;
    }

    /** realloc that moves session `k` to another block. */
    method Move(s: Session, block: Block, ghost b: nat, ghost k: nat, ghost m: Store)
      requires Tied(m) && k < |arena| && s == arena[k] && b < |blocks| && block == blocks[b]
      modifies s`data, s`cap
      ensures k < |m.sessions| && Tied(m.(sessions := m.sessions[k := m.sessions[k].(buf := b)]))
    {
      s.data := block;
      s.cap := |block.bytes|;
    }

    /** realloc of session `k`'s block to `need` bytes; the old pointer stays what it was. */
    method Reallocate(s: Session, need: nat, ghost k: nat, ghost m: Store) returns (g: Grown)
      requires Tied(m) && Ok(m) && k < |arena| && s == arena[k]
      requires k < |m.sessions| && m.sessions[k].buf < |m.bufs| && s.data.bytes == m.bufs[m.sessions[k].buf]
      requires s.data in memory && |s.data.bytes| < need
      modifies `blocks, `memory, s, s.data
      ensures g == realloc(m.bufs[m.sessions[k].buf], need) && Tied(Reallocated(m, k, g, need))
      ensures fresh(memory - old(memory)) && s.len == old(s.len) && old(blocks) <= blocks && arena == old(arena)
      ensures m.sessions[k].buf < |Reallocated(m, k, g, need).bufs|
      ensures old(s.data).bytes == Reallocated(m, k, g, need).bufs[m.sessions[k].buf]
    {
      hide Ok, Tied, Fit;
      g := realloc(s.data.bytes, need);
      if g.Refused? { return; }
      var bytes := s.data.bytes + Fit(g.fill, need - |s.data.bytes|);
      if g.InPlace? {
        GrowInPlace(s, bytes, k, m);
      } else {
        var block := Malloc(bytes, m);
        Move(s, block, |m.bufs|, k, m.(bufs := m.bufs + [bytes]));
      }
    }

    method SessUseAppend(id: int, arg: seq<byte>) returns (r: int)
      requires Valid()
      modifies this, owned, memory
      ensures Valid() && owned == old(owned) && fresh(memory - old(memory))
      ensures (model, r) == UseAppend(old(model), id, arg, realloc)
    {
      hide Ok, Tied, Overlay, Fit, AddU32, Grow, Reallocated;
      var s := SessGet(id);
      if s == null { return SESS_ERR; }
      ghost var m, k := model, Named(old(model), id).value;
      SessionAt(k);
      ghost var b := m.sessions[k].buf;
      var saved := s.data;
      var need := AddU32(s.len, |arg|);
      if need > s.cap {
        var g := Reallocate(s, need, k, m);
        if g.Refused? {
          RefusedIs(m, k, need, arg);
          return SESS_ERR;
        }
        GrowIs(m, k, arg, g, need);
        m := Reallocated(m, k, g, need);
      }
      Write(s, saved, s.len, arg, need, b, k, m);   // through the pointer saved before any growth
      model := UseAppend(old(model), id, arg, realloc).0;
      return SESS_OK;
    }

    method SessClose(id: int) returns (r: int)
      requires Valid()
      modifies this, slots
      ensures Valid() && owned == old(owned) && memory == old(memory)
      ensures (model, r) == Close(old(model), id)
    {
      hide Ok;
      SlotsAre();
      if id < 0 || id >= SESS_MAX || slots[id] == null { return SESS_ERR; }
      slots[id] := null;
      count := count - 1;
      model := Close(model, id).0;
      return SESS_OK;
    }

    /** Appends to the batch. */
    method Capture(block: Block, len: nat, ghost b: nat, ghost m: Store)
      requires Tied(m) && batchN < DEFER_MAX && b < |blocks| && block == blocks[b]
      modifies `batchN, batchData, batchLen
      ensures Tied(m.(batch := m.batch + [Deferred(b, len)])) && batchN == old(batchN) + 1
    {
      batchData[batchN] := block;
      batchLen[batchN] := len;
      batchN := batchN + 1;
    }

    method SessDefer(id: int)
      requires Valid()
      modifies this, batchData, batchLen
      ensures Valid() && owned == old(owned) && memory == old(memory)
      ensures model == Defer(old(model), id)
    {
      hide Ok, Tied;
      var s := SessGet(id);
      BatchSize();
      if s == null || batchN >= DEFER_MAX { return; }
      SessionAt(Named(old(model), id).value);
      Capture(s.data, s.len, model.sessions[Named(old(model), id).value].buf, model);
      model := Defer(old(model), id);
    }

    lemma BatchSize()
      requires Valid()
      ensures batchN == |model.batch|
    {
    }

    /** What the batch captured at position `i`. */
    lemma BatchAt(i: nat, m: Store)
      requires Tied(m) && i < batchN
      ensures batchData.Length == batchLen.Length == DEFER_MAX && batchN == |m.batch| <= DEFER_MAX
      ensures m.batch[i].buf < |blocks| && batchData[i] == blocks[m.batch[i].buf]
      ensures batchLen[i] == m.batch[i].len && batchData[i] in memory
    {
    }

    /** Writes through every captured pointer, oldest first. */
    method SessFlush(arg: seq<byte>)
      requires Valid()
      modifies this, memory
      ensures Valid() && owned == old(owned) && memory == old(memory)
      ensures model == Flush(old(model), arg)
    {
      hide Ok, Tied, Overlay;
      BatchSize();
      BatchInRange(model);
      ghost var bufs, batch := model.bufs, model.batch;
      for i := 0 to batchN
        invariant batchN == |batch| && blocks == old(blocks) && memory == old(memory) && owned == old(owned)
        invariant model == old(model)
        invariant Tied(model.(bufs := FlushBufs(bufs, batch[..i], arg)))
      {
        ghost var m := model.(bufs := FlushBufs(bufs, batch[..i], arg));
        BatchAt(i, m);
        var n := if |arg| < batchLen[i] then |arg| else batchLen[i];
        assert batch[..i + 1][..i] == batch[..i];
        Memcpy(batchData[i], 0, arg[..n], batch[i].buf, m);
      }
      assert batch[..|batch|] == batch;
      Forget(model.(bufs := FlushBufs(bufs, batch, arg)));
      model := Flush(model, arg);
    }

    /** Empties the batch. */
    method Forget(ghost m: Store)
      requires Tied(m)
      modifies `batchN
      ensures Tied(m.(batch := []))
    {
      batchN := 0;
    }

    lemma BatchInRange(m: Store)
      requires Ok(m)
      ensures forall k :: 0 <= k < |m.batch| ==> m.batch[k].buf < |m.bufs|
    {
    }
  }
}
