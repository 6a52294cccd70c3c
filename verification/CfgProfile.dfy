/**
 The in-memory profile of cfgcore.c: a singly linked list of entries, the parser that builds it, and the
 heap blocks it owns.  Any allocation may fail.
 */
module CfgProfile {
  import opened Bytes
  import opened CfgFormat

  /** What an entry holds once parsed.  An integer entry keeps no value bytes. */
  datatype Entry = Entry(name: seq<byte>, kind: int, size: nat, value: Option<seq<byte>>)

  function EntryFrom(r: Raw): Entry {
    Entry(r.name, r.kind, |r.value|, if r.kind == CFG_INT then None else Some(r.value))
  }

  function EntriesFrom(rs: seq<Raw>): (es: seq<Entry>)
    ensures |es| == |rs| && forall i :: 0 <= i < |rs| ==> es[i] == EntryFrom(rs[i])
  {
    if rs == [] then [] else [EntryFrom(rs[0])] + EntriesFrom(rs[1..])
  }

  /** Entry by entry, in order: name, type and length as they were read, and the value bytes of every type but 3. */
  lemma ParsedEntries(rs: seq<Raw>, i: nat)
    requires i < |rs|
    ensures var es := EntriesFrom(rs);
            && |es| == |rs| && es[i].name == rs[i].name && es[i].kind == rs[i].kind && es[i].size == |rs[i].value|
            && es[i].value == if rs[i].kind == 3 then None else Some(rs[i].value)
  {
  }

  // ---- the heap ------------------------------------------------------------

  /** malloc and free: `live` is what is allocated, an allocation may fail, and only a live block may be freed. */
  class Heap {
    ghost var live: set<nat>
    ghost var failed: bool   // some allocation has failed
    var top: nat

    ghost predicate Valid()
      reads this
    {
      forall a :: a in live ==> a < top
    }

    constructor ()
      ensures Valid() && live == {} && !failed
    {
      live, failed, top := {}, false, 0;
    }

    method Alloc() returns (a: Option<nat>)
      requires Valid()
      modifies this
      ensures Valid()
      ensures failed == (old(failed) || a.None?)
      ensures a.None? ==> live == old(live)
      ensures a.Some? ==> a.value !in old(live) && live == old(live) + {a.value}
    {
      if * {
        failed := true;
        return None;
      }
      var x := MustAlloc();
      a := Some(x);
    }

    /** An allocation that is taken to succeed. */
    method MustAlloc() returns (a: nat)
      requires Valid()
      modifies this
      ensures Valid() && failed == old(failed)
      ensures a !in old(live) && live == old(live) + {a}
    {
      a := top;
      live, top := live + {top}, top + 1;
    }

    method Free(a: nat)
      requires Valid() && a in live
      modifies this
      ensures Valid() && live == old(live) - {a} && failed == old(failed)
    {
      live := live - {a};
    }
  }

  /** Beyond `base`, exactly the addresses `own` are live, each listed once. */
  ghost predicate Exact(live: set<nat>, base: set<nat>, own: seq<nat>) {
    && Distinct(own)
    && (forall i :: 0 <= i < |own| ==> own[i] !in base)
    && live == base + set a | a in own
  }

  /** The blocks of one entry. */
  datatype Blocks = Blocks(self: nat, name: nat, value: Option<nat>)

  /** The order in which free reaches them. */
  function AddressesOf(b: Blocks): seq<nat> {
    [b.name] + (match b.value { case None => [] case Some(v) => [v] }) + [b.self]
  }

  function Addresses(bs: seq<Blocks>): seq<nat> {
    if bs == [] then [] else AddressesOf(bs[0]) + Addresses(bs[1..])
  }

  lemma {:induction false} AddressesAppend(bs: seq<Blocks>, b: Blocks)
    ensures Addresses(bs + [b]) == Addresses(bs) + AddressesOf(b)
  {
    if bs == [] {
      assert bs + [b] == [b] && Addresses([b][1..]) == [];
      assert AddressesOf(b) + [] == AddressesOf(b);
    } else {
      AddressesAppend(bs[1..], b);
      assert (bs + [b])[1..] == bs[1..] + [b];
      ConcatAssoc(AddressesOf(bs[0]), Addresses(bs[1..]), AddressesOf(b));
    }
  }

  lemma ExactFront(live: set<nat>, base: set<nat>, a: nat, own: seq<nat>)
    requires Exact(live, base, [a] + own)
    ensures a in live && Exact(live - {a}, base, own)
  {
    var all := [a] + own;
    assert forall i :: 0 <= i < |own| ==> own[i] == all[i + 1];
    assert all[0] == a;
    assert a !in own;
    assert forall x :: x in all <==> x == a || x in own;
  }

  /** Blocks acquired on top of what is owned join it, wherever they are listed. */
  lemma ExactInsert(live: set<nat>, live': set<nat>, base: set<nat>, own: seq<nat>, more: seq<nat>, last: nat)
    requires Exact(live, base, own + [last]) && Exact(live', live, more)
    ensures Exact(live', base, own + more + [last])
  {
    var all, old' := own + more + [last], own + [last];
    assert forall x :: x in all <==> x in old' || x in more;
    forall i, j | 0 <= i < j < |all|
      ensures all[i] != all[j]
    {
      assert old'[|own|] == last;
      assert forall k :: 0 <= k < |own| ==> old'[k] == own[k];
      assert forall k :: 0 <= k < |old'| ==> old'[k] in old';
    }
  }

  // ---- entries and profiles ------------------------------------------------

  class CfgEntry {
    var name: seq<byte>
    var kind: int
    var size: nat
    var value: Option<seq<byte>>
    var ival: int            // set by the decoder of integer values; nothing is claimed about it
    var next: CfgEntry?
    var blocks: Blocks       // the addresses of the entry, its name and its value

    ghost predicate Holds(v: Entry, b: Blocks)
      reads `name, `kind, `size, `value, `blocks
    {
      v == Entry(name, kind, size, value) && blocks == b && (b.value.None? <==> value.None?)
    }

    constructor (v: Entry, b: Blocks)
      requires b.value.None? <==> v.value.None?
      ensures Holds(v, b) && next == null
    {
      name, kind, size, value := v.name, v.kind, v.size, v.value;
      ival := *;
      next := null;
      blocks := b;
    }
  }

  class CfgProfile {
    var head: CfgEntry?
    var count: nat
    var self: nat            // the address of the profile itself
    ghost var list: seq<CfgEntry>
    ghost var entries: seq<Entry>
    ghost var blocks: seq<Blocks>

    ghost predicate Chain()
      reads `head, `list, list`next
    {
      && Distinct(list)
      && head == (if list == [] then null else list[0])
      && (forall i {:trigger list[i].next} :: 0 <= i < |list| ==>
            list[i].next == if i + 1 < |list| then list[i + 1] else null)
    }

    ghost predicate Contents()
      reads `list, `entries, `blocks, list`name, list`kind, list`size, list`value, list`blocks
    {
      && |entries| == |list| && |blocks| == |list|
      && (forall i {:trigger list[i]} :: 0 <= i < |list| ==> list[i].Holds(entries[i], blocks[i]))
    }

    ghost predicate Valid()
      reads this, list
    {
      Chain() && Contents() && count == |list| % U32_MOD
    }

    /** Every block of the profile, in the order CfgFree releases them. */
    ghost function Own(): seq<nat>
      reads this
    {
      Addresses(blocks) + [self]
    }

    constructor (self: nat)
      ensures Valid() && list == [] && entries == [] && blocks == [] && this.self == self
    {
      head, count, list, entries, blocks := null, 0, [], [], [];
      this.self := self;
    }

    /** The links of append_entry: walk to the tail and put `e` there. */
    method LinkLast(e: CfgEntry)
      requires Chain() && e !in list && e.next == null
      modifies `head, `list, list`next
      ensures Chain() && list == old(list) + [e]
    {
      var t := head;
      if t == null {
        head := e;
      } else {
        ghost var k := 0;
        while t.next != null
          invariant 0 <= k < |list| && t == list[k]
          decreases |list| - k
        {
          t, k := t.next, k + 1;
        }
        t.next := e;
      }
      list := list + [e];
    }

    /** append_entry: the entry becomes the last of the list. */
    method AppendEntry(e: CfgEntry, ghost v: Entry, ghost b: Blocks)
      requires Valid() && e !in list && e.next == null && e.Holds(v, b)
      modifies this, list`next
      ensures Valid()
      ensures list == old(list) + [e] && entries == old(entries) + [v]
      ensures blocks == old(blocks) + [b] && self == old(self)
    {
      hide Chain;
      LinkLast(e);
      count := (count + 1) % U32_MOD;
      entries, blocks := entries + [v], blocks + [b];
    }
  }

  // ---- parsing -------------------------------------------------------------

  /** The checks of one iteration of the parse loop, in the source's order and in size_t arithmetic. */
  method ReadEntry(d: seq<byte>, off: nat, sizeMod: nat) returns (status: int, raw: Raw, next: nat)
    requires off <= |d| && |d| + MAX_VALUE < sizeMod
    ensures match EntryOf(d[off..])
            case Bad(s) => status == s
            case Got(r, rest) => status == CFG_OK && raw == r && next <= |d| && d[next..] == rest
  {
    raw, next := Raw([], 0, []), off;
    ghost var b := d[off..];
    if SizeAdd(next, 2, sizeMod) > |d| { return CFG_ETRUNC, raw, next; }
    var nl := U16At(d, next);
    next := next + 2;
    if nl > MAX_NAME { return CFG_ELIMIT, raw, next; }
    if SizeAdd(next, nl, sizeMod) > |d| { return CFG_ETRUNC, raw, next; }
    var name := d[next..next + nl];
    next := next + nl;
    if SizeAdd(next, 1, sizeMod) > |d| { return CFG_ETRUNC, raw, next; }
    var kind := d[next];
    next := next + 1;
    if SizeAdd(next, 4, sizeMod) > |d| { return CFG_ETRUNC, raw, next; }
    var vl := U32At(d, next);
    next := next + 4;
    assert U32At(b, 3 + nl) == vl;
    if vl > MAX_VALUE { return CFG_ELIMIT, raw, next; }
    if SizeAdd(next, vl, sizeMod) > |d| { return CFG_ETRUNC, raw, next; }
    raw := Raw(name, kind, d[next..next + vl]);
    next := next + vl;
    assert b[7 + nl + vl..] == d[next..];
    return CFG_OK, raw, next;
  }

  lemma ExactOne(base: set<nat>, a: nat)
    requires a !in base
    ensures Exact(base + {a}, base, [a])
  {
  }

  /** The allocations of one entry: the entry, its name and, unless it is an integer, its value.  When one
      fails, those before it are given back. */
  method BuildEntry(h: Heap, raw: Raw) returns (e: CfgEntry?)
    requires h.Valid()
    modifies h
    ensures h.Valid() && h.failed == (old(h.failed) || e == null)
    ensures e == null ==> h.live == old(h.live)
    ensures e != null ==> fresh(e) && e.next == null && e.Holds(EntryFrom(raw), e.blocks)
                          && Exact(h.live, old(h.live), AddressesOf(e.blocks))
  {
    var self := h.Alloc();
    if self.None? { return null; }
    var name := h.Alloc();
    if name.None? { h.Free(self.value); return null; }
    var value := None;
    if raw.kind != CFG_INT {
      value := h.Alloc();
      if value.None? { h.Free(name.value); h.Free(self.value); return null; }
    }
    var b := Blocks(self.value, name.value, value);
    e := new CfgEntry(EntryFrom(raw), b);
    assert AddressesOf(b) == if value.None? then [b.name, b.self] else [b.name, value.value, b.self];
  }

  /** CfgFree: every block of the profile is freed, and each is live when its turn comes. */
  method CfgFree(h: Heap, p: CfgProfile, ghost base: set<nat>)
    requires h.Valid() && p.Valid() && Exact(h.live, base, p.Own())
    modifies h
    ensures h.Valid() && h.live == base && h.failed == old(h.failed)
  {
    var e := p.head;
    ghost var k := 0;
    while e != null
      invariant k <= |p.list| && e == if k < |p.list| then p.list[k] else null
      invariant h.Valid() && h.failed == old(h.failed)
      invariant Exact(h.live, base, Addresses(p.blocks[k..]) + [p.self])
      decreases |p.list| - k
    {
      var n := e.next;
      assert e.Holds(p.entries[k], p.blocks[k]);
      FreeEntry(h, e.blocks, base, Addresses(p.blocks[k + 1..]) + [p.self]) by {
        var b := e.blocks;
        assert p.blocks[k..][1..] == p.blocks[k + 1..];
        ConcatAssoc(AddressesOf(b), Addresses(p.blocks[k + 1..]), [p.self]);
      }
      e, k := n, k + 1;
    }
    assert p.blocks[k..] == [] && Addresses([]) + [p.self] == [p.self] + [];
    ExactFront(h.live, base, p.self, []);
    h.Free(p.self);
  }

  /** Gives back an entry's name, its value when it has one, and the entry itself. */
  method FreeEntry(h: Heap, b: Blocks, ghost base: set<nat>, ghost rest: seq<nat>)
    requires h.Valid() && Exact(h.live, base, AddressesOf(b) + rest)
    modifies h
    ensures h.Valid() && Exact(h.live, base, rest) && h.failed == old(h.failed)
  {
    match b.value {
    case None =>
      assert AddressesOf(b) + rest == [b.name] + ([b.self] + rest);
      ExactFront(h.live, base, b.name, [b.self] + rest);
      h.Free(b.name);
    case Some(v) =>
      assert AddressesOf(b) + rest == [b.name] + ([v] + ([b.self] + rest));
      ExactFront(h.live, base, b.name, [v] + ([b.self] + rest));
      h.Free(b.name);
      ExactFront(h.live, base, v, [b.self] + rest);
      h.Free(v);
    }
    ExactFront(h.live, base, b.self, rest);
    h.Free(b.self);
  }

  /** What remains to be read, joined to what has been read, is what the whole buffer parses to. */
  ghost predicate Remaining(whole: Parsed, read: seq<Raw>, left: Parsed) {
    match left
    case Fail(s) => whole == Fail(s)
    case Done(es, rest) => whole == Done(read + es, rest)
  }

  lemma RemainingStep(whole: Parsed, read: seq<Raw>, b: seq<byte>, n: nat)
    requires n > 0 && Remaining(whole, read, EntriesOf(b, n))
    ensures match EntryOf(b)
            case Bad(s) => whole == Fail(s)
            case Got(raw, rest) => Remaining(whole, read + [raw], EntriesOf(rest, n - 1))
  {
    match EntryOf(b)
    case Bad(_) =>
    case Got(raw, rest) =>
      if EntriesOf(rest, n - 1).Done? {
        ConcatAssoc(read, [raw], EntriesOf(rest, n - 1).entries);
      }
  }

  lemma EntriesFromAppend(rs: seq<Raw>, r: Raw)
    ensures EntriesFrom(rs + [r]) == EntriesFrom(rs) + [EntryFrom(r)]
  {
  }

  /** Builds an entry and links it at the tail; when an allocation fails nothing has changed. */
  method AddEntry(h: Heap, p: CfgProfile, raw: Raw, ghost base: set<nat>) returns (ok: bool)
    requires h.Valid() && p.Valid() && Exact(h.live, base, p.Own())
    modifies h, p, p.list
    ensures h.Valid() && p.Valid() && Exact(h.live, base, p.Own()) && h.failed == (old(h.failed) || !ok)
    ensures ok ==> p.entries == old(p.entries) + [EntryFrom(raw)] && |p.list| == |old(p.list)| + 1
                   && p.list[..|old(p.list)|] == old(p.list) && fresh(p.list[|old(p.list)|])
    ensures !ok ==> p.list == old(p.list) && p.entries == old(p.entries) && h.live == old(h.live)
  {
    hide Exact, CfgProfile.Chain, CfgProfile.Contents;
    ghost var live := h.live;
    var e := BuildEntry(h, raw);
    if e == null { return false; }
    ExactInsert(live, h.live, base, Addresses(p.blocks), AddressesOf(e.blocks), p.self);
    AddressesAppend(p.blocks, e.blocks);
    p.AppendEntry(e, EntryFrom(raw), e.blocks);
    return true;
  }

  /** CfgParseBlob.  On success the profile holds what the bytes say and owns exactly the blocks that are
      newly live; on any failure, including one of allocation, every block has been given back and `*out`
      is as it was.  No sum of offsets wraps as long as `len` leaves room for one value below the top of
      size_t. */
  method CfgParseBlob(h: Heap, d: seq<byte>, out0: CfgProfile?, sizeMod: nat) returns (status: int, out: CfgProfile?)
    requires h.Valid() && |d| + MAX_VALUE < sizeMod
    modifies h
    ensures h.Valid() && h.failed == (old(h.failed) || status == -5)
    ensures status == 0 ==>
      BundleOf(d).Done? && out != null && fresh(out) && fresh(out.list) && out.Valid()
      && out.entries == EntriesFrom(BundleOf(d).entries) && out.count == U32At(d, 8)
      && Exact(h.live, old(h.live), out.Own())
    ensures status != 0 ==> out == out0 && h.live == old(h.live)
    ensures status != 0 && status != -5 ==> BundleOf(d) == Fail(status)
  {
    hide EntriesOf, EntryOf, Exact, CfgProfile.Chain, CfgProfile.Contents, U16At, U32At, Remaining;
    out := out0;
    status := CFG_OK;
    if |d| < HEADER_SIZE { return CFG_ETRUNC, out; }
    if d[..4] != MAGIC { return CFG_EBADMAGIC, out; }
    if U16At(d, 4) != CPROF_VERSION { return CFG_EVERSION, out; }
    var count := U32At(d, 8);
    if count > MAX_ENTRIES { return CFG_ELIMIT, out; }
    var self := h.Alloc();
    if self.None? { return CFG_ENOMEM, out; }
    var p := new CfgProfile(self.value);
    ghost var base := old(h.live);
    ExactOne(base, self.value);
    assert p.Own() == [self.value];
    var off: nat := HEADER_SIZE;
    ghost var read := [];
    assert Remaining(BundleOf(d), read, EntriesOf(d[off..], count)) by { RemainingAll(EntriesOf(d[off..], count)); }
    for i := 0 to count
      invariant status == CFG_OK && h.Valid() && h.failed == old(h.failed)
      invariant fresh(p) && p.Valid() && fresh(p.list) && |p.list| == i
      invariant off <= |d| && Remaining(BundleOf(d), read, EntriesOf(d[off..], count - i))
      invariant p.entries == EntriesFrom(read)
      invariant Exact(h.live, base, p.Own())
    {
      RemainingStep(BundleOf(d), read, d[off..], count - i);
      var raw;
      status, raw, off := ReadEntry(d, off, sizeMod);
      if status != CFG_OK {
        CfgFree(h, p, base);
        return;
      }
      var ok := AddEntry(h, p, raw, base);
      if !ok {
        CfgFree(h, p, base);
        return CFG_ENOMEM, out;
      }
      EntriesFromAppend(read, raw);
      read := read + [raw];
    }
    RemainingDone(BundleOf(d), read, d[off..]);
    out := p;
  }

  lemma RemainingDone(whole: Parsed, read: seq<Raw>, b: seq<byte>)
    requires Remaining(whole, read, EntriesOf(b, 0))
    ensures whole == Done(read, b)
  {
    assert read + [] == read;
  }

  lemma RemainingAll(whole: Parsed)
    ensures Remaining(whole, [], whole)
  {
    if whole.Done? { assert [] + whole.entries == whole.entries; }
  }
}
