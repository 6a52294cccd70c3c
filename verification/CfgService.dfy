/** cfgsvcd.c: the live store, grown by one merge for every accepted push. */
module CfgService {
  import opened Bytes
  import opened CfgFormat
  import opened CfgProfile
  import opened CfgTemplate

  // ---- push histories ------------------------------------------------------

  /** What CfgMerge copies: strdup keeps a name only up to its first NUL. */
  function Copy(e: Entry): Entry {
    e.(name := CStr(e.name))
  }

  function Copies(es: seq<Entry>): (r: seq<Entry>)
    ensures |r| == |es| && forall i :: 0 <= i < |es| ==> r[i] == Copy(es[i])
  {
    if es == [] then [] else [Copy(es[0])] + Copies(es[1..])
  }

  /** What one push adds to the store: the entries of an accepted bundle, nothing otherwise. */
  function Pushed(d: seq<byte>): seq<Entry> {
    match BundleOf(d)
    case Done(raws, _) => Copies(EntriesFrom(raws))
    case Fail(_) => []
  }

  function PushAll(es: seq<Entry>, pushes: seq<seq<byte>>): seq<Entry>
    decreases |pushes|
  {
    if pushes == [] then es else PushAll(es + Pushed(pushes[0]), pushes[1..])
  }

  function AllPushed(pushes: seq<seq<byte>>): seq<Entry> {
    if pushes == [] then [] else Pushed(pushes[0]) + AllPushed(pushes[1..])
  }

  /** The live store is the concatenation, in order, of all accepted pushes. */
  lemma {:induction false} StoreIsConcatenation(es: seq<Entry>, pushes: seq<seq<byte>>)
    ensures PushAll(es, pushes) == es + AllPushed(pushes)
    decreases |pushes|
  {
    if pushes == [] {
      assert es + [] == es;
    } else {
      StoreIsConcatenation(es + Pushed(pushes[0]), pushes[1..]);
      ConcatAssoc(es, Pushed(pushes[0]), AllPushed(pushes[1..]));
    }
  }

  /** A name once found keeps its contents through every later push, and a template whose references all
      resolve keeps its expansion. */
  lemma HistoryIsStable(es: seq<Entry>, later: seq<seq<byte>>, name: seq<byte>, s: seq<byte>)
    ensures Find(es, name).Some? ==> Find(PushAll(es, later), name) == Find(es, name)
    ensures Resolves(es, s) ==> Expand(PushAll(es, later), s) == Expand(es, s)
  {
    StoreIsConcatenation(es, later);
    if Find(es, name).Some? { FindIsStable(es, AllPushed(later), name); }
    if Resolves(es, s) { ExpandIsStable(es, AllPushed(later), s); }
  }

  lemma {:induction false} CStrTwice(s: seq<byte>)
    ensures CStr(CStr(s)) == CStr(s)
  {
    if s != [] && s[0] != 0 {
      CStrTwice(s[1..]);
      assert CStr(s)[1..] == CStr(s[1..]);
    }
  }

  /** Copying a list changes no lookup: the same names are found, with the same contents. */
  lemma {:induction false} CopiesFindTheSame(es: seq<Entry>, name: seq<byte>)
    ensures Find(Copies(es), name) == match Find(es, name) { case None => None case Some(e) => Some(Copy(e)) }
    ensures ValueOf(Copies(es), name) == ValueOf(es, name)
  {
    if es != [] {
      CStrTwice(es[0].name);
      assert Copies(es)[0] == Copy(es[0]) && Copies(es)[1..] == Copies(es[1..]);
      CopiesFindTheSame(es[1..], name);
    }
  }

  /** So a template expands in a store that has merged a bundle as it did in the bundle alone. */
  lemma {:induction false} CopiesExpandTheSame(es: seq<Entry>, s: seq<byte>)
    ensures Expand(Copies(es), s) == Expand(es, s)
    decreases |s|
  {
    if s == [] {
    } else if HasRef(s) {
      CopiesFindTheSame(es, Name(s));
      CopiesExpandTheSame(es, AfterRef(s));
    } else {
      CopiesExpandTheSame(es, s[1..]);
    }
  }

  /** What a push adds: nothing when the bundle is rejected, otherwise its entries one by one, in order, with type,
      length and value as they were and the name up to its first NUL. */
  lemma PushedIs(d: seq<byte>, i: nat)
    ensures BundleOf(d).Fail? ==> Pushed(d) == []
    ensures BundleOf(d).Done? ==>
      |Pushed(d)| == |BundleOf(d).entries| &&
      (i < |Pushed(d)| ==>
         var e, raw := Pushed(d)[i], BundleOf(d).entries[i];
         e.name == CStr(raw.name) && e.kind == raw.kind && e.size == |raw.value| &&
         e.value == if raw.kind == 3 then None else Some(raw.value))
  {
    hide BundleOf;
    if BundleOf(d).Done? && i < |Pushed(d)| { ParsedEntries(BundleOf(d).entries, i); }
  }

  // ---- merge and push ------------------------------------------------------

  /** Blocks that one list acquires leave another owner's accounts in order, on a larger base. */
  lemma ExactShift(live: set<nat>, base: set<nat>, own: seq<nat>, live': set<nat>, more: seq<nat>)
    requires Exact(live, base, own) && Exact(live', live, more)
    ensures Exact(live', base + (set a | a in more), own)
    ensures Exact(base + (set a | a in more), base, more)
  {
    assert forall i :: 0 <= i < |own| ==> own[i] in own;
    assert forall i :: 0 <= i < |more| ==> more[i] in more;
  }

  /** The copy CfgMerge makes of one entry, its allocations taken to succeed. */
  method CopyEntry(h: Heap, s: CfgEntry) returns (e: CfgEntry)
    requires h.Valid()
    modifies h
    ensures h.Valid() && h.failed == old(h.failed)
    ensures fresh(e) && e.next == null && e.Holds(Copy(Entry(s.name, s.kind, s.size, s.value)), e.blocks)
    ensures Exact(h.live, old(h.live), AddressesOf(e.blocks))
  {
    var self := h.MustAlloc();
    var name := h.MustAlloc();
    var value := None;
    if s.value.Some? {
      var v := h.MustAlloc();
      value := Some(v);
    }
    var b := Blocks(self, name, value);
    e := new CfgEntry(Copy(Entry(s.name, s.kind, s.size, s.value)), b);
    e.ival := s.ival;
    assert AddressesOf(b) == if value.None? then [b.name, b.self] else [b.name, value.value, b.self];
  }

  /** CfgMerge: copies of every entry of `over`, in order, at the tail of `store`. */
  method CfgMerge(h: Heap, store: CfgProfile, over: CfgProfile, ghost base: set<nat>, ghost held: set<nat>)
    returns (ghost base': set<nat>)
    requires h.Valid() && store.Valid() && over.Valid()
    requires store != over
    requires forall i, j :: 0 <= i < |over.list| && 0 <= j < |store.list| ==> over.list[i] != store.list[j]
    requires Exact(held, base, store.Own()) && Exact(h.live, held, over.Own())
    modifies h, store, store.list
    ensures h.Valid() && h.failed == old(h.failed) && store.Valid() && over.Valid()
    ensures store.entries == old(store.entries) + Copies(over.entries)
    ensures forall i :: 0 <= i < |store.list| ==> store.list[i] in old(store.list) || fresh(store.list[i])
    ensures Exact(base', base, store.Own()) && Exact(h.live, base', over.Own())
  {
    hide Exact, CfgProfile.Chain, CfgProfile.Contents, CStr, Copies;
    base' := held;
    var s := over.head;
    ghost var k := 0;
    ChainHead(over);
    assert store.entries == old(store.entries) + Copies(over.entries[..0]);
    while s != null
      invariant k <= |over.list| && s == if k < |over.list| then over.list[k] else null
      invariant h.Valid() && h.failed == old(h.failed) && store.Valid() && over.Valid()
      invariant store.entries == old(store.entries) + Copies(over.entries[..k])
      invariant forall i :: 0 <= i < |store.list| ==> store.list[i] in old(store.list) || fresh(store.list[i])
      invariant forall i, j :: 0 <= i < |over.list| && 0 <= j < |store.list| ==> over.list[i] != store.list[j]
      invariant Exact(base', base, store.Own()) && Exact(h.live, base', over.Own())
      decreases |over.list| - k
    {
      ChainNext(over, k);
      CopiesAppend(over.entries[..k], over.entries[k]);
      assert over.entries[..k + 1] == over.entries[..k] + [over.entries[k]];
      ConcatAssoc(old(store.entries), Copies(over.entries[..k]), [Copy(over.entries[k])]);
      base' := MergeOne(h, store, over, s, base, base');
      s, k := s.next, k + 1;
    }
    assert over.entries[..k] == over.entries;
  }

  lemma ChainHead(p: CfgProfile)
    requires p.Valid()
    ensures |p.list| == |p.entries| && p.head == if p.list == [] then null else p.list[0]
  {
  }

  lemma ChainNext(p: CfgProfile, k: nat)
    requires p.Valid() && k < |p.list|
    ensures var e := p.list[k];
            k < |p.entries| && p.entries[k] == Entry(e.name, e.kind, e.size, e.value)
    ensures p.list[k].next == if k + 1 < |p.list| then p.list[k + 1] else null
  {
  }

  lemma CopiesAppend(es: seq<Entry>, e: Entry)
    ensures Copies(es + [e]) == Copies(es) + [Copy(e)]
  {
  }

  method MergeOne(h: Heap, store: CfgProfile, over: CfgProfile, s: CfgEntry,
                  ghost base: set<nat>, ghost held: set<nat>)
    returns (ghost base': set<nat>)
    requires h.Valid() && store.Valid() && Exact(held, base, store.Own()) && Exact(h.live, held, over.Own())
    requires store != over
    modifies h, store, store.list
    ensures h.Valid() && h.failed == old(h.failed) && store.Valid()
    ensures store.entries == old(store.entries) + [Copy(old(Entry(s.name, s.kind, s.size, s.value)))]
    ensures forall i :: 0 <= i < |store.list| ==> store.list[i] in old(store.list) || fresh(store.list[i])
    ensures Exact(base', base, store.Own()) && Exact(h.live, base', over.Own())
  {
    hide Exact, CfgProfile.Chain, CfgProfile.Contents, CStr;
    ghost var live := h.live;
    var e := CopyEntry(h, s);
    ghost var more := AddressesOf(e.blocks);
    ExactShift(live, held, over.Own(), h.live, more);
    base' := held + (set a | a in more);
    ExactInsert(held, base', base, Addresses(store.blocks), more, store.self);
    AddressesAppend(store.blocks, e.blocks);
    store.AppendEntry(e, Copy(Entry(s.name, s.kind, s.size, s.value)), e.blocks);
  }

  /** handle_push, past the blob preview: an accepted bundle is merged and then released, a rejected one
      changes nothing; either way the store's own blocks are all that stay allocated. */
  method HandlePush(h: Heap, store: CfgProfile, payload: seq<byte>, sizeMod: nat, ghost base: set<nat>)
    returns (ok: bool)
    requires h.Valid() && store.Valid() && Exact(h.live, base, store.Own())
    requires |payload| + MAX_VALUE < sizeMod
    modifies h, store, store.list
    ensures h.Valid() && store.Valid() && Exact(h.live, base, store.Own())
    ensures ok ==> BundleOf(payload).Done? && store.entries == old(store.entries) + Pushed(payload)
    ensures !ok ==> store.entries == old(store.entries) && (BundleOf(payload).Fail? || h.failed)
  {
    hide Exact, CfgProfile.Chain, CfgProfile.Contents, BundleOf;
    ghost var held := h.live;
    var status, p := CfgParseBlob(h, payload, null, sizeMod);
    if status != CFG_OK { return false; }
    ghost var base' := CfgMerge(h, store, p, base, held);
    CfgFree(h, p, base');
    return true;
  }
}
