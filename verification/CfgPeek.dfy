/** peek_first_blob of cfgsvcd.c: the second, laxer walker over the bytes of a bundle. */
module CfgPeek {
  import opened Bytes
  import opened CfgFormat

  /** A blob found in the payload: where its bytes start and how long it claims to be. */
  datatype Slice = Slice(start: nat, size: nat)

  /** The walk over the `n` entries from offset `off` on: no name or value limits are checked. */
  function PeekFrom(d: seq<byte>, off: nat, n: nat): Option<Slice>
    decreases n
  {
    if n == 0 || |d| < off + 2 then None else
    var nl := U16At(d, off);
    if |d| < off + 7 + nl then None else
    var vl := U32At(d, off + 3 + nl);
    if |d| < off + 7 + nl + vl then None
    else if d[off + 2 + nl] == CFG_BLOB then Some(Slice(off + 7 + nl, vl))
    else PeekFrom(d, off + 7 + nl + vl, n - 1)
  }

  function Peek(d: seq<byte>): Option<Slice> {
    if |d| < HEADER_SIZE then None else PeekFrom(d, HEADER_SIZE, U32At(d, 8))
  }

  /** Entry `i` is the first blob of the list, and its value is the slice `s` of the payload. */
  ghost predicate FirstBlob(es: seq<Raw>, i: nat, d: seq<byte>, s: Slice) {
    && i < |es| && es[i].kind == CFG_BLOB
    && (forall j :: 0 <= j < i ==> es[j].kind != CFG_BLOB)
    && s.start + s.size <= |d| && es[i].value == d[s.start..s.start + s.size]
  }

  ghost predicate NoBlob(es: seq<Raw>) {
    forall j :: 0 <= j < |es| ==> es[j].kind != CFG_BLOB
  }

  ghost predicate Finds(r: Option<Slice>, es: seq<Raw>, d: seq<byte>) {
    match r
    case None => NoBlob(es)
    case Some(s) => exists i: nat :: FirstBlob(es, i, d, s)
  }

  /** An accepted entry, seen from the payload it sits in. */
  lemma EntryAt(d: seq<byte>, off: nat)
    requires off <= |d| && EntryOf(d[off..]).Got?
    ensures var e := EntryOf(d[off..]);
            var nl, vl := |e.raw.name|, |e.raw.value|;
            var next := off + 7 + nl + vl;
            next <= |d| && d[next..] == e.rest && d[off + 7 + nl..next] == e.raw.value &&
            U16At(d, off) == nl && U32At(d, off + 3 + nl) == vl && d[off + 2 + nl] == e.raw.kind
  {
  }

  lemma PeekStep(d: seq<byte>, off: nat, n: nat)
    requires n > 0 && off <= |d| && EntryOf(d[off..]).Got?
    ensures var e := EntryOf(d[off..]);
            var next := off + 7 + |e.raw.name| + |e.raw.value|;
            next <= |d| && d[next..] == e.rest && d[next - |e.raw.value|..next] == e.raw.value &&
            PeekFrom(d, off, n) == if e.raw.kind == CFG_BLOB then Some(Slice(next - |e.raw.value|, |e.raw.value|))
                                   else PeekFrom(d, next, n - 1)
  {
    hide EntryOf, U16At, U32At;
    EntryAt(d, off);
  }

  lemma {:induction false} WalkersAgreeFrom(d: seq<byte>, off: nat, n: nat)
    requires off <= |d| && EntriesOf(d[off..], n).Done?
    ensures Finds(PeekFrom(d, off, n), EntriesOf(d[off..], n).entries, d)
    decreases n
  {
    hide EntryOf, Finds;
    if n == 0 {
      assert Finds(None, [], d) by { NothingFound(d); }
    } else {
      EntriesStep(d[off..], n);
      PeekStep(d, off, n);
      var e := EntryOf(d[off..]);
      var next := off + 7 + |e.raw.name| + |e.raw.value|;
      var rest := EntriesOf(d[next..], n - 1).entries;
      if e.raw.kind == CFG_BLOB {
        FindsFirst(e.raw, rest, d, next);
      } else {
        WalkersAgreeFrom(d, next, n - 1);
        FindsLater(PeekFrom(d, next, n - 1), e.raw, rest, d);
      }
    }
  }

  lemma NothingFound(d: seq<byte>)
    ensures Finds(None, [], d)
  {
  }

  lemma FindsFirst(e: Raw, rest: seq<Raw>, d: seq<byte>, next: nat)
    requires e.kind == CFG_BLOB && |e.value| <= next <= |d| && d[next - |e.value|..next] == e.value
    ensures Finds(Some(Slice(next - |e.value|, |e.value|)), [e] + rest, d)
  {
    assert FirstBlob([e] + rest, 0, d, Slice(next - |e.value|, |e.value|));
  }

  lemma FindsLater(r: Option<Slice>, e: Raw, rest: seq<Raw>, d: seq<byte>)
    requires e.kind != CFG_BLOB && Finds(r, rest, d)
    ensures Finds(r, [e] + rest, d)
  {
    var es := [e] + rest;
    assert forall j :: 0 < j < |es| ==> es[j] == rest[j - 1];
    if r.Some? {
      var i: nat :| FirstBlob(rest, i, d, r.value);
      assert FirstBlob(es, i + 1, d, r.value);
    }
  }

  /** The two walkers agree: on every bundle the parser accepts, the peek succeeds exactly when the parsed
      list has a blob, and the slice it returns is the value of the first one. */
  lemma WalkersAgree(d: seq<byte>)
    requires BundleOf(d).Done?
    ensures Peek(d).None? <==> NoBlob(BundleOf(d).entries)
    ensures Peek(d).Some? ==> exists i: nat :: FirstBlob(BundleOf(d).entries, i, d, Peek(d).value)
  {
    WalkersAgreeFrom(d, HEADER_SIZE, U32At(d, 8));
  }

  /** When no sum from here on can wrap: a size_t wider than any payload plus any length field, or an entry
      list the parser accepts. */
  ghost predicate Roomy(d: seq<byte>, off: nat, n: nat, sizeMod: nat)
    requires off <= |d|
  {
    |d| + U32_MOD < sizeMod || (|d| + MAX_VALUE < sizeMod && EntriesOf(d[off..], n).Done?)
  }

  lemma RoomyStep(d: seq<byte>, off: nat, n: nat, sizeMod: nat)
    requires off <= |d| && n > 0 && Roomy(d, off, n, sizeMod)
    ensures |d| + 0x1_0000 < sizeMod
    ensures off + 2 <= |d| ==>
      var nl := U16At(d, off);
      off + 7 + nl <= |d| ==>
        var vl := U32At(d, off + 3 + nl);
        |d| + vl < sizeMod &&
        (off + 7 + nl + vl <= |d| ==> Roomy(d, off + 7 + nl + vl, n - 1, sizeMod))
  {
    if EntriesOf(d[off..], n).Done? { EntryAt(d, off); }
  }

  /** The walk itself.  With a 64-bit size_t it is right on every payload; with a 32-bit one, on every
      bundle the parser accepts, because then no sum of offsets wraps. */
  method PeekFirstBlob(d: seq<byte>, sizeMod: nat) returns (r: Option<Slice>)
    requires |d| + U32_MOD < sizeMod || (|d| + MAX_VALUE < sizeMod && BundleOf(d).Done?)
    ensures r == Peek(d)
  {
    hide U16At, U32At, Roomy, EntriesOf, SizeAdd;
    if |d| < HEADER_SIZE { return None; }
    var count := U32At(d, 8);
    var off := HEADER_SIZE;
    assert Roomy(d, off, count, sizeMod) by { RoomyStart(d, sizeMod); }
    var i := 0;
    while i < count
      invariant i <= count && HEADER_SIZE <= off <= |d|
      invariant PeekFrom(d, off, count - i) == Peek(d)
      invariant Roomy(d, off, count - i, sizeMod)
    {
      RoomyStep(d, off, count - i, sizeMod);
      NoWrap(off, 2, sizeMod);
      if SizeAdd(off, 2, sizeMod) > |d| { return None; }
      var nl := U16At(d, off);
      off := off + 2;
      NoWrap(off, nl, sizeMod);
      if SizeAdd(off, nl, sizeMod) > |d| { return None; }
      off := off + nl;
      NoWrap(off, 1, sizeMod);
      if SizeAdd(off, 1, sizeMod) > |d| { return None; }
      var kind := d[off];
      off := off + 1;
      NoWrap(off, 4, sizeMod);
      if SizeAdd(off, 4, sizeMod) > |d| { return None; }
      var vl := U32At(d, off);
      off := off + 4;
      NoWrap(off, vl, sizeMod);
      if SizeAdd(off, vl, sizeMod) > |d| { return None; }
      if kind == CFG_BLOB { return Some(Slice(off, vl)); }
      off := off + vl;
      i := i + 1;
    }
    return None;
  }

  lemma RoomyStart(d: seq<byte>, sizeMod: nat)
    requires |d| >= HEADER_SIZE
    requires |d| + U32_MOD < sizeMod || (|d| + MAX_VALUE < sizeMod && BundleOf(d).Done?)
    ensures Roomy(d, HEADER_SIZE, U32At(d, 8), sizeMod)
  {
  }
}
