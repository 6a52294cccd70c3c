/**
 The .cprof bundle: what its bytes mean, as a function of the bytes alone.  The two readers of the
 repository, CfgParseBlob and peek_first_blob, are proved against these functions in CfgProfile.dfy
 and CfgPeek.dfy.
 */
module CfgFormat {
  import opened Bytes

  const HEADER_SIZE: nat := 12
  const CPROF_VERSION: nat := 1
  const MAX_ENTRIES: nat := 4096
  const MAX_NAME: nat := 1024
  const MAX_VALUE: nat := ONE_MIB

  const CFG_BLOB: nat := 2
  const CFG_INT: nat := 3

  const CFG_OK: int := 0
  const CFG_EBADMAGIC: int := -1
  const CFG_EVERSION: int := -2
  const CFG_ETRUNC: int := -3
  const CFG_ELIMIT: int := -4
  const CFG_ENOMEM: int := -5
  const CFG_EIO: int := -6

  const MAGIC: seq<byte> := [67, 80, 82, 70]   // "CPRF"

  /** One entry as it is written on disk. */
  datatype Raw = Raw(name: seq<byte>, kind: byte, value: seq<byte>)

  ghost predicate Within(r: Raw) {
    |r.name| <= MAX_NAME && |r.value| <= MAX_VALUE
  }

  ghost predicate AllWithin(rs: seq<Raw>) {
    |rs| <= MAX_ENTRIES && forall i :: 0 <= i < |rs| ==> Within(rs[i])
  }

  // ---- writing -------------------------------------------------------------

  function PutEntry(r: Raw): seq<byte>
    requires Within(r)
  {
    PutU16(|r.name|) + r.name + [r.kind] + PutU32(|r.value|) + r.value
  }

  function PutEntries(rs: seq<Raw>): seq<byte>
    requires forall i :: 0 <= i < |rs| ==> Within(rs[i])
  {
    if rs == [] then [] else PutEntry(rs[0]) + PutEntries(rs[1..])
  }

  function PutHeader(flags: nat, count: nat): (h: seq<byte>)
    requires flags < 0x1_0000 && count <= MAX_ENTRIES
    ensures |h| == HEADER_SIZE
  {
    MAGIC + PutU16(CPROF_VERSION) + PutU16(flags) + PutU32(count)
  }

  function Serialize(flags: nat, rs: seq<Raw>): seq<byte>
    requires flags < 0x1_0000 && AllWithin(rs)
  {
    PutHeader(flags, |rs|) + PutEntries(rs)
  }

  // ---- reading -------------------------------------------------------------

  datatype EntryResult = Bad(status: int) | Got(raw: Raw, rest: seq<byte>)

  /** The entry at the front of `b`, with the checks in the order the reader makes them. */
  function EntryOf(b: seq<byte>): (r: EntryResult)
    ensures r.Bad? ==> r.status == CFG_ETRUNC || r.status == CFG_ELIMIT
    ensures r.Got? ==> Within(r.raw) && |b| == 7 + |r.raw.name| + |r.raw.value| + |r.rest|
  {
    if |b| < 2 then Bad(CFG_ETRUNC) else
    var nl := U16At(b, 0);
    if nl > MAX_NAME then Bad(CFG_ELIMIT)
    else if |b| < 7 + nl then Bad(CFG_ETRUNC) else
    var vl := U32At(b, 3 + nl);
    if vl > MAX_VALUE then Bad(CFG_ELIMIT)
    else if |b| < 7 + nl + vl then Bad(CFG_ETRUNC)
    else Got(Raw(b[2..2 + nl], b[2 + nl], b[7 + nl..7 + nl + vl]), b[7 + nl + vl..])
  }

  datatype Parsed = Fail(status: int) | Done(entries: seq<Raw>, rest: seq<byte>)

  function EntriesOf(b: seq<byte>, n: nat): Parsed
    decreases n
  {
    if n == 0 then Done([], b) else
    match EntryOf(b)
    case Bad(status) => Fail(status)
    case Got(raw, rest) =>
      match EntriesOf(rest, n - 1)
      case Fail(status) => Fail(status)
      case Done(entries, rest') => Done([raw] + entries, rest')
  }

  lemma EntriesStep(b: seq<byte>, n: nat)
    requires n > 0 && EntriesOf(b, n).Done?
    ensures EntryOf(b).Got? && EntriesOf(EntryOf(b).rest, n - 1).Done?
    ensures var p := EntriesOf(EntryOf(b).rest, n - 1);
            EntriesOf(b, n) == Done([EntryOf(b).raw] + p.entries, p.rest)
  {
  }

  /** The header's verdict: 0, or the status CfgParseBlob returns for it. */
  function HeaderStatus(d: seq<byte>): int {
    if |d| < HEADER_SIZE then CFG_ETRUNC
    else if d[..4] != MAGIC then CFG_EBADMAGIC
    else if U16At(d, 4) != CPROF_VERSION then CFG_EVERSION
    else if U32At(d, 8) > MAX_ENTRIES then CFG_ELIMIT
    else CFG_OK
  }

  function BundleOf(d: seq<byte>): Parsed {
    if HeaderStatus(d) != CFG_OK then Fail(HeaderStatus(d))
    else EntriesOf(d[HEADER_SIZE..], U32At(d, 8))
  }

  // ---- round trip ----------------------------------------------------------

  lemma EntryRoundTrip(r: Raw, rest: seq<byte>)
    requires Within(r)
    ensures EntryOf(PutEntry(r) + rest) == Got(r, rest)
  {
    hide U16At, U32At, PutU16, PutU32;
    var h, l := PutU16(|r.name|), PutU32(|r.value|);
    var nl, vl := |r.name|, |r.value|;
    var b := PutEntry(r) + rest;
    var pre := h + r.name + [r.kind];
    assert b == [] + h + (r.name + [r.kind] + l + r.value + rest);
    U16AtPut([], nl, r.name + [r.kind] + l + r.value + rest);
    assert b == pre + l + (r.value + rest);
    U32AtPut(pre, vl, r.value + rest);
    assert b[2..2 + nl] == r.name && b[2 + nl] == r.kind;
    assert b[7 + nl..] == r.value + rest;
    assert b[7 + nl + vl..] == rest;
  }

  lemma {:induction false} EntriesRoundTrip(rs: seq<Raw>, tail: seq<byte>)
    requires forall i :: 0 <= i < |rs| ==> Within(rs[i])
    ensures EntriesOf(PutEntries(rs) + tail, |rs|) == Done(rs, tail)
  {
    hide EntryOf, PutEntry, Within;
    if rs == [] {
      assert PutEntries(rs) + tail == tail;
    } else {
      var rest := PutEntries(rs[1..]) + tail;
      ConcatAssoc(PutEntry(rs[0]), PutEntries(rs[1..]), tail);
      EntryRoundTrip(rs[0], rest);
      EntriesRoundTrip(rs[1..], tail);
      assert [rs[0]] + rs[1..] == rs;
    }
  }

  lemma HeaderRoundTrip(flags: nat, count: nat, tail: seq<byte>)
    requires flags < 0x1_0000 && count <= MAX_ENTRIES
    ensures var d := PutHeader(flags, count) + tail;
            HeaderStatus(d) == CFG_OK && U32At(d, 8) == count && d[HEADER_SIZE..] == tail
  {
    var v, f, c := PutU16(CPROF_VERSION), PutU16(flags), PutU32(count);
    var d := PutHeader(flags, count) + tail;
    assert d == MAGIC + v + f + c + tail;
    assert d[..4] == MAGIC;
    assert d[4] == v[0] && d[5] == v[1];
    assert d[8] == c[0] && d[9] == c[1] && d[10] == c[2] && d[11] == c[3];
  }

  /** Parsing a serialised list gives the list back, whatever bytes follow it. */
  lemma RoundTrip(flags: nat, rs: seq<Raw>, tail: seq<byte>)
    requires flags < 0x1_0000 && AllWithin(rs)
    ensures BundleOf(Serialize(flags, rs) + tail) == Done(rs, tail)
  {
    assert Serialize(flags, rs) + tail == PutHeader(flags, |rs|) + (PutEntries(rs) + tail);
    HeaderRoundTrip(flags, |rs|, PutEntries(rs) + tail);
    EntriesRoundTrip(rs, tail);
  }

  // ---- and nothing else is accepted ----------------------------------------

  lemma EntryIsSerialized(b: seq<byte>)
    requires EntryOf(b).Got?
    ensures b == PutEntry(EntryOf(b).raw) + EntryOf(b).rest
  {
    var nl := U16At(b, 0);
    var vl := U32At(b, 3 + nl);
    U16Inverse(b, 0);
    U32Inverse(b, 3 + nl);
    assert b == b[0..2] + b[2..2 + nl] + [b[2 + nl]] + b[3 + nl..7 + nl] + b[7 + nl..7 + nl + vl] + b[7 + nl + vl..];
  }

  lemma {:induction false} EntriesAreSerialized(b: seq<byte>, n: nat)
    requires EntriesOf(b, n).Done?
    ensures var p := EntriesOf(b, n);
            |p.entries| == n && (forall i :: 0 <= i < n ==> Within(p.entries[i])) && b == PutEntries(p.entries) + p.rest
    decreases n
  {
    hide EntryOf, PutEntry, Within;
    if n > 0 {
      EntryIsSerialized(b);
      var e := EntryOf(b);
      EntriesAreSerialized(e.rest, n - 1);
      var p := EntriesOf(e.rest, n - 1);
      assert ([e.raw] + p.entries)[1..] == p.entries;
      ConcatAssoc(PutEntry(e.raw), PutEntries(p.entries), p.rest);
    }
  }

  lemma HeaderIsSerialized(d: seq<byte>)
    requires HeaderStatus(d) == CFG_OK
    ensures d[..HEADER_SIZE] == PutHeader(U16At(d, 6), U32At(d, 8))
  {
    U16Inverse(d, 4);
    U16Inverse(d, 6);
    U32Inverse(d, 8);
    assert d[..HEADER_SIZE] == d[..4] + d[4..6] + d[6..8] + d[8..12];
  }

  /** The reader accepts exactly the serialised bundles: an accepted buffer is the serialisation of what
      was read from it, followed by the bytes left over. */
  lemma AcceptsOnlySerialized(d: seq<byte>)
    requires BundleOf(d).Done?
    ensures var p := BundleOf(d);
            AllWithin(p.entries) && d == Serialize(U16At(d, 6), p.entries) + p.rest
  {
    hide EntriesOf, PutEntries, PutHeader, U16At, U32At;
    EntriesAreSerialized(d[HEADER_SIZE..], U32At(d, 8));
    HeaderIsSerialized(d);
    var p := BundleOf(d);
    ConcatAssoc(PutHeader(U16At(d, 6), |p.entries|), PutEntries(p.entries), p.rest);
    assert d == d[..HEADER_SIZE] + d[HEADER_SIZE..];
  }

  // ---- prefixes and extensions ---------------------------------------------

  lemma EntryCut(b: seq<byte>, k: nat)
    requires EntryOf(b).Got? && k <= |b|
    ensures var e := EntryOf(b);
            var size := |b| - |e.rest|;
            EntryOf(b[..k]) == if k < size then Bad(CFG_ETRUNC) else Got(e.raw, e.rest[..k - size])
  {
    var c := b[..k];
    if k >= 2 {
      var nl := U16At(b, 0);
      assert c[0] == b[0] && c[1] == b[1];
      if k >= 7 + nl {
        assert U32At(c, 3 + nl) == U32At(b, 3 + nl);
      }
    }
  }

  /** Cutting an accepted entry list short makes it truncated; cutting after it changes nothing. */
  lemma {:induction false} EntriesCut(b: seq<byte>, n: nat, k: nat)
    requires EntriesOf(b, n).Done? && k <= |b|
    ensures var p := EntriesOf(b, n);
            |p.rest| <= |b| &&
            var size := |b| - |p.rest|;
            EntriesOf(b[..k], n) == if k < size then Fail(CFG_ETRUNC) else Done(p.entries, p.rest[..k - size])
    decreases n
  {
    if n > 0 {
      EntryCut(b, k);
      var e := EntryOf(b);
      var size := |b| - |e.rest|;
      EntriesCut(e.rest, n - 1, if k < size then 0 else k - size);
    }
  }

  /** Every strict prefix of the bytes an accepted bundle consumes is reported as truncated. */
  lemma PrefixIsTruncated(d: seq<byte>, k: nat)
    requires BundleOf(d).Done? && k < |d| - |BundleOf(d).rest|
    ensures BundleOf(d[..k]) == Fail(CFG_ETRUNC)
  {
    hide EntriesOf, U16At, U32At;
    if k >= HEADER_SIZE {
      HeaderCut(d, k);
      EntriesCut(d[HEADER_SIZE..], U32At(d, 8), k - HEADER_SIZE);
    }
  }

  lemma HeaderCut(d: seq<byte>, k: nat)
    requires HEADER_SIZE <= k <= |d|
    ensures HeaderStatus(d[..k]) == HeaderStatus(d) && U32At(d[..k], 8) == U32At(d, 8)
    ensures d[..k][HEADER_SIZE..] == d[HEADER_SIZE..][..k - HEADER_SIZE]
  {
    assert d[..k][..4] == d[..4];
  }

  /** Bytes after an accepted bundle do not change what is read from it. */
  lemma ExtensionIsIgnored(d: seq<byte>, more: seq<byte>)
    requires BundleOf(d).Done?
    ensures BundleOf(d + more) == Done(BundleOf(d).entries, BundleOf(d).rest + more)
  {
    var p := BundleOf(d);
    AcceptsOnlySerialized(d);
    U16Inverse(d, 6);
    assert d + more == Serialize(U16At(d, 6), p.entries) + (p.rest + more);
    RoundTrip(U16At(d, 6), p.entries, p.rest + more);
  }
}
