/**
 The .cprof bundle byte by byte: where each field stands, which status each malformed bundle gets, and what the
 second walker makes of any payload, accepted or not.
 */
module CfgLayout {
  import opened Bytes
  import opened CfgFormat
  import opened CfgPeek

  // ---- the header ----------------------------------------------------------

  /** The header decides first, in this order: too short, not "CPRF", not version 1, more than 4096 entries; the
      entries follow it at byte 12. */
  lemma HeaderDecides(d: seq<byte>)
    ensures |d| < 12 ==> BundleOf(d) == Fail(-3)
    ensures |d| >= 12 && d[..4] != [67, 80, 82, 70] ==> BundleOf(d) == Fail(-1)
    ensures |d| >= 12 && d[..4] == [67, 80, 82, 70] && d[4..6] != [1, 0] ==> BundleOf(d) == Fail(-2)
    ensures |d| >= 12 && d[..4] == [67, 80, 82, 70] && d[4..6] == [1, 0] ==>
              BundleOf(d) == if U32At(d, 8) > 4096 then Fail(-4) else EntriesOf(d[12..], U32At(d, 8))
  {
    if |d| >= 12 {
      LittleEndian(d, 4);
      assert d[4..6] == [d[4], d[5]];
    }
  }

  /** A bundle of another version, from its writer's side. */
  lemma OtherVersion(v: nat, tail: seq<byte>)
    requires v < 0x1_0000 && v != 1 && |tail| >= 6
    ensures BundleOf([67, 80, 82, 70] + PutU16(v) + tail) == Fail(-2)
  {
    var d := [67, 80, 82, 70] + PutU16(v) + tail;
    assert d[..4] == [67, 80, 82, 70] && d[4..6] == PutU16(v);
    if PutU16(v) == [1, 0] { OneInBytes(v); }
    HeaderDecides(d);
  }

  lemma OneInBytes(v: nat)
    requires v < 0x1_0000 && PutU16(v) == [1, 0]
    ensures v == 1
  {
  }

  // ---- one entry -----------------------------------------------------------

  /** An entry: two bytes of name length, the name, a type byte, four bytes of value length, the value. */
  ghost predicate EntryBytes(b: seq<byte>, name: seq<byte>, kind: byte, value: seq<byte>) {
    && |b| == 7 + |name| + |value|
    && U16At(b, 0) == |name| && b[2..2 + |name|] == name
    && b[2 + |name|] == kind
    && U32At(b, 3 + |name|) == |value| && b[7 + |name|..] == value
  }

  /** Such bytes read as that entry, when name and value are within 1024 and 2^20, whatever follows. */
  lemma EntryLayout(b: seq<byte>, name: seq<byte>, kind: byte, value: seq<byte>, rest: seq<byte>)
    requires EntryBytes(b, name, kind, value) && |name| <= 1024 && |value| <= 0x10_0000
    ensures EntryOf(b + rest) == Got(Raw(name, kind, value), rest)
  {
    var c := b + rest;
    var nl, vl := |name|, |value|;
    Spread(b, rest, name, value);
    assert c[2..2 + nl] == b[2..2 + nl] && c[7 + nl..7 + nl + vl] == b[7 + nl..];
    assert c[7 + nl + vl..] == rest;
  }

  /** The two lengths, read from an entry with more bytes behind it. */
  lemma Spread(b: seq<byte>, rest: seq<byte>, name: seq<byte>, value: seq<byte>)
    requires |b| == 7 + |name| + |value|
    requires U16At(b, 0) == |name| && U32At(b, 3 + |name|) == |value|
    ensures U16At(b + rest, 0) == |name| && U32At(b + rest, 3 + |name|) == |value|
  {
    var c, at := b + rest, 3 + |name|;
    assert c[0] == b[0] && c[1] == b[1];
    assert c[at] == b[at] && c[at + 1] == b[at + 1] && c[at + 2] == b[at + 2] && c[at + 3] == b[at + 3];
  }

  /** What an entry list reads as: entry by entry, in order, as many as the header counts; the bytes left over
      stay. */
  lemma ListLayout(b: seq<byte>, name: seq<byte>, kind: byte, value: seq<byte>, rest: seq<byte>, n: nat)
    requires EntryBytes(b, name, kind, value) && |name| <= 1024 && |value| <= 0x10_0000
    ensures EntriesOf(rest, 0) == Done([], rest)
    ensures EntriesOf(b + rest, n + 1) == match EntriesOf(rest, n)
                                          case Fail(status) => Fail(status)
                                          case Done(es, left) => Done([Raw(name, kind, value)] + es, left)
  {
    hide EntryOf;
    EntryLayout(b, name, kind, value, rest);
  }

  // ---- malformed entries ---------------------------------------------------

  /** A name length over 1024 exceeds the limit, even when nothing follows it. */
  lemma LongName(b: seq<byte>)
    requires |b| >= 2 && U16At(b, 0) > 1024
    ensures EntryOf(b) == Bad(-4)
  {
  }

  /** A value length over 2^20 exceeds the limit, even when the value is not there. */
  lemma LongValue(b: seq<byte>)
    requires |b| >= 2 && U16At(b, 0) <= 1024 && |b| >= 7 + U16At(b, 0) && U32At(b, 3 + U16At(b, 0)) > 0x10_0000
    ensures EntryOf(b) == Bad(-4)
  {
  }

  /** Every strict prefix of a good entry is truncated. */
  lemma CutEntry(b: seq<byte>, name: seq<byte>, kind: byte, value: seq<byte>, k: nat)
    requires EntryBytes(b, name, kind, value) && |name| <= 1024 && |value| <= 0x10_0000 && k < |b|
    ensures EntryOf(b[..k]) == Bad(-3)
  {
    EntryLayout(b, name, kind, value, []);
    assert b + [] == b;
    EntryCut(b, k);
  }

  /** After any good entries, a bad one decides the status of the bundle. */
  lemma {:induction false} BadEntryDecides(rs: seq<Raw>, tail: seq<byte>, n: nat)
    requires (forall i :: 0 <= i < |rs| ==> Within(rs[i])) && EntryOf(tail).Bad? && n > |rs|
    ensures EntriesOf(PutEntries(rs) + tail, n) == Fail(EntryOf(tail).status)
  {
    hide EntryOf, PutEntry, Within;
    if rs == [] {
      assert PutEntries(rs) + tail == tail;
    } else {
      ConcatAssoc(PutEntry(rs[0]), PutEntries(rs[1..]), tail);
      EntryRoundTrip(rs[0], PutEntries(rs[1..]) + tail);
      BadEntryDecides(rs[1..], tail, n - 1);
    }
  }

  /** And with the header: any accepted list of fewer entries than the header counts, then a bad entry. */
  lemma BadBundle(flags: nat, rs: seq<Raw>, count: nat, tail: seq<byte>)
    requires flags < 0x1_0000 && AllWithin(rs) && |rs| < count <= 4096 && EntryOf(tail).Bad?
    ensures BundleOf(PutHeader(flags, count) + (PutEntries(rs) + tail)) == Fail(EntryOf(tail).status)
  {
    hide EntryOf;
    HeaderRoundTrip(flags, count, PutEntries(rs) + tail);
    BadEntryDecides(rs, tail, count);
  }

  // ---- the second walker ---------------------------------------------------

  /** The walker steps over an entry of any size, and stops at one of type 2 with its value's place; it checks
      neither magic nor version nor limits. */
  lemma PeekLayout(pre: seq<byte>, b: seq<byte>, name: seq<byte>, kind: byte, value: seq<byte>, rest: seq<byte>, n: nat)
    requires EntryBytes(b, name, kind, value)
    ensures PeekFrom(pre + b + rest, |pre|, n + 1) ==
              if kind == 2 then Some(Slice(|pre| + 7 + |name|, |value|))
              else PeekFrom(pre + b + rest, |pre| + |b|, n)
  {
    var d := pre + b + rest;
    var nl := |name|;
    Spread(b, rest, name, value);
    assert forall i :: 0 <= i < |b| ==> d[|pre| + i] == b[i] && (b + rest)[i] == b[i];
  }

  /** It finds nothing when the count is used up, nor in what is too short for an entry. */
  lemma PeekEnds(d: seq<byte>, off: nat, n: nat)
    requires off <= |d|
    ensures PeekFrom(d, off, 0) == None
    ensures |d| - off < 2 ==> PeekFrom(d, off, n) == None
    ensures |d| - off >= 2 && |d| - off < 7 + U16At(d, off) ==> PeekFrom(d, off, n) == None
    ensures |d| - off >= 2 && |d| - off >= 7 + U16At(d, off) ==>
              |d| - off < 7 + U16At(d, off) + U32At(d, off + 3 + U16At(d, off)) ==> PeekFrom(d, off, n) == None
  {
  }

  /** It starts at byte 12 with the count of any twelve bytes. */
  lemma PeekStarts(d: seq<byte>)
    ensures |d| < 12 ==> Peek(d) == None
    ensures |d| >= 12 ==> Peek(d) == PeekFrom(d, 12, U32At(d, 8))
  {
  }
}
