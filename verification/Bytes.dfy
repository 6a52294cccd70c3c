/** Bytes, little-endian scalars and the small sequence vocabulary every component shares. */
module Bytes {

  type byte = x: int | 0 <= x < 256

  const U32_MOD: nat := 0x1_0000_0000
  const ONE_MIB: nat := 0x10_0000

  datatype Option<+T> = None | Some(value: T)

  function Min(a: int, b: int): (r: int)
    ensures r <= a && r <= b && (r == a || r == b)
  {
    if a < b then a else b
  }

  function Max(a: int, b: int): (r: int)
    ensures r >= a && r >= b && (r == a || r == b)
  {
    if a < b then b else a
  }

  /** The first `n` elements, or all of `s` when it is shorter. */
  function Take<T>(s: seq<T>, n: nat): (r: seq<T>)
    ensures r <= s && (|r| == n || (|r| < n && r == s))
  {
    if n < |s| then s[..n] else s
  }

  ghost predicate Distinct<T>(s: seq<T>) {
    forall i, j :: 0 <= i < j < |s| ==> s[i] != s[j]
  }

  /** A set of numbers below `n` has at most `n` elements, and `n` only when it has them all. */
  lemma {:induction false} BelowCard(ids: set<int>, n: nat)
    requires forall k: int :: k in ids ==> 0 <= k < n
    ensures |ids| <= n && (|ids| == n <==> forall k: int :: 0 <= k < n ==> k in ids)
  {
    if n == 0 {
      assert forall k :: k !in ids;
    } else {
      BelowCard(ids - {n - 1}, n - 1);
      assert n - 1 in ids ==> |ids - {n - 1}| == |ids| - 1;
      assert n - 1 !in ids ==> ids - {n - 1} == ids;
    }
  }

  lemma ConcatAssoc<T>(a: seq<T>, b: seq<T>, c: seq<T>)
    ensures (a + b) + c == a + (b + c)
  {
  }

  lemma UpdateTwice<T>(s: seq<T>, i: nat, x: T, y: T)
    requires i < |s|
    ensures s[i := x][i := y] == s[i := y]
  {
  }

  lemma UpdateAppend<T>(s: seq<T>, i: nat, x: T, y: T)
    requires i < |s|
    ensures (s + [y])[i := x] == s[i := x] + [y]
  {
  }

  function U16At(s: seq<byte>, at: nat): (v: nat)
    requires at + 2 <= |s|
    ensures v < 0x1_0000
  {
    (s[at] as int) + 0x100 * (s[at + 1] as int)
  }

  function U32At(s: seq<byte>, at: nat): (v: nat)
    requires at + 4 <= |s|
    ensures v < U32_MOD
  {
    (s[at] as int) + 0x100 * (s[at + 1] as int) + 0x1_0000 * (s[at + 2] as int) + 0x100_0000 * (s[at + 3] as int)
  }

  function PutU16(v: nat): (s: seq<byte>)
    requires v < 0x1_0000
    ensures |s| == 2 && U16At(s, 0) == v
  {
    [v % 0x100, v / 0x100]
  }

  function PutU32(v: nat): (s: seq<byte>)
    requires v < U32_MOD
    ensures |s| == 4 && U32At(s, 0) == v
  {
    assert v / 0x1_0000 < 0x1_0000 && v == v % 0x1_0000 + 0x1_0000 * (v / 0x1_0000);
    PutU16(v % 0x1_0000) + PutU16(v / 0x1_0000)
  }

  /** Scalars are little-endian: the low byte, or half, comes first. */
  lemma LittleEndian(s: seq<byte>, at: nat)
    requires at + 2 <= |s|
    ensures U16At(s, at) % 0x100 == s[at] && U16At(s, at) / 0x100 == s[at + 1]
    ensures at + 4 <= |s| ==> U32At(s, at) % 0x1_0000 == U16At(s, at) && U32At(s, at) / 0x1_0000 == U16At(s, at + 2)
  {
    if at + 4 <= |s| { SplitU32(U16At(s, at), U16At(s, at + 2)); }
  }

  /** A scalar reads back from wherever it was written. */
  lemma U16AtPut(pre: seq<byte>, v: nat, rest: seq<byte>)
    requires v < 0x1_0000
    ensures U16At(pre + PutU16(v) + rest, |pre|) == v
  {
    var h := PutU16(v);
    var b := pre + h + rest;
    assert b[|pre|] == h[0] && b[|pre| + 1] == h[1];
  }

  lemma U32AtPut(pre: seq<byte>, v: nat, rest: seq<byte>)
    requires v < U32_MOD
    ensures U32At(pre + PutU32(v) + rest, |pre|) == v
  {
    var h := PutU32(v);
    var b := pre + h + rest;
    assert b[|pre|] == h[0] && b[|pre| + 1] == h[1] && b[|pre| + 2] == h[2] && b[|pre| + 3] == h[3];
  }

  lemma U16Inverse(b: seq<byte>, at: nat)
    requires at + 2 <= |b|
    ensures PutU16(U16At(b, at)) == b[at..at + 2]
  {
  }

  lemma SplitU32(lo: nat, hi: nat)
    requires lo < 0x1_0000
    ensures (lo + 0x1_0000 * hi) % 0x1_0000 == lo && (lo + 0x1_0000 * hi) / 0x1_0000 == hi
  {
  }

  /** Any four bytes are the encoding of the scalar they read as. */
  lemma U32Inverse(b: seq<byte>, at: nat)
    requires at + 4 <= |b|
    ensures PutU32(U32At(b, at)) == b[at..at + 4]
  {
    hide PutU16;
    var lo, hi := U16At(b, at), U16At(b, at + 2);
    assert U32At(b, at) == lo + 0x1_0000 * hi;
    SplitU32(lo, hi);
    U16Inverse(b, at);
    U16Inverse(b, at + 2);
    assert b[at..at + 2] + b[at + 2..at + 4] == b[at..at + 4];
  }

  /** uint32_t addition. */
  function AddU32(a: nat, b: nat): (r: nat)
    ensures r < U32_MOD
    ensures a + b < U32_MOD ==> r == a + b
    ensures U32_MOD <= a + b < 2 * U32_MOD ==> r == a + b - U32_MOD
  {
    (a + b) % U32_MOD
  }

  /** size_t addition of two size_t values: the sum wraps at 2^32 or 2^64. */
  function SizeAdd(a: nat, b: nat, sizeMod: nat): nat {
    if a + b < sizeMod then a + b else a + b - sizeMod
  }

  lemma NoWrap(a: nat, b: nat, sizeMod: nat)
    requires a + b < sizeMod
    ensures SizeAdd(a, b, sizeMod) == a + b
  {
  }
}
