/** codec_hex.c: decoding of Base16 text (section 8 of RFC 4648), in either case. */
module Hex {
  import opened Bytes

  function HexVal(c: byte): (v: int)
    ensures -1 <= v < 16
  {
    if 48 <= c <= 57 then c - 48          // '0'..'9'
    else if 97 <= c <= 102 then c - 97 + 10   // 'a'..'f'
    else if 65 <= c <= 70 then c - 65 + 10    // 'A'..'F'
    else -1
  }

  /** The digit of a nibble, in the chosen case. */
  function Digit(v: nat, upper: bool): (c: byte)
    requires v < 16
  {
    if v < 10 then 48 + v else if upper then 65 + v - 10 else 97 + v - 10
  }

  predicate IsDigit(c: byte, v: nat)
    requires v < 16
  {
    c == Digit(v, false) || c == Digit(v, true)
  }

  /** A byte has value `v` exactly when it is one of the two spellings of `v`. */
  lemma DigitsExactly(c: byte, v: nat)
    requires v < 16
    ensures HexVal(c) == v <==> IsDigit(c, v)
  {
  }

  /** The digits are the sixteen of the standard's table, in either case, each worth its place in it. */
  lemma DigitTable(c: byte, v: nat)
    requires v < 16
    ensures HexVal(c) == v <==> c == "0123456789abcdef"[v] as int || c == "0123456789ABCDEF"[v] as int
  {
  }

  /** No other byte is a digit. */
  lemma NotADigit(c: byte)
    ensures HexVal(c) == -1 <==> !(48 <= c <= 57 || 65 <= c <= 70 || 97 <= c <= 102)
  {
  }

  /** `text` spells byte `i` of `bytes` with its digits in either case. */
  ghost predicate SpellsAt(text: seq<byte>, bytes: seq<byte>, i: nat) {
    2 * i + 1 < |text| && i < |bytes| && IsDigit(text[2 * i], bytes[i] / 16) && IsDigit(text[2 * i + 1], bytes[i] % 16)
  }

  ghost predicate Spells(text: seq<byte>, bytes: seq<byte>) {
    |text| == 2 * |bytes| && forall i :: 0 <= i < |bytes| ==> SpellsAt(text, bytes, i)
  }

  /** The pair at the front of `text` decodes. */
  predicate PairAt(text: seq<byte>, i: nat) {
    2 * i + 1 < |text| && HexVal(text[2 * i]) >= 0 && HexVal(text[2 * i + 1]) >= 0
  }

  function Pair(text: seq<byte>, i: nat): (b: byte)
    requires PairAt(text, i)
  {
    16 * HexVal(text[2 * i]) + HexVal(text[2 * i + 1])
  }

  /** `r` is what a decoder leaves that stops at the end of the text, at a pair that is not hex, or when
      `cap` bytes are written. */
  ghost predicate Decodes(text: seq<byte>, cap: nat, r: seq<byte>) {
    && |r| <= cap
    && (forall i :: 0 <= i < |r| ==> PairAt(text, i) && r[i] == Pair(text, i))
    && (|r| < cap ==> !PairAt(text, |r|))
  }

  /** The first pair that is not two digits stops the decoder, and before it each pair is a byte, the high digit
      first. */
  lemma StopsAt(text: seq<byte>, cap: nat, r: seq<byte>, p: nat)
    requires Decodes(text, cap, r) && 2 * p <= |text|
    requires forall i :: 0 <= i < 2 * p ==> HexVal(text[i]) >= 0
    requires |text| < 2 * p + 2 || HexVal(text[2 * p]) == -1 || HexVal(text[2 * p + 1]) == -1
    ensures |r| == if cap < p then cap else p
    ensures forall i :: 0 <= i < |r| ==> r[i] / 16 == HexVal(text[2 * i]) && r[i] % 16 == HexVal(text[2 * i + 1])
  {
    assert !PairAt(text, p);
    if |r| < p { assert HexVal(text[2 * |r|]) >= 0 && HexVal(text[2 * |r| + 1]) >= 0; }
    forall i | 0 <= i < |r|
      ensures r[i] / 16 == HexVal(text[2 * i]) && r[i] % 16 == HexVal(text[2 * i + 1])
    {
      assert PairAt(text, i);
    }
  }

  lemma DecodesUnique(text: seq<byte>, cap: nat, r: seq<byte>, r': seq<byte>)
    requires Decodes(text, cap, r) && Decodes(text, cap, r')
    ensures r == r'
  {
    var n: nat, n': nat := |r|, |r'|;
    assert n < n' ==> PairAt(text, n);
    assert n' < n ==> PairAt(text, n');
  }

  /** CodecApply writes at most min(out_cap, in_len / 2) bytes and leaves the rest of the buffer alone. */
  method CodecApply(text: seq<byte>, out: array<byte>, cap: nat) returns (n: nat)
    requires cap <= out.Length
    modifies out
    ensures n <= cap && n <= |text| / 2
    ensures Decodes(text, cap, out[..n]) && out[n..] == old(out[n..])
  {
    n := 0;
    var i := 0;
    while i + 1 < |text| && n < cap
      invariant i == 2 * n && n <= cap && n <= |text| / 2
      invariant forall k :: 0 <= k < n ==> PairAt(text, k) && out[k] == Pair(text, k)
      invariant forall k :: n <= k < out.Length ==> out[k] == old(out[k])
    {
      var hi := HexVal(text[i]);
      var lo := HexVal(text[i + 1]);
      if hi < 0 || lo < 0 { break; }
      out[n] := 16 * hi + lo;
      n, i := n + 1, i + 2;
    }
  }

  /** The decoder inverts Base16: from any spelling of `bytes`, in any mixture of cases, it recovers as many
      of them as fit. */
  lemma DecodeInvertsEncode(text: seq<byte>, bytes: seq<byte>, cap: nat, r: seq<byte>)
    requires Spells(text, bytes) && Decodes(text, cap, r)
    ensures r == Take(bytes, cap)
  {
    forall i | 0 <= i < |bytes|
      ensures PairAt(text, i) && Pair(text, i) == bytes[i]
    {
      DigitPair(text, bytes, i);
    }
    assert |r| < |bytes| ==> PairAt(text, |r|);
    assert |r| > |bytes| ==> PairAt(text, |bytes|);
    assert |r| == |Take(bytes, cap)|;
  }

  lemma DigitPair(text: seq<byte>, bytes: seq<byte>, i: nat)
    requires Spells(text, bytes) && i < |bytes|
    ensures PairAt(text, i) && Pair(text, i) == bytes[i]
  {
    assert SpellsAt(text, bytes, i);
    DigitsExactly(text[2 * i], bytes[i] / 16);
    DigitsExactly(text[2 * i + 1], bytes[i] % 16);
  }

  /** Base16 encoding in one case. */
  function Encode(bytes: seq<byte>, upper: bool): seq<byte> {
    if bytes == [] then [] else [Digit(bytes[0] / 16, upper), Digit(bytes[0] % 16, upper)] + Encode(bytes[1..], upper)
  }

  lemma {:induction false} EncodeSpells(bytes: seq<byte>, upper: bool)
    ensures Spells(Encode(bytes, upper), bytes)
  {
    if bytes != [] {
      EncodeSpells(bytes[1..], upper);
      var rest, text := Encode(bytes[1..], upper), Encode(bytes, upper);
      assert text == [Digit(bytes[0] / 16, upper), Digit(bytes[0] % 16, upper)] + rest;
      forall i | 0 <= i < |bytes|
        ensures SpellsAt(text, bytes, i)
      {
        if i > 0 {
          assert SpellsAt(rest, bytes[1..], i - 1);
          assert text[2 * i] == rest[2 * (i - 1)] && text[2 * i + 1] == rest[2 * (i - 1) + 1];
        }
      }
    }
  }
}
