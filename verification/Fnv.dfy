/** hash_str of cachecore.c: 32-bit FNV-1a over the bytes of a key, in arithmetic modulo 2^32. */
module Fnv {
  import opened Bytes

  const OFFSET_BASIS: nat := 2166136261
  const PRIME: nat := 16777619
  const PRIME_INVERSE: nat := 899433627   // PRIME * PRIME_INVERSE == 1 modulo 2^32

  /** A uint32_t. */
  type u32 = x: int | 0 <= x < 0x1_0000_0000

  // ---- exclusive or --------------------------------------------------------

  function Xor(a: nat, b: nat): nat
    decreases a + b
  {
    if a == 0 && b == 0 then 0 else Bit(a, b) + 2 * Xor(a / 2, b / 2)
  }

  /** The exclusive or of the last bits. */
  function Bit(a: nat, b: nat): (r: nat)
    ensures r < 2
  {
    if a % 2 == b % 2 then 0 else 1
  }

  lemma {:induction false} XorBound(a: nat, b: nat, bits: nat, bound: nat)
    requires bound == Pow2(bits) && a < bound && b < bound
    ensures Xor(a, b) < bound
    decreases bits
  {
    if bits > 0 { XorBound(a / 2, b / 2, bits - 1, bound / 2); }
  }

  function Pow2(n: nat): nat {
    if n == 0 then 1 else 2 * Pow2(n - 1)
  }

  lemma Halve(bit: nat, rest: nat)
    requires bit < 2
    ensures (bit + 2 * rest) % 2 == bit && (bit + 2 * rest) / 2 == rest
  {
  }

  /** The last bit, and the rest. */
  lemma XorBits(a: nat, b: nat)
    ensures Xor(a, b) % 2 == Bit(a, b) && Xor(a, b) / 2 == Xor(a / 2, b / 2)
  {
    Halve(Bit(a, b), Xor(a / 2, b / 2));
  }

  lemma {:induction false} XorInvolution(a: nat, b: nat)
    ensures Xor(Xor(a, b), b) == a
    decreases a + b
  {
    if a != 0 || b != 0 {
      hide Xor;
      XorBits(a, b);
      XorBits(Xor(a, b), b);
      XorInvolution(a / 2, b / 2);
      var x := Xor(Xor(a, b), b);
      assert x % 2 == a % 2 && x / 2 == a / 2;
    }
  }

  lemma {:induction false} XorSymmetric(a: nat, b: nat)
    ensures Xor(a, b) == Xor(b, a)
    decreases a + b
  {
    if a != 0 || b != 0 { XorSymmetric(a / 2, b / 2); }
  }

  function XorU32(h: u32, c: byte): (r: u32) {
    XorBoundU32(h, c);
    Xor(h, c)
  }

  lemma XorBoundU32(h: u32, c: byte)
    ensures Xor(h, c) < U32_MOD
  {
    Pow2Of32();
    XorBound(h, c, 32, U32_MOD);
  }

  lemma Pow2Of32()
    ensures Pow2(32) == U32_MOD
  {
    assert Pow2(8) == 0x100;
    assert Pow2(16) == 0x1_0000;
    assert Pow2(24) == 0x100_0000;
  }

  // ---- the steps -----------------------------------------------------------

  function Step(h: u32, c: byte): u32 {
    XorU32(h, c) * PRIME % U32_MOD
  }

  function Unstep(h: u32, c: byte): u32 {
    XorU32(h * PRIME_INVERSE % U32_MOD, c)
  }

  function HashFrom(h: u32, key: seq<byte>): u32
    decreases |key|
  {
    if key == [] then h else HashFrom(Step(h, key[0]), key[1..])
  }

  lemma Reduce(x: u32, v: int, k: int)
    requires v == x + U32_MOD * k
    ensures v % U32_MOD == x
  {
  }

  /** Multiplying by two factors whose product is 1 modulo 2^32 changes nothing. */
  lemma PrimeThenInverse(x: u32)
    ensures x * PRIME % U32_MOD * PRIME_INVERSE % U32_MOD == x
  {
    var t := x * PRIME / U32_MOD;
    var y := x * PRIME % U32_MOD;
    assert y == x * PRIME - U32_MOD * t;
    Reduce(x, y * PRIME_INVERSE, 3513497 * x - PRIME_INVERSE * t);
  }

  lemma InverseThenPrime(x: u32)
    ensures x * PRIME_INVERSE % U32_MOD * PRIME % U32_MOD == x
  {
    var t := x * PRIME_INVERSE / U32_MOD;
    var y := x * PRIME_INVERSE % U32_MOD;
    assert y == x * PRIME_INVERSE - U32_MOD * t;
    Reduce(x, y * PRIME, 3513497 * x - PRIME * t);
  }

  /** Each step is a bijection on the 32-bit states. */
  lemma StepBijective(h: u32, c: byte)
    ensures Unstep(Step(h, c), c) == h && Step(Unstep(h, c), c) == h
  {
    PrimeThenInverse(XorU32(h, c));
    XorInvolution(h, c);
    InverseThenPrime(h);
    XorInvolution(h * PRIME_INVERSE % U32_MOD, c);
  }

  /** Different bytes take a state to different states. */
  lemma StepSeparates(h: u32, c: byte, d: byte)
    requires c != d
    ensures Step(h, c) != Step(h, d)
  {
    PrimeThenInverse(XorU32(h, c));
    PrimeThenInverse(XorU32(h, d));
    XorSymmetric(h, c);
    XorSymmetric(h, d);
    XorInvolution(c, h);
    XorInvolution(d, h);
  }

  /** The exclusive or comes before the multiplication: flipping the last bit of a byte moves the state by the
      prime, one way or the other. */
  lemma StepMovesByPrime(h: u32, c: byte)
    requires c % 2 == 0
    ensures (Step(h, c + 1) - Step(h, c)) % 0x1_0000_0000 in {16777619, 0x1_0000_0000 - 16777619}
  {
    XorBits(h, c);
    XorBits(h, c + 1);
    hide Xor;
    var x, y: int := XorU32(h, c), XorU32(h, c + 1);
    assert y == x + 1 || y == x - 1;
    var s, t := x * PRIME / U32_MOD, y * PRIME / U32_MOD;
    assert Step(h, c) == x * PRIME - U32_MOD * s && Step(h, c + 1) == y * PRIME - U32_MOD * t;
    if y == x + 1 {
      Reduce(16777619, Step(h, c + 1) - Step(h, c), s - t);
    } else {
      Reduce(0x1_0000_0000 - 16777619, Step(h, c + 1) - Step(h, c), s - t - 1);
    }
  }

  lemma {:induction false} XorZero(a: nat)
    ensures Xor(a, 0) == a
    decreases a
  {
    if a != 0 { XorZero(a / 2); }
  }

  /** The hashes of the empty key and of "a". */
  lemma FirstHashes()
    ensures HashFrom(2166136261, []) == 2166136261
    ensures HashFrom(2166136261, [97]) == 0xE40C292C
  {
    hide Xor;
    XorZero(16922939);
    XorBits(33845879, 1);
    XorBits(67691758, 3);
    XorBits(135383516, 6);
    XorBits(270767032, 12);
    XorBits(541534065, 24);
    XorBits(1083068130, 48);
    XorBits(2166136261, 97);
    assert XorU32(2166136261, 97) == 2166136228;
    assert HashFrom(2166136261, [97]) == HashFrom(Step(2166136261, 97), [97][1..]);
  }

  lemma {:induction false} HashConcat(h: u32, a: seq<byte>, b: seq<byte>)
    ensures HashFrom(h, a + b) == HashFrom(HashFrom(h, a), b)
    decreases |a|
  {
    if a == [] {
      assert a + b == b;
    } else {
      assert (a + b)[1..] == a[1..] + b;
      HashConcat(Step(h, a[0]), a[1..], b);
    }
  }

  /** Different states stay different through any common suffix. */
  lemma {:induction false} HashInjective(g: u32, h: u32, key: seq<byte>)
    requires g != h
    ensures HashFrom(g, key) != HashFrom(h, key)
    decreases |key|
  {
    if key != [] {
      StepBijective(g, key[0]);
      StepBijective(h, key[0]);
      HashInjective(Step(g, key[0]), Step(h, key[0]), key[1..]);
    }
  }

  /** Keys of equal length that differ in one byte never share a hash. */
  lemma OneByteApart(before: seq<byte>, x: byte, y: byte, after: seq<byte>)
    requires x != y
    ensures HashFrom(OFFSET_BASIS, before + [x] + after) != HashFrom(OFFSET_BASIS, before + [y] + after)
  {
    hide Step;
    var h := HashFrom(OFFSET_BASIS, before);
    HashConcat(OFFSET_BASIS, before + [x], after);
    HashConcat(OFFSET_BASIS, before, [x]);
    HashConcat(OFFSET_BASIS, before + [y], after);
    HashConcat(OFFSET_BASIS, before, [y]);
    StepSeparates(h, x, y);
    HashInjective(Step(h, x), Step(h, y), after);
  }

  /** The accumulator loop, over the key's bytes up to its NUL. */
  method HashStr(key: seq<byte>) returns (h: u32)
    ensures h == HashFrom(2166136261, key)
  {
    h := OFFSET_BASIS;
    for i := 0 to |key|
      invariant HashFrom(h, key[i..]) == HashFrom(OFFSET_BASIS, key)
    {
      var x := XorU32(h, key[i]);
      h := x * PRIME % U32_MOD;
    }
  }
}
