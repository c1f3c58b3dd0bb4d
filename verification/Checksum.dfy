/** Little-endian integers: the byte layout used by the header and by the checksum. */
module LittleEndian {
  import opened Types

  function Pow256(n: nat): (p: nat)
    ensures p > 0
  {
    if n == 0 then 1 else 256 * Pow256(n - 1)
  }

  /** The `width` low bytes of `v`, least significant first: byte `i` is `v` shifted right by `i` bytes. */
  function Encode(width: nat, v: nat): (s: Bytes)
    ensures |s| == width
  {
    seq(width, i requires 0 <= i < width => v / Pow256(i) % 256)
  }

  lemma MultipleAtLeast(d: nat, k: int)
    requires k >= 1
    ensures d * k >= d
  {}

  lemma QuotientUnique(v: nat, d: nat, q: int, r: int)
    requires 0 <= r < d && v == d * q + r
    ensures v / d == q
  {
    var q', r' := v / d, v % d;
    assert v == d * q' + r' && 0 <= r' < d;
    if q < q' {
      assert d * (q' - q) == d * q' - d * q;
      MultipleAtLeast(d, q' - q);
    } else if q > q' {
      assert d * (q - q') == d * q - d * q';
      MultipleAtLeast(d, q - q');
    }
  }

  /** Shifting by a byte and then by `i` more bytes. */
  lemma ShiftTwice(v: nat, p: nat)
    requires p > 0
    ensures v / 256 / p == v / (256 * p)
  {
    var w := v / 256;
    var q, r, s := w / p, w % p, v % 256;
    assert w == p * q + r;
    assert v == 256 * w + s;
    assert 256 * (p * q) == (256 * p) * q;
    QuotientUnique(v, 256 * p, q, 256 * r + s);
  }

  lemma EncodeHead(width: nat, v: nat)
    requires width > 0
    ensures Encode(width, v) == [v % 256] + Encode(width - 1, v / 256)
  {
    forall i | 1 <= i < width
      ensures v / Pow256(i) == v / 256 / Pow256(i - 1)
    {
      ShiftTwice(v, Pow256(i - 1));
    }
  }

  /** A value below 256 takes one byte; the others are zero. */
  lemma EncodeSmall(width: nat, v: byte, i: nat)
    requires i < width
    ensures Encode(width, v)[i] == if i == 0 then v else 0
  {
    if i > 0 {
      assert Pow256(i) == 256 * Pow256(i - 1);
      MultipleAtLeast(256, Pow256(i - 1));
      QuotientUnique(v, Pow256(i), 0, v);
    }
  }

  function Decode(s: Bytes): (v: nat)
    ensures v < Pow256(|s|)
  {
    if s == [] then 0 else s[0] + 256 * Decode(s[1..])
  }

  lemma {:induction false} DecodeEncode(width: nat, v: nat)
    requires v < Pow256(width)
    ensures Decode(Encode(width, v)) == v
  {
    if width > 0 {
      EncodeHead(width, v);
      DecodeEncode(width - 1, v / 256);
      assert Encode(width, v)[1..] == Encode(width - 1, v / 256);
    }
  }

  lemma {:induction false} EncodeDecode(s: Bytes)
    ensures Encode(|s|, Decode(s)) == s
  {
    if s != [] {
      EncodeDecode(s[1..]);
      EncodeHead(|s|, Decode(s));
      assert Decode(s) / 256 == Decode(s[1..]);
      assert s == [s[0]] + s[1..];
    }
  }

  /** Appending one more significant byte adds it with weight 256^n. */
  lemma {:induction false} DecodeSnoc(s: Bytes, b: byte)
    ensures Decode(s + [b]) == Decode(s) + b * Pow256(|s|)
  {
    if s == [] {
      assert (s + [b])[1..] == [];
    } else {
      DecodeSnoc(s[1..], b);
      assert (s + [b])[1..] == s[1..] + [b];
      var weight := Pow256(|s| - 1);
      assert b * (256 * weight) == 256 * (b * weight);
    }
  }

  lemma Powers()
    ensures Pow256(2) == 0x1_0000
    ensures Pow256(4) == WORD32
    ensures Pow256(8) == WORD64
  {
    assert Pow256(1) == 256 * Pow256(0);
    assert Pow256(2) == 256 * Pow256(1);
    assert Pow256(3) == 256 * Pow256(2);
    assert Pow256(4) == 256 * Pow256(3);
    assert Pow256(5) == 256 * Pow256(4);
    assert Pow256(6) == 256 * Pow256(5);
    assert Pow256(7) == 256 * Pow256(6);
    assert Pow256(8) == 256 * Pow256(7);
  }

  /** The 64-bit two's complement image of a signed integer, and its inverse. */
  function Unsigned64(v: int64): (u: nat)
    ensures u < WORD64
  {
    if v < 0 then v + WORD64 else v
  }

  function Signed64(u: nat): (v: int64)
    requires u < WORD64
    ensures Unsigned64(v) == u
  {
    if u >= 0x8000_0000_0000_0000 then u - WORD64 else u
  }
}

/** The 32-bit FNV-1a checksum of a record. */
module Checksum {
  import opened Types
  import LE = LittleEndian

  const FNV_OFFSET_BASIS: uint32 := 2166136261
  const FNV_PRIME: int := 16777619

  /** The inverse of the prime modulo 2^32; it exists because the prime is odd. */
  const FNV_PRIME_INVERSE: int := 899433627

  function Pow2(n: nat): (p: nat)
    ensures p > 0
  {
    if n == 0 then 1 else 2 * Pow2(n - 1)
  }

  /** Bitwise exclusive or. */
  function Xor(a: nat, b: nat): nat
    decreases a + b
  {
    if a == 0 then b
    else if b == 0 then a
    else (if a % 2 == b % 2 then 0 else 1) + 2 * Xor(a / 2, b / 2)
  }

  lemma {:induction false} XorBound(n: nat, a: nat, b: nat)
    requires a < Pow2(n) && b < Pow2(n)
    ensures Xor(a, b) < Pow2(n)
  {
    if n > 0 {
      XorBound(n - 1, a / 2, b / 2);
    }
  }

  lemma XorParts(a: nat, b: nat)
    ensures Xor(a, b) / 2 == Xor(a / 2, b / 2)
    ensures Xor(a, b) % 2 == if a % 2 == b % 2 then 0 else 1
  {}

  lemma XorOfParts(x: nat, b: nat)
    ensures Xor(x, b) == (if x % 2 == b % 2 then 0 else 1) + 2 * Xor(x / 2, b / 2)
  {
    XorParts(x, b);
  }

  lemma {:induction false} XorInverse(a: nat, b: nat)
    ensures Xor(Xor(a, b), b) == a
    ensures Xor(b, Xor(b, a)) == a
    decreases a + b
  {
    if a != 0 && b != 0 {
      XorInverse(a / 2, b / 2);
      XorParts(a, b);
      XorParts(b, a);
      XorOfParts(Xor(a, b), b);
      XorOfParts(b, Xor(b, a));
    } else {
      XorSelf(b);
    }
  }

  lemma {:induction false} XorSelf(b: nat)
    ensures Xor(b, b) == 0
  {
    if b != 0 {
      XorSelf(b / 2);
    }
  }

  lemma Pow2Of32()
    ensures Pow2(32) == WORD32
  {
    assert Pow2(8) == 256;
    assert Pow2(16) == 0x1_0000;
    assert Pow2(24) == 0x100_0000;
  }

  lemma XorIn32Bits(a: uint32, b: byte)
    ensures Xor(a, b) < WORD32
  {
    Pow2Of32();
    XorBound(32, a, b);
  }

  function HashByte(hash: uint32, b: byte): uint32 {
    Xor(hash, b) * FNV_PRIME % WORD32
  }

  /** Undoes HashByte for a known byte. */
  function UnhashByte(hash: uint32, b: byte): uint32 {
    XorIn32Bits(hash * FNV_PRIME_INVERSE % WORD32, b);
    Xor(hash * FNV_PRIME_INVERSE % WORD32, b)
  }

  lemma ReduceMultiple(x: uint32, z: int)
    ensures (x + WORD32 * z) % WORD32 == x
  {}

  lemma InverseWith(x: uint32, p: int, q: int)
    requires (p == FNV_PRIME && q == FNV_PRIME_INVERSE) || (p == FNV_PRIME_INVERSE && q == FNV_PRIME)
    ensures x * p % WORD32 * q % WORD32 == x
  {
    var carry := x * p / WORD32;
    assert x * p % WORD32 == x * p - WORD32 * carry;
    assert p * q == 1 + WORD32 * 3513497;
    assert (x * p - WORD32 * carry) * q == x * (p * q) - WORD32 * (carry * q);
    assert x * (p * q) == x + WORD32 * (3513497 * x);
    ReduceMultiple(x, 3513497 * x - carry * q);
  }

  lemma MultiplicationInverse(x: uint32)
    ensures x * FNV_PRIME % WORD32 * FNV_PRIME_INVERSE % WORD32 == x
    ensures x * FNV_PRIME_INVERSE % WORD32 * FNV_PRIME % WORD32 == x
  {
    InverseWith(x, FNV_PRIME, FNV_PRIME_INVERSE);
    InverseWith(x, FNV_PRIME_INVERSE, FNV_PRIME);
  }

  /** One checksum step is a bijection of the 32-bit words, for every byte. */
  lemma HashByteBijective(hash: uint32, b: byte)
    ensures UnhashByte(HashByte(hash, b), b) == hash
    ensures HashByte(UnhashByte(hash, b), b) == hash
  {
    XorIn32Bits(hash, b);
    MultiplicationInverse(Xor(hash, b));
    XorInverse(hash, b);
    var x := hash * FNV_PRIME_INVERSE % WORD32;
    XorInverse(x, b);
    MultiplicationInverse(hash);
  }

  /** From one and the same word, different bytes lead to different words. */
  lemma HashByteSeparates(hash: uint32, b: byte, c: byte)
    ensures HashByte(hash, b) == HashByte(hash, c) ==> b == c
  {
    XorIn32Bits(hash, b);
    XorIn32Bits(hash, c);
    MultiplicationInverse(Xor(hash, b));
    MultiplicationInverse(Xor(hash, c));
    XorInverse(b, hash);
    XorInverse(c, hash);
  }

  function HashBytes(hash: uint32, s: Bytes): uint32
    decreases s
  {
    if s == [] then hash else HashBytes(HashByte(hash, s[0]), s[1..])
  }

  lemma {:induction false} HashConcat(hash: uint32, s: Bytes, t: Bytes)
    ensures HashBytes(hash, s + t) == HashBytes(HashBytes(hash, s), t)
    decreases s
  {
    if s == [] {
      assert s + t == t;
    } else {
      assert (s + t)[1..] == s[1..] + t;
      HashConcat(HashByte(hash, s[0]), s[1..], t);
    }
  }

  lemma HashSnoc(hash: uint32, s: Bytes, b: byte)
    ensures HashBytes(hash, s + [b]) == HashByte(HashBytes(hash, s), b)
  {
    HashConcat(hash, s, [b]);
    assert HashBytes(HashBytes(hash, s), [b]) == HashBytes(HashByte(HashBytes(hash, s), b), []);
  }

  /** Hashing a fixed suffix never merges two different words. */
  lemma {:induction false} HashInjective(h: uint32, g: uint32, s: Bytes)
    ensures HashBytes(h, s) == HashBytes(g, s) ==> h == g
    decreases s
  {
    if s != [] {
      HashInjective(HashByte(h, s[0]), HashByte(g, s[0]), s[1..]);
      HashByteBijective(h, s[0]);
      HashByteBijective(g, s[0]);
    }
  }

  /** Changing exactly one byte of the input always changes the hash. */
  lemma HashDetectsOneByte(hash: uint32, s: Bytes, i: nat, b: byte)
    requires i < |s| && s[i] != b
    ensures HashBytes(hash, s[i := b]) != HashBytes(hash, s)
  {
    var prefix, suffix := s[..i], s[i + 1..];
    assert s == prefix + ([s[i]] + suffix);
    assert s[i := b] == prefix + ([b] + suffix);
    HashConcat(hash, prefix, [s[i]] + suffix);
    HashConcat(hash, prefix, [b] + suffix);
    var mid := HashBytes(hash, prefix);
    assert ([s[i]] + suffix)[1..] == suffix == ([b] + suffix)[1..];
    HashByteSeparates(mid, s[i], b);
    HashInjective(HashByte(mid, s[i]), HashByte(mid, b), suffix);
  }

  /** The bytes that the checksum of a record runs over, in order. */
  function ChecksumInput(op: Operation, expiresAtMs: int64, key: Bytes, value: Bytes): Bytes {
    [OperationByte(op)] + LE.Encode(8, LE.Unsigned64(expiresAtMs))
    + LE.Encode(8, |key|) + LE.Encode(8, |value|) + key + value
  }

  function RecordHash(op: Operation, expiresAtMs: int64, key: Bytes, value: Bytes): uint32 {
    HashBytes(FNV_OFFSET_BASIS, ChecksumInput(op, expiresAtMs, key, value))
  }

  /** The running hash over a byte string. */
  method HashString(start: uint32, s: Bytes) returns (hash: uint32)
    ensures hash == HashBytes(start, s)
  {
    hash := start;
    for i := 0 to |s|
      invariant hash == HashBytes(start, s[..i])
    {
      HashSnoc(start, s[..i], s[i]);
      assert s[..i + 1] == s[..i] + [s[i]];
      hash := HashByte(hash, s[i]);
    }
    assert s[..|s|] == s;
  }

  /** Hashes a 64-bit value least significant byte first, shifting it by 8 more bits each time. */
  method Hash64(start: uint32, value: nat) returns (hash: uint32)
    ensures hash == HashBytes(start, LE.Encode(8, value))
  {
    hash := start;
    ghost var bytes := LE.Encode(8, value);
    var weight: nat := 1;
    for i := 0 to 8
      invariant weight == LE.Pow256(i)
      invariant hash == HashBytes(start, bytes[..i])
    {
      HashSnoc(start, bytes[..i], bytes[i]);
      assert bytes[..i + 1] == bytes[..i] + [bytes[i]];
      hash := HashByte(hash, value / weight % 256);
      weight := 256 * weight;
    }
    assert bytes[..8] == bytes;
  }

  /** The checksum computed step by step equals the FNV-1a hash of the record's canonical bytes. */
  method RecordChecksum(op: Operation, expiresAtMs: int64, key: Bytes, value: Bytes) returns (hash: uint32)
    ensures hash == RecordHash(op, expiresAtMs, key, value)
  {
    hash := HashByte(FNV_OFFSET_BASIS, OperationByte(op));
    ghost var done := [OperationByte(op)];
    assert hash == HashBytes(FNV_OFFSET_BASIS, done) by {
      HashSnoc(FNV_OFFSET_BASIS, [], OperationByte(op));
    }
    hash := Hash64(hash, LE.Unsigned64(expiresAtMs));
    HashConcat(FNV_OFFSET_BASIS, done, LE.Encode(8, LE.Unsigned64(expiresAtMs)));
    done := done + LE.Encode(8, LE.Unsigned64(expiresAtMs));
    hash := Hash64(hash, |key|);
    HashConcat(FNV_OFFSET_BASIS, done, LE.Encode(8, |key|));
    done := done + LE.Encode(8, |key|);
    hash := Hash64(hash, |value|);
    HashConcat(FNV_OFFSET_BASIS, done, LE.Encode(8, |value|));
    done := done + LE.Encode(8, |value|);
    hash := HashString(hash, key);
    HashConcat(FNV_OFFSET_BASIS, done, key);
    done := done + key;
    hash := HashString(hash, value);
    HashConcat(FNV_OFFSET_BASIS, done, value);
  }
}
