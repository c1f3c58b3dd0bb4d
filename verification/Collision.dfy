/** Two records with the same key and expiry that differ in their values and have the same checksum. */
module Collision {
  import opened Types
  import opened Checksum
  import LE = LittleEndian

  function Zeros(n: nat): (s: Bytes)
    ensures |s| == n
  {
    seq(n, _ => 0)
  }

  /** The power of the prime modulo 2^32. */
  function PrimePower(n: nat): uint32 {
    if n == 0 then 1 else FNV_PRIME * PrimePower(n - 1) % WORD32
  }

  lemma SameResidue(x: int, y: int, k: int)
    requires x == y + WORD32 * k
    ensures x % WORD32 == y % WORD32
  {}

  lemma ReduceLater(x: int, y: int, z: int)
    ensures x * y % WORD32 * z % WORD32 == x * (y * z % WORD32) % WORD32
  {
    var c, d := x * y / WORD32, y * z / WORD32;
    var left, right := (x * y - WORD32 * c) * z, x * (y * z - WORD32 * d);
    assert x * y % WORD32 == x * y - WORD32 * c && y * z % WORD32 == y * z - WORD32 * d;
    assert left == x * y * z - WORD32 * (c * z);
    assert right == x * (y * z) - WORD32 * (x * d);
    assert x * y * z == x * (y * z);
    assert left == right + WORD32 * (x * d - c * z) by {
      assert WORD32 * (x * d - c * z) == WORD32 * (x * d) - WORD32 * (c * z);
    }
    SameResidue(left, right, x * d - c * z);
  }

  lemma NextPower(n: nat)
    ensures PrimePower(n + 1) == FNV_PRIME * PrimePower(n) % WORD32
  {}

  lemma {:induction false} PowerSum(a: nat, b: nat, p: uint32, q: uint32)
    requires PrimePower(a) == p && PrimePower(b) == q
    ensures PrimePower(a + b) == p * q % WORD32
  {
    FirstPowers();
    hide PrimePower;
    if a > 0 {
      var p' := PrimePower(a - 1);
      PowerSum(a - 1, b, p', q);
      NextPower(a - 1);
      NextPower(a - 1 + b);
      ReduceLater(FNV_PRIME, p', q);
    }
  }

  lemma Powers()
    ensures PrimePower(0) == 1
    ensures PrimePower(7) == 878009595
    ensures PrimePower(8) == 1566662433
    ensures PrimePower(19) == 390634507
  {
    FirstPowers();
    hide PrimePower;
    PowerSum(1, 1, 16777619, 16777619);
    PowerSum(1, 2, 16777619, 637696617);
    PowerSum(1, 3, 16777619, 1055306571);
    PowerSum(3, 4, 1055306571, 1345077009);
    PowerSum(4, 4, 1345077009, 1345077009);
    PowerSum(3, 8, 1055306571, 1566662433);
    PowerSum(8, 11, 1566662433, 3870355883);
  }

  lemma FirstPowers()
    ensures PrimePower(0) == 1 && PrimePower(1) == FNV_PRIME
  {}

  lemma XorZero(a: nat)
    ensures Xor(a, 0) == a
  {}

  /** One more bit below those already combined. */
  lemma XorBit(a: nat, i: nat, b: nat, j: nat, x: nat)
    requires Xor(a, b) == x && i < 2 && j < 2
    ensures Xor(2 * a + i, 2 * b + j) == 2 * x + if i == j then 0 else 1
  {
    XorParts(2 * a + i, 2 * b + j);
    hide Xor;
    assert (2 * a + i) / 2 == a && (2 * b + j) / 2 == b;
  }

  lemma {:induction false} HashZeros(hash: uint32, n: nat)
    ensures HashBytes(hash, Zeros(n)) == hash * PrimePower(n) % WORD32
    decreases n
  {
    if n > 0 {
      XorZero(hash);
      assert Zeros(n)[1..] == Zeros(n - 1);
      HashZeros(HashByte(hash, 0), n - 1);
      ReduceLater(hash, FNV_PRIME, PrimePower(n - 1));
    }
  }

  /** One byte and then `n` zero bytes, with every intermediate number given. */
  lemma HashByteAndZeros(hash: uint32, b: byte, xored: uint32, next: uint32, n: nat, p: uint32, last: uint32)
    requires Xor(hash, b) == xored && next == xored * FNV_PRIME % WORD32
    requires PrimePower(n) == p && last == next * p % WORD32
    ensures HashBytes(hash, [b] + Zeros(n)) == last
  {
    hide Xor, Zeros, PrimePower;
    HashZeros(next, n);
    assert ([b] + Zeros(n))[1..] == Zeros(n);
  }

  // The operation SET and the expiry 0
  lemma HashFront()
    ensures HashBytes(2166136261, [1] + Zeros(8)) == 2812068108
  {
    hide HashBytes, Xor, Zeros, PrimePower;
    assert Xor(2166136261, 1) == 2166136260 by {
      XorZero(1083068130);
      XorBit(1083068130, 1, 0, 1, 1083068130);
    }
    Powers();
    HashByteAndZeros(2166136261, 1, 2166136260, 67918732, 8, 1566662433, 2812068108);
  }

  // The key size 1
  lemma HashKeySize()
    ensures HashBytes(2812068108, [1] + Zeros(7)) == 2781197741
  {
    hide HashBytes, Xor, Zeros, PrimePower;
    assert Xor(2812068108, 1) == 2812068109 by {
      XorZero(1406034054);
      XorBit(1406034054, 0, 0, 1, 1406034054);
    }
    Powers();
    HashByteAndZeros(2812068108, 1, 2812068109, 3905152887, 7, 878009595, 2781197741);
  }

  // The value size 22, the key and the first 11 bytes of the value
  lemma HashLongSize()
    ensures HashBytes(2781197741, [22] + Zeros(19)) == 2431584043
  {
    hide HashBytes, Xor, Zeros, PrimePower;
    assert Xor(2781197741, 22) == 2781197755 by {
      XorZero(86912429);
      XorBit(86912429, 0, 0, 1, 86912429);
      XorBit(173824858, 1, 1, 0, 173824859);
      XorBit(347649717, 1, 2, 1, 347649719);
      XorBit(695299435, 0, 5, 1, 695299438);
      XorBit(1390598870, 1, 11, 0, 1390598877);
    }
    Powers();
    HashByteAndZeros(2781197741, 22, 2781197755, 2973570401, 19, 390634507, 2431584043);
  }

  // The rest of the value
  lemma HashFirst()
    ensures HashBytes(2431584043, [2] + Zeros(0)) == 1363690891
  {
    hide HashBytes, Xor, Zeros, PrimePower;
    assert Xor(2431584043, 2) == 2431584041 by {
      XorZero(607896010);
      XorBit(607896010, 1, 0, 1, 607896010);
      XorBit(1215792021, 1, 1, 0, 1215792020);
    }
    Powers();
    HashByteAndZeros(2431584043, 2, 2431584041, 1363690891, 0, 1, 1363690891);
  }

  lemma HashSecond()
    ensures HashBytes(1363690891, [58] + Zeros(0)) == 2781197731
  {
    hide HashBytes, Xor, Zeros, PrimePower;
    assert Xor(1363690891, 58) == 1363690929 by {
      XorZero(21307670);
      XorBit(21307670, 0, 0, 1, 21307670);
      XorBit(42615340, 0, 1, 1, 42615341);
      XorBit(85230680, 1, 3, 1, 85230683);
      XorBit(170461361, 0, 7, 0, 170461366);
      XorBit(340922722, 1, 14, 1, 340922732);
      XorBit(681845445, 1, 29, 0, 681845464);
    }
    Powers();
    HashByteAndZeros(1363690891, 58, 1363690929, 2781197731, 0, 1, 2781197731);
  }

  lemma HashThird()
    ensures HashBytes(2781197731, [14] + Zeros(8)) == 143995703
  {
    hide HashBytes, Xor, Zeros, PrimePower;
    assert Xor(2781197731, 14) == 2781197741 by {
      XorZero(173824858);
      XorBit(173824858, 0, 0, 1, 173824858);
      XorBit(347649716, 0, 1, 1, 347649717);
      XorBit(695299432, 1, 3, 1, 695299435);
      XorBit(1390598865, 1, 7, 0, 1390598870);
    }
    Powers();
    HashByteAndZeros(2781197731, 14, 2781197741, 2738683735, 8, 1566662433, 143995703);
  }

  // The value size 0 and the key
  lemma HashShortSize()
    ensures HashBytes(2781197741, [0] + Zeros(8)) == 143995703
  {
    hide HashBytes, Xor, Zeros, PrimePower;
    assert Xor(2781197741, 0) == 2781197741 by {
      XorZero(2781197741);
    }
    Powers();
    HashByteAndZeros(2781197741, 0, 2781197741, 2738683735, 8, 1566662433, 143995703);
  }

  const COLLIDING_VALUE: Bytes := Zeros(11) + [2, 58, 14] + Zeros(8)

  lemma SmallSize(v: byte)
    ensures LE.Encode(8, v) == [v] + Zeros(7)
  {
    forall i | 0 <= i < 8
      ensures LE.Encode(8, v)[i] == ([v] + Zeros(7))[i]
    {
      LE.EncodeSmall(8, v, i);
    }
  }

  /** The checksum runs over the first two parts and then over the value's size, the key and the value. */
  lemma HashWithValue(value: Bytes)
    requires |value| < 256
    ensures RecordHash(OpSet, 0, [0], value) == HashBytes(2781197741, [|value|] + Zeros(8) + value)
  {
    hide HashBytes, LE.Encode;
    SmallSize(0);
    SmallSize(1);
    SmallSize(|value|);
    var rest := [|value|] + Zeros(8) + value;
    assert ChecksumInput(OpSet, 0, [0], value) == ([1] + Zeros(8)) + (([1] + Zeros(7)) + rest);
    HashConcat(2166136261, [1] + Zeros(8), ([1] + Zeros(7)) + rest);
    HashConcat(2812068108, [1] + Zeros(7), rest);
    HashFront();
    HashKeySize();
  }

  lemma LongRest()
    ensures [22] + Zeros(8) + COLLIDING_VALUE
            == ([22] + Zeros(19)) + (([2] + Zeros(0)) + (([58] + Zeros(0)) + ([14] + Zeros(8))))
  {}

  lemma LongHash()
    ensures HashBytes(2781197741, [22] + Zeros(8) + COLLIDING_VALUE) == 143995703
  {
    hide *;
    LongRest();
    HashConcat(2781197741, [22] + Zeros(19), ([2] + Zeros(0)) + (([58] + Zeros(0)) + ([14] + Zeros(8))));
    HashConcat(2431584043, [2] + Zeros(0), ([58] + Zeros(0)) + ([14] + Zeros(8)));
    HashConcat(1363690891, [58] + Zeros(0), [14] + Zeros(8));
    HashLongSize();
    HashFirst();
    HashSecond();
    HashThird();
  }

  lemma ShortHash()
    ensures HashBytes(2781197741, [0] + Zeros(8) + []) == 143995703
  {
    hide *;
    HashShortSize();
    assert [0] + Zeros(8) + [] == [0] + Zeros(8);
  }

  /** The key is one zero byte; the other value is empty. */
  lemma SameChecksum()
    ensures |COLLIDING_VALUE| == 22
    ensures RecordHash(OpSet, 0, [0], COLLIDING_VALUE) == RecordHash(OpSet, 0, [0], [])
  {
    hide RecordHash, HashBytes, Zeros;
    HashWithValue(COLLIDING_VALUE);
    HashWithValue([]);
    LongHash();
    ShortHash();
  }
}
