/** The functions on words that a round computes with, as the standard and as the source write them. */
module RoundLogic {
  /** A 32-bit word; only the functions that compute on its bits open it. */
  datatype Word = Word(bits: bv32)

  // Sections 3.2 and 4.1.2 of FIPS 180-2, on bits.
  function ChBits(x: bv32, y: bv32, z: bv32): bv32 { (x & y) ^ (!x & z) }
  function MajBits(x: bv32, y: bv32, z: bv32): bv32 { (x & y) ^ (x & z) ^ (y & z) }
  function BigSigma0Bits(x: bv32): bv32 { x.RotateRight(2) ^ x.RotateRight(13) ^ x.RotateRight(22) }
  function BigSigma1Bits(x: bv32): bv32 { x.RotateRight(6) ^ x.RotateRight(11) ^ x.RotateRight(25) }
  function SmallSigma0Bits(x: bv32): bv32 { x.RotateRight(7) ^ x.RotateRight(18) ^ (x >> 3) }
  function SmallSigma1Bits(x: bv32): bv32 { x.RotateRight(17) ^ x.RotateRight(19) ^ (x >> 10) }

  // The macros of sha256_process on bits, with SHR and ROTR written out.
  function F0Bits(x: bv32, y: bv32, z: bv32): bv32 { (x & y) | (z & (x | y)) }
  function F1Bits(x: bv32, y: bv32, z: bv32): bv32 { z ^ (x & (y ^ z)) }
  function S0Bits(x: bv32): bv32 {
    (((x & 0xFFFF_FFFF) >> 7) | (x << 25)) ^ (((x & 0xFFFF_FFFF) >> 18) | (x << 14)) ^ ((x & 0xFFFF_FFFF) >> 3)
  }
  function S1Bits(x: bv32): bv32 {
    (((x & 0xFFFF_FFFF) >> 17) | (x << 15)) ^ (((x & 0xFFFF_FFFF) >> 19) | (x << 13)) ^ ((x & 0xFFFF_FFFF) >> 10)
  }
  function S2Bits(x: bv32): bv32 {
    (((x & 0xFFFF_FFFF) >> 2) | (x << 30)) ^ (((x & 0xFFFF_FFFF) >> 13) | (x << 19))
    ^ (((x & 0xFFFF_FFFF) >> 22) | (x << 10))
  }
  function S3Bits(x: bv32): bv32 {
    (((x & 0xFFFF_FFFF) >> 6) | (x << 26)) ^ (((x & 0xFFFF_FFFF) >> 11) | (x << 21))
    ^ (((x & 0xFFFF_FFFF) >> 25) | (x << 7))
  }

  // The same on words.
  function Ch(x: Word, y: Word, z: Word): Word { Word(ChBits(x.bits, y.bits, z.bits)) }
  function Maj(x: Word, y: Word, z: Word): Word { Word(MajBits(x.bits, y.bits, z.bits)) }
  function BigSigma0(x: Word): Word { Word(BigSigma0Bits(x.bits)) }
  function BigSigma1(x: Word): Word { Word(BigSigma1Bits(x.bits)) }
  function SmallSigma0(x: Word): Word { Word(SmallSigma0Bits(x.bits)) }
  function SmallSigma1(x: Word): Word { Word(SmallSigma1Bits(x.bits)) }
  function F0(x: Word, y: Word, z: Word): Word { Word(F0Bits(x.bits, y.bits, z.bits)) }
  function F1(x: Word, y: Word, z: Word): Word { Word(F1Bits(x.bits, y.bits, z.bits)) }
  function S0(x: Word): Word { Word(S0Bits(x.bits)) }
  function S1(x: Word): Word { Word(S1Bits(x.bits)) }
  function S2(x: Word): Word { Word(S2Bits(x.bits)) }
  function S3(x: Word): Word { Word(S3Bits(x.bits)) }

  lemma F0IsMaj(x: Word, y: Word, z: Word)
    ensures F0(x, y, z) == Maj(x, y, z)
  {}

  lemma F1IsCh(x: Word, y: Word, z: Word)
    ensures F1(x, y, z) == Ch(x, y, z)
  {}

  lemma S0Is(x: Word)
    ensures S0(x) == SmallSigma0(x)
  {
    S0Agrees(x.bits);
    hide S0Bits, SmallSigma0Bits;
  }

  lemma S0Agrees(x: bv32)
    ensures S0Bits(x) == SmallSigma0Bits(x)
  {
    Rotations(x);
  }

  lemma S1Is(x: Word)
    ensures S1(x) == SmallSigma1(x)
  {
    S1Agrees(x.bits);
    hide S1Bits, SmallSigma1Bits;
  }

  lemma S1Agrees(x: bv32)
    ensures S1Bits(x) == SmallSigma1Bits(x)
  {
    Rotations(x);
  }

  lemma S2Is(x: Word)
    ensures S2(x) == BigSigma0(x)
  {
    S2Agrees(x.bits);
    hide S2Bits, BigSigma0Bits;
  }

  lemma S2Agrees(x: bv32)
    ensures S2Bits(x) == BigSigma0Bits(x)
  {
    Rotations(x);
  }

  lemma S3Is(x: Word)
    ensures S3(x) == BigSigma1(x)
  {
    S3Agrees(x.bits);
    hide S3Bits, BigSigma1Bits;
  }

  lemma S3Agrees(x: bv32)
    ensures S3Bits(x) == BigSigma1Bits(x)
  {
    Rotations(x);
  }

  /** ROTR rotates. */
  lemma Rotations(x: bv32)
    ensures ((x & 0xFFFF_FFFF) >> 2) | (x << 30) == x.RotateRight(2)
    ensures ((x & 0xFFFF_FFFF) >> 6) | (x << 26) == x.RotateRight(6)
    ensures ((x & 0xFFFF_FFFF) >> 7) | (x << 25) == x.RotateRight(7)
    ensures ((x & 0xFFFF_FFFF) >> 11) | (x << 21) == x.RotateRight(11)
    ensures ((x & 0xFFFF_FFFF) >> 13) | (x << 19) == x.RotateRight(13)
    ensures ((x & 0xFFFF_FFFF) >> 17) | (x << 15) == x.RotateRight(17)
    ensures ((x & 0xFFFF_FFFF) >> 18) | (x << 14) == x.RotateRight(18)
    ensures ((x & 0xFFFF_FFFF) >> 19) | (x << 13) == x.RotateRight(19)
    ensures ((x & 0xFFFF_FFFF) >> 22) | (x << 10) == x.RotateRight(22)
    ensures ((x & 0xFFFF_FFFF) >> 25) | (x << 7) == x.RotateRight(25)
    ensures (x & 0xFFFF_FFFF) >> 3 == x >> 3 && (x & 0xFFFF_FFFF) >> 10 == x >> 10
  {}

  /** Where x has a 1, Ch is y, and where it has a 0, z. */
  lemma ChChooses(x: bv32, y: bv32, z: bv32)
    ensures x & ChBits(x, y, z) == x & y && !x & ChBits(x, y, z) == !x & z
  {}

  /** Where x and y agree, Maj is x, and elsewhere z. */
  lemma MajDecides(x: bv32, y: bv32, z: bv32)
    ensures !(x ^ y) & MajBits(x, y, z) == !(x ^ y) & x && (x ^ y) & MajBits(x, y, z) == (x ^ y) & z
  {}

  /** Bit i, counted from the least significant one. */
  function Bit(x: bv32, i: bv32): bv32
    requires i < 32
  {
    (x >> i) & 1
  }

  lemma XorBit(x: bv32, y: bv32, z: bv32, i: bv32)
    requires i < 32
    ensures Bit(x ^ y ^ z, i) == Bit(x, i) ^ Bit(y, i) ^ Bit(z, i)
  {}

  // Bit i of each Sigma is the exclusive or of three bits so many places up, the last of which does not go
  // round in the small ones.
  lemma BigSigma0At(x: bv32, i: bv32)
    requires i < 32
    ensures Bit(BigSigma0Bits(x), i)
         == Bit(x, (i + 2) & 31) ^ Bit(x, (i + 13) & 31) ^ Bit(x, (i + 22) & 31)
  {
    TurnedBigSigma0(x, i);
    XorBit(x.RotateRight(2), x.RotateRight(13), x.RotateRight(22), i);
    hide Bit;
  }

  lemma TurnedBigSigma0(x: bv32, i: bv32)
    requires i < 32
    ensures Bit(x.RotateRight(2), i) == Bit(x, (i + 2) & 31)
    ensures Bit(x.RotateRight(13), i) == Bit(x, (i + 13) & 31)
    ensures Bit(x.RotateRight(22), i) == Bit(x, (i + 22) & 31)
  {}

  lemma BigSigma1At(x: bv32, i: bv32)
    requires i < 32
    ensures Bit(BigSigma1Bits(x), i)
         == Bit(x, (i + 6) & 31) ^ Bit(x, (i + 11) & 31) ^ Bit(x, (i + 25) & 31)
  {
    TurnedBigSigma1(x, i);
    XorBit(x.RotateRight(6), x.RotateRight(11), x.RotateRight(25), i);
    hide Bit;
  }

  lemma TurnedBigSigma1(x: bv32, i: bv32)
    requires i < 32
    ensures Bit(x.RotateRight(6), i) == Bit(x, (i + 6) & 31)
    ensures Bit(x.RotateRight(11), i) == Bit(x, (i + 11) & 31)
    ensures Bit(x.RotateRight(25), i) == Bit(x, (i + 25) & 31)
  {}

  lemma SmallSigma0At(x: bv32, i: bv32)
    requires i < 32
    ensures Bit(SmallSigma0Bits(x), i)
         == Bit(x, (i + 7) & 31) ^ Bit(x, (i + 18) & 31) ^ (if i < 29 then Bit(x, i + 3) else 0)
  {
    TurnedSmallSigma0(x, i);
    XorBit(x.RotateRight(7), x.RotateRight(18), x >> 3, i);
    hide Bit;
  }

  lemma TurnedSmallSigma0(x: bv32, i: bv32)
    requires i < 32
    ensures Bit(x.RotateRight(7), i) == Bit(x, (i + 7) & 31)
    ensures Bit(x.RotateRight(18), i) == Bit(x, (i + 18) & 31)
    ensures Bit(x >> 3, i) == if i < 29 then Bit(x, i + 3) else 0
  {}

  lemma SmallSigma1At(x: bv32, i: bv32)
    requires i < 32
    ensures Bit(SmallSigma1Bits(x), i)
         == Bit(x, (i + 17) & 31) ^ Bit(x, (i + 19) & 31) ^ (if i < 22 then Bit(x, i + 10) else 0)
  {
    TurnedSmallSigma1(x, i);
    XorBit(x.RotateRight(17), x.RotateRight(19), x >> 10, i);
    hide Bit;
  }

  lemma TurnedSmallSigma1(x: bv32, i: bv32)
    requires i < 32
    ensures Bit(x.RotateRight(17), i) == Bit(x, (i + 17) & 31)
    ensures Bit(x.RotateRight(19), i) == Bit(x, (i + 19) & 31)
    ensures Bit(x >> 10, i) == if i < 22 then Bit(x, i + 10) else 0
  {}

  /** Four bytes as a word, most significant first: section 3.1, item 2. */
  function Assembled(a: bv8, b: bv8, c: bv8, d: bv8): Word {
    Word((a as bv32) * 0x100_0000 + (b as bv32) * 0x1_0000 + (c as bv32) * 0x100 + (d as bv32))
  }

  /** GET_UINT32 */
  function GetUint32(a: bv8, b: bv8, c: bv8, d: bv8): Word {
    Word(((a as bv32) << 24) | ((b as bv32) << 16) | ((c as bv32) << 8) | (d as bv32))
  }

  lemma GetAssembles(a: bv8, b: bv8, c: bv8, d: bv8)
    ensures GetUint32(a, b, c, d) == Assembled(a, b, c, d)
  {}
}

/** SHA-256 as FIPS 180-2 defines it. */
module Fips180 {
  import opened Bits
  import opened RoundLogic
  import opened Primes

  /** The eight working variables, or the eight words of a hash value. */
  datatype Hash = Hash(a: Word, b: Word, c: Word, d: Word, e: Word, f: Word, g: Word, h: Word)

  /** The constants of section 4.2.2, eight a row. */
  function KRow(r: nat): (row: seq<bv32>)
    requires r < 8
    ensures |row| == 8
  {
    if r == 0 then [0x428A2F98, 0x71374491, 0xB5C0FBCF, 0xE9B5DBA5, 0x3956C25B, 0x59F111F1, 0x923F82A4, 0xAB1C5ED5]
    else if r == 1 then [0xD807AA98, 0x12835B01, 0x243185BE, 0x550C7DC3, 0x72BE5D74, 0x80DEB1FE, 0x9BDC06A7, 0xC19BF174]
    else if r == 2 then [0xE49B69C1, 0xEFBE4786, 0x0FC19DC6, 0x240CA1CC, 0x2DE92C6F, 0x4A7484AA, 0x5CB0A9DC, 0x76F988DA]
    else if r == 3 then [0x983E5152, 0xA831C66D, 0xB00327C8, 0xBF597FC7, 0xC6E00BF3, 0xD5A79147, 0x06CA6351, 0x14292967]
    else if r == 4 then [0x27B70A85, 0x2E1B2138, 0x4D2C6DFC, 0x53380D13, 0x650A7354, 0x766A0ABB, 0x81C2C92E, 0x92722C85]
    else if r == 5 then [0xA2BFE8A1, 0xA81A664B, 0xC24B8B70, 0xC76C51A3, 0xD192E819, 0xD6990624, 0xF40E3585, 0x106AA070]
    else if r == 6 then [0x19A4C116, 0x1E376C08, 0x2748774C, 0x34B0BCB5, 0x391C0CB3, 0x4ED8AA4A, 0x5B9CCA4F, 0x682E6FF3]
    else [0x748F82EE, 0x78A5636F, 0x84C87814, 0x8CC70208, 0x90BEFFFA, 0xA4506CEB, 0xBEF9A3F7, 0xC67178F2]
  }

  function K(t: nat): Word
    requires t < 64
  {
    Word(KRow(t / 8)[t % 8])
  }

  /** The initial hash value of section 5.3.2. */
  function H0(): (r: seq<bv32>)
    ensures |r| == 8
  {
    [0x6A09E667, 0xBB67AE85, 0x3C6EF372, 0xA54FF53A, 0x510E527F, 0x9B05688C, 0x1F83D9AB, 0x5BE0CD19]
  }

  /** k is the first 32 bits of the fractional part of the cube root of p, whose integer part is r. */
  predicate CubeRootFraction(p: nat, r: nat, k: bv32) {
    var x := r * 0x1_0000_0000 + k as nat;
    x * x * x <= p * 0x1_0000_0000_0000_0000_0000_0000 < (x + 1) * (x + 1) * (x + 1)
  }

  predicate SquareRootFraction(p: nat, r: nat, k: bv32) {
    var x := r * 0x1_0000_0000 + k as nat;
    x * x <= p * 0x1_0000_0000_0000_0000 < (x + 1) * (x + 1)
  }

  function CubeRoot(p: nat): nat {
    if p < 8 then 1 else if p < 27 then 2 else if p < 64 then 3 else if p < 125 then 4 else if p < 216 then 5 else 6
  }

  function SquareRoot(p: nat): nat {
    if p < 4 then 1 else if p < 9 then 2 else if p < 16 then 3 else 4
  }

  function LowByte(n: int): byte { n % 256 }

  /** The low 32 bits of n, most significant byte first. */
  function Big32(n: int): (r: seq<byte>)
    ensures |r| == 4
  {
    [LowByte(n / 0x100_0000), LowByte(n / 0x1_0000), LowByte(n / 0x100), LowByte(n)]
  }

  function WordAt(block: seq<byte>, i: nat): Word
    requires i + 4 <= |block|
  {
    Assembled(block[i] as bv8, block[i + 1] as bv8, block[i + 2] as bv8, block[i + 3] as bv8)
  }

  /** The message schedule: step 1 of section 6.2.2. */
  function Schedule(block: seq<byte>, t: nat): Word
    requires |block| == 64 && t < 64
  {
    if t < 16 then WordAt(block, 4 * t)
    else Mix(Schedule(block, t - 2), Schedule(block, t - 7), Schedule(block, t - 15), Schedule(block, t - 16))
  }

  function Mix(w2: Word, w7: Word, w15: Word, w16: Word): Word {
    Sum4(SmallSigma1(w2), w7, SmallSigma0(w15), w16)
  }

  // Addition modulo 2^32.
  function Add(x: Word, y: Word): Word { Word(x.bits + y.bits) }
  function Sum4(a: Word, b: Word, c: Word, d: Word): Word { Word(a.bits + b.bits + c.bits + d.bits) }
  function Sum5(a: Word, b: Word, c: Word, d: Word, e: Word): Word { Word(a.bits + b.bits + c.bits + d.bits + e.bits) }

  /** One turn of step 3 of section 6.2.2. */
  function Turn(s: Hash, k: Word, w: Word): Hash {
    var t1 := Sum5(s.h, BigSigma1(s.e), Ch(s.e, s.f, s.g), k, w);
    var t2 := Add(BigSigma0(s.a), Maj(s.a, s.b, s.c));
    Hash(Add(t1, t2), s.a, s.b, s.c, Add(s.d, t1), s.e, s.f, s.g)
  }

  function Turns(s: Hash, block: seq<byte>, t: nat): Hash
    requires |block| == 64 && t <= 64
  {
    if t == 0 then s else Turn(Turns(s, block, t - 1), K(t - 1), Schedule(block, t - 1))
  }

  function Sum(s: Hash, r: Hash): Hash {
    Hash(Add(s.a, r.a), Add(s.b, r.b), Add(s.c, r.c), Add(s.d, r.d),
         Add(s.e, r.e), Add(s.f, r.f), Add(s.g, r.g), Add(s.h, r.h))
  }

  /** The intermediate hash value after one more block: steps 2 to 4. */
  function Compress(s: Hash, block: seq<byte>): Hash
    requires |block| == 64
  {
    Sum(s, Turns(s, block, 64))
  }

  function Initial(): Hash {
    var h := H0();
    Hash(Word(h[0]), Word(h[1]), Word(h[2]), Word(h[3]), Word(h[4]), Word(h[5]), Word(h[6]), Word(h[7]))
  }

  /** The hash value after all blocks of a message of whole blocks. */
  function Chain(m: seq<byte>): Hash {
    if |m| < 64 then Initial()
    else Compress(Chain(m[..|m| - 64]), m[|m| - 64..])
  }

  lemma ChainNext(m: seq<byte>, pos: nat)
    requires pos + 64 <= |m|
    ensures Chain(m[..pos + 64]) == Compress(Chain(m[..pos]), m[pos..pos + 64])
  {
    hide Compress;
    var n := m[..pos + 64];
    assert n[..|n| - 64] == m[..pos] && n[|n| - 64..] == m[pos..pos + 64];
  }

  predicate RoomForLength(n: nat, k: nat) { (n + 1 + k) % 64 == 56 }

  /** k of section 5.1.1 in bytes: the least number of zero bytes after 0x80 that leaves room for the length. */
  function PadZeros(n: nat): (k: nat)
    ensures RoomForLength(n, k) && k < 64
    ensures forall j :: 0 <= j < k ==> !RoomForLength(n, j)
  {
    hide RoomForLength;
    PadIsLeast(n);
    (55 - n) % 64
  }

  lemma PadIsLeast(n: nat)
    ensures RoomForLength(n, (55 - n) % 64)
    ensures forall j :: 0 <= j < (55 - n) % 64 ==> !RoomForLength(n, j)
  {
    var k := (55 - n) % 64;
    assert (n + 1 + k) % 64 == 56;
    forall j | 0 <= j < k ensures !RoomForLength(n, j) {
      var q := (n + 1 + k) / 64;
      if n + 1 + j >= 64 * q {
        ModIs(n + 1 + j, 64, q, 56 - (k - j));
      } else {
        ModIs(n + 1 + j, 64, q - 1, 120 - (k - j));
      }
    }
  }

  /** A bit count modulo 2^64 as eight bytes. */
  function Big64(n: int): (r: seq<byte>)
    ensures |r| == 8
  {
    Big32(n / 0x1_0000_0000) + Big32(n)
  }

  /** Section 5.1.1, for a message of less than 2^61 bytes. */
  function Pad(m: seq<byte>): (r: seq<byte>)
    ensures |r| == |m| + 1 + PadZeros(|m|) + 8
  {
    hide PadZeros;
    m + [0x80] + Zeros(PadZeros(|m|)) + Big64(8 * |m|)
  }

  lemma PadFillsBlocks(m: seq<byte>)
    ensures |Pad(m)| % 64 == 0
  {
    hide PadZeros, Pad;
  }

  function Bytes(s: Hash): seq<byte> {
    Big32(s.a.bits as int) + Big32(s.b.bits as int) + Big32(s.c.bits as int) + Big32(s.d.bits as int)
    + Big32(s.e.bits as int) + Big32(s.f.bits as int) + Big32(s.g.bits as int) + Big32(s.h.bits as int)
  }

  function Digest(m: seq<byte>): (r: seq<byte>)
    ensures |r| == 32
  {
    Bytes(Chain(Pad(m)))
  }

  predicate Derived(r: nat, i: nat)
    requires r < 8 && i < 8
  {
    CubeRootFraction(PrimeRow(r)[i], CubeRoot(PrimeRow(r)[i]), KRow(r)[i])
  }

  lemma RowPair0(r: nat, i: nat)
    requires 0 <= r < 2 && i < 8
    ensures Derived(r, i)
  {
    if r == 0 {} else {}
  }

  lemma RowPair1(r: nat, i: nat)
    requires 2 <= r < 4 && i < 8
    ensures Derived(r, i)
  {
    if r == 2 {} else {}
  }

  lemma RowPair2(r: nat, i: nat)
    requires 4 <= r < 6 && i < 8
    ensures Derived(r, i)
  {
    if r == 4 {} else {}
  }

  lemma RowPair3(r: nat, i: nat)
    requires 6 <= r < 8 && i < 8
    ensures Derived(r, i)
  {
    if r == 6 {} else {}
  }

  /** The round constants and the initial hash value are the ones the standard derives from the first primes. */
  lemma ConstantsAreRoots(r: nat, i: nat)
    requires r < 8 && i < 8
    ensures Derived(r, i)
    ensures SquareRootFraction(PrimeRow(0)[i], SquareRoot(PrimeRow(0)[i]), H0()[i])
  {
    if r < 2 {
      RowPair0(r, i);
    } else if r < 4 {
      RowPair1(r, i);
    } else if r < 6 {
      RowPair2(r, i);
    } else {
      RowPair3(r, i);
    }
    hide Derived;
  }

  /** p is the prime with exactly t primes below it. */
  predicate IsNthPrime(p: nat, t: nat) { Prime(p) && PrimesBelow(p) == t }

  /** The constant of turn t is the first 32 bits of the fractional part of the cube root of prime number t. */
  lemma RoundConstants(t: nat)
    requires t < 64
    ensures exists p: nat :: IsNthPrime(p, t) && CubeRootFraction(p, CubeRoot(p), K(t).bits)
  {
    hide CubeRootFraction;
    var r, i := t / 8, t % 8;
    ConstantsAreRoots(r, i);
    NthPrime(r, i);
    assert IsNthPrime(PrimeRow(r)[i], t);
  }

  function Words(h: Hash): (ws: seq<Word>)
    ensures |ws| == 8
  {
    [h.a, h.b, h.c, h.d, h.e, h.f, h.g, h.h]
  }

  /** Word t of the initial hash value is the same of the square root. */
  lemma InitialWords(t: nat)
    requires t < 8
    ensures exists p: nat :: IsNthPrime(p, t) && SquareRootFraction(p, SquareRoot(p), Words(Initial())[t].bits)
  {
    hide SquareRootFraction;
    ConstantsAreRoots(0, t);
    NthPrime(0, t);
    assert IsNthPrime(PrimeRow(0)[t], t);
    assert Words(Initial())[t].bits == H0()[t];
  }

  /** The bytes of a 32-bit word, most significant first, are its digits to the base 256. */
  lemma {:induction false} Big32Reads(n: int)
    ensures var b := Big32(n);
            b[0] as int * 0x100_0000 + b[1] as int * 0x1_0000 + b[2] as int * 0x100 + b[3] as int == Word32(n)
  {
    var q, p, o := n / 0x100, n / 0x1_0000, n / 0x100_0000;
    Quotients(n);
    ModIs(n, 0x1_0000_0000, o / 0x100, o % 0x100 * 0x100_0000 + p % 0x100 * 0x1_0000 + q % 0x100 * 0x100 + n % 0x100);
  }

  lemma {:induction false} Quotients(n: int)
    ensures n / 0x1_0000 == n / 0x100 / 0x100 && n / 0x100_0000 == n / 0x1_0000 / 0x100
  {
    var q := n / 0x100;
    var p := q / 0x100;
    ModIs(n, 0x1_0000, p, q % 0x100 * 0x100 + n % 0x100);
    ModIs(n, 0x100_0000, p / 0x100, p % 0x100 * 0x1_0000 + q % 0x100 * 0x100 + n % 0x100);
  }

  /** The padding of section 5.1.1, piece by piece: the message, 0x80, zeros, and the length in bits as 64 bits. */
  lemma PadReads(m: seq<byte>)
    ensures var p, n := Pad(m), |m| + 1 + PadZeros(|m|);
            && p[..|m|] == m && p[|m|] == 0x80 && (forall i :: |m| < i < n ==> p[i] == 0)
            && p[n..] == Big32(8 * |m| / 0x1_0000_0000) + Big32(8 * |m|)
  {
    hide PadZeros, Big32;
  }
}
