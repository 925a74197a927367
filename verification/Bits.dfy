/** Unsigned words of the LP64 target and the bit masks the loader uses on them. */
module Bits {

  /** `unsigned long`: every assignment to one is checked not to leave the type, that is, not to wrap. */
  const ULONG_SIZE := 0x1_0000_0000_0000_0000
  const ULONG_MAX: ulong := 0xFFFF_FFFF_FFFF_FFFF
  type ulong = x: int | 0 <= x < ULONG_SIZE

  type uint32 = x: int | 0 <= x < 0x1_0000_0000

  type byte = x: int | 0 <= x < 256

  /** The value a 32-bit word takes. */
  function Word32(x: int): (r: nat)
    ensures r < 0x1_0000_0000
  {
    x % 0x1_0000_0000
  }

  function Zeros(n: nat): (r: seq<byte>)
    ensures |r| == n && forall i :: 0 <= i < n ==> r[i] == 0
  {
    seq(n, _ => 0)
  }

  /** Bitwise and, one binary digit at a time. */
  function And(x: nat, y: nat): nat {
    if x == 0 || y == 0 then 0
    else (if x % 2 == 1 && y % 2 == 1 then 1 else 0) + 2 * And(x / 2, y / 2)
  }

  /** The complement of a word. */
  function Not(x: ulong): ulong {
    ULONG_MAX - x
  }

  predicate IsPow2(a: nat) {
    a == 1 || (a > 0 && a % 2 == 0 && IsPow2(a / 2))
  }

  lemma {:induction false} HalfMod(x: nat, a: nat)
    requires a > 0 && a % 2 == 0
    ensures x % a == 2 * (x / 2 % (a / 2)) + x % 2
  {
    var h, y := a / 2, x / 2;
    var q, r := y / h, y % h;
    assert x == 2 * (h * q + r) + x % 2;
    assert 2 * (h * q) == a * q;
    ModIs(x, a, q, 2 * r + x % 2);
  }

  /** Euclid's quotient and remainder are unique. */
  lemma {:induction false} ModIs(x: int, a: int, q: int, r: int)
    requires a > 0 && 0 <= r < a && x == a * q + r
    ensures x / a == q && x % a == r
  {
    var p, s := x / a, x % a;
    assert a * (p - q) == r - s by { assert a * (p - q) == a * p - a * q; }
    AtLeastOnce(a, p - q);
    AtLeastOnce(a, q - p);
  }

  lemma AtLeastOnce(a: int, k: int)
    requires a > 0
    ensures k >= 1 ==> a * k >= a
    ensures a * -k == -(a * k)
  {}

  /** Masking with the complement of a - 1, in a word of m values, clears the remainder by a. */
  lemma {:induction false} MaskClearsRemainder(x: nat, a: nat, m: nat)
    requires IsPow2(a) && IsPow2(m) && a <= m && x < m
    ensures And(x, m - a) == x - x % a
    decreases m
  {
    if m == 1 {
    } else if a == 1 {
      MaskClearsRemainder(x / 2, 1, m / 2);
    } else {
      MaskClearsRemainder(x / 2, a / 2, m / 2);
      HalfMod(x, a);
      assert (m - a) / 2 == m / 2 - a / 2;
    }
  }

  /** Masking with a - 1 keeps exactly the remainder by a. */
  lemma {:induction false} LowMaskIsRemainder(x: nat, a: nat)
    requires IsPow2(a)
    ensures And(x, a - 1) == x % a
    decreases a
  {
    if a > 1 {
      LowMaskIsRemainder(x / 2, a / 2);
      HalfMod(x, a);
      assert (a - 1) / 2 == a / 2 - 1;
    }
  }

  lemma {:induction false} Pow2Divides(a: nat, b: nat)
    requires IsPow2(a) && IsPow2(b) && a <= b
    ensures b % a == 0
    decreases a
  {
    if a > 1 {
      Pow2Divides(a / 2, b / 2);
      HalfMod(b, a);
    }
  }

  lemma WordIsPow2()
    ensures IsPow2(ULONG_SIZE)
  {
    Pow2Product(0x10, 0x10);
    Pow2Product(0x100, 0x100);
    Pow2Product(0x1_0000, 0x1_0000);
    Pow2Product(0x1_0000_0000, 0x1_0000_0000);
  }

  lemma TwicePow2(c: nat)
    requires IsPow2(c)
    ensures IsPow2(2 * c)
  {}

  lemma {:induction false} Pow2Product(a: nat, b: nat)
    requires IsPow2(a) && IsPow2(b)
    ensures IsPow2(a * b)
  {
    if a > 1 {
      Pow2Product(a / 2, b);
      var c := a / 2 * b;
      assert a * b == 2 * c;
      TwicePow2(c);
    }
  }

  lemma {:induction false} DivisorChain(x: int, b: int, a: int)
    requires a > 0 && b > 0 && b % a == 0 && x % b == 0
    ensures x % a == 0
  {
    assert x == b * (x / b) && b == a * (b / a);
    assert x == a * ((b / a) * (x / b)) by {
      assert (a * (b / a)) * (x / b) == a * ((b / a) * (x / b));
    }
    ModIs(x, a, (b / a) * (x / b), 0);
  }

  /** Multiples of a are closed under sum and difference, and distinct ones are at least a apart. */
  lemma {:induction false} Multiples(x: int, y: int, a: int)
    requires a > 0 && x % a == 0 && y % a == 0
    ensures (x + y) % a == 0 && (y - x) % a == 0
    ensures x < y ==> x + a <= y
  {
    var p, q := x / a, y / a;
    assert x == a * p && y == a * q;
    assert a * p + a * q == a * (p + q) && a * q - a * p == a * (q - p);
    ModIs(x + y, a, p + q, 0);
    ModIs(y - x, a, q - p, 0);
    AtLeastOnce(a, q - p);
    if q <= p { assert a * p >= a * q; }
  }

  lemma {:induction false} RemainderClears(x: int, a: int)
    requires a > 0
    ensures (x - x % a) % a == 0
  {
    ModIs(x - x % a, a, x / a, 0);
  }

  /** The greatest multiple of a at most x: `x & ~(a - 1)`. */
  function AlignDown(x: ulong, a: ulong): (r: ulong)
    requires IsPow2(a)
    ensures r % a == 0 && r <= x < r + a
  {
    WordIsPow2();
    MaskClearsRemainder(x, a, ULONG_SIZE);
    RemainderClears(x, a);
    And(x, Not(a - 1))
  }

  /** The least multiple of a at least x, or 0 when that one wraps: `(x + a - 1) & ~(a - 1)`. */
  function AlignUp(x: ulong, a: ulong): (r: ulong)
    requires IsPow2(a)
    ensures r % a == 0
    ensures if x + a <= ULONG_SIZE then x <= r < x + a else r == 0
  {
    if x + a > ULONG_SIZE then
      Multiples(0, AlignDown(x + a - 1 - ULONG_SIZE, a), a);
      AlignDown(x + a - 1 - ULONG_SIZE, a)
    else
      AlignDown(x + a - 1, a)
  }

  /** Nothing from x up to AlignUp(x, a) is a multiple of a. */
  lemma {:induction false} AlignUpLeast(x: ulong, a: ulong, y: int)
    requires IsPow2(a) && x <= y && y % a == 0
    ensures AlignUp(x, a) <= y
  {
    if y < AlignUp(x, a) {
      Multiples(y, AlignUp(x, a), a);
    }
  }

  lemma {:induction false} AlignDownGreatest(x: ulong, a: ulong, y: int)
    requires IsPow2(a)
    requires y <= x && y % a == 0
    ensures y <= AlignDown(x, a)
  {
    if AlignDown(x, a) < y {
      Multiples(AlignDown(x, a), y, a);
    }
  }

  function Pow256(k: nat): (r: nat)
    ensures r > 0
  {
    if k == 0 then 1 else 256 * Pow256(k - 1)
  }

  /** The k low bytes of n, least significant first: how a word lies in little-endian memory. */
  function Little(n: nat, k: nat): (b: seq<byte>)
    ensures |b| == k
  {
    if k == 0 then [] else [n % 256] + Little(n / 256, k - 1)
  }

  function FromLittle(b: seq<byte>): (n: nat)
    ensures n < Pow256(|b|)
  {
    if b == [] then 0 else b[0] + 256 * FromLittle(b[1..])
  }

  /** Byte i has weight 256^i. */
  lemma {:induction false} LittleAt(n: nat, k: nat, i: nat)
    requires i < k
    ensures Little(n, k)[i] == n / Pow256(i) % 256
  {
    if i > 0 {
      LittleAt(n / 256, k - 1, i - 1);
      NestedRemainder(n, Pow256(i - 1));
    }
  }

  lemma {:induction false} LittleRoundTrip(n: nat, k: nat)
    ensures FromLittle(Little(n, k)) == n % Pow256(k)
  {
    if k > 0 {
      LittleRoundTrip(n / 256, k - 1);
      assert Little(n, k)[1..] == Little(n / 256, k - 1);
      NestedRemainder(n, Pow256(k - 1));
    }
  }

  lemma {:induction false} NestedRemainder(n: nat, p: nat)
    requires p > 0
    ensures n % (256 * p) == n % 256 + 256 * (n / 256 % p)
    ensures n / 256 / p == n / (256 * p)
  {
    var m := n / 256;
    var q, r := m / p, m % p;
    assert m == p * q + r;
    assert (256 * p) * q == 256 * (p * q);
    ModIs(n, 256 * p, q, 256 * r + n % 256);
  }

  lemma WordWidths()
    ensures Pow256(2) == 0x1_0000 && Pow256(4) == 0x1_0000_0000 && Pow256(8) == ULONG_SIZE
  {}
}
