/** The number conversions of purgatory's freestanding printf, on a target with 64-bit long. Characters are codes. */
module Printf {
  import opened Bits

  const LONG_MIN := -0x8000_0000_0000_0000
  type long = x: int | -0x8000_0000_0000_0000 <= x < 0x8000_0000_0000_0000

  /** C's division and remainder truncate toward zero. */
  function Quot10(i: int): int { if i >= 0 then i / 10 else -(-i / 10) }
  function Rem10(i: int): int { if i >= 0 then i % 10 else -(-i % 10) }

  /** Negation of a long wraps at LONG_MIN. */
  function Negated(i: long): long { if i == LONG_MIN then i else -i }

  /** The characters the digit loop stores, least significant first. */
  function Stored(i: int): seq<int>
    decreases Magnitude(i)
  {
    [0x30 + Rem10(i)] + if Quot10(i) == 0 then [] else Stored(Quot10(i))
  }

  lemma StoredStep(i: int)
    ensures Stored(i) == [0x30 + Rem10(i)] + Rest(Quot10(i))
    ensures i != 0 ==> Magnitude(Quot10(i)) < Magnitude(i)
  {
  }

  function Magnitude(i: int): nat { if i >= 0 then i else -i }

  /** What the digit loop still has to store when it looks at its guard. */
  function Rest(i: int): seq<int> {
    if i == 0 then [] else Stored(i)
  }

  function Reverse(s: seq<int>): (r: seq<int>)
    ensures |r| == |s|
  {
    if s == [] then [] else Reverse(s[1..]) + [s[0]]
  }

  lemma {:induction false} ReverseAt(s: seq<int>, k: nat)
    requires k < |s|
    ensures Reverse(s)[k] == s[|s| - 1 - k]
  {
    if k < |s| - 1 {
      ReverseAt(s[1..], k);
    }
  }

  /** What %d prints. */
  function Decimal(i: long): seq<int> {
    if i < 0 then [0x2d] + Reverse(Stored(Negated(i))) else Reverse(Stored(i))
  }

  predicate IsDigit(c: int) { 0x30 <= c <= 0x39 }

  predicate AllDigits(s: seq<int>) {
    forall k :: 0 <= k < |s| ==> IsDigit(s[k])
  }

  function Horner(s: seq<int>): int {
    if s == [] then 0 else 10 * Horner(s[..|s| - 1]) + (s[|s| - 1] - 0x30)
  }

  /** s is a decimal numeral for i. */
  predicate Reads(s: seq<int>, i: int) {
    if s != [] && s[0] == 0x2d then s[1..] != [] && AllDigits(s[1..]) && -Horner(s[1..]) == i
    else s != [] && AllDigits(s) && Horner(s) == i
  }

  lemma {:induction false} StoredReads(n: nat)
    ensures Stored(n) != [] && AllDigits(Stored(n)) && Horner(Reverse(Stored(n))) == n
  {
    if n >= 10 {
      StoredReads(n / 10);
      assert Stored(n)[1..] == Stored(n / 10);
    } else {
      assert Stored(n)[1..] == [];
      assert Reverse(Stored(n)) == [0x30 + n];
    }
    var r := Reverse(Stored(n));
    assert r[..|r| - 1] == Reverse(Stored(n)[1..]);
  }

  lemma ReverseDigits(s: seq<int>)
    requires AllDigits(s)
    ensures AllDigits(Reverse(s))
  {}

  /** %d prints a numeral for the value exactly when the value is not LONG_MIN. */
  lemma DecimalRoundTrip(i: long)
    ensures Reads(Decimal(i), i) <==> i != LONG_MIN
  {
    hide Stored, Horner;
    if i == LONG_MIN {
      LeastIsUnreadable(i);
    } else {
      var n: nat := if i < 0 then -i else i;
      StoredReads(n);
      ReverseDigits(Stored(n));
      if i < 0 {
        assert Decimal(i)[1..] == Reverse(Stored(n));
      } else {
        assert IsDigit(Decimal(i)[0]);
      }
    }
  }

  /** C's remainder of a negative number is negative, so the characters stored for LONG_MIN are not digits. */
  lemma LeastIsUnreadable(i: long)
    requires i == LONG_MIN
    ensures !Reads(Decimal(i), i)
  {
    hide Horner, Reverse, Stored;
    StoredStep(i);
    var s := Stored(i);
    assert s[0] == 0x30 - 8;
    ReverseAt(s, |s| - 1);
    assert Decimal(i)[1..] == Reverse(s);
    assert !IsDigit(Decimal(i)[1..][|s| - 1]);
  }

  function Pow10(k: nat): nat { if k == 0 then 1 else 10 * Pow10(k - 1) }

  lemma {:induction false} StoredLength(i: int, k: nat)
    requires k > 0 && i < Pow10(k) && -i < Pow10(k)
    ensures |Stored(i)| <= k
    decreases k
  {
    assert Pow10(k) == 10 * Pow10(k - 1);
    if Quot10(i) != 0 {
      StoredLength(Quot10(i), k - 1);
    }
  }

  lemma StoredFits(i: long)
    ensures |Stored(i)| <= 19
  {
    assert Pow10(4) == 10 * (10 * (10 * (10 * Pow10(0))));
    assert Pow10(8) == 10 * (10 * (10 * (10 * Pow10(4))));
    assert Pow10(12) == 10 * (10 * (10 * (10 * Pow10(8))));
    assert Pow10(16) == 10 * (10 * (10 * (10 * Pow10(12))));
    assert Pow10(19) == 10 * (10 * (10 * Pow10(16)));
    StoredLength(i, 19);
  }

  /** The %d branch: fills tmp up to q. */
  method FormatDecimal(value: long, tmp: array<int>) returns (q: nat)
    requires tmp.Length == 40
    modifies tmp
    ensures q <= 20 && tmp[..q] == Decimal(value)
  {
    hide Stored, Reverse;
    var i := value;
    q := 0;
    if i < 0 {
      tmp[q] := 0x2d;
      q := 1;
      i := Negated(i);
    }
    var p := q;
    ghost var all := Stored(i);
    StoredStep(i);
    StoredFits(i);
    ghost var sign := tmp[..p];
    q := PutDigits(i, tmp, p);
    ReverseDigitsInPlace(tmp, p, q);
    assert tmp[..q] == sign + Reverse(all);
  }

  lemma RestStep(i: int, done: seq<int>)
    ensures Rest(0) == []
    ensures i != 0 ==> Rest(i) != [] && done + Rest(i) == done + [0x30 + Rem10(i)] + Rest(Quot10(i))
  {}

  /** The do-while loop, with its first turn taken before the guard is looked at. */
  method PutDigits(value: int, tmp: array<int>, p: nat) returns (q: nat)
    requires p + |Stored(value)| <= tmp.Length
    modifies tmp
    ensures q == p + |Stored(value)| && tmp[..q] == old(tmp[..p]) + Stored(value)
  {
    hide Stored, Quot10, Rem10, Magnitude, Rest;
    var i := value;
    q := p;
    ghost var before := tmp[..p];
    StoredStep(i);
    tmp[q] := 0x30 + Rem10(i);
    assert tmp[..q + 1] == tmp[..q] + [0x30 + Rem10(i)];
    q, i := q + 1, Quot10(i);
    while i != 0
      invariant p <= q <= tmp.Length && before + Stored(value) == tmp[..q] + Rest(i)
      decreases Magnitude(i)
    {
      ghost var done, c := tmp[..q], 0x30 + Rem10(i);
      StoredStep(i);
      RestStep(i, done);
      tmp[q] := 0x30 + Rem10(i);
      assert tmp[..q + 1] == done + [c];
      q, i := q + 1, Quot10(i);
    }
    RestStep(0, tmp[..q]);
  }

  /** The two pointers meet in the middle of tmp[p..q]. */
  method ReverseDigitsInPlace(tmp: array<int>, p: nat, q: nat)
    requires p < q <= tmp.Length
    modifies tmp
    ensures tmp[..q] == old(tmp[..p]) + Reverse(old(tmp[p..q]))
  {
    ghost var s := tmp[p..q];
    var l, r := p, q - 1;
    while r > l
      invariant p <= l <= r + 1 <= q && l - p == q - 1 - r
      invariant forall k :: 0 <= k < p ==> tmp[k] == old(tmp[k])
      invariant forall k :: p <= k < l || r < k < q ==> tmp[k] == s[q - 1 - k]
      invariant forall k :: l <= k <= r ==> tmp[k] == s[k - p]
    {
      tmp[r], tmp[l] := tmp[l], tmp[r];
      l, r := l + 1, r - 1;
    }
    forall k | 0 <= k < |s| ensures tmp[p + k] == Reverse(s)[k] {
      ReverseAt(s, k);
    }
  }

  /** The table entry with the case bit of the format character or-ed in. */
  function HexChar(d: nat, lower: bool): int
    requires d < 16
  {
    var c := if d < 10 then 0x30 + d else 0x41 + (d - 10);
    if lower && c / 0x20 % 2 == 0 then c + 0x20 else c
  }

  function HexValue(c: int): int {
    if IsDigit(c) then c - 0x30
    else if 0x41 <= c <= 0x46 then c - 0x41 + 10
    else if 0x61 <= c <= 0x66 then c - 0x61 + 10
    else -1
  }

  function Pow16(k: nat): (r: nat)
    ensures r > 0
  {
    if k == 0 then 1 else 16 * Pow16(k - 1)
  }

  /** k hexadecimal digits of h. */
  function Hex(h: nat, k: nat, lower: bool): (s: seq<int>)
    ensures |s| == k
  {
    if k == 0 then [] else Hex(h / 16, k - 1, lower) + [HexChar(h % 16, lower)]
  }

  function HexHorner(s: seq<int>): int {
    if s == [] then 0 else 16 * HexHorner(s[..|s| - 1]) + HexValue(s[|s| - 1])
  }

  predicate AllHex(s: seq<int>) {
    forall k :: 0 <= k < |s| ==> 0 <= HexValue(s[k]) < 16
  }

  lemma {:induction false} DigitReads(d: nat, lower: bool)
    requires d < 16
    ensures HexValue(HexChar(d, lower)) == d
  {
  }

  /** %x and %X print hexadecimal digits that read back as the value modulo the width of the conversion. */
  lemma {:induction false} HexRoundTrip(h: nat, k: nat, lower: bool)
    ensures AllHex(Hex(h, k, lower)) && HexHorner(Hex(h, k, lower)) == h % Pow16(k)
  {
    hide HexValue, HexChar;
    if k > 0 {
      var front := Hex(h / 16, k - 1, lower);
      HexRoundTrip(h / 16, k - 1, lower);
      DigitReads(h % 16, lower);
      assert Hex(h, k, lower)[..k - 1] == front;
      NibbleRemainder(h, Pow16(k - 1));
    }
  }

  /** Taking the low digit off first is taking quotient and remainder by 16 * p. */
  lemma {:induction false} NibbleRemainder(n: nat, p: nat)
    requires p > 0
    ensures n % (16 * p) == n % 16 + 16 * (n / 16 % p)
    ensures n / 16 / p == n / (16 * p)
  {
    var m := n / 16;
    var q, r := m / p, m % p;
    assert m == p * q + r;
    assert (16 * p) * q == 16 * (p * q);
    ModIs(n, 16 * p, q, 16 * r + n % 16);
  }

  /** Digit j of k, counted from the front, is what shifting right by 4 * (k - 1 - j) leaves in the low nibble. */
  lemma {:induction false} HexAt(h: nat, k: nat, lower: bool, j: nat)
    requires j < k
    ensures Hex(h, k, lower)[j] == HexChar(h / Pow16(k - 1 - j) % 16, lower)
    decreases k
  {
    if j < k - 1 {
      HexAt(h / 16, k - 1, lower, j);
      NibbleRemainder(h, Pow16(k - 2 - j));
    }
  }

  /** The letters are lower case for %x and upper case for %X. */
  lemma {:induction false} HexLetters(h: nat, k: nat, lower: bool, j: nat)
    requires j < k
    ensures var c := Hex(h, k, lower)[j];
            0x30 <= c <= 0x39 || (if lower then 0x61 <= c <= 0x66 else 0x41 <= c <= 0x46)
  {
    HexAt(h, k, lower, j);
    hide Hex, Pow16;
  }

  /** The %x branch for a conversion of `shift` + 4 bits: 8, 16, 32 or 64. */
  method FormatHex(h: nat, shift: nat, lower: bool, tmp: array<int>) returns (q: nat)
    requires tmp.Length == 40 && shift % 4 == 0 && shift < 64
    modifies tmp
    ensures q == shift / 4 + 1 && q <= 16 && tmp[..q] == Hex(h, q, lower)
  {
    var s := shift as int;
    ghost var k := shift / 4 + 1;
    q := 0;
    while s >= 0
      invariant s == 4 * (k - 1 - q) && -4 <= s && q <= k
      invariant tmp[..q] == Hex(h, k, lower)[..q]
      decreases s + 4
    {
      HexAt(h, k, lower, q);
      tmp[q] := HexChar(h / Pow16(s / 4) % 16, lower);
      q := q + 1;
      s := s - 4;
    }
  }
}
