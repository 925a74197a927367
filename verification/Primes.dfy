/** The first 64 primes, from which the constants of SHA-256 derive. */
module Primes {
  import opened Bits

  function PrimeRow(r: nat): (row: seq<nat>)
    requires r < 8
    ensures |row| == 8
  {
    if r == 0 then [2, 3, 5, 7, 11, 13, 17, 19]
    else if r == 1 then [23, 29, 31, 37, 41, 43, 47, 53]
    else if r == 2 then [59, 61, 67, 71, 73, 79, 83, 89]
    else if r == 3 then [97, 101, 103, 107, 109, 113, 127, 131]
    else if r == 4 then [137, 139, 149, 151, 157, 163, 167, 173]
    else if r == 5 then [179, 181, 191, 193, 197, 199, 211, 223]
    else if r == 6 then [227, 229, 233, 239, 241, 251, 257, 263]
    else [269, 271, 277, 281, 283, 293, 307, 311]
  }

  predicate Divides(d: nat, n: nat)
    requires 0 < d
  {
    n % d == 0
  }

  predicate Prime(n: nat) {
    2 <= n && forall d: nat :: 2 <= d < n ==> !Divides(d, n)
  }

  /** No prime up to 17 is a proper divisor. */
  predicate Sieved(n: nat) {
    && (n <= 2 || n % 2 != 0) && (n <= 3 || n % 3 != 0) && (n <= 5 || n % 5 != 0) && (n <= 7 || n % 7 != 0)
    && (n <= 11 || n % 11 != 0) && (n <= 13 || n % 13 != 0) && (n <= 17 || n % 17 != 0)
  }

  lemma {:induction false} FactorThrough(n: nat, d: nat, e: nat, p: nat)
    requires n == d * e && 2 <= e && 0 < p <= d && d % p == 0
    ensures n % p == 0 && n > p
  {
    var k := d / p;
    assert n == p * (k * e) by { assert (p * k) * e == p * (k * e); }
    ModIs(n, p, k * e, 0);
    assert d * e >= d * 2;
  }

  lemma SmallFactor(n: nat, d: nat, e: nat)
    requires n == d * e && 2 <= d <= 17 && 2 <= e
    ensures !Sieved(n)
  {
    if d % 2 == 0 {
      FactorThrough(n, d, e, 2);
    } else if d % 3 == 0 {
      FactorThrough(n, d, e, 3);
    } else if d % 5 == 0 {
      FactorThrough(n, d, e, 5);
    } else {
      assert d == 7 || d == 11 || d == 13 || d == 17;
      FactorThrough(n, d, e, d) by { ModIs(d, d, 1, 0); }
    }
  }

  lemma {:induction false} OneIsSmall(n: nat, d: nat, e: nat)
    requires n == d * e && 2 <= d < n < 324
    ensures n == e * d && 2 <= e && (d <= 17 || e <= 17)
  {
    assert e <= 1 ==> d * e <= d;
    assert d >= 18 ==> d * e >= 18 * e;
  }

  /** Below 18 * 18, a number is prime exactly when no prime up to 17 is a proper divisor. */
  lemma SieveFindsPrimes(n: nat)
    requires 2 <= n < 324
    ensures Prime(n) <==> Sieved(n)
  {
    if Prime(n) {
      SievesPrime(n);
    } else {
      var d: nat :| 2 <= d < n && Divides(d, n);
      var e := n / d;
      assert n == d * e;
      hide Sieved, Prime;
      OneIsSmall(n, d, e);
      if d <= 17 {
        SmallFactor(n, d, e);
      } else {
        SmallFactor(n, e, d);
      }
    }
  }

  lemma SievesPrime(n: nat)
    requires Prime(n)
    ensures Sieved(n)
  {
    assert n > 2 ==> !Divides(2, n);
    assert n > 3 ==> !Divides(3, n);
    assert n > 5 ==> !Divides(5, n);
    assert n > 7 ==> !Divides(7, n);
    assert n > 11 ==> !Divides(11, n);
    assert n > 13 ==> !Divides(13, n);
    assert n > 17 ==> !Divides(17, n);
  }

  lemma Row0Low(n: nat)
    requires 1 < n <= 7
    ensures Sieved(n) <==> n in PrimeRow(0)
  {}

  lemma Row0High(n: nat)
    requires 7 < n <= 19
    ensures Sieved(n) <==> n in PrimeRow(0)
  {}

  lemma Row1Low(n: nat)
    requires 19 < n <= 37
    ensures Sieved(n) <==> n in PrimeRow(1)
  {}

  lemma Row1High(n: nat)
    requires 37 < n <= 53
    ensures Sieved(n) <==> n in PrimeRow(1)
  {}

  lemma Row2Low(n: nat)
    requires 53 < n <= 71
    ensures Sieved(n) <==> n in PrimeRow(2)
  {}

  lemma Row2High(n: nat)
    requires 71 < n <= 89
    ensures Sieved(n) <==> n in PrimeRow(2)
  {}

  lemma Row3First(n: nat)
    requires 89 < n <= 101
    ensures Sieved(n) <==> n in PrimeRow(3)
  {}

  lemma Row3Second(n: nat)
    requires 101 < n <= 107
    ensures Sieved(n) <==> n in PrimeRow(3)
  {}

  lemma Row3Third(n: nat)
    requires 107 < n <= 113
    ensures Sieved(n) <==> n in PrimeRow(3)
  {}

  lemma Row3Last(n: nat)
    requires 113 < n <= 131
    ensures Sieved(n) <==> n in PrimeRow(3)
  {}

  lemma Row4First(n: nat)
    requires 131 < n <= 139
    ensures Sieved(n) <==> n in PrimeRow(4)
  {}

  lemma Row4Second(n: nat)
    requires 139 < n <= 151
    ensures Sieved(n) <==> n in PrimeRow(4)
  {}

  lemma Row4Third(n: nat)
    requires 151 < n <= 163
    ensures Sieved(n) <==> n in PrimeRow(4)
  {}

  lemma Row4Last(n: nat)
    requires 163 < n <= 173
    ensures Sieved(n) <==> n in PrimeRow(4)
  {}

  lemma Row5First(n: nat)
    requires 173 < n <= 181
    ensures Sieved(n) <==> n in PrimeRow(5)
  {}

  lemma Row5Second(n: nat)
    requires 181 < n <= 193
    ensures Sieved(n) <==> n in PrimeRow(5)
  {}

  lemma Row5Third(n: nat)
    requires 193 < n <= 199
    ensures Sieved(n) <==> n in PrimeRow(5)
  {}

  lemma Row5Last(n: nat)
    requires 199 < n <= 223
    ensures Sieved(n) <==> n in PrimeRow(5)
  {}

  lemma Row6First(n: nat)
    requires 223 < n <= 229
    ensures Sieved(n) <==> n in PrimeRow(6)
  {}

  lemma Row6Second(n: nat)
    requires 229 < n <= 239
    ensures Sieved(n) <==> n in PrimeRow(6)
  {}

  lemma Row6Third(n: nat)
    requires 239 < n <= 251
    ensures Sieved(n) <==> n in PrimeRow(6)
  {}

  lemma Row6Last(n: nat)
    requires 251 < n <= 263
    ensures Sieved(n) <==> n in PrimeRow(6)
  {}

  lemma Row7First(n: nat)
    requires 263 < n <= 271
    ensures Sieved(n) <==> n in PrimeRow(7)
  {}

  lemma Row7Second(n: nat)
    requires 271 < n <= 281
    ensures Sieved(n) <==> n in PrimeRow(7)
  {}

  lemma Row7Third(n: nat)
    requires 281 < n <= 293
    ensures Sieved(n) <==> n in PrimeRow(7)
  {}

  lemma Row7Last(n: nat)
    requires 293 < n <= 311
    ensures Sieved(n) <==> n in PrimeRow(7)
  {}

  /** The table lists exactly the primes up to 311. */
  lemma RowsListPrimes(n: nat, r: nat)
    requires r < 8 && (if r == 0 then 1 else PrimeRow(r - 1)[7]) < n <= PrimeRow(r)[7]
    ensures Prime(n) <==> n in PrimeRow(r)
  {
    SieveFindsPrimes(n);
    hide Prime, Sieved;
    if r == 0 {
      if n <= 7 { Row0Low(n); } else { Row0High(n); }
    } else if r == 1 {
      if n <= 37 { Row1Low(n); } else { Row1High(n); }
    } else if r == 2 {
      if n <= 71 { Row2Low(n); } else { Row2High(n); }
    } else if r == 3 {
      if n <= 101 {
        Row3First(n);
      } else if n <= 107 {
        Row3Second(n);
      } else if n <= 113 {
        Row3Third(n);
      } else {
        Row3Last(n);
      }
    } else if r == 4 {
      if n <= 139 {
        Row4First(n);
      } else if n <= 151 {
        Row4Second(n);
      } else if n <= 163 {
        Row4Third(n);
      } else {
        Row4Last(n);
      }
    } else if r == 5 {
      if n <= 181 {
        Row5First(n);
      } else if n <= 193 {
        Row5Second(n);
      } else if n <= 199 {
        Row5Third(n);
      } else {
        Row5Last(n);
      }
    } else if r == 6 {
      if n <= 229 {
        Row6First(n);
      } else if n <= 239 {
        Row6Second(n);
      } else if n <= 251 {
        Row6Third(n);
      } else {
        Row6Last(n);
      }
    } else {
      if n <= 271 {
        Row7First(n);
      } else if n <= 281 {
        Row7Second(n);
      } else if n <= 293 {
        Row7Third(n);
      } else {
        Row7Last(n);
      }
    }
  }

  /** Each row ascends, and the next goes on above it. */
  lemma RowsAscend(r: nat, i: nat)
    requires r < 8 && i < 8
    ensures if i < 7 then PrimeRow(r)[i] < PrimeRow(r)[i + 1] else r < 7 ==> PrimeRow(r)[7] < PrimeRow(r + 1)[0]
  {}

  /** How many primes are below n. */
  function PrimesBelow(n: nat): nat {
    if n == 0 then 0 else PrimesBelow(n - 1) + if Prime(n - 1) then 1 else 0
  }

  lemma {:induction false} NoneBetween(a: nat, b: nat)
    requires a <= b && forall n :: a <= n < b ==> !Prime(n)
    ensures PrimesBelow(b) == PrimesBelow(a)
  {
    hide Prime;
    if a < b {
      NoneBetween(a, b - 1);
    }
  }

  /** Entry i of row r is the prime with 8 * r + i primes below it. */
  lemma {:induction false} NthPrime(r: nat, i: nat)
    requires r < 8 && i < 8
    ensures Prime(PrimeRow(r)[i]) && PrimesBelow(PrimeRow(r)[i]) == 8 * r + i
    decreases r, i
  {
    hide Prime;
    var p := PrimeRow(r)[i];
    RowIsPrime(r, i);
    if r == 0 && i == 0 {
      FirstPrime();
    } else {
      var q := if i > 0 then PrimeRow(r)[i - 1] else PrimeRow(r - 1)[7];
      if i > 0 {
        NthPrime(r, i - 1);
      } else {
        NthPrime(r - 1, 7);
      }
      forall n | q < n < p ensures !Prime(n) {
        BetweenEntries(r, i, n);
      }
      RowsClimb(r, i);
      NoneBetween(q + 1, p);
    }
  }

  lemma FirstPrime()
    ensures PrimesBelow(2) == 0
  {
    assert !Prime(0) && !Prime(1);
    assert PrimesBelow(1) == 0;
  }

  lemma RowIsPrime(r: nat, i: nat)
    requires r < 8 && i < 8
    ensures Prime(PrimeRow(r)[i])
  {
    hide Prime;
    RowBounds(r, i);
    RowsListPrimes(PrimeRow(r)[i], r);
  }

  lemma RowBounds(r: nat, i: nat)
    requires r < 8 && i < 8
    ensures (if r == 0 then 1 else PrimeRow(r - 1)[7]) < PrimeRow(r)[i] <= PrimeRow(r)[7]
  {}

  /** The entry before comes before. */
  lemma RowsClimb(r: nat, i: nat)
    requires r < 8 && i < 8 && (r > 0 || i > 0)
    ensures (if i > 0 then PrimeRow(r)[i - 1] else PrimeRow(r - 1)[7]) < PrimeRow(r)[i]
  {
    if i > 0 {
      RowsAscend(r, i - 1);
    } else {
      RowsAscend(r - 1, 7);
    }
  }

  lemma BetweenEntries(r: nat, i: nat, n: nat)
    requires r < 8 && i < 8 && (r > 0 || i > 0)
    requires (if i > 0 then PrimeRow(r)[i - 1] else PrimeRow(r - 1)[7]) < n < PrimeRow(r)[i]
    ensures !Prime(n)
  {
    hide Prime;
    RowBounds(r, i);
    if i > 0 { RowBounds(r, i - 1); }
    RowsListPrimes(n, r);
    NotListed(r, i, n);
  }

  lemma {:induction false} RowClimbs(r: nat, i: nat, j: nat)
    requires r < 8 && i <= j < 8
    ensures PrimeRow(r)[i] <= PrimeRow(r)[j]
    decreases j
  {
    hide PrimeRow;
    if i < j {
      RowClimbs(r, i, j - 1);
      RowsAscend(r, j - 1);
    }
  }

  lemma NotListed(r: nat, i: nat, n: nat)
    requires r < 8 && i < 8
    requires (if i > 0 then PrimeRow(r)[i - 1] else 0) < n < PrimeRow(r)[i]
    ensures n !in PrimeRow(r)
  {
    hide PrimeRow;
    forall j: nat | j < 8 ensures PrimeRow(r)[j] != n {
      if j < i {
        RowClimbs(r, j, i - 1);
      } else {
        RowClimbs(r, i, j);
      }
    }
  }
}
