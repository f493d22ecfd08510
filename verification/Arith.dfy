/**
 * Products and quotients by a number that is not a constant (sectors per
 * cluster), defined by counting so that the proofs about files need no
 * nonlinear arithmetic, with the lemmas that say they are * , / and %.
 */
module Arith {

  /** n * m */
  function Times(n: nat, m: nat): nat {
    if n == 0 then 0 else Times(n - 1, m) + m
  }

  /** k / m */
  function Quot(k: nat, m: nat): (q: nat)
    requires m > 0
  {
    if k < m then 0 else Quot(k - m, m) + 1
  }

  /** k % m */
  function Rem(k: nat, m: nat): (r: nat)
    requires m > 0
    ensures r < m
  {
    if k < m then k else Rem(k - m, m)
  }

  lemma {:induction false} TimesIsProduct(n: nat, m: nat)
    ensures Times(n, m) == n * m
  {
    if n > 0 {
      TimesIsProduct(n - 1, m);
      assert (n - 1) * m + m == n * m;
    }
  }

  lemma {:induction false} TimesMono(a: nat, b: nat, m: nat)
    requires a <= b
    ensures Times(a, m) <= Times(b, m)
    ensures a < b ==> Times(a, m) + m <= Times(b, m)
    decreases b
  {
    if a < b {
      TimesMono(a, b - 1, m);
    }
  }

  lemma {:induction false} QuotRem(k: nat, m: nat)
    requires m > 0
    ensures k == Times(Quot(k, m), m) + Rem(k, m)
  {
    if k >= m {
      QuotRem(k - m, m);
    }
  }

  /** Quotient and remainder are the only place of a number. */
  lemma SamePlace(k: nat, j: nat, s: nat, m: nat)
    requires s < m
    ensures k == Times(j, m) + s <==> Quot(k, m) == j && Rem(k, m) == s
  {
    QuotRem(k, m);
    if Quot(k, m) < j {
      TimesMono(Quot(k, m), j, m);
    } else if j < Quot(k, m) {
      TimesMono(j, Quot(k, m), m);
    }
  }

  lemma QuotBound(k: nat, n: nat, m: nat)
    requires m > 0
    ensures k < Times(n, m) <==> Quot(k, m) < n
  {
    QuotRem(k, m);
    if Quot(k, m) < n {
      TimesMono(Quot(k, m), n, m);
    } else {
      TimesMono(n, Quot(k, m), m);
    }
  }

  lemma QuotMono(a: nat, b: nat, m: nat)
    requires m > 0 && a <= b
    ensures Quot(a, m) <= Quot(b, m)
  {
    QuotBound(a, Quot(b, m) + 1, m);
    QuotBound(b, Quot(b, m) + 1, m);
  }

  /** Byte i of the sector after the first o % 512 bytes. */
  lemma InSector(o: nat, i: nat)
    requires o % 512 + i < 512
    ensures (o + i) / 512 == o / 512 && (o + i) % 512 == o % 512 + i
  {
  }

  lemma SectorsFit(o: nat, n: nat, k: nat)
    requires o / 512 < k && o % 512 + n <= 512
    ensures o + n <= k * 512
  {
  }

  /** The sector of byte n. */
  function FloorSector(n: nat): nat {
    n / 512
  }

  /** The sectors that hold n bytes. */
  function CeilSectors(n: nat): nat {
    (n + 511) / 512
  }

  lemma FirstSector(k: nat, offset: nat)
    ensures FloorSector(k * 512 + offset % 512 + 0) == k
    ensures (k * 512 + offset % 512) % 512 == offset % 512
  {
  }

  /** Moving two positions by the same distance keeps them at the same place in their sectors. */
  lemma SameOffset(a: nat, b: nat, t: nat)
    requires a % 512 == b % 512
    ensures (a + t) % 512 == (b + t) % 512
  {
    OffsetSum(a, t);
    OffsetSum(b, t);
  }

  lemma OffsetSum(a: nat, t: nat)
    ensures (a + t) % 512 == (a % 512 + t % 512) % 512
  {
    var q := a / 512 + t / 512;
    assert a + t == 512 * q + (a % 512 + t % 512);
  }

  lemma TimesNext(j: nat, m: nat)
    ensures Times(j + 1, m) == Times(j, m) + m
  {
  }

  /** The next n bytes from position e stay in one sector; they end it or are the last. */
  lemma NextPiece(e: nat, rest: nat, n: nat)
    requires n == (if 512 - e % 512 < rest then 512 - e % 512 else rest) && rest > 0
    ensures 0 < n && e % 512 + n <= 512
    ensures CeilSectors(e + n) == FloorSector(e) + 1
    ensures n < rest ==> FloorSector(e + n) == FloorSector(e) + 1
  {
  }

  lemma MulMono(a: int, b: int, m: nat)
    requires a <= b
    ensures a * m <= b * m
  {
    assert b * m - a * m == (b - a) * m;
  }

  lemma MulStep(a: int, m: int)
    ensures (a + 1) * m == a * m + m
  {
  }

  lemma PlaceIsUnique(a: int, s: int, b: int, t: int, m: nat)
    requires 0 <= s < m && 0 <= t < m && a * m + s == b * m + t
    ensures a == b && s == t
  {
    if a < b {
      MulMono(a + 1, b, m);
      MulStep(a, m);
    } else if b < a {
      MulMono(b + 1, a, m);
      MulStep(b, m);
    }
  }

  lemma DivModOf(q: nat, r: nat, m: nat)
    requires r < m
    ensures (q * m + r) / m == q && (q * m + r) % m == r
  {
    var n := q * m + r;
    assert n == (n / m) * m + n % m;
    PlaceIsUnique(q, r, n / m, n % m, m);
  }

  /** Quot and Rem, defined by repeated subtraction, are the / and % of the program. */
  lemma QuotIsDiv(k: nat, m: nat)
    requires m > 0
    ensures Quot(k, m) == k / m && Rem(k, m) == k % m
  {
    QuotRem(k, m);
    TimesIsProduct(Quot(k, m), m);
    DivModOf(Quot(k, m), Rem(k, m), m);
  }

  /** Where a byte offset lies: cluster index, sector in the cluster, byte in the sector. */
  lemma OffsetPlace(o: nat, m: nat)
    requires m > 0
    ensures Quot(o, m * 512) == Quot(o / 512, m)
    ensures Rem(o, m * 512) / 512 == Rem(o / 512, m)
    ensures Rem(o, m * 512) % 512 == o % 512
  {
    var k := o / 512;
    var q, t, r := Quot(k, m), Rem(k, m), o % 512;
    QuotRem(k, m);
    TimesByBytes(q, m);
    SamePlace(o, q, t * 512 + r, m * 512);
  }

  lemma {:induction false} TimesByBytes(q: nat, m: nat)
    ensures Times(q, m * 512) == Times(q, m) * 512
  {
    if q > 0 {
      TimesByBytes(q - 1, m);
    }
  }

  lemma MulAssoc(q: nat, m: nat)
    ensures q * (m * 512) == q * m * 512
  {
  }

  lemma PlaceOffset(j: nat, s: nat, m: nat)
    ensures j * (m * 512) + s * 512 == (Times(j, m) + s) * 512
  {
    TimesIsProduct(j, m);
    MulAssoc(j, m);
  }

  /** The clusters of m sectors that size bytes need, rounded up. */
  function ClustersFor(size: nat, m: nat): nat
    requires m > 0
  {
    Quot(size + m * 512 - 1, m * 512)
  }

  /** It is the least number of clusters that holds them. */
  lemma ClustersNeeded(size: nat, m: nat)
    requires m > 0
    ensures var c := ClustersFor(size, m);
            size <= Times(c, m) * 512 && (c > 0 ==> Times(c - 1, m) * 512 < size) && (c == 0 <==> size == 0)
  {
    var z := m * 512;
    var c := ClustersFor(size, m);
    QuotRem(size + z - 1, z);
    TimesByBytes(c, m);
    if c > 0 {
      TimesByBytes(c - 1, m);
    }
  }

  lemma ClustersFit(size: nat, n: nat, m: nat)
    requires m > 0 && size <= Times(n, m) * 512
    ensures ClustersFor(size, m) <= n
  {
    hide ClustersFor;
    ClustersNeeded(size, m);
    if n < ClustersFor(size, m) {
      TimesMono(n, ClustersFor(size, m) - 1, m);
    }
  }
}
