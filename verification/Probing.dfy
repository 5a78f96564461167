/** Triangular ("quadratic") probing over a power-of-two number of buckets. */
module Probing {

  /** Largest value of the 11-bit displacement field; as a link it means "end of chain". */
  const DISPLACEMENT_LIMIT: nat := 0x7FF

  function Pow2(k: nat): (r: nat)
    ensures r > 0
  {
    if k == 0 then 1 else 2 * Pow2(k - 1)
  }

  ghost predicate IsPow2(n: nat) {
    exists k: nat :: n == Pow2(k)
  }

  /** vt_quadratic: the linear offset that belongs to a displacement. */
  function Quadratic(d: nat): nat {
    (d * d + d) / 2
  }

  /** The bucket that displacement `d` from `home` names. Masking with `n - 1` is reduction
      modulo `n`, because `n` is a power of two (see `Bits.MaskIsModulo`). */
  function Slot(n: nat, home: nat, d: nat): (b: nat)
    requires n > 0
    ensures b < n
  {
    (home + Quadratic(d)) % n
  }

  /** Twice the offset from home is the displacement times its successor, modulo twice the bucket
      count: the triangular law, free of division. */
  lemma SlotLaw(n: nat, home: nat, d: nat)
    requires n > 0
    ensures (2 * Slot(n, home, d) - 2 * home - d * (d + 1)) % (2 * n) == 0
  {
    var x := home + Quadratic(d);
    TwiceQuadratic(d);
    assert x == (x / n) * n + x % n;
    assert 2 * ((x / n) * n) == (x / n) * (2 * n);
    RemainderUnique(2 * Slot(n, home, d) - 2 * home - d * (d + 1), 2 * n, -(x / n), 0);
  }

  /** Each displacement lies its own length further on than the one before it. */
  lemma SlotStep(n: nat, home: nat, d: nat)
    requires n > 0
    ensures Slot(n, home, d + 1) == (Slot(n, home, d) + d + 1) % n
  {
    QuadraticStep(d);
    hide Quadratic;
    ModPlus(home + Quadratic(d), d + 1, n);
  }

  lemma ModPlus(x: nat, e: nat, n: nat)
    requires n > 0
    ensures (x + e) % n == (x % n + e) % n
  {
    var y := x % n + e;
    assert x == (x / n) * n + x % n && y == (y / n) * n + y % n;
    assert (x / n) * n + (y / n) * n == (x / n + y / n) * n;
    RemainderUnique(x + e, n, x / n + y / n, y % n);
  }

  lemma SlotAtHome(n: nat, home: nat)
    requires home < n
    ensures Slot(n, home, 0) == home
  {
  }

  /** The running sum kept by the probe loop is the closed form `Quadratic`. */
  lemma QuadraticStep(d: nat)
    ensures Quadratic(d + 1) == Quadratic(d) + d + 1
  {
    assert (d + 1) * (d + 1) + (d + 1) == d * d + d + 2 * (d + 1);
  }

  lemma TwiceQuadratic(d: nat)
    ensures 2 * Quadratic(d) == d * (d + 1)
  {
    if d > 0 {
      TwiceQuadratic(d - 1);
      QuadraticStep(d - 1);
    }
  }

  /** An odd factor contributes nothing to divisibility by a power of two. */
  lemma {:induction false} OddFactor(x: int, y: int, k: nat, q: int) returns (r: int)
    requires x * y == q * Pow2(k) && y % 2 == 1
    ensures x == r * Pow2(k)
    decreases k
  {
    if k == 0 {
      r := x;
    } else {
      var half := Pow2(k - 1);
      assert x * y == 2 * (q * half) by { assert q * (2 * half) == 2 * (q * half); }
      EvenFactor(x, y, q * half);
      var u := x / 2;
      assert x * y == 2 * (u * y) by { assert (2 * u) * y == 2 * (u * y); }
      r := OddFactor(u, y, k - 1, q);
      assert x == 2 * (r * half) == r * (2 * half);
    }
  }

  lemma EvenFactor(x: int, y: int, z: int)
    requires x * y == 2 * z && y % 2 == 1
    ensures x % 2 == 0
  {
    var u, r := x / 2, x % 2;
    assert (2 * u + r) * y == 2 * (u * y) + r * y;
    assert r == 1 ==> r * y == y;
  }

  /** A multiple of `m` strictly between `-m` and `m` is zero. */
  lemma SmallMultiple(x: int, m: int, r: int)
    requires -m < x < m && x == r * m
    ensures x == 0
  {
    MultipleBounds(m, r);
  }

  lemma MultipleBounds(m: int, r: int)
    ensures m >= 0 && r >= 1 ==> r * m >= m
    ensures m >= 0 && r <= -1 ==> r * m <= -m
    ensures r == 0 ==> r * m == 0
  {
    if m >= 0 && r >= 1 {
      assert (r - 1) * m >= 0;
    } else if m >= 0 && r <= -1 {
      assert (-1 - r) * m >= 0;
    }
  }

  /** Numbers with equal remainders differ by a multiple of the modulus. */
  lemma EqualRemainders(x: int, y: int, m: int) returns (q: int)
    requires m > 0 && x % m == y % m
    ensures y - x == q * m
  {
    q := y / m - x / m;
    assert (y / m) * m - (x / m) * m == q * m;
    assert x == (x / m) * m + x % m && y == (y / m) * m + y % m;
  }

  lemma QuadraticDifference(a: nat, b: nat)
    ensures 2 * (Quadratic(b) - Quadratic(a)) == (b - a) * (b + a + 1)
  {
    TwiceQuadratic(a);
    TwiceQuadratic(b);
    assert (b - a) * (b + a + 1) == b * (b + 1) - a * (a + 1);
  }

  /** If (b - a)(b + a + 1) is a multiple of 2n then a == b: the factors have opposite parity
      and each is smaller than 2n. */
  lemma FactorsTooSmall(k: nat, a: nat, b: nat, q: int)
    requires a < Pow2(k) && b < Pow2(k)
    requires (b - a) * (b + a + 1) == q * Pow2(k + 1)
    ensures a == b
  {
    if (b + a + 1) % 2 == 1 {
      var r := OddFactor(b - a, b + a + 1, k + 1, q);
      SmallMultiple(b - a, Pow2(k + 1), r);
    } else {
      assert (b + a + 1) * (b - a) == (b - a) * (b + a + 1);
      var r := OddFactor(b + a + 1, b - a, k + 1, q);
      SmallMultiple(b + a + 1, Pow2(k + 1), r);
      assert false;
    }
  }

  /** Distinct displacements below the bucket count name distinct buckets. */
  lemma SlotInjective(n: nat, home: nat, a: nat, b: nat)
    requires IsPow2(n)
    requires a < n && b < n && Slot(n, home, a) == Slot(n, home, b)
    ensures a == b
  {
    var k: nat :| n == Pow2(k);
    var q := EqualRemainders(home + Quadratic(a), home + Quadratic(b), n);
    QuadraticDifference(a, b);
    assert 2 * (q * n) == q * Pow2(k + 1) by { assert 2 * (q * n) == q * (2 * n); }
    FactorsTooSmall(k, a, b, q);
  }

  /** The buckets named by the first `count` displacements from `home`. */
  ghost function Probed(n: nat, home: nat, count: nat): set<nat>
    requires n > 0
  {
    set d: nat | d < count :: Slot(n, home, d)
  }

  lemma {:induction false} ProbedSize(n: nat, home: nat, count: nat)
    requires IsPow2(n) && count <= n
    ensures n > 0 && |Probed(n, home, count)| == count
  {
    if count > 0 {
      ProbedSize(n, home, count - 1);
      var last := Slot(n, home, count - 1);
      forall d: nat | d < count - 1 ensures Slot(n, home, d) != last {
        if Slot(n, home, d) == last { SlotInjective(n, home, d, count - 1); }
      }
      assert last !in Probed(n, home, count - 1);
      assert Probed(n, home, count) == Probed(n, home, count - 1) + {last};
    }
  }

  /** The bucket indices below `n`. */
  ghost function Below(n: nat): (r: set<nat>)
    ensures forall b: nat :: b in r <==> b < n
    ensures |r| == n
  {
    if n == 0 then {} else Below(n - 1) + {n - 1}
  }

  lemma SubsetSize<T>(a: set<T>, b: set<T>)
    requires a <= b
    ensures |a| <= |b|
    ensures |a| == |b| ==> a == b
  {
    assert b == a + (b - a);
    assert |b| == |a| + |b - a|;
  }

  /** Probing from any home reaches every bucket, at a displacement below the bucket count. */
  lemma SlotSurjective(n: nat, home: nat, b: nat) returns (d: nat)
    requires IsPow2(n) && b < n
    ensures d < n && Slot(n, home, d) == b
  {
    ProbedSize(n, home, n);
    SubsetSize(Probed(n, home, n), Below(n));
    assert b in Probed(n, home, n);
    d :| d < n && Slot(n, home, d) == b;
  }

  /** vt_quadratic, reduced modulo a power of two, is a permutation of the bucket indices, from
      every home. */
  lemma TriangularInjective(n: nat, home: nat, a: nat, b: nat)
    requires IsPow2(n) && a < n && b < n
    ensures (home + (a * a + a) / 2) % n == (home + (b * b + b) / 2) % n ==> a == b
  {
    if Slot(n, home, a) == Slot(n, home, b) { SlotInjective(n, home, a, b); }
  }

  lemma TriangularSurjective(n: nat, home: nat, b: nat) returns (d: nat)
    requires IsPow2(n) && b < n
    ensures d < n && (home + (d * d + d) / 2) % n == b
  {
    d := SlotSurjective(n, home, b);
  }

  lemma RemainderUnique(x: int, m: int, q: int, r: int)
    requires m > 0 && x == q * m + r && 0 <= r < m
    ensures x % m == r
  {
    var e := x / m - q;
    assert x == (x / m) * m + x % m;
    assert e * m == r - x % m by { assert e * m == (x / m) * m - q * m; }
    SmallMultiple(r - x % m, m, e);
  }

  lemma QuotientUnique(x: int, m: int, q: int, r: int)
    requires m > 0 && x == q * m + r && 0 <= r < m
    ensures x / m == q
  {
    RemainderUnique(x, m, q, r);
    var e := x / m - q;
    assert x == (x / m) * m + x % m;
    assert e * m == 0 by { assert e * m == (x / m) * m - q * m; }
    MultipleBounds(m, e);
  }
}
