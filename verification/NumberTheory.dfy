/** Arithmetic behind the Maglev permutations: primes, remainders, and the fact that
    stepping by `skip` modulo a prime visits every slot exactly once. */
module NumberTheory {

  predicate Divides(d: nat, n: nat)
    requires d > 0
  {
    n % d == 0
  }

  ghost predicate Prime(p: nat) {
    p > 1 && forall d: nat :: 1 < d < p ==> !Divides(d, p)
  }

  // ---------- remainders ----------

  lemma ModUnique(x: int, m: nat, q: int, r: int)
    requires m > 0 && x == q * m + r && 0 <= r < m
    ensures x % m == r && x / m == q
  {
    var e := x / m - q;
    assert e * m == r - x % m by {
      assert x == m * (x / m) + x % m;
    }
    SmallMultiple(e, m);
  }

  lemma SmallMultiple(e: int, m: nat)
    requires m > 0 && -1 * m < e * m < m
    ensures e == 0
  {
  }

  lemma MulMonotone(a: nat, a': nat, b: nat, b': nat)
    requires a <= a' && b <= b'
    ensures a * b <= a' * b'
  {
  }

  lemma ModAddMultiple(x: int, k: int, m: nat)
    requires m > 0
    ensures (x + k * m) % m == x % m
  {
    ModUnique(x + k * m, m, x / m + k, x % m);
  }

  lemma HalfOfQuotient(v: nat, d: nat)
    requires d > 0
    ensures v / 2 / d == v / (2 * d)
  {
    var q, r := v / 2 / d, v / 2 % d;
    assert v == 2 * (q * d + r) + v % 2;
    assert 2 * (q * d) == q * (2 * d);
    ModUnique(v, 2 * d, q, 2 * r + v % 2);
  }

  /** Equal remainders differ by a multiple. */
  lemma EqualModDifference(x: int, y: int, m: nat)
    requires m > 0 && x % m == y % m
    ensures (x - y) % m == 0
  {
    assert x - y == (x / m - y / m) * m;
    ModUnique(x - y, m, x / m - y / m, 0);
  }

  /** The remainder of `p` by `d` inherits that `p` divides its product with `s`. */
  lemma RemainderProduct(p: nat, s: nat, d: nat)
    requires p > 0 && d > 0 && (d * s) % p == 0
    ensures ((p % d) * s) % p == 0
  {
    var q, k := p / d, d * s / p;
    assert d * s == k * p;
    assert p % d == p - q * d;
    assert (p - q * d) * s == p * s - q * (d * s) == s * p - (q * k) * p == (s - q * k) * p;
    ModUnique((p % d) * s, p, s - q * k, 0);
  }

  /** Modulo a prime, a product of two nonzero residues is nonzero. */
  lemma {:induction false} PrimeProduct(p: nat, s: nat, d: nat)
    requires Prime(p) && 0 < s < p && 0 < d < p
    ensures (d * s) % p != 0
    decreases d
  {
    if (d * s) % p == 0 {
      RemainderProduct(p, s, d);
      if p % d == 0 {
        assert Divides(d, p);
        assert d == 1;
        ModUnique(s, p, 0, s);
        assert false;
      } else {
        PrimeProduct(p, s, p % d);
        assert false;
      }
    }
  }

  // ---------- primality of the table size ----------

  lemma CoDivisor(n: nat, root: nat, d: nat) returns (e: nat)
    requires 1 < n < root * root && root <= d < n && Divides(d, n)
    ensures 1 < e < root && Divides(e, n)
  {
    e := n / d;
    assert n == e * d;
    if e >= root {
      MulMonotone(root, e, root, d);
      assert false;
    }
    ModUnique(n, e, d, 0);
  }

  /** Trial division up to the square root decides primality. */
  lemma TrialDivision(n: nat, root: nat)
    requires 1 < n < root * root && forall d: nat :: 1 < d < root ==> !Divides(d, n)
    ensures Prime(n)
  {
    forall d: nat | 1 < d < n
      ensures !Divides(d, n)
    {
      if d >= root && Divides(d, n) {
        var e := CoDivisor(n, root, d);
        assert false;
      }
    }
  }

  lemma SmallDivisor65537(d: nat)
    requires 1 < d < 257
    ensures !Divides(d, 65537)
  {
  }

  lemma Prime65537()
    ensures Prime(65537)
  {
    forall d: nat | 1 < d < 257
      ensures !Divides(d, 65537)
    {
      SmallDivisor65537(d);
    }
    TrialDivision(65537, 257);
  }

  // ---------- the orbit of a cursor ----------

  /** Where a cursor that starts at `offset` stands after `j` steps of length `skip`. */
  function Pos(m: nat, offset: nat, skip: nat, j: nat): (r: nat)
    requires m > 0
    ensures r < m
  {
    (offset + j * skip) % m
  }

  lemma PosStep(m: nat, offset: nat, skip: nat, j: nat)
    requires m > 0 && skip < m
    ensures var here := Pos(m, offset, skip, j);
            Pos(m, offset, skip, j + 1) == if here + skip >= m then here + skip - m else here + skip
  {
    var x := offset + j * skip;
    assert offset + (j + 1) * skip == x + skip;
    var here := x % m;
    if here + skip >= m {
      ModUnique(x + skip, m, x / m + 1, here + skip - m);
    } else {
      ModUnique(x + skip, m, x / m, here + skip);
    }
  }

  /** Two different steps of one round never coincide. */
  lemma PosInjective(m: nat, offset: nat, skip: nat, i: nat, j: nat)
    requires Prime(m) && 0 < skip < m && i < j < m
    ensures Pos(m, offset, skip, i) != Pos(m, offset, skip, j)
  {
    if Pos(m, offset, skip, i) == Pos(m, offset, skip, j) {
      EqualModDifference(offset + j * skip, offset + i * skip, m);
      assert offset + j * skip - (offset + i * skip) == (j - i) * skip;
      PrimeProduct(m, skip, j - i);
    }
  }

  ghost function Visited(m: nat, offset: nat, skip: nat, n: nat): set<nat>
    requires m > 0
  {
    set j: nat | j < n :: Pos(m, offset, skip, j)
  }

  function Below(n: nat): (s: set<nat>)
    ensures |s| == n && forall x: nat :: x in s <==> x < n
  {
    if n == 0 then {} else Below(n - 1) + {n - 1}
  }

  lemma {:induction false} VisitedCount(m: nat, offset: nat, skip: nat, n: nat)
    requires Prime(m) && 0 < skip < m && n <= m
    ensures |Visited(m, offset, skip, n)| == n
  {
    if n > 0 {
      VisitedCount(m, offset, skip, n - 1);
      var before := Visited(m, offset, skip, n - 1);
      var last := Pos(m, offset, skip, n - 1);
      assert last !in before by {
        forall j: nat | j < n - 1
          ensures Pos(m, offset, skip, j) != last
        {
          PosInjective(m, offset, skip, j, n - 1);
        }
      }
      assert Visited(m, offset, skip, n) == before + {last};
    }
  }

  lemma SubsetOfEqualSize<T>(a: set<T>, b: set<T>)
    requires a <= b && |a| == |b|
    ensures a == b
  {
    assert b == a + (b - a);
    assert |b| == |a| + |b - a|;
  }

  /** One round of `m` steps is a permutation of the slots: every slot is met, at exactly one step. */
  lemma OrbitIsPermutation(m: nat, offset: nat, skip: nat, slot: nat)
    requires Prime(m) && 0 < skip < m && slot < m
    ensures exists j: nat :: j < m && Pos(m, offset, skip, j) == slot
    ensures forall i: nat, j: nat :: i < m && j < m && Pos(m, offset, skip, i) == slot && Pos(m, offset, skip, j) == slot ==> i == j
  {
    VisitedCount(m, offset, skip, m);
    SubsetOfEqualSize(Visited(m, offset, skip, m), Below(m));
    assert slot in Visited(m, offset, skip, m);
    forall i: nat, j: nat | i < m && j < m && Pos(m, offset, skip, i) == slot && Pos(m, offset, skip, j) == slot
      ensures i == j
    {
      if i < j {
        PosInjective(m, offset, skip, i, j);
      } else if j < i {
        PosInjective(m, offset, skip, j, i);
      }
    }
  }
}
