/** The number theory behind the probe sequence: with a prime table size, a walk by any step
    visits every slot exactly once before it comes back to its start. */
module DoubleHashing {
  import opened Arithmetic

  ghost predicate Prime(p: int) {
    p >= 2 && forall d :: 1 < d < p ==> p % d != 0
  }

  /** The two hashes: where the search starts, and by how much it goes on. */
  function Mod(h: nat, size: nat): nat
    requires size > 0
  {
    h % size
  }

  function Mod2(h: nat, size: nat): nat
    requires size > 2
  {
    1 + h % (size - 2)
  }

  /** The slot looked at in round k of a search for hash h. */
  function Probe(h: nat, size: nat, k: nat): (i: nat)
    requires size > 2
    ensures i < size
  {
    Walk(Mod(h, size), Mod2(h, size), size, k)
  }

  function Walk(start: nat, step: nat, size: nat, k: nat): (i: nat)
    requires size > 0
    ensures i < size
  {
    (start + k * step) % size
  }

  lemma RemainderOfSum(a: nat, b: nat, n: nat)
    requires n > 0 && b < n
    ensures (a + b) % n == if a % n + b < n then a % n + b else a % n + b - n
  {
    var q, r := a / n, a % n;
    assert a == n * q + r;
    if r + b < n {
      Unique(a + b, n, q, r + b);
    } else {
      Unique(a + b, n, q + 1, r + b - n);
    }
  }

  /** The walk as the program advances it: add the step, subtract the size on overflow. */
  lemma WalkNext(start: nat, step: nat, size: nat, k: nat)
    requires step < size
    ensures var i := Walk(start, step, size, k);
            Walk(start, step, size, k + 1) == if i + step >= size then i + step - size else i + step
  {
    assert start + (k + 1) * step == (start + k * step) + step;
    RemainderOfSum(start + k * step, step, size);
  }

  lemma WalkStart(start: nat, step: nat, size: nat)
    requires start < size
    ensures Walk(start, step, size, 0) == start
    ensures Walk(start, step, size, size) == start
  {
    assert start + size * step == size * step + start;
    Unique(start + size * step, size, step, start);
  }

  /** No product of two numbers below a prime is a multiple of it. */
  lemma {:induction false} NoMultiple(p: nat, s: nat, m: nat, k: int)
    requires Prime(p) && 0 < s < p && 0 < m < p
    ensures m * s != k * p
    decreases m
  {
    if m == 1 {
      if k != 0 {
        Grows(p, k);
      }
    } else {
      var q, r := p / m, p % m;
      assert p == m * q + r;
      NoMultiple(p, s, r, s - q * k);
      assert r * s == p * s - q * (m * s);
      assert r * s - (s - q * k) * p == q * (k * p - m * s);
    }
  }

  lemma WalkInjective(start: nat, step: nat, size: nat, i: nat, j: nat)
    requires Prime(size) && 0 < step < size && i < size && j < size && i != j
    ensures Walk(start, step, size, i) != Walk(start, step, size, j)
  {
    var (lo, hi) := if i < j then (i, j) else (j, i);
    var a, b := start + lo * step, start + hi * step;
    assert b - a == (hi - lo) * step;
    var k := b / size - a / size;
    NoMultiple(size, step, hi - lo, k);
    assert a == size * (a / size) + a % size && b == size * (b / size) + b % size;
    assert a % size == b % size ==> b - a == k * size;
  }

  ghost function Below(n: nat): (s: set<nat>)
    ensures |s| == n && forall i: nat :: i in s <==> i < n
  {
    if n == 0 then {} else Below(n - 1) + {n - 1}
  }

  /** The slots of the first n rounds. */
  ghost function Visited(start: nat, step: nat, size: nat, n: nat): set<nat>
    requires size > 0
  {
    set k: nat | k < n :: Walk(start, step, size, k)
  }

  lemma VisitedNext(start: nat, step: nat, size: nat, n: nat)
    requires size > 0
    ensures Visited(start, step, size, n + 1) == Visited(start, step, size, n) + {Walk(start, step, size, n)}
  {
  }

  lemma VisitedFresh(start: nat, step: nat, size: nat, n: nat)
    requires Prime(size) && 0 < step < size && n < size
    ensures Walk(start, step, size, n) !in Visited(start, step, size, n)
  {
    forall k: nat | k < n ensures Walk(start, step, size, k) != Walk(start, step, size, n) {
      WalkInjective(start, step, size, k, n);
    }
  }

  lemma {:induction false} VisitedCount(start: nat, step: nat, size: nat, n: nat)
    requires Prime(size) && 0 < step < size && n <= size
    ensures |Visited(start, step, size, n)| == n
    ensures Visited(start, step, size, n) <= Below(size)
  {
    if n > 0 {
      VisitedCount(start, step, size, n - 1);
      VisitedNext(start, step, size, n - 1);
      VisitedFresh(start, step, size, n - 1);
    }
  }

  lemma SubsetOfEqualSize<T>(a: set<T>, b: set<T>)
    requires a <= b && |a| == |b|
    ensures a == b
  {
    var c := b - a;
    assert b == a + c && a !! c;
    assert |b| == |a| + |c|;
  }

  /** Every slot is visited, in exactly one round. */
  lemma WalkReaches(start: nat, step: nat, size: nat, i: nat) returns (k: nat)
    requires Prime(size) && 0 < step < size && i < size
    ensures k < size && Walk(start, step, size, k) == i
    ensures forall j: nat :: j < size && Walk(start, step, size, j) == i ==> j == k
  {
    VisitedCount(start, step, size, size);
    SubsetOfEqualSize(Visited(start, step, size, size), Below(size));
    assert i in Visited(start, step, size, size);
    k :| k < size && Walk(start, step, size, k) == i;
    forall j: nat | j < size && j != k ensures Walk(start, step, size, j) != i {
      WalkInjective(start, step, size, j, k);
    }
  }
}
