/** Genomes of the layout algorithm. A genome lists, for every element of the schema by
    position, the node the element is placed in; nodes are numbered from 1. */
module Genomes {

  /** Every gene names one of the nodes 1..k. */
  predicate InNodes(g: seq<int>, k: int) {
    forall i :: 0 <= i < |g| ==> 1 <= g[i] <= k
  }

  /** The most elements a node may hold when n elements are spread over k nodes: n / k,
      rounded up (the crossover's maxElementsInNodeCount). */
  function Capacity(n: nat, k: int): (c: nat)
    requires k > 0
    ensures c * k >= n
    ensures n > 0 ==> (c - 1) * k < n
  {
    var q := n / k;
    assert n == q * k + n % k && 0 <= n % k < k;
    assert (q + 1) * k == q * k + k && (q - 1) * k == q * k - k;
    q + (if n % k > 0 then 1 else 0)
  }

  /** The initial population's template: element i (from 0) goes to node (i + 1) % k + 1,
      i.e. the nodes 2, 3, ..., k, 1, 2, ... in turn. */
  function Template(n: nat, k: int): (t: seq<int>)
    requires k > 0
    ensures |t| == n
    ensures forall i :: 0 <= i < n ==> t[i] == (i + 1) % k + 1
  {
    seq(n, i requires 0 <= i < n => (i + 1) % k + 1)
  }

  /** How many of the numbers 1..n leave remainder r modulo k. */
  function Residues(n: nat, k: int, r: int): nat
    requires k > 0
  {
    if n == 0 then 0 else Residues(n - 1, k, r) + (if n % k == r then 1 else 0)
  }

  /** Counting a value in the template is counting residues. */
  lemma {:induction false} TemplateCount(n: nat, k: int, v: int)
    requires k > 0 && 1 <= v <= k
    ensures multiset(Template(n, k))[v] == Residues(n, k, v - 1)
  {
    if n > 0 {
      TemplateCount(n - 1, k, v);
      assert Template(n, k) == Template(n - 1, k) + [n % k + 1];
    }
  }

  /** A multiple of a positive k is at least k or at most -k unless it is zero. */
  lemma MulAtLeast(d: int, k: int)
    requires k > 0
    ensures d >= 1 ==> d * k >= k
    ensures d <= -1 ==> d * k <= -k
  {
  }

  /** Euclidean division is determined by the quotient and remainder it must produce. */
  lemma DivUnique(a: int, k: int, q: int, m: int)
    requires k > 0 && a == q * k + m && 0 <= m < k
    ensures a / k == q && a % k == m
  {
    var q', m' := a / k, a % k;
    assert a == q' * k + m' && 0 <= m' < k;
    assert (q - q') * k == m' - m;
    MulAtLeast(q - q', k);
  }

  /** One step of integer division: a/k grows by one exactly when k divides a + 1. */
  lemma DivStep(a: nat, k: int)
    requires k > 0
    ensures (a + 1) / k == a / k + (if (a + 1) % k == 0 then 1 else 0)
  {
    var q, m := a / k, a % k;
    assert a == q * k + m && 0 <= m < k;
    if m + 1 == k {
      assert a + 1 == (q + 1) * k + 0;
      DivUnique(a + 1, k, q + 1, 0);
    } else {
      DivUnique(a + 1, k, q, m + 1);
    }
  }

  /** The numbers 1..n divisible by k: n / k of them. */
  lemma {:induction false} ResiduesZero(n: nat, k: int)
    requires k > 0
    ensures Residues(n, k, 0) == n / k
  {
    if n > 0 {
      ResiduesZero(n - 1, k);
      DivStep(n - 1, k);
    } else {
      DivUnique(0, k, 0, 0);
    }
  }

  /** The numbers 1..n with remainder r, for 0 < r < k: (n - r) / k + 1 of them once
      n >= r, none before. */
  lemma {:induction false} ResiduesPositive(n: nat, k: int, r: int)
    requires 0 < r < k
    ensures Residues(n, k, r) == if n >= r then (n - r) / k + 1 else 0
  {
    if n > 0 {
      ResiduesPositive(n - 1, k, r);
      if n > r {
        DivStep(n - 1 - r, k);
        ModShift(n - r, r, k);
      } else {
        DivUnique(n, k, 0, n);
        if n == r {
          DivUnique(0, k, 0, 0);
        }
      }
    }
  }

  /** Adding r (0 <= r < k) to a multiple of k gives remainder r, and only then. */
  lemma ModShift(a: nat, r: int, k: int)
    requires 0 <= r < k
    ensures a % k == 0 <==> (a + r) % k == r
  {
    var q, m := a / k, a % k;
    assert a == q * k + m && 0 <= m < k;
    if m + r < k {
      DivUnique(a + r, k, q, m + r);
    } else {
      assert a + r == (q + 1) * k + (m + r - k);
      DivUnique(a + r, k, q + 1, m + r - k);
    }
  }

  /** n / k rounded up is (n + k - 1) / k. */
  lemma CapacityDiv(n: nat, k: int)
    requires k > 0
    ensures Capacity(n, k) == (n + k - 1) / k
  {
    var q, m := n / k, n % k;
    assert n == q * k + m && 0 <= m < k;
    if m == 0 {
      DivUnique(n + k - 1, k, q, k - 1);
    } else {
      assert n + k - 1 == (q + 1) * k + (m - 1);
      DivUnique(n + k - 1, k, q + 1, m - 1);
    }
  }

  /** Integer division by a positive number is monotone. */
  lemma DivMonotone(a: nat, b: nat, k: int)
    requires k > 0 && a <= b
    ensures a / k <= b / k
  {
    assert a == (a / k) * k + a % k && 0 <= a % k < k;
    assert b == (b / k) * k + b % k && 0 <= b % k < k;
    assert (a / k - b / k) * k == (a - a % k) - (b - b % k);
    MulAtLeast(a / k - b / k, k);
  }

  /** The template uses every node at most n / k (rounded up) times. */
  lemma TemplateBalanced(n: nat, k: int, v: int)
    requires k > 0
    ensures multiset(Template(n, k))[v] <= Capacity(n, k)
  {
    CapacityDiv(n, k);
    if 1 <= v <= k {
      TemplateCount(n, k, v);
      if v == 1 {
        ResiduesZero(n, k);
        DivMonotone(n, n + k - 1, k);
      } else if n >= v - 1 {
        ResiduesPositive(n, k, v - 1);
        assert (n - (v - 1)) / k + 1 == (n - (v - 1) + k) / k by {
          DivShift(n - (v - 1), k);
        }
        DivMonotone(n - (v - 1) + k, n + k - 1, k);
      } else {
        ResiduesPositive(n, k, v - 1);
      }
    } else {
      assert v !in Template(n, k);
    }
  }

  /** Adding k to the dividend adds one to the quotient. */
  lemma DivShift(a: nat, k: int)
    requires k > 0
    ensures (a + k) / k == a / k + 1
  {
    assert a == (a / k) * k + a % k && 0 <= a % k < k;
    assert a + k == (a / k + 1) * k + a % k;
    DivUnique(a + k, k, a / k + 1, a % k);
  }

  /** The number of positions below |b| where `a` and `b` agree. */
  function Matches(a: seq<int>, b: seq<int>): (c: nat)
    requires |a| >= |b|
    ensures c <= |b|
  {
    if b == [] then 0
    else Matches(a, b[..|b| - 1]) + (if a[|b| - 1] == b[|b| - 1] then 1 else 0)
  }

  /** The number of positions below |b| where `a` and `b` differ: the Hamming distance. */
  function Differs(a: seq<int>, b: seq<int>): (c: nat)
    requires |a| >= |b|
    ensures c <= |b|
  {
    if b == [] then 0
    else Differs(a, b[..|b| - 1]) + (if a[|b| - 1] != b[|b| - 1] then 1 else 0)
  }

  /** Every position either agrees or differs. */
  lemma {:induction false} MatchesDiffers(a: seq<int>, b: seq<int>)
    requires |a| >= |b|
    ensures Matches(a, b) + Differs(a, b) == |b|
  {
    if b != [] {
      MatchesDiffers(a, b[..|b| - 1]);
    }
  }

  /** A genome agrees with itself everywhere. */
  lemma {:induction false} MatchesSelf(a: seq<int>)
    ensures Matches(a, a) == |a|
  {
    if a != [] {
      var p := a[..|a| - 1];
      MatchesPrefix(a, p);
    }
  }

  lemma {:induction false} MatchesPrefix(a: seq<int>, p: seq<int>)
    requires |p| <= |a| && p == a[..|p|]
    ensures Matches(a, p) == |p|
  {
    if p != [] {
      MatchesPrefix(a, p[..|p| - 1]);
    }
  }

  /** A genome differs from itself nowhere. */
  lemma DiffersSelf(a: seq<int>)
    ensures Differs(a, a) == 0
  {
    MatchesSelf(a);
    MatchesDiffers(a, a);
  }

  /** Two genomes that differ nowhere below |b| agree there. */
  lemma {:induction false} DiffersZero(a: seq<int>, b: seq<int>)
    requires |a| >= |b| && Differs(a, b) == 0
    ensures b == a[..|b|]
  {
    if b != [] {
      DiffersZero(a, b[..|b| - 1]);
      assert b == b[..|b| - 1] + [b[|b| - 1]];
    }
  }
}
