/** The number of inter-node connections of a placement: over every pair of elements
    j < i that sit in different nodes, the connection count of the pair, summed. Both the
    schema's InternodeConnectionsCount and the layout algorithm's fitness compute it, the
    first from the elements' NodeIds, the second from a genome. */
module CrossCounts {

  /** `w` is an n-by-n table of connection counts, indexed by element position. */
  predicate IsTable(w: seq<seq<int>>, n: nat) {
    |w| == n && forall i :: 0 <= i < n ==> |w[i]| == n
  }

  /** The lower triangle of `w` holds no negative count. */
  predicate NonNegative(w: seq<seq<int>>) {
    forall i, j :: 0 <= j < i < |w| && j < |w[i]| ==> w[i][j] >= 0
  }

  /** Row i of the sum: the pairs (i, j) with j < m. */
  function RowCount(g: seq<int>, w: seq<seq<int>>, i: nat, m: nat): int
    requires IsTable(w, |g|) && i < |g| && m <= |g|
  {
    if m == 0 then 0
    else RowCount(g, w, i, m - 1) + (if g[i] != g[m - 1] then w[i][m - 1] else 0)
  }

  /** The pairs (i, j) with j < i < m, row by row. */
  function PrefixCount(g: seq<int>, w: seq<seq<int>>, m: nat): int
    requires IsTable(w, |g|) && m <= |g|
  {
    if m == 0 then 0 else PrefixCount(g, w, m - 1) + RowCount(g, w, m - 1, m - 1)
  }

  /** The inter-node connection count of placement `g` (g[i] is the node of element i). */
  function CrossCount(g: seq<int>, w: seq<seq<int>>): int
    requires IsTable(w, |g|)
  {
    PrefixCount(g, w, |g|)
  }

  /** Two placements group the elements alike. */
  predicate SamePartition(g: seq<int>, h: seq<int>) {
    |g| == |h| && forall i, j :: 0 <= i < |g| && 0 <= j < |g| ==> (g[i] == g[j] <==> h[i] == h[j])
  }

  lemma {:induction false} RowCountNonNegative(g: seq<int>, w: seq<seq<int>>, i: nat, m: nat)
    requires IsTable(w, |g|) && NonNegative(w) && m <= i < |g|
    ensures RowCount(g, w, i, m) >= 0
  {
    if m > 0 {
      RowCountNonNegative(g, w, i, m - 1);
    }
  }

  lemma {:induction false} PrefixCountNonNegative(g: seq<int>, w: seq<seq<int>>, m: nat)
    requires IsTable(w, |g|) && NonNegative(w) && m <= |g|
    ensures PrefixCount(g, w, m) >= 0
  {
    if m > 0 {
      PrefixCountNonNegative(g, w, m - 1);
      RowCountNonNegative(g, w, m - 1, m - 1);
    }
  }

  /** With non-negative connection counts the inter-node count is never negative. */
  lemma CrossCountNonNegative(g: seq<int>, w: seq<seq<int>>)
    requires IsTable(w, |g|) && NonNegative(w)
    ensures CrossCount(g, w) >= 0
  {
    PrefixCountNonNegative(g, w, |g|);
  }

  lemma {:induction false} RowCountPartition(g: seq<int>, h: seq<int>, w: seq<seq<int>>, i: nat, m: nat)
    requires IsTable(w, |g|) && SamePartition(g, h) && i < |g| && m <= |g|
    ensures RowCount(g, w, i, m) == RowCount(h, w, i, m)
  {
    if m > 0 {
      RowCountPartition(g, h, w, i, m - 1);
    }
  }

  lemma {:induction false} PrefixCountPartition(g: seq<int>, h: seq<int>, w: seq<seq<int>>, m: nat)
    requires IsTable(w, |g|) && SamePartition(g, h) && m <= |g|
    ensures PrefixCount(g, w, m) == PrefixCount(h, w, m)
  {
    if m > 0 {
      PrefixCountPartition(g, h, w, m - 1);
      RowCountPartition(g, h, w, m - 1, m - 1);
    }
  }

  /** The count depends only on which elements share a node, not on the node ids: in
      particular renumbering the nodes one-to-one leaves it unchanged. */
  lemma CrossCountPartition(g: seq<int>, h: seq<int>, w: seq<seq<int>>)
    requires IsTable(w, |g|) && SamePartition(g, h)
    ensures CrossCount(g, w) == CrossCount(h, w)
  {
    PrefixCountPartition(g, h, w, |g|);
  }

  /** With every element in one node there is no inter-node connection. */
  lemma CrossCountSingleNode(g: seq<int>, w: seq<seq<int>>)
    requires IsTable(w, |g|)
    requires forall i :: 0 <= i < |g| ==> g[i] == g[0]
    ensures CrossCount(g, w) == 0
  {
    var zero := seq(|g|, i => 0);
    assert SamePartition(g, zero);
    CrossCountPartition(g, zero, w);
    ZeroCount(zero, w, |g|);
  }

  lemma {:induction false} ZeroCount(g: seq<int>, w: seq<seq<int>>, m: nat)
    requires IsTable(w, |g|) && m <= |g|
    requires forall i :: 0 <= i < |g| ==> g[i] == 0
    ensures PrefixCount(g, w, m) == 0
  {
    if m > 0 {
      ZeroCount(g, w, m - 1);
      ZeroRow(g, w, m - 1, m - 1);
    }
  }

  lemma {:induction false} ZeroRow(g: seq<int>, w: seq<seq<int>>, i: nat, m: nat)
    requires IsTable(w, |g|) && i < |g| && m <= |g|
    requires forall i :: 0 <= i < |g| ==> g[i] == 0
    ensures RowCount(g, w, i, m) == 0
  {
    if m > 0 {
      ZeroRow(g, w, i, m - 1);
    }
  }

  /** The table of entries of a labeled matrix, read by the labels `names` on both axes. */
  function Weights(entries: map<(string, string), int>, names: seq<string>): (w: seq<seq<int>>)
    requires forall i, j :: 0 <= i < |names| && 0 <= j < |names| ==> (names[i], names[j]) in entries
    ensures IsTable(w, |names|)
    ensures forall i, j :: 0 <= i < |names| && 0 <= j < |names| ==> w[i][j] == entries[(names[i], names[j])]
  {
    seq(|names|, i requires 0 <= i < |names| =>
      seq(|names|, j requires 0 <= j < |names| => entries[(names[i], names[j])]))
  }
}
