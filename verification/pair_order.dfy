/** The order in which a container's pair sweep visits its children, stated on
    indices: every pair (i, j) with i < j, rows of equal i one after another. */
module PairOrder {

  type IndexPair = (nat, nat)

  /** Row `i` of the upper triangle of an n by n grid: (i, i+1), ..., (i, n-1). */
  function Row(i: nat, n: nat): seq<IndexPair> {
    if i + 1 < n then seq(n - 1 - i, m requires 0 <= m < n - 1 - i => (i, i + 1 + m)) else []
  }

  /** Rows 0 .. k-1 of that triangle, concatenated. */
  function Rows(k: nat, n: nat): seq<IndexPair> {
    if k == 0 then [] else Rows(k - 1, n) + Row(k - 1, n)
  }

  /** Every index pair i < j < n, in the sweep's order. */
  function IndexPairs(n: nat): seq<IndexPair> {
    Rows(n, n)
  }

  /** Strict lexicographic order on index pairs. */
  predicate LexLess(p: IndexPair, q: IndexPair) {
    p.0 < q.0 || (p.0 == q.0 && p.1 < q.1)
  }

  lemma RowMembers(i: nat, n: nat)
    ensures |Row(i, n)| == if i < n then n - 1 - i else 0
    ensures forall m :: 0 <= m < |Row(i, n)| ==> Row(i, n)[m] == (i, i + 1 + m)
    ensures forall p :: p in Row(i, n) <==> p.0 == i && i < p.1 < n
  {
    forall p: IndexPair | p.0 == i && i < p.1 < n
      ensures p in Row(i, n)
    {
      assert Row(i, n)[p.1 - i - 1] == p;
    }
  }

  lemma RowSorted(i: nat, n: nat)
    ensures SortedLex(Row(i, n))
  {
    RowMembers(i, n);
  }

  /** Membership in row i alone. */
  lemma RowContains(i: nat, n: nat, p: IndexPair)
    ensures p in Row(i, n) <==> p.0 == i && i < p.1 < n
  {
    RowMembers(i, n);
  }

  lemma {:induction false} RowsMembers(k: nat, n: nat)
    ensures forall p :: p in Rows(k, n) <==> p.0 < k && p.0 < p.1 < n
  {
    if k > 0 {
      RowsMembers(k - 1, n);
      var front, row := Rows(k - 1, n), Row(k - 1, n);
      assert Rows(k, n) == front + row;
      forall p: IndexPair ensures p in Rows(k, n) <==> p.0 < k && p.0 < p.1 < n {
        RowContains(k - 1, n, p);
        assert p in front + row <==> p in front || p in row;
      }
    }
  }

  /** Strictly increasing in the lexicographic order. */
  ghost predicate SortedLex(ps: seq<IndexPair>) {
    forall a, b :: 0 <= a < b < |ps| ==> LexLess(ps[a], ps[b])
  }

  /** A sorted block whose first components are all below k, followed by a
      sorted block whose first components are all k, is sorted. */
  lemma SortedConcat(front: seq<IndexPair>, row: seq<IndexPair>, k: nat)
    requires SortedLex(front) && SortedLex(row)
    requires forall p :: p in front ==> p.0 < k
    requires forall m :: 0 <= m < |row| ==> row[m].0 == k
    ensures SortedLex(front + row)
  {
    var all := front + row;
    forall a, b | 0 <= a < b < |all|
      ensures LexLess(all[a], all[b])
    {
      if b < |front| {
        assert all[a] == front[a] && all[b] == front[b];
      } else if a < |front| {
        assert all[a] == front[a] && front[a] in front;
        assert all[b] == row[b - |front|];
      } else {
        assert all[a] == row[a - |front|] && all[b] == row[b - |front|];
      }
    }
  }

  lemma {:induction false} RowsSorted(k: nat, n: nat)
    ensures SortedLex(Rows(k, n))
  {
    if k > 0 {
      RowsSorted(k - 1, n);
      RowsMembers(k - 1, n);
      RowMembers(k - 1, n);
      RowSorted(k - 1, n);
      SortedConcat(Rows(k - 1, n), Row(k - 1, n), k - 1);
    }
  }

  lemma {:induction false} RowsCount(k: nat, n: nat)
    requires k <= n
    ensures 2 * |Rows(k, n)| == k * (2 * n - k - 1)
  {
    if k > 0 {
      RowsCount(k - 1, n);
      RowMembers(k - 1, n);
      assert |Row(k - 1, n)| == n - k;
      calc {
        2 * |Rows(k, n)|;
        2 * |Rows(k - 1, n)| + 2 * (n - k);
        (k - 1) * (2 * n - k) + 2 * (n - k);
        { assert (k - 1) * (2 * n - k) == k * (2 * n - k) - (2 * n - k); }
        k * (2 * n - k) - k;
        { assert k * (2 * n - k) - k == k * (2 * n - k - 1); }
        k * (2 * n - k - 1);
      }
    }
  }

  /** Adding row k to the listing adds n - 1 - k pairs, one for each later index. */
  lemma RowStep(n: nat, k: nat)
    requires k < n
    ensures |Rows(k + 1, n)| == |Rows(k, n)| + (n - 1 - k)
  {
    RowMembers(k, n);
  }

  /** Earlier row blocks are prefixes of later ones. */
  lemma {:induction false} RowsPrefix(k: nat, k': nat, n: nat)
    requires k <= k'
    ensures Rows(k, n) <= Rows(k', n)
    decreases k' - k
  {
    if k < k' {
      RowsPrefix(k, k' - 1, n);
      assert Rows(k', n) == Rows(k' - 1, n) + Row(k' - 1, n);
    }
  }

  /** The sweep's visiting order: exactly the pairs i < j < n, each once, in
      strictly increasing lexicographic order, n(n-1)/2 of them. */
  lemma IndexPairsCharacterization(n: nat)
    ensures forall i: nat, j: nat :: (i, j) in IndexPairs(n) <==> i < j < n
    ensures forall a, b :: 0 <= a < b < |IndexPairs(n)| ==> LexLess(IndexPairs(n)[a], IndexPairs(n)[b])
    ensures forall a, b :: 0 <= a < b < |IndexPairs(n)| ==> IndexPairs(n)[a] != IndexPairs(n)[b]
    ensures |IndexPairs(n)| == n * (n - 1) / 2
  {
    RowsMembers(n, n);
    RowsSorted(n, n);
    RowsCount(n, n);
  }

  /** Row k starts right after rows 0 .. k-1 in the full listing. */
  lemma IndexPairsAt(n: nat, k: nat, i: nat)
    requires k + 1 + i < n
    ensures |Rows(k, n)| + i < |IndexPairs(n)|
    ensures IndexPairs(n)[|Rows(k, n)| + i] == (k, k + 1 + i)
  {
    RowsPrefix(k + 1, n, n);
    RowMembers(k, n);
    var front, row := Rows(k, n), Row(k, n);
    assert Rows(k + 1, n) == front + row;
    assert (front + row)[|front| + i] == row[i];
  }

  /** Every listed pair indexes into a sequence of length n. */
  lemma IndexPairsInRange(n: nat)
    ensures forall m :: 0 <= m < |IndexPairs(n)| ==> IndexPairs(n)[m].0 < IndexPairs(n)[m].1 < n
  {
    RowsMembers(n, n);
    forall m | 0 <= m < |IndexPairs(n)|
      ensures IndexPairs(n)[m].0 < IndexPairs(n)[m].1 < n
    {
      assert IndexPairs(n)[m] in IndexPairs(n);
    }
  }

  /** The element pairs (s[i], s[j]) for the index pairs of `s`, in the sweep's order. */
  function PairsOf<T>(s: seq<T>): seq<(T, T)> {
    var ps := IndexPairs(|s|);
    IndexPairsInRange(|s|);
    seq(|ps|, m requires 0 <= m < |ps| => (s[ps[m].0], s[ps[m].1]))
  }

  /** The pair the sweep visits at step i of row k. */
  lemma PairsOfAt<T>(s: seq<T>, k: nat, i: nat)
    requires k + 1 + i < |s|
    ensures |Rows(k, |s|)| + i < |PairsOf(s)|
    ensures PairsOf(s)[|Rows(k, |s|)| + i] == (s[k], s[k + 1 + i])
  {
    IndexPairsAt(|s|, k, i);
  }
}
