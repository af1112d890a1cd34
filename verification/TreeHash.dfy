/**
 The shape shared by the repository's Merkle trees: the recursive hash that splits at the largest
 power of two (section 2.1.1 of RFC 9162), the level-by-level pairing that a queue builder performs,
 and the grouping of a leaf list into aligned segments.  The node hash is a parameter, so nothing
 here depends on how two children are combined.
 */
module TreeHash {

  predicate IsPowerOfTwo(k: nat) {
    k == 1 || (k > 0 && k % 2 == 0 && IsPowerOfTwo(k / 2))
  }

  /** The largest power of two strictly below n. */
  function SplitPoint(n: nat): (k: nat)
    requires n >= 2
    ensures 0 < k < n <= 2 * k
  {
    if n == 2 then 1 else 2 * SplitPoint((n + 1) / 2)
  }

  lemma {:induction false} SplitPointIsPower(n: nat)
    requires n >= 2
    ensures IsPowerOfTwo(SplitPoint(n))
  {
    if n > 2 {
      SplitPointIsPower((n + 1) / 2);
    }
  }

  lemma {:induction false} PowersApart(j: nat, k: nat)
    requires IsPowerOfTwo(j) && IsPowerOfTwo(k) && j < k
    ensures 2 * j <= k
  {
    if j > 1 {
      PowersApart(j / 2, k / 2);
    }
  }

  lemma {:induction false} SplitPointUnique(k: nat, n: nat)
    requires IsPowerOfTwo(k) && k < n <= 2 * k
    ensures k == SplitPoint(n)
  {
    var j := SplitPoint(n);
    SplitPointIsPower(n);
    if j < k {
      PowersApart(j, k);
    } else if k < j {
      PowersApart(k, j);
    }
  }

  /** The doubling loop that finds where to split. */
  method FindSplit(n: nat) returns (k: nat)
    requires n >= 2
    ensures k == SplitPoint(n)
  {
    k := 1;
    while k * 2 < n
      invariant IsPowerOfTwo(k) && k < n
    {
      k := k * 2;
    }
    SplitPointUnique(k, n);
  }

  type NodeHash<!D> = (D, D) -> D

  /** The tree hash of a non-empty list of leaf hashes. */
  function Root<D>(node: NodeHash<D>, ls: seq<D>): D
    requires |ls| > 0
    decreases |ls|
  {
    if |ls| == 1 then ls[0]
    else
      var k := SplitPoint(|ls|);
      node(Root(node, ls[..k]), Root(node, ls[k..]))
  }

  /** The recursive procedure with its splitting loop. */
  method ComputeRoot<D>(node: NodeHash<D>, ls: seq<D>) returns (r: D)
    requires |ls| > 0
    ensures r == Root(node, ls)
    decreases |ls|
  {
    if |ls| == 1 {
      return ls[0];
    }
    var k := FindSplit(|ls|);
    var left := ComputeRoot(node, ls[..k]);
    var right := ComputeRoot(node, ls[k..]);
    r := node(left, right);
  }

  // ---------- one level: hash neighbours, carry an odd last node ----------

  function Pair<D>(node: NodeHash<D>, q: seq<D>): (r: seq<D>)
    ensures |r| == (|q| + 1) / 2
    decreases |q|
  {
    if |q| <= 1 then q
    else [node(q[0], q[1])] + Pair(node, q[2..])
  }

  lemma {:induction false} PairAt<D>(node: NodeHash<D>, q: seq<D>, j: nat)
    requires 2 * j < |q|
    ensures Pair(node, q)[j] == if 2 * j + 1 < |q| then node(q[2 * j], q[2 * j + 1]) else q[2 * j]
    decreases j
  {
    if j > 0 {
      PairAt(node, q[2..], j - 1);
    }
  }

  lemma {:induction false} PairSplits<D>(node: NodeHash<D>, q: seq<D>, k: nat)
    requires k <= |q| && k % 2 == 0
    ensures Pair(node, q) == Pair(node, q[..k]) + Pair(node, q[k..])
    decreases k
  {
    if k == 0 {
      assert q[k..] == q && q[..k] == [];
      assert [] + q == q;
    } else {
      var rest := q[2..];
      PairSplits(node, rest, k - 2);
      assert q[..k][2..] == rest[..k - 2];
      assert q[k..] == rest[k - 2..];
      calc {
        Pair(node, q);
        [node(q[0], q[1])] + Pair(node, rest);
        [node(q[0], q[1])] + (Pair(node, rest[..k - 2]) + Pair(node, q[k..]));
        ([node(q[0], q[1])] + Pair(node, rest[..k - 2])) + Pair(node, q[k..]);
        Pair(node, q[..k]) + Pair(node, q[k..]);
      }
    }
  }

  /** Pairing a longer prefix adds one node: a hashed pair, or the odd last element. */
  lemma {:induction false} PairNext<D>(node: NodeHash<D>, q: seq<D>, i: nat)
    requires i < |q| && i % 2 == 0
    ensures i + 1 < |q| ==> Pair(node, q[..i + 2]) == Pair(node, q[..i]) + [node(q[i], q[i + 1])]
    ensures i + 1 == |q| ==> Pair(node, q) == Pair(node, q[..i]) + [q[i]]
  {
    var p := if i + 1 < |q| then q[..i + 2] else q;
    PairSplits(node, p, i);
    var last := p[i..];
    assert p[..i] == q[..i];
    if i + 1 < |q| {
      assert last == [q[i], q[i + 1]];
      assert Pair(node, last) == [node(q[i], q[i + 1])];
    } else {
      assert last == [q[i]];
    }
  }

  /** Pairing a level leaves the root of the level unchanged. */
  lemma {:induction false} PairKeepsRoot<D>(node: NodeHash<D>, q: seq<D>)
    requires |q| > 0
    ensures Root(node, Pair(node, q)) == Root(node, q)
    decreases |q|
  {
    if |q| == 2 {
      assert Pair(node, q) == [node(q[0], q[1])];
      assert q[..1] == [q[0]] && q[1..] == [q[1]];
    } else if |q| > 2 {
      var k := SplitPoint(|q|);
      var p := Pair(node, q);
      assert k == 2 * SplitPoint(|p|);
      PairSplits(node, q, k);
      assert p[..k / 2] == Pair(node, q[..k]) && p[k / 2..] == Pair(node, q[k..]);
      PairKeepsRoot(node, q[..k]);
      PairKeepsRoot(node, q[k..]);
    }
  }

  // ---------- aligned groups ----------

  /** The roots of the consecutive groups of g leaves (the last group may be shorter). */
  function GroupRoots<D>(node: NodeHash<D>, ls: seq<D>, g: nat): (r: seq<D>)
    requires g > 0
    ensures |ls| > 0 ==> |r| > 0
    decreases |ls|
  {
    if |ls| == 0 then []
    else if |ls| <= g then [Root(node, ls)]
    else [Root(node, ls[..g])] + GroupRoots(node, ls[g..], g)
  }

  lemma {:induction false} GroupsOfOne<D>(node: NodeHash<D>, ls: seq<D>)
    ensures GroupRoots(node, ls, 1) == ls
    decreases |ls|
  {
    if |ls| > 1 {
      GroupsOfOne(node, ls[1..]);
    }
  }

  /** The roots of the first two groups, and those of the rest. */
  lemma {:induction false} FirstTwoGroups<D>(node: NodeHash<D>, ls: seq<D>, g: nat)
    requires g > 0 && |ls| > 2 * g
    ensures GroupRoots(node, ls, g)
         == [Root(node, ls[..g]), Root(node, ls[g..2 * g])] + GroupRoots(node, ls[2 * g..], g)
  {
    assert ls[g..][..g] == ls[g..2 * g] && ls[g..][g..] == ls[2 * g..];
  }

  /** Pairing the group roots doubles the groups. */
  lemma {:induction false} PairDoublesGroups<D>(node: NodeHash<D>, ls: seq<D>, g: nat)
    requires IsPowerOfTwo(g)
    ensures Pair(node, GroupRoots(node, ls, g)) == GroupRoots(node, ls, 2 * g)
    decreases |ls|
  {
    if g < |ls| <= 2 * g {
      SplitPointUnique(g, |ls|);
      assert GroupRoots(node, ls, g) == [Root(node, ls[..g]), Root(node, ls[g..])];
    } else if |ls| > 2 * g {
      var front, back := ls[..2 * g], ls[2 * g..];
      SplitPointUnique(g, |front|);
      assert front[..g] == ls[..g] && front[g..] == ls[g..2 * g];
      FirstTwoGroups(node, ls, g);
      assert GroupRoots(node, ls, g)[2..] == GroupRoots(node, back, g);
      PairDoublesGroups(node, back, g);
    }
  }

  /** Segmentation is transparent: hashing aligned groups first does not change the root. */
  lemma {:induction false} GroupingKeepsRoot<D>(node: NodeHash<D>, ls: seq<D>, g: nat)
    requires |ls| > 0 && IsPowerOfTwo(g)
    ensures |GroupRoots(node, ls, g)| > 0
    ensures Root(node, GroupRoots(node, ls, g)) == Root(node, ls)
    decreases g
  {
    if g == 1 {
      GroupsOfOne(node, ls);
    } else {
      GroupingKeepsRoot(node, ls, g / 2);
      PairDoublesGroups(node, ls, g / 2);
      PairKeepsRoot(node, GroupRoots(node, ls, g / 2));
    }
  }

  /** The smallest trees, written out. */
  lemma {:induction false} SmallRoots<D>(node: NodeHash<D>, a: D, b: D, c: D)
    ensures Root(node, [a]) == a && Root(node, [a, b]) == node(a, b) && Root(node, [a, b, c]) == node(node(a, b), c)
  {
    assert SplitPoint(3) == 2 * SplitPoint(2);
    assert [a, b, c][..2] == [a, b] && [a, b, c][2..] == [c];
    assert [a, b][..1] == [a] && [a, b][1..] == [b];
  }
}
