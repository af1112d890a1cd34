/**
 Audit paths (section 2.1.3.1 of RFC 9162) and the inclusion verifier that walks from a leaf to the
 root by shifting two indices (section 2.1.3.2).  The node hash is still a parameter.
 */
module Inclusion {
  import opened Wrappers
  import opened TreeHash

  /** The audit path of leaf i, by the recursive definition. */
  function AuditPath<D>(node: NodeHash<D>, ls: seq<D>, i: nat): (path: seq<D>)
    requires i < |ls|
    decreases |ls|
  {
    if |ls| == 1 then []
    else
      var k := SplitPoint(|ls|);
      if i < k then AuditPath(node, ls[..k], i) + [Root(node, ls[k..])]
      else AuditPath(node, ls[k..], i - k) + [Root(node, ls[..k])]
  }

  // ---------- the verifier ----------

  function Shift(n: int): int {
    n / 2
  }

  /**
   The value that the verifier reaches from r, at index fn on a level whose last index is sn: an odd
   index has its sibling on the left; the last node of a level, if even, is carried up unchanged.
   */
  function Climb<D>(node: NodeHash<D>, fn: int, sn: int, r: D, path: seq<D>): Option<D>
    decreases |path|, if fn < 0 then -fn else fn
  {
    if sn == 0 then if path == [] then Some(r) else None
    else if path == [] then None
    else if fn % 2 == 1 then Climb(node, Shift(fn), Shift(sn), node(path[0], r), path[1..])
    else if fn != sn then Climb(node, Shift(fn), Shift(sn), node(r, path[0]), path[1..])
    else Climb(node, Shift(fn), Shift(sn), r, path)
  }

  predicate Accepts<D(==)>(node: NodeHash<D>, lf: D, index: int, size: int, path: seq<D>, root: D) {
    index < size && Climb(node, index, size - 1, lf, path) == Some(root)
  }

  /** The shifting loop, with its inner loop that skips the levels where the node has no sibling. */
  method VerifyInclusion<D(==)>(node: NodeHash<D>, lf: D, index: int, size: int, path: seq<D>, root: D)
    returns (ok: bool)
    ensures ok == Accepts(node, lf, index, size, path, root)
  {
    if index >= size {
      return false;
    }
    var fn, sn, r := index, size - 1, lf;
    for i := 0 to |path|
      invariant Climb(node, index, size - 1, lf, path) == Climb(node, fn, sn, r, path[i..])
    {
      var p := path[i];
      assert path[i..][1..] == path[i + 1..];
      if sn == 0 {
        return false;
      }
      if fn % 2 == 1 || fn == sn {
        ghost var below := r;
        r := node(p, r);
        if fn % 2 == 0 {
          while fn % 2 == 0 && fn != 0
            invariant fn == sn && sn != 0
            invariant Climb(node, index, size - 1, lf, path) == Climb(node, fn, sn, below, path[i..])
            decreases if fn < 0 then -fn else fn
          {
            fn, sn := Shift(fn), Shift(sn);
          }
        }
      } else {
        r := node(r, p);
      }
      fn, sn := Shift(fn), Shift(sn);
    }
    return sn == 0 && r == root;
  }

  // ---------- audit paths, level by level ----------

  function Sibling<D>(ls: seq<D>, i: nat): seq<D>
    requires i < |ls|
  {
    if i % 2 == 1 then [ls[i - 1]] else if i + 1 < |ls| then [ls[i + 1]] else []
  }

  lemma {:induction false} SiblingInHalf<D>(ls: seq<D>, i: nat, k: nat)
    requires i < |ls| && k <= |ls| && k % 2 == 0
    ensures i < k ==> Sibling(ls[..k], i) == Sibling(ls, i)
    ensures k <= i ==> Sibling(ls[k..], i - k) == Sibling(ls, i) && (i - k) / 2 == i / 2 - k / 2
  {
  }

  /** The level above splits where this one does. */
  lemma {:induction false} PairSplitsAtHalf<D>(node: NodeHash<D>, ls: seq<D>, k: nat)
    requires |ls| > 2 && k == SplitPoint(|ls|)
    ensures k % 2 == 0 && k / 2 == SplitPoint(|Pair(node, ls)|)
    ensures Pair(node, ls)[..k / 2] == Pair(node, ls[..k])
    ensures Pair(node, ls)[k / 2..] == Pair(node, ls[k..])
    ensures Root(node, Pair(node, ls[..k])) == Root(node, ls[..k])
    ensures Root(node, Pair(node, ls[k..])) == Root(node, ls[k..])
  {
    PairSplits(node, ls, k);
    PairKeepsRoot(node, ls[..k]);
    PairKeepsRoot(node, ls[k..]);
  }

  /** The audit path in the level above, by the halves of this level. */
  lemma {:induction false} AuditPathAbove<D>(node: NodeHash<D>, ls: seq<D>, i: nat, k: nat)
    requires |ls| > 2 && k == SplitPoint(|ls|) && i < |ls|
    ensures k % 2 == 0
    ensures AuditPath(node, Pair(node, ls), i / 2)
            == if i < k then AuditPath(node, Pair(node, ls[..k]), i / 2) + [Root(node, ls[k..])]
               else AuditPath(node, Pair(node, ls[k..]), (i - k) / 2) + [Root(node, ls[..k])]
  {
    PairSplitsAtHalf(node, ls, k);
    SiblingInHalf(ls, i, k);
  }

  /** An audit path starts with the sibling, if there is one, and goes on with the path in the level above. */
  lemma {:induction false} AuditPathByLevel<D>(node: NodeHash<D>, ls: seq<D>, i: nat)
    requires i < |ls| && |ls| > 1
    ensures AuditPath(node, ls, i) == Sibling(ls, i) + AuditPath(node, Pair(node, ls), i / 2)
    decreases |ls|
  {
    if |ls| == 2 {
      assert ls[..1] == [ls[0]] && ls[1..] == [ls[1]];
    } else {
      var k := SplitPoint(|ls|);
      AuditPathAbove(node, ls, i, k);
      SiblingInHalf(ls, i, k);
      var half, j := if i < k then ls[..k] else ls[k..], if i < k then i else i - k;
      if |half| > 1 {
        AuditPathByLevel(node, half, j);
      }
      AuditPathOfHalf(node, ls, i, k, half, j, AuditPath(node, Pair(node, half), j / 2));
    }
  }

  lemma {:induction false} AuditPathOfHalf<D>(node: NodeHash<D>, ls: seq<D>, i: nat, k: nat, half: seq<D>, j: nat,
                                              above: seq<D>)
    requires |ls| > 2 && k == SplitPoint(|ls|) && i < |ls|
    requires half == (if i < k then ls[..k] else ls[k..]) && j == if i < k then i else i - k
    requires AuditPath(node, half, j) == Sibling(ls, i) + above
    ensures AuditPath(node, ls, i)
            == Sibling(ls, i) + (above + [if i < k then Root(node, ls[k..]) else Root(node, ls[..k])])
  {
  }

  lemma {:induction false} PathNonEmpty<D>(node: NodeHash<D>, ls: seq<D>, i: nat)
    requires i < |ls|
    ensures AuditPath(node, ls, i) == [] <==> |ls| == 1
  {
  }

  /** One step of the climb, past the sibling if there is one, reaches the parent. */
  lemma {:induction false} ClimbStep<D>(node: NodeHash<D>, ls: seq<D>, i: nat, rest: seq<D>)
    requires i < |ls| && |ls| > 1
    requires Sibling(ls, i) == [] ==> rest != []
    ensures Climb(node, i, |ls| - 1, ls[i], Sibling(ls, i) + rest)
            == Climb(node, i / 2, (|ls| - 1) / 2, Pair(node, ls)[i / 2], rest)
  {
    PairAt(node, ls, i / 2);
    var path := Sibling(ls, i) + rest;
    if Sibling(ls, i) == [] {
      assert path == rest;
    } else {
      assert path[1..] == rest;
    }
  }

  /** Completeness: the verifier accepts the audit path of every leaf. */
  lemma {:induction false} ClimbComplete<D>(node: NodeHash<D>, ls: seq<D>, i: nat, path: seq<D>)
    requires i < |ls| && path == AuditPath(node, ls, i)
    ensures Climb(node, i, |ls| - 1, ls[i], path) == Some(Root(node, ls))
    decreases |ls|
  {
    if |ls| > 1 {
      var up := Pair(node, ls);
      var rest := AuditPath(node, up, i / 2);
      AuditPathByLevel(node, ls, i);
      PathNonEmpty(node, ls, i);
      ClimbStep(node, ls, i, rest);
      PairKeepsRoot(node, ls);
      ClimbComplete(node, up, i / 2, rest);
    }
  }

  // ---------- soundness ----------

  /** The pairs that the tree hash of ls combines. */
  ghost function TreePairs<D(!new)>(node: NodeHash<D>, ls: seq<D>): set<(D, D)>
    requires |ls| > 0
    decreases |ls|
  {
    if |ls| == 1 then {}
    else
      var k := SplitPoint(|ls|);
      {(Root(node, ls[..k]), Root(node, ls[k..]))} + TreePairs(node, ls[..k]) + TreePairs(node, ls[k..])
  }

  /** The pairs that the climb combines. */
  ghost function ClimbPairs<D(!new)>(node: NodeHash<D>, fn: int, sn: int, r: D, path: seq<D>): set<(D, D)>
    decreases |path|, if fn < 0 then -fn else fn
  {
    if sn == 0 || path == [] then {}
    else if fn % 2 == 1 then {(path[0], r)} + ClimbPairs(node, Shift(fn), Shift(sn), node(path[0], r), path[1..])
    else if fn != sn then {(r, path[0])} + ClimbPairs(node, Shift(fn), Shift(sn), node(r, path[0]), path[1..])
    else ClimbPairs(node, Shift(fn), Shift(sn), r, path)
  }

  /** The pairs of a climb by its first step. */
  lemma {:induction false} ClimbPairsByStep<D(!new)>(node: NodeHash<D>, i: nat, n: nat, r: D, path: seq<D>)
    requires i < n && n > 1 && path != []
    ensures ClimbPairs(node, i, n - 1, r, path) ==
            if i % 2 == 1 then {(path[0], r)} + ClimbPairs(node, i / 2, (n + 1) / 2 - 1, node(path[0], r), path[1..])
            else if i + 1 < n then {(r, path[0])} + ClimbPairs(node, i / 2, (n + 1) / 2 - 1, node(r, path[0]), path[1..])
            else ClimbPairs(node, i / 2, (n + 1) / 2 - 1, r, path)
  {
    assert (n + 1) / 2 - 1 == Shift(n - 1);
  }

  /** No pair of the climb collides with a different pair of the tree. */
  ghost predicate Binding<D(!new)>(node: NodeHash<D>, tree: set<(D, D)>, climb: set<(D, D)>) {
    forall t, c {:trigger t in tree, c in climb} ::
      t in tree && c in climb && node(t.0, t.1) == node(c.0, c.1) ==> t == c
  }

  ghost predicate LevelPairsIn<D(!new)>(ls: seq<D>, s: set<(D, D)>) {
    forall i {:trigger ls[i - 1]} :: 0 < i < |ls| && i % 2 == 1 ==> (ls[i - 1], ls[i]) in s
  }

  lemma {:induction false} LevelPairsJoin<D(!new)>(ls: seq<D>, k: nat, s: set<(D, D)>)
    requires k <= |ls| && k % 2 == 0
    requires LevelPairsIn(ls[..k], s) && LevelPairsIn(ls[k..], s)
    ensures LevelPairsIn(ls, s)
  {
    forall i | 0 < i < |ls| && i % 2 == 1
      ensures (ls[i - 1], ls[i]) in s
    {
      if i < k {
        assert ls[..k][i - 1] == ls[i - 1];
      } else {
        var j := i - k;
        assert j % 2 == 1 && ls[k..][j - 1] == ls[i - 1];
      }
    }
  }

  lemma {:induction false} TreePairsByLevel<D(!new)>(node: NodeHash<D>, ls: seq<D>, s: set<(D, D)>)
    requires |ls| > 0 && TreePairs(node, ls) <= s
    ensures TreePairs(node, Pair(node, ls)) <= s
    ensures LevelPairsIn(ls, s)
    decreases |ls|
  {
    if |ls| == 2 {
      assert ls[..1] == [ls[0]] && ls[1..] == [ls[1]];
    } else if |ls| > 2 {
      var k := SplitPoint(|ls|);
      PairSplitsAtHalf(node, ls, k);
      TreePairsByLevel(node, ls[..k], s);
      TreePairsByLevel(node, ls[k..], s);
      LevelPairsJoin(ls, k, s);
    }
  }

  /** Where the first step of a climb on a level of n nodes leads, and the path that is left. */
  ghost function Above<D>(node: NodeHash<D>, i: nat, n: nat, r: D, path: seq<D>): (D, seq<D>)
    requires path != []
  {
    if i % 2 == 1 then (node(path[0], r), path[1..])
    else if i + 1 < n then (node(r, path[0]), path[1..])
    else (r, path)
  }

  lemma {:induction false} ClimbUnfold<D(!new)>(node: NodeHash<D>, i: nat, n: nat, m: nat, r: D, path: seq<D>)
    requires i < n && n > 1 && m == (n + 1) / 2 && path != []
    ensures var (v, rest) := Above(node, i, n, r, path);
      && Climb(node, i, n - 1, r, path) == Climb(node, i / 2, m - 1, v, rest)
      && ClimbPairs(node, i / 2, m - 1, v, rest) <= ClimbPairs(node, i, n - 1, r, path)
    ensures i % 2 == 1 ==> (path[0], r) in ClimbPairs(node, i, n - 1, r, path)
    ensures i % 2 == 0 && i + 1 < n ==> (r, path[0]) in ClimbPairs(node, i, n - 1, r, path)
  {
    assert m - 1 == Shift(n - 1);
  }

  /** The climb along an audit path combines pairs of the tree only. */
  lemma {:induction false} HonestPairs<D(!new)>(node: NodeHash<D>, ls: seq<D>, i: nat, path: seq<D>, tree: set<(D, D)>)
    requires i < |ls| && path == AuditPath(node, ls, i) && TreePairs(node, ls) <= tree
    ensures ClimbPairs(node, i, |ls| - 1, ls[i], path) <= tree
    decreases |ls|
  {
    if |ls| > 1 {
      var up, rest := HonestUp(node, ls, i, path, tree);
      HonestPairs(node, up, i / 2, rest, tree);
      HonestStep(node, ls, i, path, up, rest, tree);
    }
  }

  lemma {:induction false} HonestUp<D(!new)>(node: NodeHash<D>, ls: seq<D>, i: nat, path: seq<D>,
                                             tree: set<(D, D)>) returns (up: seq<D>, rest: seq<D>)
    requires i < |ls| && |ls| > 1 && path == AuditPath(node, ls, i) && TreePairs(node, ls) <= tree
    ensures up == Pair(node, ls) && rest == AuditPath(node, up, i / 2)
    ensures path == Sibling(ls, i) + rest && path != []
    ensures TreePairs(node, up) <= tree && LevelPairsIn(ls, tree)
  {
    up := Pair(node, ls);
    rest := AuditPath(node, up, i / 2);
    AuditPathByLevel(node, ls, i);
    PathNonEmpty(node, ls, i);
    TreePairsByLevel(node, ls, tree);
  }

  lemma {:induction false} HonestStep<D(!new)>(node: NodeHash<D>, ls: seq<D>, i: nat, path: seq<D>, up: seq<D>,
                                               rest: seq<D>, tree: set<(D, D)>)
    requires i < |ls| && |ls| > 1 && path == Sibling(ls, i) + rest && path != [] && LevelPairsIn(ls, tree)
    requires up == Pair(node, ls) && ClimbPairs(node, i / 2, |up| - 1, up[i / 2], rest) <= tree
    ensures ClimbPairs(node, i, |ls| - 1, ls[i], path) <= tree
  {
    ClimbPairsByStep(node, i, |ls|, ls[i], path);
    PairAt(node, ls, i / 2);
    var j := if i % 2 == 1 then i else i + 1;
    if j < |ls| {
      assert path[0] == Sibling(ls, i)[0] && path[1..] == rest;
      assert (ls[j - 1], ls[j]) in tree;
    } else {
      assert path == rest;
    }
  }

  /** If the step reached the parent of leaf i along its path, and hashed a pair of the tree, it started at leaf i. */
  lemma {:induction false} ClimbSoundStep<D(!new)>(node: NodeHash<D>, ls: seq<D>, i: nat, r: D, path: seq<D>,
                                                   tree: set<(D, D)>, climb: set<(D, D)>)
    requires i < |ls| && |ls| > 1 && path != []
    requires Binding(node, tree, climb) && LevelPairsIn(ls, tree)
    requires i % 2 == 1 ==> (path[0], r) in climb
    requires i % 2 == 0 && i + 1 < |ls| ==> (r, path[0]) in climb
    requires Above(node, i, |ls|, r, path).0 == Pair(node, ls)[i / 2]
    ensures r == ls[i] && path == Sibling(ls, i) + Above(node, i, |ls|, r, path).1
  {
    PairAt(node, ls, i / 2);
    var j := if i % 2 == 1 then i else i + 1;
    if j < |ls| {
      assert (ls[j - 1], ls[j]) in tree;
    }
  }

  /** One step of the climb, with the tree shrunk by one level. */
  lemma {:induction false} LevelUp<D(!new)>(node: NodeHash<D>, ls: seq<D>, i: nat, r: D, path: seq<D>,
                                            tree: set<(D, D)>, climb: set<(D, D)>, up: seq<D>, v: D, rest: seq<D>)
    requires i < |ls| && |ls| > 1 && path != []
    requires TreePairs(node, ls) <= tree && ClimbPairs(node, i, |ls| - 1, r, path) <= climb
    requires up == Pair(node, ls) && (v, rest) == Above(node, i, |ls|, r, path)
    ensures TreePairs(node, up) <= tree && LevelPairsIn(ls, tree)
    ensures ClimbPairs(node, i / 2, |up| - 1, v, rest) <= climb
    ensures Climb(node, i / 2, |up| - 1, v, rest) == Climb(node, i, |ls| - 1, r, path) && Root(node, up) == Root(node, ls)
    ensures i % 2 == 1 ==> (path[0], r) in climb
    ensures i % 2 == 0 && i + 1 < |ls| ==> (r, path[0]) in climb
  {
    PairKeepsRoot(node, ls);
    TreePairsByLevel(node, ls, tree);
    ClimbUnfold(node, i, |ls|, |up|, r, path);
  }

  /** Soundness: only the leaf and its audit path reach the root. */
  lemma {:induction false} ClimbSound<D(!new)>(node: NodeHash<D>, ls: seq<D>, i: nat, r: D, path: seq<D>,
                                               tree: set<(D, D)>, climb: set<(D, D)>)
    requires i < |ls| && TreePairs(node, ls) <= tree && ClimbPairs(node, i, |ls| - 1, r, path) <= climb
    requires Binding(node, tree, climb)
    requires Climb(node, i, |ls| - 1, r, path) == Some(Root(node, ls))
    ensures r == ls[i] && path == AuditPath(node, ls, i)
    decreases |ls|
  {
    if |ls| > 1 {
      var up := Pair(node, ls);
      var (v, rest) := Above(node, i, |ls|, r, path);
      LevelUp(node, ls, i, r, path, tree, climb, up, v, rest);
      ClimbSound(node, up, i / 2, v, rest, tree, climb);
      ClimbSoundStep(node, ls, i, r, path, tree, climb);
      AuditPathByLevel(node, ls, i);
    }
  }

  /** The verifier accepts exactly the leaf at the index with its audit path. */
  lemma {:induction false} AcceptsExactly<D(!new)>(node: NodeHash<D>, ls: seq<D>, i: nat, lf: D, path: seq<D>)
    requires i < |ls|
    requires Binding(node, TreePairs(node, ls), ClimbPairs(node, i, |ls| - 1, lf, path))
    ensures Accepts(node, lf, i, |ls|, path, Root(node, ls)) <==> lf == ls[i] && path == AuditPath(node, ls, i)
  {
    ClimbComplete(node, ls, i, AuditPath(node, ls, i));
    if Accepts(node, lf, i, |ls|, path, Root(node, ls)) {
      ClimbSound(node, ls, i, lf, path, TreePairs(node, ls), ClimbPairs(node, i, |ls| - 1, lf, path));
    }
  }

  lemma {:induction false} AcceptedClimbs<D>(node: NodeHash<D>, lf: D, index: int, size: int, path: seq<D>, root: D)
    requires Accepts(node, lf, index, size, path, root)
    ensures Climb(node, index, size - 1, lf, path) == Some(root)
  {
  }

  lemma {:induction false} AuditPathAccepted<D(!new)>(node: NodeHash<D>, ls: seq<D>, i: nat)
    requires i < |ls|
    ensures Accepts(node, ls[i], i, |ls|, AuditPath(node, ls, i), Root(node, ls))
  {
    ClimbComplete(node, ls, i, AuditPath(node, ls, i));
  }

  lemma {:induction false} ClimbReachesRootExactly<D(!new)>(node: NodeHash<D>, ls: seq<D>, i: nat, r: D, path: seq<D>)
    requires i < |ls| && Binding(node, TreePairs(node, ls), ClimbPairs(node, i, |ls| - 1, r, path))
    ensures Climb(node, i, |ls| - 1, r, path) == Some(Root(node, ls)) <==> r == ls[i] && path == AuditPath(node, ls, i)
  {
    AcceptsExactly(node, ls, i, r, path);
  }

  // ---------- a proof that states its own index and size ----------

  /** The hashes of the subtrees of the tree over ls. */
  ghost function TreeNodes<D(!new)>(node: NodeHash<D>, ls: seq<D>): set<D>
    requires |ls| > 0
    decreases |ls|
  {
    if |ls| == 1 then {ls[0]}
    else
      var k := SplitPoint(|ls|);
      {Root(node, ls)} + TreeNodes(node, ls[..k]) + TreeNodes(node, ls[k..])
  }

  lemma {:induction false} TreeNodeKinds<D(!new)>(node: NodeHash<D>, ls: seq<D>, v: D)
    requires |ls| > 0 && v in TreeNodes(node, ls)
    ensures v in ls || exists t :: t in TreePairs(node, ls) && v == node(t.0, t.1)
                                   && t.0 in TreeNodes(node, ls) && t.1 in TreeNodes(node, ls)
    decreases |ls|
  {
    if |ls| > 1 {
      var k := SplitPoint(|ls|);
      RootInTreeNodes(node, ls[..k]);
      RootInTreeNodes(node, ls[k..]);
      if v == Root(node, ls) {
        var t := (Root(node, ls[..k]), Root(node, ls[k..]));
        assert t in TreePairs(node, ls);
      } else if v in TreeNodes(node, ls[..k]) {
        TreeNodeKinds(node, ls[..k], v);
      } else {
        TreeNodeKinds(node, ls[k..], v);
      }
    }
  }

  lemma {:induction false} RootInTreeNodes<D(!new)>(node: NodeHash<D>, ls: seq<D>)
    requires |ls| > 0
    ensures Root(node, ls) in TreeNodes(node, ls)
  {
  }

  /** No pair that the climb combines hashes to a leaf. */
  ghost predicate AvoidsLeaves<D(!new)>(node: NodeHash<D>, ls: seq<D>, climb: set<(D, D)>) {
    forall c :: c in climb ==> node(c.0, c.1) !in ls
  }

  /** Whatever index and size a proof states, a climb that ends inside the tree started inside it. */
  lemma {:induction false} ClimbStartsInTree<D(!new)>(node: NodeHash<D>, ls: seq<D>, fn: int, sn: int, r: D, path: seq<D>,
                                                      climb: set<(D, D)>)
    requires |ls| > 0 && ClimbPairs(node, fn, sn, r, path) <= climb
    requires Binding(node, TreePairs(node, ls), climb) && AvoidsLeaves(node, ls, climb)
    requires Climb(node, fn, sn, r, path).Some? && Climb(node, fn, sn, r, path).value in TreeNodes(node, ls)
    ensures r in TreeNodes(node, ls)
    decreases |path|, if fn < 0 then -fn else fn
  {
    if sn != 0 {
      if fn % 2 == 0 && fn == sn {
        ClimbStartsInTree(node, ls, Shift(fn), Shift(sn), r, path, climb);
      } else {
        var c := if fn % 2 == 1 then (path[0], r) else (r, path[0]);
        assert c in climb;
        var v := node(c.0, c.1);
        ClimbStartsInTree(node, ls, Shift(fn), Shift(sn), v, path[1..], climb);
        TreeNodeKinds(node, ls, v);
      }
    }
  }

  /** The pair hashed last. */
  ghost function TopPair<D>(node: NodeHash<D>, ls: seq<D>): (D, D)
    requires |ls| > 1
  {
    var k := SplitPoint(|ls|);
    (Root(node, ls[..k]), Root(node, ls[k..]))
  }

  lemma {:induction false} RootKind<D(!new)>(node: NodeHash<D>, ls: seq<D>)
    requires |ls| > 0
    ensures |ls| == 1 ==> Root(node, ls) in ls
    ensures |ls| > 1 ==> TopPair(node, ls) in TreePairs(node, ls)
                         && Root(node, ls) == node(TopPair(node, ls).0, TopPair(node, ls).1)
  {
  }

  /** What the two halves inherit. */
  lemma {:induction false} HalvesInherit<D(!new)>(node: NodeHash<D>, ls: seq<D>, k: nat, pairs: set<(D, D)>)
    requires |ls| > 1 && k == SplitPoint(|ls|)
    requires TreePairs(node, ls) <= pairs && AvoidsLeaves(node, ls, pairs)
    ensures TreePairs(node, ls[..k]) <= pairs && AvoidsLeaves(node, ls[..k], pairs)
    ensures TreePairs(node, ls[k..]) <= pairs && AvoidsLeaves(node, ls[k..], pairs)
    ensures TopPair(node, ls) in pairs && Root(node, ls) == node(TopPair(node, ls).0, TopPair(node, ls).1)
  {
    assert ls == ls[..k] + ls[k..];
  }

  /** Equal roots were hashed from equal halves, or are both single leaves. */
  lemma {:induction false} EqualRootsSplitAlike<D(!new)>(node: NodeHash<D>, a: seq<D>, b: seq<D>, pairs: set<(D, D)>)
    requires |a| > 0 && |b| > 0 && TreePairs(node, a) <= pairs && TreePairs(node, b) <= pairs
    requires Binding(node, pairs, pairs) && AvoidsLeaves(node, a, pairs) && AvoidsLeaves(node, b, pairs)
    requires Root(node, a) == Root(node, b)
    ensures |a| > 1 <==> |b| > 1
    ensures |a| > 1 ==> Root(node, a[..SplitPoint(|a|)]) == Root(node, b[..SplitPoint(|b|)])
    ensures |a| > 1 ==> Root(node, a[SplitPoint(|a|)..]) == Root(node, b[SplitPoint(|b|)..])
  {
    RootKind(node, a);
    RootKind(node, b);
    if |a| > 1 {
      assert TopPair(node, a) == TopPair(node, b);
    }
  }

  /** When no inner node hashes like a leaf, equal roots mean equal leaf lists, whatever their lengths. */
  lemma {:induction false} RootBindsLeaves<D(!new)>(node: NodeHash<D>, a: seq<D>, b: seq<D>, pairs: set<(D, D)>)
    requires |a| > 0 && |b| > 0 && TreePairs(node, a) <= pairs && TreePairs(node, b) <= pairs
    requires Binding(node, pairs, pairs) && AvoidsLeaves(node, a, pairs) && AvoidsLeaves(node, b, pairs)
    requires Root(node, a) == Root(node, b)
    ensures a == b
    decreases |a|
  {
    EqualRootsSplitAlike(node, a, b, pairs);
    if |a| > 1 {
      var i, j := SplitPoint(|a|), SplitPoint(|b|);
      HalvesInherit(node, a, i, pairs);
      HalvesInherit(node, b, j, pairs);
      RootBindsLeaves(node, a[..i], b[..j], pairs);
      RootBindsLeaves(node, a[i..], b[j..], pairs);
      assert a == a[..i] + a[i..] && b == b[..j] + b[j..];
    }
  }
}
