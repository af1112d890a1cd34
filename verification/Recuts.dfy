/**
 Which leaves the inclusion verifier accepts when their width is not checked: the preimage of a node says
 where it begins but not where its left child ends, so bytes may move between a leaf and its sibling.
 */
module Recuts {
  import opened Wrappers
  import opened Bytes
  import opened TreeHash
  import opened Inclusion
  import opened ScanCheck

  predicate IsSuffix(a: Bytes, b: Bytes) {
    |a| <= |b| && b[|b| - |a|..] == a
  }

  /**
   The one path, if any, with which lf is accepted at index i.  On the lowest level where the node has a
   sibling, lf must be a part of the two hashes joined: their end for a right child, their start for a left one.
   */
  function RecutPath(h: Hash, ls: seq<Bytes>, i: nat, lf: Bytes): (path: Option<seq<Bytes>>)
    requires i < |ls|
    ensures |ls| > 1 ==> path != Some([])
    decreases |ls|
  {
    if |ls| == 1 then if lf == ls[0] then Some([]) else None
    else
      var up := Pair(Node(h), ls);
      if i % 2 == 1 then
        var joined := ls[i - 1] + ls[i];
        if IsSuffix(lf, joined) then Some([joined[..|joined| - |lf|]] + AuditPath(Node(h), up, i / 2)) else None
      else if i + 1 < |ls| then
        var joined := ls[i] + ls[i + 1];
        if lf <= joined then Some([joined[|lf|..]] + AuditPath(Node(h), up, i / 2)) else None
      else RecutPath(h, up, i / 2, lf)
  }

  // ---------- one level ----------

  lemma {:induction false} PairIsWide(h: Hash, ls: seq<Bytes>)
    requires IsHash32(h) && Wide(ls)
    ensures Wide(Pair(Node(h), ls))
  {
    var up := Pair(Node(h), ls);
    forall j | 0 <= j < |up|
      ensures |up[j]| == 32
    {
      PairAt(Node(h), ls, j);
      if 2 * j + 1 < |ls| {
        NodeWide(h, ls[2 * j], ls[2 * j + 1]);
      }
    }
  }

  lemma {:induction false} JoinedOnTheRight(p: Bytes, lf: Bytes, joined: Bytes)
    ensures p + lf == joined <==> IsSuffix(lf, joined) && p == joined[..|joined| - |lf|]
  {
    if p + lf == joined {
      assert joined[|p|..] == lf && joined[..|p|] == p;
    }
    if IsSuffix(lf, joined) && p == joined[..|joined| - |lf|] {
      assert p + lf == joined;
    }
  }

  lemma {:induction false} JoinedOnTheLeft(lf: Bytes, p: Bytes, joined: Bytes)
    ensures lf + p == joined <==> lf <= joined && p == joined[|lf|..]
  {
    if lf + p == joined {
      assert joined[|lf|..] == p && joined[..|lf|] == lf;
    }
    if lf <= joined && p == joined[|lf|..] {
      assert lf + p == joined;
    }
  }

  /** Two nodes hash alike exactly when their children join to one string. */
  lemma {:induction false} NodesAlike(h: Hash, a: Bytes, b: Bytes, c: Bytes, d: Bytes, s: set<Bytes>)
    requires CollisionFreeOn(h, s) && NodePreimage(a, b) in s && NodePreimage(c, d) in s
    ensures Node(h)(a, b) == Node(h)(c, d) <==> a + b == c + d
  {
    assert ToldApart(h, NodePreimage(a, b), NodePreimage(c, d));
    assert NodePreimage(a, b) == [1] + (a + b) && NodePreimage(c, d) == [1] + (c + d);
    assert NodePreimage(a, b)[1..] == a + b && NodePreimage(c, d)[1..] == c + d;
  }

  /** What the verifier hashes, and the tree's preimages, lie in a set without collisions. */
  ghost predicate Hashed(h: Hash, tree: set<(Bytes, Bytes)>, climb: set<(Bytes, Bytes)>, s: set<Bytes>) {
    CollisionFreeOn(h, s) && PairPreimages(tree) <= s && PairPreimages(climb) <= s
  }

  /** The pairs that the tree joins, and those that the climb joins, are among the given ones. */
  ghost predicate Within(h: Hash, ls: seq<Bytes>, i: nat, lf: Bytes, path: seq<Bytes>,
                         tree: set<(Bytes, Bytes)>, climb: set<(Bytes, Bytes)>)
    requires |ls| > 0
  {
    TreePairs(Node(h), ls) <= tree && ClimbPairs(Node(h), i, |ls| - 1, lf, path) <= climb
  }

  /** From the level above a first hash the climb is exact. */
  lemma {:induction false} UpperExact(h: Hash, up: seq<Bytes>, k: nat, v: Bytes, rest: seq<Bytes>,
                                      tree: set<(Bytes, Bytes)>, climb: set<(Bytes, Bytes)>, s: set<Bytes>)
    requires IsHash32(h) && k < |up| && Wide(up) && |v| == 32
    requires Within(h, up, k, v, rest, tree, climb) && Hashed(h, tree, climb, s)
    ensures Climb(Node(h), k, |up| - 1, v, rest) == Some(Root(Node(h), up)) <==> v == up[k] && rest == AuditPath(Node(h), up, k)
  {
    BindingWithin(h, up, k, |up| - 1, v, rest, tree, climb, s);
    ClimbReachesRootExactly(Node(h), up, k, v, rest);
  }

  /** The pair that the first hash of the climb joins, and the pair that the tree joins there. */
  ghost predicate Joins(h: Hash, ls: seq<Bytes>, i: nat, lf: Bytes, path: seq<Bytes>) {
    i < |ls| && path != [] &&
    if i % 2 == 1 then path[0] + lf == ls[i - 1] + ls[i]
    else i + 1 < |ls| && lf + path[0] == ls[i] + ls[i + 1]
  }

  lemma {:induction false} InPreimages(pairs: set<(Bytes, Bytes)>, c: (Bytes, Bytes), s: set<Bytes>)
    requires c in pairs && PairPreimages(pairs) <= s
    ensures NodePreimage(c.0, c.1) in s
  {
    assert NodePreimage(c.0, c.1) in PairPreimages(pairs);
  }

  /** The first hash gives the parent of node i exactly when its input is what the tree joins there. */
  lemma {:induction false} FirstHash(h: Hash, ls: seq<Bytes>, i: nat, lf: Bytes, path: seq<Bytes>,
                                     tree: set<(Bytes, Bytes)>, climb: set<(Bytes, Bytes)>, s: set<Bytes>)
    requires i < |ls| && |ls| > 1 && path != [] && (i % 2 == 1 || i + 1 < |ls|)
    requires CollisionFreeOn(h, s) && PairPreimages(tree) <= s && PairPreimages(climb) <= s
    requires LevelPairsIn(ls, tree)
    requires i % 2 == 1 ==> (path[0], lf) in climb
    requires i % 2 == 0 && i + 1 < |ls| ==> (lf, path[0]) in climb
    ensures Above(Node(h), i, |ls|, lf, path).0 == Pair(Node(h), ls)[i / 2] <==> Joins(h, ls, i, lf, path)
  {
    PairAt(Node(h), ls, i / 2);
    var j := if i % 2 == 1 then i else i + 1;
    InPreimages(tree, (ls[j - 1], ls[j]), s);
    if i % 2 == 1 {
      InPreimages(climb, (path[0], lf), s);
      NodesAlike(h, path[0], lf, ls[i - 1], ls[i], s);
    } else {
      InPreimages(climb, (lf, path[0]), s);
      NodesAlike(h, lf, path[0], ls[i], ls[i + 1], s);
    }
  }

  lemma {:induction false} SiblingLevel(h: Hash, ls: seq<Bytes>, i: nat, lf: Bytes, path: seq<Bytes>,
                                        tree: set<(Bytes, Bytes)>, climb: set<(Bytes, Bytes)>, s: set<Bytes>)
    requires IsHash32(h) && Wide(ls) && i < |ls| && |ls| > 1 && path != [] && (i % 2 == 1 || i + 1 < |ls|)
    requires Within(h, ls, i, lf, path, tree, climb) && Hashed(h, tree, climb, s)
    ensures Climb(Node(h), i, |ls| - 1, lf, path) == Some(Root(Node(h), ls))
            <==> Joins(h, ls, i, lf, path) && path[1..] == AuditPath(Node(h), Pair(Node(h), ls), i / 2)
  {
    var up := Pair(Node(h), ls);
    var (v, rest) := Above(Node(h), i, |ls|, lf, path);
    NodeWide(h, path[0], lf);
    NodeWide(h, lf, path[0]);
    PairIsWide(h, ls);
    LevelUp(Node(h), ls, i, lf, path, tree, climb, up, v, rest);
    UpperExact(h, up, i / 2, v, rest, tree, climb, s);
    FirstHash(h, ls, i, lf, path, tree, climb, s);
  }

  lemma {:induction false} RecutByJoin(h: Hash, ls: seq<Bytes>, i: nat, lf: Bytes, path: seq<Bytes>)
    requires i < |ls| && |ls| > 1 && path != [] && (i % 2 == 1 || i + 1 < |ls|)
    ensures RecutPath(h, ls, i, lf) == Some(path)
            <==> Joins(h, ls, i, lf, path) && path[1..] == AuditPath(Node(h), Pair(Node(h), ls), i / 2)
  {
    var tail := AuditPath(Node(h), Pair(Node(h), ls), i / 2);
    assert path == [path[0]] + path[1..];
    assert forall p :: path == [p] + tail <==> path[0] == p && path[1..] == tail;
    if i % 2 == 1 {
      JoinedOnTheRight(path[0], lf, ls[i - 1] + ls[i]);
    } else {
      JoinedOnTheLeft(lf, path[0], ls[i] + ls[i + 1]);
    }
  }

  // ---------- the exact verifier ----------

  lemma {:induction false} ClimbExactly(h: Hash, ls: seq<Bytes>, i: nat, lf: Bytes, path: seq<Bytes>,
                                        tree: set<(Bytes, Bytes)>, climb: set<(Bytes, Bytes)>, s: set<Bytes>)
    requires IsHash32(h) && Wide(ls) && i < |ls| && Within(h, ls, i, lf, path, tree, climb) && Hashed(h, tree, climb, s)
    ensures Climb(Node(h), i, |ls| - 1, lf, path) == Some(Root(Node(h), ls)) <==> RecutPath(h, ls, i, lf) == Some(path)
    decreases |ls|
  {
    if |ls| > 1 && path != [] {
      if i % 2 == 1 || i + 1 < |ls| {
        SiblingLevel(h, ls, i, lf, path, tree, climb, s);
        RecutByJoin(h, ls, i, lf, path);
      } else {
        var up := Pair(Node(h), ls);
        LevelUp(Node(h), ls, i, lf, path, tree, climb, up, lf, path);
        PairIsWide(h, ls);
        ClimbExactly(h, up, i / 2, lf, path, tree, climb, s);
      }
    }
  }

  /**
   The shifting loop, for leaves of any width and any path: it accepts lf at index i exactly with the path
   that completes lf to the two hashes joined on the lowest level where the node has a sibling.
   */
  lemma {:induction false} InclusionExact(h: Hash, ls: seq<Bytes>, i: nat, lf: Bytes, path: seq<Bytes>)
    requires IsHash32(h) && Wide(ls) && i < |ls|
    requires CollisionFreeOn(h, PairPreimages(TreePairs(Node(h), ls)) + PairPreimages(ClimbPairs(Node(h), i, |ls| - 1, lf, path)))
    ensures Accepts(Node(h), lf, i, |ls|, path, Root(Node(h), ls)) <==> RecutPath(h, ls, i, lf) == Some(path)
  {
    var tree, climb := TreePairs(Node(h), ls), ClimbPairs(Node(h), i, |ls| - 1, lf, path);
    ClimbExactly(h, ls, i, lf, path, tree, climb, PairPreimages(tree) + PairPreimages(climb));
  }

  lemma {:induction false} FullWidthParts(a: Bytes, b: Bytes, lf: Bytes)
    requires |a| == 32 && |b| == 32 && |lf| == 32
    ensures IsSuffix(lf, a + b) <==> lf == b
    ensures lf <= a + b <==> lf == a
    ensures (a + b)[..32] == a && (a + b)[32..] == b
  {
  }

  lemma {:induction false} FullWidthAtSibling(h: Hash, ls: seq<Bytes>, i: nat, lf: Bytes, above: seq<Bytes>)
    requires Wide(ls) && i < |ls| && |ls| > 1 && |lf| == 32 && (i % 2 == 1 || i + 1 < |ls|)
    requires above == AuditPath(Node(h), Pair(Node(h), ls), i / 2)
    ensures RecutPath(h, ls, i, lf) == if lf == ls[i] then Some(Sibling(ls, i) + above) else None
  {
    if i % 2 == 1 {
      FullWidthParts(ls[i - 1], ls[i], lf);
    } else {
      FullWidthParts(ls[i], ls[i + 1], lf);
    }
  }

  /** The leaf itself is completed by its audit path, and no other string of its width is completed. */
  lemma {:induction false} RecutOfFullWidth(h: Hash, ls: seq<Bytes>, i: nat, lf: Bytes)
    requires IsHash32(h) && Wide(ls) && i < |ls| && |lf| == 32
    ensures RecutPath(h, ls, i, lf) == if lf == ls[i] then Some(AuditPath(Node(h), ls, i)) else None
    decreases |ls|
  {
    if |ls| > 1 {
      var up := Pair(Node(h), ls);
      AuditPathByLevel(Node(h), ls, i);
      if i % 2 == 1 || i + 1 < |ls| {
        FullWidthAtSibling(h, ls, i, lf, AuditPath(Node(h), up, i / 2));
      } else {
        PairIsWide(h, ls);
        PairAt(Node(h), ls, i / 2);
        RecutOfFullWidth(h, up, i / 2, lf);
        assert Sibling(ls, i) + AuditPath(Node(h), up, i / 2) == AuditPath(Node(h), up, i / 2);
      }
    }
  }

  /** So the verifier is wrong about a leaf exactly when the leaf is a part of the joined hashes of another width. */
  lemma {:induction false} WrongAcceptanceExactly(h: Hash, ls: seq<Bytes>, i: nat, lf: Bytes, path: seq<Bytes>)
    requires IsHash32(h) && Wide(ls) && i < |ls|
    requires CollisionFreeOn(h, PairPreimages(TreePairs(Node(h), ls)) + PairPreimages(ClimbPairs(Node(h), i, |ls| - 1, lf, path)))
    ensures Accepts(Node(h), lf, i, |ls|, path, Root(Node(h), ls)) && !(lf == ls[i] && path == AuditPath(Node(h), ls, i))
            <==> |lf| != 32 && RecutPath(h, ls, i, lf) == Some(path)
  {
    InclusionExact(h, ls, i, lf, path);
    if |lf| == 32 {
      RecutOfFullWidth(h, ls, i, lf);
    }
  }

  /** There is such a leaf at every index, of every width up to 64 bytes and of no other width, unless it is the only leaf. */
  lemma {:induction false} RecutOfWidth(h: Hash, ls: seq<Bytes>, i: nat, w: nat) returns (lf: Bytes)
    requires IsHash32(h) && Wide(ls) && i < |ls| && |ls| > 1
    ensures w <= 64 ==> |lf| == w && RecutPath(h, ls, i, lf).Some?
    ensures w > 64 ==> forall s: Bytes :: |s| == w ==> RecutPath(h, ls, i, s) == None
    decreases |ls|
  {
    if i % 2 == 1 {
      var joined := ls[i - 1] + ls[i];
      lf := if w <= 64 then joined[64 - w..] else [];
    } else if i + 1 < |ls| {
      var joined := ls[i] + ls[i + 1];
      lf := if w <= 64 then joined[..w] else [];
    } else {
      PairIsWide(h, ls);
      lf := RecutOfWidth(h, Pair(Node(h), ls), i / 2, w);
    }
  }

  /** The smallest such case: one byte moves from the leaf into the path. */
  lemma {:induction false} ShortLeafIsAccepted(h: Hash, a: Bytes, b: Bytes)
    requires |a| == 32 && |b| == 32
    ensures Accepts(Node(h), a[..31], 0, 2, [a[31..] + b], Root(Node(h), [a, b]))
    ensures a[..31] != a && [a[31..] + b] != AuditPath(Node(h), [a, b], 0)
  {
    var ls := [a, b];
    assert ls[..1] == [a] && ls[1..] == [b];
    assert NodePreimage(a[..31], a[31..] + b) == NodePreimage(a, b);
    assert AuditPath(Node(h), ls, 0) == [b];
    assert |a[31..] + b| == 33;
  }
}
