/**
 The inclusion verifier at every integer index.  An index at or above the size is refused.  A negative index
 never meets the last node of a level, so nothing is carried up and the climb goes by the index's low bits.
 */
module AnyIndex {
  import opened Wrappers
  import opened TreeHash
  import opened Inclusion
  import Radix

  function Pow2(n: nat): (p: nat)
    ensures p > 0
  {
    Radix.Pow(2, n)
  }

  /** The number of shifts that bring the last index n - 1 to zero. */
  function Depth(n: nat): (d: nat)
    requires n > 0
    decreases n
  {
    if n == 1 then 0 else 1 + Depth((n + 1) / 2)
  }

  /** What a climb without carries reaches, read from the top: the last step goes by the highest bit. */
  function Straight<D>(node: NodeHash<D>, m: nat, r: D, path: seq<D>): D
    decreases |path|
  {
    if path == [] then r
    else
      var k := |path| - 1;
      if m < Pow2(k) then node(Straight(node, m, r, path[..k]), path[k])
      else node(path[k], Straight(node, m - Pow2(k), r, path[..k]))
  }

  /** The same climb read from the bottom. */
  lemma {:induction false} StraightStep<D>(node: NodeHash<D>, m: nat, r: D, path: seq<D>)
    requires path != [] && m < Pow2(|path|)
    ensures Straight(node, m, r, path)
         == Straight(node, m / 2, if m % 2 == 1 then node(path[0], r) else node(r, path[0]), path[1..])
    decreases |path|
  {
    var k := |path| - 1;
    if k > 0 {
      var v := if m % 2 == 1 then node(path[0], r) else node(r, path[0]);
      assert path[..k][1..] == path[1..][..k - 1] && path[1..][k - 1] == path[k] && path[..k][0] == path[0];
      assert m < Pow2(k) <==> m / 2 < Pow2(k - 1);
      if m < Pow2(k) {
        StraightStep(node, m, r, path[..k]);
      } else {
        StraightStep(node, m - Pow2(k), r, path[..k]);
        assert (m - Pow2(k)) / 2 == m / 2 - Pow2(k - 1) && (m - Pow2(k)) % 2 == m % 2;
      }
    } else {
      assert m / 2 == 0 && path[1..] == [] && path[..0] == [];
    }
  }

  /** The low bits of an index, as a position. */
  function LowBits(index: int, d: nat): (m: nat)
    ensures m < Pow2(d)
    decreases d
  {
    if d == 0 then 0 else 2 * LowBits(Shift(index), d - 1) + index % 2
  }

  /** A negative index climbs straight, by its low bits, and uses a path of the full depth. */
  lemma {:induction false} NegativeClimb<D>(node: NodeHash<D>, fn: int, n: nat, r: D, path: seq<D>)
    requires fn < 0 < n
    ensures Climb(node, fn, n - 1, r, path)
         == if |path| == Depth(n) then Some(Straight(node, LowBits(fn, Depth(n)), r, path)) else None
    decreases n
  {
    if n > 1 {
      var half := (n + 1) / 2;
      assert half - 1 == Shift(n - 1);
      if path != [] {
        var v := if fn % 2 == 1 then node(path[0], r) else node(r, path[0]);
        NegativeClimb(node, Shift(fn), half, v, path[1..]);
        if |path| == Depth(n) {
          var m := LowBits(fn, Depth(n));
          StraightStep(node, m, r, path);
          assert m / 2 == LowBits(Shift(fn), Depth(half)) && m % 2 == fn % 2;
        }
      }
    }
  }

  lemma {:induction false} LowBitsAreRemainder(index: int, d: nat)
    ensures LowBits(index, d) == index % Pow2(d)
    decreases d
  {
    if d > 0 {
      var half, p := Shift(index), Pow2(d - 1);
      LowBitsAreRemainder(half, d - 1);
      Radix.Remainder(half, p);
      var q := half / p;
      assert index == 2 * half + index % 2;
      assert q * (2 * p) == 2 * (q * p);
      Radix.DivModUnique(q, LowBits(index, d), 2 * p);
    }
  }

  // ---------- depths and powers ----------

  lemma {:induction false} PowIsPower(d: nat)
    ensures IsPowerOfTwo(Pow2(d))
  {
    if d > 0 {
      PowIsPower(d - 1);
    }
  }

  lemma {:induction false} DepthInPowers(n: nat)
    requires n > 0
    ensures n <= Pow2(Depth(n))
    ensures n > 1 ==> Pow2(Depth(n) - 1) < n
  {
    if n > 1 {
      DepthInPowers((n + 1) / 2);
    }
  }

  lemma {:induction false} PowGrows(a: nat, b: nat)
    requires a <= b
    ensures Pow2(a) <= Pow2(b)
  {
    if a < b {
      PowGrows(a, b - 1);
    }
  }

  lemma {:induction false} DepthAtMost(n: nat, d: nat)
    requires 0 < n <= Pow2(d)
    ensures Depth(n) <= d
  {
    DepthInPowers(n);
    if Depth(n) > d {
      PowGrows(d, Depth(n) - 1);
    }
  }

  /** The left half of a tree is full, and the right half is no deeper. */
  lemma {:induction false} HalvesByDepth(n: nat)
    requires n > 1
    ensures Depth(n) > 0 && SplitPoint(n) == Pow2(Depth(n) - 1)
    ensures Depth(SplitPoint(n)) <= Depth(n) - 1 && Depth(n - SplitPoint(n)) <= Depth(n) - 1
  {
    var d := Depth(n) - 1;
    DepthInPowers(n);
    PowIsPower(d);
    SplitPointUnique(Pow2(d), n);
    DepthAtMost(Pow2(d), d);
    DepthAtMost(n - Pow2(d), d);
  }

  lemma {:induction false} PartIsLower(n: nat, m: nat)
    requires n > 1 && (m == SplitPoint(n) || m == n - SplitPoint(n))
    ensures Depth(m) < Depth(n)
  {
    HalvesByDepth(n);
  }

  lemma {:induction false} PathWithinDepth<D>(node: NodeHash<D>, ls: seq<D>, i: nat)
    requires i < |ls|
    ensures |AuditPath(node, ls, i)| <= Depth(|ls|)
    decreases |ls|
  {
    if |ls| > 1 {
      var k := SplitPoint(|ls|);
      var part, j := if i < k then ls[..k] else ls[k..], if i < k then i else i - k;
      PartIsLower(|ls|, |part|);
      PathWithinDepth(node, part, j);
      assert |AuditPath(node, ls, i)| == |AuditPath(node, part, j)| + 1;
    }
  }

  // ---------- a straight climb in a tree ----------

  /** The pairs that a straight climb combines. */
  ghost function StraightPairs<D(!new)>(node: NodeHash<D>, m: nat, r: D, path: seq<D>): set<(D, D)>
    decreases |path|
  {
    if path == [] then {}
    else
      var k := |path| - 1;
      if m < Pow2(k) then {(Straight(node, m, r, path[..k]), path[k])} + StraightPairs(node, m, r, path[..k])
      else {(path[k], Straight(node, m - Pow2(k), r, path[..k]))} + StraightPairs(node, m - Pow2(k), r, path[..k])
  }

  lemma {:induction false} StraightPairsStep<D(!new)>(node: NodeHash<D>, m: nat, r: D, path: seq<D>)
    requires path != [] && m < Pow2(|path|)
    ensures var c := if m % 2 == 1 then (path[0], r) else (r, path[0]);
      StraightPairs(node, m, r, path) == {c} + StraightPairs(node, m / 2, node(c.0, c.1), path[1..])
    decreases |path|
  {
    var k := |path| - 1;
    if k > 0 {
      var c := if m % 2 == 1 then (path[0], r) else (r, path[0]);
      var low := if m < Pow2(k) then m else m - Pow2(k);
      assert path[..k][1..] == path[1..][..k - 1] && path[1..][k - 1] == path[k] && path[..k][0] == path[0];
      assert m < Pow2(k) <==> m / 2 < Pow2(k - 1);
      assert low % 2 == m % 2 && low / 2 == if m < Pow2(k) then m / 2 else m / 2 - Pow2(k - 1);
      StraightStep(node, low, r, path[..k]);
      StraightPairsStep(node, low, r, path[..k]);
    } else {
      assert m / 2 == 0 && path[1..] == [] && path[..0] == [];
    }
  }

  lemma {:induction false} NegativeClimbPairs<D(!new)>(node: NodeHash<D>, fn: int, n: nat, r: D, path: seq<D>)
    requires fn < 0 < n && |path| == Depth(n)
    ensures ClimbPairs(node, fn, n - 1, r, path) == StraightPairs(node, LowBits(fn, Depth(n)), r, path)
    decreases n
  {
    if n > 1 {
      var half, m := (n + 1) / 2, LowBits(fn, Depth(n));
      assert half - 1 == Shift(n - 1);
      var v := if fn % 2 == 1 then node(path[0], r) else node(r, path[0]);
      NegativeClimbPairs(node, Shift(fn), half, v, path[1..]);
      StraightPairsStep(node, m, r, path);
      assert m / 2 == LowBits(Shift(fn), Depth(half)) && m % 2 == fn % 2;
    }
  }

  /** What the last step starts from. */
  function Below(m: nat, k: nat): nat {
    if m < Pow2(k) then m else m - Pow2(k)
  }

  /** The pair that the last step combines. */
  function LastPair<D>(node: NodeHash<D>, m: nat, r: D, path: seq<D>): (D, D)
    requires path != []
  {
    var k := |path| - 1;
    var v := Straight(node, Below(m, k), r, path[..k]);
    if m < Pow2(k) then (v, path[k]) else (path[k], v)
  }

  lemma {:induction false} LastStep<D(!new)>(node: NodeHash<D>, m: nat, r: D, path: seq<D>, climb: set<(D, D)>)
    requires path != [] && StraightPairs(node, m, r, path) <= climb
    ensures var c := LastPair(node, m, r, path);
      c in climb && Straight(node, m, r, path) == node(c.0, c.1)
    ensures StraightPairs(node, Below(m, |path| - 1), r, path[..|path| - 1]) <= climb
  {
  }

  /** A straight climb as long as the tree is deep, or longer, reaches the root only from a leaf at the full depth. */
  lemma {:induction false} StraightExactly<D(!new)>(node: NodeHash<D>, ls: seq<D>, m: nat, lf: D, path: seq<D>,
                                                    tree: set<(D, D)>, climb: set<(D, D)>)
    requires |ls| > 0 && m < Pow2(|path|) && Depth(|ls|) <= |path|
    requires TreePairs(node, ls) <= tree && StraightPairs(node, m, lf, path) <= climb
    requires Binding(node, tree, climb) && AvoidsLeaves(node, ls, climb)
    ensures Straight(node, m, lf, path) == Root(node, ls) <==> m < |ls| && lf == ls[m] && path == AuditPath(node, ls, m)
    decreases |path|
  {
    if |ls| == 1 {
      StraightAtLeaf(node, ls, m, lf, path, climb);
    } else {
      var half, below, shorter := Descend(node, ls, m, lf, path, tree, climb);
      StraightExactly(node, half, below, lf, shorter, tree, climb);
      StraightByHalf(node, ls, m, lf, path, half, below, shorter, tree, climb);
    }
  }

  lemma {:induction false} StraightAtLeaf<D(!new)>(node: NodeHash<D>, ls: seq<D>, m: nat, lf: D, path: seq<D>, climb: set<(D, D)>)
    requires |ls| == 1 && m < Pow2(|path|) && StraightPairs(node, m, lf, path) <= climb && AvoidsLeaves(node, ls, climb)
    ensures Straight(node, m, lf, path) == Root(node, ls) <==> m < |ls| && lf == ls[m] && path == AuditPath(node, ls, m)
  {
    if path != [] {
      LastStep(node, m, lf, path, climb);
      var c := LastPair(node, m, lf, path);
      assert node(c.0, c.1) != ls[0];
    }
  }

  /** Undoes the last step of the climb, and goes down to the half of the tree that it joined. */
  lemma {:induction false} Descend<D(!new)>(node: NodeHash<D>, ls: seq<D>, m: nat, lf: D, path: seq<D>, tree: set<(D, D)>,
                                            climb: set<(D, D)>) returns (half: seq<D>, below: nat, shorter: seq<D>)
    requires |ls| > 1 && m < Pow2(|path|) && Depth(|ls|) <= |path|
    requires TreePairs(node, ls) <= tree && StraightPairs(node, m, lf, path) <= climb && AvoidsLeaves(node, ls, climb)
    ensures |path| > 0 && |shorter| == |path| - 1 && shorter == path[..|path| - 1]
    ensures below == Below(m, |path| - 1) < Pow2(|shorter|)
    ensures half == if m < Pow2(|path| - 1) then ls[..SplitPoint(|ls|)] else ls[SplitPoint(|ls|)..]
    ensures TreePairs(node, half) <= tree && AvoidsLeaves(node, half, climb)
    ensures 0 < |half| && Depth(|half|) < Depth(|ls|) && Depth(|half|) <= |shorter|
    ensures StraightPairs(node, below, lf, shorter) <= climb
  {
    LastStep(node, m, lf, path, climb);
    half := HalfOf(node, ls, m < Pow2(|path| - 1), tree, climb);
    below, shorter := Below(m, |path| - 1), path[..|path| - 1];
  }

  lemma {:induction false} StraightByHalf<D(!new)>(node: NodeHash<D>, ls: seq<D>, m: nat, lf: D, path: seq<D>, half: seq<D>,
                                                   below: nat, shorter: seq<D>, tree: set<(D, D)>, climb: set<(D, D)>)
    requires |ls| > 1 && path != [] && Depth(|ls|) <= |path| && shorter == path[..|path| - 1]
    requires TreePairs(node, ls) <= tree && StraightPairs(node, m, lf, path) <= climb && Binding(node, tree, climb)
    requires below == Below(m, |path| - 1)
    requires half == if m < Pow2(|path| - 1) then ls[..SplitPoint(|ls|)] else ls[SplitPoint(|ls|)..]
    requires |half| > 0 && Depth(|half|) < Depth(|ls|)
    requires Straight(node, below, lf, shorter) == Root(node, half) <==>
             below < |half| && lf == half[below] && shorter == AuditPath(node, half, below)
    ensures Straight(node, m, lf, path) == Root(node, ls) <==> m < |ls| && lf == ls[m] && path == AuditPath(node, ls, m)
  {
    LastStep(node, m, lf, path, climb);
    TopIsJoined(node, ls, tree);
    StraightInHalf(node, ls, m, lf, path, half, below, LastPair(node, m, lf, path), tree, climb);
  }

  lemma {:induction false} HalfOf<D(!new)>(node: NodeHash<D>, ls: seq<D>, left: bool, tree: set<(D, D)>,
                                           climb: set<(D, D)>) returns (half: seq<D>)
    requires |ls| > 1 && TreePairs(node, ls) <= tree && AvoidsLeaves(node, ls, climb)
    ensures half == if left then ls[..SplitPoint(|ls|)] else ls[SplitPoint(|ls|)..]
    ensures TreePairs(node, half) <= tree && AvoidsLeaves(node, half, climb) && 0 < |half| && Depth(|half|) < Depth(|ls|)
  {
    var k := SplitPoint(|ls|);
    half := if left then ls[..k] else ls[k..];
    PartAvoids(node, ls, half, climb);
    PartIsLower(|ls|, |half|);
  }

  lemma {:induction false} PartAvoids<D(!new)>(node: NodeHash<D>, ls: seq<D>, part: seq<D>, climb: set<(D, D)>)
    requires AvoidsLeaves(node, ls, climb) && forall x :: x in part ==> x in ls
    ensures AvoidsLeaves(node, part, climb)
  {
  }

  lemma {:induction false} TopIsJoined<D(!new)>(node: NodeHash<D>, ls: seq<D>, tree: set<(D, D)>)
    requires |ls| > 1 && TreePairs(node, ls) <= tree
    ensures TopPair(node, ls) in tree && Root(node, ls) == node(TopPair(node, ls).0, TopPair(node, ls).1)
  {
  }

  lemma {:induction false} RootIsOfTop<D(!new)>(node: NodeHash<D>, ls: seq<D>, c: (D, D), tree: set<(D, D)>, climb: set<(D, D)>)
    requires |ls| > 1 && c in climb && TopPair(node, ls) in tree && Binding(node, tree, climb)
    requires Root(node, ls) == node(TopPair(node, ls).0, TopPair(node, ls).1)
    ensures node(c.0, c.1) == Root(node, ls) <==> c == TopPair(node, ls)
  {
  }

  /** The last pair of the climb is the top pair of the tree exactly if the climb below reached the half, next to the other. */
  lemma {:induction false} TopMatches<D(!new)>(node: NodeHash<D>, ls: seq<D>, left: bool, half: seq<D>, v: D, other: D, c: (D, D))
    requires |ls| > 1 && half == if left then ls[..SplitPoint(|ls|)] else ls[SplitPoint(|ls|)..]
    requires c == if left then (v, other) else (other, v)
    ensures |half| > 0
    ensures c == TopPair(node, ls) <==> v == Root(node, half) && other == if left then TopPair(node, ls).1 else TopPair(node, ls).0
  {
  }

  lemma {:induction false} StraightInHalf<D(!new)>(node: NodeHash<D>, ls: seq<D>, m: nat, lf: D, path: seq<D>, half: seq<D>,
                                                   below: nat, c: (D, D), tree: set<(D, D)>, climb: set<(D, D)>)
    requires |ls| > 1 && path != [] && Depth(|ls|) <= |path|
    requires below == Below(m, |path| - 1) && c == LastPair(node, m, lf, path)
    requires half == if m < Pow2(|path| - 1) then ls[..SplitPoint(|ls|)] else ls[SplitPoint(|ls|)..]
    requires |half| > 0 && Depth(|half|) < Depth(|ls|)
    requires c in climb && TopPair(node, ls) in tree && Binding(node, tree, climb)
    requires Root(node, ls) == node(TopPair(node, ls).0, TopPair(node, ls).1)
    requires Straight(node, below, lf, path[..|path| - 1]) == Root(node, half) <==>
             below < |half| && lf == half[below] && path[..|path| - 1] == AuditPath(node, half, below)
    ensures node(c.0, c.1) == Root(node, ls) <==> m < |ls| && lf == ls[m] && path == AuditPath(node, ls, m)
  {
    var k := |path| - 1;
    RootIsOfTop(node, ls, c, tree, climb);
    TopMatches(node, ls, m < Pow2(k), half, Straight(node, below, lf, path[..k]), path[k], c);
    if Depth(|ls|) == |path| {
      SplitAtFullDepth(|ls|, k);
      FullDepth(node, ls, m, lf, path, half, below);
    } else {
      TooLong(node, ls, m, path, half, below);
    }
  }

  lemma {:induction false} SplitAtFullDepth(n: nat, k: nat)
    requires n > 1 && Depth(n) == k + 1
    ensures SplitPoint(n) == Pow2(k)
  {
    HalvesByDepth(n);
  }

  /** On a path of the full depth the highest bit picks the half in which the leaf lies. */
  lemma {:induction false} FullDepth<D(!new)>(node: NodeHash<D>, ls: seq<D>, m: nat, lf: D, path: seq<D>, half: seq<D>, below: nat)
    requires |ls| > 1 && |path| > 0 && SplitPoint(|ls|) == Pow2(|path| - 1)
    requires below == Below(m, |path| - 1)
    requires half == if m < Pow2(|path| - 1) then ls[..SplitPoint(|ls|)] else ls[SplitPoint(|ls|)..]
    ensures var k, top := |path| - 1, TopPair(node, ls);
      m < |ls| && lf == ls[m] && path == AuditPath(node, ls, m) <==>
        && below < |half| && lf == half[below] && path[..k] == AuditPath(node, half, below)
        && path[k] == if m < Pow2(k) then top.1 else top.0
  {
    var k, top := |path| - 1, TopPair(node, ls);
    assert path == path[..k] + [path[k]];
    if m < |ls| {
      var last := if m < Pow2(k) then top.1 else top.0;
      assert AuditPath(node, ls, m) == AuditPath(node, half, below) + [last];
      assert (AuditPath(node, half, below) + [last])[..|AuditPath(node, half, below)|] == AuditPath(node, half, below);
    }
  }

  /** A longer path is no leaf's audit path, neither in the tree nor, without its end, in a half. */
  lemma {:induction false} TooLong<D(!new)>(node: NodeHash<D>, ls: seq<D>, m: nat, path: seq<D>, half: seq<D>, below: nat)
    requires |ls| > 1 && |half| > 0 && Depth(|ls|) < |path| && Depth(|half|) < |path| - 1
    ensures m < |ls| ==> path != AuditPath(node, ls, m)
    ensures below < |half| ==> path[..|path| - 1] != AuditPath(node, half, below)
  {
    if m < |ls| {
      PathWithinDepth(node, ls, m);
    }
    if below < |half| {
      PathWithinDepth(node, half, below);
    }
  }

  // ---------- every integer index ----------

  /**
   The verifier at the tree's own size, for every integer index: it accepts exactly the leaf at the index
   with its audit path; for a negative index that is the leaf at the index's low bits, as many as the tree is
   deep, if there is such a leaf and it lies at the full depth.
   */
  lemma {:induction false} AcceptsAtAnyIndexExactly<D(!new)>(node: NodeHash<D>, ls: seq<D>, index: int, lf: D, path: seq<D>)
    requires |ls| > 0
    requires Binding(node, TreePairs(node, ls), ClimbPairs(node, index, |ls| - 1, lf, path))
    requires AvoidsLeaves(node, ls, ClimbPairs(node, index, |ls| - 1, lf, path))
    ensures index >= |ls| ==> !Accepts(node, lf, index, |ls|, path, Root(node, ls))
    ensures 0 <= index < |ls| ==>
              (Accepts(node, lf, index, |ls|, path, Root(node, ls)) <==> lf == ls[index] && path == AuditPath(node, ls, index))
    ensures index < 0 ==>
              var m := index % Pow2(Depth(|ls|));
              (Accepts(node, lf, index, |ls|, path, Root(node, ls)) <==>
                 m < |ls| && lf == ls[m] && path == AuditPath(node, ls, m) && |path| == Depth(|ls|))
  {
    var climb := ClimbPairs(node, index, |ls| - 1, lf, path);
    if 0 <= index < |ls| {
      AcceptsExactly(node, ls, index, lf, path);
    } else if index < 0 {
      var d := Depth(|ls|);
      NegativeClimb(node, index, |ls|, lf, path);
      LowBitsAreRemainder(index, d);
      if |path| == d {
        NegativeClimbPairs(node, index, |ls|, lf, path);
        StraightExactly(node, ls, LowBits(index, d), lf, path, TreePairs(node, ls), climb);
      }
    }
  }

  lemma {:induction false} NegativeSizeNeverEnds<D>(node: NodeHash<D>, fn: int, sn: int, r: D, path: seq<D>)
    requires sn < 0
    ensures Climb(node, fn, sn, r, path) == None
    decreases |path|, if fn < 0 then -fn else fn
  {
    if path != [] {
      if fn % 2 == 1 {
        NegativeSizeNeverEnds(node, Shift(fn), Shift(sn), node(path[0], r), path[1..]);
      } else if fn != sn {
        NegativeSizeNeverEnds(node, Shift(fn), Shift(sn), node(r, path[0]), path[1..]);
      } else {
        NegativeSizeNeverEnds(node, Shift(fn), Shift(sn), r, path);
      }
    }
  }

  /** No index lies in a tree without leaves. */
  lemma {:induction false} NoSizeNoAcceptance<D>(node: NodeHash<D>, index: int, size: int, lf: D, path: seq<D>, root: D)
    requires size <= 0
    ensures !Accepts(node, lf, index, size, path, root)
  {
    NegativeSizeNeverEnds(node, index, size - 1, lf, path);
  }
}
