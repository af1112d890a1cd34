/**
 Resolving the anchor time from which a binding governs: the earliest visible manifest that contains it
 is accepted only if its chain of predecessors closes at a genesis manifest without meeting a fork.
 */
module Manifests {
  import opened Wrappers
  import opened Sorting

  type Address = string

  /** What the content address covers; `rest` stands for all fields but the link. */
  datatype Content = Content(prev: Option<Address>, rest: string)
  datatype Manifest = Manifest(content: Content, available: bool, contains: set<string>, anchorTime: int)
  datatype Verdict = NotCovered | IncompleteHistory | ManifestFork | Resolved(anchorTime: int)

  type AddressOf = Content -> Address
  type Visible = map<Address, Manifest>

  // ---------- what the verifier can see ----------

  /** The available manifests by recomputed address; of two with one address the later is kept. */
  function Available(cc: AddressOf, ms: seq<Manifest>): Visible {
    if ms == [] then map[]
    else
      var m := ms[|ms| - 1];
      var before := Available(cc, ms[..|ms| - 1]);
      if m.available then before[cc(m.content) := m] else before
  }

  /** The manifest at i is the one that a lookup of its address finds: it is available, and no later available one shares the address. */
  ghost predicate IsKept(cc: AddressOf, ms: seq<Manifest>, i: int) {
    && 0 <= i < |ms| && ms[i].available
    && forall j :: i < j < |ms| && ms[j].available ==> cc(ms[j].content) != cc(ms[i].content)
  }

  /** An address is visible exactly if an available manifest has it. */
  lemma {:induction false} AvailableExactly(cc: AddressOf, ms: seq<Manifest>, a: Address)
    ensures a in Available(cc, ms) <==> exists i :: 0 <= i < |ms| && ms[i].available && cc(ms[i].content) == a
  {
    if ms != [] {
      var k := |ms| - 1;
      var front := ms[..k];
      AvailableExactly(cc, front, a);
      if i :| 0 <= i < k && ms[i].available && cc(ms[i].content) == a {
        assert front[i] == ms[i];
      }
      if a in Available(cc, front) {
        var i :| 0 <= i < |front| && front[i].available && cc(front[i].content) == a;
        assert ms[i].available && cc(ms[i].content) == a;
      }
    }
  }

  /** It stands for the last manifest that has it. */
  lemma {:induction false} LastIsKept(cc: AddressOf, ms: seq<Manifest>, i: nat)
    requires IsKept(cc, ms, i)
    ensures cc(ms[i].content) in Available(cc, ms) && Available(cc, ms)[cc(ms[i].content)] == ms[i]
  {
    var k := |ms| - 1;
    if i < k {
      assert ms[..k][i] == ms[i];
      LastIsKept(cc, ms[..k], i);
    }
  }

  /** Only manifests at hand are seen, each under its own address. */
  lemma {:induction false} VisibleIsAvailable(cc: AddressOf, ms: seq<Manifest>, a: Address)
    requires a in Available(cc, ms)
    ensures cc(Available(cc, ms)[a].content) == a
    ensures exists i :: IsKept(cc, ms, i) && Available(cc, ms)[a] == ms[i]
  {
    var k := |ms| - 1;
    var front := ms[..k];
    if ms[k].available && cc(ms[k].content) == a {
      assert IsKept(cc, ms, k);
    } else {
      VisibleIsAvailable(cc, front, a);
      var i :| IsKept(cc, front, i) && Available(cc, front)[a] == front[i];
      assert front[i] == ms[i] && IsKept(cc, ms, i);
    }
  }

  /** The addresses in the order of their first appearance. */
  function Addresses(cc: AddressOf, ms: seq<Manifest>): (r: seq<Address>)
    ensures forall a :: a in r <==> a in Available(cc, ms)
    ensures forall i, j :: 0 <= i < j < |r| ==> r[i] != r[j]
  {
    if ms == [] then []
    else
      var m := ms[|ms| - 1];
      var before := Addresses(cc, ms[..|ms| - 1]);
      if m.available && cc(m.content) !in before then before + [cc(m.content)] else before
  }

  /** A link claimed by two available manifests. */
  ghost predicate IsFork(avail: Visible, prev: Option<Address>) {
    exists a, b :: a in avail && b in avail && a != b && avail[a].content.prev == prev && avail[b].content.prev == prev
  }

  function Containers(avail: Visible, order: seq<Address>, target: string): (r: seq<Address>)
    requires forall i :: 0 <= i < |order| ==> order[i] in avail
    ensures forall a :: a in r <==> a in order && target in avail[a].contains
  {
    if order == [] then []
    else (if target in avail[order[0]].contains then [order[0]] else []) + Containers(avail, order[1..], target)
  }

  function AnchorOf(avail: Visible, a: Address): int {
    if a in avail then avail[a].anchorTime else 0
  }

  function ByAnchor(avail: Visible): Order<Address> {
    (a, b) => AnchorOf(avail, a) <= AnchorOf(avail, b)
  }

  /** The earliest-visible container. */
  function Candidate(cc: AddressOf, ms: seq<Manifest>, target: string): Option<Address> {
    var avail := Available(cc, ms);
    var containers := Sort(ByAnchor(avail), Containers(avail, Addresses(cc, ms), target));
    if containers == [] then None else Some(containers[0])
  }

  // ---------- the walk to genesis ----------

  datatype Walked = Closed | Broken | Forked

  ghost function Walk(avail: Visible, cur: Option<Address>, seen: set<Address>): Walked
    decreases avail.Keys - seen
  {
    if cur == None then Closed
    else if cur.value in seen || cur.value !in avail then Broken
    else
      var prev := avail[cur.value].content.prev;
      if IsFork(avail, prev) then Forked else Walk(avail, prev, seen + {cur.value})
  }

  ghost function Resolve(cc: AddressOf, ms: seq<Manifest>, target: string): Verdict {
    var avail, candidate := Available(cc, ms), Candidate(cc, ms, target);
    if candidate == None then NotCovered
    else
      match Walk(avail, candidate, {})
      case Closed => Resolved(AnchorOf(avail, candidate.value))
      case Broken => IncompleteHistory
      case Forked => ManifestFork
  }

  /** The program: the maps filled entry by entry, the list sorted, the links followed with a record of those seen. */
  method ComputeResolve(cc: AddressOf, ms: seq<Manifest>, target: string) returns (verdict: Verdict)
    ensures verdict == Resolve(cc, ms, target)
  {
    var avail, order := CollectAvailable(cc, ms);
    var forks := CollectForks(avail, order);
    var containers := Containers(avail, order, target);
    if containers == [] {
      return NotCovered;
    }
    containers := Sort(ByAnchor(avail), containers);
    SortFindsLeast(ByAnchor(avail), Containers(avail, order, target));
    var first := containers[0];
    var cur, seen := Some(first), {};
    while cur != None
      invariant Walk(avail, Some(first), {}) == Walk(avail, cur, seen)
      decreases avail.Keys - seen, cur != None
    {
      if cur.value in seen || cur.value !in avail {
        return IncompleteHistory;
      }
      var prev := avail[cur.value].content.prev;
      if prev in forks {
        return ManifestFork;
      }
      seen := seen + {cur.value};
      cur := prev;
    }
    return Resolved(AnchorOf(avail, first));
  }

  method CollectAvailable(cc: AddressOf, ms: seq<Manifest>) returns (avail: Visible, order: seq<Address>)
    ensures avail == Available(cc, ms) && order == Addresses(cc, ms)
  {
    avail, order := map[], [];
    for i := 0 to |ms|
      invariant avail == Available(cc, ms[..i]) && order == Addresses(cc, ms[..i])
    {
      assert ms[..i + 1][..i] == ms[..i];
      var m := ms[i];
      if m.available {
        var a := cc(m.content);
        if a !in avail {
          order := order + [a];
        }
        avail := avail[a := m];
      }
    }
    assert ms[..|ms|] == ms;
  }

  /** The links with more than one claimant. */
  method CollectForks(avail: Visible, order: seq<Address>) returns (forks: set<Option<Address>>)
    requires forall a :: a in order <==> a in avail
    requires forall i, j :: 0 <= i < j < |order| ==> order[i] != order[j]
    ensures forall p :: p in forks <==> IsFork(avail, p)
  {
    var byPrev: map<Option<Address>, seq<Address>> := map[];
    for i := 0 to |order|
      invariant forall a :: a in order[..i] ==> avail[a].content.prev in byPrev
      invariant forall p, a :: p in byPrev ==> (a in byPrev[p] <==> a in order[..i] && avail[a].content.prev == p)
      invariant forall p :: p in byPrev ==> forall k, m :: 0 <= k < m < |byPrev[p]| ==> byPrev[p][k] != byPrev[p][m]
    {
      var a := order[i];
      var p := avail[a].content.prev;
      assert a !in order[..i];
      assert order[..i + 1] == order[..i] + [a];
      byPrev := byPrev[p := (if p in byPrev then byPrev[p] else []) + [a]];
    }
    assert order[..|order|] == order;
    forks := set p | p in byPrev && |byPrev[p]| > 1;
    forall p
      ensures p in forks <==> IsFork(avail, p)
    {
      if p in forks {
        var a, b := byPrev[p][0], byPrev[p][1];
        assert a in byPrev[p] && b in byPrev[p] && a != b;
        assert a in order && b in order;
      }
      if IsFork(avail, p) {
        var a, b :| a in avail && b in avail && a != b && avail[a].content.prev == p && avail[b].content.prev == p;
        assert a in byPrev[p] && b in byPrev[p];
      }
    }
  }

  // ---------- chains ----------

  /** A chain of links from its first manifest to a genesis manifest. */
  ghost predicate IsChain(avail: Visible, path: seq<Address>) {
    && path != []
    && (forall i :: 0 <= i < |path| ==> path[i] in avail)
    && (forall i :: 0 <= i < |path| ==> LinkOf(avail, path, i) == if i + 1 < |path| then Some(path[i + 1]) else None)
  }

  ghost function LinkOf(avail: Visible, path: seq<Address>, i: nat): Option<Address>
    requires i < |path| && path[i] in avail
  {
    avail[path[i]].content.prev
  }

  /** No manifest on the path follows a link that another one claims too. */
  ghost predicate ForkFree(avail: Visible, path: seq<Address>)
    requires forall i :: 0 <= i < |path| ==> path[i] in avail
  {
    forall i :: 0 <= i < |path| ==> !IsFork(avail, LinkOf(avail, path, i))
  }

  lemma {:induction false} ClosedWalkHasChain(avail: Visible, cur: Address, seen: set<Address>) returns (path: seq<Address>)
    requires Walk(avail, Some(cur), seen) == Closed
    ensures IsChain(avail, path) && path[0] == cur && ForkFree(avail, path)
    decreases avail.Keys - seen
  {
    var prev := avail[cur].content.prev;
    if prev == None {
      path := [cur];
    } else {
      var rest := ClosedWalkHasChain(avail, prev.value, seen + {cur});
      path := [cur] + rest;
      assert forall i :: 0 < i < |path| ==> LinkOf(avail, path, i) == LinkOf(avail, rest, i - 1);
    }
  }

  lemma {:induction false} ChainsAreDeterministic(avail: Visible, p: seq<Address>, q: seq<Address>, i: nat, j: nat)
    requires IsChain(avail, p) && IsChain(avail, q) && i < |p| && j < |q| && p[i] == q[j]
    ensures |p| - i == |q| - j
    decreases |p| - i
  {
    assert LinkOf(avail, p, i) == LinkOf(avail, q, j);
    if i + 1 < |p| {
      ChainsAreDeterministic(avail, p, q, i + 1, j + 1);
    }
  }

  /** A chain never returns to a manifest. */
  lemma {:induction false} ChainIsAcyclic(avail: Visible, p: seq<Address>, i: nat, j: nat)
    requires IsChain(avail, p) && i < j < |p|
    ensures p[i] != p[j]
  {
    if p[i] == p[j] {
      ChainsAreDeterministic(avail, p, p, i, j);
    }
  }

  lemma {:induction false} ChainClosesWalk(avail: Visible, path: seq<Address>, k: nat, seen: set<Address>)
    requires IsChain(avail, path) && ForkFree(avail, path) && k < |path|
    requires forall i :: k <= i < |path| ==> path[i] !in seen
    ensures Walk(avail, Some(path[k]), seen) == Closed
    decreases |path| - k
  {
    assert LinkOf(avail, path, k) == avail[path[k]].content.prev;
    if k + 1 < |path| {
      forall i | k + 1 <= i < |path|
        ensures path[i] != path[k]
      {
        ChainIsAcyclic(avail, path, k, i);
      }
      ChainClosesWalk(avail, path, k + 1, seen + {path[k]});
    }
  }

  lemma {:induction false} CandidateIsEarliest(cc: AddressOf, ms: seq<Manifest>, target: string)
    ensures var avail := Available(cc, ms);
      match Candidate(cc, ms, target)
      case None => forall a :: a in avail ==> target !in avail[a].contains
      case Some(c) => c in avail && target in avail[c].contains
                      && forall a :: a in avail && target in avail[a].contains ==> avail[c].anchorTime <= avail[a].anchorTime
  {
    var avail := Available(cc, ms);
    var containers := Containers(avail, Addresses(cc, ms), target);
    if containers != [] {
      SortFindsLeast(ByAnchor(avail), containers);
    }
  }

  lemma {:induction false} ContainersKeepOrder(avail: Visible, order: seq<Address>, target: string, a: Address, b: Address)
    requires forall i :: 0 <= i < |order| ==> order[i] in avail
    requires a != b && b in avail && target in avail[b].contains && Leads(Containers(avail, order, target), a, b)
    ensures Leads(order, a, b)
  {
    var cs := Containers(avail, order, target);
    if order[0] == a {
      assert order[..0] == [];
    } else {
      var rest := Containers(avail, order[1..], target);
      var i :| 0 <= i < |cs| && cs[i] == a && b !in cs[..i];
      if target in avail[order[0]].contains {
        assert cs == [order[0]] + rest && cs[..i][0] == order[0];
        assert rest[i - 1] == a && cs[..i] == [order[0]] + rest[..i - 1];
      } else {
        assert cs == rest;
      }
      ContainersKeepOrder(avail, order[1..], target, a, b);
      LeadsLater(order, a, b);
    }
  }

  /** The first of two addresses is that of an available manifest, and none before it has the other address. */
  ghost predicate SeenFirst(cc: AddressOf, ms: seq<Manifest>, a: Address, b: Address) {
    exists i :: 0 <= i < |ms| && ms[i].available && cc(ms[i].content) == a
      && forall j :: 0 <= j < i && ms[j].available ==> cc(ms[j].content) != b
  }

  lemma {:induction false} AddressesInOrder(cc: AddressOf, ms: seq<Manifest>, a: Address, b: Address)
    requires Leads(Addresses(cc, ms), a, b)
    ensures SeenFirst(cc, ms, a, b)
  {
    var k := |ms| - 1;
    var front := ms[..k];
    var before, all := Addresses(cc, front), Addresses(cc, ms);
    var i :| 0 <= i < |all| && all[i] == a && b !in all[..i];
    if i < |before| {
      assert all[..i] == before[..i];
      AddressesInOrder(cc, front, a, b);
      var n :| 0 <= n < |front| && front[n].available && cc(front[n].content) == a
               && forall j :: 0 <= j < n && front[j].available ==> cc(front[j].content) != b;
      assert ms[n].available && cc(ms[n].content) == a;
      assert forall j :: 0 <= j < n ==> ms[j] == front[j];
    } else {
      assert all[..i] == before;
      AvailableExactly(cc, front, b);
      assert forall j :: 0 <= j < k ==> ms[j] == front[j];
      assert ms[k].available && cc(ms[k].content) == a;
    }
  }

  /** Of the containers with the earliest anchor time, the candidate is the one that was seen first. */
  lemma {:induction false} CandidateIsSeenFirst(cc: AddressOf, ms: seq<Manifest>, target: string, b: Address)
    requires var avail, candidate := Available(cc, ms), Candidate(cc, ms, target);
      candidate.Some? && b in avail && b != candidate.value && target in avail[b].contains
    ensures var avail, c := Available(cc, ms), Candidate(cc, ms, target).value;
      && c in avail && avail[c].anchorTime <= avail[b].anchorTime
      && (avail[c].anchorTime == avail[b].anchorTime ==> SeenFirst(cc, ms, c, b))
  {
    var avail, c := Available(cc, ms), Candidate(cc, ms, target).value;
    CandidateIsEarliest(cc, ms, target);
    if avail[c].anchorTime == avail[b].anchorTime {
      var order := Addresses(cc, ms);
      SortFindsFirstLeast(ByAnchor(avail), Containers(avail, order, target), b);
      ContainersKeepOrder(avail, order, target, c, b);
      AddressesInOrder(cc, ms, c, b);
    }
  }

  /** A verdict is "resolved" exactly when the earliest visible container has a complete chain without forks. */
  lemma {:induction false} ResolvedExactly(cc: AddressOf, ms: seq<Manifest>, target: string)
    ensures var avail, candidate := Available(cc, ms), Candidate(cc, ms, target);
      Resolve(cc, ms, target).Resolved?
      <==> candidate.Some? && exists path :: IsChain(avail, path) && path[0] == candidate.value && ForkFree(avail, path)
  {
    var avail, candidate := Available(cc, ms), Candidate(cc, ms, target);
    if Resolve(cc, ms, target).Resolved? {
      var path := ClosedWalkHasChain(avail, candidate.value, {});
    }
    if candidate.Some? {
      if path :| IsChain(avail, path) && path[0] == candidate.value && ForkFree(avail, path) {
        ChainClosesWalk(avail, path, 0, {});
      }
    }
  }

  /** A resolved time is the least anchor time of all the manifests that contain the target. */
  lemma {:induction false} ResolvedTimeIsEarliest(cc: AddressOf, ms: seq<Manifest>, target: string, t: int)
    requires Resolve(cc, ms, target) == Resolved(t)
    ensures var avail := Available(cc, ms);
      && (exists a :: a in avail && target in avail[a].contains && avail[a].anchorTime == t)
      && (forall a :: a in avail && target in avail[a].contains ==> t <= avail[a].anchorTime)
  {
    CandidateIsEarliest(cc, ms, target);
  }

  lemma {:induction false} NotCoveredExactly(cc: AddressOf, ms: seq<Manifest>, target: string)
    ensures Resolve(cc, ms, target) == NotCovered <==>
            forall a :: a in Available(cc, ms) ==> target !in Available(cc, ms)[a].contains
  {
    CandidateIsEarliest(cc, ms, target);
  }

  /** A path of links that ends at a manifest whose own link is a fork, the first on the path. */
  ghost predicate LeadsToFork(avail: Visible, path: seq<Address>) {
    && path != []
    && (forall i :: 0 <= i < |path| ==> path[i] in avail)
    && (forall i :: 0 <= i < |path| - 1 ==> LinkOf(avail, path, i) == Some(path[i + 1]) && !IsFork(avail, LinkOf(avail, path, i)))
    && IsFork(avail, LinkOf(avail, path, |path| - 1))
  }

  lemma {:induction false} ForkedWalkHasPath(avail: Visible, cur: Address, seen: set<Address>) returns (path: seq<Address>)
    requires Walk(avail, Some(cur), seen) == Forked
    ensures LeadsToFork(avail, path) && path[0] == cur
    decreases avail.Keys - seen
  {
    var prev := avail[cur].content.prev;
    if IsFork(avail, prev) {
      path := [cur];
    } else {
      var rest := ForkedWalkHasPath(avail, prev.value, seen + {cur});
      path := [cur] + rest;
      assert forall i :: 0 < i < |path| ==> LinkOf(avail, path, i) == LinkOf(avail, rest, i - 1);
    }
  }

  /** Such a path repeats nothing: a repetition would bring the fork forward. */
  lemma {:induction false} PathToForkIsAcyclic(avail: Visible, p: seq<Address>, i: nat, j: nat)
    requires LeadsToFork(avail, p) && i < j < |p|
    ensures p[i] != p[j]
    decreases |p| - j
  {
    if p[i] == p[j] {
      assert LinkOf(avail, p, i) == LinkOf(avail, p, j);
      if j + 1 < |p| {
        PathToForkIsAcyclic(avail, p, i + 1, j + 1);
      }
    }
  }

  lemma {:induction false} PathForksWalk(avail: Visible, path: seq<Address>, k: nat, seen: set<Address>)
    requires LeadsToFork(avail, path) && k < |path|
    requires forall i :: k <= i < |path| ==> path[i] !in seen
    ensures Walk(avail, Some(path[k]), seen) == Forked
    decreases |path| - k
  {
    assert LinkOf(avail, path, k) == avail[path[k]].content.prev;
    if k + 1 < |path| {
      forall i | k + 1 <= i < |path|
        ensures path[i] != path[k]
      {
        PathToForkIsAcyclic(avail, path, k, i);
      }
      PathForksWalk(avail, path, k + 1, seen + {path[k]});
    }
  }

  /** A fork is reported exactly when the candidate's links lead to one through manifests that can all be recomputed. */
  lemma {:induction false} ForkExactly(cc: AddressOf, ms: seq<Manifest>, target: string)
    ensures var avail, candidate := Available(cc, ms), Candidate(cc, ms, target);
      Resolve(cc, ms, target) == ManifestFork
      <==> candidate.Some? && exists path :: LeadsToFork(avail, path) && path[0] == candidate.value
  {
    var avail, candidate := Available(cc, ms), Candidate(cc, ms, target);
    if Resolve(cc, ms, target) == ManifestFork {
      var path := ForkedWalkHasPath(avail, candidate.value, {});
    }
    if candidate.Some? {
      if path :| LeadsToFork(avail, path) && path[0] == candidate.value {
        PathForksWalk(avail, path, 0, {});
      }
    }
  }

  // ---------- linear history ----------

  /** Counted from genesis, a fork-free chain and any other chain agree as far as both go. */
  lemma {:induction false} ChainsAgreeFromGenesis(avail: Visible, p: seq<Address>, q: seq<Address>, k: nat)
    requires IsChain(avail, p) && ForkFree(avail, p) && IsChain(avail, q) && k < |p| && k < |q|
    ensures p[|p| - 1 - k] == q[|q| - 1 - k]
  {
    var i, j := |p| - 1 - k, |q| - 1 - k;
    if k > 0 {
      ChainsAgreeFromGenesis(avail, p, q, k - 1);
    }
    assert LinkOf(avail, p, i) == LinkOf(avail, q, j);
    assert !IsFork(avail, LinkOf(avail, p, i));
  }

  /** One of the chains is the end of the other. */
  lemma {:induction false} ChainsAreNested(avail: Visible, p: seq<Address>, q: seq<Address>)
    requires IsChain(avail, p) && ForkFree(avail, p) && IsChain(avail, q)
    ensures |q| <= |p| ==> q == p[|p| - |q|..]
    ensures |p| <= |q| ==> p == q[|q| - |p|..]
  {
    forall i | 0 <= i < |q| && |q| <= |p|
      ensures q[i] == p[|p| - |q| + i]
    {
      ChainsAgreeFromGenesis(avail, p, q, |q| - 1 - i);
    }
    forall i | 0 <= i < |p| && |p| <= |q|
      ensures p[i] == q[|q| - |p| + i]
    {
      ChainsAgreeFromGenesis(avail, p, q, |p| - 1 - i);
    }
  }

  /**
   A resolved verdict means linear history: every available manifest with complete ancestry is an
   ancestor or a descendant of the chosen container.
   */
  lemma {:induction false} ResolvedHistoryIsLinear(cc: AddressOf, ms: seq<Manifest>, target: string, q: seq<Address>)
    returns (p: seq<Address>)
    requires Resolve(cc, ms, target).Resolved? && IsChain(Available(cc, ms), q)
    ensures Candidate(cc, ms, target).Some? && IsChain(Available(cc, ms), p) && p[0] == Candidate(cc, ms, target).value
    ensures q[0] in p || p[0] in q
  {
    var avail := Available(cc, ms);
    p := ClosedWalkHasChain(avail, Candidate(cc, ms, target).value, {});
    ChainsAreNested(avail, p, q);
  }

  /** A manifest is anchored after the one it follows. */
  ghost predicate AnchorsIncrease(avail: Visible) {
    forall a :: a in avail && avail[a].content.prev.Some? && avail[a].content.prev.value in avail ==>
      avail[avail[a].content.prev.value].anchorTime < avail[a].anchorTime
  }

  lemma {:induction false} AncestorsAreEarlier(avail: Visible, p: seq<Address>, i: nat)
    requires IsChain(avail, p) && AnchorsIncrease(avail) && 0 < i < |p|
    ensures avail[p[i]].anchorTime < avail[p[0]].anchorTime
  {
    assert LinkOf(avail, p, i - 1) == Some(p[i]);
    if i > 1 {
      AncestorsAreEarlier(avail, p, i - 1);
    }
  }

  /** An ancestor of the chosen container contains the target exactly when one does that is not anchored before it. */
  lemma {:induction false} AncestorContainsExactly(cc: AddressOf, ms: seq<Manifest>, target: string, p: seq<Address>)
    requires Candidate(cc, ms, target).Some?
    requires IsChain(Available(cc, ms), p) && p[0] == Candidate(cc, ms, target).value
    ensures var avail := Available(cc, ms);
      (exists i :: 0 < i < |p| && target in avail[p[i]].contains)
      <==> exists i :: 0 < i < |p| && target in avail[p[i]].contains && avail[p[0]].anchorTime <= avail[p[i]].anchorTime
  {
    CandidateIsEarliest(cc, ms, target);
  }

  /** The chosen container is the first of its chain, where anchor times increase: no ancestor contains the target. */
  lemma {:induction false} NoAncestorContains(cc: AddressOf, ms: seq<Manifest>, target: string, p: seq<Address>, i: nat)
    requires AnchorsIncrease(Available(cc, ms)) && Candidate(cc, ms, target).Some?
    requires IsChain(Available(cc, ms), p) && p[0] == Candidate(cc, ms, target).value && 0 < i < |p|
    ensures target !in Available(cc, ms)[p[i]].contains
  {
    CandidateIsEarliest(cc, ms, target);
    AncestorsAreEarlier(Available(cc, ms), p, i);
  }

  // ---------- seeing more ----------

  /** Whatever one verifier sees the other sees too. */
  ghost predicate SeesAsMuch(few: Visible, more: Visible) {
    forall a :: a in few ==> a in more && more[a] == few[a]
  }

  /** A container that descends from c claims to be anchored before it. */
  ghost predicate Backdated(avail: Visible, target: string, c: Address, q: seq<Address>) {
    && IsChain(avail, q) && c in avail && c in q[1..]
    && target in avail[q[0]].contains && avail[q[0]].anchorTime < avail[c].anchorTime
  }

  lemma {:induction false} ChainStays(few: Visible, more: Visible, q: seq<Address>)
    requires SeesAsMuch(few, more) && IsChain(few, q)
    ensures IsChain(more, q)
  {
    assert forall i :: 0 <= i < |q| ==> LinkOf(more, q, i) == LinkOf(few, q, i);
  }

  /** A container that only the better verifier sees, anchored earlier, descends from the other's choice. */
  lemma {:induction false} EarlierDescends(few: Visible, more: Visible, target: string, p: seq<Address>, q: seq<Address>)
    requires SeesAsMuch(few, more) && IsChain(few, q) && IsChain(more, p) && ForkFree(more, p)
    requires forall a :: a in few && target in few[a].contains ==> few[q[0]].anchorTime <= few[a].anchorTime
    requires target in more[p[0]].contains && more[p[0]].anchorTime < more[q[0]].anchorTime
    ensures q[0] in p[1..]
  {
    ChainStays(few, more, q);
    NestedHeads(more, p, q);
    assert p[0] !in few;
    assert p[0] !in q;
  }

  lemma {:induction false} NestedHeads(avail: Visible, p: seq<Address>, q: seq<Address>)
    requires IsChain(avail, p) && ForkFree(avail, p) && IsChain(avail, q)
    ensures |p| <= |q| ==> p[0] in q
    ensures |q| < |p| ==> q[0] in p[1..]
  {
    ChainsAreNested(avail, p, q);
    if |q| < |p| {
      assert p[1..][|p| - |q| - 1] == p[|p| - |q|] == p[|p| - |q|..][0];
    } else {
      assert q[|q| - |p|] == q[|q| - |p|..][0];
    }
  }

  /**
   Seeing more manifests moves a resolved answer exactly when they hold a backdated container: one that
   descends from the container chosen before and claims an earlier anchor time.
   */
  lemma {:induction false} ResolvedMovesExactly(cc: AddressOf, few: seq<Manifest>, more: seq<Manifest>, target: string)
    requires Resolve(cc, few, target).Resolved? && Resolve(cc, more, target).Resolved?
    requires SeesAsMuch(Available(cc, few), Available(cc, more))
    ensures Resolve(cc, few, target) != Resolve(cc, more, target) <==>
            exists q :: Backdated(Available(cc, more), target, Candidate(cc, few, target).value, q)
  {
    var small, large := Available(cc, few), Available(cc, more);
    var c, d := Candidate(cc, few, target).value, Candidate(cc, more, target).value;
    CandidateIsEarliest(cc, few, target);
    CandidateIsEarliest(cc, more, target);
    assert large[d].anchorTime <= large[c].anchorTime;
    if large[d].anchorTime < large[c].anchorTime {
      var q := ClosedWalkHasChain(small, c, {});
      var p := ClosedWalkHasChain(large, d, {});
      EarlierDescends(small, large, target, p, q);
      assert Backdated(large, target, c, p);
    }
  }

  lemma {:induction false} NothingBackdated(avail: Visible, target: string, c: Address, q: seq<Address>)
    requires AnchorsIncrease(avail)
    ensures !Backdated(avail, target, c, q)
  {
    if IsChain(avail, q) && c in q[1..] {
      var i :| 0 <= i < |q| - 1 && q[1..][i] == c;
      AncestorsAreEarlier(avail, q, i + 1);
    }
  }

  /**
   Where anchor times increase along the links, seeing more may leave the question open, but it never moves
   an answer: two resolved verdicts for one target agree.
   */
  lemma {:induction false} ResolvedNeverMoves(cc: AddressOf, few: seq<Manifest>, more: seq<Manifest>, target: string)
    requires Resolve(cc, few, target).Resolved? && Resolve(cc, more, target).Resolved?
    requires SeesAsMuch(Available(cc, few), Available(cc, more)) && AnchorsIncrease(Available(cc, more))
    ensures Resolve(cc, few, target) == Resolve(cc, more, target)
  {
    ResolvedMovesExactly(cc, few, more, target);
    forall q
      ensures !Backdated(Available(cc, more), target, Candidate(cc, few, target).value, q)
    {
      NothingBackdated(Available(cc, more), target, Candidate(cc, few, target).value, q);
    }
  }

  /** The code checks no such order: one backdated successor moves the answer, and its ancestor contains the target. */
  lemma {:induction false} BackdatedSuccessorMovesTheAnswer(cc: AddressOf, first: Manifest, second: Manifest, target: string)
    requires first.available && second.available && target in first.contains && target in second.contains
    requires first.content.prev == None && second.content.prev == Some(cc(first.content))
    requires cc(first.content) != cc(second.content) && second.anchorTime < first.anchorTime
    ensures Resolve(cc, [first], target) == Resolved(first.anchorTime)
    ensures Resolve(cc, [first, second], target) == Resolved(second.anchorTime)
  {
    var a, b := cc(first.content), cc(second.content);
    var one, two := [first], [first, second];
    assert one[..0] == [] && two[..1] == one;
    assert Available(cc, one) == map[a := first];
    assert Available(cc, two) == map[a := first, b := second];
    ResolvedAt(cc, one, target, [a]);
    ResolvedAt(cc, two, target, [b, a]);
  }

  /** A fork-free chain from a container earlier than all others settles the verdict. */
  lemma {:induction false} ResolvedAt(cc: AddressOf, ms: seq<Manifest>, target: string, path: seq<Address>)
    requires var avail := Available(cc, ms);
      && IsChain(avail, path) && ForkFree(avail, path) && target in avail[path[0]].contains
      && forall a :: a in avail && a != path[0] && target in avail[a].contains ==> avail[path[0]].anchorTime < avail[a].anchorTime
    ensures Resolve(cc, ms, target) == Resolved(Available(cc, ms)[path[0]].anchorTime)
  {
    CandidateIsEarliest(cc, ms, target);
    ResolvedExactly(cc, ms, target);
  }
}
