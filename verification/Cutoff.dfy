/**
 Cutoff enforcement: which key binding governs an artifact at its anchor time, given delayed
 activations and revocations, and whether the artifact is admitted.
 */
module Cutoff {
  import opened Wrappers

  datatype Binding = Binding(name: string, key: string, address: Option<string>, anchor: Option<int>,
                             activatedAt: Option<int>, revokedAt: Option<int>)
  datatype Revocation = Revocation(address: string, at: int)
  datatype Companion = Companion(present: bool, valid: Option<bool>, key: Option<string>)
  datatype Artifact = Artifact(at: int, anchored: Option<bool>, companion: Companion)

  datatype Evidence = Verified | Refuted | Unverifiable
  datatype Rule =
    | ChainUnavailable | NoBindingsInChain | ChainMalformed | BindingAnchorUnavailable
    | PreBaselineLegacyAdmit | NoInForceBinding
    | AnchoredBeforeCutoff | ValidPqCompanion | CompanionUnchecked | AnchorStatusUnknown
    | NoValidCompanion(wrongKey: bool)

  /** The governing binding by name and key, the rule and its evidence; only verified evidence admits. */
  datatype Verdict = Verdict(governor: Option<(string, string)>, rule: Rule, evidence: Evidence)
  {
    predicate Admits() {
      evidence == Verified
    }
  }

  // ---------- activation and revocation ----------

  /** The time from which a binding governs: its anchor, or a later activation. */
  function ActivationOf(b: Binding): (t: int)
    requires b.anchor.Some?
    ensures t >= b.anchor.value
  {
    if b.activatedAt.Some? && b.activatedAt.value > b.anchor.value then b.activatedAt.value else b.anchor.value
  }

  /** Activated by the time, and not excluded by a revocation at or before it. */
  predicate InForce(b: Binding, at: int) {
    b.anchor.Some? && ActivationOf(b) <= at && (b.revokedAt.Some? ==> at < b.revokedAt.value)
  }

  function Eligible(bs: seq<Binding>, at: int): (r: seq<Binding>)
    ensures AllAnchored(r)
  {
    if bs == [] then []
    else Eligible(bs[..|bs| - 1], at) + if InForce(bs[|bs| - 1], at) then [bs[|bs| - 1]] else []
  }

  predicate AllAnchored(bs: seq<Binding>) {
    forall i :: 0 <= i < |bs| ==> bs[i].anchor.Some?
  }

  lemma {:induction false} EligibleExactly(bs: seq<Binding>, at: int, b: Binding)
    ensures b in Eligible(bs, at) <==> b in bs && InForce(b, at)
  {
    if bs != [] {
      EligibleExactly(bs[..|bs| - 1], at, b);
      assert bs == bs[..|bs| - 1] + [bs[|bs| - 1]];
    }
  }

  /** The first of the latest activations. */
  function LatestActivated(bs: seq<Binding>): (r: Option<Binding>)
    requires AllAnchored(bs)
    ensures r == None <==> bs == []
    ensures r.Some? ==> r.value.anchor.Some?
  {
    if bs == [] then None
    else
      var before := LatestActivated(bs[..|bs| - 1]);
      if before == None || ActivationOf(bs[|bs| - 1]) > ActivationOf(before.value) then Some(bs[|bs| - 1]) else before
  }

  lemma {:induction false} LatestIsLatest(bs: seq<Binding>, b: Binding)
    requires AllAnchored(bs) && b in bs
    ensures LatestActivated(bs).Some? && LatestActivated(bs).value in bs
    ensures ActivationOf(b) <= ActivationOf(LatestActivated(bs).value)
  {
    var k := |bs| - 1;
    assert bs == bs[..k] + [bs[k]];
    if b in bs[..k] {
      LatestIsLatest(bs[..k], b);
    } else if k > 0 {
      LatestIsLatest(bs[..k], bs[0]);
    }
  }

  function Governor(bs: seq<Binding>, at: int): Option<Binding> {
    LatestActivated(Eligible(bs, at))
  }

  /** The governor is in force and no binding in force activated later; there is none only if none is in force. */
  lemma {:induction false} GovernorIsLatestInForce(bs: seq<Binding>, at: int)
    ensures match Governor(bs, at)
      case None => forall b :: b in bs ==> !InForce(b, at)
      case Some(g) => g in bs && InForce(g, at) && forall b :: b in bs && InForce(b, at) ==> ActivationOf(b) <= ActivationOf(g)
  {
    var eligible := Eligible(bs, at);
    forall b | b in bs && InForce(b, at)
      ensures Governor(bs, at).Some? && ActivationOf(b) <= ActivationOf(Governor(bs, at).value)
    {
      EligibleExactly(bs, at, b);
      LatestIsLatest(eligible, b);
    }
    if eligible != [] {
      LatestIsLatest(eligible, eligible[0]);
      EligibleExactly(bs, at, Governor(bs, at).value);
    }
  }

  function ForceAt(at: int): Binding -> bool {
    b => InForce(b, at)
  }

  /** Of the anchored bindings picked, the one at i activates last, and it is the first to do so. */
  ghost predicate Leads(bs: seq<Binding>, picked: Binding -> bool, i: int) {
    && 0 <= i < |bs| && picked(bs[i]) && bs[i].anchor.Some?
    && forall j :: 0 <= j < |bs| && picked(bs[j]) && bs[j].anchor.Some? ==>
         ActivationOf(bs[j]) <= ActivationOf(bs[i]) && (j < i ==> ActivationOf(bs[j]) < ActivationOf(bs[i]))
  }

  /** The governor stands at the one position that leads those in force. */
  lemma {:induction false} GovernorLeads(bs: seq<Binding>, at: int) returns (i: int)
    ensures Governor(bs, at).Some? ==> Leads(bs, ForceAt(at), i) && bs[i] == Governor(bs, at).value
    ensures Governor(bs, at) == None ==> forall j :: 0 <= j < |bs| ==> !InForce(bs[j], at)
  {
    i := -1;
    if bs != [] {
      var front, k := bs[..|bs| - 1], |bs| - 1;
      i := GovernorLeads(front, at);
      assert forall j :: 0 <= j < k ==> front[j] == bs[j];
      var before, all := Eligible(front, at), Eligible(bs, at);
      if InForce(bs[k], at) {
        assert all == before + [bs[k]] && all[..|all| - 1] == before && all[|all| - 1] == bs[k];
        if before == [] || ActivationOf(bs[k]) > ActivationOf(Governor(front, at).value) {
          i := k;
        }
      } else {
        assert all == before;
      }
    }
  }

  /** The loop that collects the eligible bindings. */
  method ResolveInForce(bs: seq<Binding>, at: int) returns (r: Option<Binding>)
    ensures r == Governor(bs, at)
  {
    var eligible: seq<Binding> := [];
    for i := 0 to |bs|
      invariant eligible == Eligible(bs[..i], at)
    {
      var b := bs[i];
      assert bs[..i + 1][..i] == bs[..i];
      if b.anchor == None {
        continue;
      }
      if ActivationOf(b) > at {
        continue;
      }
      if b.revokedAt.Some? && at >= b.revokedAt.value {
        continue;
      }
      eligible := eligible + [b];
    }
    assert bs[..|bs|] == bs;
    return LatestActivated(eligible);
  }

  // ---------- applying revocations ----------

  /** The earliest revocation of an address. */
  function EarliestRevocation(rs: seq<Revocation>, address: string): (t: Option<int>)
    ensures t == None <==> forall r :: r in rs ==> r.address != address
    ensures t.Some? ==> Revocation(address, t.value) in rs && forall r :: r in rs && r.address == address ==> t.value <= r.at
  {
    if rs == [] then None
    else
      var r := rs[|rs| - 1];
      var before := EarliestRevocation(rs[..|rs| - 1], address);
      assert rs == rs[..|rs| - 1] + [r];
      if r.address == address && (before == None || r.at < before.value) then Some(r.at) else before
  }

  /** A revocation replaces whatever revocation time the binding carried. */
  function Revoke(b: Binding, rs: seq<Revocation>): Binding {
    if b.address.Some? && EarliestRevocation(rs, b.address.value).Some?
    then b.(revokedAt := EarliestRevocation(rs, b.address.value))
    else b
  }

  function ApplyRevocations(bs: seq<Binding>, rs: seq<Revocation>): (r: seq<Binding>)
    ensures |r| == |bs|
  {
    seq(|bs|, i requires 0 <= i < |bs| => Revoke(bs[i], rs))
  }

  /** The loop that keeps the earliest time for each address; an unavailable chain stays unavailable. */
  method ComputeRevocations(bs: Option<seq<Binding>>, rs: seq<Revocation>) returns (r: Option<seq<Binding>>)
    ensures r == if bs == None then None else Some(ApplyRevocations(bs.value, rs))
  {
    if bs == None {
      return None;
    }
    if rs == [] {
      assert ApplyRevocations(bs.value, rs) == bs.value;
      return bs;
    }
    var earliest: map<string, int> := map[];
    for i := 0 to |rs|
      invariant forall a :: EarliestRevocation(rs[..i], a) == if a in earliest then Some(earliest[a]) else None
    {
      assert rs[..i + 1][..i] == rs[..i];
      var cc, t := rs[i].address, rs[i].at;
      if cc !in earliest || t < earliest[cc] {
        earliest := earliest[cc := t];
      }
    }
    assert rs[..|rs|] == rs;
    var out := seq(|bs.value|, i requires 0 <= i < |bs.value| =>
      var b := bs.value[i];
      if b.address.Some? && b.address.value in earliest then b.(revokedAt := Some(earliest[b.address.value])) else b);
    assert out == ApplyRevocations(bs.value, rs);
    return Some(out);
  }

  // ---------- the verdict ----------

  predicate ActivatedBeforeAnchor(b: Binding) {
    b.activatedAt.Some? && b.anchor.Some? && b.activatedAt.value < b.anchor.value
  }

  predicate Malformed(bs: seq<Binding>) {
    exists b :: b in bs && ActivatedBeforeAnchor(b)
  }

  /** The first of the least anchors. */
  function Baseline(bs: seq<Binding>): (r: Option<Binding>)
    ensures r.Some? ==> r.value.anchor.Some?
  {
    if bs == [] then None
    else
      var last := bs[|bs| - 1];
      var before := Baseline(bs[..|bs| - 1]);
      if last.anchor.Some? && (before == None || last.anchor.value < before.value.anchor.value) then Some(last) else before
  }

  lemma {:induction false} BaselineIsLeast(bs: seq<Binding>)
    ensures Baseline(bs) == None ==> forall b :: b in bs ==> b.anchor == None
    ensures Baseline(bs).Some? ==> Baseline(bs).value in bs
    ensures Baseline(bs).Some? ==> forall b :: b in bs && b.anchor.Some? ==> Baseline(bs).value.anchor.value <= b.anchor.value
  {
    if bs != [] {
      BaselineIsLeast(bs[..|bs| - 1]);
      assert bs == bs[..|bs| - 1] + [bs[|bs| - 1]];
    }
  }

  /** The binding at i has the least anchor, and is the first to have it. */
  ghost predicate IsBaseline(bs: seq<Binding>, i: int) {
    && 0 <= i < |bs| && bs[i].anchor.Some?
    && forall j :: 0 <= j < |bs| && bs[j].anchor.Some? ==>
         bs[i].anchor.value <= bs[j].anchor.value && (j < i ==> bs[i].anchor.value < bs[j].anchor.value)
  }

  lemma {:induction false} BaselineStands(bs: seq<Binding>) returns (i: int)
    ensures Baseline(bs).Some? ==> IsBaseline(bs, i) && bs[i] == Baseline(bs).value
    ensures Baseline(bs) == None ==> forall j :: 0 <= j < |bs| ==> bs[j].anchor == None
  {
    i := -1;
    if bs != [] {
      var front, k := bs[..|bs| - 1], |bs| - 1;
      i := BaselineStands(front);
      assert forall j :: 0 <= j < k ==> front[j] == bs[j];
      if Baseline(bs) != Baseline(front) {
        i := k;
      }
    }
  }

  function Governed(b: Binding, cutoff: int, a: Artifact): Verdict {
    var governor := Some((b.name, b.key));
    var c := a.companion;
    var checkedValid := c.present && c.valid == Some(true);
    if a.anchored == Some(true) && a.at < cutoff then Verdict(governor, AnchoredBeforeCutoff, Verified)
    else if checkedValid && c.key == Some(b.key) then Verdict(governor, ValidPqCompanion, Verified)
    else if c.present && c.valid == None then Verdict(governor, CompanionUnchecked, Unverifiable)
    else if !c.present && a.anchored == None && a.at < cutoff then Verdict(governor, AnchorStatusUnknown, Unverifiable)
    else Verdict(governor, NoValidCompanion(checkedValid), Refuted)
  }

  function Admit(chain: Option<seq<Binding>>, cutoff: int, a: Artifact): Verdict {
    if chain == None then Verdict(None, ChainUnavailable, Unverifiable)
    else
      var bs := chain.value;
      if bs == [] then Verdict(None, NoBindingsInChain, Refuted)
      else if Malformed(bs) then Verdict(None, ChainMalformed, Unverifiable)
      else
        var governor := Governor(bs, a.at);
        if governor.Some? then Governed(governor.value, cutoff, a)
        else
          var baseline := Baseline(bs);
          if baseline == None then Verdict(None, BindingAnchorUnavailable, Unverifiable)
          else if a.at < ActivationOf(baseline.value) then Verdict(None, PreBaselineLegacyAdmit, Verified)
          else Verdict(None, NoInForceBinding, Refuted)
  }

  // ---------- what revocations do ----------

  /** A binding would govern at the time but for a revocation at or before it. */
  predicate RevokedBy(b: Binding, at: int) {
    b.anchor.Some? && ActivationOf(b) <= at && b.revokedAt.Some? && b.revokedAt.value <= at
  }

  /** The rule "no in-force binding" is reached only when a revocation ended an authority that would have governed. */
  lemma {:induction false} NoInForceMeansRevoked(bs: seq<Binding>, cutoff: int, a: Artifact)
    requires Admit(Some(bs), cutoff, a).rule == NoInForceBinding
    ensures exists b :: b in bs && RevokedBy(b, a.at)
    ensures forall b :: b in bs && b.anchor.Some? && ActivationOf(b) <= a.at ==> RevokedBy(b, a.at)
  {
    GovernorIsLatestInForce(bs, a.at);
    BaselineIsLeast(bs);
    assert RevokedBy(Baseline(bs).value, a.at);
  }

  /** In a chain without revocation times of its own, that is one of the revocations applied. */
  lemma {:induction false} NoInForceMeansRevocationApplied(bs: seq<Binding>, rs: seq<Revocation>, cutoff: int, a: Artifact)
    requires forall b :: b in bs ==> b.revokedAt == None
    requires Admit(Some(ApplyRevocations(bs, rs)), cutoff, a).rule == NoInForceBinding
    ensures exists b, r :: b in bs && r in rs && b.address == Some(r.address) && r.at <= a.at
                           && b.anchor.Some? && ActivationOf(b) <= a.at
  {
    var revoked := ApplyRevocations(bs, rs);
    NoInForceMeansRevoked(revoked, cutoff, a);
    var c :| c in revoked && RevokedBy(c, a.at);
    var i :| 0 <= i < |revoked| && revoked[i] == c;
    var b := bs[i];
    assert b in bs && c == Revoke(b, rs);
    assert Revocation(b.address.value, c.revokedAt.value) in rs;
  }

  lemma {:induction false} BaselineIgnoresRevocation(bs: seq<Binding>, cs: seq<Binding>)
    requires |bs| == |cs| && forall i :: 0 <= i < |bs| ==> cs[i] == bs[i].(revokedAt := cs[i].revokedAt)
    ensures Baseline(bs).Some? <==> Baseline(cs).Some?
    ensures Baseline(bs).Some? ==> Baseline(cs).value == Baseline(bs).value.(revokedAt := Baseline(cs).value.revokedAt)
  {
    if bs != [] {
      BaselineIgnoresRevocation(bs[..|bs| - 1], cs[..|cs| - 1]);
    }
  }

  /** The same bindings, under whatever revocations. */
  ghost predicate SameBindings(bs: seq<Binding>, cs: seq<Binding>) {
    |bs| == |cs| && forall i :: 0 <= i < |bs| ==> cs[i] == bs[i].(revokedAt := cs[i].revokedAt)
  }

  lemma {:induction false} SameShape(bs: seq<Binding>, cs: seq<Binding>)
    requires SameBindings(bs, cs) && Malformed(bs)
    ensures Malformed(cs)
  {
    var b :| b in bs && ActivatedBeforeAnchor(b);
    var i :| 0 <= i < |bs| && bs[i] == b;
    assert cs[i] in cs && ActivatedBeforeAnchor(cs[i]);
  }

  /** A revocation of rs overwrites one that has ended an authority at or before the time. */
  predicate Reopens(b: Binding, rs: seq<Revocation>, at: int) {
    RevokedBy(b, at) && b.address.Some? && exists r :: r in rs && r.address == b.address.value
  }

  lemma {:induction false} ForceAfterRevocation(b: Binding, rs: seq<Revocation>, at: int)
    requires forall r :: r in rs ==> at < r.at
    ensures InForce(Revoke(b, rs), at) <==> InForce(b, at) || Reopens(b, rs, at)
  {
    if b.address.Some? {
      var t := EarliestRevocation(rs, b.address.value);
      if t.Some? {
        assert Revocation(b.address.value, t.value) in rs;
      }
    }
  }

  /** Revocations after a time leave every authority at that time as it was exactly when they reopen none. */
  lemma {:induction false} ForceKeptExactly(bs: seq<Binding>, rs: seq<Revocation>, at: int)
    requires forall r :: r in rs ==> at < r.at
    ensures (forall i :: 0 <= i < |bs| ==> (InForce(ApplyRevocations(bs, rs)[i], at) <==> InForce(bs[i], at)))
            <==> forall b :: b in bs ==> !Reopens(b, rs, at)
  {
    forall i | 0 <= i < |bs|
      ensures InForce(ApplyRevocations(bs, rs)[i], at) <==> InForce(bs[i], at) || Reopens(bs[i], rs, at)
    {
      ForceAfterRevocation(bs[i], rs, at);
    }
    if b :| b in bs && Reopens(b, rs, at) {
      var i :| 0 <= i < |bs| && bs[i] == b;
      assert !InForce(bs[i], at) && InForce(ApplyRevocations(bs, rs)[i], at);
    }
  }

  /** In force at the time, or reopened by the revocations. */
  function OpenAt(rs: seq<Revocation>, at: int): Binding -> bool {
    b => InForce(b, at) || Reopens(b, rs, at)
  }

  lemma {:induction false} LeadsAfterRevocation(bs: seq<Binding>, rs: seq<Revocation>, at: int, i: int)
    requires forall r :: r in rs ==> at < r.at
    ensures Leads(ApplyRevocations(bs, rs), ForceAt(at), i) <==> Leads(bs, OpenAt(rs, at), i)
  {
    var cs := ApplyRevocations(bs, rs);
    forall j | 0 <= j < |bs|
      ensures InForce(cs[j], at) <==> OpenAt(rs, at)(bs[j])
      ensures cs[j].anchor == bs[j].anchor && (bs[j].anchor.Some? ==> ActivationOf(cs[j]) == ActivationOf(bs[j]))
    {
      ForceAfterRevocation(bs[j], rs, at);
    }
  }

  /** Whoever leads after the revocations but was not reopened led before. */
  lemma {:induction false} LeaderNotReopened(bs: seq<Binding>, rs: seq<Revocation>, at: int, j: int)
    requires Leads(bs, OpenAt(rs, at), j) && !Reopens(bs[j], rs, at)
    ensures Leads(bs, ForceAt(at), j)
  {
  }

  /** The leader after the revocations carries the name and key of the leader before them. */
  ghost predicate NotDisplaced(bs: seq<Binding>, rs: seq<Revocation>, at: int) {
    forall j :: Leads(bs, OpenAt(rs, at), j) && Reopens(bs[j], rs, at) ==>
      exists i :: Leads(bs, ForceAt(at), i) && bs[i].name == bs[j].name && bs[i].key == bs[j].key
  }

  function NameAndKey(g: Option<Binding>): Option<(string, string)> {
    if g == None then None else Some((g.value.name, g.value.key))
  }

  lemma {:induction false} NobodyBefore(bs: seq<Binding>, rs: seq<Revocation>, at: int)
    requires forall r :: r in rs ==> at < r.at
    requires Governor(ApplyRevocations(bs, rs), at) == None
    ensures Governor(bs, at) == None && forall j :: !Leads(bs, OpenAt(rs, at), j)
  {
    var cs := ApplyRevocations(bs, rs);
    var i := GovernorLeads(bs, at);
    var j := GovernorLeads(cs, at);
    forall k | 0 <= k < |bs|
      ensures !InForce(bs[k], at) && !Reopens(bs[k], rs, at)
    {
      assert !InForce(cs[k], at);
      ForceAfterRevocation(bs[k], rs, at);
    }
  }

  /** The governor keeps its name and key exactly when no reopened binding displaces it. */
  lemma {:induction false} GovernorKeptExactly(bs: seq<Binding>, rs: seq<Revocation>, at: int)
    requires forall r :: r in rs ==> at < r.at
    ensures NameAndKey(Governor(ApplyRevocations(bs, rs), at)) == NameAndKey(Governor(bs, at)) <==> NotDisplaced(bs, rs, at)
  {
    var cs := ApplyRevocations(bs, rs);
    if Governor(cs, at) == None {
      NobodyBefore(bs, rs, at);
    } else {
      var j := GovernorLeads(cs, at);
      LeadsAfterRevocation(bs, rs, at, j);
      assert NameAndKey(Governor(cs, at)) == Some((bs[j].name, bs[j].key));
      KeptByLeader(bs, rs, at, j);
    }
  }

  lemma {:induction false} KeptByLeader(bs: seq<Binding>, rs: seq<Revocation>, at: int, j: int)
    requires Leads(bs, OpenAt(rs, at), j)
    ensures NameAndKey(Governor(bs, at)) == Some((bs[j].name, bs[j].key)) <==> NotDisplaced(bs, rs, at)
  {
    var i := GovernorLeads(bs, at);
    assert forall k :: Leads(bs, OpenAt(rs, at), k) ==> k == j;
    assert forall k :: Leads(bs, ForceAt(at), k) && Governor(bs, at).Some? ==> k == i;
    if !Reopens(bs[j], rs, at) {
      LeaderNotReopened(bs, rs, at, j);
    }
  }

  /** With one governor by name and key, all verdicts at the time are the same; with two, none is. */
  lemma {:induction false} VerdictByGovernor(bs: seq<Binding>, cs: seq<Binding>, cutoff: int, a: Artifact)
    requires SameBindings(bs, cs) && bs != [] && !Malformed(bs)
    ensures Admit(Some(cs), cutoff, a) == Admit(Some(bs), cutoff, a)
            <==> NameAndKey(Governor(cs, a.at)) == NameAndKey(Governor(bs, a.at))
  {
    BaselineIgnoresRevocation(bs, cs);
    assert !Malformed(cs) by {
      if Malformed(cs) {
        SameShape(cs, bs);
      }
    }
  }

  lemma {:induction false} RevokedChain(bs: seq<Binding>, rs: seq<Revocation>)
    ensures SameBindings(bs, ApplyRevocations(bs, rs))
    ensures Malformed(bs) ==> Malformed(ApplyRevocations(bs, rs))
  {
    if Malformed(bs) {
      SameShape(bs, ApplyRevocations(bs, rs));
    }
  }

  /**
   Revocations after a time change no verdict for the artifacts of that time exactly when none of the
   bindings they reopen displaces the governor; a malformed chain has one verdict anyway.
   */
  lemma {:induction false} VerdictsKeptExactly(bs: seq<Binding>, rs: seq<Revocation>, at: int)
    requires forall r :: r in rs ==> at < r.at
    ensures (forall cutoff, a: Artifact :: a.at == at ==> Admit(Some(ApplyRevocations(bs, rs)), cutoff, a) == Admit(Some(bs), cutoff, a))
            <==> Malformed(bs) || NotDisplaced(bs, rs, at)
  {
    var cs := ApplyRevocations(bs, rs);
    RevokedChain(bs, rs);
    if bs != [] && !Malformed(bs) {
      GovernorKeptExactly(bs, rs, at);
      forall cutoff, a: Artifact | a.at == at
        ensures Admit(Some(cs), cutoff, a) == Admit(Some(bs), cutoff, a) <==> NotDisplaced(bs, rs, at)
      {
        VerdictByGovernor(bs, cs, cutoff, a);
      }
      var probe := Artifact(at, None, Companion(false, None, None));
      assert Admit(Some(cs), 0, probe) == Admit(Some(bs), 0, probe) <==> NotDisplaced(bs, rs, at);
    } else if bs == [] {
      assert cs == [];
    }
  }

  /**
   Revocations never reach back: they change no verdict for an artifact anchored before all of them,
   provided they overwrite no revocation that had already ended an authority.
   */
  lemma {:induction false} RevocationsDoNotReachBack(bs: seq<Binding>, rs: seq<Revocation>, cutoff: int, a: Artifact)
    requires forall r :: r in rs ==> a.at < r.at
    requires forall b :: b in bs ==> !Reopens(b, rs, a.at)
    ensures Admit(Some(ApplyRevocations(bs, rs)), cutoff, a) == Admit(Some(bs), cutoff, a)
  {
    VerdictsKeptExactly(bs, rs, a.at);
    assert NotDisplaced(bs, rs, a.at) by {
      assert forall j :: 0 <= j < |bs| ==> bs[j] in bs;
    }
  }

  /** The proviso is needed: a later revocation that overwrites an earlier one reopens the time between them. */
  lemma {:induction false} OverwrittenRevocationReopens(b: Binding, at: int, cutoff: int)
    requires b.address.Some? && b.anchor.Some? && b.activatedAt == None && b.anchor.value <= at
    requires b.revokedAt.Some? && b.revokedAt.value <= at < cutoff
    ensures var a := Artifact(at, Some(true), Companion(false, None, None));
      var rs := [Revocation(b.address.value, at + 1)];
      && !Admit(Some([b]), cutoff, a).Admits()
      && Admit(Some(ApplyRevocations([b], rs)), cutoff, a).Admits()
  {
    var a := Artifact(at, Some(true), Companion(false, None, None));
    OneRevocation(b, at + 1);
    OneBinding(b, cutoff, a);
    OneBinding(b.(revokedAt := Some(at + 1)), cutoff, a);
  }

  lemma {:induction false} OneRevocation(b: Binding, t: int)
    requires b.address.Some?
    ensures ApplyRevocations([b], [Revocation(b.address.value, t)]) == [b.(revokedAt := Some(t))]
  {
    var rs := [Revocation(b.address.value, t)];
    assert EarliestRevocation(rs, b.address.value) == Some(t) by {
      assert rs[0] in rs;
    }
  }

  /** A chain of one activated binding admits what is anchored before the cutoff as long as the binding is in force. */
  lemma {:induction false} OneBinding(b: Binding, cutoff: int, a: Artifact)
    requires b.anchor.Some? && b.activatedAt == None && b.anchor.value <= a.at < cutoff && a.anchored == Some(true)
    requires a.companion == Companion(false, None, None)
    ensures Admit(Some([b]), cutoff, a).Admits() <==> InForce(b, a.at)
  {
    ChainOfOne(b, a.at);
  }

  lemma {:induction false} ChainOfOne(b: Binding, at: int)
    requires b.anchor.Some? && b.activatedAt == None
    ensures Governor([b], at) == if InForce(b, at) then Some(b) else None
    ensures Baseline([b]) == Some(b) && !Malformed([b])
  {
    assert [b][..0] == [];
    assert Eligible([b], at) == Eligible([], at) + if InForce(b, at) then [b] else [];
  }

  /** Exactly the revocations at or before a time end an authority at that time. */
  lemma {:induction false} RevocationsOnlyEnd(b: Binding, rs: seq<Revocation>, at: int)
    requires b.revokedAt == None
    ensures InForce(Revoke(b, rs), at) <==>
            InForce(b, at) && forall r :: r in rs && b.address == Some(r.address) ==> at < r.at
  {
    if b.address.Some? {
      var t := EarliestRevocation(rs, b.address.value);
      if t.Some? {
        assert Revocation(b.address.value, t.value) in rs;
      }
    }
  }

  // ---------- the legacy admission ----------

  /** No anchored binding has been activated by the time. */
  ghost predicate NothingActivated(bs: seq<Binding>, at: int) {
    forall b :: b in bs && b.anchor.Some? ==> at < ActivationOf(b)
  }

  /** The earliest-anchored binding is also the earliest to activate. */
  predicate BaselineActivatesFirst(bs: seq<Binding>) {
    Baseline(bs).Some? ==> forall b :: b in bs && b.anchor.Some? ==> ActivationOf(Baseline(bs).value) <= ActivationOf(b)
  }

  /** Whatever the revocations, the legacy admission is given only before anything had governed. */
  ghost predicate LegacyAdmissionIsInnocent(bs: seq<Binding>) {
    forall cs, cutoff, a :: SameBindings(bs, cs) && Admit(Some(cs), cutoff, a).rule == PreBaselineLegacyAdmit ==>
      NothingActivated(cs, a.at)
  }

  function RevokeAllAt(bs: seq<Binding>, t: int): (r: seq<Binding>)
    ensures |r| == |bs|
  {
    seq(|bs|, i requires 0 <= i < |bs| => bs[i].(revokedAt := Some(t)))
  }

  lemma {:induction false} NoneEligible(bs: seq<Binding>, at: int)
    requires forall b :: b in bs ==> !InForce(b, at)
    ensures Eligible(bs, at) == []
  {
    if bs != [] {
      NoneEligible(bs[..|bs| - 1], at);
      assert bs[|bs| - 1] in bs;
    }
  }

  lemma {:induction false} LegacyMeansBeforeBaseline(bs: seq<Binding>, cutoff: int, a: Artifact)
    requires Admit(Some(bs), cutoff, a).rule == PreBaselineLegacyAdmit
    ensures Baseline(bs).Some? && a.at < ActivationOf(Baseline(bs).value)
  {
  }

  /** Before the earliest-activating baseline nothing governs, whatever the revocations. */
  lemma {:induction false} BeforeBaselineNothingActivated(bs: seq<Binding>, cs: seq<Binding>, at: int)
    requires SameBindings(bs, cs) && BaselineActivatesFirst(bs)
    requires Baseline(cs).Some? && at < ActivationOf(Baseline(cs).value)
    ensures NothingActivated(cs, at)
  {
    BaselineIgnoresRevocation(bs, cs);
    forall c: Binding | c in cs && c.anchor.Some?
      ensures at < ActivationOf(c)
    {
      var i :| 0 <= i < |cs| && cs[i] == c;
      assert bs[i] in bs;
    }
  }

  /** A binding that activates before the baseline, with everything revoked at its activation. */
  lemma {:induction false} LegacyAdmissionOfRevoked(bs: seq<Binding>, b: Binding, t: int, cs: seq<Binding>, a: Artifact)
    requires bs != [] && !Malformed(bs)
    requires b in bs && b.anchor.Some? && Baseline(bs).Some? && t == ActivationOf(b) < ActivationOf(Baseline(bs).value)
    requires cs == RevokeAllAt(bs, t) && a == Artifact(t, None, Companion(false, None, None))
    ensures SameBindings(bs, cs) && !NothingActivated(cs, t)
    ensures Admit(Some(cs), 0, a).rule == PreBaselineLegacyAdmit
  {
    BaselineIgnoresRevocation(bs, cs);
    var i :| 0 <= i < |bs| && bs[i] == b;
    assert cs[i] in cs && ActivationOf(cs[i]) == t;
    assert !Malformed(cs) by {
      if Malformed(cs) {
        SameShape(cs, bs);
      }
    }
    forall c | c in cs
      ensures !InForce(c, t)
    {
      assert c.revokedAt == Some(t);
    }
    NoneEligible(cs, t);
    assert Governor(cs, t) == None && cs != [];
  }

  /**
   The legacy admission of a well-formed chain stays innocent under all revocations exactly when the
   earliest-anchored binding activates first.  Otherwise an artifact anchored after another binding had
   governed and been revoked, but before the baseline activates, is admitted as if nothing had governed.
   */
  lemma {:induction false} LegacyAdmissionInnocentExactly(bs: seq<Binding>)
    requires bs != [] && !Malformed(bs)
    ensures LegacyAdmissionIsInnocent(bs) <==> BaselineActivatesFirst(bs)
  {
    if BaselineActivatesFirst(bs) {
      forall cs, cutoff, a | SameBindings(bs, cs) && Admit(Some(cs), cutoff, a).rule == PreBaselineLegacyAdmit
        ensures NothingActivated(cs, a.at)
      {
        LegacyMeansBeforeBaseline(cs, cutoff, a);
        BeforeBaselineNothingActivated(bs, cs, a.at);
      }
    } else {
      var b :| b in bs && b.anchor.Some? && ActivationOf(b) < ActivationOf(Baseline(bs).value);
      BaselineIsLeast(bs);
      var t := ActivationOf(b);
      var cs, a := RevokeAllAt(bs, t), Artifact(t, None, Companion(false, None, None));
      LegacyAdmissionOfRevoked(bs, b, t, cs, a);
      assert !LegacyAdmissionIsInnocent(bs);
    }
  }

  /**
   An artifact is admitted exactly when the chain is well formed and either the leader of the bindings in
   force vouches for it, by anchoring before the cutoff or by a valid companion under the leader's own
   key, or nothing is in force and the first binding with the least anchor has not been activated yet.
   */
  lemma {:induction false} AdmittedExactly(bs: seq<Binding>, cutoff: int, a: Artifact)
    ensures Admit(Some(bs), cutoff, a).Admits() <==>
      && (forall b :: b in bs ==> !ActivatedBeforeAnchor(b))
      && ((exists i :: Leads(bs, ForceAt(a.at), i)
             && ((a.anchored == Some(true) && a.at < cutoff) || a.companion == Companion(true, Some(true), Some(bs[i].key))))
          || ((forall b :: b in bs ==> !InForce(b, a.at))
             && exists i :: IsBaseline(bs, i) && a.at < ActivationOf(bs[i])))
  {
    var i := GovernorLeads(bs, a.at);
    var k := BaselineStands(bs);
    if Governor(bs, a.at).Some? {
      assert bs[i] in bs && InForce(bs[i], a.at);
      assert forall j :: Leads(bs, ForceAt(a.at), j) ==> j == i;
    } else {
      assert forall j :: !Leads(bs, ForceAt(a.at), j);
      assert forall j :: Baseline(bs).Some? && IsBaseline(bs, j) ==> j == k;
    }
  }

  // ---------- every verdict ----------

  predicate BeforeCutoff(cutoff: int, a: Artifact) {
    a.anchored == Some(true) && a.at < cutoff
  }

  /** A companion that was not checked, or none where only the anchor status is unknown. */
  predicate Unchecked(cutoff: int, a: Artifact) {
    if a.companion.present then a.companion.valid == None else a.anchored == None && a.at < cutoff
  }

  /**
   Under a governor: its name and key are reported; the evidence is verified by an anchor before the cutoff or
   a valid companion under its key, unverifiable exactly when something was left unchecked, and refuted otherwise.
   */
  lemma {:induction false} GovernedExactly(bs: seq<Binding>, cutoff: int, a: Artifact, i: int)
    requires !Malformed(bs) && Leads(bs, ForceAt(a.at), i)
    ensures var v, early := Admit(Some(bs), cutoff, a), BeforeCutoff(cutoff, a);
      var valid := a.companion == Companion(true, Some(true), Some(bs[i].key));
      && v.governor == Some((bs[i].name, bs[i].key))
      && (v.evidence == Verified <==> early || valid)
      && (v.evidence == Unverifiable <==> !early && Unchecked(cutoff, a))
      && (v.evidence == Refuted <==> !early && !valid && !Unchecked(cutoff, a))
      && (v.rule == AnchoredBeforeCutoff <==> early)
      && (v.rule == ValidPqCompanion <==> !early && valid)
      && (v.rule == CompanionUnchecked <==> !early && a.companion.present && a.companion.valid == None)
      && (v.rule == AnchorStatusUnknown <==> !early && !a.companion.present && Unchecked(cutoff, a))
      && (v.rule == NoValidCompanion(true) <==>
            !early && !valid && a.companion.present && a.companion.valid == Some(true))
  {
    var k := GovernorLeads(bs, a.at);
    assert bs[i] in bs && InForce(bs[i], a.at);
    assert Governor(bs, a.at).Some?;
    assert k == i;
  }

  /** Nothing in the chain is in force. */
  ghost predicate Ungoverned(bs: seq<Binding>, at: int) {
    forall j :: 0 <= j < |bs| ==> !InForce(bs[j], at)
  }

  /** The binding claims to be active before it was anchored. */
  predicate HasClaimBefore(b: Binding) {
    match (b.activatedAt, b.anchor)
    case (Some(activated), Some(anchored)) => activated - anchored < 0
    case _ => false
  }

  /** Without a governor: each rule, its evidence, and when it is reached. */
  lemma {:induction false} UngovernedExactly(chain: Option<seq<Binding>>, cutoff: int, a: Artifact)
    ensures var v := Admit(chain, cutoff, a);
      && (v.rule == ChainUnavailable <==> chain == None)
      && (v.rule == NoBindingsInChain <==> chain == Some([]))
      && (v.rule == ChainMalformed <==>
            chain.Some? && exists j :: 0 <= j < |chain.value| && HasClaimBefore(chain.value[j]))
      && (v.governor == None && v.evidence == Unverifiable <==>
            v.rule in {ChainUnavailable, ChainMalformed, BindingAnchorUnavailable})
      && (v.governor == None && v.evidence == Refuted <==> v.rule in {NoBindingsInChain, NoInForceBinding})
      && (v.governor == None && v.evidence == Verified <==> v.rule == PreBaselineLegacyAdmit)
  {
    if chain.Some? {
      var bs := chain.value;
      assert forall b :: HasClaimBefore(b) <==> ActivatedBeforeAnchor(b);
      if Malformed(bs) {
        var b :| b in bs && ActivatedBeforeAnchor(b);
        var j :| 0 <= j < |bs| && bs[j] == b;
        assert HasClaimBefore(bs[j]);
      }
      if j :| 0 <= j < |bs| && HasClaimBefore(bs[j]) {
        assert bs[j] in bs && ActivatedBeforeAnchor(bs[j]);
      }
    }
  }

  lemma {:induction false} UngovernedRulesExactly(bs: seq<Binding>, cutoff: int, a: Artifact)
    requires bs != [] && !Malformed(bs)
    ensures var v := Admit(Some(bs), cutoff, a);
      && (v.governor == None <==> Ungoverned(bs, a.at))
      && (v.rule == BindingAnchorUnavailable <==> forall j :: 0 <= j < |bs| ==> bs[j].anchor == None)
      && (v.rule == PreBaselineLegacyAdmit <==>
            Ungoverned(bs, a.at) && exists i :: IsBaseline(bs, i) && a.at < ActivationOf(bs[i]))
      && (v.rule == NoInForceBinding <==>
            Ungoverned(bs, a.at) && exists i :: IsBaseline(bs, i) && ActivationOf(bs[i]) <= a.at)
  {
    var i := GovernorLeads(bs, a.at);
    var k := BaselineStands(bs);
    assert forall j :: Baseline(bs).Some? && IsBaseline(bs, j) ==> j == k;
  }
}
