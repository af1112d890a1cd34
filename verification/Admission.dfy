/**
 Captured admission: verdicts about an obligation, or about a claim under a bounded authority, taken at
 a snapshot time.  Events after the snapshot are not seen; the verdicts only move forward as it advances.
 */
module Admission {
  import opened Wrappers

  // ---------- obligations ----------

  datatype Disposition = Disposition(referencesIndex: int, kind: string, at: int, binds: bool)

  datatype Obligation = Obligation(admittedHash: string, capturedHash: string, admittedAt: int, rejected: bool,
                                   index: int, deadline: int, permitted: set<string>, dispositions: seq<Disposition>)

  datatype Verdict =
    | InvalidAdmission | AsOfRequired | NotYetVisible | NotAdmitted
    | Resolved(kind: string, late: bool) | Conflict | LivenessFailure | PendingOpen

  /** A disposition that completes the obligation and is visible at the snapshot. */
  predicate Completes(o: Obligation, asOf: int, d: Disposition) {
    d.referencesIndex == o.index && d.kind in o.permitted && o.admittedAt <= d.at <= asOf && d.binds
  }

  function Completing(o: Obligation, asOf: int, ds: seq<Disposition>): (r: seq<Disposition>)
    ensures forall d :: d in r <==> d in ds && Completes(o, asOf, d)
  {
    if ds == [] then []
    else (if Completes(o, asOf, ds[0]) then [ds[0]] else []) + Completing(o, asOf, ds[1..])
  }

  function ObligationVerdict(o: Obligation, asOf: Option<int>): Verdict {
    if o.admittedHash != o.capturedHash then InvalidAdmission
    else if asOf == None then AsOfRequired
    else if asOf.value < o.admittedAt then NotYetVisible
    else if o.rejected then NotAdmitted
    else
      var valid := Completing(o, asOf.value, o.dispositions);
      if |valid| >= 2 then Conflict
      else if |valid| == 1 then Resolved(valid[0].kind, valid[0].at > o.deadline)
      else if asOf.value >= o.deadline then LivenessFailure
      else PendingOpen
  }

  /** The events visible at a snapshot, in their order. */
  function VisibleDispositions(ds: seq<Disposition>, asOf: int): seq<Disposition> {
    if ds == [] then []
    else (if ds[0].at <= asOf then [ds[0]] else []) + VisibleDispositions(ds[1..], asOf)
  }

  /** The later record repeats the earlier one up to the snapshot; whatever was added happened after it. */
  ghost predicate Extends(later: Obligation, earlier: Obligation, asOf: int) {
    && later == earlier.(dispositions := later.dispositions)
    && VisibleDispositions(later.dispositions, asOf) == VisibleDispositions(earlier.dispositions, asOf)
  }

  lemma {:induction false} CompletingSeesVisible(o: Obligation, s: int, t: int, ds: seq<Disposition>)
    requires s <= t
    ensures Completing(o, s, VisibleDispositions(ds, t)) == Completing(o, s, ds)
  {
    if ds != [] {
      var rest := VisibleDispositions(ds[1..], t);
      CompletingSeesVisible(o, s, t, ds[1..]);
      if ds[0].at <= t {
        assert VisibleDispositions(ds, t)[1..] == rest;
      } else {
        assert VisibleDispositions(ds, t) == rest;
      }
    }
  }

  lemma {:induction false} CompletingSameRules(o: Obligation, p: Obligation, s: int, ds: seq<Disposition>)
    requires p == o.(dispositions := p.dispositions)
    ensures Completing(o, s, ds) == Completing(p, s, ds)
  {
    if ds != [] {
      CompletingSameRules(o, p, s, ds[1..]);
    }
  }

  /** Events after the snapshot never change its verdict. */
  lemma {:induction false} FutureDispositionsIgnored(later: Obligation, earlier: Obligation, asOf: int)
    requires Extends(later, earlier, asOf)
    ensures ObligationVerdict(later, Some(asOf)) == ObligationVerdict(earlier, Some(asOf))
  {
    CompletingSeesVisible(earlier, asOf, asOf, earlier.dispositions);
    CompletingSeesVisible(earlier, asOf, asOf, later.dispositions);
    CompletingSameRules(earlier, later, asOf, later.dispositions);
  }

  /** Advancing the snapshot keeps what completed, and adds only later completions. */
  lemma {:induction false} CompletingGrows(o: Obligation, s: int, t: int, ds: seq<Disposition>)
    requires s <= t
    ensures |Completing(o, s, ds)| <= |Completing(o, t, ds)|
    ensures |Completing(o, s, ds)| == |Completing(o, t, ds)| ==> Completing(o, s, ds) == Completing(o, t, ds)
    ensures forall d :: d in Completing(o, t, ds) && d !in Completing(o, s, ds) ==> d.at > s
  {
    if ds != [] {
      CompletingGrows(o, s, t, ds[1..]);
    }
  }

  /** How a verdict may change as the snapshot advances. */
  predicate MayBecome(v: Verdict, w: Verdict) {
    match v
    case InvalidAdmission => w == InvalidAdmission
    case AsOfRequired => false
    case NotYetVisible => w != InvalidAdmission && w != AsOfRequired
    case NotAdmitted => w == NotAdmitted
    case PendingOpen => w in {PendingOpen, LivenessFailure, Conflict} || w.Resolved?
    case LivenessFailure => w in {LivenessFailure, Conflict} || (w.Resolved? && w.late)
    case Resolved(_, _) => w == v || w == Conflict
    case Conflict => w == Conflict
  }

  /**
   Verdicts only move forward: a resolution stays or becomes a conflict, and a missed deadline is never
   rewritten to an on-time resolution.
   */
  lemma {:induction false} ObligationMovesForward(earlier: Obligation, s: int, later: Obligation, t: int)
    requires s <= t && Extends(later, earlier, s)
    ensures MayBecome(ObligationVerdict(earlier, Some(s)), ObligationVerdict(later, Some(t)))
  {
    FutureDispositionsIgnored(later, earlier, s);
    CompletingGrows(later, s, t, later.dispositions);
    var before, after := Completing(later, s, later.dispositions), Completing(later, t, later.dispositions);
    if |before| == 0 && |after| == 1 {
      assert after[0] in after;
    }
  }

  lemma {:induction false} NothingCompletes(o: Obligation, asOf: int, ds: seq<Disposition>)
    requires forall d :: d in ds ==> !Completes(o, asOf, d)
    ensures Completing(o, asOf, ds) == []
  {
    if ds != [] {
      NothingCompletes(o, asOf, ds[1..]);
    }
  }

  /**
   A late resolution leaves the breach on record: from the deadline (or the admission, if that is later)
   until the disposition, every snapshot reads "liveness failure".
   */
  lemma {:induction false} LateResolutionWasAFailure(o: Obligation, t: int, kind: string) returns (d: Disposition)
    requires ObligationVerdict(o, Some(t)) == Resolved(kind, true)
    ensures d in o.dispositions && d.kind == kind && o.deadline < d.at <= t
    ensures forall s :: o.deadline <= s && o.admittedAt <= s < d.at ==> ObligationVerdict(o, Some(s)) == LivenessFailure
    ensures forall s :: d.at <= s <= t ==> ObligationVerdict(o, Some(s)) == Resolved(kind, true)
  {
    var valid := Completing(o, t, o.dispositions);
    d := valid[0];
    assert d in valid;
    forall s | o.deadline <= s && o.admittedAt <= s < d.at
      ensures ObligationVerdict(o, Some(s)) == LivenessFailure
    {
      assert forall e :: e in o.dispositions && Completes(o, s, e) ==> e in valid;
      assert forall e :: e in valid ==> e == d;
      NothingCompletes(o, s, o.dispositions);
    }
    forall s | d.at <= s <= t
      ensures ObligationVerdict(o, Some(s)) == Resolved(kind, true)
    {
      CompletingGrows(o, s, t, o.dispositions);
      assert d in Completing(o, s, o.dispositions);
    }
  }

  /** The disposition at i is the only one that completes the obligation. */
  ghost predicate OnlyCompletion(o: Obligation, asOf: int, ds: seq<Disposition>, i: int) {
    && 0 <= i < |ds| && Completes(o, asOf, ds[i])
    && forall j :: 0 <= j < |ds| && Completes(o, asOf, ds[j]) ==> j == i
  }

  lemma {:induction false} CompletingOne(o: Obligation, asOf: int, ds: seq<Disposition>)
    ensures |Completing(o, asOf, ds)| == 1 <==> exists i :: OnlyCompletion(o, asOf, ds, i)
    ensures forall i :: OnlyCompletion(o, asOf, ds, i) ==> Completing(o, asOf, ds) == [ds[i]]
  {
    if ds != [] {
      var rest := ds[1..];
      CompletingOne(o, asOf, rest);
      if Completes(o, asOf, ds[0]) {
        assert OnlyCompletion(o, asOf, ds, 0) <==> Completing(o, asOf, rest) == [] by {
          NoneCompleting(o, asOf, rest);
          assert forall j :: 1 <= j < |ds| ==> ds[j] == rest[j - 1];
        }
      } else {
        forall i
          ensures OnlyCompletion(o, asOf, ds, i) <==> OnlyCompletion(o, asOf, rest, i - 1)
        {
          assert forall j :: 1 <= j < |ds| ==> ds[j] == rest[j - 1];
          assert forall j :: 0 <= j < |rest| ==> rest[j] == ds[j + 1];
        }
        if i :| OnlyCompletion(o, asOf, rest, i) {
          assert OnlyCompletion(o, asOf, ds, i + 1);
        }
      }
    }
  }

  lemma {:induction false} NoneCompleting(o: Obligation, asOf: int, ds: seq<Disposition>)
    ensures Completing(o, asOf, ds) == [] <==> forall j :: 0 <= j < |ds| ==> !Completes(o, asOf, ds[j])
  {
    var valid := Completing(o, asOf, ds);
    if valid != [] {
      assert valid[0] in valid;
    }
    if j :| 0 <= j < |ds| && Completes(o, asOf, ds[j]) {
      assert ds[j] in valid;
    }
  }

  /** The admission is one that the snapshot sees as binding. */
  predicate Binds(o: Obligation, asOf: int) {
    o.admittedHash == o.capturedHash && o.admittedAt <= asOf && !o.rejected
  }

  /** The verdict on a binding admission, by the number of completing dispositions. */
  lemma {:induction false} VerdictByCount(o: Obligation, asOf: int, valid: seq<Disposition>)
    requires Binds(o, asOf) && valid == Completing(o, asOf, o.dispositions)
    ensures var v := ObligationVerdict(o, Some(asOf));
      && (v == Conflict <==> |valid| > 1)
      && (v.Resolved? <==> |valid| == 1)
      && (v.Resolved? ==> v == Resolved(valid[0].kind, valid[0].at > o.deadline))
      && (v == LivenessFailure <==> valid == [] && asOf >= o.deadline)
      && (v == PendingOpen <==> valid == [] && asOf < o.deadline)
  {
  }

  /** The disposition at i refers to the admission, is of a permitted kind, binds, and happened between admission and snapshot. */
  ghost predicate AnsweredAt(o: Obligation, asOf: int, i: int) {
    0 <= i < |o.dispositions| &&
    match o.dispositions[i]
    case Disposition(reference, kind, time, binds) =>
      reference - o.index == 0 && kind in o.permitted && !(time < o.admittedAt) && !(asOf < time) && binds
  }

  lemma {:induction false} AnswersComplete(o: Obligation, asOf: int)
    ensures forall i :: 0 <= i < |o.dispositions| ==> (AnsweredAt(o, asOf, i) <==> Completes(o, asOf, o.dispositions[i]))
  {
  }

  /** A binding admission is resolved, on time or late, exactly by its only completing disposition. */
  lemma {:induction false} ResolvedExactly(o: Obligation, asOf: int, kind: string, late: bool)
    requires Binds(o, asOf)
    ensures ObligationVerdict(o, Some(asOf)) == Resolved(kind, late) <==>
            exists i :: AnsweredAt(o, asOf, i) && (forall j :: AnsweredAt(o, asOf, j) ==> j == i)
                        && o.dispositions[i].kind == kind && late == (o.dispositions[i].at > o.deadline)
  {
    AnswersComplete(o, asOf);
    assert forall i :: OnlyCompletion(o, asOf, o.dispositions, i)
                       <==> AnsweredAt(o, asOf, i) && forall j :: AnsweredAt(o, asOf, j) ==> j == i;
    VerdictByCount(o, asOf, Completing(o, asOf, o.dispositions));
    CompletingOne(o, asOf, o.dispositions);
  }

  /** Without a completing disposition it is open before its deadline and failed from it on. */
  lemma {:induction false} FailedExactly(o: Obligation, asOf: int)
    requires Binds(o, asOf)
    ensures ObligationVerdict(o, Some(asOf)) == LivenessFailure <==>
            asOf >= o.deadline && forall j :: !AnsweredAt(o, asOf, j)
    ensures ObligationVerdict(o, Some(asOf)) == PendingOpen <==>
            asOf < o.deadline && forall j :: !AnsweredAt(o, asOf, j)
  {
    VerdictByCount(o, asOf, Completing(o, asOf, o.dispositions));
    NoneCompleting(o, asOf, o.dispositions);
    AnswersComplete(o, asOf);
  }

  /** The verdicts on an admission that does not bind: each names the first thing that is wrong. */
  lemma {:induction false} UnboundExactly(o: Obligation, asOf: Option<int>)
    ensures var v, matches := ObligationVerdict(o, asOf), o.admittedHash == o.capturedHash;
      && (v == InvalidAdmission <==> !matches)
      && (v == AsOfRequired <==> matches && asOf == None)
      && (v == NotYetVisible <==> matches && asOf.Some? && asOf.value < o.admittedAt)
      && (v == NotAdmitted <==> matches && asOf.Some? && o.admittedAt <= asOf.value && o.rejected)
      && (v.Resolved? || v in {Conflict, LivenessFailure, PendingOpen} <==> asOf.Some? && Binds(o, asOf.value))
  {
  }

  /** Two completing dispositions, and only they, make a conflict. */
  lemma {:induction false} ConflictExactly(o: Obligation, asOf: int)
    requires Binds(o, asOf)
    ensures ObligationVerdict(o, Some(asOf)) == Conflict <==>
            exists i, j :: i < j && AnsweredAt(o, asOf, i) && AnsweredAt(o, asOf, j)
  {
    var ds := o.dispositions;
    AnswersComplete(o, asOf);
    VerdictByCount(o, asOf, Completing(o, asOf, ds));
    CompletingOne(o, asOf, ds);
    NoneCompleting(o, asOf, ds);
    if i, j :| 0 <= i < j < |ds| && Completes(o, asOf, ds[i]) && Completes(o, asOf, ds[j]) {
      assert forall k :: !OnlyCompletion(o, asOf, ds, k);
    } else if i :| 0 <= i < |ds| && Completes(o, asOf, ds[i]) {
      assert OnlyCompletion(o, asOf, ds, i);
    }
  }

  // ---------- authority ----------

  datatype Transition = Transition(referencesEpoch: string, kind: string, at: int, namesSuccessor: bool)
  datatype Claim = Claim(anchorTime: int, referencesEpoch: string)

  datatype Epoch = Epoch(admittedHash: string, capturedHash: string, epoch: string, activatedAt: int, expiry: Option<int>,
                         requiresSuccessor: bool, transitions: seq<Transition>, claim: Claim)

  datatype Standing =
    | InvalidEpoch | SnapshotRequired | EpochNotYetActive | InvalidTransition | RollbackConflict | TransitionConflict
    | ClaimNotYetVisible | OutOfAuthority | Attributed

  predicate Terminal(t: Transition) {
    t.kind == "revoked" || t.kind == "superseded"
  }

  /** The transitions of the epoch that are visible at the snapshot. */
  predicate Seen(e: Epoch, asOf: int, t: Transition) {
    t in e.transitions && t.referencesEpoch == e.epoch && t.at <= asOf
  }

  predicate SeenTerminal(e: Epoch, asOf: int, t: Transition) {
    Seen(e, asOf, t) && Terminal(t)
  }

  predicate Malformed(e: Epoch, asOf: int) {
    || (exists t :: t in e.transitions && Seen(e, asOf, t) && !Terminal(t) && t.kind != "reactivated")
    || (exists t :: t in e.transitions && SeenTerminal(e, asOf, t) && t.at < e.activatedAt)
    || (e.requiresSuccessor && exists t :: t in e.transitions && Seen(e, asOf, t) && t.kind == "superseded" && !t.namesSuccessor)
  }

  /** The earliest terminal transition visible at the snapshot. */
  function FirstTerminal(e: Epoch, asOf: int, ts: seq<Transition>): (r: Option<int>)
    ensures r == None ==> forall t :: t in ts ==> !(Terminal(t) && t.referencesEpoch == e.epoch && t.at <= asOf)
    ensures r.Some? ==>
      && (exists t :: t in ts && Terminal(t) && t.referencesEpoch == e.epoch && t.at == r.value <= asOf)
      && (forall t :: t in ts && Terminal(t) && t.referencesEpoch == e.epoch && t.at <= asOf ==> r.value <= t.at)
  {
    if ts == [] then None
    else
      var rest := FirstTerminal(e, asOf, ts[1..]);
      if Terminal(ts[0]) && ts[0].referencesEpoch == e.epoch && ts[0].at <= asOf && (rest == None || ts[0].at < rest.value)
      then Some(ts[0].at)
      else rest
  }

  /** The effective end: the expiry or the earliest visible terminal transition. */
  function EndAt(e: Epoch, asOf: int): Option<int> {
    var first := FirstTerminal(e, asOf, e.transitions);
    if e.expiry == None || (first.Some? && first.value < e.expiry.value) then first else e.expiry
  }

  /** A reactivation after the earliest terminal transition. */
  predicate RolledBack(e: Epoch, asOf: int) {
    var first := FirstTerminal(e, asOf, e.transitions);
    first.Some? && exists r :: r in e.transitions && Seen(e, asOf, r) && r.kind == "reactivated" && r.at > first.value
  }

  /** Two terminal transitions that differ in kind or time. */
  predicate Competing(e: Epoch, asOf: int) {
    exists t, u :: t in e.transitions && u in e.transitions
      && SeenTerminal(e, asOf, t) && SeenTerminal(e, asOf, u) && (t.kind != u.kind || t.at != u.at)
  }

  function AuthorityStanding(e: Epoch, snapshot: Option<int>): Standing {
    if e.admittedHash != e.capturedHash then InvalidEpoch
    else if snapshot == None then SnapshotRequired
    else if e.expiry.Some? && e.expiry.value <= e.activatedAt then InvalidEpoch
    else
      var asOf := snapshot.value;
      if asOf < e.activatedAt then EpochNotYetActive
      else if Malformed(e, asOf) then InvalidTransition
      else if RolledBack(e, asOf) then RollbackConflict
      else if Competing(e, asOf) then TransitionConflict
      else
        var end := EndAt(e, asOf);
        if e.claim.anchorTime > asOf then ClaimNotYetVisible
        else if e.claim.referencesEpoch != e.epoch then OutOfAuthority
        else if e.claim.anchorTime >= e.activatedAt && (end == None || e.claim.anchorTime < end.value) then Attributed
        else OutOfAuthority
  }

  /** Every visible end of the epoch comes after the time. */
  ghost predicate BeforeEveryEnd(e: Epoch, asOf: int, time: int) {
    && (e.expiry.Some? ==> time < e.expiry.value)
    && (forall t :: SeenTerminal(e, asOf, t) ==> time < t.at)
  }

  lemma {:induction false} EndIsEarliest(e: Epoch, asOf: int, time: int)
    ensures EndAt(e, asOf) == None || time < EndAt(e, asOf).value <==> BeforeEveryEnd(e, asOf, time)
  {
    var first := FirstTerminal(e, asOf, e.transitions);
    if first.Some? {
      var t :| t in e.transitions && Terminal(t) && t.referencesEpoch == e.epoch && t.at == first.value <= asOf;
      assert SeenTerminal(e, asOf, t);
    }
  }

  lemma {:induction false} RollbackMeans(e: Epoch, asOf: int)
    ensures RolledBack(e, asOf) <==>
            exists r, t :: Seen(e, asOf, r) && r.kind == "reactivated" && SeenTerminal(e, asOf, t) && r.at > t.at
  {
    var first := FirstTerminal(e, asOf, e.transitions);
    if RolledBack(e, asOf) {
      var t :| t in e.transitions && Terminal(t) && t.referencesEpoch == e.epoch && t.at == first.value <= asOf;
      assert SeenTerminal(e, asOf, t);
    }
  }

  /**
   A claim is attributed exactly when the admission binds, the visible transitions are well formed and
   without rollback or rivals, and the claim names the epoch at a time within its window.
   */
  lemma {:induction false} AttributedExactly(e: Epoch, asOf: int)
    ensures AuthorityStanding(e, Some(asOf)) == Attributed <==>
            && e.admittedHash == e.capturedHash && (e.expiry.Some? ==> e.activatedAt < e.expiry.value)
            && !Malformed(e, asOf) && !Competing(e, asOf)
            && !(exists r, t :: Seen(e, asOf, r) && r.kind == "reactivated" && SeenTerminal(e, asOf, t) && r.at > t.at)
            && e.claim.referencesEpoch == e.epoch && e.activatedAt <= e.claim.anchorTime <= asOf
            && BeforeEveryEnd(e, asOf, e.claim.anchorTime)
  {
    EndIsEarliest(e, asOf, e.claim.anchorTime);
    RollbackMeans(e, asOf);
  }

  // ---------- every standing, over the transitions and the claim ----------

  predicate VisibleAt(e: Epoch, asOf: int, i: int) {
    0 <= i < |e.transitions| && e.transitions[i].referencesEpoch == e.epoch && e.transitions[i].at <= asOf
  }

  predicate EndsAt(e: Epoch, asOf: int, i: int) {
    VisibleAt(e, asOf, i) && e.transitions[i].kind in {"revoked", "superseded"}
  }

  /** A visible transition of no known kind, an end before the activation, or a supersession by nobody. */
  ghost predicate HasDefect(e: Epoch, asOf: int) {
    exists i :: VisibleAt(e, asOf, i)
                && (|| e.transitions[i].kind !in {"revoked", "superseded", "reactivated"}
                    || (EndsAt(e, asOf, i) && e.transitions[i].at < e.activatedAt)
                    || (e.requiresSuccessor && e.transitions[i].kind == "superseded" && !e.transitions[i].namesSuccessor))
  }

  /** A visible reactivation after a visible end. */
  ghost predicate HasRollback(e: Epoch, asOf: int) {
    exists i, j :: VisibleAt(e, asOf, i) && e.transitions[i].kind == "reactivated" && EndsAt(e, asOf, j)
                   && e.transitions[i].at > e.transitions[j].at
  }

  /** Two visible ends that differ in kind or time. */
  ghost predicate HasRivals(e: Epoch, asOf: int) {
    exists i, j :: EndsAt(e, asOf, i) && EndsAt(e, asOf, j)
                   && (e.transitions[i].kind != e.transitions[j].kind || e.transitions[i].at != e.transitions[j].at)
  }

  /** The authority has ended by the time, as far as the snapshot sees. */
  ghost predicate EndedBy(e: Epoch, asOf: int, time: int) {
    (e.expiry.Some? && e.expiry.value <= time) || exists i :: EndsAt(e, asOf, i) && e.transitions[i].at <= time
  }

  /** The epoch is well formed and active at the snapshot. */
  predicate IsActive(e: Epoch, asOf: int) {
    e.admittedHash == e.capturedHash && (e.expiry.Some? ==> e.activatedAt < e.expiry.value) && e.activatedAt <= asOf
  }

  lemma {:induction false} SeenIsVisible(e: Epoch, asOf: int, t: Transition)
    ensures Seen(e, asOf, t) <==> exists i :: VisibleAt(e, asOf, i) && e.transitions[i] == t
    ensures SeenTerminal(e, asOf, t) <==> exists i :: EndsAt(e, asOf, i) && e.transitions[i] == t
  {
    if Seen(e, asOf, t) {
      var i :| 0 <= i < |e.transitions| && e.transitions[i] == t;
      assert VisibleAt(e, asOf, i);
      if Terminal(t) {
        assert EndsAt(e, asOf, i);
      }
    }
  }

  lemma {:induction false} DefectMeans(e: Epoch, asOf: int)
    ensures Malformed(e, asOf) <==> HasDefect(e, asOf)
  {
    forall t
      ensures Seen(e, asOf, t) <==> exists i :: VisibleAt(e, asOf, i) && e.transitions[i] == t
    {
      SeenIsVisible(e, asOf, t);
    }
    if i :| VisibleAt(e, asOf, i) && e.transitions[i].kind !in {"revoked", "superseded", "reactivated"} {
      assert Seen(e, asOf, e.transitions[i]);
    }
    if i :| EndsAt(e, asOf, i) && e.transitions[i].at < e.activatedAt {
      assert SeenTerminal(e, asOf, e.transitions[i]);
    }
    if i :| VisibleAt(e, asOf, i) && e.transitions[i].kind == "superseded" && !e.transitions[i].namesSuccessor {
      assert Seen(e, asOf, e.transitions[i]);
    }
  }

  lemma {:induction false} PositionSeen(e: Epoch, asOf: int, i: int)
    ensures VisibleAt(e, asOf, i) ==> Seen(e, asOf, e.transitions[i])
    ensures EndsAt(e, asOf, i) ==> SeenTerminal(e, asOf, e.transitions[i])
  {
  }

  lemma {:induction false} RollbackAtPositions(e: Epoch, asOf: int)
    ensures RolledBack(e, asOf) <==> HasRollback(e, asOf)
  {
    RollbackMeans(e, asOf);
    if RolledBack(e, asOf) {
      var r, t :| Seen(e, asOf, r) && r.kind == "reactivated" && SeenTerminal(e, asOf, t) && r.at > t.at;
      SeenIsVisible(e, asOf, r);
      SeenIsVisible(e, asOf, t);
    }
    if i, j :| VisibleAt(e, asOf, i) && e.transitions[i].kind == "reactivated" && EndsAt(e, asOf, j)
               && e.transitions[i].at > e.transitions[j].at {
      PositionSeen(e, asOf, i);
      PositionSeen(e, asOf, j);
    }
  }

  lemma {:induction false} RivalsAtPositions(e: Epoch, asOf: int)
    ensures Competing(e, asOf) <==> HasRivals(e, asOf)
  {
    if Competing(e, asOf) {
      var t, u :| t in e.transitions && u in e.transitions
                  && SeenTerminal(e, asOf, t) && SeenTerminal(e, asOf, u) && (t.kind != u.kind || t.at != u.at);
      SeenIsVisible(e, asOf, t);
      SeenIsVisible(e, asOf, u);
    }
    if i, j :| EndsAt(e, asOf, i) && EndsAt(e, asOf, j)
               && (e.transitions[i].kind != e.transitions[j].kind || e.transitions[i].at != e.transitions[j].at) {
      PositionSeen(e, asOf, i);
      PositionSeen(e, asOf, j);
    }
  }

  lemma {:induction false} EndMeans(e: Epoch, asOf: int, time: int)
    ensures BeforeEveryEnd(e, asOf, time) <==> !EndedBy(e, asOf, time)
  {
    forall t
      ensures SeenTerminal(e, asOf, t) <==> exists i :: EndsAt(e, asOf, i) && e.transitions[i] == t
    {
      SeenIsVisible(e, asOf, t);
    }
    if i :| EndsAt(e, asOf, i) && e.transitions[i].at <= time {
      assert SeenTerminal(e, asOf, e.transitions[i]);
    }
  }

  /** The standings of an epoch that gives no answer about the claim: each names the first thing that is wrong. */
  lemma {:induction false} EpochStandingsExactly(e: Epoch, snapshot: Option<int>)
    ensures var v, matches, wellFormed := AuthorityStanding(e, snapshot), e.admittedHash == e.capturedHash,
                                          e.expiry.Some? ==> e.activatedAt < e.expiry.value;
      && (v == SnapshotRequired <==> matches && snapshot == None)
      && (v == InvalidEpoch <==> !matches || (snapshot.Some? && !wellFormed))
      && (v == EpochNotYetActive <==> matches && wellFormed && snapshot.Some? && snapshot.value < e.activatedAt)
      && (v == InvalidTransition <==> snapshot.Some? && IsActive(e, snapshot.value) && HasDefect(e, snapshot.value))
      && (v == RollbackConflict <==>
            snapshot.Some? && IsActive(e, snapshot.value) && !HasDefect(e, snapshot.value) && HasRollback(e, snapshot.value))
      && (v == TransitionConflict <==>
            && snapshot.Some? && IsActive(e, snapshot.value) && !HasDefect(e, snapshot.value)
            && !HasRollback(e, snapshot.value) && HasRivals(e, snapshot.value))
  {
    if snapshot.Some? {
      DefectMeans(e, snapshot.value);
      RollbackAtPositions(e, snapshot.value);
      RivalsAtPositions(e, snapshot.value);
    }
  }

  /** The epoch is active, and its visible transitions raise no objection. */
  ghost predicate IsSound(e: Epoch, asOf: int) {
    IsActive(e, asOf) && !HasDefect(e, asOf) && !HasRollback(e, asOf) && !HasRivals(e, asOf)
  }

  /**
   Of a sound epoch: a claim anchored after the snapshot is not seen; otherwise it is out of authority exactly
   when it names another epoch, or is anchored before the activation or not before every visible end.
   */
  lemma {:induction false} ClaimStandingsExactly(e: Epoch, asOf: int)
    ensures var v, claim := AuthorityStanding(e, Some(asOf)), e.claim;
      && (v == ClaimNotYetVisible <==> IsSound(e, asOf) && claim.anchorTime > asOf)
      && (v == OutOfAuthority <==>
            && IsSound(e, asOf) && claim.anchorTime <= asOf
            && (claim.referencesEpoch != e.epoch || claim.anchorTime < e.activatedAt || EndedBy(e, asOf, claim.anchorTime)))
      && (v == Attributed <==>
            && IsSound(e, asOf) && claim.anchorTime <= asOf && claim.referencesEpoch == e.epoch
            && e.activatedAt <= claim.anchorTime && !EndedBy(e, asOf, claim.anchorTime))
  {
    DefectMeans(e, asOf);
    RollbackAtPositions(e, asOf);
    RivalsAtPositions(e, asOf);
    EndMeans(e, asOf, e.claim.anchorTime);
    EndIsEarliest(e, asOf, e.claim.anchorTime);
  }

  /** The later record adds only transitions after the snapshot. */
  ghost predicate ExtendsEpoch(later: Epoch, earlier: Epoch, asOf: int) {
    && later == earlier.(transitions := later.transitions)
    && forall t: Transition :: t.at <= asOf ==> (t in later.transitions <==> t in earlier.transitions)
  }

  /** Two records with the same rules, the first seeing no more than the second. */
  ghost predicate SeesNoMore(e: Epoch, s: int, f: Epoch, t: int) {
    f == e.(transitions := f.transitions) && forall u :: Seen(e, s, u) ==> Seen(f, t, u)
  }

  lemma {:induction false} MalformedGrows(e: Epoch, s: int, f: Epoch, t: int)
    requires SeesNoMore(e, s, f, t) && Malformed(e, s)
    ensures Malformed(f, t)
  {
    if u :| u in e.transitions && Seen(e, s, u) && !Terminal(u) && u.kind != "reactivated" {
      assert Seen(f, t, u);
    } else if u :| u in e.transitions && SeenTerminal(e, s, u) && u.at < e.activatedAt {
      assert SeenTerminal(f, t, u);
    } else {
      var u :| u in e.transitions && Seen(e, s, u) && u.kind == "superseded" && !u.namesSuccessor;
      assert Seen(f, t, u);
    }
  }

  lemma {:induction false} ConflictsGrow(e: Epoch, s: int, f: Epoch, t: int)
    requires SeesNoMore(e, s, f, t)
    ensures RolledBack(e, s) ==> RolledBack(f, t)
    ensures Competing(e, s) ==> Competing(f, t)
  {
    RollbackMeans(e, s);
    RollbackMeans(f, t);
    if RolledBack(e, s) {
      var r, u :| Seen(e, s, r) && r.kind == "reactivated" && SeenTerminal(e, s, u) && r.at > u.at;
      assert Seen(f, t, r) && SeenTerminal(f, t, u);
    }
    if Competing(e, s) {
      var u, v :| u in e.transitions && v in e.transitions
        && SeenTerminal(e, s, u) && SeenTerminal(e, s, v) && (u.kind != v.kind || u.at != v.at);
      assert SeenTerminal(f, t, u) && SeenTerminal(f, t, v);
    }
  }

  /** Transitions after the snapshot never change its verdict. */
  lemma {:induction false} FutureTransitionsIgnored(later: Epoch, earlier: Epoch, asOf: int)
    requires ExtendsEpoch(later, earlier, asOf)
    ensures AuthorityStanding(later, Some(asOf)) == AuthorityStanding(earlier, Some(asOf))
  {
    assert SeesNoMore(later, asOf, earlier, asOf) && SeesNoMore(earlier, asOf, later, asOf);
    SameDefects(later, earlier, asOf);
    EndIsEarliest(later, asOf, later.claim.anchorTime);
    EndIsEarliest(earlier, asOf, later.claim.anchorTime);
    assert forall u :: SeenTerminal(later, asOf, u) <==> SeenTerminal(earlier, asOf, u);
  }

  lemma {:induction false} SameDefects(e: Epoch, f: Epoch, asOf: int)
    requires SeesNoMore(e, asOf, f, asOf) && SeesNoMore(f, asOf, e, asOf)
    ensures Malformed(e, asOf) == Malformed(f, asOf) && RolledBack(e, asOf) == RolledBack(f, asOf)
    ensures Competing(e, asOf) == Competing(f, asOf)
  {
    if Malformed(e, asOf) {
      MalformedGrows(e, asOf, f, asOf);
    } else if Malformed(f, asOf) {
      MalformedGrows(f, asOf, e, asOf);
    }
    ConflictsGrow(e, asOf, f, asOf);
    ConflictsGrow(f, asOf, e, asOf);
  }

  /** How a standing may change as the snapshot advances: never from attributed to out of authority. */
  predicate MayTurn(v: Standing, w: Standing) {
    match v
    case InvalidEpoch => w == InvalidEpoch
    case SnapshotRequired => false
    case EpochNotYetActive => w != InvalidEpoch && w != SnapshotRequired
    case ClaimNotYetVisible => w !in {InvalidEpoch, SnapshotRequired, EpochNotYetActive}
    case Attributed => w in {Attributed, InvalidTransition, RollbackConflict, TransitionConflict}
    case OutOfAuthority => w in {OutOfAuthority, InvalidTransition, RollbackConflict, TransitionConflict}
    case TransitionConflict => w in {TransitionConflict, RollbackConflict, InvalidTransition}
    case RollbackConflict => w in {RollbackConflict, InvalidTransition}
    case InvalidTransition => w == InvalidTransition
  }

  lemma {:induction false} DefectsPersist(e: Epoch, s: int, t: int)
    requires s <= t
    ensures Malformed(e, s) ==> Malformed(e, t)
    ensures RolledBack(e, s) ==> RolledBack(e, t)
    ensures Competing(e, s) ==> Competing(e, t)
  {
    assert SeesNoMore(e, s, e, t);
    if Malformed(e, s) {
      MalformedGrows(e, s, e, t);
    }
    ConflictsGrow(e, s, e, t);
  }

  /** A later snapshot sees no new end at or before an earlier time. */
  lemma {:induction false} EndsStay(e: Epoch, s: int, t: int, time: int)
    requires s <= t
    ensures BeforeEveryEnd(e, t, time) ==> BeforeEveryEnd(e, s, time)
    ensures time <= s && BeforeEveryEnd(e, s, time) ==> BeforeEveryEnd(e, t, time)
  {
    assert forall u :: Seen(e, s, u) ==> Seen(e, t, u);
  }

  /** Standings only move forward, and a claim once attributed is not retroactively put out of authority. */
  lemma {:induction false} AuthorityMovesForward(earlier: Epoch, s: int, later: Epoch, t: int)
    requires s <= t && ExtendsEpoch(later, earlier, s)
    ensures MayTurn(AuthorityStanding(earlier, Some(s)), AuthorityStanding(later, Some(t)))
  {
    var anchor := later.claim.anchorTime;
    FutureTransitionsIgnored(later, earlier, s);
    DefectsPersist(later, s, t);
    EndsStay(later, s, t, anchor);
    EndIsEarliest(later, s, anchor);
    EndIsEarliest(later, t, anchor);
  }

  /** What is attributed now was attributed at every snapshot since the claim's own anchor time. */
  lemma {:induction false} AttributedSinceAnchor(e: Epoch, s: int, t: int)
    requires AuthorityStanding(e, Some(t)) == Attributed && e.claim.anchorTime <= s <= t
    ensures AuthorityStanding(e, Some(s)) == Attributed
  {
    DefectsPersist(e, s, t);
    EndsStay(e, s, t, e.claim.anchorTime);
    EndIsEarliest(e, s, e.claim.anchorTime);
    EndIsEarliest(e, t, e.claim.anchorTime);
  }
}
