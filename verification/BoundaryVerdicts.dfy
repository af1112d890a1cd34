/**
 Every verdict of the admission-trace checker, over the bare schedule: which schedules are consistent,
 when each status is "violated" and when it cannot be established, and when admission is refused or left open.
 */
module BoundaryVerdicts {
  import opened Wrappers
  import opened Boundary
  import opened BoundaryHistory
  import opened BoundaryTheorems

  // ---------- consistent schedules ----------

  /** An AUDIT of w has been made. */
  predicate Audited(s: seq<Step>, w: Writer) {
    exists k :: 0 <= k < |s| && s[k] == Audit(w)
  }

  /** The step fits what came before it. */
  predicate Fits(c: Input, s: seq<Step>, step: Step) {
    match step
    case Policy(version, ceiling) => version == Integer(PolicyAfter(c, s) + 1) && version.n >= 0 && Natural(ceiling)
    case Audit(w) => w in c.writers && ReadPos(s, w) < 0
    case Read(w, expected) =>
      w in c.writers && ReadPos(s, w) < 0 && expected == Integer(c.version + Commits(s)) && expected.n >= 0
    case Check(w, mode) =>
      Open(s, w) && CheckPos(s, w) < 0 && (mode == EventReevaluated || (mode == PeriodicPassOnly && Audited(s, w)))
    case Finish(w, _, outcome, index) =>
      && Open(s, w) && w in c.writers
      && (match outcome
          case Commit => index == Integer(Commits(s))
          case Replay => c.keyed && ReceiptOf(c, s, c.Id(w)).Some? && Natural(index)
          case Reject => index == Absent
          case UnknownOutcome => false)
    case UnknownOp => false
  }

  lemma {:induction false} AuditsAreExact(c: Input, s: seq<Step>, w: Writer)
    requires Run(c, s).Some?
    ensures w in Run(c, s).value.audits <==> Audited(s, w)
  {
    if s != [] {
      RunPrefix(c, s);
      AuditsAreExact(c, Front(s), w);
      AuditKept(c, Run(c, Front(s)).value, Last(s), w);
      if Audited(Front(s), w) {
        var k :| 0 <= k < |Front(s)| && Front(s)[k] == Audit(w);
        assert s[k] == Audit(w);
      }
      if Last(s) == Audit(w) {
        assert s[|s| - 1] == Audit(w);
      }
      if k :| 0 <= k < |s| && s[k] == Audit(w) {
        assert k < |s| - 1 ==> Front(s)[k] == Audit(w);
      }
    }
  }

  /** The last AUDIT of w stands at k. */
  ghost predicate LatestAudit(s: seq<Step>, w: Writer, k: int) {
    0 <= k < |s| && s[k] == Audit(w) && forall m :: k < m < |s| ==> s[m] != Audit(w)
  }

  /** An audit is kept as the last one found it: with the policy and the ceiling of its time. */
  lemma {:induction false} LatestAuditIsExact(c: Input, s: seq<Step>, w: Writer, k: nat)
    requires Run(c, s).Some? && LatestAudit(s, w, k)
    ensures w in Run(c, s).value.audits && w in c.writers
    ensures Run(c, s).value.audits[w] == (PolicyAfter(c, s[..k]), !(CeilingAfter(c, s[..k]) < c.writers[w].amount))
  {
    RunPrefix(c, s);
    assert s[..|s| - 1] == Front(s);
    if k < |s| - 1 {
      assert Front(s)[k] == s[k] && s[..k] == Front(s)[..k];
      assert forall m :: k < m < |Front(s)| ==> Front(s)[m] == s[m];
      LatestAuditIsExact(c, Front(s), w, k);
      AuditKept(c, Run(c, Front(s)).value, Last(s), w);
    } else {
      CountersAreExact(c, Front(s));
    }
  }

  lemma {:induction false} AuditKept(c: Input, st: State, step: Step, w: Writer)
    requires Next(c, st, step).Some?
    ensures w in Next(c, st, step).value.audits <==> w in st.audits || step == Audit(w)
    ensures w in st.audits && step != Audit(w) ==> Next(c, st, step).value.audits[w] == st.audits[w]
  {
  }

  /** What the enabling of a step asks of the state, of its writer alone. */
  lemma {:induction false} WriterIsExact(c: Input, s: seq<Step>, w: Writer)
    requires Run(c, s).Some?
    ensures var st := Run(c, s).value;
      && (w in st.active <==> Open(s, w))
      && (w !in st.active && w !in st.finished <==> ReadPos(s, w) < 0)
      && (w in st.active ==> w in c.writers && (st.active[w].check == None <==> CheckPos(s, w) < 0))
  {
    WhoIsExact(c, s, w);
    if Open(s, w) {
      CheckIsExact(c, s, w);
    }
  }

  lemma {:induction false} FitsExactly(c: Input, s: seq<Step>, step: Step)
    requires Run(c, s).Some?
    ensures Next(c, Run(c, s).value, step).Some? <==> Fits(c, s, step)
  {
    CountersAreExact(c, s);
    if !step.Policy? && !step.UnknownOp? {
      WriterIsExact(c, s, step.writer);
      AuditsAreExact(c, s, step.writer);
      if step.writer in c.writers {
        ReceiptsAreExact(c, s, c.Id(step.writer));
      }
    }
  }

  /** A schedule is consistent exactly when every step fits what came before it. */
  lemma {:induction false} ConsistentExactly(c: Input, s: seq<Step>)
    ensures Run(c, s).Some? <==> forall k :: 0 <= k < |s| ==> Fits(c, s[..k], s[k])
  {
    if s != [] {
      var p := Front(s);
      ConsistentExactly(c, p);
      assert forall k :: 0 <= k < |p| ==> p[..k] == s[..k] && p[k] == s[k];
      assert s[..|s| - 1] == p;
      if Run(c, p).Some? {
        FitsExactly(c, p, Last(s));
      }
    }
  }

  /** Natural numbers, some step, and named writers whose references are not empty and carry one amount each. */
  ghost predicate Proper(c: Input) {
    && c.version >= 0 && c.policy >= 0 && c.ceiling >= 0 && |c.schedule| > 0 && |c.writers| > 0
    && (forall w :: w in c.writers ==> |w| > 0 && |c.writers[w].ref| > 0 && c.writers[w].amount >= 0)
    && !exists v, w :: v in c.writers && w in c.writers
                       && c.writers[v].ref == c.writers[w].ref && c.writers[v].amount < c.writers[w].amount
  }

  lemma {:induction false} ProperExactly(c: Input)
    ensures Proper(c) <==> ValidInput(c)
  {
    if Proper(c) {
      forall v, w | v in c.writers && w in c.writers && c.writers[v].ref == c.writers[w].ref
        ensures c.writers[v].amount == c.writers[w].amount
      {
        assert !(c.writers[v].amount < c.writers[w].amount) && !(c.writers[w].amount < c.writers[v].amount);
      }
    }
  }

  ghost predicate Consistent(c: Input) {
    Proper(c) && forall k :: 0 <= k < |c.schedule| ==> Fits(c, c.schedule[..k], c.schedule[k])
  }

  lemma {:induction false} ConsistentRuns(c: Input)
    ensures Consistent(c) <==> ValidInput(c) && Run(c, c.schedule).Some?
  {
    ProperExactly(c);
    ConsistentExactly(c, c.schedule);
  }

  // ---------- statuses, in terms of the state ----------

  lemma {:induction false} StatusMeans(c: Input, st: State)
    requires ValidInput(c) && Run(c, c.schedule) == Some(st)
    ensures Evaluate(c).event == Violated <==> st.eventBad != {}
    ensures Evaluate(c).event == CannotEstablish <==> st.eventBad == {} && (st.eventUnknown != {} || Incomplete(c, st))
    ensures Evaluate(c).concurrency == Violated <==> st.concurrencyBad != {}
    ensures Evaluate(c).concurrency == CannotEstablish <==>
            st.concurrencyBad == {} && (st.concurrencyUnknown != {} || Incomplete(c, st))
    ensures Evaluate(c).idempotency == Violated <==> c.keyed && st.idemBad != {}
    ensures Evaluate(c).idempotency == CannotEstablish <==> c.keyed && st.idemBad == {} && Incomplete(c, st)
    ensures Evaluate(c).idempotency == NotApplicable <==> !c.keyed
  {
    assert Incomplete(c, st) ==> IncompleteSchedule in When(Incomplete(c, st), IncompleteSchedule);
  }

  // ---------- the event-time status ----------

  /** Event time is violated exactly by a commit without authority at its own time. */
  lemma {:induction false} EventViolatedExactly(c: Input)
    ensures Evaluate(c).event == Violated <==> Consistent(c) && !CommitsAreAuthorized(c)
    ensures Evaluate(c).event == CannotEstablish <==>
            !Consistent(c) || (CommitsAreAuthorized(c) && !(Finished(c) && RejectionsAreChecked(c.schedule)))
  {
    ConsistentRuns(c);
    if Consistent(c) {
      StatusMeans(c, Run(c, c.schedule).value);
      ReasonsAreExact(c, c.schedule);
      FinishedIsComplete(c);
      NothingGathered(EventAt(c), c.schedule);
      NothingGathered(EventGapAt(), c.schedule);
      EventStepsExactly(c);
    }
  }

  // ---------- the concurrency status ----------

  /** A commit that is protected replaced another version than it read, or one that is not was overlapped. */
  ghost predicate CommitBroken(c: Input, j: nat)
    requires j < |c.schedule| && IsCommit(c.schedule[j])
  {
    var s, w := c.schedule, c.schedule[j].writer;
    if s[j].cas || c.Declared() then exists i :: 0 <= i < j && s[i].Read? && s[i].writer == w && !Uninterrupted(s, i, j)
    else Overlapped(s[..j], w)
  }

  /** Some commit is broken, or attempts meet under a declared discipline. */
  ghost predicate ExclusionBroken(c: Input) {
    || (c.Declared() && !AttemptsAreApart(c.schedule))
    || exists j :: 0 <= j < |c.schedule| && IsCommit(c.schedule[j]) && CommitBroken(c, j)
  }

  lemma {:induction false} BrokenCommit(c: Input, j: nat)
    requires Run(c, c.schedule).Some? && j < |c.schedule| && IsCommit(c.schedule[j])
    ensures ConcurrencyFindings(c, c.schedule[..j], c.schedule[j]) != {} <==> CommitBroken(c, j)
  {
    var s, w := c.schedule, c.schedule[j].writer;
    var i := ReadPos(s, w);
    StaleIsInterrupted(c, s, j);
    FinishIsAt(c, s, j, w);
    assert 0 <= i < j && s[i].Read? && s[i].writer == w;
    forall k | 0 <= k < j && s[k].Read? && s[k].writer == w
      ensures k == i
    {
      ReadIsAt(c, s, k, w);
    }
    WhenHolds(Stale(s[..j], w), CasVersionMismatch);
    WhenHolds(Stale(s[..j], w), SerializedStaleWrite);
    WhenHolds(Overlapped(s[..j], w), NonatomicConcurrentWrite);
  }

  lemma {:induction false} WhenHolds(b: bool, r: Reason)
    ensures When(b, r) != {} <==> b
  {
    assert b ==> r in When(b, r);
  }

  lemma {:induction false} FindingsExactly(c: Input)
    requires Run(c, c.schedule).Some?
    ensures (exists k :: 0 <= k < |c.schedule| && ConcurrencyFindings(c, c.schedule[..k], c.schedule[k]) != {})
            <==> ExclusionBroken(c)
  {
    var s := c.schedule;
    if k :| 0 <= k < |s| && ConcurrencyFindings(c, s[..k], s[k]) != {} {
      if IsCommit(s[k]) {
        BrokenCommit(c, k);
      } else {
        var v := FoundMeeting(c, s, k);
        assert Meets(s, v, s[k].writer);
      }
    }
    if c.Declared() && !AttemptsAreApart(s) {
      var v, w :| v != w && Meets(s, v, w);
      MeetingIsFound(c, s, v, w);
      GatheredAt(ConcurrencyAt(c), s, SerializationOverlap);
      var k :| 0 <= k < |s| && SerializationOverlap in ConcurrencyAt(c)(s[..k], s[k]);
      assert ConcurrencyFindings(c, s[..k], s[k]) != {};
    }
    if j :| 0 <= j < |s| && IsCommit(s[j]) && CommitBroken(c, j) {
      BrokenCommit(c, j);
    }
  }

  /** A commit that is not broken leaves a gap exactly when it is unprotected. */
  lemma {:induction false} GapsExactly(c: Input)
    requires Run(c, c.schedule).Some? && !ExclusionBroken(c)
    ensures (exists k :: 0 <= k < |c.schedule| && ConcurrencyGaps(c, c.schedule[..k], c.schedule[k]) != {})
            <==> !CommitsAreProtected(c)
  {
    var s := c.schedule;
    forall k | 0 <= k < |s|
      ensures ConcurrencyGaps(c, s[..k], s[k]) != {} <==> IsCommit(s[k]) && !s[k].cas && !c.Declared()
    {
      if IsCommit(s[k]) {
        assert !CommitBroken(c, k);
        WhenHolds(!s[k].cas && !c.Declared() && !Overlapped(s[..k], s[k].writer), NoAtomicOrSerializationEvidence);
      }
    }
  }

  /** Concurrency is violated exactly by a broken commit, or by attempts that meet against a declared discipline. */
  lemma {:induction false} ConcurrencyViolatedExactly(c: Input)
    ensures Evaluate(c).concurrency == Violated <==> Consistent(c) && ExclusionBroken(c)
    ensures Evaluate(c).concurrency == CannotEstablish <==>
            !Consistent(c) || (!ExclusionBroken(c) && !(Finished(c) && CommitsAreProtected(c)))
  {
    ConsistentRuns(c);
    if Consistent(c) {
      StatusMeans(c, Run(c, c.schedule).value);
      ReasonsAreExact(c, c.schedule);
      FinishedIsComplete(c);
      NothingGathered(ConcurrencyAt(c), c.schedule);
      NothingGathered(ConcurrencyGapAt(c), c.schedule);
      FindingsExactly(c);
      if !ExclusionBroken(c) {
        GapsExactly(c);
      }
    }
  }

  // ---------- the idempotency status ----------

  ghost predicate IdentityBroken(c: Input) {
    c.keyed && !(OneCommitPerRef(c) && ReplaysReturnReceipts(c))
  }

  lemma {:induction false} IdemFindingsExactly(c: Input)
    requires Run(c, c.schedule).Some? && IdentityTellsApart(c) && c.keyed
    ensures (forall j :: 0 <= j < |c.schedule| ==> IdemFindings(c, c.schedule[..j], c.schedule[j]) == {})
            <==> OneCommitPerRef(c) && ReplaysReturnReceipts(c)
  {
    if forall j :: 0 <= j < |c.schedule| ==> IdemFindings(c, c.schedule[..j], c.schedule[j]) == {} {
      IdemStepsSound(c);
    } else if OneCommitPerRef(c) && ReplaysReturnReceipts(c) {
      forall j | 0 <= j < |c.schedule|
        ensures IdemFindings(c, c.schedule[..j], c.schedule[j]) == {}
      {
        IdemStepComplete(c, j);
      }
    }
  }

  lemma {:induction false} IdemBadExactly(c: Input, st: State)
    requires Run(c, c.schedule) == Some(st) && IdentityTellsApart(c) && c.keyed
    ensures st.idemBad != {} <==> IdentityBroken(c)
  {
    ReasonsAreExact(c, c.schedule);
    NothingGathered(IdemAt(c), c.schedule);
    IdemFindingsExactly(c);
  }

  /** Idempotency is violated exactly by a second transition of a reference, or by a replay of another index. */
  lemma {:induction false} IdempotencyViolatedExactly(c: Input)
    requires IdentityTellsApart(c)
    ensures Evaluate(c).idempotency == Violated <==> Consistent(c) && IdentityBroken(c)
    ensures Evaluate(c).idempotency == CannotEstablish <==>
            !Consistent(c) || (c.keyed && !IdentityBroken(c) && !Finished(c))
    ensures Evaluate(c).idempotency == NotApplicable <==> Consistent(c) && !c.keyed
  {
    ConsistentRuns(c);
    if Consistent(c) {
      var st := Run(c, c.schedule).value;
      StatusMeans(c, st);
      FinishedIsComplete(c);
      if c.keyed {
        IdemBadExactly(c, st);
      }
    }
  }

  // ---------- admission ----------

  /** Some obligation is broken. */
  ghost predicate Broken(c: Input) {
    !CommitsAreAuthorized(c) || ExclusionBroken(c) || IdentityBroken(c)
  }

  /** Nothing is left open. */
  ghost predicate Settled(c: Input) {
    Finished(c) && RejectionsAreChecked(c.schedule) && CommitsAreProtected(c)
  }

  ghost predicate HasEffect(s: seq<Step>) {
    HasFinish(s, Commit) || HasFinish(s, Replay)
  }

  /** The three verdicts, in terms of the statuses. */
  lemma {:induction false} VerdictByStatuses(c: Input, st: State)
    requires ValidInput(c) && Run(c, c.schedule) == Some(st)
    ensures var statuses := {Evaluate(c).event, Evaluate(c).concurrency, Evaluate(c).idempotency};
      var effect := st.transitions > 0 || exists i :: 0 <= i < |st.results| && st.results[i].outcome == Replay;
      && (Evaluate(c).admission == Refuse <==>
            Violated in statuses || (CannotEstablish !in statuses && !effect))
      && (Evaluate(c).admission == Undetermined <==> Violated !in statuses && CannotEstablish in statuses)
  {
  }

  /**
   Admission is refused exactly when some obligation is broken, or when nothing is open and nothing was done;
   it is left open exactly for an inconsistent schedule, or when nothing is broken and something is open.
   */
  lemma {:induction false} RefusedExactly(c: Input)
    requires IdentityTellsApart(c)
    ensures Evaluate(c).admission == Refuse <==>
            Consistent(c) && (Broken(c) || (Settled(c) && !HasEffect(c.schedule)))
    ensures Evaluate(c).admission == Undetermined <==> !Consistent(c) || (!Broken(c) && !Settled(c))
  {
    ConsistentRuns(c);
    if Consistent(c) {
      var st := Run(c, c.schedule).value;
      VerdictByStatuses(c, st);
      StatusesBySchedule(c);
      CommitsAreCounted(c);
      ReplaysAreReported(c, c.schedule);
    }
  }

  lemma {:induction false} StatusesBySchedule(c: Input)
    requires IdentityTellsApart(c) && Consistent(c)
    ensures var statuses := {Evaluate(c).event, Evaluate(c).concurrency, Evaluate(c).idempotency};
      && (Violated in statuses <==> Broken(c))
      && (!Broken(c) ==> (CannotEstablish in statuses <==> !Settled(c)))
  {
    var r := Evaluate(c);
    EventViolatedExactly(c);
    ConcurrencyViolatedExactly(c);
    IdempotencyViolatedExactly(c);
    TheThree(c, r.event, r.concurrency, r.idempotency);
  }

  lemma {:induction false} TheThree(c: Input, event: Status, concurrency: Status, idempotency: Status)
    requires event == Violated <==> !CommitsAreAuthorized(c)
    requires event == CannotEstablish <==> CommitsAreAuthorized(c) && !(Finished(c) && RejectionsAreChecked(c.schedule))
    requires concurrency == Violated <==> ExclusionBroken(c)
    requires concurrency == CannotEstablish <==> !ExclusionBroken(c) && !(Finished(c) && CommitsAreProtected(c))
    requires idempotency == Violated <==> IdentityBroken(c)
    requires idempotency == CannotEstablish <==> c.keyed && !IdentityBroken(c) && !Finished(c)
    ensures var statuses := {event, concurrency, idempotency};
      && (Violated in statuses <==> Broken(c))
      && (!Broken(c) ==> (CannotEstablish in statuses <==> !Settled(c)))
  {
  }

  // ---------- the rest of the report ----------

  /** The completions of attempts, in the order of the schedule. */
  function Completions(s: seq<Step>): seq<Observed> {
    if s == [] then []
    else Completions(Front(s)) + if Last(s).Finish? then [Observed(Last(s).writer, Last(s).outcome, Last(s).index)] else []
  }

  lemma {:induction false} ResultsAreExact(c: Input, s: seq<Step>)
    requires Run(c, s).Some?
    ensures Run(c, s).value.results == Completions(s)
  {
    if s != [] {
      RunPrefix(c, s);
      ResultsAreExact(c, Front(s));
      ResultsGrow(c, Run(c, Front(s)).value, Last(s));
    }
  }

  lemma {:induction false} CasIsExact(c: Input, s: seq<Step>)
    requires Run(c, s).Some?
    ensures Run(c, s).value.usedCas <==> UsesCas(s)
  {
    if s != [] {
      RunPrefix(c, s);
      CasIsExact(c, Front(s));
      CasGrows(c, Run(c, Front(s)).value, Last(s));
      if k :| 0 <= k < |s| - 1 && Front(s)[k].Finish? && Front(s)[k].cas {
        assert s[k].Finish? && s[k].cas;
      }
      if Last(s).Finish? && Last(s).cas {
        assert s[|s| - 1].Finish? && s[|s| - 1].cas;
      }
      if k :| 0 <= k < |s| && s[k].Finish? && s[k].cas {
        assert k < |s| - 1 ==> Front(s)[k].Finish? && Front(s)[k].cas;
      }
    }
  }

  lemma {:induction false} CasGrows(c: Input, st: State, step: Step)
    requires Next(c, st, step).Some?
    ensures Next(c, st, step).value.usedCas <==> st.usedCas || (step.Finish? && step.cas)
  {
  }

  /** The counts and results of a consistent schedule are its commits and completions; another schedule has none. */
  lemma {:induction false} ReportIsExact(c: Input)
    ensures Consistent(c) ==>
              && Evaluate(c).transitions == Some(Commits(c.schedule))
              && Evaluate(c).finalVersion == Some(c.version + Commits(c.schedule))
              && Evaluate(c).results == Completions(c.schedule)
    ensures !Consistent(c) ==>
              Evaluate(c).transitions == None && Evaluate(c).finalVersion == None && Evaluate(c).results == []
    ensures !Consistent(c) <==> InvalidTrace in Evaluate(c).reasons
    ensures !Consistent(c) <==> Evaluate(c).reasons == {InvalidTrace}
  {
    ConsistentRuns(c);
    if Consistent(c) {
      CountersAreExact(c, c.schedule);
      ResultsAreExact(c, c.schedule);
      StepsGiveTheirOwn(c, c.schedule);
      PositiveReasons(c, Run(c, c.schedule).value, Evaluate(c).reasons);
    }
  }

  /** The reasons that only a whole run can have. */
  predicate IsOfRun(r: Reason) {
    r in {InvalidTrace, IncompleteSchedule, EventTimeEstablished, SafeUnderModeledSerializationAssumption,
          CasScheduleChecked, NoProtectedTransition, IdentityReceiptMappingPreserved}
  }

  lemma {:induction false} NeverGiven(c: Input, s: seq<Step>, step: Step, r: Reason)
    requires IsOfRun(r)
    ensures r !in EventFindings(c, s, step) && r !in EventGaps(s, step) && r !in IdemFindings(c, s, step)
    ensures r !in ConcurrencyFindings(c, s, step) && r !in ConcurrencyGaps(c, s, step)
  {
  }

  /** No step gives them. */
  lemma {:induction false} NeverGathered(c: Input, s: seq<Step>, r: Reason)
    requires IsOfRun(r)
    ensures r !in Gathered(EventAt(c), s) && r !in Gathered(EventGapAt(), s) && r !in Gathered(IdemAt(c), s)
    ensures r !in Gathered(ConcurrencyAt(c), s) && r !in Gathered(ConcurrencyGapAt(c), s)
  {
    if s != [] {
      NeverGathered(c, Front(s), r);
      NeverGiven(c, Front(s), Last(s), r);
    }
  }

  /** No reason of the whole run is among those that the steps gave. */
  ghost predicate OnlyOfSteps(st: State) {
    forall r :: IsOfRun(r) ==>
      r !in st.eventBad + st.eventUnknown + st.concurrencyBad + st.concurrencyUnknown + st.idemBad
  }

  lemma {:induction false} StepsGiveTheirOwn(c: Input, s: seq<Step>)
    requires Run(c, s).Some?
    ensures OnlyOfSteps(Run(c, s).value)
  {
    ReasonsAreExact(c, s);
    forall r | IsOfRun(r)
      ensures var st := Run(c, s).value;
        r !in st.eventBad + st.eventUnknown + st.concurrencyBad + st.concurrencyUnknown + st.idemBad
    {
      NeverGathered(c, s, r);
    }
  }

  lemma {:induction false} PositiveReasons(c: Input, st: State, reasons: set<Reason>)
    requires ValidInput(c) && Run(c, c.schedule) == Some(st) && OnlyOfSteps(st) && reasons == Evaluate(c).reasons
    ensures InvalidTrace !in reasons
    ensures IncompleteSchedule in reasons <==> Incomplete(c, st)
    ensures EventTimeEstablished in reasons <==> Evaluate(c).event == Satisfied
    ensures SafeUnderModeledSerializationAssumption in reasons <==> Evaluate(c).concurrency == Satisfied && c.Declared()
    ensures CasScheduleChecked in reasons <==> Evaluate(c).concurrency == Satisfied && !c.Declared() && st.usedCas
    ensures NoProtectedTransition in reasons <==> Evaluate(c).concurrency == Satisfied && !c.Declared() && !st.usedCas
    ensures IdentityReceiptMappingPreserved in reasons <==> Evaluate(c).idempotency == Satisfied
  {
    assert IsOfRun(InvalidTrace) && IsOfRun(IncompleteSchedule) && IsOfRun(EventTimeEstablished);
    assert IsOfRun(SafeUnderModeledSerializationAssumption) && IsOfRun(CasScheduleChecked);
    assert IsOfRun(NoProtectedTransition) && IsOfRun(IdentityReceiptMappingPreserved);
  }

  predicate UsesCas(s: seq<Step>) {
    exists k :: 0 <= k < |s| && s[k].Finish? && s[k].cas
  }

  /** The reasons that name what holds of the whole schedule. */
  lemma {:induction false} PositiveReasonsExactly(c: Input)
    requires Consistent(c)
    ensures var reasons, exclusive := Evaluate(c).reasons, Evaluate(c).concurrency == Satisfied;
      && (IncompleteSchedule in reasons <==> !Finished(c))
      && (EventTimeEstablished in reasons <==> Evaluate(c).event == Satisfied)
      && (SafeUnderModeledSerializationAssumption in reasons <==> exclusive && c.Declared())
      && (CasScheduleChecked in reasons <==> exclusive && !c.Declared() && UsesCas(c.schedule))
      && (NoProtectedTransition in reasons <==> exclusive && !c.Declared() && !UsesCas(c.schedule))
      && (IdentityReceiptMappingPreserved in reasons <==> Evaluate(c).idempotency == Satisfied)
  {
    ConsistentRuns(c);
    StepsGiveTheirOwn(c, c.schedule);
    FinishedIsComplete(c);
    CasIsExact(c, c.schedule);
    PositiveReasons(c, Run(c, c.schedule).value, Evaluate(c).reasons);
  }
}
