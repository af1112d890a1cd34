/** Every reason code of the admission-trace checker, over the bare schedule. */
module BoundaryReasons {
  import opened Wrappers
  import opened Boundary
  import opened BoundaryHistory
  import opened BoundaryTheorems
  import opened BoundaryVerdicts

  // ---------- what each code says of a step ----------

  /** The only CHECK of w before j stands at m. */
  predicate ChecksAt(s: seq<Step>, j: nat, w: Writer, m: int) {
    0 <= m < j <= |s| && s[m].Check? && s[m].writer == w
  }

  predicate PolicyBetween(s: seq<Step>, m: int, j: nat) {
    exists p :: 0 <= m <= p < j <= |s| && s[p].Policy?
  }

  /** The commit at i is the first under its identity. */
  predicate FirstCommit(c: Input, s: seq<Step>, i: int, id: string) {
    && 0 <= i < |s| && CommitsAs(c, s[i], id)
    && forall h :: 0 <= h < i ==> !CommitsAs(c, s[h], id)
  }

  predicate CommitsAs(c: Input, step: Step, id: string) {
    IsCommit(step) && step.writer in c.writers && c.Id(step.writer) == id
  }

  /** The step at j replaced another version than its writer read. */
  ghost predicate Interrupted(s: seq<Step>, j: nat) {
    j < |s| && s[j].Finish? &&
    exists i :: 0 <= i < j && s[i].Read? && s[i].writer == s[j].writer && !Uninterrupted(s, i, j)
  }

  /** The step at j calls for the reason r. */
  ghost predicate Calls(c: Input, j: nat, r: Reason)
    requires j < |c.schedule|
  {
    var s, step := c.schedule, c.schedule[j];
    match r
    case EventCheckMissing => IsCommit(step) && forall m :: !ChecksAt(s, j, step.writer, m)
    case PeriodicPassNotAuthority => IsCommit(step) && exists m :: ChecksAt(s, j, step.writer, m) && s[m].mode == PeriodicPassOnly
    case EventPolicyVersionStale =>
      IsCommit(step) && exists m :: ChecksAt(s, j, step.writer, m) && s[m].mode == EventReevaluated && PolicyBetween(s, m, j)
    case PredicateFalse =>
      IsCommit(step) && step.writer in c.writers && c.writers[step.writer].amount > CeilingAfter(c, s[..j])
      && exists m :: ChecksAt(s, j, step.writer, m) && s[m].mode == EventReevaluated && !PolicyBetween(s, m, j)
    case RejectionWithoutEventCheck => step.Finish? && step.outcome == Reject && !CheckedBefore(s, j, step.writer)
    case SerializationOverlap => c.Declared() && step.Read? && exists v :: Open(s[..j], v)
    case CasVersionMismatch => IsCommit(step) && step.cas && Interrupted(s, j)
    case SerializedStaleWrite => IsCommit(step) && !step.cas && c.Declared() && Interrupted(s, j)
    case NonatomicConcurrentWrite => IsCommit(step) && !step.cas && !c.Declared() && Overlapped(s[..j], step.writer)
    case NoAtomicOrSerializationEvidence => IsCommit(step) && !step.cas && !c.Declared() && !Overlapped(s[..j], step.writer)
    case SecondTransitionSameIdentity =>
      c.keyed && IsCommit(step) && step.writer in c.writers && exists i :: 0 <= i < j && CommitsAs(c, s[i], c.Id(step.writer))
    case ReplayReceiptChanged =>
      c.keyed && step.Finish? && step.outcome == Replay && step.writer in c.writers
      && exists i :: FirstCommit(c, s[..j], i, c.Id(step.writer)) && s[i].index != step.index
    case _ => false
  }

  // ---------- event time ----------

  lemma {:induction false} EventCalls(c: Input, j: nat)
    requires Run(c, c.schedule).Some? && j < |c.schedule| && IsCommit(c.schedule[j])
    ensures forall r :: r in EventFindings(c, c.schedule[..j], c.schedule[j]) <==>
              r in {EventCheckMissing, PeriodicPassNotAuthority, EventPolicyVersionStale, PredicateFalse} && Calls(c, j, r)
  {
    var s, w := c.schedule, c.schedule[j].writer;
    var before := s[..j];
    FinishIsAt(c, s, j, w);
    StepAt(c, s, j);
    WhoIsExact(c, before, w);
    var k := CheckPos(before, w);
    forall m
      ensures ChecksAt(s, j, w, m) <==> m == k && k >= 0
    {
      if ChecksAt(s, j, w, m) {
        CheckIsAt(c, before, m, w);
      }
    }
    if k >= 0 {
      assert before[..k] == s[..k] && ChecksAt(s, j, w, k);
      PolicyOnlyRises(c, before, k);
      assert forall m :: k <= m < j ==> before[m] == s[m];
      ModeIsKnown(c, before, k);
    }
  }

  lemma {:induction false} ModeIsKnown(c: Input, s: seq<Step>, k: nat)
    requires Run(c, s).Some? && k < |s| && s[k].Check?
    ensures s[k].mode != UnknownMode
  {
    StepAt(c, s, k);
  }

  lemma {:induction false} RejectionCalls(c: Input, j: nat)
    requires Run(c, c.schedule).Some? && j < |c.schedule|
    ensures forall r :: r in EventGaps(c.schedule[..j], c.schedule[j]) <==> r == RejectionWithoutEventCheck && Calls(c, j, r)
  {
    var step := c.schedule[j];
    if step.Finish? && step.outcome == Reject {
      RejectionChecked(c, j);
    }
  }

  // ---------- concurrency ----------

  lemma {:induction false} InterruptedIsStale(c: Input, j: nat)
    requires Run(c, c.schedule).Some? && j < |c.schedule| && IsCommit(c.schedule[j])
    ensures ReadPos(c.schedule[..j], c.schedule[j].writer) >= 0
    ensures Interrupted(c.schedule, j) <==> Stale(c.schedule[..j], c.schedule[j].writer)
  {
    var s, w := c.schedule, c.schedule[j].writer;
    var i := ReadPos(s, w);
    StaleIsInterrupted(c, s, j);
    FinishIsAt(c, s, j, w);
    assert 0 <= i < j && s[i].Read? && s[i].writer == w;
    forall k | 0 <= k < j && s[k].Read? && s[k].writer == w
      ensures k == i
    {
      ReadIsAt(c, s, k, w);
    }
  }

  lemma {:induction false} ConcurrencyCalls(c: Input, j: nat)
    requires Run(c, c.schedule).Some? && j < |c.schedule|
    ensures forall r :: r in ConcurrencyFindings(c, c.schedule[..j], c.schedule[j]) <==>
              r in {SerializationOverlap, CasVersionMismatch, NonatomicConcurrentWrite, SerializedStaleWrite} && Calls(c, j, r)
    ensures forall r :: r in ConcurrencyGaps(c, c.schedule[..j], c.schedule[j]) <==>
              r == NoAtomicOrSerializationEvidence && Calls(c, j, r)
  {
    if IsCommit(c.schedule[j]) {
      InterruptedIsStale(c, j);
    }
  }

  // ---------- idempotency ----------

  lemma {:induction false} ReceiptIsOfFirst(c: Input, s: seq<Step>, id: string)
    requires Run(c, s).Some?
    ensures ReceiptOf(c, s, id).Some? <==> exists i :: FirstCommit(c, s, i, id)
    ensures ReceiptOf(c, s, id).Some? <==> exists i :: 0 <= i < |s| && CommitsAs(c, s[i], id)
    ensures forall i :: FirstCommit(c, s, i, id) ==> s[i].index == Integer(ReceiptOf(c, s, id).value)
  {
    if s != [] {
      var p, n := Front(s), |s| - 1;
      RunPrefix(c, s);
      ReceiptIsOfFirst(c, p, id);
      forall i
        ensures FirstCommit(c, s, i, id) <==> FirstCommit(c, p, i, id) || (i == n && CommitsAs(c, s[n], id) && ReceiptOf(c, p, id) == None)
      {
        assert forall h :: 0 <= h < n ==> p[h] == s[h];
      }
      if i :| 0 <= i < |p| && CommitsAs(c, p[i], id) {
        assert CommitsAs(c, s[i], id);
      }
      if i :| 0 <= i < |s| && CommitsAs(c, s[i], id) {
        assert i < n ==> CommitsAs(c, p[i], id);
      }
      if i :| FirstCommit(c, p, i, id) {
        assert FirstCommit(c, s, i, id);
      } else if CommitsAs(c, s[n], id) {
        assert FirstCommit(c, s, n, id);
      }
      if IsCommit(Last(s)) {
        CommitIndex(c, s, n);
      }
    }
  }

  lemma {:induction false} IdemCalls(c: Input, j: nat)
    requires Run(c, c.schedule).Some? && j < |c.schedule|
    ensures forall r :: r in IdemFindings(c, c.schedule[..j], c.schedule[j]) <==>
              r in {SecondTransitionSameIdentity, ReplayReceiptChanged} && Calls(c, j, r)
  {
    var s, step := c.schedule, c.schedule[j];
    if step.Finish? && step.writer in c.writers && c.keyed {
      var before, id := s[..j], c.Id(step.writer);
      StepAt(c, s, j);
      ReceiptIsOfFirst(c, before, id);
      assert forall i :: 0 <= i < j ==> before[i] == s[i];
      if i :| 0 <= i < j && CommitsAs(c, s[i], id) {
        assert CommitsAs(c, before[i], id);
      }
      if step.outcome == Replay {
        ReplayHasReceipt(c, j);
        var r := ReceiptOf(c, before, id);
        var i :| FirstCommit(c, before, i, id);
        assert s[i].index == Integer(r.value);
        forall h | FirstCommit(c, before, h, id)
          ensures s[h].index == Integer(r.value)
        {
          assert before[h].index == Integer(r.value);
        }
      }
    }
  }

  // ---------- the reported codes ----------

  /** Every code that a step can give is reported exactly when some step of a consistent schedule calls for it. */
  lemma {:induction false} ReasonsExactly(c: Input, r: Reason)
    requires !IsOfRun(r)
    ensures r in Evaluate(c).reasons <==>
            Consistent(c) && exists j :: 0 <= j < |c.schedule| && Calls(c, j, r)
  {
    ConsistentRuns(c);
    if Consistent(c) {
      ReasonsOfSteps(c, Run(c, c.schedule).value, r);
      ReasonsAreExact(c, c.schedule);
      GatheredSomewhere(c, r);
      forall j | 0 <= j < |c.schedule|
        ensures Calls(c, j, r) <==> GivenAt(c, j, r)
      {
        CallsExactly(c, j, r);
      }
    }
  }

  ghost predicate GatheredAnywhere(c: Input, r: Reason) {
    var s := c.schedule;
    || r in Gathered(EventAt(c), s) || r in Gathered(EventGapAt(), s) || r in Gathered(ConcurrencyAt(c), s)
    || r in Gathered(ConcurrencyGapAt(c), s) || r in Gathered(IdemAt(c), s)
  }

  lemma {:induction false} GatheredSomewhere(c: Input, r: Reason)
    ensures GatheredAnywhere(c, r) <==> exists j :: 0 <= j < |c.schedule| && GivenAt(c, j, r)
  {
    if j :| 0 <= j < |c.schedule| && GivenAt(c, j, r) {
      SomewhereGathered(c, j, r);
    } else {
      NowhereGiven(c, r);
    }
  }

  lemma {:induction false} SomewhereGathered(c: Input, j: nat, r: Reason)
    requires j < |c.schedule| && GivenAt(c, j, r)
    ensures GatheredAnywhere(c, r)
  {
    var s := c.schedule;
    if r in EventAt(c)(s[..j], s[j]) {
      GatheredAt(EventAt(c), s, r);
    } else if r in EventGapAt()(s[..j], s[j]) {
      GatheredAt(EventGapAt(), s, r);
    } else if r in ConcurrencyAt(c)(s[..j], s[j]) {
      GatheredAt(ConcurrencyAt(c), s, r);
    } else if r in ConcurrencyGapAt(c)(s[..j], s[j]) {
      GatheredAt(ConcurrencyGapAt(c), s, r);
    } else {
      GatheredAt(IdemAt(c), s, r);
    }
  }

  lemma {:induction false} GivenSomewhere(c: Input, findings: (seq<Step>, Step) -> set<Reason>, r: Reason)
    requires forall j {:trigger GivenAt(c, j, r)} :: 0 <= j < |c.schedule| ==> !GivenAt(c, j, r)
    requires forall j :: 0 <= j < |c.schedule| && r in findings(c.schedule[..j], c.schedule[j]) ==> GivenAt(c, j, r)
    ensures r !in Gathered(findings, c.schedule)
  {
    GatheredAt(findings, c.schedule, r);
  }

  lemma {:induction false} NowhereGiven(c: Input, r: Reason)
    requires forall j {:trigger GivenAt(c, j, r)} :: 0 <= j < |c.schedule| ==> !GivenAt(c, j, r)
    ensures !GatheredAnywhere(c, r)
  {
    GivenSomewhere(c, EventAt(c), r);
    GivenSomewhere(c, EventGapAt(), r);
    GivenSomewhere(c, ConcurrencyAt(c), r);
    GivenSomewhere(c, ConcurrencyGapAt(c), r);
    GivenSomewhere(c, IdemAt(c), r);
  }

  /** The checker gives the reason at step j. */
  ghost predicate GivenAt(c: Input, j: nat, r: Reason)
    requires j < |c.schedule|
  {
    var before, step := c.schedule[..j], c.schedule[j];
    || r in EventAt(c)(before, step) || r in EventGapAt()(before, step) || r in ConcurrencyAt(c)(before, step)
    || r in ConcurrencyGapAt(c)(before, step) || r in IdemAt(c)(before, step)
  }

  lemma {:induction false} GivenInTime(c: Input, j: nat, r: Reason)
    requires Run(c, c.schedule).Some? && j < |c.schedule|
    ensures r in EventFindings(c, c.schedule[..j], c.schedule[j]) <==>
            r in {EventCheckMissing, PeriodicPassNotAuthority, EventPolicyVersionStale, PredicateFalse} && Calls(c, j, r)
    ensures r in EventGaps(c.schedule[..j], c.schedule[j]) <==> r == RejectionWithoutEventCheck && Calls(c, j, r)
  {
    if IsCommit(c.schedule[j]) {
      EventCalls(c, j);
    }
    RejectionCalls(c, j);
  }

  lemma {:induction false} GivenInExclusion(c: Input, j: nat, r: Reason)
    requires Run(c, c.schedule).Some? && j < |c.schedule|
    ensures r in ConcurrencyFindings(c, c.schedule[..j], c.schedule[j]) <==>
            r in {SerializationOverlap, CasVersionMismatch, NonatomicConcurrentWrite, SerializedStaleWrite} && Calls(c, j, r)
    ensures r in ConcurrencyGaps(c, c.schedule[..j], c.schedule[j]) <==> r == NoAtomicOrSerializationEvidence && Calls(c, j, r)
    ensures r in IdemFindings(c, c.schedule[..j], c.schedule[j]) <==>
            r in {SecondTransitionSameIdentity, ReplayReceiptChanged} && Calls(c, j, r)
  {
    ConcurrencyCalls(c, j);
    IdemCalls(c, j);
  }

  lemma {:induction false} CallsExactly(c: Input, j: nat, r: Reason)
    requires Run(c, c.schedule).Some? && j < |c.schedule|
    ensures Calls(c, j, r) <==> GivenAt(c, j, r)
  {
    GivenInTime(c, j, r);
    GivenInExclusion(c, j, r);
  }

  lemma {:induction false} ReasonsOfSteps(c: Input, st: State, r: Reason)
    requires ValidInput(c) && Run(c, c.schedule) == Some(st) && !IsOfRun(r)
    ensures r in Evaluate(c).reasons <==>
            r in st.eventBad || r in st.eventUnknown || r in st.concurrencyBad || r in st.concurrencyUnknown || r in st.idemBad
  {
  }
}
