/** What the statuses of the admission-trace checker mean for the whole schedule. */
module BoundaryTheorems {
  import opened Wrappers
  import opened Boundary
  import opened BoundaryHistory

  // ---------- positions in longer and shorter schedules ----------

  lemma {:induction false} PositionsOfPrefix(s: seq<Step>, k: nat, w: Writer)
    requires k <= |s|
    ensures ReadPos(s, w) < k ==> ReadPos(s[..k], w) == ReadPos(s, w)
    ensures FinishPos(s, w) < k ==> FinishPos(s[..k], w) == FinishPos(s, w)
    ensures ReadPos(s[..k], w) <= ReadPos(s, w) && FinishPos(s[..k], w) <= FinishPos(s, w)
  {
    if k < |s| {
      PositionsOfPrefix(Front(s), k, w);
      assert Front(s)[..k] == s[..k];
    } else {
      assert s[..k] == s;
    }
  }

  /** A writer reads once and finishes once. */
  lemma {:induction false} AttemptsAreUnique(c: Input, s: seq<Step>, k: nat, w: Writer)
    requires Run(c, s).Some? && k <= |s|
    ensures ReadPos(s[..k], w) >= 0 ==> ReadPos(s, w) == ReadPos(s[..k], w)
    ensures FinishPos(s[..k], w) >= 0 ==> FinishPos(s, w) == FinishPos(s[..k], w)
    decreases |s|
  {
    if k < |s| {
      RunPrefix(c, s);
      AttemptsAreUnique(c, Front(s), k, w);
      assert Front(s)[..k] == s[..k];
      WhoIsExact(c, Front(s), w);
      StepMoves(c, Run(c, Front(s)).value, Last(s), w);
    } else {
      assert s[..k] == s;
    }
  }

  lemma {:induction false} StepAt(c: Input, s: seq<Step>, k: nat)
    requires Run(c, s).Some? && k < |s|
    ensures Run(c, s[..k]).Some? && Next(c, Run(c, s[..k]).value, s[k]).Some?
  {
    RunOfPrefix(c, s, k + 1);
    RunPrefix(c, s[..k + 1]);
    assert Front(s[..k + 1]) == s[..k];
  }

  lemma {:induction false} ReadIsAt(c: Input, s: seq<Step>, k: nat, w: Writer)
    requires Run(c, s).Some? && k < |s| && s[k].Read? && s[k].writer == w
    ensures ReadPos(s, w) == k
  {
    assert Front(s[..k + 1]) == s[..k];
    assert ReadPos(s[..k + 1], w) == k;
    AttemptsAreUnique(c, s, k + 1, w);
  }

  lemma {:induction false} FinishIsAt(c: Input, s: seq<Step>, k: nat, w: Writer)
    requires Run(c, s).Some? && k < |s| && s[k].Finish? && s[k].writer == w
    ensures FinishPos(s, w) == k
    ensures Open(s[..k], w) && ReadPos(s[..k], w) == ReadPos(s, w) < k
  {
    assert Front(s[..k + 1]) == s[..k];
    assert FinishPos(s[..k + 1], w) == k;
    AttemptsAreUnique(c, s, k + 1, w);
    StepAt(c, s, k);
    StepMoves(c, Run(c, s[..k]).value, s[k], w);
    WhoIsExact(c, s[..k], w);
    AttemptsAreUnique(c, s, k, w);
  }

  // ---------- commits ----------

  lemma {:induction false} CommitsBetween(s: seq<Step>, i: nat, j: nat)
    requires i <= j <= |s|
    ensures Commits(s[..i]) <= Commits(s[..j])
    ensures Commits(s[..i]) == Commits(s[..j]) <==> forall k :: i <= k < j ==> !IsCommit(s[k])
    decreases j
  {
    if i < j {
      CommitsBetween(s, i, j - 1);
      assert Front(s[..j]) == s[..j - 1];
    }
  }

  /** Commits are numbered in the order in which they happen, whether they are safe or not. */
  lemma {:induction false} CommitIndex(c: Input, s: seq<Step>, j: nat)
    requires Run(c, s).Some? && j < |s| && IsCommit(s[j])
    ensures s[j].index == Integer(Commits(s[..j]))
  {
    StepAt(c, s, j);
    CountersAreExact(c, s[..j]);
  }

  /** A READ states the initial version plus the commits before it. */
  lemma {:induction false} ReadVersion(c: Input, s: seq<Step>, i: nat)
    requires Run(c, s).Some? && i < |s| && s[i].Read?
    ensures s[i].expected == Integer(c.version + Commits(s[..i]))
  {
    StepAt(c, s, i);
    CountersAreExact(c, s[..i]);
  }

  // ---------- overlap ----------

  /** An attempt that another commit made stale has met that commit's attempt. */
  lemma {:induction false} StaleIsOverlapped(c: Input, s: seq<Step>, w: Writer)
    requires Run(c, s).Some? && Open(s, w) && Stale(s, w)
    ensures Overlapped(s, w)
  {
    var i := ReadPos(s, w);
    assert s[..|s|] == s;
    CommitsBetween(s, i, |s|);
    var k :| i <= k < |s| && IsCommit(s[k]);
    FinishIsAt(c, s, k, s[k].writer);
    assert Meets(s, s[k].writer, w);
  }

  /** Two attempts meet exactly when the later READ finds the earlier attempt open. */
  lemma {:induction false} MeetsIsOpenAtRead(c: Input, s: seq<Step>, v: Writer, w: Writer)
    requires Run(c, s).Some? && v != w && 0 <= ReadPos(s, v) < ReadPos(s, w)
    ensures Meets(s, v, w) <==> Open(s[..ReadPos(s, w)], v)
  {
    var k := ReadPos(s, w);
    PositionsOfPrefix(s, k, v);
    AttemptsAreUnique(c, s, k, v);
    WhoIsExact(c, s, w);
  }

  lemma {:induction false} MeetsSymmetric(s: seq<Step>, v: Writer, w: Writer)
    ensures Meets(s, v, w) <==> Meets(s, w, v)
  {
  }

  /** Under a declared discipline, meeting attempts are always found. */
  lemma {:induction false} MeetingIsFound(c: Input, s: seq<Step>, v: Writer, w: Writer)
    requires Run(c, s).Some? && c.Declared() && v != w && Meets(s, v, w)
    ensures SerializationOverlap in Gathered(ConcurrencyAt(c), s)
  {
    if ReadPos(s, v) == ReadPos(s, w) {
      assert false;
    } else {
      var (first, second) := if ReadPos(s, v) < ReadPos(s, w) then (v, w) else (w, v);
      MeetsSymmetric(s, v, w);
      MeetsIsOpenAtRead(c, s, first, second);
      var k := ReadPos(s, second);
      assert SerializationOverlap in ConcurrencyAt(c)(s[..k], s[k]);
      GatheredAt(ConcurrencyAt(c), s, SerializationOverlap);
    }
  }

  lemma {:induction false} FoundMeeting(c: Input, s: seq<Step>, k: nat) returns (v: Writer)
    requires Run(c, s).Some? && k < |s| && s[k].Read? && exists v :: Open(s[..k], v)
    ensures v != s[k].writer && Meets(s, v, s[k].writer)
  {
    var w := s[k].writer;
    v :| Open(s[..k], v);
    ReadIsAt(c, s, k, w);
    AttemptsAreUnique(c, s, k, v);
    StepAt(c, s, k);
    StepMoves(c, Run(c, s[..k]).value, s[k], w);
    WhoIsExact(c, s[..k], w);
    assert v != w;
    MeetsIsOpenAtRead(c, s, v, w);
  }

  lemma {:induction false} ReasonsOfSummary(c: Input, st: State, r: Reason)
    requires ValidInput(c) && Run(c, c.schedule) == Some(st)
    requires r in {SerializationOverlap, CasVersionMismatch, NonatomicConcurrentWrite, SerializedStaleWrite}
    ensures r in Evaluate(c).reasons <==>
            r in st.eventBad + st.eventUnknown + st.concurrencyBad + st.concurrencyUnknown + st.idemBad
  {
  }

  /** A concurrency reason is reported exactly when some step of a consistent schedule gave it. */
  lemma {:induction false} ConcurrencyReasonReported(c: Input, r: Reason)
    requires r in {SerializationOverlap, CasVersionMismatch, NonatomicConcurrentWrite, SerializedStaleWrite}
    ensures r in Evaluate(c).reasons <==>
            ValidInput(c) && Run(c, c.schedule).Some? && r in Gathered(ConcurrencyAt(c), c.schedule)
  {
    if ValidInput(c) && Run(c, c.schedule).Some? {
      ReasonsOfSummary(c, Run(c, c.schedule).value, r);
      ReasonsAreExact(c, c.schedule);
      NotElsewhere(c, c.schedule, r);
    }
  }

  lemma {:induction false} StaleStepOverlaps(c: Input, s: seq<Step>, k: nat)
    requires Run(c, s).Some? && k < |s| && SerializedStaleWrite in ConcurrencyFindings(c, s[..k], s[k])
    ensures SerializationOverlap in Gathered(ConcurrencyAt(c), s)
  {
    var w := s[k].writer;
    FinishIsAt(c, s, k, w);
    StepAt(c, s, k);
    StaleIsOverlapped(c, s[..k], w);
    var v :| v != w && Meets(s[..k], v, w);
    MeetingIsFound(c, s[..k], v, w);
    GatheredMonotone(ConcurrencyAt(c), s, k);
  }

  /**
   A stale write under a declared discipline never stands alone: the overlap that made it stale is
   reported too.
   */
  lemma {:induction false} StaleWriteImpliesOverlap(c: Input)
    requires SerializedStaleWrite in Evaluate(c).reasons
    ensures SerializationOverlap in Evaluate(c).reasons
  {
    var s := c.schedule;
    ConcurrencyReasonReported(c, SerializedStaleWrite);
    ConcurrencyReasonReported(c, SerializationOverlap);
    GatheredAt(ConcurrencyAt(c), s, SerializedStaleWrite);
    var k :| 0 <= k < |s| && SerializedStaleWrite in ConcurrencyAt(c)(s[..k], s[k]);
    StaleStepOverlaps(c, s, k);
  }

  lemma {:induction false} GatheredMonotone(findings: (seq<Step>, Step) -> set<Reason>, s: seq<Step>, k: nat)
    requires k <= |s|
    ensures Gathered(findings, s[..k]) <= Gathered(findings, s)
    decreases |s|
  {
    if k < |s| {
      GatheredMonotone(findings, Front(s), k);
      assert Front(s)[..k] == s[..k];
    } else {
      assert s[..k] == s;
    }
  }

  /** The kinds of reasons are kept apart. */
  lemma {:induction false} NotElsewhere(c: Input, s: seq<Step>, r: Reason)
    requires r in {SerializationOverlap, CasVersionMismatch, NonatomicConcurrentWrite, SerializedStaleWrite}
    ensures r !in Gathered(EventAt(c), s) && r !in Gathered(EventGapAt(), s)
    ensures r !in Gathered(IdemAt(c), s) && r !in Gathered(ConcurrencyGapAt(c), s)
  {
    if s != [] {
      NotElsewhere(c, Front(s), r);
    }
  }

  // ---------- the concurrency status ----------

  /** Every declared writer has finished its attempt. */
  ghost predicate Finished(c: Input) {
    forall w :: w in c.writers ==> FinishPos(c.schedule, w) >= 0
  }

  /** A status is "satisfied" when no reason of its kind was found and the schedule is complete. */
  lemma {:induction false} SatisfiedMeansNoReason(c: Input, st: State)
    requires ValidInput(c) && Run(c, c.schedule) == Some(st)
    ensures Evaluate(c).event == Satisfied <==> st.eventBad == {} && st.eventUnknown == {} && !Incomplete(c, st)
    ensures Evaluate(c).concurrency == Satisfied <==>
            st.concurrencyBad == {} && st.concurrencyUnknown == {} && !Incomplete(c, st)
    ensures c.keyed ==> (Evaluate(c).idempotency == Satisfied <==> st.idemBad == {} && !Incomplete(c, st))
  {
    var gap := When(Incomplete(c, st), IncompleteSchedule);
    assert Incomplete(c, st) ==> IncompleteSchedule in gap;
  }

  lemma {:induction false} FinishedIsComplete(c: Input)
    requires Run(c, c.schedule).Some?
    ensures Incomplete(c, Run(c, c.schedule).value) <==> !Finished(c)
  {
    var st := Run(c, c.schedule).value;
    forall w
      ensures w in st.active <==> Open(c.schedule, w)
      ensures w in st.finished <==> FinishPos(c.schedule, w) >= 0
      ensures ReadPos(c.schedule, w) >= 0 ==> w in c.writers
      ensures FinishPos(c.schedule, w) >= 0 ==> ReadPos(c.schedule, w) >= 0
    {
      WhoIsExact(c, c.schedule, w);
    }
    if Finished(c) {
      assert st.active == map[];
      assert st.finished == c.writers.Keys;
    }
  }

  /** No commit lies between the READ at i and the commit at j of one writer. */
  ghost predicate Uninterrupted(s: seq<Step>, i: nat, j: nat) {
    forall k :: i < k < j ==> k < |s| && !IsCommit(s[k])
  }

  ghost predicate CommitsAreSerial(s: seq<Step>) {
    forall i, j {:trigger Uninterrupted(s, i, j)} ::
      0 <= i < j < |s| && s[i].Read? && IsCommit(s[j]) && s[i].writer == s[j].writer ==> Uninterrupted(s, i, j)
  }

  /** Every commit is a compare-and-swap, or made under a declared discipline. */
  ghost predicate CommitsAreProtected(c: Input) {
    forall j :: 0 <= j < |c.schedule| && IsCommit(c.schedule[j]) ==> c.schedule[j].cas || c.Declared()
  }

  /** No two attempts meet. */
  ghost predicate AttemptsAreApart(s: seq<Step>) {
    forall v, w :: v != w ==> !Meets(s, v, w)
  }

  lemma {:induction false} StaleIsInterrupted(c: Input, s: seq<Step>, j: nat)
    requires Run(c, s).Some? && j < |s| && IsCommit(s[j])
    ensures ReadPos(s[..j], s[j].writer) == ReadPos(s, s[j].writer) >= 0
    ensures Stale(s[..j], s[j].writer) <==> !Uninterrupted(s, ReadPos(s, s[j].writer), j)
  {
    FinishIsAt(c, s, j, s[j].writer);
    var i := ReadPos(s, s[j].writer);
    assert s[..j][..i] == s[..i];
    CommitsBetween(s, i, j);
  }

  /** A commit gives no concurrency finding or gap exactly when it is protected and read the latest version. */
  lemma {:induction false} CleanCommit(c: Input, j: nat)
    requires Run(c, c.schedule).Some? && j < |c.schedule| && IsCommit(c.schedule[j])
    ensures ReadPos(c.schedule, c.schedule[j].writer) >= 0
    ensures var s := c.schedule;
      ConcurrencyFindings(c, s[..j], s[j]) == {} && ConcurrencyGaps(c, s[..j], s[j]) == {}
      <==> (s[j].cas || c.Declared()) && Uninterrupted(s, ReadPos(s, s[j].writer), j)
  {
    var s := c.schedule;
    StaleIsInterrupted(c, s, j);
    FinishIsAt(c, s, j, s[j].writer);
    if !s[j].cas && !c.Declared() {
      assert NonatomicConcurrentWrite in When(true, NonatomicConcurrentWrite);
    }
  }

  /** The steps give no concurrency finding or gap exactly when the schedule is serial, protected and, if declared so, exclusive. */
  lemma {:induction false} CleanSchedule(c: Input)
    requires Run(c, c.schedule).Some?
    ensures (forall k :: 0 <= k < |c.schedule| ==>
               ConcurrencyFindings(c, c.schedule[..k], c.schedule[k]) == {} && ConcurrencyGaps(c, c.schedule[..k], c.schedule[k]) == {})
            <==> CommitsAreSerial(c.schedule) && CommitsAreProtected(c) && (c.Declared() ==> AttemptsAreApart(c.schedule))
  {
    var s := c.schedule;
    if forall k :: 0 <= k < |s| ==> ConcurrencyFindings(c, s[..k], s[k]) == {} && ConcurrencyGaps(c, s[..k], s[k]) == {} {
      forall i, j | 0 <= i < j < |s| && s[i].Read? && IsCommit(s[j]) && s[i].writer == s[j].writer
        ensures Uninterrupted(s, i, j)
      {
        CleanCommit(c, j);
        ReadIsAt(c, s, i, s[i].writer);
      }
      forall j | 0 <= j < |s| && IsCommit(s[j])
        ensures s[j].cas || c.Declared()
      {
        CleanCommit(c, j);
      }
      forall v, w | v != w && c.Declared()
        ensures !Meets(s, v, w)
      {
        if Meets(s, v, w) {
          MeetingIsFound(c, s, v, w);
          GatheredAt(ConcurrencyAt(c), s, SerializationOverlap);
        }
      }
    } else {
      var k :| 0 <= k < |s| && !(ConcurrencyFindings(c, s[..k], s[k]) == {} && ConcurrencyGaps(c, s[..k], s[k]) == {});
      if IsCommit(s[k]) {
        CleanCommit(c, k);
        FinishIsAt(c, s, k, s[k].writer);
        assert !(s[k].cas || c.Declared()) || !Uninterrupted(s, ReadPos(s, s[k].writer), k);
      } else {
        var v := FoundMeeting(c, s, k);
      }
    }
  }

  /**
   The concurrency status is "satisfied" exactly when every attempt finished, every commit is protected
   and no other commit lies between its READ and itself, and, under a declared discipline, no two
   attempts overlap.
   */
  lemma {:induction false} ConcurrencySatisfiedExactly(c: Input)
    requires ValidInput(c) && Run(c, c.schedule).Some?
    ensures Evaluate(c).concurrency == Satisfied
            <==> && Finished(c) && CommitsAreSerial(c.schedule) && CommitsAreProtected(c)
                 && (c.Declared() ==> AttemptsAreApart(c.schedule))
  {
    SatisfiedMeansNoReason(c, Run(c, c.schedule).value);
    ReasonsAreExact(c, c.schedule);
    FinishedIsComplete(c);
    NothingGathered(ConcurrencyAt(c), c.schedule);
    NothingGathered(ConcurrencyGapAt(c), c.schedule);
    CleanSchedule(c);
  }

  /**
   A run with a satisfied concurrency status is the serial execution of its commits: the n-th commit
   carries index n and was computed from the initial version plus n, and the final version counts all.
   */
  lemma {:induction false} SatisfiedRunIsSerial(c: Input, i: nat, j: nat)
    requires ValidInput(c) && Run(c, c.schedule).Some? && Evaluate(c).concurrency == Satisfied
    requires i < j < |c.schedule| && c.schedule[i].Read? && IsCommit(c.schedule[j])
    requires c.schedule[i].writer == c.schedule[j].writer
    ensures var n := Commits(c.schedule[..j]);
      c.schedule[j].index == Integer(n) && c.schedule[i].expected == Integer(c.version + n)
    ensures Evaluate(c).finalVersion == Some(c.version + Commits(c.schedule))
    ensures Evaluate(c).transitions == Some(Commits(c.schedule))
  {
    var s := c.schedule;
    ConcurrencySatisfiedExactly(c);
    assert Uninterrupted(s, i, j);
    CommitIndex(c, s, j);
    ReadVersion(c, s, i);
    CommitsBetween(s, i, j);
    CountersAreExact(c, s);
  }

  // ---------- the event-time status ----------

  /** Every policy change raises the version, so an unchanged version means an unchanged ceiling. */
  lemma {:induction false} PolicyOnlyRises(c: Input, s: seq<Step>, k: nat)
    requires Run(c, s).Some? && k <= |s|
    ensures PolicyAfter(c, s[..k]) <= PolicyAfter(c, s)
    ensures PolicyAfter(c, s[..k]) == PolicyAfter(c, s) <==> forall m :: k <= m < |s| ==> !s[m].Policy?
    ensures PolicyAfter(c, s[..k]) == PolicyAfter(c, s) ==> CeilingAfter(c, s[..k]) == CeilingAfter(c, s)
    decreases |s|
  {
    if k < |s| {
      RunPrefix(c, s);
      PolicyOnlyRises(c, Front(s), k);
      CountersAreExact(c, Front(s));
      assert Front(s)[..k] == s[..k];
      assert forall m :: k <= m < |s| - 1 ==> Front(s)[m] == s[m];
    } else {
      assert s[..k] == s;
    }
  }

  /** The step at k is an event check of w, and the policy does not change between it and j. */
  ghost predicate CheckedAt(s: seq<Step>, k: int, j: nat, w: Writer) {
    0 <= k < j <= |s| && s[k].Check? && s[k].writer == w && s[k].mode == EventReevaluated
    && forall m :: k <= m < j ==> !s[m].Policy?
  }

  /** The commit at j follows an event check under the policy still in force, and its amount is within the ceiling in force at j. */
  ghost predicate AuthorizedCommit(c: Input, j: nat)
    requires j < |c.schedule| && c.schedule[j].Finish? && c.schedule[j].writer in c.writers
  {
    var s, w := c.schedule, c.schedule[j].writer;
    (exists k :: CheckedAt(s, k, j, w)) && c.writers[w].amount <= CeilingAfter(c, s[..j])
  }

  ghost predicate CheckedBefore(s: seq<Step>, j: nat, w: Writer)
    requires j <= |s|
  {
    exists k :: 0 <= k < j && s[k] == Check(w, EventReevaluated)
  }

  lemma {:induction false} CheckIsAt(c: Input, s: seq<Step>, k: nat, w: Writer)
    requires Run(c, s).Some? && Open(s, w) && k < |s| && s[k].Check? && s[k].writer == w
    ensures CheckPos(s, w) == k
    decreases |s|
  {
    RunPrefix(c, s);
    var st := Run(c, Front(s)).value;
    WhoIsExact(c, s, w);
    WhoIsExact(c, Front(s), w);
    StepMoves(c, st, Last(s), w);
    if k < |s| - 1 {
      if Last(s).Read? && Last(s).writer == w {
        NoCheckBeforeRead(c, Front(s), w);
        CheckPosCovers(Front(s), k, w);
      } else {
        CheckIsAt(c, Front(s), k, w);
        CheckIsExact(c, Front(s), w);
      }
    }
  }

  lemma {:induction false} CheckPosCovers(s: seq<Step>, k: nat, w: Writer)
    requires k < |s| && s[k].Check? && s[k].writer == w
    ensures CheckPos(s, w) >= k
  {
    if k < |s| - 1 {
      CheckPosCovers(Front(s), k, w);
    }
  }

  lemma {:induction false} CommitAuthorized(c: Input, j: nat)
    requires Run(c, c.schedule).Some? && j < |c.schedule| && IsCommit(c.schedule[j])
    ensures c.schedule[j].writer in c.writers
    ensures EventFindings(c, c.schedule[..j], c.schedule[j]) == {} <==> AuthorizedCommit(c, j)
  {
    var s, w := c.schedule, c.schedule[j].writer;
    var before := s[..j];
    FinishIsAt(c, s, j, w);
    StepAt(c, s, j);
    WhoIsExact(c, before, w);
    var k := CheckPos(before, w);
    if k >= 0 {
      assert before[..k] == s[..k];
      PolicyOnlyRises(c, before, k);
      assert forall m :: k <= m < j ==> before[m] == s[m];
      assert CheckedAt(s, k, j, w) <==> s[k].mode == EventReevaluated && PolicyAfter(c, s[..k]) == PolicyAfter(c, before);
    }
    forall m | CheckedAt(s, m, j, w)
      ensures m == k
    {
      CheckIsAt(c, before, m, w);
    }
  }

  lemma {:induction false} RejectionChecked(c: Input, j: nat)
    requires Run(c, c.schedule).Some? && j < |c.schedule| && c.schedule[j].Finish? && c.schedule[j].outcome == Reject
    ensures EventGaps(c.schedule[..j], c.schedule[j]) == {} <==> CheckedBefore(c.schedule, j, c.schedule[j].writer)
  {
    var s, w := c.schedule, c.schedule[j].writer;
    FinishIsAt(c, s, j, w);
    StepAt(c, s, j);
    forall m | 0 <= m < j && s[m] == Check(w, EventReevaluated)
      ensures m == CheckPos(s[..j], w)
    {
      CheckIsAt(c, s[..j], m, w);
    }
    var k := CheckPos(s[..j], w);
    if k >= 0 {
      assert s[..j][k] == s[k];
    }
  }

  ghost predicate CommitsAreAuthorized(c: Input) {
    forall j :: 0 <= j < |c.schedule| && IsCommit(c.schedule[j]) ==>
      c.schedule[j].writer in c.writers && AuthorizedCommit(c, j)
  }

  ghost predicate RejectionsAreChecked(s: seq<Step>) {
    forall j :: 0 <= j < |s| && s[j].Finish? && s[j].outcome == Reject ==> CheckedBefore(s, j, s[j].writer)
  }

  lemma {:induction false} EventStepsExactly(c: Input)
    requires Run(c, c.schedule).Some?
    ensures (forall j :: 0 <= j < |c.schedule| ==> EventFindings(c, c.schedule[..j], c.schedule[j]) == {})
            <==> CommitsAreAuthorized(c)
    ensures (forall j :: 0 <= j < |c.schedule| ==> EventGaps(c.schedule[..j], c.schedule[j]) == {})
            <==> RejectionsAreChecked(c.schedule)
  {
    forall j | 0 <= j < |c.schedule| && IsCommit(c.schedule[j])
      ensures c.schedule[j].writer in c.writers
      ensures EventFindings(c, c.schedule[..j], c.schedule[j]) == {} <==> AuthorizedCommit(c, j)
    {
      CommitAuthorized(c, j);
    }
    forall j | 0 <= j < |c.schedule| && c.schedule[j].Finish? && c.schedule[j].outcome == Reject
      ensures EventGaps(c.schedule[..j], c.schedule[j]) == {} <==> CheckedBefore(c.schedule, j, c.schedule[j].writer)
    {
      RejectionChecked(c, j);
    }
  }

  /**
   The event-time status is "satisfied" exactly when every attempt finished, every committed amount is
   within the ceiling in force at the commit itself and was checked under that same policy, and every
   rejection followed an event check.
   */
  lemma {:induction false} EventTimeSatisfiedExactly(c: Input)
    requires ValidInput(c) && Run(c, c.schedule).Some?
    ensures Evaluate(c).event == Satisfied <==> Finished(c) && CommitsAreAuthorized(c) && RejectionsAreChecked(c.schedule)
  {
    SatisfiedMeansNoReason(c, Run(c, c.schedule).value);
    ReasonsAreExact(c, c.schedule);
    FinishedIsComplete(c);
    NothingGathered(EventAt(c), c.schedule);
    NothingGathered(EventGapAt(), c.schedule);
    EventStepsExactly(c);
  }

  // ---------- the idempotency status ----------

  /** The request identity tells capture references apart. */
  ghost predicate IdentityTellsApart(c: Input) {
    forall v, w :: v in c.writers && w in c.writers && c.Id(v) == c.Id(w) ==> c.writers[v].ref == c.writers[w].ref
  }

  predicate SameRef(c: Input, v: Writer, w: Writer) {
    v in c.writers && w in c.writers && c.writers[v].ref == c.writers[w].ref
  }

  /** At most one transition for each capture reference. */
  ghost predicate OneCommitPerRef(c: Input) {
    forall i, j :: 0 <= i < j < |c.schedule| && IsCommit(c.schedule[i]) && IsCommit(c.schedule[j]) ==>
      !SameRef(c, c.schedule[i].writer, c.schedule[j].writer)
  }

  /** Every replay returns the index of an earlier commit of the same capture reference. */
  ghost predicate ReplaysReturnReceipts(c: Input) {
    forall j :: 0 <= j < |c.schedule| && c.schedule[j].Finish? && c.schedule[j].outcome == Replay ==>
      exists i :: 0 <= i < j && IsCommit(c.schedule[i]) && SameRef(c, c.schedule[i].writer, c.schedule[j].writer)
                  && c.schedule[j].index == c.schedule[i].index
  }

  lemma {:induction false} ReceiptIsFirst(c: Input, s: seq<Step>, id: string)
    requires Run(c, s).Some?
    ensures ReceiptOf(c, s, id).Some? <==>
            exists i :: 0 <= i < |s| && IsCommit(s[i]) && s[i].writer in c.writers && c.Id(s[i].writer) == id
    ensures ReceiptOf(c, s, id).Some? ==>
            exists i :: 0 <= i < |s| && IsCommit(s[i]) && s[i].writer in c.writers && c.Id(s[i].writer) == id
                        && s[i].index == Integer(ReceiptOf(c, s, id).value)
  {
    if s != [] {
      RunPrefix(c, s);
      ReceiptIsFirst(c, Front(s), id);
      assert forall i :: 0 <= i < |s| - 1 ==> Front(s)[i] == s[i];
      if IsCommit(Last(s)) {
        CommitIndex(c, s, |s| - 1);
      }
    }
  }

  lemma {:induction false} FinishWriterKnown(c: Input, j: nat)
    requires Run(c, c.schedule).Some? && j < |c.schedule| && c.schedule[j].Finish?
    ensures c.schedule[j].writer in c.writers
  {
    FinishIsAt(c, c.schedule, j, c.schedule[j].writer);
    WhoIsExact(c, c.schedule, c.schedule[j].writer);
  }

  /** An earlier commit of the same capture reference is what the receipt records. */
  lemma {:induction false} ReceiptBefore(c: Input, j: nat)
    requires Run(c, c.schedule).Some? && IdentityTellsApart(c) && j < |c.schedule| && c.schedule[j].Finish?
    ensures c.schedule[j].writer in c.writers
    ensures var s, w := c.schedule, c.schedule[j].writer; var r := ReceiptOf(c, s[..j], c.Id(w));
      && (r.Some? <==> exists i :: 0 <= i < j && IsCommit(s[i]) && SameRef(c, s[i].writer, w))
      && (r.Some? ==> exists i :: 0 <= i < j && IsCommit(s[i]) && SameRef(c, s[i].writer, w) && s[i].index == Integer(r.value))
  {
    var s, w := c.schedule, c.schedule[j].writer;
    FinishWriterKnown(c, j);
    RunOfPrefix(c, s, j);
    ReceiptIsFirst(c, s[..j], c.Id(w));
    forall i | 0 <= i < j && IsCommit(s[i])
      ensures s[..j][i] == s[i] && s[i].writer in c.writers
      ensures c.Id(s[i].writer) == c.Id(w) <==> SameRef(c, s[i].writer, w)
    {
      FinishWriterKnown(c, i);
    }
  }

  lemma {:induction false} ReplayHasReceipt(c: Input, j: nat)
    requires Run(c, c.schedule).Some? && j < |c.schedule| && c.schedule[j].Finish? && c.schedule[j].outcome == Replay
    ensures c.keyed && c.schedule[j].writer in c.writers && c.schedule[j].index.Integer?
    ensures ReceiptOf(c, c.schedule[..j], c.Id(c.schedule[j].writer)).Some?
  {
    StepAt(c, c.schedule, j);
    FinishWriterKnown(c, j);
    ReceiptsAreExact(c, c.schedule[..j], c.Id(c.schedule[j].writer));
  }

  lemma {:induction false} IdemStepsSound(c: Input)
    requires Run(c, c.schedule).Some? && IdentityTellsApart(c) && c.keyed
    requires forall j :: 0 <= j < |c.schedule| ==> IdemFindings(c, c.schedule[..j], c.schedule[j]) == {}
    ensures OneCommitPerRef(c) && ReplaysReturnReceipts(c)
  {
    var s := c.schedule;
    forall i, j | 0 <= i < j < |s| && IsCommit(s[i]) && IsCommit(s[j])
      ensures !SameRef(c, s[i].writer, s[j].writer)
    {
      ReceiptBefore(c, j);
      assert IdemFindings(c, s[..j], s[j]) == {};
      assert SecondTransitionSameIdentity in When(true, SecondTransitionSameIdentity);
    }
    forall j | 0 <= j < |s| && s[j].Finish? && s[j].outcome == Replay
      ensures exists i :: 0 <= i < j && IsCommit(s[i]) && SameRef(c, s[i].writer, s[j].writer) && s[j].index == s[i].index
    {
      ReceiptBefore(c, j);
      ReplayHasReceipt(c, j);
      assert IdemFindings(c, s[..j], s[j]) == {};
      assert ReplayReceiptChanged in When(true, ReplayReceiptChanged);
    }
  }

  lemma {:induction false} IdemStepComplete(c: Input, j: nat)
    requires Run(c, c.schedule).Some? && IdentityTellsApart(c) && c.keyed && j < |c.schedule|
    requires OneCommitPerRef(c) && ReplaysReturnReceipts(c)
    ensures IdemFindings(c, c.schedule[..j], c.schedule[j]) == {}
  {
    var s := c.schedule;
    if s[j].Finish? {
      ReceiptBefore(c, j);
      if s[j].outcome == Replay {
        ReplayHasReceipt(c, j);
        var w, r := s[j].writer, ReceiptOf(c, s[..j], c.Id(s[j].writer));
        var i :| 0 <= i < j && IsCommit(s[i]) && SameRef(c, s[i].writer, w) && s[j].index == s[i].index;
        var k :| 0 <= k < j && IsCommit(s[k]) && SameRef(c, s[k].writer, w) && s[k].index == Integer(r.value);
        assert SameRef(c, s[i].writer, s[k].writer) && SameRef(c, s[k].writer, s[i].writer);
        assert i == k;
      }
    }
  }

  /**
   With a request identity that tells capture references apart, the idempotency status is "satisfied"
   exactly when every attempt finished, no reference has two transitions and every replay returns the
   index of its reference's transition.
   */
  lemma {:induction false} IdempotencySatisfiedExactly(c: Input)
    requires ValidInput(c) && Run(c, c.schedule).Some? && c.keyed && IdentityTellsApart(c)
    ensures Evaluate(c).idempotency == Satisfied <==> Finished(c) && OneCommitPerRef(c) && ReplaysReturnReceipts(c)
  {
    SatisfiedMeansNoReason(c, Run(c, c.schedule).value);
    ReasonsAreExact(c, c.schedule);
    FinishedIsComplete(c);
    NothingGathered(IdemAt(c), c.schedule);
    if forall j :: 0 <= j < |c.schedule| ==> IdemFindings(c, c.schedule[..j], c.schedule[j]) == {} {
      IdemStepsSound(c);
    } else if OneCommitPerRef(c) && ReplaysReturnReceipts(c) {
      forall j | 0 <= j < |c.schedule|
        ensures IdemFindings(c, c.schedule[..j], c.schedule[j]) == {}
      {
        IdemStepComplete(c, j);
      }
    }
  }

  ghost predicate HasFinish(s: seq<Step>, outcome: Outcome) {
    exists j :: 0 <= j < |s| && s[j].Finish? && s[j].outcome == outcome
  }

  /**
   A schedule is admitted exactly when it is consistent, every attempt finished, all three obligations
   are met, and it holds a commit or a replay.
   */
  lemma {:induction false} AdmittedExactly(c: Input)
    requires IdentityTellsApart(c)
    ensures Evaluate(c).admission == Admit <==>
            && ValidInput(c) && Run(c, c.schedule).Some? && Finished(c)
            && CommitsAreAuthorized(c) && RejectionsAreChecked(c.schedule)
            && CommitsAreSerial(c.schedule) && CommitsAreProtected(c) && (c.Declared() ==> AttemptsAreApart(c.schedule))
            && (c.keyed ==> OneCommitPerRef(c) && ReplaysReturnReceipts(c))
            && (HasFinish(c.schedule, Commit) || HasFinish(c.schedule, Replay))
  {
    if ValidInput(c) && Run(c, c.schedule).Some? {
      EventTimeSatisfiedExactly(c);
      ConcurrencySatisfiedExactly(c);
      if c.keyed {
        IdempotencySatisfiedExactly(c);
      }
      CommitsAreCounted(c);
      ReplaysAreReported(c, c.schedule);
      AdmitsWhenSatisfied(c, Run(c, c.schedule).value);
    }
  }

  /** The verdict, in terms of the statuses. */
  lemma {:induction false} AdmitsWhenSatisfied(c: Input, st: State)
    requires ValidInput(c) && Run(c, c.schedule) == Some(st)
    ensures Evaluate(c).admission == Admit <==>
            && Evaluate(c).event == Satisfied && Evaluate(c).concurrency == Satisfied
            && (c.keyed ==> Evaluate(c).idempotency == Satisfied)
            && (st.transitions > 0 || exists i :: 0 <= i < |st.results| && st.results[i].outcome == Replay)
  {
  }

  lemma {:induction false} CommitsAreCounted(c: Input)
    requires Run(c, c.schedule).Some?
    ensures Run(c, c.schedule).value.transitions > 0 <==> HasFinish(c.schedule, Commit)
  {
    var s := c.schedule;
    CountersAreExact(c, s);
    CommitsBetween(s, 0, |s|);
    assert s[..|s|] == s && s[..0] == [];
    if HasFinish(s, Commit) {
      var j :| 0 <= j < |s| && s[j].Finish? && s[j].outcome == Commit;
      assert IsCommit(s[j]);
    }
  }

  lemma {:induction false} ReplaysAreReported(c: Input, s: seq<Step>)
    requires Run(c, s).Some?
    ensures (exists i :: 0 <= i < |Run(c, s).value.results| && Run(c, s).value.results[i].outcome == Replay)
            <==> HasFinish(s, Replay)
  {
    if s != [] {
      RunPrefix(c, s);
      ReplaysAreReported(c, Front(s));
      ResultsGrow(c, Run(c, Front(s)).value, Last(s));
      var before, after := Run(c, Front(s)).value.results, Run(c, s).value.results;
      ReplayInLonger(Front(s), s);
      assert forall i :: 0 <= i < |before| ==> after[i] == before[i];
      if Last(s).Finish? {
        assert after[|before|] == Observed(Last(s).writer, Last(s).outcome, Last(s).index);
      }
    }
  }

  lemma {:induction false} ReplayInLonger(p: seq<Step>, s: seq<Step>)
    requires s != [] && p == Front(s)
    ensures HasFinish(s, Replay) <==> HasFinish(p, Replay) || (Last(s).Finish? && Last(s).outcome == Replay)
  {
    if j :| 0 <= j < |p| && p[j].Finish? && p[j].outcome == Replay {
      assert s[j] == p[j];
    }
    if Last(s).Finish? && Last(s).outcome == Replay {
      assert s[|s| - 1] == Last(s);
    }
    if j :| 0 <= j < |s| && s[j].Finish? && s[j].outcome == Replay {
      assert j < |p| ==> p[j] == s[j];
    }
  }

  lemma {:induction false} ResultsGrow(c: Input, st: State, step: Step)
    requires Next(c, st, step).Some?
    ensures Next(c, st, step).value.results
            == st.results + if step.Finish? then [Observed(step.writer, step.outcome, step.index)] else []
  {
  }
}
