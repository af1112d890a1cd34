/**
 What the admission-trace checker establishes about whole schedules.  The history of a schedule is
 described by positions in it, without the checker's state, and the checker's state and reasons are
 shown to be exact for that description.
 */
module BoundaryHistory {
  import opened Wrappers
  import opened Boundary

  // ---------- the history of a schedule ----------

  predicate IsCommit(step: Step) {
    step.Finish? && step.outcome == Commit
  }

  function Last(s: seq<Step>): Step
    requires s != []
  {
    s[|s| - 1]
  }

  function Front(s: seq<Step>): seq<Step>
    requires s != []
  {
    s[..|s| - 1]
  }

  /** The number of commits. */
  function Commits(s: seq<Step>): nat {
    if s == [] then 0 else Commits(Front(s)) + if IsCommit(Last(s)) then 1 else 0
  }

  /** The position of the last READ of w, or -1. */
  function ReadPos(s: seq<Step>, w: Writer): (r: int)
    ensures -1 <= r < |s|
    ensures r >= 0 ==> s[r].Read? && s[r].writer == w
  {
    if s == [] then -1
    else if Last(s).Read? && Last(s).writer == w then |s| - 1
    else ReadPos(Front(s), w)
  }

  /** The position of the last WRITE or CAS of w, or -1. */
  function FinishPos(s: seq<Step>, w: Writer): (r: int)
    ensures -1 <= r < |s|
    ensures r >= 0 ==> s[r].Finish? && s[r].writer == w
  {
    if s == [] then -1
    else if Last(s).Finish? && Last(s).writer == w then |s| - 1
    else FinishPos(Front(s), w)
  }

  /** The position of the last CHECK of w, or -1. */
  function CheckPos(s: seq<Step>, w: Writer): (r: int)
    ensures -1 <= r < |s|
    ensures r >= 0 ==> s[r].Check? && s[r].writer == w
  {
    if s == [] then -1
    else if Last(s).Check? && Last(s).writer == w then |s| - 1
    else CheckPos(Front(s), w)
  }

  /** The policy version and the ceiling in force after s. */
  function PolicyAfter(c: Input, s: seq<Step>): int {
    if s == [] then c.policy
    else if Last(s).Policy? && Last(s).version.Integer? then Last(s).version.n
    else PolicyAfter(c, Front(s))
  }

  function CeilingAfter(c: Input, s: seq<Step>): int {
    if s == [] then c.ceiling
    else if Last(s).Policy? && Last(s).ceiling.Integer? then Last(s).ceiling.n
    else CeilingAfter(c, Front(s))
  }

  /** An attempt that has begun and not finished. */
  predicate Open(s: seq<Step>, w: Writer) {
    ReadPos(s, w) >= 0 && FinishPos(s, w) < 0
  }

  /** Where the attempt of w ends; an open attempt reaches the end of s. */
  function End(s: seq<Step>, w: Writer): int {
    if FinishPos(s, w) < 0 then |s| else FinishPos(s, w)
  }

  /** The READ-to-completion intervals of v and w meet. */
  predicate Meets(s: seq<Step>, v: Writer, w: Writer) {
    ReadPos(s, v) >= 0 && ReadPos(s, w) >= 0 && ReadPos(s, v) < End(s, w) && ReadPos(s, w) < End(s, v)
  }

  /** The attempt of w meets that of another writer. */
  ghost predicate Overlapped(s: seq<Step>, w: Writer) {
    exists v :: v != w && Meets(s, v, w)
  }

  /** A commit came between the READ of w and the end of s. */
  predicate Stale(s: seq<Step>, w: Writer)
    requires ReadPos(s, w) >= 0
  {
    Commits(s[..ReadPos(s, w)]) != Commits(s)
  }

  /** The index of the first commit under an identity. */
  function ReceiptOf(c: Input, s: seq<Step>, id: string): Option<int> {
    if s == [] then None
    else
      var r := ReceiptOf(c, Front(s), id);
      if r.Some? then r
      else if IsCommit(Last(s)) && Last(s).writer in c.writers && c.Id(Last(s).writer) == id && Last(s).index.Integer?
      then Some(Last(s).index.n)
      else None
  }

  // ---------- the reasons that a step gives, by history alone ----------

  function EventFindings(c: Input, s: seq<Step>, step: Step): set<Reason> {
    if !IsCommit(step) || step.writer !in c.writers then {}
    else
      var k := CheckPos(s, step.writer);
      if k < 0 then {EventCheckMissing}
      else if s[k].mode != EventReevaluated then {PeriodicPassNotAuthority}
      else if PolicyAfter(c, s[..k]) != PolicyAfter(c, s) then {EventPolicyVersionStale}
      else if c.writers[step.writer].amount > CeilingAfter(c, s[..k]) then {PredicateFalse}
      else {}
  }

  function EventGaps(s: seq<Step>, step: Step): set<Reason> {
    if step.Finish? && step.outcome == Reject then
      var k := CheckPos(s, step.writer);
      When(k < 0 || s[k].mode != EventReevaluated, RejectionWithoutEventCheck)
    else {}
  }

  ghost function ConcurrencyFindings(c: Input, s: seq<Step>, step: Step): set<Reason> {
    if step.Read? then When(c.Declared() && exists v :: Open(s, v), SerializationOverlap)
    else if IsCommit(step) && ReadPos(s, step.writer) >= 0 then
      if step.cas then When(Stale(s, step.writer), CasVersionMismatch)
      else if !c.Declared() then When(Overlapped(s, step.writer), NonatomicConcurrentWrite)
      else When(Stale(s, step.writer), SerializedStaleWrite)
    else {}
  }

  ghost function ConcurrencyGaps(c: Input, s: seq<Step>, step: Step): set<Reason> {
    When(IsCommit(step) && !step.cas && !c.Declared() && !Overlapped(s, step.writer), NoAtomicOrSerializationEvidence)
  }

  function IdemFindings(c: Input, s: seq<Step>, step: Step): set<Reason> {
    if !step.Finish? || step.writer !in c.writers || !c.keyed then {}
    else
      var r := ReceiptOf(c, s, c.Id(step.writer));
      match step.outcome
      case Replay => When(r.Some? && step.index != Integer(r.value), ReplayReceiptChanged)
      case Commit => When(r.Some?, SecondTransitionSameIdentity)
      case _ => {}
  }

  // ---------- the state is exact for the history ----------

  lemma {:induction false} RunPrefix(c: Input, s: seq<Step>)
    requires s != [] && Run(c, s).Some?
    ensures Run(c, Front(s)).Some? && Run(c, s) == Next(c, Run(c, Front(s)).value, Last(s))
  {
  }

  lemma {:induction false} RunOfPrefix(c: Input, s: seq<Step>, k: nat)
    requires Run(c, s).Some? && k <= |s|
    ensures Run(c, s[..k]).Some?
    decreases |s|
  {
    if k == |s| {
      assert s[..k] == s;
    } else {
      RunOfPrefix(c, Front(s), k);
      assert Front(s)[..k] == s[..k];
    }
  }

  /** A step opens the attempt it reads, closes the one it finishes, and moves no other. */
  lemma {:induction false} StepMoves(c: Input, st: State, step: Step, w: Writer)
    requires Next(c, st, step).Some?
    ensures var st' := Next(c, st, step).value;
      && (w in st'.active <==> (w in st.active && !(step.Finish? && step.writer == w)) || (step.Read? && step.writer == w))
      && (w in st'.finished <==> w in st.finished || (step.Finish? && step.writer == w))
    ensures step.Read? && step.writer == w ==> w in c.writers && w !in st.active && w !in st.finished
    ensures step.Finish? && step.writer == w ==> w in st.active
  {
  }

  /** Who is active and who has finished. */
  lemma {:induction false} WhoIsExact(c: Input, s: seq<Step>, w: Writer)
    requires Run(c, s).Some?
    ensures w in Run(c, s).value.active <==> Open(s, w)
    ensures w in Run(c, s).value.finished <==> FinishPos(s, w) >= 0
    ensures FinishPos(s, w) >= 0 ==> 0 <= ReadPos(s, w) < FinishPos(s, w)
    ensures ReadPos(s, w) >= 0 ==> w in c.writers
  {
    if s != [] {
      RunPrefix(c, s);
      WhoIsExact(c, Front(s), w);
      StepMoves(c, Run(c, Front(s)).value, Last(s), w);
    }
  }

  /** Every commit counts once, in the version, the index and the number of transitions. */
  lemma {:induction false} CountersAreExact(c: Input, s: seq<Step>)
    requires Run(c, s).Some?
    ensures var st := Run(c, s).value;
      && st.version == c.version + Commits(s)
      && st.nextIndex == Commits(s) && st.transitions == Commits(s)
      && st.policy == PolicyAfter(c, s) && st.ceiling == CeilingAfter(c, s)
  {
    if s != [] {
      CountersAreExact(c, Front(s));
    }
  }

  /** What a step does to an attempt that stays open. */
  lemma {:induction false} StepKeepsAttempt(c: Input, st: State, step: Step, w: Writer)
    requires Next(c, st, step).Some? && w in st.active && w in Next(c, st, step).value.active
    ensures var a, b := st.active[w], Next(c, st, step).value.active[w];
      && b.expected == a.expected
      && b.overlapped == (a.overlapped || step.Read?)
      && (!(step.Check? && step.writer == w) ==> b.check == a.check)
  {
    StepMoves(c, st, step, w);
  }

  lemma {:induction false} StepOpensAttempt(c: Input, st: State, w: Writer, expected: Field)
    requires Next(c, st, Read(w, expected)).Some?
    ensures Next(c, st, Read(w, expected)).value.active[w] == Attempt(st.version, None, st.active != map[])
  {
  }

  /** An attempt expects the version that its READ saw. */
  lemma {:induction false} ExpectedIsExact(c: Input, s: seq<Step>, w: Writer)
    requires Run(c, s).Some? && Open(s, w)
    ensures w in Run(c, s).value.active
    ensures Run(c, s).value.active[w].expected == c.version + Commits(s[..ReadPos(s, w)])
  {
    WhoIsExact(c, s, w);
    RunPrefix(c, s);
    var before := Run(c, Front(s)).value;
    WhoIsExact(c, Front(s), w);
    if Last(s).Read? && Last(s).writer == w {
      StepOpensAttempt(c, before, w, Last(s).expected);
      CountersAreExact(c, Front(s));
    } else {
      StepMoves(c, before, Last(s), w);
      ExpectedIsExact(c, Front(s), w);
      StepKeepsAttempt(c, before, Last(s), w);
      assert Front(s)[..ReadPos(s, w)] == s[..ReadPos(s, w)];
    }
  }

  /** A READ meets exactly the attempts that are open at it. */
  lemma {:induction false} MeetsAtRead(c: Input, s: seq<Step>, v: Writer, w: Writer)
    requires s != [] && Run(c, s).Some? && Last(s).Read? && Last(s).writer == w && v != w
    ensures Meets(s, v, w) <==> Open(Front(s), v)
  {
    RunPrefix(c, s);
    WhoIsExact(c, s, w);
    WhoIsExact(c, s, v);
  }

  /** A step that reads nothing leaves the meetings of an open attempt as they are. */
  lemma {:induction false} MeetsKept(c: Input, s: seq<Step>, v: Writer, w: Writer)
    requires s != [] && Run(c, s).Some? && !Last(s).Read? && Open(s, w)
    ensures Meets(s, v, w) <==> Meets(Front(s), v, w)
  {
    RunPrefix(c, s);
    WhoIsExact(c, s, v);
    WhoIsExact(c, Front(s), v);
  }

  lemma {:induction false} ActiveIsOpen(c: Input, s: seq<Step>)
    requires Run(c, s).Some?
    ensures Run(c, s).value.active != map[] <==> exists v :: Open(s, v)
  {
    var active := Run(c, s).value.active;
    if active != map[] {
      var v :| v in active;
      WhoIsExact(c, s, v);
    }
    if v :| Open(s, v) {
      WhoIsExact(c, s, v);
    }
  }

  /** The overlap flag is exact: it is set when, and only when, another attempt met this one. */
  lemma {:induction false} OverlapIsExact(c: Input, s: seq<Step>, w: Writer)
    requires Run(c, s).Some? && Open(s, w)
    ensures w in Run(c, s).value.active
    ensures Run(c, s).value.active[w].overlapped <==> Overlapped(s, w)
  {
    WhoIsExact(c, s, w);
    RunPrefix(c, s);
    var before := Run(c, Front(s)).value;
    WhoIsExact(c, Front(s), w);
    if Last(s).Read? && Last(s).writer == w {
      StepOpensAttempt(c, before, w, Last(s).expected);
      ActiveIsOpen(c, Front(s));
      forall v | v != w
        ensures Meets(s, v, w) <==> Open(Front(s), v)
      {
        MeetsAtRead(c, s, v, w);
      }
    } else {
      StepMoves(c, before, Last(s), w);
      OverlapIsExact(c, Front(s), w);
      StepKeepsAttempt(c, before, Last(s), w);
      if Last(s).Read? {
        WhoIsExact(c, s, Last(s).writer);
        WhoIsExact(c, Front(s), Last(s).writer);
        assert Meets(s, Last(s).writer, w);
      } else {
        forall v
          ensures Meets(s, v, w) <==> Meets(Front(s), v, w)
        {
          MeetsKept(c, s, v, w);
        }
      }
    }
  }

  lemma {:induction false} NoCheckBeforeRead(c: Input, s: seq<Step>, w: Writer)
    requires Run(c, s).Some? && ReadPos(s, w) < 0
    ensures CheckPos(s, w) < 0
  {
    if s != [] {
      RunPrefix(c, s);
      NoCheckBeforeRead(c, Front(s), w);
      WhoIsExact(c, Front(s), w);
    }
  }

  /** The recorded check is that of the CHECK step, and an event check saw the policy and ceiling of its own time. */
  ghost predicate CheckMatches(c: Input, s: seq<Step>, w: Writer, check: Option<CheckRecord>)
    requires w in c.writers
  {
    var k := CheckPos(s, w);
    if k < 0 then check == None
    else
      && check.Some? && check.value.mode == s[k].mode
      && (s[k].mode == EventReevaluated ==>
            check.value.coordinate == PolicyAfter(c, s[..k])
            && check.value.passed == (c.writers[w].amount <= CeilingAfter(c, s[..k])))
  }

  lemma {:induction false} CheckIsExact(c: Input, s: seq<Step>, w: Writer)
    requires Run(c, s).Some? && Open(s, w)
    ensures w in Run(c, s).value.active && w in c.writers
    ensures CheckMatches(c, s, w, Run(c, s).value.active[w].check)
  {
    WhoIsExact(c, s, w);
    RunPrefix(c, s);
    var before := Run(c, Front(s)).value;
    WhoIsExact(c, Front(s), w);
    if Last(s).Read? && Last(s).writer == w {
      StepOpensAttempt(c, before, w, Last(s).expected);
      NoCheckBeforeRead(c, Front(s), w);
    } else {
      StepMoves(c, before, Last(s), w);
      CheckIsExact(c, Front(s), w);
      if Last(s).Check? && Last(s).writer == w {
        CountersAreExact(c, Front(s));
      } else {
        StepKeepsAttempt(c, before, Last(s), w);
        var k := CheckPos(s, w);
        if k >= 0 {
          assert Front(s)[..k] == s[..k];
        }
      }
    }
  }

  /** The receipts are those of the first commits. */
  lemma {:induction false} ReceiptsAreExact(c: Input, s: seq<Step>, id: string)
    requires Run(c, s).Some?
    ensures var receipts := Run(c, s).value.receipts;
      if c.keyed then
        ReceiptOf(c, s, id) == (if id in receipts then Some(receipts[id]) else None)
      else receipts == map[]
  {
    if s != [] {
      RunPrefix(c, s);
      ReceiptsAreExact(c, Front(s), id);
      ReceiptStep(c, Run(c, Front(s)).value, Last(s), id);
    }
  }

  lemma {:induction false} ReceiptStep(c: Input, st: State, step: Step, id: string)
    requires Next(c, st, step).Some?
    ensures var receipts := Next(c, st, step).value.receipts;
      if c.keyed && IsCommit(step) then
        step.writer in c.writers && step.index.Integer?
        && (id in receipts <==> id in st.receipts || c.Id(step.writer) == id)
        && (id in receipts ==> receipts[id] == if id in st.receipts then st.receipts[id] else step.index.n)
      else receipts == st.receipts
  {
  }

  // ---------- the reasons are exact for the history ----------

  /** The reasons that the steps of s give, each at its own place in the history. */
  ghost function Gathered(findings: (seq<Step>, Step) -> set<Reason>, s: seq<Step>): set<Reason> {
    if s == [] then {} else Gathered(findings, Front(s)) + findings(Front(s), Last(s))
  }

  lemma {:induction false} GatheredAt(findings: (seq<Step>, Step) -> set<Reason>, s: seq<Step>, r: Reason)
    ensures r in Gathered(findings, s) <==> exists k :: 0 <= k < |s| && r in findings(s[..k], s[k])
  {
    if s != [] {
      var p := Front(s);
      GatheredAt(findings, p, r);
      assert s[..|s| - 1] == p;
      assert forall k :: 0 <= k < |p| ==> p[..k] == s[..k] && p[k] == s[k];
      if r in Gathered(findings, p) {
        var k :| 0 <= k < |p| && r in findings(p[..k], p[k]);
        assert r in findings(s[..k], s[k]);
      } else if r in findings(p, Last(s)) {
        assert r in findings(s[..|s| - 1], s[|s| - 1]);
      }
      if k :| 0 <= k < |s| && r in findings(s[..k], s[k]) {
        assert k < |p| ==> r in findings(p[..k], p[k]);
      }
    }
  }

  ghost function EventAt(c: Input): (seq<Step>, Step) -> set<Reason> {
    (s, step) => EventFindings(c, s, step)
  }

  ghost function EventGapAt(): (seq<Step>, Step) -> set<Reason> {
    (s, step) => EventGaps(s, step)
  }

  ghost function ConcurrencyAt(c: Input): (seq<Step>, Step) -> set<Reason> {
    (s, step) => ConcurrencyFindings(c, s, step)
  }

  ghost function ConcurrencyGapAt(c: Input): (seq<Step>, Step) -> set<Reason> {
    (s, step) => ConcurrencyGaps(c, s, step)
  }

  ghost function IdemAt(c: Input): (seq<Step>, Step) -> set<Reason> {
    (s, step) => IdemFindings(c, s, step)
  }

  /** What the completion of an attempt adds to the event-time reasons, in terms of the state. */
  lemma {:induction false} FinishAddsEvent(c: Input, st: State, step: Step)
    requires step.Finish? && Next(c, st, step).Some?
    ensures step.writer in st.active && step.writer in c.writers
    ensures var st', check := Next(c, st, step).value, st.active[step.writer].check;
      && st'.eventBad == st.eventBad + (if IsCommit(step) then CommitEventReasons(st, check) else {})
      && st'.eventUnknown == st.eventUnknown
           + When(step.outcome == Reject && (check == None || check.value.mode != EventReevaluated), RejectionWithoutEventCheck)
  {
  }

  /** The check that the state holds is the one in the history. */
  lemma {:induction false} CheckFindings(c: Input, s: seq<Step>, step: Step)
    requires Run(c, s).Some? && step.Finish? && step.writer in Run(c, s).value.active && step.writer in c.writers
    ensures var st := Run(c, s).value; var check := st.active[step.writer].check;
      && (IsCommit(step) ==> EventFindings(c, s, step) == CommitEventReasons(st, check))
      && (step.outcome == Reject ==>
            EventGaps(s, step) == When(check == None || check.value.mode != EventReevaluated, RejectionWithoutEventCheck))
  {
    WhoIsExact(c, s, step.writer);
    CheckIsExact(c, s, step.writer);
    CountersAreExact(c, s);
  }

  lemma {:induction false} EventStep(c: Input, s: seq<Step>, step: Step)
    requires Run(c, s).Some? && Next(c, Run(c, s).value, step).Some?
    ensures var st := Run(c, s).value; var st' := Next(c, st, step).value;
      && st'.eventBad == st.eventBad + EventFindings(c, s, step)
      && st'.eventUnknown == st.eventUnknown + EventGaps(s, step)
  {
    if step.Finish? {
      FinishAddsEvent(c, Run(c, s).value, step);
      CheckFindings(c, s, step);
    }
  }

  /** What the state holds of an open attempt, in terms of the history. */
  lemma {:induction false} AttemptIsExact(c: Input, s: seq<Step>, w: Writer)
    requires Run(c, s).Some? && w in Run(c, s).value.active
    ensures var st := Run(c, s).value;
      && ReadPos(s, w) >= 0
      && (st.active[w].expected != st.version <==> Stale(s, w))
      && (st.active[w].overlapped <==> Overlapped(s, w))
  {
    WhoIsExact(c, s, w);
    ExpectedIsExact(c, s, w);
    OverlapIsExact(c, s, w);
    CountersAreExact(c, s);
  }

  /** What the completion of an attempt adds, in terms of the state. */
  lemma {:induction false} FinishAdds(c: Input, st: State, step: Step)
    requires step.Finish? && Next(c, st, step).Some?
    ensures step.writer in st.active
    ensures var st', a := Next(c, st, step).value, st.active[step.writer];
      && st'.concurrencyBad == st.concurrencyBad + (if IsCommit(step) then CommitConcurrencyReasons(c, st, a, step.cas) else {})
      && st'.concurrencyUnknown == st.concurrencyUnknown
           + When(IsCommit(step) && !step.cas && !c.Declared() && !a.overlapped, NoAtomicOrSerializationEvidence)
  {
  }

  lemma {:induction false} ConcurrencyStep(c: Input, s: seq<Step>, step: Step)
    requires Run(c, s).Some? && Next(c, Run(c, s).value, step).Some?
    ensures var st := Run(c, s).value; var st' := Next(c, st, step).value;
      && st'.concurrencyBad == st.concurrencyBad + ConcurrencyFindings(c, s, step)
      && st'.concurrencyUnknown == st.concurrencyUnknown + ConcurrencyGaps(c, s, step)
  {
    if step.Finish? {
      FinishAdds(c, Run(c, s).value, step);
      AttemptIsExact(c, s, step.writer);
    } else if step.Read? {
      ActiveIsOpen(c, s);
    }
  }

  lemma {:induction false} IdemStep(c: Input, s: seq<Step>, step: Step)
    requires Run(c, s).Some? && Next(c, Run(c, s).value, step).Some?
    ensures Next(c, Run(c, s).value, step).value.idemBad == Run(c, s).value.idemBad + IdemFindings(c, s, step)
  {
    if step.Finish? {
      ReceiptsAreExact(c, s, c.Id(step.writer));
    }
  }

  lemma {:induction false} ReasonsAreExact(c: Input, s: seq<Step>)
    requires Run(c, s).Some?
    ensures var st := Run(c, s).value;
      && st.eventBad == Gathered(EventAt(c), s) && st.eventUnknown == Gathered(EventGapAt(), s)
      && st.concurrencyBad == Gathered(ConcurrencyAt(c), s) && st.concurrencyUnknown == Gathered(ConcurrencyGapAt(c), s)
      && st.idemBad == Gathered(IdemAt(c), s)
  {
    if s != [] {
      RunPrefix(c, s);
      ReasonsAreExact(c, Front(s));
      EventStep(c, Front(s), Last(s));
      ConcurrencyStep(c, Front(s), Last(s));
      IdemStep(c, Front(s), Last(s));
    }
  }

  lemma {:induction false} NothingGathered(findings: (seq<Step>, Step) -> set<Reason>, s: seq<Step>)
    ensures Gathered(findings, s) == {} <==> forall k :: 0 <= k < |s| ==> findings(s[..k], s[k]) == {}
  {
    if Gathered(findings, s) == {} {
      forall k | 0 <= k < |s|
        ensures findings(s[..k], s[k]) == {}
      {
        if r :| r in findings(s[..k], s[k]) {
          GatheredAt(findings, s, r);
        }
      }
    } else {
      var r :| r in Gathered(findings, s);
      GatheredAt(findings, s, r);
    }
  }
}
