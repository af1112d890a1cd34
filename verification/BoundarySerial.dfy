/**
 The serial execution behind a satisfied schedule: every committing writer's READ and CHECK are moved
 directly before its commit, and the schedule so obtained runs to the same result.
 */
module BoundarySerial {
  import opened Wrappers
  import opened Boundary
  import opened BoundaryHistory
  import opened BoundaryTheorems

  // ---------- the serial schedule ----------

  predicate Prepares(step: Step, w: Writer) {
    (step.Read? || step.Check?) && step.writer == w
  }

  /** s without the READ and the CHECK of w. */
  function Without(s: seq<Step>, w: Writer): seq<Step> {
    if s == [] then []
    else Without(Front(s), w) + if Prepares(Last(s), w) then [] else [Last(s)]
  }

  /** The READ and the CHECK of w in s. */
  function Preparation(s: seq<Step>, w: Writer): seq<Step> {
    if s == [] then []
    else Preparation(Front(s), w) + if Prepares(Last(s), w) then [Last(s)] else []
  }

  function Serial(s: seq<Step>): seq<Step> {
    if s == [] then []
    else
      var q := Serial(Front(s));
      if IsCommit(Last(s)) then Without(q, Last(s).writer) + Preparation(q, Last(s).writer) + [Last(s)]
      else q + [Last(s)]
  }

  lemma {:induction false} WithoutKeepsSteps(s: seq<Step>, w: Writer)
    ensures multiset(Without(s, w) + Preparation(s, w)) == multiset(s)
  {
    if s != [] {
      WithoutKeepsSteps(Front(s), w);
      assert s == Front(s) + [Last(s)];
    }
  }

  /** It consists of the same steps. */
  lemma {:induction false} SerialKeepsSteps(s: seq<Step>)
    ensures multiset(Serial(s)) == multiset(s)
  {
    if s != [] {
      SerialKeepsSteps(Front(s));
      assert s == Front(s) + [Last(s)];
      if IsCommit(Last(s)) {
        WithoutKeepsSteps(Serial(Front(s)), Last(s).writer);
      }
    }
  }

  // ---------- following a run with some attempts left out ----------

  ghost predicate SameAttempt(a: Attempt, b: Attempt) {
    b.expected == a.expected && b.check == a.check && (b.overlapped ==> a.overlapped)
  }

  ghost predicate SameRegisters(st: State, t: State) {
    && t.version == st.version && t.policy == st.policy && t.ceiling == st.ceiling && t.finished == st.finished
    && t.audits == st.audits && t.receipts == st.receipts && t.results == st.results && t.transitions == st.transitions
    && t.usedCas == st.usedCas && t.nextIndex == st.nextIndex && t.eventUnknown == st.eventUnknown && t.idemBad == st.idemBad
  }

  /** No reason that the first run did not give. */
  ghost predicate NoNewReason(st: State, t: State) {
    t.concurrencyBad <= st.concurrencyBad && (st.eventBad == {} ==> t.eventBad == {})
  }

  /** The second state is the first one without the attempts that are gone, and with no overlap or reason of its own. */
  ghost predicate Follows(st: State, t: State, gone: set<Writer>) {
    && SameRegisters(st, t) && NoNewReason(st, t)
    && t.active.Keys == st.active.Keys - gone
    && forall v :: v in t.active ==> SameAttempt(st.active[v], t.active[v])
  }

  predicate NotBy(step: Step, gone: set<Writer>) {
    step.Policy? || step.UnknownOp? || step.writer !in gone
  }

  lemma {:induction false} FollowsRead(c: Input, st: State, t: State, gone: set<Writer>, step: Step)
    requires Follows(st, t, gone) && gone <= st.active.Keys && step.Read? && step.writer !in gone
    requires Next(c, st, step).Some?
    ensures Next(c, t, step).Some? && Follows(Next(c, st, step).value, Next(c, t, step).value, gone)
  {
    var st', t' := Next(c, st, step).value, Next(c, t, step).value;
    assert t'.active.Keys == st'.active.Keys - gone;
  }

  lemma {:induction false} FollowsCheck(c: Input, st: State, t: State, gone: set<Writer>, step: Step)
    requires Follows(st, t, gone) && gone <= st.active.Keys && step.Check? && step.writer !in gone
    requires Next(c, st, step).Some?
    ensures Next(c, t, step).Some? && Follows(Next(c, st, step).value, Next(c, t, step).value, gone)
  {
    var st', t' := Next(c, st, step).value, Next(c, t, step).value;
    assert step.writer in t.active;
    assert t'.active.Keys == st'.active.Keys - gone;
  }

  /** The check of b lets a commit pass wherever that of a does. */
  ghost predicate VouchesAsWell(st: State, a: Attempt, t: State, b: Attempt) {
    CommitEventReasons(st, a.check) == {} ==> CommitEventReasons(t, b.check) == {}
  }

  lemma {:induction false} FollowsCommitted(c: Input, st: State, t: State, gone: set<Writer>, id: string, a: Attempt, b: Attempt,
                                            cas: bool)
    requires Follows(st, t, gone) && b.expected == a.expected && (b.overlapped ==> a.overlapped)
    requires VouchesAsWell(st, a, t, b)
    ensures Follows(Committed(c, st, id, a, cas), Committed(c, t, id, b, cas), gone)
  {
    assert CommitConcurrencyReasons(c, t, b, cas) <= CommitConcurrencyReasons(c, st, a, cas);
  }

  lemma {:induction false} FollowsClosed(st: State, t: State, gone: set<Writer>, w: Writer, cas: bool, outcome: Outcome,
                                         index: Field)
    requires Follows(st, t, gone) && w in st.active && w !in gone
    ensures Follows(Closed(st, w, cas, outcome, index), Closed(t, w, cas, outcome, index), gone)
  {
    var st', t' := Closed(st, w, cas, outcome, index), Closed(t, w, cas, outcome, index);
    assert t'.active.Keys == st'.active.Keys - gone;
  }

  lemma {:induction false} FollowsFinish(c: Input, st: State, t: State, gone: set<Writer>, step: Step)
    requires Follows(st, t, gone) && gone <= st.active.Keys && step.Finish? && step.writer !in gone
    requires Next(c, st, step).Some?
    ensures Next(c, t, step).Some? && Follows(Next(c, st, step).value, Next(c, t, step).value, gone)
  {
    var w, cas := step.writer, step.cas;
    assert w in t.active && SameAttempt(st.active[w], t.active[w]);
    FollowsClosed(st, t, gone, w, cas, step.outcome, step.index);
    if step.outcome == Commit {
      var st', t' := Closed(st, w, cas, Commit, step.index), Closed(t, w, cas, Commit, step.index);
      FollowsCommitted(c, st', t', gone, c.Id(w), st.active[w], t.active[w], cas);
    }
  }

  /** A step by others is as possible without the attempts that are gone, and has the same effect. */
  lemma {:induction false} FollowsStep(c: Input, st: State, t: State, gone: set<Writer>, step: Step)
    requires Follows(st, t, gone) && gone <= st.active.Keys && NotBy(step, gone)
    requires Next(c, st, step).Some?
    ensures Next(c, t, step).Some? && Follows(Next(c, st, step).value, Next(c, t, step).value, gone)
    ensures gone <= Next(c, st, step).value.active.Keys
  {
    match step {
      case Read(_, _) => FollowsRead(c, st, t, gone, step);
      case Check(_, _) => FollowsCheck(c, st, t, gone, step);
      case Finish(_, _, _, _) => FollowsFinish(c, st, t, gone, step);
      case Policy(_, _) =>
      case Audit(_) =>
      case UnknownOp =>
    }
  }

  // ---------- leaving one open attempt out ----------

  lemma {:induction false} RunSnoc(c: Input, s: seq<Step>, step: Step)
    ensures Run(c, s + [step]) == if Run(c, s) == None then None else Next(c, Run(c, s).value, step)
  {
    assert (s + [step])[..|s|] == s;
  }

  lemma {:induction false} StillUnbegun(c: Input, st: State, step: Step, w: Writer)
    requires Next(c, st, step).Some?
    requires w !in Next(c, st, step).value.active && w !in Next(c, st, step).value.finished
    ensures !Prepares(step, w) && w !in st.active && w !in st.finished
  {
    StepMoves(c, st, step, w);
  }

  /** Who has neither begun nor finished has taken no step towards a commit. */
  lemma {:induction false} NothingPrepared(c: Input, q: seq<Step>, w: Writer)
    requires Run(c, q).Some? && w !in Run(c, q).value.active && w !in Run(c, q).value.finished
    ensures Without(q, w) == q && Preparation(q, w) == []
  {
    if q != [] {
      RunPrefix(c, q);
      StillUnbegun(c, Run(c, Front(q)).value, Last(q), w);
      NothingPrepared(c, Front(q), w);
      assert q == Front(q) + [Last(q)] && Preparation(q, w) == [] + [];
    }
  }

  /** The attempt of w as its steps in the schedule show it. */
  ghost predicate PreparedBy(st: State, w: Writer, prep: seq<Step>) {
    && w in st.active && st.active[w].expected >= 0 && prep != [] && prep[0] == Read(w, Integer(st.active[w].expected))
    && match st.active[w].check
       case None => |prep| == 1
       case Some(r) => |prep| == 2 && prep[1] == Check(w, r.mode) && (r.mode == PeriodicPassOnly ==> w in st.audits)
                       && r.mode != UnknownMode
  }

  lemma {:induction false} PreparationStays(c: Input, st: State, w: Writer, step: Step, prep: seq<Step>)
    requires PreparedBy(st, w, prep) && NotBy(step, {w}) && Next(c, st, step).Some?
    ensures PreparedBy(Next(c, st, step).value, w, prep)
  {
    var st' := Next(c, st, step).value;
    StepMoves(c, st, step, w);
    StepKeepsAttempt(c, st, step, w);
    assert w in st.audits ==> w in st'.audits;
  }

  lemma {:induction false} PreparationBegins(c: Input, st: State, w: Writer, step: Step)
    requires step.Read? && step.writer == w && Next(c, st, step).Some?
    ensures w !in st.active && w !in st.finished
    ensures PreparedBy(Next(c, st, step).value, w, [step]) && Follows(Next(c, st, step).value, st, {w})
  {
    var st' := Next(c, st, step).value;
    StepOpensAttempt(c, st, w, step.expected);
    assert st.active.Keys == st'.active.Keys - {w};
  }

  lemma {:induction false} PreparationChecks(c: Input, st: State, t: State, w: Writer, step: Step, prep: seq<Step>)
    requires step.Check? && step.writer == w && Next(c, st, step).Some?
    requires PreparedBy(st, w, prep) && Follows(st, t, {w})
    ensures PreparedBy(Next(c, st, step).value, w, prep + [step]) && Follows(Next(c, st, step).value, t, {w})
  {
    var st' := Next(c, st, step).value;
    assert st'.active.Keys == st.active.Keys;
  }

  /** An open attempt can be left out: the rest of the schedule runs as before, without it. */
  lemma {:induction false} WithoutRuns(c: Input, q: seq<Step>, w: Writer)
    requires Run(c, q).Some? && w in Run(c, q).value.active
    ensures Run(c, Without(q, w)).Some? && Follows(Run(c, q).value, Run(c, Without(q, w)).value, {w})
    ensures PreparedBy(Run(c, q).value, w, Preparation(q, w))
  {
    RunPrefix(c, q);
    var p, step := Front(q), Last(q);
    var st := Run(c, p).value;
    StepMoves(c, st, step, w);
    if w in st.active {
      WithoutRuns(c, p, w);
      WithoutStep(c, st, Run(c, Without(p, w)).value, w, step, Preparation(p, w));
      RunSnoc(c, Without(p, w), step);
      assert Without(p, w) + [] == Without(p, w) && Preparation(p, w) + [] == Preparation(p, w);
    } else {
      PreparationBegins(c, st, w, step);
      NothingPrepared(c, p, w);
      assert Preparation(q, w) == [step] && Without(q, w) == p;
    }
  }

  lemma {:induction false} WithoutStep(c: Input, st: State, t: State, w: Writer, step: Step, prep: seq<Step>)
    requires Next(c, st, step).Some? && w in Next(c, st, step).value.active
    requires PreparedBy(st, w, prep) && Follows(st, t, {w})
    ensures Prepares(step, w) ==>
              PreparedBy(Next(c, st, step).value, w, prep + [step]) && Follows(Next(c, st, step).value, t, {w})
    ensures !Prepares(step, w) ==> Next(c, t, step).Some?
    ensures !Prepares(step, w) ==>
              PreparedBy(Next(c, st, step).value, w, prep) && Follows(Next(c, st, step).value, Next(c, t, step).value, {w})
  {
    StepMoves(c, st, step, w);
    if Prepares(step, w) {
      PreparationChecks(c, st, t, w, step, prep);
    } else {
      assert NotBy(step, {w});
      PreparationStays(c, st, w, step, prep);
      FollowsStep(c, st, t, {w}, step);
    }
  }

  // ---------- preparing again, just before the commit ----------

  /** Where two attempts are open, every open one is marked, and a declared discipline was broken. */
  ghost predicate Crowded(c: Input, st: State) {
    forall v, w :: v in st.active && w in st.active && v != w ==>
      st.active[v].overlapped && (c.Declared() ==> SerializationOverlap in st.concurrencyBad)
  }

  lemma {:induction false} CrowdedStep(c: Input, st: State, step: Step)
    requires Crowded(c, st) && Next(c, st, step).Some?
    ensures Crowded(c, Next(c, st, step).value)
  {
    if !step.Read? {
      OverlapStays(c, st, step);
    }
  }

  lemma {:induction false} OverlapStays(c: Input, st: State, step: Step)
    requires !step.Read? && Next(c, st, step).Some?
    ensures var t := Next(c, st, step).value;
      && (forall v :: v in t.active ==> v in st.active && t.active[v].overlapped == st.active[v].overlapped)
      && st.concurrencyBad <= t.concurrencyBad
  {
  }

  lemma {:induction false} RunIsCrowded(c: Input, q: seq<Step>)
    requires Run(c, q).Some?
    ensures Crowded(c, Run(c, q).value)
  {
    if q != [] {
      RunPrefix(c, q);
      RunIsCrowded(c, Front(q));
      CrowdedStep(c, Run(c, Front(q)).value, Last(q));
    }
  }

  /** As Follows, except that w may have been checked again. */
  ghost predicate FollowsBut(st: State, t: State, w: Writer) {
    && SameRegisters(st, t) && NoNewReason(st, t) && t.active.Keys == st.active.Keys && w in t.active
    && (forall v :: v in t.active && v != w ==> SameAttempt(st.active[v], t.active[v]))
    && t.active[w].expected == st.active[w].expected && (t.active[w].overlapped ==> st.active[w].overlapped)
  }

  /** The check of w made now, in the mode in which it was made. */
  ghost predicate CheckedNow(c: Input, st: State, t: State, w: Writer)
    requires w in st.active && w in t.active && w in c.writers
  {
    match st.active[w].check
    case None => t.active[w].check == None
    case Some(r) =>
      && t.active[w].check.Some? && t.active[w].check.value.mode == r.mode
      && (r.mode == EventReevaluated ==>
            t.active[w].check.value == CheckRecord(r.mode, st.policy, c.writers[w].amount <= st.ceiling))
  }

  lemma {:induction false} ReadAgain(c: Input, st: State, t: State, w: Writer)
    requires Follows(st, t, {w}) && Crowded(c, st) && w in st.active && w in c.writers && w !in st.finished
    requires st.active[w].expected == st.version >= 0
    ensures Next(c, t, Read(w, Integer(st.version))).Some?
    ensures FollowsBut(st, Next(c, t, Read(w, Integer(st.version))).value, w)
    ensures Next(c, t, Read(w, Integer(st.version))).value.active[w].check == None
  {
    var t' := Next(c, t, Read(w, Integer(st.version))).value;
    assert t'.active.Keys == st.active.Keys;
    forall v | v in t.active
      ensures st.active[v].overlapped && st.active[w].overlapped
      ensures c.Declared() ==> SerializationOverlap in st.concurrencyBad
    {
      assert v != w && v in st.active;
    }
  }

  lemma {:induction false} CheckAgain(c: Input, st: State, t: State, w: Writer, mode: Mode)
    requires FollowsBut(st, t, w) && t.active[w].check == None && w in c.writers && mode != UnknownMode
    requires mode == PeriodicPassOnly ==> w in st.audits
    ensures Next(c, t, Check(w, mode)).Some? && FollowsBut(st, Next(c, t, Check(w, mode)).value, w)
    ensures var check := Next(c, t, Check(w, mode)).value.active[w].check;
      && check.Some? && check.value.mode == mode
      && (mode == EventReevaluated ==> check.value == CheckRecord(mode, st.policy, c.writers[w].amount <= st.ceiling))
  {
    var t' := Next(c, t, Check(w, mode)).value;
    assert t'.active.Keys == t.active.Keys;
  }

  lemma {:induction false} Reprepared(c: Input, u: seq<Step>, st: State, w: Writer, prep: seq<Step>)
    requires Run(c, u).Some? && Follows(st, Run(c, u).value, {w}) && PreparedBy(st, w, prep) && Crowded(c, st)
    requires w in c.writers && w !in st.finished && st.active[w].expected == st.version
    ensures Run(c, u + prep).Some? && FollowsBut(st, Run(c, u + prep).value, w)
    ensures CheckedNow(c, st, Run(c, u + prep).value, w)
  {
    RereadAfter(c, u, st, w, prep[0]);
    var v := u + [prep[0]];
    if st.active[w].check == None {
      assert u + prep == v;
    } else {
      RecheckedAfter(c, v, st, w, prep[1]);
      assert u + prep == v + [prep[1]];
    }
  }

  lemma {:induction false} RereadAfter(c: Input, u: seq<Step>, st: State, w: Writer, step: Step)
    requires Run(c, u).Some? && Follows(st, Run(c, u).value, {w}) && Crowded(c, st) && w in st.active
    requires step == Read(w, Integer(st.version)) && st.active[w].expected == st.version >= 0
    requires w in c.writers && w !in st.finished
    ensures Run(c, u + [step]).Some? && FollowsBut(st, Run(c, u + [step]).value, w)
    ensures Run(c, u + [step]).value.active[w].check == None
  {
    ReadAgain(c, st, Run(c, u).value, w);
    RunSnoc(c, u, step);
  }

  lemma {:induction false} RecheckedAfter(c: Input, v: seq<Step>, st: State, w: Writer, step: Step)
    requires Run(c, v).Some? && FollowsBut(st, Run(c, v).value, w) && Run(c, v).value.active[w].check == None
    requires w in st.active && w in c.writers && st.active[w].check.Some?
    requires var mode := st.active[w].check.value.mode;
      step == Check(w, mode) && mode != UnknownMode && (mode == PeriodicPassOnly ==> w in st.audits)
    ensures Run(c, v + [step]).Some? && FollowsBut(st, Run(c, v + [step]).value, w)
    ensures CheckedNow(c, st, Run(c, v + [step]).value, w)
  {
    CheckAgain(c, st, Run(c, v).value, w, step.mode);
    RunSnoc(c, v, step);
  }

  lemma {:induction false} FollowsButClosed(st: State, t: State, w: Writer, cas: bool, index: Field)
    requires FollowsBut(st, t, w) && w in st.active
    ensures Follows(Closed(st, w, cas, Commit, index), Closed(t, w, cas, Commit, index), {})
  {
    var st', t' := Closed(st, w, cas, Commit, index), Closed(t, w, cas, Commit, index);
    assert t'.active.Keys == st'.active.Keys - {};
  }

  /** The commit after the preparation. */
  lemma {:induction false} CommitFollows(c: Input, st: State, t: State, step: Step)
    requires IsCommit(step) && step.writer in st.active && FollowsBut(st, t, step.writer) && Next(c, st, step).Some?
    requires VouchesAsWell(st, st.active[step.writer], t, t.active[step.writer])
    ensures Next(c, t, step).Some? && Follows(Next(c, st, step).value, Next(c, t, step).value, {})
  {
    var w, cas := step.writer, step.cas;
    FollowsButClosed(st, t, w, cas, step.index);
    FollowsCommitted(c, Closed(st, w, cas, Commit, step.index), Closed(t, w, cas, Commit, step.index), {}, c.Id(w),
                     st.active[w], t.active[w], cas);
  }

  /** A check that lets a commit pass is still right at the commit. */
  lemma {:induction false} StillWithin(c: Input, s: seq<Step>, w: Writer)
    requires Run(c, s).Some? && w in Run(c, s).value.active
    requires CommitEventReasons(Run(c, s).value, Run(c, s).value.active[w].check) == {}
    ensures w in c.writers && c.writers[w].amount <= Run(c, s).value.ceiling
  {
    WhoIsExact(c, s, w);
    CheckIsExact(c, s, w);
    CountersAreExact(c, s);
    var k := CheckPos(s, w);
    PolicyOnlyRises(c, s, k);
  }

  lemma {:induction false} FollowsChain(st: State, m: State, t: State, w: Writer)
    requires Follows(st, m, {}) && FollowsBut(m, t, w)
    ensures FollowsBut(st, t, w)
  {
  }

  // ---------- the serial schedule runs to the same result ----------

  /** Every commit read the version that it replaces. */
  predicate CommitsAreFresh(s: seq<Step>) {
    s == [] ||
    (CommitsAreFresh(Front(s))
     && (IsCommit(Last(s)) ==> ReadPos(Front(s), Last(s).writer) >= 0 && !Stale(Front(s), Last(s).writer)))
  }

  lemma {:induction false} SerialFront(s: seq<Step>)
    requires s != [] && CommitsAreSerial(s)
    ensures CommitsAreSerial(Front(s))
  {
    var p := Front(s);
    forall i, j | 0 <= i < j < |p| && p[i].Read? && IsCommit(p[j]) && p[i].writer == p[j].writer
      ensures Uninterrupted(p, i, j)
    {
      assert Uninterrupted(s, i, j);
    }
  }

  /** That is what being serial means. */
  lemma {:induction false} SerialCommitsAreFresh(c: Input, s: seq<Step>)
    requires Run(c, s).Some? && CommitsAreSerial(s)
    ensures CommitsAreFresh(s)
  {
    if s != [] {
      RunPrefix(c, s);
      SerialFront(s);
      SerialCommitsAreFresh(c, Front(s));
      if IsCommit(Last(s)) {
        var j := |s| - 1;
        StaleIsInterrupted(c, s, j);
        assert Uninterrupted(s, ReadPos(s, Last(s).writer), j);
      }
    }
  }

  lemma {:induction false} OpenAndKnown(c: Input, q: seq<Step>, w: Writer)
    requires Run(c, q).Some? && w in Run(c, q).value.active
    ensures w in c.writers && w !in Run(c, q).value.finished
  {
    WhoIsExact(c, q, w);
  }

  /** Moving the READ and the CHECK of a fresh attempt to its commit. */
  lemma {:induction false} CommitMoved(c: Input, p: seq<Step>, q: seq<Step>, step: Step)
    requires Run(c, p).Some? && Run(c, q).Some? && Follows(Run(c, p).value, Run(c, q).value, {})
    requires IsCommit(step) && Next(c, Run(c, p).value, step).Some?
    requires ReadPos(p, step.writer) >= 0 && !Stale(p, step.writer)
    ensures var r := Without(q, step.writer) + Preparation(q, step.writer) + [step];
      Run(c, r).Some? && Follows(Next(c, Run(c, p).value, step).value, Run(c, r).value, {})
  {
    var w, st, m := step.writer, Run(c, p).value, Run(c, q).value;
    var u, prep := Without(q, w), Preparation(q, w);
    assert w in st.active && w in m.active;
    AttemptIsExact(c, p, w);
    OpenAndKnown(c, q, w);
    WithoutRuns(c, q, w);
    RunIsCrowded(c, q);
    Reprepared(c, u, m, w, prep);
    var t := Run(c, u + prep).value;
    FollowsChain(st, m, t, w);
    Vouched(c, p, m, t, w);
    CommitFollows(c, st, t, step);
    RunSnoc(c, u + prep, step);
  }

  lemma {:induction false} Vouched(c: Input, p: seq<Step>, m: State, t: State, w: Writer)
    requires Run(c, p).Some? && w in Run(c, p).value.active && w in m.active && w in t.active && w in c.writers
    requires m.active[w].check == Run(c, p).value.active[w].check && CheckedNow(c, m, t, w)
    requires m.policy == Run(c, p).value.policy == t.policy && m.ceiling == Run(c, p).value.ceiling
    ensures VouchesAsWell(Run(c, p).value, Run(c, p).value.active[w], t, t.active[w])
  {
    var st := Run(c, p).value;
    if CommitEventReasons(st, st.active[w].check) == {} {
      StillWithin(c, p, w);
    }
  }

  lemma {:induction false} SerialRuns(c: Input, s: seq<Step>)
    requires Run(c, s).Some? && CommitsAreFresh(s)
    ensures Run(c, Serial(s)).Some? && Follows(Run(c, s).value, Run(c, Serial(s)).value, {})
  {
    if s != [] {
      RunPrefix(c, s);
      var p, step := Front(s), Last(s);
      SerialRuns(c, p);
      if IsCommit(step) {
        CommitMoved(c, p, Serial(p), step);
      } else {
        FollowsStep(c, Run(c, p).value, Run(c, Serial(p)).value, {}, step);
        RunSnoc(c, Serial(p), step);
      }
    }
  }

  // ---------- the serial schedule is serial ----------

  /** s ends with the READ of w, or with its READ and its CHECK. */
  predicate EndsPrepared(s: seq<Step>, w: Writer) {
    || (s != [] && Last(s).Read? && Last(s).writer == w)
    || (|s| > 1 && Last(s).Check? && Last(s).writer == w && Last(Front(s)).Read? && Last(Front(s)).writer == w)
  }

  /** Every commit comes directly after its own READ and CHECK. */
  predicate CommitsAreAtomic(s: seq<Step>) {
    s == [] || (CommitsAreAtomic(Front(s)) && (IsCommit(Last(s)) ==> EndsPrepared(Front(s), Last(s).writer)))
  }

  lemma {:induction false} AtomicSnoc(s: seq<Step>, step: Step)
    ensures CommitsAreAtomic(s + [step]) <==> CommitsAreAtomic(s) && (IsCommit(step) ==> EndsPrepared(s, step.writer))
  {
    assert Front(s + [step]) == s;
  }

  lemma {:induction false} PreparedWithout(s: seq<Step>, w: Writer, v: Writer)
    requires EndsPrepared(s, v) && v != w
    ensures EndsPrepared(Without(s, w), v)
  {
    var u := Without(s, w);
    assert u == Without(Front(s), w) + [Last(s)];
    assert Front(u) == Without(Front(s), w);
    if !Last(s).Read? {
      var p := Front(s);
      assert Front(u) == Without(Front(p), w) + [Last(p)];
    }
  }

  lemma {:induction false} AtomicWithout(c: Input, q: seq<Step>, w: Writer)
    requires Run(c, q).Some? && w !in Run(c, q).value.finished && CommitsAreAtomic(q)
    ensures CommitsAreAtomic(Without(q, w))
  {
    if q != [] {
      var p, step := Front(q), Last(q);
      RunPrefix(c, q);
      StepMoves(c, Run(c, p).value, step, w);
      AtomicWithout(c, p, w);
      if Prepares(step, w) {
        assert Without(q, w) == Without(p, w);
      } else {
        AtomicSnoc(Without(p, w), step);
        if IsCommit(step) {
          PreparedWithout(p, w, step.writer);
        }
      }
    }
  }

  lemma {:induction false} AtomicAfterRead(u: seq<Step>, read: Step, step: Step)
    requires CommitsAreAtomic(u) && read.Read? && IsCommit(step) && step.writer == read.writer
    ensures CommitsAreAtomic(u + [read] + [step])
  {
    AtomicSnoc(u, read);
    AtomicSnoc(u + [read], step);
  }

  lemma {:induction false} AtomicAfterCheck(u: seq<Step>, read: Step, check: Step, step: Step)
    requires CommitsAreAtomic(u) && read.Read? && check.Check? && IsCommit(step)
    requires step.writer == check.writer == read.writer
    ensures CommitsAreAtomic(u + [read] + [check] + [step])
  {
    AtomicSnoc(u, read);
    AtomicSnoc(u + [read], check);
    assert Front(u + [read] + [check]) == u + [read];
    AtomicSnoc(u + [read] + [check], step);
  }

  lemma {:induction false} AtomicCommit(u: seq<Step>, st: State, w: Writer, prep: seq<Step>, step: Step)
    requires CommitsAreAtomic(u) && PreparedBy(st, w, prep) && IsCommit(step) && step.writer == w
    ensures CommitsAreAtomic(u + prep + [step])
  {
    if st.active[w].check == None {
      AtomicAfterRead(u, prep[0], step);
      assert u + prep == u + [prep[0]];
    } else {
      AtomicAfterCheck(u, prep[0], prep[1], step);
      assert u + prep == u + [prep[0]] + [prep[1]];
    }
  }

  lemma {:induction false} SerialIsAtomic(c: Input, s: seq<Step>)
    requires Run(c, s).Some? && CommitsAreFresh(s)
    ensures CommitsAreAtomic(Serial(s))
  {
    if s != [] {
      RunPrefix(c, s);
      var p, step := Front(s), Last(s);
      var q := Serial(p);
      SerialRuns(c, p);
      SerialIsAtomic(c, p);
      if IsCommit(step) {
        assert step.writer in Run(c, q).value.active;
        OpenAndKnown(c, q, step.writer);
        AtomicWithout(c, q, step.writer);
        WithoutRuns(c, q, step.writer);
        AtomicCommit(Without(q, step.writer), Run(c, q).value, step.writer, Preparation(q, step.writer), step);
      } else {
        AtomicSnoc(q, step);
      }
    }
  }

  // ---------- and it earns the same verdicts ----------

  lemma {:induction false} ProtectedLeaveNoGap(c: Input, q: seq<Step>)
    requires Run(c, q).Some? && forall j :: 0 <= j < |q| && IsCommit(q[j]) ==> q[j].cas || c.Declared()
    ensures Run(c, q).value.concurrencyUnknown == {}
  {
    if q != [] {
      RunPrefix(c, q);
      ProtectedLeaveNoGap(c, Front(q));
      assert IsCommit(Last(q)) ==> Last(q).cas || c.Declared();
    }
  }

  /** The same input with the serial schedule. */
  function Serialized(c: Input): Input {
    c.(schedule := Serial(c.schedule))
  }

  lemma {:induction false} RunIgnoresSchedule(c: Input, d: Input, s: seq<Step>)
    requires d == c.(schedule := d.schedule)
    ensures Run(d, s) == Run(c, s)
  {
    if s != [] {
      RunIgnoresSchedule(c, d, Front(s));
      if Run(c, Front(s)).Some? {
        NextIgnoresSchedule(c, d, Run(c, Front(s)).value, Last(s));
      }
    }
  }

  lemma {:induction false} NextIgnoresSchedule(c: Input, d: Input, st: State, step: Step)
    requires d == c.(schedule := d.schedule)
    ensures Next(d, st, step) == Next(c, st, step)
  {
    assert forall w :: w in c.writers ==> d.Id(w) == c.Id(w);
  }

  lemma {:induction false} SerialIsProtected(c: Input)
    requires CommitsAreProtected(c)
    ensures forall j :: 0 <= j < |Serial(c.schedule)| && IsCommit(Serial(c.schedule)[j]) ==>
              Serial(c.schedule)[j].cas || c.Declared()
  {
    var q := Serial(c.schedule);
    SerialKeepsSteps(c.schedule);
    forall j | 0 <= j < |q| && IsCommit(q[j])
      ensures q[j].cas || c.Declared()
    {
      assert q[j] in multiset(q);
      var k :| 0 <= k < |c.schedule| && c.schedule[k] == q[j];
    }
  }

  /**
   A schedule whose concurrency status is "satisfied" is equivalent to the serial execution of its commits.
   The serial schedule has the same steps, each commit directly after its own READ and CHECK; it is
   consistent, its concurrency status is "satisfied" too, and it ends with the same version, receipts and
   observed results.
   */
  lemma {:induction false} SatisfiedMeansSerializable(c: Input)
    requires ValidInput(c) && Run(c, c.schedule).Some? && Evaluate(c).concurrency == Satisfied
    ensures multiset(Serialized(c).schedule) == multiset(c.schedule) && CommitsAreAtomic(Serialized(c).schedule)
    ensures ValidInput(Serialized(c)) && Run(Serialized(c), Serialized(c).schedule).Some?
    ensures var st, t := Run(c, c.schedule).value, Run(Serialized(c), Serialized(c).schedule).value;
      t.version == st.version && t.receipts == st.receipts && t.results == st.results && t.transitions == st.transitions
    ensures Evaluate(Serialized(c)).concurrency == Satisfied
    ensures Evaluate(Serialized(c)).idempotency == Evaluate(c).idempotency
    ensures Evaluate(c).event == Satisfied ==> Evaluate(Serialized(c)).event == Satisfied
    ensures Evaluate(c).admission == Admit ==> Evaluate(Serialized(c)).admission == Admit
  {
    var d, s := Serialized(c), c.schedule;
    ConcurrencySatisfiedExactly(c);
    SerialKeepsSteps(s);
    SerialCommitsAreFresh(c, s);
    SerialRuns(c, s);
    SerialIsAtomic(c, s);
    RunIgnoresSchedule(c, d, d.schedule);
    SerialIsProtected(c);
    ProtectedLeaveNoGap(c, d.schedule);
    SerialVerdicts(c, d, Run(c, s).value, Run(d, d.schedule).value);
  }

  lemma {:induction false} SerialVerdicts(c: Input, d: Input, st: State, t: State)
    requires ValidInput(c) && d == c.(schedule := d.schedule) && |d.schedule| == |c.schedule|
    requires Run(c, c.schedule) == Some(st) && Run(d, d.schedule) == Some(t)
    requires Follows(st, t, {}) && t.concurrencyUnknown == {} && Evaluate(c).concurrency == Satisfied
    ensures ValidInput(d) && Evaluate(d).concurrency == Satisfied && Evaluate(d).idempotency == Evaluate(c).idempotency
    ensures Evaluate(c).event == Satisfied ==> Evaluate(d).event == Satisfied
    ensures Evaluate(c).admission == Admit ==> Evaluate(d).admission == Admit
  {
    SatisfiedMeansNoReason(c, st);
    SatisfiedMeansNoReason(d, t);
    assert Incomplete(c, st) <==> Incomplete(d, t) by {
      assert t.active.Keys == st.active.Keys;
    }
    AdmitsWhenSatisfied(c, st);
    AdmitsWhenSatisfied(d, t);
  }
}
