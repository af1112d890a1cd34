/**
 The admission-trace checker: a schedule of READ, CHECK, WRITE, CAS, POLICY and AUDIT steps is run
 over the protected state of one domain, and three independent statuses are derived.
 */
module Boundary {
  import opened Wrappers

  type Writer = string

  /** A JSON field: missing, an integer, or a value of another type. */
  datatype Field = Absent | Integer(n: int) | Other

  predicate Natural(f: Field) {
    f.Integer? && f.n >= 0
  }

  datatype Mode = EventReevaluated | PeriodicPassOnly | UnknownMode
  datatype Outcome = Commit | Reject | Replay | UnknownOutcome
  datatype Discipline = Unspecified | SingleWriter | Serialized

  datatype Step =
    | Policy(version: Field, ceiling: Field)
    | Audit(writer: Writer)
    | Read(writer: Writer, expected: Field)
    | Check(writer: Writer, mode: Mode)
    | Finish(writer: Writer, cas: bool, outcome: Outcome, index: Field)
    | UnknownOp

  datatype Request = Request(ref: string, amount: int)

  datatype Input = Input(version: int, policy: int, ceiling: int, discipline: Discipline, keyed: bool,
                         writers: map<Writer, Request>, schedule: seq<Step>, identity: string -> string)
  {
    predicate Declared() {
      discipline != Unspecified
    }

    function Id(w: Writer): string
      requires w in writers
    {
      identity(writers[w].ref)
    }
  }

  datatype Reason =
    | EventCheckMissing | PeriodicPassNotAuthority | EventPolicyVersionStale | PredicateFalse
    | RejectionWithoutEventCheck
    | SerializationOverlap | CasVersionMismatch | NonatomicConcurrentWrite | SerializedStaleWrite
    | NoAtomicOrSerializationEvidence
    | ReplayReceiptChanged | SecondTransitionSameIdentity
    | IncompleteSchedule | InvalidTrace
    | EventTimeEstablished | SafeUnderModeledSerializationAssumption | CasScheduleChecked
    | NoProtectedTransition | IdentityReceiptMappingPreserved

  datatype CheckRecord = CheckRecord(mode: Mode, coordinate: int, passed: bool)
  datatype Attempt = Attempt(expected: int, check: Option<CheckRecord>, overlapped: bool)
  datatype Observed = Observed(writer: Writer, outcome: Outcome, index: Field)

  datatype State = State(
    version: int, policy: int, ceiling: int,
    active: map<Writer, Attempt>, finished: set<Writer>, audits: map<Writer, (int, bool)>, receipts: map<string, int>,
    eventBad: set<Reason>, eventUnknown: set<Reason>,
    concurrencyBad: set<Reason>, concurrencyUnknown: set<Reason>, idemBad: set<Reason>,
    results: seq<Observed>, transitions: nat, usedCas: bool, nextIndex: nat)

  // ---------- one step ----------

  function Start(c: Input): State {
    State(c.version, c.policy, c.ceiling, map[], {}, map[], map[], {}, {}, {}, {}, {}, [], 0, false, 0)
  }

  function When(b: bool, r: Reason): set<Reason> {
    if b then {r} else {}
  }

  function MarkOverlapped(active: map<Writer, Attempt>): (r: map<Writer, Attempt>)
    ensures r.Keys == active.Keys
  {
    map w | w in active :: active[w].(overlapped := true)
  }

  function CommitEventReasons(st: State, check: Option<CheckRecord>): set<Reason> {
    if check == None then {EventCheckMissing}
    else if check.value.mode != EventReevaluated then {PeriodicPassNotAuthority}
    else if check.value.coordinate != st.policy then {EventPolicyVersionStale}
    else if !check.value.passed then {PredicateFalse}
    else {}
  }

  function CommitConcurrencyReasons(c: Input, st: State, a: Attempt, cas: bool): set<Reason> {
    if cas then When(a.expected != st.version, CasVersionMismatch)
    else if !c.Declared() then When(a.overlapped, NonatomicConcurrentWrite)
    else When(a.expected != st.version, SerializedStaleWrite)
  }

  /** The attempt of w ends. */
  function Closed(st: State, w: Writer, cas: bool, outcome: Outcome, index: Field): State {
    st.(active := st.active - {w}, finished := st.finished + {w}, usedCas := st.usedCas || cas,
        results := st.results + [Observed(w, outcome, index)])
  }

  /** A transition, followed even when it is unsafe. */
  function Committed(c: Input, st: State, id: string, a: Attempt, cas: bool): State {
    st.(nextIndex := st.nextIndex + 1, version := st.version + 1, transitions := st.transitions + 1,
        eventBad := st.eventBad + CommitEventReasons(st, a.check),
        concurrencyBad := st.concurrencyBad + CommitConcurrencyReasons(c, st, a, cas),
        concurrencyUnknown := st.concurrencyUnknown
          + When(!cas && !c.Declared() && !a.overlapped, NoAtomicOrSerializationEvidence),
        idemBad := st.idemBad + When(c.keyed && id in st.receipts, SecondTransitionSameIdentity),
        receipts := if c.keyed && id !in st.receipts then st.receipts[id := st.nextIndex] else st.receipts)
  }

  function Rejected(st: State, a: Attempt): State {
    st.(eventUnknown := st.eventUnknown
          + When(a.check == None || a.check.value.mode != EventReevaluated, RejectionWithoutEventCheck))
  }

  /** The completion of an attempt, as observed. */
  function Complete(c: Input, st: State, w: Writer, cas: bool, outcome: Outcome, index: Field): Option<State>
    requires w in c.writers
  {
    if w !in st.active then None
    else
      var a, id, s := st.active[w], c.Id(w), Closed(st, w, cas, outcome, index);
      match outcome
      case Replay =>
        if c.keyed && id in s.receipts && Natural(index) then
          Some(s.(idemBad := s.idemBad + When(index.n != s.receipts[id], ReplayReceiptChanged)))
        else None
      case Commit => if Natural(index) && index.n == s.nextIndex then Some(Committed(c, s, id, a, cas)) else None
      case Reject => if index == Absent then Some(Rejected(s, a)) else None
      case UnknownOutcome => None
  }

  /** One step of the schedule; None is a trace that contradicts itself. */
  function Next(c: Input, st: State, step: Step): Option<State> {
    match step
    case Policy(v, ceiling) =>
      if Natural(v) && v.n == st.policy + 1 && Natural(ceiling) then Some(st.(policy := v.n, ceiling := ceiling.n)) else None
    case UnknownOp => None
    case Audit(w) =>
      if w in c.writers && w !in st.active && w !in st.finished
      then Some(st.(audits := st.audits[w := (st.policy, c.writers[w].amount <= st.ceiling)]))
      else None
    case Read(w, expected) =>
      if w in c.writers && w !in st.active && w !in st.finished && Natural(expected) && expected.n == st.version then
        Some(st.(active := MarkOverlapped(st.active)[w := Attempt(st.version, None, st.active != map[])],
                 concurrencyBad := st.concurrencyBad + When(st.active != map[] && c.Declared(), SerializationOverlap)))
      else None
    case Check(w, mode) =>
      if w in c.writers && w in st.active && st.active[w].check == None then
        match mode
        case EventReevaluated => Some(Checked(st, w, CheckRecord(mode, st.policy, c.writers[w].amount <= st.ceiling)))
        case PeriodicPassOnly =>
          if w in st.audits then Some(Checked(st, w, CheckRecord(mode, st.audits[w].0, st.audits[w].1))) else None
        case UnknownMode => None
      else None
    case Finish(w, cas, outcome, index) =>
      if w in c.writers then Complete(c, st, w, cas, outcome, index) else None
  }

  function Checked(st: State, w: Writer, r: CheckRecord): State
    requires w in st.active
  {
    st.(active := st.active[w := st.active[w].(check := Some(r))])
  }

  /** The state after a schedule, if every step is consistent. */
  function Run(c: Input, s: seq<Step>): Option<State> {
    if s == [] then Some(Start(c))
    else
      var before := Run(c, s[..|s| - 1]);
      if before == None then None else Next(c, before.value, s[|s| - 1])
  }

  // ---------- the report ----------

  datatype Status = Satisfied | Violated | CannotEstablish | NotApplicable
  datatype Admission = Admit | Refuse | Undetermined
  datatype Report = Report(event: Status, concurrency: Status, idempotency: Status, admission: Admission,
                           reasons: set<Reason>, transitions: Option<nat>, finalVersion: Option<int>, results: seq<Observed>)

  function Graded(bad: set<Reason>, unknown: set<Reason>): Status {
    if bad != {} then Violated else if unknown != {} then CannotEstablish else Satisfied
  }

  predicate Incomplete(c: Input, st: State) {
    st.active != map[] || st.finished != c.writers.Keys
  }

  const INVALID := Report(CannotEstablish, CannotEstablish, CannotEstablish, Undetermined, {InvalidTrace}, None, None, [])

  function Summary(c: Input, st: State): Report {
    var gap := When(Incomplete(c, st), IncompleteSchedule);
    var eventUnknown, concurrencyUnknown := st.eventUnknown + gap, st.concurrencyUnknown + gap;
    var event := Graded(st.eventBad, eventUnknown);
    var concurrency := Graded(st.concurrencyBad, concurrencyUnknown);
    var idem := if !c.keyed then NotApplicable else Graded(st.idemBad, gap);
    var statuses := {event, concurrency, idem};
    var admission :=
      if Violated in statuses then Refuse
      else if CannotEstablish in statuses then Undetermined
      else if st.transitions > 0 || exists i :: 0 <= i < |st.results| && st.results[i].outcome == Replay then Admit
      else Refuse;
    var reasons := st.eventBad + st.concurrencyBad + st.idemBad + eventUnknown + concurrencyUnknown
      + When(event == Satisfied, EventTimeEstablished)
      + (if concurrency != Satisfied then {}
         else if c.Declared() then {SafeUnderModeledSerializationAssumption}
         else if st.usedCas then {CasScheduleChecked} else {NoProtectedTransition})
      + When(idem == Satisfied, IdentityReceiptMappingPreserved);
    Report(event, concurrency, idem, admission, reasons, Some(st.transitions), Some(st.version), st.results)
  }

  /** A capture reference carries one amount. */
  predicate ConsistentRefs(writers: map<Writer, Request>) {
    forall v, w :: v in writers && w in writers && writers[v].ref == writers[w].ref ==> writers[v].amount == writers[w].amount
  }

  predicate ValidWriters(writers: map<Writer, Request>) {
    && writers != map[]
    && (forall w :: w in writers ==> w != "" && writers[w].ref != "" && writers[w].amount >= 0)
    && ConsistentRefs(writers)
  }

  predicate ValidInput(c: Input) {
    c.version >= 0 && c.policy >= 0 && c.ceiling >= 0 && ValidWriters(c.writers) && c.schedule != []
  }

  function Evaluate(c: Input): Report {
    if !ValidInput(c) then INVALID
    else
      var end := Run(c, c.schedule);
      if end == None then INVALID else Summary(c, end.value)
  }
}
