/** The checker as a program: the variables of the step loop, updated in place, step by step. */
module BoundaryChecker {
  import opened Wrappers
  import opened Boundary

  class Checker {
    const input: Input

    var version: int
    var policy: int
    var ceiling: int
    var active: map<Writer, Attempt>
    var finished: set<Writer>
    var audits: map<Writer, (int, bool)>
    var receipts: map<string, int>
    var eventBad: set<Reason>
    var eventUnknown: set<Reason>
    var concurrencyBad: set<Reason>
    var concurrencyUnknown: set<Reason>
    var idemBad: set<Reason>
    var results: seq<Observed>
    var transitions: nat
    var usedCas: bool
    var nextIndex: nat

    constructor (c: Input)
      ensures input == c && Now() == Start(c)
    {
      input := c;
      version, policy, ceiling := c.version, c.policy, c.ceiling;
      active, finished, audits, receipts := map[], {}, map[], map[];
      eventBad, eventUnknown, concurrencyBad, concurrencyUnknown, idemBad := {}, {}, {}, {}, {};
      results, transitions, usedCas, nextIndex := [], 0, false, 0;
    }

    /** The values of the variables. */
    function Now(): State
      reads this
    {
      State(version, policy, ceiling, active, finished, audits, receipts, eventBad, eventUnknown,
            concurrencyBad, concurrencyUnknown, idemBad, results, transitions, usedCas, nextIndex)
    }

    method DoPolicy(v: Field, newCeiling: Field) returns (ok: bool)
      modifies this
      ensures Next(input, old(Now()), Policy(v, newCeiling)) == if ok then Some(Now()) else None
    {
      if !Natural(v) || v.n != policy + 1 || !Natural(newCeiling) {
        return false;
      }
      policy, ceiling := v.n, newCeiling.n;
      return true;
    }

    method DoAudit(w: Writer) returns (ok: bool)
      modifies this
      ensures Next(input, old(Now()), Audit(w)) == if ok then Some(Now()) else None
    {
      if w !in input.writers || w in active || w in finished {
        return false;
      }
      audits := audits[w := (policy, input.writers[w].amount <= ceiling)];
      return true;
    }

    method DoRead(w: Writer, expected: Field) returns (ok: bool)
      modifies this
      ensures Next(input, old(Now()), Read(w, expected)) == if ok then Some(Now()) else None
    {
      if w !in input.writers || w in active || w in finished || !Natural(expected) || expected.n != version {
        return false;
      }
      var overlapped := active != map[];
      assert !overlapped ==> MarkOverlapped(active) == active;
      if overlapped {
        MarkAll();
        if input.Declared() {
          concurrencyBad := concurrencyBad + {SerializationOverlap};
        }
      }
      active := active[w := Attempt(version, None, overlapped)];
      assert concurrencyBad == old(concurrencyBad) + When(overlapped && input.Declared(), SerializationOverlap);
      return true;
    }

    /** Every active attempt has been overlapped. */
    method MarkAll()
      modifies this
      ensures Now() == old(Now()).(active := MarkOverlapped(old(active)))
    {
      var rest := active.Keys;
      while rest != {}
        invariant rest <= active.Keys == old(active).Keys
        invariant Now() == old(Now()).(active := active)
        invariant forall w :: w in active ==>
          active[w] == if w in rest then old(active)[w] else old(active)[w].(overlapped := true)
      {
        var other :| other in rest;
        active := active[other := active[other].(overlapped := true)];
        rest := rest - {other};
      }
      assert active == MarkOverlapped(old(active));
    }

    method DoCheck(w: Writer, mode: Mode) returns (ok: bool)
      modifies this
      ensures Next(input, old(Now()), Check(w, mode)) == if ok then Some(Now()) else None
    {
      if w !in input.writers || w !in active || active[w].check != None {
        return false;
      }
      var coordinate, passed;
      if mode == EventReevaluated {
        coordinate, passed := policy, input.writers[w].amount <= ceiling;
      } else if mode == PeriodicPassOnly && w in audits {
        coordinate, passed := audits[w].0, audits[w].1;
      } else {
        return false;
      }
      active := active[w := active[w].(check := Some(CheckRecord(mode, coordinate, passed)))];
      return true;
    }

    method DoFinish(w: Writer, cas: bool, outcome: Outcome, index: Field) returns (ok: bool)
      modifies this
      ensures Next(input, old(Now()), Finish(w, cas, outcome, index)) == if ok then Some(Now()) else None
    {
      if w !in input.writers || w !in active {
        return false;
      }
      var attempt := active[w];
      Close(w, cas, outcome, index);
      match outcome {
        case Replay => ok := DoReplay(input.Id(w), index);
        case Commit => ok := DoCommit(input.Id(w), attempt, cas, index);
        case Reject => ok := DoReject(attempt, index);
        case UnknownOutcome => ok := false;
      }
    }

    method Close(w: Writer, cas: bool, outcome: Outcome, index: Field)
      modifies this
      ensures Now() == Closed(old(Now()), w, cas, outcome, index)
    {
      active := active - {w};
      finished := finished + {w};
      usedCas := usedCas || cas;
      results := results + [Observed(w, outcome, index)];
    }

    /** Returning a receipt is no new transition. */
    method DoReplay(id: string, index: Field) returns (ok: bool)
      modifies this
      ensures ok <==> input.keyed && id in old(receipts) && Natural(index)
      ensures ok ==> Now() == old(Now()).(idemBad := old(idemBad) + When(index.n != old(receipts)[id], ReplayReceiptChanged))
    {
      if !input.keyed || id !in receipts || !Natural(index) {
        return false;
      }
      if index.n != receipts[id] {
        idemBad := idemBad + {ReplayReceiptChanged};
      }
      assert idemBad == old(idemBad) + When(index.n != receipts[id], ReplayReceiptChanged);
      return true;
    }

    method DoReject(attempt: Attempt, index: Field) returns (ok: bool)
      modifies this
      ensures ok <==> index == Absent
      ensures Now() == Rejected(old(Now()), attempt)
    {
      var unchecked := attempt.check == None || attempt.check.value.mode != EventReevaluated;
      if unchecked {
        eventUnknown := eventUnknown + {RejectionWithoutEventCheck};
      }
      assert eventUnknown == old(eventUnknown) + When(unchecked, RejectionWithoutEventCheck);
      return index == Absent;
    }

    method DoCommit(id: string, attempt: Attempt, cas: bool, index: Field) returns (ok: bool)
      modifies this
      ensures ok <==> Natural(index) && index.n == old(nextIndex)
      ensures ok ==> Now() == Committed(input, old(Now()), id, attempt, cas)
    {
      if !Natural(index) || index.n != nextIndex {
        return false;
      }
      JudgeAuthority(attempt.check);
      JudgeExclusion(attempt, cas);
      RecordReceipt(id);
      nextIndex := nextIndex + 1;
      version := version + 1;
      transitions := transitions + 1;
      return true;
    }

    method RecordReceipt(id: string)
      modifies this`idemBad, this`receipts
      ensures Now() == old(Now()).(
        idemBad := old(idemBad) + When(input.keyed && id in old(receipts), SecondTransitionSameIdentity),
        receipts := if input.keyed && id !in old(receipts) then old(receipts)[id := nextIndex] else old(receipts))
    {
      if input.keyed {
        if id in receipts {
          idemBad := idemBad + {SecondTransitionSameIdentity};
        } else {
          receipts := receipts[id := nextIndex];
        }
      }
      assert idemBad == old(idemBad) + When(input.keyed && id in old(receipts), SecondTransitionSameIdentity);
    }

    method JudgeAuthority(check: Option<CheckRecord>)
      modifies this`eventBad
      ensures Now() == old(Now()).(eventBad := old(eventBad) + CommitEventReasons(old(Now()), check))
    {
      if check == None {
        eventBad := eventBad + {EventCheckMissing};
      } else if check.value.mode != EventReevaluated {
        eventBad := eventBad + {PeriodicPassNotAuthority};
      } else if check.value.coordinate != policy {
        eventBad := eventBad + {EventPolicyVersionStale};
      } else if !check.value.passed {
        eventBad := eventBad + {PredicateFalse};
      }
      assert eventBad == old(eventBad) + CommitEventReasons(old(Now()), check);
    }

    method JudgeExclusion(attempt: Attempt, cas: bool)
      modifies this`concurrencyBad, this`concurrencyUnknown
      ensures Now() == old(Now()).(
        concurrencyBad := old(concurrencyBad) + CommitConcurrencyReasons(input, old(Now()), attempt, cas),
        concurrencyUnknown := old(concurrencyUnknown)
          + When(!cas && !input.Declared() && !attempt.overlapped, NoAtomicOrSerializationEvidence))
    {
      if cas {
        if attempt.expected != version {
          concurrencyBad := concurrencyBad + {CasVersionMismatch};
        }
      } else if !input.Declared() {
        if attempt.overlapped {
          concurrencyBad := concurrencyBad + {NonatomicConcurrentWrite};
        } else {
          concurrencyUnknown := concurrencyUnknown + {NoAtomicOrSerializationEvidence};
        }
      } else if attempt.expected != version {
        concurrencyBad := concurrencyBad + {SerializedStaleWrite};
      }
      assert concurrencyBad == old(concurrencyBad) + CommitConcurrencyReasons(input, old(Now()), attempt, cas);
      assert concurrencyUnknown == old(concurrencyUnknown)
        + When(!cas && !input.Declared() && !attempt.overlapped, NoAtomicOrSerializationEvidence);
    }

    method DoStep(step: Step) returns (ok: bool)
      modifies this
      ensures Next(input, old(Now()), step) == if ok then Some(Now()) else None
    {
      match step {
        case Policy(v, newCeiling) => ok := DoPolicy(v, newCeiling);
        case Audit(w) => ok := DoAudit(w);
        case Read(w, expected) => ok := DoRead(w, expected);
        case Check(w, mode) => ok := DoCheck(w, mode);
        case Finish(w, cas, outcome, index) => ok := DoFinish(w, cas, outcome, index);
        case UnknownOp => ok := false;
      }
    }
  }

  /** The loop over the declared writers, with the amounts seen so far for each capture reference. */
  method CheckWriters(writers: map<Writer, Request>) returns (ok: bool)
    ensures ok <==> ValidWriters(writers)
  {
    if writers == map[] {
      return false;
    }
    var refs: map<string, int> := map[];
    var rest := writers.Keys;
    while rest != {}
      invariant rest <= writers.Keys
      invariant forall w :: w in writers && w !in rest ==>
        && w != "" && writers[w].ref != "" && writers[w].amount >= 0
        && writers[w].ref in refs && refs[writers[w].ref] == writers[w].amount
      invariant forall ref :: ref in refs ==> exists w :: w in writers && w !in rest && writers[w].ref == ref
    {
      var w :| w in rest;
      var request := writers[w];
      if w == "" || request.ref == "" || request.amount < 0 {
        return false;
      }
      if request.ref in refs && refs[request.ref] != request.amount {
        return false;
      }
      refs := refs[request.ref := request.amount];
      rest := rest - {w};
    }
    return true;
  }

  /** The checker's verdict on a supplied trace. */
  method RunChecker(c: Input) returns (report: Report)
    ensures report == Evaluate(c)
  {
    var ok := CheckWriters(c.writers);
    if c.version < 0 || c.policy < 0 || c.ceiling < 0 || !ok || c.schedule == [] {
      return INVALID;
    }
    var checker := new Checker(c);
    for i := 0 to |c.schedule|
      invariant checker.input == c && Run(c, c.schedule[..i]) == Some(checker.Now())
    {
      ok := checker.DoStep(c.schedule[i]);
      assert c.schedule[..i + 1][..i] == c.schedule[..i];
      if !ok {
        InvalidStaysInvalid(c, c.schedule, i + 1);
        return INVALID;
      }
    }
    assert c.schedule[..|c.schedule|] == c.schedule;
    return Summary(c, checker.Now());
  }

  lemma {:induction false} InvalidStaysInvalid(c: Input, s: seq<Step>, k: nat)
    requires k <= |s| && Run(c, s[..k]) == None
    ensures Run(c, s) == None
    decreases |s|
  {
    if k == |s| {
      assert s[..k] == s;
    } else {
      assert s[..|s| - 1][..k] == s[..k];
      InvalidStaysInvalid(c, s[..|s| - 1], k);
    }
  }
}
