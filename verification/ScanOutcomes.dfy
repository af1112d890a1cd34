/** Every outcome of the subject-bound check, over its inputs. */
module ScanOutcomes {
  import opened Wrappers
  import opened Bytes
  import opened Unicode
  import opened Inclusion
  import opened ScanCheck

  /** A signed clean report that names a subject, and a decision that retrieved one document. */
  predicate Reported(scan: Scan, dec: Decision, signatureValid: bool) {
    signatureValid && scan.result == Some("clean") && scan.subject.Some? && dec.k == 1 && |dec.retrieved| == 1
  }

  /** Some proof in the decision takes the leaf of d to the root. */
  ghost predicate HasProof(h: Hash, dec: Decision, d: Doc, root: Bytes) {
    exists p :: p in dec.proofs && p.leaf == Leaf(h, d) && Accepts(Node(h), p.leaf, p.index, p.treeSize, p.path, root)
  }

  /** The report is about the documents: those retrieved, or the corpus that provably holds those retrieved. */
  ghost predicate IsAbout(h: Hash, corpus: seq<Doc>, scan: Scan, dec: Decision, signatureValid: bool, docs: seq<Doc>) {
    && Reported(scan, dec, signatureValid)
    && if scan.subject.value == dec.effectiveDigest then docs == dec.retrieved
       else
         && corpus != [] && scan.subject.value == dec.corpusRoot == DocsRoot(h, corpus)
         && scan.semantics == Some("recordwise")
         && (forall d :: d in dec.retrieved ==> HasProof(h, dec, d, DocsRoot(h, corpus)))
         && docs == corpus
  }

  /** The root of an empty corpus is asked for. */
  predicate AsksForNoRoot(corpus: seq<Doc>, scan: Scan, dec: Decision, signatureValid: bool) {
    Reported(scan, dec, signatureValid) && scan.subject.value != dec.effectiveDigest && corpus == []
  }

  lemma {:induction false} ProvedExactly(h: Hash, dec: Decision, root: Bytes)
    requires |dec.retrieved| == 1
    ensures Consumed(h, dec) != {} && Consumed(h, dec) <= Proved(h, dec, root)
            <==> forall d :: d in dec.retrieved ==> HasProof(h, dec, d, root)
  {
    var d := dec.retrieved[0];
    assert Leaf(h, d) in Consumed(h, dec);
    assert forall x :: x in dec.retrieved ==> x == d;
    assert Leaf(h, d) in Proved(h, dec, root) <==> HasProof(h, dec, d, root);
  }

  /** The lower-cased content has the pattern somewhere between a beginning and an end. */
  ghost predicate Contains(toy: Toy, d: Doc) {
    exists before, after :: toy.lower(d.content) == before + toy.pattern + after
  }

  lemma {:induction false} OccursExactly(pattern: Text, t: Text)
    ensures Occurs(pattern, t) <==> exists before, after :: t == before + pattern + after
  {
    if i :| 0 <= i <= |t| && pattern <= t[i..] {
      var after := t[i..][|pattern|..];
      assert t == t[..i] + pattern + after;
    }
    if before, after :| t == before + pattern + after {
      assert t[|before|..] == pattern + after;
      assert 0 <= |before| <= |t| && pattern <= t[|before|..];
    }
  }

  lemma {:induction false} FindsExactly(toy: Toy, d: Doc)
    ensures Finds(toy, d) <==> Contains(toy, d)
  {
    OccursExactly(toy.pattern, toy.lower(d.content));
  }

  /** A report about documents is reproduced exactly when the scanner versions agree, and then contradicted exactly by a finding. */
  lemma {:induction false} VerdictAbout(h: Hash, corpus: seq<Doc>, scan: Scan, dec: Decision, toy: Toy, valid: bool, docs: seq<Doc>)
    requires IsAbout(h, corpus, scan, dec, valid, docs)
    ensures var outcome := SubjectBound(h, corpus, scan, dec, toy, valid);
      && outcome.Some? && outcome.value.0 in {NoFinding, Contradicted}
      && outcome.value.1 in {Some(Reproduced), Some(AuthenticatedReport)}
      && (outcome.value.1 == Some(Reproduced) <==> scan.scannerVersion == Some(toy.scannerVersion))
      && (outcome.value.0 == Contradicted <==>
            scan.scannerVersion == Some(toy.scannerVersion) && exists d :: d in docs && Contains(toy, d))
  {
    forall d
      ensures Finds(toy, d) <==> Contains(toy, d)
    {
      FindsExactly(toy, d);
    }
    if scan.subject.value != dec.effectiveDigest {
      ProvedExactly(h, dec, DocsRoot(h, corpus));
    }
  }

  /**
   The check reports a finding or none exactly for a report that is about some documents; it calls a signed
   report invalid exactly when its result is not clean; it has no value exactly where it asks for the root of
   an empty corpus; and otherwise it cannot establish anything.
   */
  lemma {:induction false} OutcomesExactly(h: Hash, corpus: seq<Doc>, scan: Scan, dec: Decision, toy: Toy, valid: bool)
    ensures var outcome := SubjectBound(h, corpus, scan, dec, toy, valid);
      var about := exists docs :: IsAbout(h, corpus, scan, dec, valid, docs);
      && (outcome == None <==> AsksForNoRoot(corpus, scan, dec, valid))
      && (outcome.Some? && outcome.value.0 in {NoFinding, Contradicted} <==> about)
      && (outcome == Some((NotValid, None)) <==> valid && scan.result != Some("clean"))
      && (outcome == Some((CannotEstablish, None)) <==>
            !about && !AsksForNoRoot(corpus, scan, dec, valid) && (valid ==> scan.result == Some("clean")))
  {
    if docs :| IsAbout(h, corpus, scan, dec, valid, docs) {
      VerdictAbout(h, corpus, scan, dec, toy, valid, docs);
    } else if Reported(scan, dec, valid) {
      assert !IsAbout(h, corpus, scan, dec, valid, dec.retrieved);
      assert !IsAbout(h, corpus, scan, dec, valid, corpus);
      if corpus != [] {
        ProvedExactly(h, dec, DocsRoot(h, corpus));
      }
    }
  }
}
