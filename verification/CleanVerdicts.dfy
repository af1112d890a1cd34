/**
 When a reproduced clean verdict is right about the document it was given for.  One NUL separates id from
 content in a leaf preimage, so a corpus document is also the leaf of every document that joins to its text.
 */
module CleanVerdicts {
  import opened Wrappers
  import opened Bytes
  import opened Inclusion
  import opened ScanCheck

  /** A clean verdict, reproduced by a rerun. */
  predicate IsClean(outcome: Option<(Verdict, Option<Grade>)>) {
    outcome == Some((NoFinding, Some(Reproduced)))
  }

  /** After the NUL at k in the joined text, the pattern occurs. */
  predicate HidesAt(toy: Toy, e: Doc, k: int) {
    0 <= k < |JoinedText(e)| && JoinedText(e)[k] == 0 && Occurs(toy.pattern, toy.lower(JoinedText(e)[k + 1..]))
  }

  /** Some document that joins to the text of e contains the pattern. */
  predicate Hides(toy: Toy, e: Doc) {
    exists k :: 0 <= k < |JoinedText(e)| && HidesAt(toy, e, k)
  }

  /** The document that results from separating the text of e at k. */
  function SplitAt(e: Doc, k: int): Doc
    requires 0 <= k < |JoinedText(e)|
  {
    Doc(JoinedText(e)[..k], JoinedText(e)[k + 1..])
  }

  lemma {:induction false} HidesExactly(toy: Toy, e: Doc)
    ensures Hides(toy, e) <==> exists d :: JoinedText(d) == JoinedText(e) && Finds(toy, d)
  {
    var t := JoinedText(e);
    if k :| 0 <= k < |t| && HidesAt(toy, e, k) {
      var d := SplitAt(e, k);
      assert t == t[..k] + [t[k]] + t[k + 1..];
      assert JoinedText(d) == t && Finds(toy, d);
    }
    if d: Doc :| JoinedText(d) == t && Finds(toy, d) {
      var k := |d.id|;
      assert t[k] == 0 && t[k + 1..] == d.content;
      assert HidesAt(toy, e, k);
    }
  }

  /** Without NULs in their ids, two documents that join to one text are one. */
  lemma {:induction false} NulFreeJoinsOnce(d: Doc, e: Doc)
    requires 0 !in d.id && 0 !in e.id && JoinedText(d) == JoinedText(e)
    ensures d == e
  {
    NulSeparates(d.id, d.content, e.id, e.content);
  }

  // ---------- no hidden pattern, no wrong verdict ----------

  lemma {:induction false} ClearedUnlessHidden(h: Hash, corpus: seq<Doc>, scan: Scan, dec: Decision, toy: Toy,
                                               signatureValid: bool)
    requires IsHash32(h) && CollisionFreeOn(h, VerdictPreimages(h, corpus, dec))
    requires forall e :: e in corpus ==> !Hides(toy, e)
    requires IsClean(SubjectBound(h, corpus, scan, dec, toy, signatureValid))
    ensures |dec.retrieved| == 1 && !Finds(toy, dec.retrieved[0])
  {
    var e := NoFindingClearsTheText(h, corpus, scan, dec, toy, signatureValid);
    HidesExactly(toy, e);
  }

  /**
   A reproduced clean verdict is about the data consumed: without NULs in the ids no retrieved document
   contains the pattern, even when the scan covered only the corpus.
   */
  lemma {:induction false} NoFindingCoversRetrieved(h: Hash, corpus: seq<Doc>, scan: Scan, dec: Decision, toy: Toy,
                                                    signatureValid: bool)
    requires IsHash32(h) && NulFree(corpus) && NulFree(dec.retrieved)
    requires CollisionFreeOn(h, VerdictPreimages(h, corpus, dec))
    requires IsClean(SubjectBound(h, corpus, scan, dec, toy, signatureValid))
    ensures |dec.retrieved| == 1 && !Finds(toy, dec.retrieved[0])
  {
    var e := NoFindingClearsTheText(h, corpus, scan, dec, toy, signatureValid);
    NulFreeJoinsOnce(e, dec.retrieved[0]);
  }

  // ---------- a hidden pattern makes a wrong verdict ----------

  /** The decision that presents the honest proof of leaf i for another document with that leaf. */
  function Disguised(h: Hash, corpus: seq<Doc>, d: Doc, i: nat, digest: Bytes): Decision
    requires i < |corpus|
  {
    var path := AuditPath(Node(h), SortedLeaves(h, corpus), i);
    Decision(1, [d], digest, DocsRoot(h, corpus), [Proof(Leaf(h, d), i, |corpus|, path)])
  }

  function RecordwiseScan(root: Bytes, toy: Toy): Scan {
    Scan(Some("clean"), Some(root), Some("recordwise"), Some(toy.scannerVersion))
  }

  lemma {:induction false} LeafPosition(h: Hash, corpus: seq<Doc>, e: Doc) returns (i: nat)
    requires e in corpus
    ensures i < |corpus| && SortedLeaves(h, corpus)[i] == Leaf(h, e)
  {
    var k :| 0 <= k < |corpus| && corpus[k] == e;
    assert Leaves(h, corpus)[k] == Leaf(h, e);
    SortedLeafIsLeaf(h, corpus, Leaf(h, e));
    i :| 0 <= i < |corpus| && SortedLeaves(h, corpus)[i] == Leaf(h, e);
  }

  lemma {:induction false} UnionOverOne(f: Proof -> set<Bytes>, p: Proof)
    ensures UnionOver(f, [p]) == f(p)
  {
    forall b
      ensures b in UnionOver(f, [p]) <==> b in f(p)
    {
      assert p in [p];
    }
  }

  lemma {:induction false} HonestProofHashes(h: Hash, ls: seq<Bytes>, i: nat, p: Proof)
    requires i < |ls| && p == Proof(ls[i], i, |ls|, AuditPath(Node(h), ls, i))
    ensures VerifierOf(h)(p) <= PairPreimages(TreePairs(Node(h), ls))
  {
    HonestPairs(Node(h), ls, i, p.path, TreePairs(Node(h), ls));
    PreimagesGrow(ClimbPairs(Node(h), p.index, p.treeSize - 1, p.leaf, p.path), TreePairs(Node(h), ls));
  }

  /** It hashes nothing that the corpus tree does not hash. */
  lemma {:induction false} DisguisedHashesNothingNew(h: Hash, corpus: seq<Doc>, d: Doc, e: Doc, i: nat, digest: Bytes)
    requires i < |corpus| && e in corpus && LeafPreimage(d) == LeafPreimage(e) && SortedLeaves(h, corpus)[i] == Leaf(h, d)
    ensures VerdictPreimages(h, corpus, Disguised(h, corpus, d, i, digest)) <= TreePreimages(h, corpus)
  {
    var dec := Disguised(h, corpus, d, i, digest);
    HonestProofHashes(h, SortedLeaves(h, corpus), i, dec.proofs[0]);
    UnionOverOne(VerifierOf(h), dec.proofs[0]);
    assert LeafPreimages(dec.retrieved) <= LeafPreimages(corpus);
  }

  /** The pattern is missed: the verdict is clean and reproduced, and the retrieved document contains it. */
  lemma {:induction false} HiddenPatternIsMissed(h: Hash, corpus: seq<Doc>, e: Doc, d: Doc, digest: Bytes,
                                                 toy: Toy) returns (scan: Scan, dec: Decision)
    requires e in corpus && JoinedText(d) == JoinedText(e) && Finds(toy, d)
    requires (forall c :: c in corpus ==> !Finds(toy, c)) && digest != DocsRoot(h, corpus)
    ensures IsClean(SubjectBound(h, corpus, scan, dec, toy, true))
    ensures dec.retrieved == [d] && dec.effectiveDigest == digest
    ensures VerdictPreimages(h, corpus, dec) <= TreePreimages(h, corpus)
  {
    SamePreimageSameText(d, e);
    var i := LeafPosition(h, corpus, e);
    scan, dec := RecordwiseScan(DocsRoot(h, corpus), toy), Disguised(h, corpus, d, i, digest);
    HonestProofIsGraded(h, corpus, d, i, scan, dec, toy);
    DisguisedHashesNothingNew(h, corpus, d, e, i, digest);
  }

  // ---------- exactly when clean verdicts are right ----------

  /** No reproduced clean verdict over the corpus is given for a document that contains the pattern. */
  ghost predicate CleanVerdictsAreRight(h: Hash, corpus: seq<Doc>, toy: Toy) {
    forall scan, dec, valid ::
      (CollisionFreeOn(h, VerdictPreimages(h, corpus, dec)) && IsClean(SubjectBound(h, corpus, scan, dec, toy, valid))) ==>
      forall d :: d in dec.retrieved ==> !Finds(toy, d)
  }

  /** A verdict over a corpus in which the pattern is found is clean only for a document that was itself scanned. */
  lemma {:induction false} FoundInCorpus(h: Hash, corpus: seq<Doc>, scan: Scan, dec: Decision, toy: Toy, valid: bool)
    requires exists c :: c in corpus && Finds(toy, c)
    requires IsClean(SubjectBound(h, corpus, scan, dec, toy, valid))
    ensures forall d :: d in dec.retrieved ==> !Finds(toy, d)
  {
  }

  lemma {:induction false} RootIsNotEmpty(h: Hash, corpus: seq<Doc>)
    requires IsHash32(h) && corpus != []
    ensures DocsRoot(h, corpus) != []
  {
    SortedLeavesWide(h, corpus);
    RootWide(h, SortedLeaves(h, corpus));
  }

  /**
   Every reproduced clean verdict over a corpus is right exactly when the pattern is found in the corpus
   itself, or no document of the corpus joins to the text of one that contains it.
   */
  lemma {:induction false} CleanVerdictsRightExactly(h: Hash, corpus: seq<Doc>, toy: Toy)
    requires IsHash32(h) && CollisionFreeOn(h, TreePreimages(h, corpus))
    ensures CleanVerdictsAreRight(h, corpus, toy) <==>
            (exists c :: c in corpus && Finds(toy, c)) || (forall e :: e in corpus ==> !Hides(toy, e))
  {
    if exists c :: c in corpus && Finds(toy, c) {
      forall scan, dec, valid | IsClean(SubjectBound(h, corpus, scan, dec, toy, valid))
        ensures forall d :: d in dec.retrieved ==> !Finds(toy, d)
      {
        FoundInCorpus(h, corpus, scan, dec, toy, valid);
      }
    } else if forall e :: e in corpus ==> !Hides(toy, e) {
      forall scan, dec, valid | CollisionFreeOn(h, VerdictPreimages(h, corpus, dec))
          && IsClean(SubjectBound(h, corpus, scan, dec, toy, valid))
        ensures forall d :: d in dec.retrieved ==> !Finds(toy, d)
      {
        ClearedUnlessHidden(h, corpus, scan, dec, toy, valid);
      }
    } else {
      var e :| e in corpus && Hides(toy, e);
      WrongVerdict(h, corpus, e, toy);
    }
  }

  lemma {:induction false} WrongVerdict(h: Hash, corpus: seq<Doc>, e: Doc, toy: Toy)
    requires IsHash32(h) && CollisionFreeOn(h, TreePreimages(h, corpus))
    requires e in corpus && Hides(toy, e) && forall c :: c in corpus ==> !Finds(toy, c)
    ensures !CleanVerdictsAreRight(h, corpus, toy)
  {
    HidesExactly(toy, e);
    var d: Doc :| JoinedText(d) == JoinedText(e) && Finds(toy, d);
    RootIsNotEmpty(h, corpus);
    var scan, dec := HiddenPatternIsMissed(h, corpus, e, d, [], toy);
    assert d in dec.retrieved;
  }

  // ---------- when the digest of the retrieved documents is their own ----------

  ghost predicate HonestDigest(h: Hash, dec: Decision) {
    dec.retrieved != [] ==> dec.effectiveDigest == DocsRoot(h, dec.retrieved)
  }

  /** As above, for decisions that state the digest of what they retrieved. */
  ghost predicate HonestVerdictsAreRight(h: Hash, corpus: seq<Doc>, toy: Toy) {
    forall scan, dec, valid ::
      (HonestDigest(h, dec) && CollisionFreeOn(h, VerdictPreimages(h, corpus, dec))
       && IsClean(SubjectBound(h, corpus, scan, dec, toy, valid))) ==>
      forall d :: d in dec.retrieved ==> !Finds(toy, d)
  }

  lemma {:induction false} RootOfOne(h: Hash, d: Doc)
    ensures DocsRoot(h, [d]) == Leaf(h, d)
  {
    SortedLeafIsLeaf(h, [d], Leaf(h, d));
    assert Leaves(h, [d])[0] == Leaf(h, d);
    var leaf := DocOfLeaf(h, [d], SortedLeaves(h, [d])[0]);
  }

  /** With one document in the corpus, its leaf is the root, and whoever shares the leaf is scanned itself. */
  lemma {:induction false} OneDocumentIsScanned(h: Hash, e: Doc, scan: Scan, dec: Decision, toy: Toy, valid: bool)
    requires IsHash32(h) && HonestDigest(h, dec) && CollisionFreeOn(h, VerdictPreimages(h, [e], dec))
    requires IsClean(SubjectBound(h, [e], scan, dec, toy, valid))
    ensures forall d :: d in dec.retrieved ==> !Finds(toy, d)
  {
    var d := dec.retrieved[0];
    var c := NoFindingClearsTheText(h, [e], scan, dec, toy, valid);
    SamePreimageSameText(c, d);
    RootOfOne(h, d);
    RootOfOne(h, e);
  }

  lemma {:induction false} LeafIsNotRoot(h: Hash, corpus: seq<Doc>, e: Doc)
    requires IsHash32(h) && CollisionFreeOn(h, TreePreimages(h, corpus)) && e in corpus && |corpus| > 1
    ensures Leaf(h, e) != DocsRoot(h, corpus)
  {
    var ls := SortedLeaves(h, corpus);
    RootKind(Node(h), ls);
    var top := TopPair(Node(h), ls);
    assert NodePreimage(top.0, top.1) in PairPreimages(TreePairs(Node(h), ls));
    assert LeafPreimage(e) in LeafPreimages(corpus);
    LeafIsNotNode(h, e, top.0, top.1, TreePreimages(h, corpus));
  }

  lemma {:induction false} WrongHonestVerdict(h: Hash, corpus: seq<Doc>, e: Doc, toy: Toy)
    requires IsHash32(h) && CollisionFreeOn(h, TreePreimages(h, corpus)) && |corpus| > 1
    requires e in corpus && Hides(toy, e) && forall c :: c in corpus ==> !Finds(toy, c)
    ensures !HonestVerdictsAreRight(h, corpus, toy)
  {
    HidesExactly(toy, e);
    var d: Doc :| JoinedText(d) == JoinedText(e) && Finds(toy, d);
    SamePreimageSameText(d, e);
    RootOfOne(h, d);
    LeafIsNotRoot(h, corpus, e);
    var scan, dec := HiddenPatternIsMissed(h, corpus, e, d, DocsRoot(h, [d]), toy);
    assert d in dec.retrieved;
  }

  /** Honest digests save the corpus of one document, and no other. */
  lemma {:induction false} HonestVerdictsRightExactly(h: Hash, corpus: seq<Doc>, toy: Toy)
    requires IsHash32(h) && CollisionFreeOn(h, TreePreimages(h, corpus))
    ensures HonestVerdictsAreRight(h, corpus, toy) <==>
            |corpus| == 1 || (exists c :: c in corpus && Finds(toy, c)) || (forall e :: e in corpus ==> !Hides(toy, e))
  {
    if (exists c :: c in corpus && Finds(toy, c)) || (forall e :: e in corpus ==> !Hides(toy, e)) {
      CleanVerdictsRightExactly(h, corpus, toy);
      assert HonestVerdictsAreRight(h, corpus, toy);
    } else if |corpus| == 1 {
      assert corpus == [corpus[0]];
      forall scan, dec, valid | HonestDigest(h, dec) && CollisionFreeOn(h, VerdictPreimages(h, corpus, dec))
          && IsClean(SubjectBound(h, corpus, scan, dec, toy, valid))
        ensures forall d :: d in dec.retrieved ==> !Finds(toy, d)
      {
        OneDocumentIsScanned(h, corpus[0], scan, dec, toy, valid);
      }
    } else {
      var e :| e in corpus && Hides(toy, e);
      WrongHonestVerdict(h, corpus, e, toy);
    }
  }

  /**
   The smallest such corpus: the bytes of "x" NUL "p" NUL "r" are the leaf preimage of two documents, and
   only the retrieved one has the pattern in its content.
   */
  lemma {:induction false} NulInIdHidesAFinding(h: Hash, hidden: Doc, shown: Doc, other: Doc,
                                                toy: Toy) returns (scan: Scan, dec: Decision)
    requires hidden == Doc(['x' as int, 0, 'p' as int], ['r' as int]) && shown == Doc(['x' as int], ['p' as int, 0, 'r' as int])
    requires toy == Toy(['p' as int], "toy", t => t) && !Occurs(toy.pattern, other.content)
    requires DocsRoot(h, [hidden, other]) != DocsRoot(h, [shown])
    ensures dec.retrieved == [shown] && dec.effectiveDigest == DocsRoot(h, [shown]) && Finds(toy, shown)
    ensures IsClean(SubjectBound(h, [hidden, other], scan, dec, toy, true))
  {
    assert JoinedText(hidden) == JoinedText(shown);
    assert toy.pattern <= shown.content[0..];
    assert !Finds(toy, hidden) by {
      assert forall j :: 0 <= j <= 1 ==> !(toy.pattern <= hidden.content[j..]);
    }
    scan, dec := HiddenPatternIsMissed(h, [hidden, other], hidden, shown, DocsRoot(h, [shown]), toy);
  }
}
