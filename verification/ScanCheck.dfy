/**
 Scan-subject binding: what a clean poisoning scan establishes about the documents a decision
 consumed.  Digests are modelled by the bytes they spell; a signature check is a given boolean.
 */
module ScanCheck {
  import opened Wrappers
  import opened Bytes
  import opened Unicode
  import opened Sorting
  import opened TreeHash
  import opened Inclusion

  datatype Doc = Doc(id: Text, content: Text)

  function LeafPreimage(d: Doc): Bytes {
    [0] + Utf8(d.id) + [0] + Utf8(d.content)
  }

  function NodePreimage(left: Bytes, right: Bytes): Bytes {
    [1] + left + right
  }

  function Leaf(h: Hash, d: Doc): Bytes {
    h(LeafPreimage(d))
  }

  function Node(h: Hash): NodeHash<Bytes> {
    (left, right) => h(NodePreimage(left, right))
  }

  function Leaves(h: Hash, docs: seq<Doc>): (r: seq<Bytes>)
    ensures |r| == |docs|
    ensures forall i :: 0 <= i < |docs| ==> r[i] == Leaf(h, docs[i])
  {
    seq(|docs|, i requires 0 <= i < |docs| => Leaf(h, docs[i]))
  }

  function BytesLe(): Order<Bytes> {
    (a, b) => LexLe(a, b)
  }

  function SortedLeaves(h: Hash, docs: seq<Doc>): (r: seq<Bytes>)
    ensures |r| == |docs|
  {
    Sort(BytesLe(), Leaves(h, docs))
  }

  /** The Merkle root of the documents in leaf order; the tree hash of no leaves is not defined. */
  function DocsRoot(h: Hash, docs: seq<Doc>): Bytes
    requires docs != []
  {
    Root(Node(h), SortedLeaves(h, docs))
  }

  /** The roots of one document and of two, whose leaf hashes first differ at byte i, written out. */
  lemma {:induction false} RootsWrittenOut(h: Hash, d: Doc, e: Doc, i: nat)
    requires var x, y := Leaf(h, d), Leaf(h, e); i < |x| && i < |y| && x[..i] == y[..i] && x[i] < y[i]
    ensures DocsRoot(h, [d]) == h([0x00] + Utf8(d.id) + [0x00] + Utf8(d.content))
    ensures DocsRoot(h, [d, e]) == DocsRoot(h, [e, d]) == h([0x01] + DocsRoot(h, [d]) + DocsRoot(h, [e]))
  {
    var x, y := Leaf(h, d), Leaf(h, e);
    LexByFirstDifference(x, y, i);
    assert Leaves(h, [d]) == [x] && Leaves(h, [e]) == [y] && Leaves(h, [d, e]) == [x, y] && Leaves(h, [e, d]) == [y, x];
    SortTwo(BytesLe(), x, y);
    assert Sort(BytesLe(), [y]) == [y] by {
      SortOfSorted(BytesLe(), [y]);
    }
    SmallRoots(Node(h), x, y, y);
    SmallRoots(Node(h), y, x, x);
    assert NodePreimage(x, y) == [0x01] + x + y;
    assert Root(Node(h), [x, y]) == Node(h)(x, y) == h(NodePreimage(x, y));
    assert DocsRoot(h, [d]) == x && DocsRoot(h, [e]) == y;
    assert DocsRoot(h, [d, e]) == Root(Node(h), [x, y]);
  }

  // ---------- the subject-bound verdict ----------

  datatype Scan = Scan(result: Option<string>, subject: Option<Bytes>, semantics: Option<string>, scannerVersion: Option<string>)
  datatype Proof = Proof(leaf: Bytes, index: int, treeSize: int, path: seq<Bytes>)
  datatype Decision = Decision(k: int, retrieved: seq<Doc>, effectiveDigest: Bytes, corpusRoot: Bytes, proofs: seq<Proof>)
  datatype Toy = Toy(pattern: Text, scannerVersion: string, lower: Text -> Text)
  datatype Verdict = NoFinding | CannotEstablish | Contradicted | NotValid
  datatype Grade = AuthenticatedReport | Reproduced

  predicate Occurs(pattern: Text, t: Text) {
    exists i :: 0 <= i <= |t| && pattern <= t[i..]
  }

  predicate Finds(toy: Toy, d: Doc) {
    Occurs(toy.pattern, toy.lower(d.content))
  }

  function Consumed(h: Hash, dec: Decision): set<Bytes> {
    set d | d in dec.retrieved :: Leaf(h, d)
  }

  function Proved(h: Hash, dec: Decision, root: Bytes): set<Bytes> {
    set p | p in dec.proofs && Accepts(Node(h), p.leaf, p.index, p.treeSize, p.path, root) :: p.leaf
  }

  function Rerun(toy: Toy, scan: Scan, docs: seq<Doc>): (Verdict, Option<Grade>) {
    if scan.scannerVersion == Some(toy.scannerVersion) then
      (if exists d :: d in docs && Finds(toy, d) then Contradicted else NoFinding, Some(Reproduced))
    else (NoFinding, Some(AuthenticatedReport))
  }

  /** The verdict and its grade; None where the root of an empty corpus is asked for, which does not exist. */
  function SubjectBound(h: Hash, corpus: seq<Doc>, scan: Scan, dec: Decision, toy: Toy,
                        signatureValid: bool): Option<(Verdict, Option<Grade>)> {
    if !signatureValid then Some((CannotEstablish, None))
    else if scan.result != Some("clean") then Some((NotValid, None))
    else if scan.subject == None then Some((CannotEstablish, None))
    else if dec.k != 1 || |dec.retrieved| != 1 then Some((CannotEstablish, None))
    else if scan.subject.value == dec.effectiveDigest then Some(Rerun(toy, scan, dec.retrieved))
    else if corpus == [] then None
    else if scan.subject.value == DocsRoot(h, corpus) == dec.corpusRoot then
      if scan.semantics != Some("recordwise") then Some((CannotEstablish, None))
      else if Consumed(h, dec) != {} && Consumed(h, dec) <= Proved(h, dec, scan.subject.value) then Some(Rerun(toy, scan, corpus))
      else Some((CannotEstablish, None))
    else Some((CannotEstablish, None))
  }

  // ---------- the byte strings hashed ----------

  ghost function PairPreimages(pairs: set<(Bytes, Bytes)>): set<Bytes> {
    set p | p in pairs :: NodePreimage(p.0, p.1)
  }

  lemma {:induction false} PreimagesGrow(a: set<(Bytes, Bytes)>, b: set<(Bytes, Bytes)>)
    requires a <= b
    ensures PairPreimages(a) <= PairPreimages(b)
  {
  }

  ghost function LeafPreimages(docs: seq<Doc>): set<Bytes> {
    set d | d in docs :: LeafPreimage(d)
  }

  ghost function VerifierPreimages(h: Hash, p: Proof): set<Bytes> {
    PairPreimages(ClimbPairs(Node(h), p.index, p.treeSize - 1, p.leaf, p.path))
  }

  ghost function VerifierOf(h: Hash): Proof -> set<Bytes> {
    p => VerifierPreimages(h, p)
  }

  ghost function TreePreimages(h: Hash, docs: seq<Doc>): set<Bytes> {
    LeafPreimages(docs) + if docs == [] then {} else PairPreimages(TreePairs(Node(h), SortedLeaves(h, docs)))
  }

  // ---------- digests are 32 bytes wide ----------

  ghost predicate Wide(ls: seq<Bytes>) {
    forall i :: 0 <= i < |ls| ==> |ls[i]| == 32
  }

  lemma {:induction false} NodeWide(h: Hash, a: Bytes, b: Bytes)
    requires IsHash32(h)
    ensures |Node(h)(a, b)| == 32
  {
    assert |h(NodePreimage(a, b))| == 32;
  }

  lemma {:induction false} RootWide(h: Hash, ls: seq<Bytes>)
    requires IsHash32(h) && |ls| > 0 && Wide(ls)
    ensures |Root(Node(h), ls)| == 32
  {
    if |ls| > 1 {
      var k := SplitPoint(|ls|);
      NodeWide(h, Root(Node(h), ls[..k]), Root(Node(h), ls[k..]));
    }
  }

  lemma {:induction false} TreePairsWide(h: Hash, ls: seq<Bytes>, t: (Bytes, Bytes))
    requires IsHash32(h) && |ls| > 0 && Wide(ls) && t in TreePairs(Node(h), ls)
    ensures |t.0| == 32 && |t.1| == 32
    decreases |ls|
  {
    var k := SplitPoint(|ls|);
    RootWide(h, ls[..k]);
    RootWide(h, ls[k..]);
    if t in TreePairs(Node(h), ls[..k]) {
      TreePairsWide(h, ls[..k], t);
    } else if t in TreePairs(Node(h), ls[k..]) {
      TreePairsWide(h, ls[k..], t);
    }
  }

  lemma {:induction false} ClimbPairsWide(h: Hash, fn: int, sn: int, r: Bytes, path: seq<Bytes>, c: (Bytes, Bytes))
    requires IsHash32(h) && |r| == 32 && c in ClimbPairs(Node(h), fn, sn, r, path)
    ensures |c.0| == 32 || |c.1| == 32
    decreases |path|, if fn < 0 then -fn else fn
  {
    if fn % 2 == 1 {
      NodeWide(h, path[0], r);
      if c != (path[0], r) {
        ClimbPairsWide(h, Shift(fn), Shift(sn), Node(h)(path[0], r), path[1..], c);
      }
    } else if fn != sn {
      NodeWide(h, r, path[0]);
      if c != (r, path[0]) {
        ClimbPairsWide(h, Shift(fn), Shift(sn), Node(h)(r, path[0]), path[1..], c);
      }
    } else {
      ClimbPairsWide(h, Shift(fn), Shift(sn), r, path, c);
    }
  }

  /** With one half 32 bytes wide, the concatenation tells the halves of a tree pair apart. */
  lemma {:induction false} NodePreimageSplits(a: Bytes, b: Bytes, c: Bytes, d: Bytes)
    requires |a| == 32 && |b| == 32 && (|c| == 32 || |d| == 32)
    requires NodePreimage(a, b) == NodePreimage(c, d)
    ensures a == c && b == d
  {
    var x, y := NodePreimage(a, b), NodePreimage(c, d);
    assert |x| == |y| && |c| == 32;
    assert x[1..33] == a && y[1..33] == c && x[33..] == b && y[33..] == d;
  }

  lemma {:induction false} BindingWithin(h: Hash, ls: seq<Bytes>, fn: int, sn: int, r: Bytes, path: seq<Bytes>,
                                         tree: set<(Bytes, Bytes)>, climb: set<(Bytes, Bytes)>, s: set<Bytes>)
    requires IsHash32(h) && |ls| > 0 && Wide(ls) && |r| == 32 && CollisionFreeOn(h, s)
    requires TreePairs(Node(h), ls) <= tree && ClimbPairs(Node(h), fn, sn, r, path) <= climb
    requires PairPreimages(tree) <= s && PairPreimages(climb) <= s
    ensures Binding(Node(h), TreePairs(Node(h), ls), ClimbPairs(Node(h), fn, sn, r, path))
  {
    forall t, c | t in TreePairs(Node(h), ls) && c in ClimbPairs(Node(h), fn, sn, r, path) && Node(h)(t.0, t.1) == Node(h)(c.0, c.1)
      ensures t == c
    {
      TreePairsWide(h, ls, t);
      ClimbPairsWide(h, fn, sn, r, path, c);
      assert NodePreimage(t.0, t.1) in PairPreimages(tree) && NodePreimage(c.0, c.1) in PairPreimages(climb);
      assert ToldApart(h, NodePreimage(t.0, t.1), NodePreimage(c.0, c.1));
      NodePreimageSplits(t.0, t.1, c.0, c.1);
    }
  }

  lemma {:induction false} BindingFromCollisionFreedom(h: Hash, ls: seq<Bytes>, fn: int, sn: int, r: Bytes,
                                                       path: seq<Bytes>, s: set<Bytes>)
    requires IsHash32(h) && |ls| > 0 && Wide(ls) && |r| == 32 && CollisionFreeOn(h, s)
    requires PairPreimages(TreePairs(Node(h), ls)) <= s && PairPreimages(ClimbPairs(Node(h), fn, sn, r, path)) <= s
    ensures Binding(Node(h), TreePairs(Node(h), ls), ClimbPairs(Node(h), fn, sn, r, path))
  {
    BindingWithin(h, ls, fn, sn, r, path, TreePairs(Node(h), ls), ClimbPairs(Node(h), fn, sn, r, path), s);
  }

  /**
   The shifting loop is exact for the recursive tree hash: for a 32-byte leaf hash it accepts the
   i-th leaf with its audit path, and nothing else, unless two byte strings that the tree and the
   verifier hash collide.
   */
  lemma {:induction false} InclusionOfHashes(h: Hash, ls: seq<Bytes>, i: nat, lf: Bytes, path: seq<Bytes>)
    requires IsHash32(h) && i < |ls| && Wide(ls) && |lf| == 32
    requires CollisionFreeOn(h, PairPreimages(TreePairs(Node(h), ls)) + PairPreimages(ClimbPairs(Node(h), i, |ls| - 1, lf, path)))
    ensures Accepts(Node(h), lf, i, |ls|, path, Root(Node(h), ls)) <==> lf == ls[i] && path == AuditPath(Node(h), ls, i)
  {
    BindingFromCollisionFreedom(h, ls, i, |ls| - 1, lf, path,
      PairPreimages(TreePairs(Node(h), ls)) + PairPreimages(ClimbPairs(Node(h), i, |ls| - 1, lf, path)));
    AcceptsExactly(Node(h), ls, i, lf, path);
  }

  // ---------- domain separation ----------

  ghost predicate NulFree(docs: seq<Doc>) {
    forall i :: 0 <= i < |docs| ==> 0 !in docs[i].id
  }

  lemma {:induction false} LeafPreimageText(d: Doc)
    ensures LeafPreimage(d) == [0] + Utf8(d.id + [0] + d.content)
  {
    var nul: Text := [0];
    Utf8Concat(d.id + nul, d.content);
    Utf8Concat(d.id, nul);
    assert Utf8(nul) == [0] by {
      assert nul[1..] == [];
      assert Utf8(nul) == Utf8Of(0) + Utf8(nul[1..]);
    }
    calc {
      Utf8(d.id + nul + d.content);
      Utf8(d.id) + [0] + Utf8(d.content);
    }
  }

  lemma {:induction false} NulSeparates(a: Text, b: Text, c: Text, d: Text)
    requires 0 !in a && 0 !in c && a + [0] + b == c + [0] + d
    ensures a == c && b == d
  {
    var x, y := a + [0] + b, c + [0] + d;
    assert x[|a|] == 0 && y[|c|] == 0;
    assert forall i :: 0 <= i < |a| ==> x[i] == a[i];
    assert forall i :: 0 <= i < |c| ==> y[i] == c[i];
    assert x[..|a|] == a && y[..|c|] == c;
    assert x[|a| + 1..] == b && y[|c| + 1..] == d;
  }

  /** A leaf preimage determines the document, if no id holds a NUL. */
  lemma {:induction false} LeafPreimageInjective(a: Doc, b: Doc)
    requires 0 !in a.id && 0 !in b.id && LeafPreimage(a) == LeafPreimage(b)
    ensures a == b
  {
    LeafPreimageText(a);
    LeafPreimageText(b);
    var x, y := a.id + [0] + a.content, b.id + [0] + b.content;
    assert Utf8(x) == LeafPreimage(a)[1..] && Utf8(y) == LeafPreimage(b)[1..];
    Utf8Injective(x, y);
    NulSeparates(a.id, a.content, b.id, b.content);
  }

  lemma {:induction false} SortedLeafIsLeaf(h: Hash, docs: seq<Doc>, v: Bytes)
    ensures v in SortedLeaves(h, docs) <==> v in Leaves(h, docs)
  {
    var leaves, sorted := Leaves(h, docs), SortedLeaves(h, docs);
    SortKeepsElements(BytesLe(), leaves);
    assert v in sorted <==> v in multiset(sorted);
    assert v in leaves <==> v in multiset(leaves);
  }

  lemma {:induction false} DocOfLeaf(h: Hash, docs: seq<Doc>, v: Bytes) returns (d: Doc)
    requires v in SortedLeaves(h, docs)
    ensures d in docs && v == Leaf(h, d)
  {
    SortedLeafIsLeaf(h, docs, v);
    var i :| 0 <= i < |docs| && Leaves(h, docs)[i] == v;
    d := docs[i];
  }

  lemma {:induction false} SortedLeavesWide(h: Hash, docs: seq<Doc>)
    requires IsHash32(h)
    ensures Wide(SortedLeaves(h, docs))
  {
    var sorted := SortedLeaves(h, docs);
    forall i | 0 <= i < |sorted|
      ensures |sorted[i]| == 32
    {
      var d := DocOfLeaf(h, docs, sorted[i]);
    }
  }

  /** The first byte keeps leaves and inner nodes apart. */
  lemma {:induction false} LeafIsNotNode(h: Hash, d: Doc, left: Bytes, right: Bytes, s: set<Bytes>)
    requires CollisionFreeOn(h, s) && LeafPreimage(d) in s && NodePreimage(left, right) in s
    ensures Leaf(h, d) != Node(h)(left, right)
  {
    assert LeafPreimage(d)[0] != NodePreimage(left, right)[0];
    assert ToldApart(h, LeafPreimage(d), NodePreimage(left, right));
  }

  lemma {:induction false} LeavesAvoided(h: Hash, docs: seq<Doc>, pairs: set<(Bytes, Bytes)>, s: set<Bytes>)
    requires CollisionFreeOn(h, s) && LeafPreimages(docs) <= s && PairPreimages(pairs) <= s
    ensures AvoidsLeaves(Node(h), SortedLeaves(h, docs), pairs)
  {
    forall c, v | c in pairs && v in SortedLeaves(h, docs)
      ensures Node(h)(c.0, c.1) != v
    {
      var d := DocOfLeaf(h, docs, v);
      assert NodePreimage(c.0, c.1) in PairPreimages(pairs) && LeafPreimage(d) in LeafPreimages(docs);
      LeafIsNotNode(h, d, c.0, c.1, s);
    }
  }

  /** A document whose leaf is a node of the corpus tree has the leaf preimage of a document of the corpus. */
  lemma {:induction false} DocInTreeSharesPreimage(h: Hash, corpus: seq<Doc>, d: Doc, s: set<Bytes>) returns (e: Doc)
    requires corpus != [] && Leaf(h, d) in TreeNodes(Node(h), SortedLeaves(h, corpus))
    requires CollisionFreeOn(h, s) && TreePreimages(h, corpus) <= s && LeafPreimage(d) in s
    ensures e in corpus && LeafPreimage(e) == LeafPreimage(d)
  {
    var ls := SortedLeaves(h, corpus);
    TreeNodeKinds(Node(h), ls, Leaf(h, d));
    forall t | t in TreePairs(Node(h), ls)
      ensures Leaf(h, d) != Node(h)(t.0, t.1)
    {
      assert NodePreimage(t.0, t.1) in PairPreimages(TreePairs(Node(h), ls));
      LeafIsNotNode(h, d, t.0, t.1, s);
    }
    e := DocOfLeaf(h, corpus, Leaf(h, d));
    assert LeafPreimage(e) in LeafPreimages(corpus);
    assert ToldApart(h, LeafPreimage(d), LeafPreimage(e));
  }

  /**
   An accepted proof shows that the corpus holds a document with this leaf preimage, whatever index and
   tree size the proof states, although the verifier takes both from the proof.
   */
  lemma {:induction false} AcceptedDocSharesPreimage(h: Hash, corpus: seq<Doc>, d: Doc, index: int, treeSize: int,
                                                     leaf: Bytes, path: seq<Bytes>, s: set<Bytes>) returns (e: Doc)
    requires IsHash32(h) && corpus != [] && leaf == Leaf(h, d)
    requires Accepts(Node(h), leaf, index, treeSize, path, DocsRoot(h, corpus))
    requires CollisionFreeOn(h, s) && TreePreimages(h, corpus) <= s && LeafPreimage(d) in s
    requires VerifierOf(h)(Proof(leaf, index, treeSize, path)) <= s
    ensures e in corpus && LeafPreimage(e) == LeafPreimage(d)
  {
    AcceptedLeafInTree(h, corpus, Proof(leaf, index, treeSize, path), s);
    e := DocInTreeSharesPreimage(h, corpus, d, s);
  }

  lemma {:induction false} AcceptedLeafInTree(h: Hash, corpus: seq<Doc>, p: Proof, s: set<Bytes>)
    requires IsHash32(h) && corpus != [] && |p.leaf| == 32
    requires Accepts(Node(h), p.leaf, p.index, p.treeSize, p.path, DocsRoot(h, corpus))
    requires CollisionFreeOn(h, s) && TreePreimages(h, corpus) <= s && VerifierOf(h)(p) <= s
    ensures p.leaf in TreeNodes(Node(h), SortedLeaves(h, corpus))
  {
    var climb := ClimbPairs(Node(h), p.index, p.treeSize - 1, p.leaf, p.path);
    VerifierHashes(h, p, climb);
    AcceptedClimbs(Node(h), p.leaf, p.index, p.treeSize, p.path, DocsRoot(h, corpus));
    LeafClimbsInTree(h, corpus, p.index, p.treeSize - 1, p.leaf, p.path, climb, s);
  }

  lemma {:induction false} VerifierHashes(h: Hash, p: Proof, climb: set<(Bytes, Bytes)>)
    requires climb == ClimbPairs(Node(h), p.index, p.treeSize - 1, p.leaf, p.path)
    ensures VerifierOf(h)(p) == PairPreimages(climb)
  {
  }

  lemma {:induction false} LeafClimbsInTree(h: Hash, corpus: seq<Doc>, fn: int, sn: int, r: Bytes, path: seq<Bytes>,
                                            climb: set<(Bytes, Bytes)>, s: set<Bytes>)
    requires IsHash32(h) && corpus != [] && |r| == 32
    requires Climb(Node(h), fn, sn, r, path) == Some(DocsRoot(h, corpus))
    requires CollisionFreeOn(h, s) && TreePreimages(h, corpus) <= s
    requires climb == ClimbPairs(Node(h), fn, sn, r, path) && PairPreimages(climb) <= s
    ensures r in TreeNodes(Node(h), SortedLeaves(h, corpus))
  {
    var ls := SortedLeaves(h, corpus);
    assert Binding(Node(h), TreePairs(Node(h), ls), climb) by {
      SortedLeavesWide(h, corpus);
      BindingWithin(h, ls, fn, sn, r, path, TreePairs(Node(h), ls), climb, s);
    }
    LeavesAvoided(h, corpus, climb, s);
    RootInTreeNodes(Node(h), ls);
    ClimbStartsInTree(Node(h), ls, fn, sn, r, path, climb);
  }

  // ---------- what the verdicts mean ----------

  ghost function UnionOver(f: Proof -> set<Bytes>, ps: seq<Proof>): set<Bytes> {
    set p, b | p in ps && b in f(p) :: b
  }

  lemma {:induction false} InUnion(f: Proof -> set<Bytes>, ps: seq<Proof>, p: Proof)
    requires p in ps
    ensures f(p) <= UnionOver(f, ps)
  {
  }

  /** Every byte string that the verdict's computation hashes. */
  ghost function VerdictPreimages(h: Hash, corpus: seq<Doc>, dec: Decision): set<Bytes> {
    TreePreimages(h, corpus) + LeafPreimages(dec.retrieved) + UnionOver(VerifierOf(h), dec.proofs)
  }

  lemma {:induction false} ProofOf(h: Hash, dec: Decision, leaf: Bytes, root: Bytes) returns (p: Proof)
    requires leaf in Proved(h, dec, root)
    ensures p in dec.proofs && p.leaf == leaf && Accepts(Node(h), p.leaf, p.index, p.treeSize, p.path, root)
  {
    p :| p in dec.proofs && p.leaf == leaf && Accepts(Node(h), p.leaf, p.index, p.treeSize, p.path, root);
  }

  lemma {:induction false} ProvedDocSharesPreimage(h: Hash, corpus: seq<Doc>, dec: Decision, d: Doc) returns (e: Doc)
    requires IsHash32(h) && corpus != [] && CollisionFreeOn(h, VerdictPreimages(h, corpus, dec))
    requires d in dec.retrieved && Leaf(h, d) in Proved(h, dec, DocsRoot(h, corpus))
    ensures e in corpus && LeafPreimage(e) == LeafPreimage(d)
  {
    var s := VerdictPreimages(h, corpus, dec);
    var p := ProofOf(h, dec, Leaf(h, d), DocsRoot(h, corpus));
    InUnion(VerifierOf(h), dec.proofs, p);
    assert p == Proof(p.leaf, p.index, p.treeSize, p.path);
    assert LeafPreimage(d) in s && TreePreimages(h, corpus) <= s by {
      assert LeafPreimage(d) in LeafPreimages(dec.retrieved);
    }
    e := AcceptedDocSharesPreimage(h, corpus, d, p.index, p.treeSize, p.leaf, p.path, s);
  }

  /** One string separates id from content, so two documents may join to one text. */
  function JoinedText(d: Doc): Text {
    d.id + [0] + d.content
  }

  lemma {:induction false} SamePreimageSameText(a: Doc, b: Doc)
    ensures LeafPreimage(a) == LeafPreimage(b) <==> JoinedText(a) == JoinedText(b)
  {
    LeafPreimageText(a);
    LeafPreimageText(b);
    if LeafPreimage(a) == LeafPreimage(b) {
      assert Utf8(JoinedText(a)) == LeafPreimage(a)[1..] && Utf8(JoinedText(b)) == LeafPreimage(b)[1..];
      Utf8Injective(JoinedText(a), JoinedText(b));
    }
  }

  /**
   For every input: behind a reproduced clean verdict stands a document without the pattern that joins to
   the same text as the one retrieved, and it is in the corpus or is the one retrieved.
   */
  lemma {:induction false} NoFindingClearsTheText(h: Hash, corpus: seq<Doc>, scan: Scan, dec: Decision, toy: Toy,
                                                  signatureValid: bool) returns (e: Doc)
    requires IsHash32(h) && CollisionFreeOn(h, VerdictPreimages(h, corpus, dec))
    requires SubjectBound(h, corpus, scan, dec, toy, signatureValid) == Some((NoFinding, Some(Reproduced)))
    ensures |dec.retrieved| == 1 && JoinedText(e) == JoinedText(dec.retrieved[0]) && !Finds(toy, e)
    ensures e in corpus || e == dec.retrieved[0]
  {
    var d := dec.retrieved[0];
    e := d;
    if scan.subject.value != dec.effectiveDigest {
      assert Leaf(h, d) in Consumed(h, dec);
      e := ProvedDocSharesPreimage(h, corpus, dec, d);
      SamePreimageSameText(d, e);
    }
  }

  /** An honest proof is honoured: the audit path of the document's leaf leads to the rerun over the corpus. */
  lemma {:induction false} HonestProofIsGraded(h: Hash, corpus: seq<Doc>, d: Doc, i: nat, scan: Scan, dec: Decision,
                                               toy: Toy)
    requires corpus != [] && i < |corpus| && SortedLeaves(h, corpus)[i] == Leaf(h, d)
    requires scan.result == Some("clean") && scan.semantics == Some("recordwise")
    requires scan.subject == Some(DocsRoot(h, corpus)) && dec.corpusRoot == DocsRoot(h, corpus) != dec.effectiveDigest
    requires dec.k == 1 && dec.retrieved == [d]
    requires Proof(Leaf(h, d), i, |corpus|, AuditPath(Node(h), SortedLeaves(h, corpus), i)) in dec.proofs
    ensures SubjectBound(h, corpus, scan, dec, toy, true) == Some(Rerun(toy, scan, corpus))
  {
    AuditPathAccepted(Node(h), SortedLeaves(h, corpus), i);
    GradedByProof(h, corpus, d, Proof(Leaf(h, d), i, |corpus|, AuditPath(Node(h), SortedLeaves(h, corpus), i)), scan, dec, toy);
  }

  lemma {:induction false} GradedByProof(h: Hash, corpus: seq<Doc>, d: Doc, p: Proof, scan: Scan, dec: Decision, toy: Toy)
    requires corpus != [] && scan.result == Some("clean") && scan.semantics == Some("recordwise")
    requires scan.subject == Some(DocsRoot(h, corpus)) && dec.corpusRoot == DocsRoot(h, corpus) != dec.effectiveDigest
    requires dec.k == 1 && dec.retrieved == [d] && p in dec.proofs && p.leaf == Leaf(h, d)
    requires Accepts(Node(h), p.leaf, p.index, p.treeSize, p.path, DocsRoot(h, corpus))
    ensures SubjectBound(h, corpus, scan, dec, toy, true) == Some(Rerun(toy, scan, corpus))
  {
    var root := DocsRoot(h, corpus);
    assert p.leaf in Proved(h, dec, root);
    assert Consumed(h, dec) == {p.leaf};
  }

  // ---------- what a corpus root commits to ----------

  function TextsOf(docs: seq<Doc>): seq<Text> {
    Map(JoinedText, docs)
  }

  /** The leaf of a document is a function of its joined text. */
  function LeafOfText(h: Hash): Text -> Bytes {
    t => h([0] + Utf8(t))
  }

  lemma {:induction false} LeavesOfTexts(h: Hash, docs: seq<Doc>)
    ensures Leaves(h, docs) == Map(LeafOfText(h), TextsOf(docs))
  {
    forall i | 0 <= i < |docs|
      ensures Leaf(h, docs[i]) == LeafOfText(h)(JoinedText(docs[i]))
    {
      LeafPreimageText(docs[i]);
    }
  }

  lemma {:induction false} TextHashed(h: Hash, docs: seq<Doc>, t: Text)
    requires t in TextsOf(docs)
    ensures [0] + Utf8(t) in LeafPreimages(docs)
  {
    var i :| 0 <= i < |docs| && JoinedText(docs[i]) == t;
    LeafPreimageText(docs[i]);
    assert LeafPreimage(docs[i]) in LeafPreimages(docs);
  }

  lemma {:induction false} LeavesTellTextsApart(h: Hash, a: seq<Doc>, b: seq<Doc>, s: set<Bytes>)
    requires CollisionFreeOn(h, s) && LeafPreimages(a) <= s && LeafPreimages(b) <= s
    ensures InjectiveOn(LeafOfText(h), TextsOf(a), TextsOf(b))
  {
    forall t, u | (t in TextsOf(a) || t in TextsOf(b)) && (u in TextsOf(a) || u in TextsOf(b)) && LeafOfText(h)(t) == LeafOfText(h)(u)
      ensures t == u
    {
      if t in TextsOf(a) { TextHashed(h, a, t); } else { TextHashed(h, b, t); }
      if u in TextsOf(a) { TextHashed(h, a, u); } else { TextHashed(h, b, u); }
      assert ToldApart(h, [0] + Utf8(t), [0] + Utf8(u));
      assert ([0] + Utf8(t))[1..] == Utf8(t) && ([0] + Utf8(u))[1..] == Utf8(u);
      Utf8Injective(t, u);
    }
  }

  lemma {:induction false} BytesLeIsTotal()
    ensures TotalPreorder(BytesLe()) && forall s: seq<Bytes> :: AntisymmetricOn(BytesLe(), s)
  {
    forall a: Bytes, b: Bytes
      ensures BytesLe()(a, b) || BytesLe()(b, a)
      ensures BytesLe()(a, b) && BytesLe()(b, a) ==> a == b
    {
      LexTotal(a, b);
    }
    forall a: Bytes, b: Bytes, c: Bytes | BytesLe()(a, b) && BytesLe()(b, c)
      ensures BytesLe()(a, c)
    {
      LexTransitive(a, b, c);
    }
  }

  /** A corpus root commits to the joined texts, their number and their multiplicity, and to nothing of their order. */
  lemma {:induction false} RootBindsTexts(h: Hash, a: seq<Doc>, b: seq<Doc>)
    requires IsHash32(h) && a != [] && b != [] && CollisionFreeOn(h, TreePreimages(h, a) + TreePreimages(h, b))
    ensures DocsRoot(h, a) == DocsRoot(h, b) <==> multiset(TextsOf(a)) == multiset(TextsOf(b))
  {
    var s := TreePreimages(h, a) + TreePreimages(h, b);
    LeavesTellTextsApart(h, a, b, s);
    LeavesOfTexts(h, a);
    LeavesOfTexts(h, b);
    SameElementsSameImages(LeafOfText(h), TextsOf(a), TextsOf(b), Leaves(h, a), Leaves(h, b));
    SortKeepsElements(BytesLe(), Leaves(h, a));
    SortKeepsElements(BytesLe(), Leaves(h, b));
    if DocsRoot(h, a) == DocsRoot(h, b) {
      EqualRootsEqualLeaves(h, a, b, s);
    } else if multiset(TextsOf(a)) == multiset(TextsOf(b)) {
      BytesLeIsTotal();
      SortIgnoresOrder(BytesLe(), Leaves(h, a), Leaves(h, b));
    }
  }

  /** Without NULs in the ids it commits to the documents themselves. */
  lemma {:induction false} RootBindsCorpus(h: Hash, a: seq<Doc>, b: seq<Doc>)
    requires IsHash32(h) && a != [] && b != [] && NulFree(a) && NulFree(b)
    requires CollisionFreeOn(h, TreePreimages(h, a) + TreePreimages(h, b))
    ensures DocsRoot(h, a) == DocsRoot(h, b) <==> multiset(a) == multiset(b)
  {
    RootBindsTexts(h, a, b);
    assert InjectiveOn(JoinedText, a, b) by {
      forall d, e | (d in a || d in b) && (e in a || e in b) && JoinedText(d) == JoinedText(e)
        ensures d == e
      {
        NulSeparates(d.id, d.content, e.id, e.content);
      }
    }
    SameElementsSameImages(JoinedText, a, b, TextsOf(a), TextsOf(b));
  }

  lemma {:induction false} EqualRootsEqualLeaves(h: Hash, a: seq<Doc>, b: seq<Doc>, s: set<Bytes>)
    requires IsHash32(h) && a != [] && b != [] && DocsRoot(h, a) == DocsRoot(h, b)
    requires CollisionFreeOn(h, s) && TreePreimages(h, a) + TreePreimages(h, b) <= s
    ensures SortedLeaves(h, a) == SortedLeaves(h, b)
  {
    var la, lb := SortedLeaves(h, a), SortedLeaves(h, b);
    var pairs := TreePairs(Node(h), la) + TreePairs(Node(h), lb);
    SortedLeavesWide(h, a);
    SortedLeavesWide(h, b);
    assert PairPreimages(pairs) <= s by {
      assert PairPreimages(pairs) == PairPreimages(TreePairs(Node(h), la)) + PairPreimages(TreePairs(Node(h), lb));
    }
    LeavesAvoided(h, a, pairs, s);
    LeavesAvoided(h, b, pairs, s);
    TreesBind(h, la, lb, pairs, s);
    RootBindsLeaves(Node(h), la, lb, pairs);
  }

  lemma {:induction false} TreesBind(h: Hash, la: seq<Bytes>, lb: seq<Bytes>, pairs: set<(Bytes, Bytes)>, s: set<Bytes>)
    requires IsHash32(h) && |la| > 0 && |lb| > 0 && Wide(la) && Wide(lb)
    requires pairs == TreePairs(Node(h), la) + TreePairs(Node(h), lb)
    requires CollisionFreeOn(h, s) && PairPreimages(pairs) <= s
    ensures Binding(Node(h), pairs, pairs)
  {
    forall t | t in pairs
      ensures |t.0| == 32 && |t.1| == 32
    {
      if t in TreePairs(Node(h), la) {
        TreePairsWide(h, la, t);
      } else {
        TreePairsWide(h, lb, t);
      }
    }
    forall t, c | t in pairs && c in pairs && Node(h)(t.0, t.1) == Node(h)(c.0, c.1)
      ensures t == c
    {
      assert NodePreimage(t.0, t.1) in PairPreimages(pairs) && NodePreimage(c.0, c.1) in PairPreimages(pairs);
      assert ToldApart(h, NodePreimage(t.0, t.1), NodePreimage(c.0, c.1));
      NodePreimageSplits(t.0, t.1, c.0, c.1);
    }
  }
}
