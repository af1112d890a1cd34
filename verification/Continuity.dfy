/**
 Checkpoint continuity: the canonical form of a checkpoint, local verification of its root, and the
 pairwise gate between a checkpoint and its predecessor, composed over whole chains.
 */
module Continuity {
  import opened Wrappers
  import opened Sorting

  /** A string as its UTF-16 code units. */
  type Units = seq<int>

  function U(s: string): Units {
    seq(|s|, i requires 0 <= i < |s| => s[i] as int)
  }

  /** A parsed JSON value; the members of an object are looked up by name, and their order is not observed. */
  datatype Json = Null | Bool(b: bool) | Num(n: real) | Str(s: Units) | Arr(items: seq<Json>) | Obj(members: map<Units, Json>)

  type Checkpoint = map<Units, Json>

  /**
   What the gate takes from its surroundings: the digest of a canonical value's JSON text, the string
   conversion that sorting uses, and the relational operator on values.
   */
  datatype Env = Env(digest: Json -> Units, text: Json -> Units, greater: (Json, Json) -> bool)

  // ---------- the canonical form ----------

  predicate IsRefKey(k: Units) {
    k in {U("entry_refs"), U("receipt_refs"), U("artifact_refs"), U("collection_refs")}
  }

  /** Annotations; assigning to a member named "__proto__" creates no member either. */
  predicate IsDropped(k: Units) {
    k in {U("metadata"), U("checkpoint_root"), U("receipt_root"), U("root"), U("__proto__")}
  }

  function ByText(env: Env): Order<Json> {
    (a, b) => LexLe(env.text(a), env.text(b))
  }

  function Canon(env: Env, j: Json): Json
    decreases j, 0
  {
    match j
    case Arr(items) => Arr(seq(|items|, i requires 0 <= i < |items| => Canon(env, items[i])))
    case Obj(m) => Obj(map k | k in m && !IsDropped(k) :: CanonMember(env, k, m[k]))
    case _ => j
  }

  function CanonMember(env: Env, k: Units, v: Json): Json
    decreases v, 1
  {
    if IsRefKey(k) && v.Arr? then Arr(Sort(ByText(env), v.items)) else Canon(env, v)
  }

  /** The loop that fills the canonical object. */
  method ComputeCanon(env: Env, j: Json) returns (r: Json)
    ensures r == Canon(env, j)
    decreases j
  {
    match j {
      case Arr(items) =>
        var out := [];
        for i := 0 to |items|
          invariant |out| == i && forall k :: 0 <= k < i ==> out[k] == Canon(env, items[k])
        {
          var v := ComputeCanon(env, items[i]);
          out := out + [v];
        }
        r := Arr(out);
      case Obj(m) =>
        var out: map<Units, Json> := map[];
        var rest := m.Keys;
        while rest != {}
          invariant rest <= m.Keys
          invariant forall k :: k in out <==> k in m && k !in rest && !IsDropped(k)
          invariant forall k :: k in out ==> out[k] == CanonMember(env, k, m[k])
        {
          var k :| k in rest;
          rest := rest - {k};
          if IsDropped(k) {
            continue;
          }
          var v := m[k];
          if IsRefKey(k) && v.Arr? {
            out := out[k := Arr(Sort(ByText(env), v.items))];
          } else {
            var w := ComputeCanon(env, v);
            out := out[k := w];
          }
        }
        r := Obj(out);
      case _ => r := j;
    }
  }

  // ---------- local verification ----------

  function Get(cp: Checkpoint, name: string): Option<Json> {
    if U(name) in cp then Some(cp[U(name)]) else None
  }

  function DeriveRoot(env: Env, cp: Checkpoint): Units {
    env.digest(Canon(env, Obj(cp)))
  }

  /** What an index runs over: the elements of an array, the code units of a string. */
  function Elements(v: Option<Json>): seq<Json> {
    match v
    case Some(Arr(items)) => items
    case Some(Str(s)) => seq(|s|, i requires 0 <= i < |s| => Str([s[i]]))
    case _ => []
  }

  predicate InOrder(env: Env, e: seq<Json>) {
    forall i :: 0 < i < |e| ==> !env.greater(e[i - 1], e[i])
  }

  method EntryRefsCanonical(env: Env, cp: Checkpoint) returns (ok: bool)
    ensures ok <==> InOrder(env, Elements(Get(cp, "entry_refs")))
  {
    var e := Elements(Get(cp, "entry_refs"));
    var i := 1;
    while i < |e|
      invariant 1 <= i
      invariant forall k :: 0 < k < i && k < |e| ==> !env.greater(e[k - 1], e[k])
    {
      if env.greater(e[i - 1], e[i]) {
        return false;
      }
      i := i + 1;
    }
    return true;
  }

  predicate LocalVerify(env: Env, cp: Checkpoint) {
    Get(cp, "checkpoint_root") == Some(Str(DeriveRoot(env, cp))) && InOrder(env, Elements(Get(cp, "entry_refs")))
  }

  /** The local verifier: recomputes the root over the canonical form and scans the references. */
  method VerifyLocally(env: Env, cp: Checkpoint) returns (ok: bool)
    ensures ok == LocalVerify(env, cp)
  {
    var canonical := ComputeCanon(env, Obj(cp));
    if Get(cp, "checkpoint_root") != Some(Str(env.digest(canonical))) {
      return false;
    }
    ok := EntryRefsCanonical(env, cp);
  }

  // ---------- the gate ----------

  predicate IsInteger(v: Option<Json>) {
    v.Some? && v.value.Num? && v.value.n.Floor as real == v.value.n
  }

  /** A missing link is not a null link. */
  predicate ShapeValid(cp: Checkpoint) {
    && IsInteger(Get(cp, "sequence"))
    && Sequence(cp) >= 0
    && (Sequence(cp) == 0 ==> Get(cp, "prev_checkpoint") == Some(Null))
    && (Sequence(cp) > 0 ==> Get(cp, "prev_checkpoint") != Some(Null))
  }

  function Sequence(cp: Checkpoint): int
    requires IsInteger(Get(cp, "sequence"))
  {
    Get(cp, "sequence").value.n.Floor
  }

  const TWO53: int := 9007199254740992

  /**
   The predecessor of a number in binary64 arithmetic: exact up to 2^53, then rounded to even among the
   even numbers up to 2^54, and absorbed beyond.
   */
  function MinusOne(x: int): int {
    if x <= TWO53 then x - 1
    else if x <= 2 * TWO53 && x / 2 % 2 == 1 then x - 2
    else x
  }

  /** An integer that binary64 holds; beyond 2^54 no more is asked than all those are multiples of four. */
  predicate IsHeld(x: int) {
    x <= TWO53 || (x <= 2 * TWO53 && x % 2 == 0) || x % 4 == 0
  }

  /** The difference is the nearest number held, and of two the one with the even significand. */
  lemma {:induction false} MinusOneRounds(x: nat)
    requires IsHeld(x)
    ensures var r := MinusOne(x);
      && IsHeld(r) && x - 2 <= r <= x && (r == x - 1 <==> IsHeld(x - 1))
      && (r != x - 1 && IsHeld(x - 2) ==> r / 2 % 2 == 0)
  {
  }

  datatype Outcome =
    | CurrentShapeMalformed | CurrentLocalVerifierFailed | Genesis | PredecessorUnknown
    | PredecessorShapeMalformed | PredecessorLocalVerifierFailed | PredecessorRefMismatch
    | DirectSuccessor | SequenceGap | PredecessorSameSequence | PredecessorHigherSequence

  function Evaluate(env: Env, current: Checkpoint, predecessor: Option<Checkpoint>): Outcome {
    if !ShapeValid(current) then CurrentShapeMalformed
    else if !LocalVerify(env, current) then CurrentLocalVerifierFailed
    else if Sequence(current) == 0 && Get(current, "prev_checkpoint") == Some(Null) then Genesis
    else if predecessor == None then PredecessorUnknown
    else if !ShapeValid(predecessor.value) then PredecessorShapeMalformed
    else if !LocalVerify(env, predecessor.value) then PredecessorLocalVerifierFailed
    else if Get(current, "prev_checkpoint") != Get(predecessor.value, "checkpoint_root") then PredecessorRefMismatch
    else
      var ps, cs := Sequence(predecessor.value), Sequence(current);
      if ps == MinusOne(cs) then DirectSuccessor
      else if ps < MinusOne(cs) then SequenceGap
      else if ps == cs then PredecessorSameSequence
      else PredecessorHigherSequence
  }

  /** The root is that of the canonical form, and no reference is greater than the one after it. */
  ghost predicate Verifies(env: Env, cp: Checkpoint) {
    var refs := Elements(Get(cp, "entry_refs"));
    && Get(cp, "checkpoint_root") == Some(Str(env.digest(Canon(env, Obj(cp)))))
    && forall i :: 0 <= i < |refs| - 1 ==> !env.greater(refs[i], refs[i + 1])
  }

  lemma {:induction false} VerifiesExactly(env: Env, cp: Checkpoint)
    ensures LocalVerify(env, cp) <==> Verifies(env, cp)
  {
    var refs := Elements(Get(cp, "entry_refs"));
    if forall i :: 0 <= i < |refs| - 1 ==> !env.greater(refs[i], refs[i + 1]) {
      forall i | 0 < i < |refs|
        ensures !env.greater(refs[i - 1], refs[i])
      {
        var k := i - 1;
        assert !env.greater(refs[k], refs[k + 1]);
      }
    }
    if InOrder(env, refs) {
      forall i | 0 <= i < |refs| - 1
        ensures !env.greater(refs[i], refs[i + 1])
      {
        var k := i + 1;
        assert !env.greater(refs[k - 1], refs[k]);
      }
    }
  }

  /** The sequence is a natural number, and it is zero exactly where the link is null. */
  predicate HasShape(cp: Checkpoint, n: nat) {
    && Get(cp, "sequence") == Some(Num(n as real))
    && (n == 0 <==> Get(cp, "prev_checkpoint") == Some(Null))
  }

  lemma {:induction false} ShapeExactly(cp: Checkpoint)
    ensures ShapeValid(cp) <==> exists n: nat :: HasShape(cp, n)
    ensures ShapeValid(cp) ==> Sequence(cp) >= 0 && HasShape(cp, Sequence(cp))
  {
    if ShapeValid(cp) {
      var n: nat := Sequence(cp);
      assert HasShape(cp, n);
    }
    if n: nat :| HasShape(cp, n) {
      assert (n as real).Floor == n;
    }
  }

  /** A checkpoint that is well formed and verifies locally. */
  ghost predicate IsSound(env: Env, cp: Checkpoint) {
    (exists n: nat :: HasShape(cp, n)) && Verifies(env, cp)
  }

  /** The outcomes that look at the current checkpoint alone, in the order in which they are found. */
  lemma {:induction false} CurrentOutcomesExactly(env: Env, current: Checkpoint, predecessor: Option<Checkpoint>)
    ensures var v, shaped := Evaluate(env, current, predecessor), exists n: nat :: HasShape(current, n);
      && (v == CurrentShapeMalformed <==> !shaped)
      && (v == CurrentLocalVerifierFailed <==> shaped && !Verifies(env, current))
      && (v == Genesis <==> HasShape(current, 0) && Verifies(env, current))
      && (v == PredecessorUnknown <==> predecessor == None && IsSound(env, current) && !HasShape(current, 0))
  {
    ShapeExactly(current);
    VerifiesExactly(env, current);
  }

  /** The outcomes of a comparison: of the shapes, the roots, the link, and last the sequence numbers. */
  lemma {:induction false} PredecessorOutcomesExactly(env: Env, current: Checkpoint, p: Checkpoint, n: nat)
    requires IsSound(env, current) && HasShape(current, n) && n > 0
    ensures var v, shaped := Evaluate(env, current, Some(p)), exists k: nat :: HasShape(p, k);
      && (v == PredecessorShapeMalformed <==> !shaped)
      && (v == PredecessorLocalVerifierFailed <==> shaped && !Verifies(env, p))
      && (v == PredecessorRefMismatch <==>
            IsSound(env, p) && Get(current, "prev_checkpoint") != Get(p, "checkpoint_root"))
      && (v in {DirectSuccessor, SequenceGap, PredecessorSameSequence, PredecessorHigherSequence} <==>
            IsSound(env, p) && Get(current, "prev_checkpoint") == Get(p, "checkpoint_root"))
  {
    ShapeExactly(current);
    ShapeExactly(p);
    VerifiesExactly(env, current);
    VerifiesExactly(env, p);
  }

  /** Up to 2^53 the numbers are compared as integers. */
  lemma {:induction false} NumbersComparedExactly(env: Env, current: Checkpoint, p: Checkpoint, n: nat, k: nat)
    requires IsSound(env, current) && HasShape(current, n) && 0 < n <= TWO53 && IsSound(env, p) && HasShape(p, k)
    requires Get(current, "prev_checkpoint") == Get(p, "checkpoint_root")
    ensures Evaluate(env, current, Some(p)) ==
            if k + 1 == n then DirectSuccessor else if k + 1 < n then SequenceGap
            else if k == n then PredecessorSameSequence else PredecessorHigherSequence
  {
    PredecessorOutcomesExactly(env, current, p, n);
  }

  // ---------- chains ----------

  /** Starts at genesis, and every adjacent pair is a direct succession. */
  ghost predicate Continuous(env: Env, chain: seq<Checkpoint>) {
    && chain != []
    && Evaluate(env, chain[0], None) == Genesis
    && forall i :: 0 < i < |chain| ==> Evaluate(env, chain[i], Some(chain[i - 1])) == DirectSuccessor
  }

  /** Up to 2^53 the sequence numbers of a continuous chain are 0, 1, 2, ... */
  lemma {:induction false} ContinuousIsNumbered(env: Env, chain: seq<Checkpoint>, i: nat)
    requires Continuous(env, chain) && i < |chain| && i <= TWO53
    ensures ShapeValid(chain[i]) && Sequence(chain[i]) == i
  {
    if i > 0 {
      ContinuousIsNumbered(env, chain, i - 1);
    }
  }

  /** The whole chain is numbered so exactly when it does not go beyond 2^53. */
  lemma {:induction false} ContinuousNumberedExactly(env: Env, chain: seq<Checkpoint>)
    requires Continuous(env, chain)
    ensures (forall i :: 0 <= i < |chain| ==> ShapeValid(chain[i]) && Sequence(chain[i]) == i) <==> |chain| <= TWO53 + 1
  {
    forall i | 0 <= i < |chain| && i <= TWO53
      ensures ShapeValid(chain[i]) && Sequence(chain[i]) == i
    {
      ContinuousIsNumbered(env, chain, i);
    }
    if |chain| > TWO53 + 1 {
      DirectSuccessorIsStepOfOne(env, chain[TWO53 + 1], chain[TWO53]);
    }
  }

  /** A direct succession is a step of one exactly as long as the current number is at most 2^53. */
  lemma {:induction false} DirectSuccessorIsStepOfOne(env: Env, current: Checkpoint, predecessor: Checkpoint)
    requires Evaluate(env, current, Some(predecessor)) == DirectSuccessor
    ensures Sequence(predecessor) + 1 == Sequence(current) <==> Sequence(current) <= TWO53
  {
  }

  /** Beyond, a gap passes: 2^53 + 2 directly succeeds 2^53. */
  lemma {:induction false} GapAcceptedBeyond53Bits(env: Env, current: Checkpoint, predecessor: Checkpoint)
    requires ShapeValid(current) && LocalVerify(env, current) && Sequence(current) == TWO53 + 2
    requires ShapeValid(predecessor) && LocalVerify(env, predecessor) && Sequence(predecessor) == TWO53
    requires Get(current, "prev_checkpoint") == Get(predecessor, "checkpoint_root")
    ensures Evaluate(env, current, Some(predecessor)) == DirectSuccessor
  {
  }

  /** The digest tells apart the canonical contents of the two chains. */
  ghost predicate NoCollision(env: Env, a: seq<Checkpoint>, b: seq<Checkpoint>) {
    forall i, j :: 0 <= i < |a| && 0 <= j < |b| && DeriveRoot(env, a[i]) == DeriveRoot(env, b[j]) ==>
      Canon(env, Obj(a[i])) == Canon(env, Obj(b[j]))
  }

  lemma {:induction false} KeysDiffer()
    ensures !IsDropped(U("sequence")) && !IsRefKey(U("sequence"))
    ensures !IsDropped(U("prev_checkpoint")) && !IsRefKey(U("prev_checkpoint"))
  {
    var sequence, prev := U("sequence"), U("prev_checkpoint");
    assert |sequence| == 8 && sequence[0] == 's' as int && U("metadata")[0] == 'm' as int;
    assert |prev| == 15 && prev[0] == 'p' as int && U("checkpoint_root")[0] == 'c' as int && U("collection_refs")[0] == 'c' as int;
  }

  /** Equal canonical content means equal sequence numbers and equal links, and so both are genesis or neither is. */
  lemma {:induction false} CanonKeepsLinks(env: Env, a: Checkpoint, b: Checkpoint)
    requires Canon(env, Obj(a)) == Canon(env, Obj(b)) && ShapeValid(a) && ShapeValid(b)
    requires Get(a, "prev_checkpoint").Some? && (Get(a, "prev_checkpoint").value.Null? || Get(a, "prev_checkpoint").value.Str?)
    requires Get(b, "prev_checkpoint").Some? && (Get(b, "prev_checkpoint").value.Null? || Get(b, "prev_checkpoint").value.Str?)
    ensures Sequence(a) == Sequence(b) && Get(a, "prev_checkpoint") == Get(b, "prev_checkpoint")
  {
    KeysDiffer();
    var ca, cb := Canon(env, Obj(a)).members, Canon(env, Obj(b)).members;
    assert ca[U("sequence")] == CanonMember(env, U("sequence"), a[U("sequence")]) == a[U("sequence")];
    assert cb[U("sequence")] == CanonMember(env, U("sequence"), b[U("sequence")]) == b[U("sequence")];
    assert ca[U("prev_checkpoint")] == CanonMember(env, U("prev_checkpoint"), a[U("prev_checkpoint")]) == a[U("prev_checkpoint")];
    assert cb[U("prev_checkpoint")] == CanonMember(env, U("prev_checkpoint"), b[U("prev_checkpoint")]) == b[U("prev_checkpoint")];
  }

  lemma {:induction false} SuccessorMeans(env: Env, current: Checkpoint, predecessor: Checkpoint)
    requires Evaluate(env, current, Some(predecessor)) == DirectSuccessor
    ensures ShapeValid(current) && LocalVerify(env, current) && Sequence(current) > 0
    ensures ShapeValid(predecessor) && LocalVerify(env, predecessor)
    ensures Get(current, "prev_checkpoint") == Some(Str(DeriveRoot(env, predecessor)))
  {
  }

  /** Every member of a continuous chain verifies locally and is genesis or names the root before it. */
  lemma {:induction false} ContinuousMember(env: Env, chain: seq<Checkpoint>, i: nat)
    requires Continuous(env, chain) && i < |chain|
    ensures ShapeValid(chain[i]) && LocalVerify(env, chain[i])
    ensures Get(chain[i], "prev_checkpoint") == if i == 0 then Some(Null) else Some(Str(DeriveRoot(env, chain[i - 1])))
    ensures Sequence(chain[i]) == 0 <==> i == 0
  {
    if i > 0 {
      SuccessorMeans(env, chain[i], chain[i - 1]);
    }
  }

  /** Equal roots at two positions: both are genesis, or the positions before them have equal roots. */
  lemma {:induction false} EqualRootsStepBack(env: Env, a: seq<Checkpoint>, b: seq<Checkpoint>, m: nat, n: nat)
    requires Continuous(env, a) && Continuous(env, b) && NoCollision(env, a, b) && m < |a| && n < |b|
    requires DeriveRoot(env, a[m]) == DeriveRoot(env, b[n])
    ensures Canon(env, Obj(a[m])) == Canon(env, Obj(b[n]))
    ensures m == 0 <==> n == 0
    ensures m > 0 ==> DeriveRoot(env, a[m - 1]) == DeriveRoot(env, b[n - 1])
  {
    ContinuousMember(env, a, m);
    ContinuousMember(env, b, n);
    CanonKeepsLinks(env, a[m], b[n]);
  }

  /** Where the roots of two chains agree, so do the contents, and so do the roots before. */
  ghost predicate StepsBack<R, C>(ra: seq<R>, rb: seq<R>, ca: seq<C>, cb: seq<C>, m: nat, n: nat)
    requires |ca| == |ra| && |cb| == |rb| && m < |ra| && n < |rb|
  {
    ra[m] == rb[n] ==> ca[m] == cb[n] && (m == 0 <==> n == 0) && (m > 0 && n > 0 ==> ra[m - 1] == rb[n - 1])
  }

  /** From positions with equal roots, two such chains are the same down to their beginnings. */
  lemma {:induction false} EqualRootsAlign<R, C>(ra: seq<R>, rb: seq<R>, ca: seq<C>, cb: seq<C>, m: nat, n: nat)
    requires |ca| == |ra| && |cb| == |rb| && m < |ra| && n < |rb| && ra[m] == rb[n]
    requires forall i, j {:trigger StepsBack(ra, rb, ca, cb, i, j)} ::
               0 <= i < |ra| && 0 <= j < |rb| ==> StepsBack(ra, rb, ca, cb, i, j)
    ensures m == n && ca[..m + 1] == cb[..m + 1]
    decreases m
  {
    assert StepsBack(ra, rb, ca, cb, m, n);
    if m > 0 {
      EqualRootsAlign(ra, rb, ca, cb, m - 1, n - 1);
      assert ca[..m + 1] == ca[..m] + [ca[m]] && cb[..m + 1] == cb[..m] + [cb[m]];
    }
  }

  ghost function Roots(env: Env, chain: seq<Checkpoint>): (r: seq<Units>)
    ensures |r| == |chain|
  {
    seq(|chain|, i requires 0 <= i < |chain| => DeriveRoot(env, chain[i]))
  }

  ghost function Contents(env: Env, chain: seq<Checkpoint>): (r: seq<Json>)
    ensures |r| == |chain|
  {
    seq(|chain|, i requires 0 <= i < |chain| => Canon(env, Obj(chain[i])))
  }

  lemma {:induction false} AllStepBack(env: Env, a: seq<Checkpoint>, b: seq<Checkpoint>)
    requires Continuous(env, a) && Continuous(env, b) && NoCollision(env, a, b)
    ensures forall i, j :: 0 <= i < |a| && 0 <= j < |b| ==>
              StepsBack(Roots(env, a), Roots(env, b), Contents(env, a), Contents(env, b), i, j)
  {
    forall i, j | 0 <= i < |a| && 0 <= j < |b|
      ensures StepsBack(Roots(env, a), Roots(env, b), Contents(env, a), Contents(env, b), i, j)
    {
      if Roots(env, a)[i] == Roots(env, b)[j] {
        EqualRootsStepBack(env, a, b, i, j);
      }
    }
  }

  /**
   The last root commits to the whole history: two continuous chains with equal last roots have equal
   lengths and equal canonical content at every position.
   */
  lemma {:induction false} LastRootBindsChain(env: Env, a: seq<Checkpoint>, b: seq<Checkpoint>)
    requires Continuous(env, a) && Continuous(env, b) && NoCollision(env, a, b)
    requires Get(a[|a| - 1], "checkpoint_root") == Get(b[|b| - 1], "checkpoint_root")
    ensures |a| == |b|
    ensures forall i :: 0 <= i < |a| ==> Canon(env, Obj(a[i])) == Canon(env, Obj(b[i]))
  {
    var m, n := |a| - 1, |b| - 1;
    assert DeriveRoot(env, a[m]) == DeriveRoot(env, b[n]) by {
      ContinuousMember(env, a, m);
      ContinuousMember(env, b, n);
    }
    var ra, rb, ca, cb := Roots(env, a), Roots(env, b), Contents(env, a), Contents(env, b);
    AllStepBack(env, a, b);
    EqualRootsAlign(ra, rb, ca, cb, m, n);
    forall i | 0 <= i < |a|
      ensures Canon(env, Obj(a[i])) == Canon(env, Obj(b[i]))
    {
      assert ca[..m + 1][i] == cb[..m + 1][i];
    }
  }

  // ---------- what the canonical form forgets ----------

  lemma {:induction false} ByTextIsTotal(env: Env)
    ensures TotalPreorder(ByText(env))
  {
    forall a: Json, b: Json
      ensures ByText(env)(a, b) || ByText(env)(b, a)
    {
      LexTotal(env.text(a), env.text(b));
    }
    forall a: Json, b: Json, c: Json | ByText(env)(a, b) && ByText(env)(b, c)
      ensures ByText(env)(a, c)
    {
      LexTransitive(env.text(a), env.text(b), env.text(c));
    }
  }

  /** The same references, those of equal text in the same order. */
  ghost predicate SameReferences(env: Env, a: seq<Json>, b: seq<Json>) {
    SameClasses(ByText(env), a, b)
  }

  /** Equal at every depth up to annotations and the order of the references. */
  ghost predicate SameContent(env: Env, v: Json, w: Json)
    decreases v, 0
  {
    match v
    case Arr(items) =>
      w.Arr? && |w.items| == |items| && forall i :: 0 <= i < |items| ==> SameContent(env, items[i], w.items[i])
    case Obj(m) =>
      && w.Obj? && (forall k :: !IsDropped(k) ==> (k in m <==> k in w.members))
      && forall k :: k in m && !IsDropped(k) && k in w.members ==> SameMember(env, k, m[k], w.members[k])
    case _ => v == w
  }

  ghost predicate SameMember(env: Env, k: Units, v: Json, w: Json)
    decreases v, 1
  {
    if IsRefKey(k) && v.Arr? then w.Arr? && SameReferences(env, v.items, w.items) else SameContent(env, v, w)
  }

  /** Canonicalizing forgets annotations and the order of references at every depth, and nothing else. */
  lemma {:induction false} CanonEqualExactly(env: Env, v: Json, w: Json)
    ensures Canon(env, v) == Canon(env, w) <==> SameContent(env, v, w)
    decreases v, 0
  {
    match v {
      case Arr(items) =>
        if w.Arr? {
          assert |Canon(env, v).items| == |items| && |Canon(env, w).items| == |w.items|;
          assert v == Arr(items) && w == Arr(w.items);
        }
        if w.Arr? && |w.items| == |items| {
          forall i | 0 <= i < |items|
            ensures Canon(env, items[i]) == Canon(env, w.items[i]) <==> SameContent(env, items[i], w.items[i])
          {
            CanonEqualExactly(env, items[i], w.items[i]);
          }
          ItemsEqual(env, items, w.items);
        }
      case Obj(m) =>
        if w.Obj? {
          forall k | k in m && k in w.members
            ensures CanonMember(env, k, m[k]) == CanonMember(env, k, w.members[k]) <==> SameMember(env, k, m[k], w.members[k])
          {
            MemberEqualExactly(env, k, m[k], w.members[k]);
          }
          MembersEqual(env, m, w.members);
        }
      case _ =>
    }
  }

  lemma {:induction false} ItemsEqual(env: Env, a: seq<Json>, b: seq<Json>)
    requires |a| == |b|
    ensures Canon(env, Arr(a)) == Canon(env, Arr(b)) <==> forall i :: 0 <= i < |a| ==> Canon(env, a[i]) == Canon(env, b[i])
  {
    var ca, cb := Canon(env, Arr(a)).items, Canon(env, Arr(b)).items;
    if ca == cb {
      forall i | 0 <= i < |a|
        ensures Canon(env, a[i]) == Canon(env, b[i])
      {
        assert ca[i] == cb[i];
      }
    }
    if forall i :: 0 <= i < |a| ==> Canon(env, a[i]) == Canon(env, b[i]) {
      assert ca == cb;
    }
  }

  lemma {:induction false} MembersEqual(env: Env, a: Checkpoint, b: Checkpoint)
    ensures Canon(env, Obj(a)) == Canon(env, Obj(b)) <==>
            && (forall k :: !IsDropped(k) ==> (k in a <==> k in b))
            && forall k :: k in a && !IsDropped(k) && k in b ==> CanonMember(env, k, a[k]) == CanonMember(env, k, b[k])
  {
    var ca, cb := Canon(env, Obj(a)).members, Canon(env, Obj(b)).members;
    if ca == cb {
      forall k | !IsDropped(k)
        ensures k in a <==> k in b
      {
        assert k in ca <==> k in cb;
      }
      forall k | k in a && !IsDropped(k) && k in b
        ensures CanonMember(env, k, a[k]) == CanonMember(env, k, b[k])
      {
        assert k in ca && ca[k] == cb[k];
      }
    }
    if (forall k :: !IsDropped(k) ==> (k in a <==> k in b))
      && forall k :: k in a && !IsDropped(k) && k in b ==> CanonMember(env, k, a[k]) == CanonMember(env, k, b[k]) {
      forall k
        ensures k in ca <==> k in cb
        ensures k in ca ==> ca[k] == cb[k]
      {
      }
      assert ca == cb;
    }
  }

  lemma {:induction false} MemberEqualExactly(env: Env, k: Units, v: Json, w: Json)
    ensures CanonMember(env, k, v) == CanonMember(env, k, w) <==> SameMember(env, k, v, w)
    decreases v, 1
  {
    if IsRefKey(k) && v.Arr? {
      if w.Arr? {
        ByTextIsTotal(env);
        SortEqualExactly(ByText(env), v.items, w.items);
        assert CanonMember(env, k, v) == Arr(Sort(ByText(env), v.items));
        assert CanonMember(env, k, w) == Arr(Sort(ByText(env), w.items));
      }
    } else {
      CanonEqualExactly(env, v, w);
    }
  }

  /** The UTF-16 units of two strings are equal only for one string. */
  lemma {:induction false} UnitsOfName(s: string, t: string)
    ensures U(s) == U(t) <==> s == t
  {
    if U(s) == U(t) {
      assert |s| == |U(s)| == |U(t)| == |t|;
      forall i | 0 <= i < |s|
        ensures s[i] == t[i]
      {
        assert U(s)[i] == s[i] as int && U(t)[i] == t[i] as int;
      }
    }
  }

  /**
   Giving a member another value changes the canonical form exactly if the member is none of the five that are
   dropped and the value has other content; a list under one of the four names of references may be reordered.
   */
  lemma {:induction false} MemberMattersExactly(env: Env, cp: Checkpoint, name: string, v: Json, w: Json)
    ensures Canon(env, Obj(cp[U(name) := v])) == Canon(env, Obj(cp[U(name) := w])) <==>
      if name in {"metadata", "checkpoint_root", "receipt_root", "root", "__proto__"} then true
      else if name in {"entry_refs", "receipt_refs", "artifact_refs", "collection_refs"} && v.Arr? then
        w.Arr? && SameReferences(env, v.items, w.items)
      else SameContent(env, v, w)
  {
    var k := U(name);
    NamesExactly(name);
    MembersEqual(env, cp[k := v], cp[k := w]);
    assert cp[k := v][k] == v && cp[k := w][k] == w;
    MemberEqualExactly(env, k, v, w);
  }

  lemma {:induction false} NamesExactly(name: string)
    ensures IsDropped(U(name)) <==> name in {"metadata", "checkpoint_root", "receipt_root", "root", "__proto__"}
    ensures IsRefKey(U(name)) <==> name in {"entry_refs", "receipt_refs", "artifact_refs", "collection_refs"}
  {
    UnitsOfName(name, "metadata");
    UnitsOfName(name, "checkpoint_root");
    UnitsOfName(name, "receipt_root");
    UnitsOfName(name, "root");
    UnitsOfName(name, "__proto__");
    UnitsOfName(name, "entry_refs");
    UnitsOfName(name, "receipt_refs");
    UnitsOfName(name, "artifact_refs");
    UnitsOfName(name, "collection_refs");
  }

  /** Two checkpoints have one root exactly when they have the same content, if the digest tells the two apart. */
  lemma {:induction false} EqualRootsExactly(env: Env, a: Checkpoint, b: Checkpoint)
    requires DeriveRoot(env, a) == DeriveRoot(env, b) ==> Canon(env, Obj(a)) == Canon(env, Obj(b))
    ensures DeriveRoot(env, a) == DeriveRoot(env, b) <==> SameContent(env, Obj(a), Obj(b))
  {
    CanonEqualExactly(env, Obj(a), Obj(b));
  }

  /** The canonical form is a normal form. */
  lemma {:induction false} CanonIdempotent(env: Env, j: Json)
    ensures Canon(env, Canon(env, j)) == Canon(env, j)
    decreases j, 0
  {
    match j {
      case Arr(items) =>
        forall i | 0 <= i < |items|
          ensures Canon(env, Canon(env, items[i])) == Canon(env, items[i])
        {
          CanonIdempotent(env, items[i]);
        }
        assert Canon(env, Canon(env, j)).items == Canon(env, j).items;
      case Obj(m) =>
        forall k | k in m && !IsDropped(k)
          ensures CanonMember(env, k, CanonMember(env, k, m[k])) == CanonMember(env, k, m[k])
        {
          CanonMemberIdempotent(env, k, m[k]);
        }
        assert Canon(env, Canon(env, j)).members == Canon(env, j).members;
      case _ =>
    }
  }

  lemma {:induction false} CanonMemberIdempotent(env: Env, k: Units, v: Json)
    ensures CanonMember(env, k, CanonMember(env, k, v)) == CanonMember(env, k, v)
    decreases v, 1
  {
    if IsRefKey(k) && v.Arr? {
      ByTextIsTotal(env);
      SortSorts(ByText(env), v.items);
      SortOfSorted(ByText(env), Sort(ByText(env), v.items));
    } else {
      CanonIdempotent(env, v);
    }
  }
}
