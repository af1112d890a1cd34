/** The admitted sequence as an append-only hash chain with an anchored head. */
module Enumeration {
  datatype Entry = Entry(index: int, commitment: string)
  datatype Sequence = Sequence(id: string, first: int, max: int, entries: seq<Entry>, anchoredHead: string)

  datatype Verdict =
    | InvalidSequence | OutOfOrder | ConflictingIndex(index: int) | DuplicateIndex(index: int)
    | Gap(index: int) | CommitmentMismatch | Complete

  /** Hashes an index, a commitment and the previous link. */
  type LinkHash = (int, string, string) -> string

  function Link(h: LinkHash, id: string, entries: seq<Entry>): string {
    if entries == [] then "GEN:" + id
    else
      var e := entries[|entries| - 1];
      h(e.index, e.commitment, Link(h, id, entries[..|entries| - 1]))
  }

  method ChainHead(h: LinkHash, id: string, entries: seq<Entry>) returns (head: string)
    ensures head == "head:" + Link(h, id, entries)
  {
    var prev := "GEN:" + id;
    for i := 0 to |entries|
      invariant prev == Link(h, id, entries[..i])
    {
      assert entries[..i + 1][..i] == entries[..i];
      prev := h(entries[i].index, entries[i].commitment, prev);
    }
    assert entries[..|entries|] == entries;
    head := "head:" + prev;
  }

  ghost predicate NonDecreasing(entries: seq<Entry>) {
    forall i, j :: 0 <= i < j < |entries| ==> entries[i].index <= entries[j].index
  }

  ghost predicate DistinctIndices(entries: seq<Entry>) {
    forall i, j :: 0 <= i < j < |entries| ==> entries[i].index != entries[j].index
  }

  ghost predicate Present(entries: seq<Entry>, index: int) {
    exists i :: 0 <= i < |entries| && entries[i].index == index
  }

  ghost predicate Covers(entries: seq<Entry>, first: int, max: int) {
    forall n :: first <= n <= max ==> Present(entries, n)
  }

  ghost predicate HeadMatches(h: LinkHash, s: Sequence) {
    "head:" + Link(h, s.id, s.entries) == s.anchoredHead
  }

  /** The entry at j is the first whose index has occurred before, and it has occurred at i. */
  ghost predicate FirstRepeat(entries: seq<Entry>, i: int, j: int) {
    0 <= i < j < |entries| && entries[i].index == entries[j].index && DistinctIndices(entries[..j])
  }

  /** Scans for the first index that returns. */
  method FindRepeat(entries: seq<Entry>) returns (at: int, same: bool)
    ensures at < 0 ==> DistinctIndices(entries)
    ensures at >= 0 ==>
      exists i :: FirstRepeat(entries, i, at) && (same <==> entries[i].commitment == entries[at].commitment)
  {
    var seen: map<int, string> := map[];
    for i := 0 to |entries|
      invariant DistinctIndices(entries[..i])
      invariant forall j :: 0 <= j < i ==> entries[j].index in seen && seen[entries[j].index] == entries[j].commitment
      invariant forall n :: n in seen ==> exists j :: 0 <= j < i && entries[j].index == n
    {
      var e := entries[i];
      if e.index in seen {
        var j :| 0 <= j < i && entries[j].index == e.index;
        assert FirstRepeat(entries, j, i);
        return i, seen[e.index] == e.commitment;
      }
      seen := seen[e.index := e.commitment];
    }
    assert entries[..|entries|] == entries;
    return -1, false;
  }

  /** Scans the declared range for a missing index. */
  method FindGap(entries: seq<Entry>, first: int, max: int) returns (missing: bool, gap: int)
    ensures !missing ==> Covers(entries, first, max)
    ensures missing ==> first <= gap <= max && !Present(entries, gap) && Covers(entries, first, gap - 1)
  {
    var indices := set e | e in entries :: e.index;
    gap := first;
    while gap <= max
      invariant Covers(entries, first, gap - 1)
    {
      if gap !in indices {
        return true, gap;
      }
      gap := gap + 1;
    }
    return false, gap;
  }

  method Enumerate(h: LinkHash, s: Sequence) returns (v: Verdict)
    ensures v == InvalidSequence <==> s.max < s.first || s.entries == []
    ensures v == OutOfOrder <==> s.max >= s.first && s.entries != [] && !NonDecreasing(s.entries)
    ensures v.DuplicateIndex? || v.ConflictingIndex? <==>
            s.max >= s.first && s.entries != [] && NonDecreasing(s.entries) && !DistinctIndices(s.entries)
    ensures v.DuplicateIndex? || v.ConflictingIndex? ==>
      exists i, j :: FirstRepeat(s.entries, i, j) && s.entries[j].index == v.index
        && (v.DuplicateIndex? <==> s.entries[i].commitment == s.entries[j].commitment)
    ensures v.Gap? ==> s.first <= v.index <= s.max && !Present(s.entries, v.index) && Covers(s.entries, s.first, v.index - 1)
    ensures v == CommitmentMismatch ==> Covers(s.entries, s.first, s.max) && !HeadMatches(h, s)
    ensures v == Complete <==>
      && s.max >= s.first && s.entries != [] && NonDecreasing(s.entries) && DistinctIndices(s.entries)
      && Covers(s.entries, s.first, s.max) && HeadMatches(h, s)
  {
    if s.max < s.first || s.entries == [] {
      return InvalidSequence;
    }
    for i := 1 to |s.entries|
      invariant NonDecreasing(s.entries[..i])
    {
      if s.entries[i - 1].index > s.entries[i].index {
        return OutOfOrder;
      }
    }
    assert s.entries[..|s.entries|] == s.entries;
    var at, same := FindRepeat(s.entries);
    if at >= 0 {
      return if same then DuplicateIndex(s.entries[at].index) else ConflictingIndex(s.entries[at].index);
    }
    var missing, gap := FindGap(s.entries, s.first, s.max);
    if missing {
      return Gap(gap);
    }
    var head := ChainHead(h, s.id, s.entries);
    return if head != s.anchoredHead then CommitmentMismatch else Complete;
  }

  /** The preimage of a link: an index, a commitment and the link before it. */
  datatype Triple = Triple(index: int, commitment: string, prev: string)

  /** What the chain hashes at its entries, in order. */
  ghost function Fed(h: LinkHash, id: string, entries: seq<Entry>): (r: seq<Triple>)
    ensures |r| == |entries|
  {
    seq(|entries|, i requires 0 <= i < |entries| =>
      Triple(entries[i].index, entries[i].commitment, Link(h, id, entries[..i])))
  }

  function Hashed(h: LinkHash, t: Triple): string {
    h(t.index, t.commitment, t.prev)
  }

  /** The hash tells apart the triples that the two chains feed it, and yields no genesis link on them. */
  ghost predicate TriplesToldApart(h: LinkHash, genesis: string, a: seq<Triple>, b: seq<Triple>) {
    && (forall t, u :: t in a && u in b && Hashed(h, t) == Hashed(h, u) ==> t == u)
    && (forall t :: t in a ==> Hashed(h, t) != genesis)
    && (forall u :: u in b ==> Hashed(h, u) != genesis)
  }

  /** Every link but the genesis link is the hash of the triple fed at its entry. */
  lemma {:induction false} LinkHashesTheTriple(h: LinkHash, id: string, entries: seq<Entry>, m: nat)
    requires 0 < m <= |entries|
    ensures var t := Triple(entries[m - 1].index, entries[m - 1].commitment, Link(h, id, entries[..m - 1]));
      t in Fed(h, id, entries) && Link(h, id, entries[..m]) == Hashed(h, t)
  {
    assert Fed(h, id, entries)[m - 1] in Fed(h, id, entries);
    assert entries[..m][..m - 1] == entries[..m - 1];
  }

  lemma {:induction false} EqualLinksEqualEntries(h: LinkHash, id: string, a: seq<Entry>, b: seq<Entry>, m: nat, n: nat)
    requires TriplesToldApart(h, "GEN:" + id, Fed(h, id, a), Fed(h, id, b)) && m <= |a| && n <= |b|
    requires Link(h, id, a[..m]) == Link(h, id, b[..n])
    ensures a[..m] == b[..n]
    decreases m
  {
    if m > 0 {
      LinkHashesTheTriple(h, id, a, m);
    }
    if n > 0 {
      LinkHashesTheTriple(h, id, b, n);
    }
    if m > 0 && n > 0 {
      EqualLinksEqualEntries(h, id, a, b, m - 1, n - 1);
      assert a[..m] == a[..m - 1] + [a[m - 1]] && b[..n] == b[..n - 1] + [b[n - 1]];
    }
  }

  /** The anchored head commits to the entries: two complete sequences of one id with one head list the same entries. */
  lemma {:induction false} HeadBindsEntries(h: LinkHash, s: Sequence, t: Sequence)
    requires s.id == t.id && s.anchoredHead == t.anchoredHead && HeadMatches(h, s) && HeadMatches(h, t)
    requires TriplesToldApart(h, "GEN:" + s.id, Fed(h, s.id, s.entries), Fed(h, t.id, t.entries))
    ensures s.entries == t.entries
  {
    var a, b := Link(h, s.id, s.entries), Link(h, t.id, t.entries);
    assert ("head:" + a)[5..] == a && ("head:" + b)[5..] == b;
    assert s.entries[..|s.entries|] == s.entries && t.entries[..|t.entries|] == t.entries;
    EqualLinksEqualEntries(h, s.id, s.entries, t.entries, |s.entries|, |t.entries|);
  }

  /** The head written out: one entry, and one entry more. */
  lemma {:induction false} HeadGrows(h: LinkHash, id: string, entries: seq<Entry>, e: Entry)
    ensures Link(h, id, []) == "GEN:" + id
    ensures Link(h, id, entries + [e]) == h(e.index, e.commitment, Link(h, id, entries))
  {
    assert (entries + [e])[..|entries|] == entries;
  }
}
