/** Which error a refused value gets: that of the first fault in the order in which the encoder meets them. */
module Refusals {
  import opened Wrappers
  import opened Unicode
  import opened Numbers
  import opened NumberValues
  import opened JsonValues
  import opened Sorting
  import opened PythonEncoder
  import JsonReader
  import opened JsonMeaning

  /** The key at i is the first that repeats an earlier one or is not scalar. */
  ghost predicate BadKeyAt(keys: seq<Text>, f: Failure, i: nat) {
    && i < |keys| && GoodKeys(keys[..i])
    && if keys[i] in keys[..i] then f == DuplicateKey else f == NonScalarKey && !IsScalar(keys[i])
  }

  /**
   Arrays fail at their first fault. Objects fail at the first bad key in the order of the entries, and
   otherwise at the faulty value whose key sorts before those of all other faulty values.
   */
  ghost predicate Fails(v: PyValue, f: Failure) {
    match v
    case Null => false
    case Bool(_) => false
    case Integer(n) => f == IntegerOutOfRange && !IsSafe(n)
    case Double(x) =>
      if x.NonFinite? then f == NonFiniteNumber
      else if x.NegativeZero? then f == NegativeZeroNumber
      else f == IntegerOutOfRange && IsIntegral(Amount64(x)) && !IsSafe(Amount64(x).Floor)
    case Str(s) => f == NonScalarString && !IsScalar(s)
    case Arr(items) =>
      exists i :: 0 <= i < |items| && Fails(items[i], f) && forall j :: 0 <= j < i ==> Admitted(items[j])
    case Obj(entries) =>
      if GoodKeys(KeysOf(entries)) then
        exists i :: 0 <= i < |entries| && Fails(entries[i].value, f)
          && forall j :: 0 <= j < |entries| && EntryLe(entries[j], entries[i]) && j != i ==> Admitted(entries[j].value)
      else exists i :: BadKeyAt(KeysOf(entries), f, i)
  }

  // ---------- keys ----------

  lemma {:induction false} KeyFailureIsFirst(keys: seq<Text>, i: nat, seen: set<Text>)
    requires i <= |keys| && GoodKeys(keys[..i]) && seen == (set k | k in keys[..i])
    requires KeyFailure(keys[i..], seen).Some?
    ensures exists k :: BadKeyAt(keys, KeyFailure(keys[i..], seen).value, k)
    decreases |keys| - i
  {
    var rest := keys[i..];
    assert keys[..i + 1] == keys[..i] + [keys[i]] && rest[0] == keys[i] && rest[1..] == keys[i + 1..];
    if keys[i] in seen || !IsScalar(keys[i]) {
      assert BadKeyAt(keys, KeyFailure(rest, seen).value, i);
    } else {
      KeyFailureIsFirst(keys, i + 1, seen + {keys[i]});
    }
  }

  lemma {:induction false} BadKeyIsFirst(keys: seq<Text>, f: Failure, g: Failure, i: nat, k: nat)
    requires BadKeyAt(keys, f, i) && BadKeyAt(keys, g, k)
    ensures f == g
  {
    if i < k {
      GoodKeyIsNotBad(keys, f, i, k);
    } else if k < i {
      GoodKeyIsNotBad(keys, g, k, i);
    }
  }

  lemma {:induction false} GoodKeyIsNotBad(keys: seq<Text>, f: Failure, i: nat, k: nat)
    requires i < k <= |keys| && GoodKeys(keys[..k])
    ensures !BadKeyAt(keys, f, i)
  {
    var front := keys[..k];
    assert front[i] == keys[i] && keys[..i] == front[..i];
    assert forall j :: 0 <= j < i ==> front[j] == keys[j];
    assert front[i] in front;
  }

  lemma {:induction false} KeyFailureExactlyWhich(keys: seq<Text>, f: Failure)
    ensures KeyFailure(keys, {}) == Some(f) <==> exists i :: BadKeyAt(keys, f, i)
  {
    var none := keys[..0];
    assert keys[0..] == keys && none == [];
    assert (set k | k in none) == {};
    if KeyFailure(keys, {}).Some? {
      KeyFailureIsFirst(keys, 0, {});
      var g := KeyFailure(keys, {}).value;
      var k :| BadKeyAt(keys, g, k);
      if i :| BadKeyAt(keys, f, i) {
        BadKeyIsFirst(keys, f, g, i, k);
      }
    } else {
      KeyFailureExactly(keys, {});
      forall i: nat
        ensures !BadKeyAt(keys, f, i)
      {
        if i < |keys| {
          assert keys[..|keys|] == keys;
          GoodKeyIsNotBad(keys, f, i, |keys|);
        }
      }
    }
  }

  // ---------- results in a row ----------

  /** The error of a row is that of its first failure. */
  lemma {:induction false} CollectFailsAtFirst<T>(rs: seq<Result<T, Failure>>, f: Failure)
    ensures Collect(rs) == Err(f) <==> exists i :: 0 <= i < |rs| && rs[i] == Err(f) && forall j :: 0 <= j < i ==> rs[j].Ok?
  {
    CollectExactly(rs);
    if rs != [] && rs[0].Ok? {
      var rest := rs[1..];
      CollectFailsAtFirst(rest, f);
      if Collect(rs) == Err(f) {
        var i :| 0 <= i < |rest| && rest[i] == Err(f) && forall j :: 0 <= j < i ==> rest[j].Ok?;
        assert rs[i + 1] == Err(f);
        assert forall j :: 0 < j < i + 1 ==> rs[j] == rest[j - 1];
      }
      if i :| 0 <= i < |rs| && rs[i] == Err(f) && forall j :: 0 <= j < i ==> rs[j].Ok? {
        assert i > 0 && rest[i - 1] == Err(f);
        assert forall j :: 0 <= j < i - 1 ==> rest[j] == rs[j + 1];
      }
    }
  }

  lemma {:induction false} ArrayFails(items: seq<PyValue>, f: Failure)
    ensures Serialized(Arr(items)) == Err(f) <==>
            exists i :: 0 <= i < |items| && Serialized(items[i]) == Err(f) && forall j :: 0 <= j < i ==> Admitted(items[j])
  {
    SerializedArray(items);
    var rs := Map(Serialized, items);
    CollectFailsAtFirst(rs, f);
    forall i | 0 <= i < |items|
      ensures Serialized(items[i]).Ok? <==> Admitted(items[i])
    {
      EncodedExactly(items[i]);
    }
    assert Serialized(Arr(items)) == Err(f) <==> Collect(rs) == Err(f);
    if i :| 0 <= i < |items| && Serialized(items[i]) == Err(f) && forall j :: 0 <= j < i ==> Admitted(items[j]) {
      assert rs[i] == Err(f);
    }
  }

  // ---------- objects ----------

  /** Keys that tell entries apart also order them. */
  lemma {:induction false} KeysOrder(entries: seq<PyEntry>, j: nat, k: nat)
    requires GoodKeys(KeysOf(entries)) && j < |entries| && k < |entries|
    requires EntryLe(entries[j], entries[k]) && EntryLe(entries[k], entries[j])
    ensures j == k
  {
    var keys := KeysOf(entries);
    var a, b := keys[j], keys[k];
    LexTotal(Utf16(a), Utf16(b));
    assert a in keys && b in keys;
    FromUnitsOfUtf16(a);
    FromUnitsOfUtf16(b);
  }

  /** The first fault in sorted order is the one whose key sorts before those of the others. */
  lemma {:induction false} FirstFaultSortsFirst(entries: seq<PyEntry>, sorted: seq<PyEntry>, i: nat) returns (k: nat)
    requires GoodKeys(KeysOf(entries)) && sorted == Sort(EntryLe, entries)
    requires i < |sorted| && forall j :: 0 <= j < i ==> Serialized(sorted[j].value).Ok?
    ensures k < |entries| && entries[k] == sorted[i]
    ensures forall j :: 0 <= j < |entries| && EntryLe(entries[j], entries[k]) && j != k ==> Admitted(entries[j].value)
  {
    JsonReader.KeyOrder();
    SortSorts(EntryLe, entries);
    SortKeepsElements(EntryLe, entries);
    assert sorted[i] in multiset(entries);
    k :| 0 <= k < |entries| && entries[k] == sorted[i];
    forall j | 0 <= j < |entries| && EntryLe(entries[j], entries[k]) && j != k
      ensures Admitted(entries[j].value)
    {
      assert entries[j] in multiset(sorted);
      var m :| 0 <= m < |sorted| && sorted[m] == entries[j];
      if m >= i {
        assert EntryLe(sorted[i], sorted[m]) || i == m;
        KeysOrder(entries, j, k);
      }
      EncodedExactly(entries[j].value);
    }
  }

  lemma {:induction false} FirstFailure<T>(rs: seq<Result<T, Failure>>, n: nat) returns (i: nat)
    requires n < |rs| && rs[n].Err?
    ensures i <= n && rs[i].Err? && forall j :: 0 <= j < i ==> rs[j].Ok?
  {
    i := 0;
    while rs[i].Ok?
      invariant i <= n && forall j :: 0 <= j < i ==> rs[j].Ok?
      decreases n - i
    {
      i := i + 1;
    }
  }

  lemma {:induction false} PlaceInSorted(entries: seq<PyEntry>, sorted: seq<PyEntry>, k: nat) returns (n: nat)
    requires sorted == Sort(EntryLe, entries) && k < |entries|
    ensures n < |sorted| && sorted[n] == entries[k]
    ensures forall i :: 0 <= i < n ==> EntryLe(sorted[i], sorted[n]) && sorted[i] in entries
  {
    JsonReader.KeyOrder();
    SortSorts(EntryLe, entries);
    SortKeepsElements(EntryLe, entries);
    assert entries[k] in multiset(sorted);
    n :| 0 <= n < |sorted| && sorted[n] == entries[k];
    forall i | 0 <= i < n
      ensures sorted[i] in entries
    {
      assert sorted[i] in multiset(entries);
    }
  }

  /** A fault that sorts before all others is the first in sorted order. */
  lemma {:induction false} SortsFirstIsFirstFault(entries: seq<PyEntry>, sorted: seq<PyEntry>, k: nat) returns (i: nat)
    requires sorted == Sort(EntryLe, entries) && k < |entries| && Serialized(entries[k].value).Err?
    requires forall j :: 0 <= j < |entries| && EntryLe(entries[j], entries[k]) && j != k ==> Admitted(entries[j].value)
    ensures i < |sorted| && sorted[i] == entries[k] && forall j :: 0 <= j < i ==> Serialized(sorted[j].value).Ok?
  {
    var n := PlaceInSorted(entries, sorted, k);
    var rs := seq(|sorted|, j requires 0 <= j < |sorted| => Serialized(sorted[j].value));
    i := FirstFailure(rs, n);
    assert forall j :: 0 <= j < i ==> rs[j] == Serialized(sorted[j].value);
    if i < n {
      var j :| 0 <= j < |entries| && entries[j] == sorted[i];
      EncodedExactly(entries[j].value);
    }
  }

  /** A member with a scalar key fails as its value does. */
  lemma {:induction false} MembersFailAsValues(sorted: seq<PyEntry>, f: Failure)
    requires forall i :: 0 <= i < |sorted| ==> IsScalar(sorted[i].key)
    ensures Collect(Map(Member, Map(Render, sorted))) == Err(f) <==>
            exists i :: 0 <= i < |sorted| && Serialized(sorted[i].value) == Err(f)
              && forall j :: 0 <= j < i ==> Serialized(sorted[j].value).Ok?
  {
    var rs := Map(Member, Map(Render, sorted));
    CollectFailsAtFirst(rs, f);
    forall i | 0 <= i < |sorted|
      ensures rs[i].Ok? <==> Serialized(sorted[i].value).Ok?
      ensures rs[i] == Err(f) <==> Serialized(sorted[i].value) == Err(f)
    {
      assert rs[i] == Member(Render(sorted[i]));
    }
    if i :| 0 <= i < |sorted| && Serialized(sorted[i].value) == Err(f)
            && forall j :: 0 <= j < i ==> Serialized(sorted[j].value).Ok? {
      assert rs[i] == Err(f);
    }
  }

  lemma {:induction false} SortedKeysAreScalar(entries: seq<PyEntry>)
    requires GoodKeys(KeysOf(entries))
    ensures forall i :: 0 <= i < |entries| ==> IsScalar(Sort(EntryLe, entries)[i].key)
  {
    var sorted := Sort(EntryLe, entries);
    SortKeepsElements(EntryLe, entries);
    forall i | 0 <= i < |entries|
      ensures IsScalar(sorted[i].key)
    {
      assert sorted[i] in multiset(entries);
      var k :| 0 <= k < |entries| && entries[k] == sorted[i];
      assert KeysOf(entries)[k] in KeysOf(entries);
    }
  }

  lemma {:induction false} ObjectFails(entries: seq<PyEntry>, f: Failure)
    requires GoodKeys(KeysOf(entries))
    ensures Serialized(Obj(entries)) == Err(f) <==>
            exists k :: 0 <= k < |entries| && Serialized(entries[k].value) == Err(f)
              && forall j :: 0 <= j < |entries| && EntryLe(entries[j], entries[k]) && j != k ==> Admitted(entries[j].value)
  {
    var sorted := Sort(EntryLe, entries);
    SerializedObject(entries);
    KeyFailureExactly(KeysOf(entries), {});
    MembersOfSorted(entries);
    SortedKeysAreScalar(entries);
    MembersFailAsValues(sorted, f);
    assert Serialized(Obj(entries)) == Err(f) <==> Collect(Map(Member, Map(Render, sorted))) == Err(f);
    if Serialized(Obj(entries)) == Err(f) {
      var i :| 0 <= i < |sorted| && Serialized(sorted[i].value) == Err(f)
               && forall j :: 0 <= j < i ==> Serialized(sorted[j].value).Ok?;
      var k := FirstFaultSortsFirst(entries, sorted, i);
    }
    if k :| 0 <= k < |entries| && Serialized(entries[k].value) == Err(f)
            && forall j :: 0 <= j < |entries| && EntryLe(entries[j], entries[k]) && j != k ==> Admitted(entries[j].value) {
      var i := SortsFirstIsFirstFault(entries, sorted, k);
    }
  }

  // ---------- values ----------

  lemma {:induction false} DoubleFails(x: Number, f: Failure)
    ensures DoubleText(x) == Err(f) <==> Fails(Double(x), f)
  {
    DoubleExactly(x);
    if IsPlain(x) {
      IntegralExactly(x);
    }
  }

  /** A value is refused with the error of its first fault. */
  lemma {:induction false} RefusedExactly(v: PyValue, f: Failure)
    ensures Serialized(v) == Err(f) <==> Fails(v, f)
    ensures Encoded(v) == Err(f) <==> Fails(v, f)
  {
    match v {
      case Null =>
      case Bool(_) =>
      case Integer(n) => SafeIntegers(n);
      case Double(x) => DoubleFails(x, f);
      case Str(_) =>
      case Arr(items) =>
        ArrayFails(items, f);
        forall i | 0 <= i < |items|
          ensures Serialized(items[i]) == Err(f) <==> Fails(items[i], f)
        {
          RefusedExactly(items[i], f);
        }
      case Obj(entries) =>
        if GoodKeys(KeysOf(entries)) {
          ObjectFails(entries, f);
          forall i | 0 <= i < |entries|
            ensures Serialized(entries[i].value) == Err(f) <==> Fails(entries[i].value, f)
          {
            RefusedExactly(entries[i].value, f);
          }
        } else {
          SerializedObject(entries);
          KeyFailureExactly(KeysOf(entries), {});
          KeyFailureExactlyWhich(KeysOf(entries), f);
        }
    }
  }
}
