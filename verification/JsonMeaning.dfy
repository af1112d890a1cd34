/** Which values are admitted, and that encodings are equal exactly for values that mean the same. */
module JsonMeaning {
  import opened Unicode
  import opened Numbers
  import opened NumberValues
  import opened JsonValues
  import opened Sorting
  import opened PythonEncoder
  import opened JsonReader
  import Radix
  import Base32

  // ---------- sequences without repetition ----------

  ghost predicate Distinct<T(!new)>(s: seq<T>) {
    forall i, j :: 0 <= i < j < |s| ==> s[i] != s[j]
  }

  lemma {:induction false} DistinctByCount<T(!new)>(s: seq<T>)
    ensures Distinct(s) <==> forall x :: multiset(s)[x] <= 1
  {
    if s != [] {
      DistinctByCount(s[1..]);
      assert s == [s[0]] + s[1..];
      if Distinct(s) {
        assert s[0] !in s[1..];
      }
      if forall x :: multiset(s)[x] <= 1 {
        forall x
          ensures multiset(s[1..])[x] <= 1
        {
          assert multiset(s)[x] <= 1;
        }
        assert multiset(s)[s[0]] <= 1;
        assert s[0] !in multiset(s[1..]);
        assert forall j :: 1 <= j < |s| ==> s[j] == s[1..][j - 1] && s[1..][j - 1] in s[1..];
      }
    }
  }

  lemma {:induction false} SetOfDistinct<T(!new)>(s: seq<T>, u: set<T>)
    requires Distinct(s) && forall x :: x in u <==> x in s
    ensures |u| == |s|
  {
    if s == [] {
      assert u == {};
    } else {
      assert s == [s[0]] + s[1..];
      assert s[0] !in s[1..];
      SetOfDistinct(s[1..], u - {s[0]});
    }
  }

  /** Two sequences of equal length without repetition: containment one way makes the contents equal. */
  lemma {:induction false} SameContents<T(!new)>(a: seq<T>, b: seq<T>)
    requires Distinct(a) && Distinct(b) && |a| == |b|
    requires forall x :: x in a ==> x in b
    ensures multiset(a) == multiset(b)
  {
    var u, w := set x | x in a, set x | x in b;
    SetOfDistinct(a, u);
    SetOfDistinct(b, w);
    SubsetOfSameSize(u, w);
    DistinctByCount(a);
    DistinctByCount(b);
    forall x
      ensures multiset(a)[x] == multiset(b)[x]
    {
      assert x in u <==> x in w;
    }
  }

  lemma {:induction false} SubsetOfSameSize<T>(u: set<T>, w: set<T>)
    requires u <= w && |u| == |w|
    ensures u == w
  {
    assert |w - u| == |w| - |u|;
  }

  // ---------- admitted values ----------

  /** The integers whose predecessor and successor are doubles too. */
  predicate IsSafe(n: int) {
    -Radix.Pow(2, 53) < n < Radix.Pow(2, 53)
  }

  lemma {:induction false} SafeIntegers(n: int)
    ensures IsSafe(n) <==> -SAFE_INTEGER <= n <= SAFE_INTEGER
  {
    Base32.Pow2Small();
    Base32.Pow2Adds(5, 5);
    Base32.Pow2Adds(10, 10);
    Base32.Pow2Adds(20, 20);
    Base32.Pow2Adds(40, 10);
    Base32.Pow2Adds(50, 3);
  }

  ghost predicate AdmittedNumber(x: Number) {
    !x.NonFinite? && !x.NegativeZero? && (IsIntegral(Amount64(x)) ==> IsSafe(Amount64(x).Floor))
  }

  lemma {:induction false} DoubleExactly(x: Number)
    ensures DoubleText(x).Ok? <==> AdmittedNumber(x)
  {
    if IsPlain(x) {
      IntegralExactly(x);
      SafeIntegers(Amount64(x).Floor);
      if x.Finite? && IsInteger(x) {
        MagnitudeIsAmount(x);
        AmountSign(x);
      }
    }
  }

  ghost predicate Admitted(v: PyValue) {
    match v
    case Null => true
    case Bool(_) => true
    case Integer(n) => IsSafe(n)
    case Double(x) => AdmittedNumber(x)
    case Str(s) => IsScalar(s)
    case Arr(items) => forall i :: 0 <= i < |items| ==> Admitted(items[i])
    case Obj(entries) =>
      && (forall i :: 0 <= i < |entries| ==> IsScalar(entries[i].key) && Admitted(entries[i].value))
      && (forall i, j :: 0 <= i < j < |entries| ==> entries[i].key != entries[j].key)
  }

  ghost predicate GoodKeys(keys: seq<Text>) {
    Distinct(keys) && forall k :: k in keys ==> IsScalar(k)
  }

  lemma {:induction false} KeyFailureExactly(keys: seq<Text>, seen: set<Text>)
    ensures KeyFailure(keys, seen).None? <==> GoodKeys(keys) && forall k :: k in keys ==> k !in seen
  {
    if keys != [] {
      var k := keys[0];
      KeyFailureExactly(keys[1..], seen + {k});
      assert keys == [k] + keys[1..];
      if GoodKeys(keys) {
        assert k !in keys[1..];
      }
      if KeyFailure(keys, seen).None? {
        assert forall j :: 1 <= j < |keys| ==> keys[j] == keys[1..][j - 1] && keys[1..][j - 1] in keys[1..];
      }
    }
  }

  lemma {:induction false} KeysOfEntries(entries: seq<PyEntry>)
    ensures KeyFailure(KeysOf(entries), {}).None? <==>
            && (forall i :: 0 <= i < |entries| ==> IsScalar(entries[i].key))
            && (forall i, j :: 0 <= i < j < |entries| ==> entries[i].key != entries[j].key)
  {
    var keys := KeysOf(entries);
    KeyFailureExactly(keys, {});
    if GoodKeys(keys) {
      forall i | 0 <= i < |entries|
        ensures IsScalar(entries[i].key)
      {
        assert keys[i] in keys;
      }
      forall i, j | 0 <= i < j < |entries|
        ensures entries[i].key != entries[j].key
      {
        assert keys[i] != keys[j];
      }
    } else if Distinct(keys) {
      var k :| k in keys && !IsScalar(k);
      var i :| 0 <= i < |keys| && keys[i] == k;
      assert !IsScalar(entries[i].key);
    } else {
      var i, j :| 0 <= i < j < |keys| && keys[i] == keys[j];
      assert entries[i].key == entries[j].key;
    }
  }

  lemma {:induction false} MembersExactly(entries: seq<PyEntry>)
    requires forall i :: 0 <= i < |entries| ==> IsScalar(entries[i].key)
    ensures Members(Map(Render, entries)).Ok? <==> forall i :: 0 <= i < |entries| ==> Serialized(entries[i].value).Ok?
  {
    var sorted := Sort(EntryLe, entries);
    var rs := Map(Member, Map(Render, sorted));
    MembersOfSorted(entries);
    SortKeepsElements(EntryLe, entries);
    CollectExactly(rs);
    forall i | 0 <= i < |sorted|
      ensures rs[i].Ok? <==> Serialized(sorted[i].value).Ok?
      ensures exists k :: 0 <= k < |entries| && entries[k] == sorted[i]
    {
      assert sorted[i] in multiset(entries);
    }
    forall k | 0 <= k < |entries|
      ensures exists i :: 0 <= i < |sorted| && sorted[i] == entries[k]
    {
      assert entries[k] in multiset(sorted);
    }
  }

  /** A value is encoded exactly when it is in the domain; everything else is refused. */
  lemma {:induction false} EncodedExactly(v: PyValue)
    ensures Serialized(v).Ok? <==> Admitted(v)
    ensures Encoded(v).Ok? <==> Admitted(v)
  {
    match v {
      case Null =>
      case Bool(b) =>
      case Integer(n) => SafeIntegers(n);
      case Double(x) => DoubleExactly(x);
      case Str(s) =>
      case Arr(items) =>
        SerializedArray(items);
        CollectExactly(Map(Serialized, items));
        forall i | 0 <= i < |items|
          ensures Serialized(items[i]).Ok? <==> Admitted(items[i])
        {
          EncodedExactly(items[i]);
        }
      case Obj(entries) =>
        SerializedObject(entries);
        KeysOfEntries(entries);
        forall i | 0 <= i < |entries|
          ensures Serialized(entries[i].value).Ok? <==> Admitted(entries[i].value)
        {
          EncodedExactly(entries[i].value);
        }
        if KeyFailure(KeysOf(entries), {}).None? {
          MembersExactly(entries);
        }
    }
  }

  // ---------- the same meaning ----------

  predicate IsNumber(v: PyValue) {
    v.Integer? || (v.Double? && IsPlain(v.x))
  }

  function AmountOf(v: PyValue): real
    requires IsNumber(v)
  {
    if v.Integer? then v.v as real else Amount64(v.x)
  }

  /** Equal up to the order of members, with numbers compared as real numbers. */
  ghost predicate Same(v: PyValue, w: PyValue)
    decreases v
  {
    match v
    case Null => w.Null?
    case Bool(b) => w == v
    case Integer(n) => IsNumber(w) && AmountOf(w) == AmountOf(v)
    case Double(x) => IsNumber(v) && IsNumber(w) && AmountOf(w) == AmountOf(v)
    case Str(s) => w == v
    case Arr(items) =>
      w.Arr? && |w.items| == |items| && forall i :: 0 <= i < |items| ==> Same(items[i], w.items[i])
    case Obj(entries) =>
      && w.Obj? && |w.entries| == |entries|
      && forall i :: 0 <= i < |entries| ==>
           exists j :: 0 <= j < |w.entries| && w.entries[j].key == entries[i].key && Same(entries[i].value, w.entries[j].value)
  }

  lemma {:induction false} NumbersSameExactly(v: PyValue, w: PyValue)
    requires Admitted(v) && Admitted(w) && (v.Integer? || v.Double?)
    ensures Same(v, w) <==> Canon(v) == Canon(w)
  {
    if v.Integer? {
      IntegerAmount(v.v);
    }
    if w.Integer? {
      IntegerAmount(w.v);
    }
    if w.Integer? || w.Double? {
      assert IsNumber(v) && IsNumber(w);
      assert AmountOf(v) == Amount64(Canon(v).x) && AmountOf(w) == Amount64(Canon(w).x);
      if AmountOf(v) == AmountOf(w) {
        AmountDetermines(Canon(v).x, Canon(w).x);
      }
    }
  }

  lemma {:induction false} Utf16InjectiveOnScalar(s: Text, t: Text)
    requires IsScalar(s) && IsScalar(t) && Utf16(s) == Utf16(t)
    ensures s == t
  {
    FromUnitsOfUtf16(s);
    FromUnitsOfUtf16(t);
  }

  /** Distinct scalar keys are told apart by their units. */
  lemma {:induction false} KeysTellApart(v: PyValue, entries: seq<PyEntry>, es: seq<PyEntry>)
    requires v == Obj(entries) && Admitted(v) && es == Map(CanonEntry, entries)
    ensures AntisymmetricOn(EntryLe, es) && Distinct(es)
  {
    forall x, y | x in es && y in es && EntryLe(x, y) && EntryLe(y, x)
      ensures x == y
    {
      var i :| 0 <= i < |es| && es[i] == x;
      var j :| 0 <= j < |es| && es[j] == y;
      LexTotal(Utf16(x.key), Utf16(y.key));
      Utf16InjectiveOnScalar(entries[i].key, entries[j].key);
      assert i == j;
    }
    forall i, j | 0 <= i < j < |es|
      ensures es[i] != es[j]
    {
      assert entries[i].key != entries[j].key;
    }
  }

  /** For admitted values, having one canonical form is meaning the same. */
  lemma {:induction false} SameExactly(v: PyValue, w: PyValue)
    requires Admitted(v) && Admitted(w)
    ensures Same(v, w) <==> Canon(v) == Canon(w)
    decreases v, 1
  {
    match v {
      case Null =>
      case Bool(b) =>
      case Integer(n) => NumbersSameExactly(v, w);
      case Double(x) => NumbersSameExactly(v, w);
      case Str(s) =>
      case Arr(items) =>
        if w.Arr? {
          ArraysSameExactly(v, w, items, w.items);
        }
      case Obj(entries) =>
        if w.Obj? {
          ObjectsSameExactly(v, w, entries, w.entries);
        }
    }
  }

  lemma {:induction false} ArraysSameExactly(v: PyValue, w: PyValue, items: seq<PyValue>, others: seq<PyValue>)
    requires v == Arr(items) && w == Arr(others) && Admitted(v) && Admitted(w)
    ensures Same(v, w) <==> Canon(v) == Canon(w)
    decreases v, 0
  {
    CanonOfArray(items);
    CanonOfArray(others);
    var a, b := Map(Canon, items), Map(Canon, others);
    if |items| == |others| {
      forall i | 0 <= i < |items|
        ensures Same(items[i], others[i]) <==> a[i] == b[i]
      {
        SameExactly(items[i], others[i]);
      }
    }
  }

  lemma {:induction false} ObjectsSameExactly(v: PyValue, w: PyValue, entries: seq<PyEntry>, others: seq<PyEntry>)
    requires v == Obj(entries) && w == Obj(others) && Admitted(v) && Admitted(w)
    ensures Same(v, w) <==> Canon(v) == Canon(w)
    decreases v, 0
  {
    var a, b := Map(CanonEntry, entries), Map(CanonEntry, others);
    forall i, j | 0 <= i < |entries| && 0 <= j < |others|
      ensures Same(entries[i].value, others[j].value) <==> Canon(entries[i].value) == Canon(others[j].value)
    {
      SameExactly(entries[i].value, others[j].value);
    }
    CanonOfObject(entries);
    CanonOfObject(others);
    if Same(v, w) {
      SameGivesOneForm(v, w, entries, others, a, b);
    }
    if Sort(EntryLe, a) == Sort(EntryLe, b) {
      OneFormGivesSame(v, w, entries, others, a, b);
    }
  }

  lemma {:induction false} SameGivesOneForm(v: PyValue, w: PyValue, entries: seq<PyEntry>, others: seq<PyEntry>,
                                            a: seq<PyEntry>, b: seq<PyEntry>)
    requires v == Obj(entries) && w == Obj(others) && Admitted(v) && Admitted(w) && Same(v, w)
    requires a == Map(CanonEntry, entries) && b == Map(CanonEntry, others)
    requires forall i, j :: 0 <= i < |entries| && 0 <= j < |others| && Same(entries[i].value, others[j].value)
                        ==> Canon(entries[i].value) == Canon(others[j].value)
    ensures Sort(EntryLe, a) == Sort(EntryLe, b)
  {
    KeysTellApart(v, entries, a);
    KeysTellApart(w, others, b);
    forall x | x in a
      ensures x in b
    {
      var i :| 0 <= i < |a| && a[i] == x;
      var j :| 0 <= j < |others| && others[j].key == entries[i].key && Same(entries[i].value, others[j].value);
      assert b[j] == x;
    }
    SameContents(a, b);
    KeyOrder();
    SortIgnoresOrder(EntryLe, a, b);
  }

  lemma {:induction false} OneFormGivesSame(v: PyValue, w: PyValue, entries: seq<PyEntry>, others: seq<PyEntry>,
                                            a: seq<PyEntry>, b: seq<PyEntry>)
    requires v == Obj(entries) && w == Obj(others)
    requires a == Map(CanonEntry, entries) && b == Map(CanonEntry, others)
    requires forall i, j :: 0 <= i < |entries| && 0 <= j < |others| && Canon(entries[i].value) == Canon(others[j].value)
                        ==> Same(entries[i].value, others[j].value)
    requires Sort(EntryLe, a) == Sort(EntryLe, b)
    ensures Same(v, w)
  {
    forall i | 0 <= i < |entries|
      ensures exists j :: 0 <= j < |others| && others[j].key == entries[i].key && Same(entries[i].value, others[j].value)
    {
      var j := SameEntryIn(a, b, i);
      assert others[j].key == entries[i].key && Canon(others[j].value) == Canon(entries[i].value);
    }
  }

  lemma {:induction false} SameEntryIn(a: seq<PyEntry>, b: seq<PyEntry>, i: nat) returns (j: nat)
    requires i < |a| && Sort(EntryLe, a) == Sort(EntryLe, b)
    ensures j < |b| && b[j] == a[i]
  {
    SortKeepsElements(EntryLe, a);
    SortKeepsElements(EntryLe, b);
    assert a[i] in multiset(b);
    j :| 0 <= j < |b| && b[j] == a[i];
  }

  // ---------- the encoding depends on the meaning alone ----------

  lemma {:induction false} IntegerTextIsDoubleText(n: int)
    requires IsSafe(n)
    ensures IntegerText(n) == DoubleText(FromInteger(n))
  {
    SafeIntegers(n);
    IntegerAmount(n);
  }

  /** Putting a value into canonical form does not change its text. */
  lemma {:induction false} CanonKeepsText(v: PyValue)
    requires Admitted(v)
    ensures Serialized(Canon(v)) == Serialized(v)
    decreases v, 1
  {
    match v {
      case Null =>
      case Bool(b) =>
      case Integer(n) => IntegerTextIsDoubleText(n);
      case Double(x) =>
      case Str(s) =>
      case Arr(items) =>
        CanonOfArray(items);
        SerializedArray(items);
        SerializedArray(Map(Canon, items));
        forall i | 0 <= i < |items|
          ensures Serialized(Canon(items[i])) == Serialized(items[i])
        {
          CanonKeepsText(items[i]);
        }
        assert Map(Serialized, Map(Canon, items)) == Map(Serialized, items);
      case Obj(entries) => CanonKeepsObjectText(v, entries);
    }
  }

  lemma {:induction false} CanonKeepsObjectText(v: PyValue, entries: seq<PyEntry>)
    requires v == Obj(entries) && Admitted(v)
    ensures Serialized(Canon(v)) == Serialized(v)
    decreases v, 0
  {
    var es := Map(CanonEntry, entries);
    var sorted := Sort(EntryLe, es);
    CanonOfObject(entries);
    SerializedObject(entries);
    SerializedObject(sorted);
    forall i | 0 <= i < |entries|
      ensures Render(es[i]) == Render(entries[i])
    {
      CanonKeepsText(entries[i].value);
    }
    assert Map(Render, es) == Map(Render, entries);
    KeyOrder();
    SortSorts(EntryLe, es);
    SortOfSorted(EntryLe, sorted);
    SortMap(Render, EntryLe, RenderedLe, es);
    SortMap(Render, EntryLe, RenderedLe, sorted);
    KeysOfEntries(entries);
    SortedKeysAreGood(entries, es, sorted);
  }

  function KeyOf(e: PyEntry): Text {
    e.key
  }

  lemma {:induction false} SortedKeysAreGood(entries: seq<PyEntry>, es: seq<PyEntry>, sorted: seq<PyEntry>)
    requires es == Map(CanonEntry, entries) && sorted == Sort(EntryLe, es)
    requires KeyFailure(KeysOf(entries), {}).None?
    ensures KeyFailure(KeysOf(sorted), {}).None?
  {
    var keys, sortedKeys := KeysOf(entries), KeysOf(sorted);
    SortMap(KeyOf, EntryLe, KeyLe, es);
    assert keys == Map(KeyOf, es) && sortedKeys == Map(KeyOf, sorted);
    SortKeepsElements(KeyLe, keys);
    KeyFailureExactly(keys, {});
    KeyFailureExactly(sortedKeys, {});
    DistinctByCount(keys);
    DistinctByCount(sortedKeys);
    forall k | k in sortedKeys
      ensures IsScalar(k)
    {
      assert k in multiset(keys);
    }
  }

  /** Two admitted values have the same encoding exactly when they mean the same. */
  lemma {:induction false} EqualEncodingsExactly(v: PyValue, w: PyValue)
    requires Admitted(v) && Admitted(w)
    ensures Encoded(v) == Encoded(w) <==> Same(v, w)
  {
    EncodedExactly(v);
    EncodedExactly(w);
    SameExactly(v, w);
    if Encoded(v) == Encoded(w) {
      DecodeInvertsEncode(v, Encoded(v).value);
      DecodeInvertsEncode(w, Encoded(w).value);
    }
    if Same(v, w) {
      CanonKeepsText(v);
      CanonKeepsText(w);
    }
  }
}
