/** The encoder over UTF-16 code units: conformance/encode-json-utf8-lf-v0/encoder.ts. */
module TypeScriptEncoder {
  import opened Wrappers
  import opened Bytes
  import opened Unicode
  import opened Radix
  import opened Numbers
  import opened JsonValues
  import opened Sorting

  type TsValue = Value<Units>
  type TsEntry = Entry<Units>
  type TsResult = Result<Units, Failure>

  // ---------- strings ----------

  /** What the units spell is a string of Unicode scalar values. */
  predicate ScalarUnits(u: Units) {
    IsScalar(FromUnits(u))
  }

  lemma {:induction false} ScalarStep(u: Units)
    requires u != []
    ensures ScalarUnits(u) <==>
            if IsHigh(u[0]) then |u| > 1 && IsLow(u[1]) && ScalarUnits(u[2..]) else !IsLow(u[0]) && ScalarUnits(u[1..])
  {
    var t := FromUnits(u);
    var rest := t[1..];
    assert IsScalar(t) <==> !IsSurrogate(t[0]) && IsScalar(rest) by {
      assert t == [t[0]] + rest;
    }
  }

  function Invalid(u: Units, key: bool): Option<Failure> {
    if ScalarUnits(u) then None else Some(if key then NonScalarKey else NonScalarString)
  }

  /** The scan for surrogates accepts exactly the units of scalar strings. */
  method ScalarError(value: Units, key: bool) returns (failure: Option<Failure>)
    ensures failure == Invalid(value, key)
  {
    var index := 0;
    while index < |value|
      invariant 0 <= index <= |value|
      invariant ScalarUnits(value) <==> ScalarUnits(value[index..])
    {
      var unit := value[index];
      ScalarStep(value[index..]);
      if IsHigh(unit) {
        if index + 1 >= |value| {
          return Some(if key then NonScalarKey else NonScalarString);
        }
        var low := value[index + 1];
        if low < 0xDC00 || low > 0xDFFF {
          return Some(if key then NonScalarKey else NonScalarString);
        }
        assert value[index..][2..] == value[index + 2..];
        index := index + 1;
      } else if IsLow(unit) {
        return Some(if key then NonScalarKey else NonScalarString);
      } else {
        assert value[index..][1..] == value[index + 1..];
      }
      index := index + 1;
    }
    return None;
  }

  lemma {:induction false} LexLeAfterPrefix(a: seq<int>, b: seq<int>, i: nat)
    requires i <= |a| && i <= |b| && a[..i] == b[..i]
    ensures LexLe(a, b) <==> LexLe(a[i..], b[i..])
  {
    if i > 0 {
      assert a[0] == a[..i][0] == b[..i][0] == b[0];
      assert a[1..][..i - 1] == a[..i][1..] && b[1..][..i - 1] == b[..i][1..];
      LexLeAfterPrefix(a[1..], b[1..], i - 1);
      assert a[1..][i - 1..] == a[i..] && b[1..][i - 1..] == b[i..];
    }
  }

  /** Comparing unit by unit is the lexicographic order of the units; only equal strings compare as equal. */
  method CompareUtf16(left: Units, right: Units) returns (c: int)
    ensures c <= 0 <==> LexLe(left, right)
    ensures c >= 0 <==> LexLe(right, left)
    ensures c == 0 <==> left == right
  {
    var shared := if |left| < |right| then |left| else |right|;
    for index := 0 to shared
      invariant left[..index] == right[..index]
    {
      var a, b := left[index], right[index];
      if a != b {
        LexLeAfterPrefix(left, right, index);
        LexLeAfterPrefix(right, left, index);
        return if a < b then -1 else 1;
      }
    }
    LexLeAfterPrefix(left, right, shared);
    LexLeAfterPrefix(right, left, shared);
    return |left| - |right|;
  }

  /** The hexadecimal digits of a unit, padded on the left to four. */
  function PaddedHex(unit: Unit): Units {
    var digits := if unit == 0 then [0] else Minimal(16, unit);
    NumOfMinimal(16, unit);
    Zeros4(4 - |digits|) + seq(|digits|, i requires 0 <= i < |digits| => HexDigit(digits[i]))
  }

  function Zeros4(n: int): Units {
    if n <= 0 then [] else [ZERO] + Zeros4(n - 1)
  }

  function EscapedUnit(unit: Unit): Units {
    if unit == 0x22 then [BACKSLASH, QUOTE]
    else if unit == 0x5C then [BACKSLASH, BACKSLASH]
    else if unit == 0x08 then [BACKSLASH, 'b' as int]
    else if unit == 0x0C then [BACKSLASH, 'f' as int]
    else if unit == 0x0A then [BACKSLASH, 'n' as int]
    else if unit == 0x0D then [BACKSLASH, 'r' as int]
    else if unit == 0x09 then [BACKSLASH, 't' as int]
    else if unit <= 0x1F then [BACKSLASH, 'u' as int] + PaddedHex(unit)
    else [unit]
  }

  /** Pairs are copied; other units are escaped one by one. */
  function EscapedUnits(u: Units): Units {
    if u == [] then []
    else if IsHigh(u[0]) && |u| > 1 then u[..2] + EscapedUnits(u[2..])
    else EscapedUnit(u[0]) + EscapedUnits(u[1..])
  }

  function QuotedUnits(u: Units): Units {
    [QUOTE] + EscapedUnits(u) + [QUOTE]
  }

  function EscapedTs(u: Units, key: bool): TsResult {
    match Invalid(u, key)
    case Some(e) => Err(e)
    case None => Ok(QuotedUnits(u))
  }

  method EscapeUnit(unit: Unit) returns (piece: Units)
    ensures piece == EscapedUnit(unit)
  {
    if unit == 0x22 {
      piece := [BACKSLASH, QUOTE];
    } else if unit == 0x5C {
      piece := [BACKSLASH, BACKSLASH];
    } else if unit == 0x08 {
      piece := [BACKSLASH, 'b' as int];
    } else if unit == 0x0C {
      piece := [BACKSLASH, 'f' as int];
    } else if unit == 0x0A {
      piece := [BACKSLASH, 'n' as int];
    } else if unit == 0x0D {
      piece := [BACKSLASH, 'r' as int];
    } else if unit == 0x09 {
      piece := [BACKSLASH, 't' as int];
    } else if unit <= 0x1F {
      piece := [BACKSLASH, 'u' as int] + PaddedHex(unit);
    } else {
      piece := [unit];
    }
  }

  method EscapeString(value: Units, key: bool) returns (r: TsResult)
    ensures r == EscapedTs(value, key)
  {
    var invalid := ScalarError(value, key);
    if invalid.Some? {
      return Err(invalid.value);
    }
    var out: Units := [QUOTE];
    var index := 0;
    while index < |value|
      invariant 0 <= index <= |value| && ScalarUnits(value[index..])
      invariant out + EscapedUnits(value[index..]) == [QUOTE] + EscapedUnits(value)
    {
      var unit := value[index];
      ScalarStep(value[index..]);
      EscapedStep(value, index, out);
      if IsHigh(unit) {
        out := out + [value[index], value[index + 1]];
        index := index + 2;
      } else {
        var piece := EscapeUnit(unit);
        out := out + piece;
        index := index + 1;
      }
    }
    assert out == [QUOTE] + EscapedUnits(value);
    return Ok(out + [QUOTE]);
  }

  lemma {:induction false} EscapedStep(value: Units, i: nat, out: Units)
    requires i < |value| && ScalarUnits(value[i..])
    ensures IsHigh(value[i]) ==> i + 1 < |value| && ScalarUnits(value[i + 2..])
    ensures IsHigh(value[i]) ==>
              out + EscapedUnits(value[i..]) == out + [value[i], value[i + 1]] + EscapedUnits(value[i + 2..])
    ensures !IsHigh(value[i]) ==> ScalarUnits(value[i + 1..])
    ensures !IsHigh(value[i]) ==>
              out + EscapedUnits(value[i..]) == out + EscapedUnit(value[i]) + EscapedUnits(value[i + 1..])
  {
    var u := value[i..];
    ScalarStep(u);
    if IsHigh(u[0]) {
      assert u[..2] == [value[i], value[i + 1]] && u[2..] == value[i + 2..];
    } else {
      assert u[1..] == value[i + 1..];
    }
  }

  // ---------- numbers ----------

  /** JSON.stringify of a number. */
  function Stringify(x: Number): Units
    requires !x.NonFinite?
  {
    SpellingIsNumeric(x);
    NumberToString(x)
  }

  function IntegerUnits(v: int): TsResult {
    if v < -SAFE_INTEGER || v > SAFE_INTEGER then Err(IntegerOutOfRange) else Ok(Stringify(FromInteger(v)))
  }

  function DoubleUnits(x: Number): TsResult {
    if x.NonFinite? then Err(NonFiniteNumber)
    else if x.NegativeZero? then Err(NegativeZeroNumber)
    else if x.Finite? && IsInteger(x) && Magnitude(x) > SAFE_INTEGER then Err(IntegerOutOfRange)
    else Ok(Stringify(x))
  }

  // ---------- objects ----------

  /** The first key that is not scalar or repeats, in the order of the entries. */
  function KeyFailureTs(keys: seq<Units>, seen: set<Units>): Option<Failure> {
    if keys == [] then None
    else if !ScalarUnits(keys[0]) then Some(NonScalarKey)
    else if keys[0] in seen then Some(DuplicateKey)
    else KeyFailureTs(keys[1..], seen + {keys[0]})
  }

  method CheckKeys(entries: seq<TsEntry>) returns (failure: Option<Failure>)
    ensures failure == KeyFailureTs(KeysOf(entries), {})
  {
    var seen := {};
    ghost var keys := KeysOf(entries);
    for i := 0 to |entries|
      invariant KeyFailureTs(keys, {}) == KeyFailureTs(keys[i..], seen)
    {
      var key := entries[i].key;
      assert keys[i..][0] == key && keys[i..][1..] == keys[i + 1..];
      var invalid := ScalarError(key, true);
      if invalid.Some? {
        return invalid;
      }
      if key in seen {
        return Some(DuplicateKey);
      }
      seen := seen + {key};
    }
    return None;
  }

  function MemberTs(m: Rendered<Units, Units>): TsResult {
    match EscapedTs(m.key, true)
    case Err(e) => Err(e)
    case Ok(k) => MapOk((t: Units) => k + [COLON] + t, m.text)
  }

  predicate RenderedLeTs(a: Rendered<Units, Units>, b: Rendered<Units, Units>) {
    LexLe(a.key, b.key)
  }

  predicate EntryLeTs(a: TsEntry, b: TsEntry) {
    LexLe(a.key, b.key)
  }

  function MembersTs(ms: seq<Rendered<Units, Units>>): Result<seq<Units>, Failure> {
    Collect(Map(MemberTs, Sort(RenderedLeTs, ms)))
  }

  function BracketedTs(open: string, parts: seq<Units>, close: string): Units {
    Literal(open) + Joined<Unit>(parts, [COMMA]) + Literal(close)
  }

  // ---------- values ----------

  function SerializedTs(v: TsValue): TsResult {
    match v
    case Null => Ok(Literal("null"))
    case Bool(b) => Ok(Literal(if b then "true" else "false"))
    case Str(s) => EscapedTs(s, false)
    case Arr(items) =>
      var texts := seq(|items|, i requires 0 <= i < |items| => SerializedTs(items[i]));
      MapOk(parts => BracketedTs("[", parts, "]"), Collect(texts))
    case Double(x) => DoubleUnits(x)
    case Integer(n) => IntegerUnits(n)
    case Obj(entries) =>
      match KeyFailureTs(KeysOf(entries), {})
      case Some(e) => Err(e)
      case None =>
        var ms := seq(|entries|, i requires 0 <= i < |entries| =>
          Rendered(entries[i].key, SerializedTs(entries[i].value)));
        MapOk(parts => BracketedTs("{", parts, "}"), MembersTs(ms))
  }

  function RenderTs(e: TsEntry): Rendered<Units, Units> {
    Rendered(e.key, SerializedTs(e.value))
  }

  /** Rendering members and then sorting them is sorting the entries and then rendering them. */
  lemma {:induction false} MembersOfSorted(entries: seq<TsEntry>)
    ensures MembersTs(Map(RenderTs, entries)) == Collect(Map(MemberTs, Map(RenderTs, Sort(EntryLeTs, entries))))
  {
    SortMap(RenderTs, EntryLeTs, RenderedLeTs, entries);
  }

  lemma {:induction false} SerializedArray(items: seq<TsValue>)
    ensures SerializedTs(Arr(items)) == MapOk(parts => BracketedTs("[", parts, "]"), Collect(Map(SerializedTs, items)))
  {
    var texts := seq(|items|, i requires 0 <= i < |items| => SerializedTs(items[i]));
    assert texts == Map(SerializedTs, items);
  }

  lemma {:induction false} SerializedObject(entries: seq<TsEntry>)
    ensures SerializedTs(Obj(entries)) ==
            match KeyFailureTs(KeysOf(entries), {})
            case Some(e) => Err(e)
            case None => MapOk(parts => BracketedTs("{", parts, "}"), MembersTs(Map(RenderTs, entries)))
  {
    var ms := seq(|entries|, i requires 0 <= i < |entries| =>
      Rendered(entries[i].key, SerializedTs(entries[i].value)));
    assert ms == Map(RenderTs, entries);
  }

  // ---------- the serializer ----------

  method Serialize(value: TsValue) returns (r: TsResult)
    ensures r == SerializedTs(value)
    decreases value, 1
  {
    match value {
      case Null => r := Ok(Literal("null"));
      case Bool(b) => r := Ok(Literal(if b then "true" else "false"));
      case Str(s) => r := EscapeString(s, false);
      case Arr(items) => r := SerializeItems(value, items);
      case Double(x) => r := DoubleUnits(x);
      case Integer(n) => r := IntegerUnits(n);
      case Obj(entries) => r := SerializeObject(value, entries);
    }
  }

  method SerializeItems(ghost value: TsValue, items: seq<TsValue>) returns (r: TsResult)
    requires value == Arr(items)
    ensures r == SerializedTs(value)
    decreases value, 0
  {
    ghost var texts := Map(SerializedTs, items);
    SerializedArray(items);
    var parts: seq<Units> := [];
    for i := 0 to |items|
      invariant Collect(texts[..i]) == Ok(parts)
    {
      var part := Serialize(items[i]);
      CollectStep(texts, i);
      if part.Err? {
        return Err(part.error);
      }
      parts := parts + [part.value];
    }
    assert texts[..|items|] == texts;
    return Ok(BracketedTs("[", parts, "]"));
  }

  method SerializeObject(ghost value: TsValue, entries: seq<TsEntry>) returns (r: TsResult)
    requires value == Obj(entries)
    ensures r == SerializedTs(value)
    decreases value, 0
  {
    SerializedObject(entries);
    MembersOfSorted(entries);
    var failure := CheckKeys(entries);
    if failure.Some? {
      return Err(failure.value);
    }
    var sorted := Sort(EntryLeTs, entries);
    SortKeepsElements(EntryLeTs, entries);
    ghost var texts := Map(MemberTs, Map(RenderTs, sorted));
    var parts: seq<Units> := [];
    for i := 0 to |sorted|
      invariant Collect(texts[..i]) == Ok(parts)
    {
      ValueBelow(value, entries, sorted, i);
      CollectStep(texts, i);
      var key := EscapeString(sorted[i].key, true);
      if key.Err? {
        return Err(key.error);
      }
      var part := Serialize(sorted[i].value);
      if part.Err? {
        return Err(part.error);
      }
      parts := parts + [key.value + [COLON] + part.value];
    }
    assert texts[..|sorted|] == texts;
    return Ok(BracketedTs("{", parts, "}"));
  }

  // ---------- bytes ----------

  /** TextEncoder writes a replacement character for an unpaired surrogate. */
  function Replaced(t: Text): Text {
    seq(|t|, i requires 0 <= i < |t| => if IsSurrogate(t[i]) then 0xFFFD else t[i])
  }

  function TextEncoded(u: Units): Bytes {
    Utf8(Replaced(FromUnits(u)))
  }

  function EncodedUnits(u: Units): Bytes {
    TextEncoded(u + [10])
  }

  function EncodedTs(v: TsValue): Result<Bytes, Failure> {
    MapOk(EncodedUnits, SerializedTs(v))
  }

  method Encode(value: TsValue) returns (r: Result<Bytes, Failure>)
    ensures r == EncodedTs(value)
  {
    var body := Serialize(value);
    match body {
      case Err(e) => r := Err(e);
      case Ok(t) => r := Ok(TextEncoded(t + [10]));
    }
  }
}
