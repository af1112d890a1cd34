/** The encoder over code points: conformance/encode-json-utf8-lf-v0/encoder.py without injected faults. */
module PythonEncoder {
  import opened Wrappers
  import opened Bytes
  import opened Unicode
  import opened Numbers
  import opened JsonValues
  import opened Sorting

  type PyValue = Value<Text>
  type PyEntry = Entry<Text>
  type PyResult = Result<Text, Failure>

  // ---------- strings ----------

  function Hex4(c: int): Text
    requires 0 <= c < 0x10000
  {
    [HexDigit(c / 0x1000), HexDigit(c / 0x100 % 16), HexDigit(c / 16 % 16), HexDigit(c % 16)]
  }

  /** One character between quotes. */
  function EscapedChar(c: CodePoint): Text {
    if c == QUOTE then [BACKSLASH, QUOTE]
    else if c == BACKSLASH then [BACKSLASH, BACKSLASH]
    else if c == 8 then [BACKSLASH, 'b' as int]
    else if c == 9 then [BACKSLASH, 't' as int]
    else if c == 10 then [BACKSLASH, 'n' as int]
    else if c == 12 then [BACKSLASH, 'f' as int]
    else if c == 13 then [BACKSLASH, 'r' as int]
    else if c <= 0x1F then [BACKSLASH, 'u' as int] + Hex4(c)
    else [c]
  }

  function EscapedChars(t: Text): Text {
    if t == [] then [] else EscapedChar(t[0]) + EscapedChars(t[1..])
  }

  function Quoted(t: Text): Text {
    [QUOTE] + EscapedChars(t) + [QUOTE]
  }

  function Escaped(t: Text, key: bool): PyResult {
    if IsScalar(t) then Ok(Quoted(t)) else Err(if key then NonScalarKey else NonScalarString)
  }

  lemma {:induction false} EscapedSnoc(t: Text, c: CodePoint)
    ensures EscapedChars(t + [c]) == EscapedChars(t) + EscapedChar(c)
  {
    if t == [] {
      var rest: Text := (t + [c])[1..];
      assert rest == [];
    } else {
      assert (t + [c])[1..] == t[1..] + [c];
      EscapedSnoc(t[1..], c);
    }
  }

  lemma {:induction false} EscapedPrefix(t: Text, i: nat, piece: Text)
    requires i < |t| && piece == EscapedChar(t[i])
    ensures [QUOTE] + EscapedChars(t[..i + 1]) == [QUOTE] + EscapedChars(t[..i]) + piece
  {
    assert t[..i + 1] == t[..i] + [t[i]];
    EscapedSnoc(t[..i], t[i]);
  }

  method EscapeChar(c: CodePoint) returns (piece: Text)
    ensures piece == EscapedChar(c)
  {
    if c == QUOTE {
      piece := [BACKSLASH, QUOTE];
    } else if c == BACKSLASH {
      piece := [BACKSLASH, BACKSLASH];
    } else if c == 8 {
      piece := [BACKSLASH, 'b' as int];
    } else if c == 9 {
      piece := [BACKSLASH, 't' as int];
    } else if c == 10 {
      piece := [BACKSLASH, 'n' as int];
    } else if c == 12 {
      piece := [BACKSLASH, 'f' as int];
    } else if c == 13 {
      piece := [BACKSLASH, 'r' as int];
    } else if c <= 0x1F {
      piece := [BACKSLASH, 'u' as int] + Hex4(c);
    } else {
      piece := [c];
    }
  }

  method EscapeString(value: Text, key: bool) returns (r: PyResult)
    ensures r == Escaped(value, key)
  {
    var out: Text := [QUOTE];
    for i := 0 to |value|
      invariant forall k :: 0 <= k < i ==> !IsSurrogate(value[k])
      invariant out == [QUOTE] + EscapedChars(value[..i])
    {
      var c := value[i];
      if 0xD800 <= c <= 0xDFFF {
        return Err(if key then NonScalarKey else NonScalarString);
      }
      var piece := EscapeChar(c);
      EscapedPrefix(value, i, piece);
      out := out + piece;
    }
    assert value[..|value|] == value;
    return Ok(out + [QUOTE]);
  }

  // ---------- numbers ----------

  function IntegerText(v: int): PyResult {
    if Abs(v) > SAFE_INTEGER then Err(IntegerOutOfRange) else Ok(EcmascriptNumber(FromInteger(v)))
  }

  function DoubleText(x: Number): PyResult {
    if x.NonFinite? then Err(NonFiniteNumber)
    else if x.NegativeZero? then Err(NegativeZeroNumber)
    else if x.Finite? && IsInteger(x) && Magnitude(x) > SAFE_INTEGER then Err(IntegerOutOfRange)
    else Ok(EcmascriptNumber(x))
  }

  // ---------- objects ----------

  /** The first key that repeats or is not scalar, in the order of the entries. */
  function KeyFailure(keys: seq<Text>, seen: set<Text>): Option<Failure> {
    if keys == [] then None
    else if keys[0] in seen then Some(DuplicateKey)
    else if !IsScalar(keys[0]) then Some(NonScalarKey)
    else KeyFailure(keys[1..], seen + {keys[0]})
  }

  method CheckKeys(entries: seq<PyEntry>) returns (failure: Option<Failure>)
    ensures failure == KeyFailure(KeysOf(entries), {})
  {
    var seen := {};
    ghost var keys := KeysOf(entries);
    for i := 0 to |entries|
      invariant KeyFailure(keys, {}) == KeyFailure(keys[i..], seen)
    {
      var key := entries[i].key;
      assert keys[i..][0] == key && keys[i..][1..] == keys[i + 1..];
      if key in seen {
        return Some(DuplicateKey);
      }
      seen := seen + {key};
      if !IsScalar(key) {
        return Some(NonScalarKey);
      }
    }
    return None;
  }

  predicate KeyLe(a: Text, b: Text) {
    LexLe(Utf16(a), Utf16(b))
  }

  function Member(m: Rendered<Text, Text>): PyResult {
    match Escaped(m.key, true)
    case Err(e) => Err(e)
    case Ok(k) => MapOk((t: Text) => k + [COLON] + t, m.text)
  }

  predicate RenderedLe(a: Rendered<Text, Text>, b: Rendered<Text, Text>) {
    KeyLe(a.key, b.key)
  }

  predicate EntryLe(a: PyEntry, b: PyEntry) {
    KeyLe(a.key, b.key)
  }

  function Members(ms: seq<Rendered<Text, Text>>): Result<seq<Text>, Failure> {
    Collect(Map(Member, Sort(RenderedLe, ms)))
  }

  function Bracketed(open: string, parts: seq<Text>, close: string): Text {
    Literal(open) + Joined<CodePoint>(parts, [COMMA]) + Literal(close)
  }

  // ---------- values ----------

  /** The text of a value: objects list their members in the order of the UTF-16 units of the keys. */
  function Serialized(v: PyValue): PyResult {
    match v
    case Null => Ok(Literal("null"))
    case Bool(b) => Ok(Literal(if b then "true" else "false"))
    case Integer(n) => IntegerText(n)
    case Double(x) => DoubleText(x)
    case Str(s) => Escaped(s, false)
    case Arr(items) =>
      var texts := seq(|items|, i requires 0 <= i < |items| => Serialized(items[i]));
      MapOk(parts => Bracketed("[", parts, "]"), Collect(texts))
    case Obj(entries) =>
      match KeyFailure(KeysOf(entries), {})
      case Some(e) => Err(e)
      case None =>
        var ms := seq(|entries|, i requires 0 <= i < |entries| =>
          Rendered(entries[i].key, Serialized(entries[i].value)));
        MapOk(parts => Bracketed("{", parts, "}"), Members(ms))
  }

  function Render(e: PyEntry): Rendered<Text, Text> {
    Rendered(e.key, Serialized(e.value))
  }

  /** Rendering members and then sorting them is sorting the entries and then rendering them. */
  lemma {:induction false} MembersOfSorted(entries: seq<PyEntry>)
    ensures Members(Map(Render, entries)) == Collect(Map(Member, Map(Render, Sort(EntryLe, entries))))
  {
    SortMap(Render, EntryLe, RenderedLe, entries);
  }

  lemma {:induction false} SerializedArray(items: seq<PyValue>)
    ensures Serialized(Arr(items)) == MapOk(parts => Bracketed("[", parts, "]"), Collect(Map(Serialized, items)))
  {
    var texts := seq(|items|, i requires 0 <= i < |items| => Serialized(items[i]));
    assert texts == Map(Serialized, items);
  }

  lemma {:induction false} SerializedObject(entries: seq<PyEntry>)
    ensures Serialized(Obj(entries)) ==
            match KeyFailure(KeysOf(entries), {})
            case Some(e) => Err(e)
            case None => MapOk(parts => Bracketed("{", parts, "}"), Members(Map(Render, entries)))
  {
    var ms := seq(|entries|, i requires 0 <= i < |entries| =>
      Rendered(entries[i].key, Serialized(entries[i].value)));
    assert ms == Map(Render, entries);
  }

  // ---------- the serializer ----------

  method Serialize(value: PyValue) returns (r: PyResult)
    ensures r == Serialized(value)
    decreases value, 1
  {
    match value {
      case Null => r := Ok(Literal("null"));
      case Bool(b) => r := Ok(Literal(if b then "true" else "false"));
      case Integer(n) => r := IntegerText(n);
      case Double(x) => r := DoubleText(x);
      case Str(s) => r := EscapeString(s, false);
      case Arr(items) => r := SerializeItems(value, items);
      case Obj(entries) => r := SerializeObject(value, entries);
    }
  }

  method SerializeItems(ghost value: PyValue, items: seq<PyValue>) returns (r: PyResult)
    requires value == Arr(items)
    ensures r == Serialized(value)
    decreases value, 0
  {
    ghost var texts := Map(Serialized, items);
    SerializedArray(items);
    var parts: seq<Text> := [];
    for i := 0 to |items|
      invariant Collect(texts[..i]) == Ok(parts)
    {
      var part := Serialize(items[i]);
      CollectStep(texts, i);
      if part.Err? {
        return Err(part.error);
      }
      parts := parts + [part.value];
    }
    assert texts[..|items|] == texts;
    return Ok(Bracketed("[", parts, "]"));
  }

  method SerializeObject(ghost value: PyValue, entries: seq<PyEntry>) returns (r: PyResult)
    requires value == Obj(entries)
    ensures r == Serialized(value)
    decreases value, 0
  {
    SerializedObject(entries);
    MembersOfSorted(entries);
    var failure := CheckKeys(entries);
    if failure.Some? {
      return Err(failure.value);
    }
    var sorted := Sort(EntryLe, entries);
    SortKeepsElements(EntryLe, entries);
    ghost var texts := Map(Member, Map(Render, sorted));
    var parts: seq<Text> := [];
    for i := 0 to |sorted|
      invariant Collect(texts[..i]) == Ok(parts)
    {
      ValueBelow(value, entries, sorted, i);
      CollectStep(texts, i);
      var key := EscapeString(sorted[i].key, true);
      if key.Err? {
        return Err(key.error);
      }
      var part := Serialize(sorted[i].value);
      if part.Err? {
        return Err(part.error);
      }
      parts := parts + [key.value + [COLON] + part.value];
    }
    assert texts[..|sorted|] == texts;
    return Ok(Bracketed("{", parts, "}"));
  }

  // ---------- bytes ----------

  function EncodedText(t: Text): Bytes {
    Utf8(t) + [10]
  }

  function Encoded(v: PyValue): Result<Bytes, Failure> {
    MapOk(EncodedText, Serialized(v))
  }

  method Encode(value: PyValue) returns (r: Result<Bytes, Failure>)
    ensures r == Encoded(value)
  {
    var body := Serialize(value);
    match body {
      case Err(e) => r := Err(e);
      case Ok(t) => r := Ok(Utf8(t) + [10]);
    }
  }
}
