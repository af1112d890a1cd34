/** The two encoders write the same bytes and report the same failures. */
module EncodersAgree {
  import opened Unicode
  import opened Radix
  import opened Numbers
  import opened JsonValues
  import opened Sorting
  import Py = PythonEncoder
  import Ts = TypeScriptEncoder

  /** The value that a Python reader gets where a JavaScript reader gets v: pairs of surrogates are joined. */
  function FromTs(v: Ts.TsValue): Py.PyValue {
    match v
    case Null => Null
    case Bool(b) => Bool(b)
    case Integer(n) => Integer(n)
    case Double(x) => Double(x)
    case Str(s) => Str(FromUnits(s))
    case Arr(items) => Arr(seq(|items|, i requires 0 <= i < |items| => FromTs(items[i])))
    case Obj(entries) => Obj(seq(|entries|, i requires 0 <= i < |entries| =>
        Entry(FromUnits(entries[i].key), FromTs(entries[i].value))))
  }

  function EntryFromTs(e: Ts.TsEntry): Py.PyEntry {
    Entry(FromUnits(e.key), FromTs(e.value))
  }

  // ---------- strings ----------

  /** Text of the basic multilingual plane is its own units. */
  lemma {:induction false} Utf16Basic(t: Text)
    requires forall i :: 0 <= i < |t| ==> t[i] < 0x10000
    ensures Utf16(t) == t
  {
    if t != [] {
      Utf16Basic(t[1..]);
      assert t == [t[0]] + t[1..];
    }
  }

  lemma {:induction false} FromUnitsInjective(u: Units, w: Units)
    requires FromUnits(u) == FromUnits(w)
    ensures u == w
  {
    Utf16OfFromUnits(u);
    Utf16OfFromUnits(w);
  }

  lemma {:induction false} SmallHex(c: int)
    requires 0 <= c <= 0x1F
    ensures Ts.PaddedHex(c) == Py.Hex4(c)
  {
    if c == 0 {
      assert Minimal(16, 0) == [];
      assert Ts.Zeros4(3) == [ZERO, ZERO, ZERO];
    } else if c < 16 {
      assert Minimal(16, c) == Minimal(16, 0) + [c];
      assert Minimal(16, c) == [c];
      assert Ts.Zeros4(3) == [ZERO, ZERO, ZERO];
    } else {
      assert Minimal(16, 1) == Minimal(16, 0) + [1];
      assert Minimal(16, c) == Minimal(16, 1) + [c - 16];
      assert Minimal(16, c) == [1, c - 16];
      assert Ts.Zeros4(2) == [ZERO, ZERO];
    }
  }

  lemma {:induction false} EscapedCharAgrees(c: CodePoint)
    requires c < 0x10000
    ensures Py.EscapedChar(c) == Ts.EscapedUnit(c)
    ensures forall i :: 0 <= i < |Py.EscapedChar(c)| ==> Py.EscapedChar(c)[i] < 0x10000
  {
    if c <= 0x1F {
      SmallHex(c);
    }
  }

  lemma {:induction false} EscapedPairAgrees(c: CodePoint, rest: Units, u: Units)
    requires c >= 0x10000 && u == Utf16Of(c) + rest
    ensures Ts.EscapedUnits(u) == Utf16(Py.EscapedChar(c)) + Ts.EscapedUnits(rest)
  {
    SplitInverts(c);
    assert u[..2] == Utf16Of(c) && u[2..] == rest;
    Utf16One(c);
  }

  lemma {:induction false} EscapedFirstAgrees(c: CodePoint, rest: Units)
    requires !IsSurrogate(c)
    ensures Ts.EscapedUnits(Utf16Of(c) + rest) == Utf16(Py.EscapedChar(c)) + Ts.EscapedUnits(rest)
  {
    var u := Utf16Of(c) + rest;
    if c >= 0x10000 {
      EscapedPairAgrees(c, rest, u);
    } else {
      assert u[0] == c && u[1..] == rest;
      EscapedCharAgrees(c);
      Utf16Basic(Py.EscapedChar(c));
    }
  }

  /** The escaped units are the units of the escaped characters. */
  lemma {:induction false} EscapedAgrees(t: Text)
    requires IsScalar(t)
    ensures Utf16(Py.EscapedChars(t)) == Ts.EscapedUnits(Utf16(t))
  {
    if t != [] {
      EscapedAgrees(t[1..]);
      Utf16Concat(Py.EscapedChar(t[0]), Py.EscapedChars(t[1..]));
      assert !IsSurrogate(t[0]);
      EscapedFirstAgrees(t[0], Utf16(t[1..]));
    }
  }

  lemma {:induction false} Utf16One(c: CodePoint)
    ensures Utf16([c]) == Utf16Of(c)
  {
    var none: Text := [c][1..];
    assert none == [];
    assert Utf16([c]) == Utf16Of(c) + Utf16(none);
  }

  /** Both escape the same strings, and to the same text; both refuse the others. */
  lemma {:induction false} QuotedAgrees(u: Units, key: bool)
    ensures Ts.EscapedTs(u, key) == MapOk(Utf16, Py.Escaped(FromUnits(u), key))
  {
    var t := FromUnits(u);
    if IsScalar(t) {
      Utf16OfFromUnits(u);
      EscapedAgrees(t);
      Utf16One(QUOTE);
      Utf16Concat([QUOTE] + Py.EscapedChars(t), [QUOTE]);
      Utf16Concat([QUOTE], Py.EscapedChars(t));
    }
  }

  // ---------- numbers and literals ----------

  lemma {:induction false} NumberAgrees(x: Number)
    requires !x.NonFinite?
    ensures Ts.Stringify(x) == Utf16(EcmascriptNumber(x))
  {
    RespellingIsPrescribed(x);
    SpellingIsNumeric(x);
    Utf16Basic(NumberToString(x));
  }

  lemma {:induction false} IntegersAgree(v: int)
    ensures Ts.IntegerUnits(v) == MapOk(Utf16, Py.IntegerText(v))
  {
    NumberAgrees(FromInteger(v));
  }

  lemma {:induction false} DoublesAgree(x: Number)
    ensures Ts.DoubleUnits(x) == MapOk(Utf16, Py.DoubleText(x))
  {
    if !x.NonFinite? {
      NumberAgrees(x);
    }
  }

  lemma {:induction false} LiteralAgrees(s: string)
    ensures Utf16(Literal(s)) == Literal(s)
  {
    Utf16Basic(Literal(s));
  }

  // ---------- keys ----------

  /** Both orders of the two checks on a key find the same failure: a repeated key was scalar the first time. */
  lemma {:induction false} KeyFailureAgrees(keys: seq<Units>, texts: seq<Text>, seen: set<Units>, seenTexts: set<Text>)
    requires |texts| == |keys| && forall i :: 0 <= i < |keys| ==> texts[i] == FromUnits(keys[i])
    requires forall u :: u in seen <==> FromUnits(u) in seenTexts
    requires forall t :: t in seenTexts ==> IsScalar(t)
    ensures Ts.KeyFailureTs(keys, seen) == Py.KeyFailure(texts, seenTexts)
  {
    if keys != [] && IsScalar(texts[0]) && texts[0] !in seenTexts {
      var seen', seenTexts' := seen + {keys[0]}, seenTexts + {texts[0]};
      forall u
        ensures u in seen' <==> FromUnits(u) in seenTexts'
      {
        if FromUnits(u) == texts[0] {
          FromUnitsInjective(u, keys[0]);
        }
      }
      KeyFailureAgrees(keys[1..], texts[1..], seen', seenTexts');
    }
  }

  lemma {:induction false} NoKeyFailureMeansScalar(keys: seq<Text>, seen: set<Text>)
    requires Py.KeyFailure(keys, seen).None?
    ensures forall k :: k in keys ==> IsScalar(k)
  {
    if keys != [] {
      NoKeyFailureMeansScalar(keys[1..], seen + {keys[0]});
      assert keys == [keys[0]] + keys[1..];
    }
  }

  // ---------- joining ----------

  lemma {:induction false} JoinedAgrees(parts: seq<Text>)
    ensures Utf16(Joined<CodePoint>(parts, [COMMA])) == Joined<Unit>(Map(Utf16, parts), [COMMA])
  {
    var images := Map(Utf16, parts);
    if |parts| > 1 {
      var rest := Joined<CodePoint>(parts[1..], [COMMA]);
      JoinedAgrees(parts[1..]);
      assert images[1..] == Map(Utf16, parts[1..]);
      Utf16One(COMMA);
      Utf16Concat(parts[0] + [COMMA], rest);
      Utf16Concat(parts[0], [COMMA]);
    }
  }

  lemma {:induction false} BracketedAgrees(open: string, parts: seq<Text>, close: string)
    ensures Utf16(Py.Bracketed(open, parts, close)) == Ts.BracketedTs(open, Map(Utf16, parts), close)
  {
    var body := Joined<CodePoint>(parts, [COMMA]);
    JoinedAgrees(parts);
    LiteralAgrees(open);
    LiteralAgrees(close);
    Utf16Concat(Literal(open) + body, Literal(close));
    Utf16Concat(Literal(open), body);
  }

  /** Converting what was collected is collecting what was converted. */
  lemma {:induction false} CollectMapped(rs: seq<Py.PyResult>, us: seq<Ts.TsResult>)
    requires |us| == |rs| && forall i :: 0 <= i < |rs| ==> us[i] == MapOk(Utf16, rs[i])
    ensures Collect(us) == MapOk(parts => Map(Utf16, parts), Collect(rs))
  {
    if rs != [] {
      CollectMapped(rs[1..], us[1..]);
      if rs[0].Ok? && Collect(rs[1..]).Ok? {
        var xs := Collect(rs[1..]).value;
        assert Map(Utf16, [rs[0].value] + xs) == [Utf16(rs[0].value)] + Map(Utf16, xs);
      }
    } else {
      assert Map(Utf16, []) == [];
    }
  }

  // ---------- members ----------

  /** A rendered member, in units. */
  function InUnits(m: Rendered<Text, Text>): Rendered<Units, Units> {
    Rendered(Utf16(m.key), MapOk(Utf16, m.text))
  }

  lemma {:induction false} MemberAgrees(m: Rendered<Text, Text>)
    requires IsScalar(m.key)
    ensures Ts.MemberTs(InUnits(m)) == MapOk(Utf16, Py.Member(m))
  {
    FromUnitsOfUtf16(m.key);
    QuotedAgrees(Utf16(m.key), true);
    if m.text.Ok? {
      var k := Py.Quoted(m.key);
      Utf16One(COLON);
      Utf16Concat(k + [COLON], m.text.value);
      Utf16Concat(k, [COLON]);
    }
  }

  /** Sorting by units commutes with converting to units. */
  lemma {:induction false} MembersAgree(ms: seq<Rendered<Text, Text>>)
    requires forall m :: m in ms ==> IsScalar(m.key)
    ensures Ts.MembersTs(Map(InUnits, ms)) == MapOk(parts => Map(Utf16, parts), Py.Members(ms))
  {
    var sorted := Sort(Py.RenderedLe, ms);
    SortMap(InUnits, Py.RenderedLe, Ts.RenderedLeTs, ms);
    SortKeepsElements(Py.RenderedLe, ms);
    var rs, us := Map(Py.Member, sorted), Map(Ts.MemberTs, Map(InUnits, sorted));
    forall i | 0 <= i < |sorted|
      ensures us[i] == MapOk(Utf16, rs[i])
    {
      assert sorted[i] in multiset(ms);
      MemberAgrees(sorted[i]);
    }
    CollectMapped(rs, us);
  }

  // ---------- values ----------

  /** On every value, admitted or not, both serializers give the same text or the same failure. */
  lemma {:induction false} SerializersAgree(v: Ts.TsValue)
    ensures Ts.SerializedTs(v) == MapOk(Utf16, Py.Serialized(FromTs(v)))
    decreases v, 1
  {
    match v {
      case Null => LiteralAgrees("null");
      case Bool(b) => LiteralAgrees(if b then "true" else "false");
      case Integer(n) => IntegersAgree(n);
      case Double(x) => DoublesAgree(x);
      case Str(s) => QuotedAgrees(s, false);
      case Arr(items) => ArraysAgree(v, items);
      case Obj(entries) => ObjectsAgree(v, entries);
    }
  }

  lemma {:induction false} ArraysAgree(v: Ts.TsValue, items: seq<Ts.TsValue>)
    requires v == Arr(items)
    ensures Ts.SerializedTs(v) == MapOk(Utf16, Py.Serialized(FromTs(v)))
    decreases v, 0
  {
    var images := Map(FromTs, items);
    assert FromTs(v) == Arr(images) by {
      assert FromTs(v).items == images;
    }
    Ts.SerializedArray(items);
    Py.SerializedArray(images);
    var rs, us := Map(Py.Serialized, images), Map(Ts.SerializedTs, items);
    forall i | 0 <= i < |items|
      ensures us[i] == MapOk(Utf16, rs[i])
    {
      SerializersAgree(items[i]);
    }
    CollectMapped(rs, us);
    if Collect(rs).Ok? {
      BracketedAgrees("[", Collect(rs).value, "]");
    }
  }

  lemma {:induction false} ObjectsAgree(v: Ts.TsValue, entries: seq<Ts.TsEntry>)
    requires v == Obj(entries)
    ensures Ts.SerializedTs(v) == MapOk(Utf16, Py.Serialized(FromTs(v)))
    decreases v, 0
  {
    var images := Map(EntryFromTs, entries);
    assert FromTs(v) == Obj(images) by {
      assert FromTs(v).entries == images;
    }
    Ts.SerializedObject(entries);
    Py.SerializedObject(images);
    var keys := KeysOf(images);
    KeyFailureAgrees(KeysOf(entries), keys, {}, {});
    if Py.KeyFailure(keys, {}).None? {
      NoKeyFailureMeansScalar(keys, {});
      var ms, us := Map(Py.Render, images), Map(Ts.RenderTs, entries);
      forall i | 0 <= i < |entries|
        ensures us[i] == InUnits(ms[i]) && IsScalar(ms[i].key)
      {
        SerializersAgree(entries[i].value);
        Utf16OfFromUnits(entries[i].key);
        assert keys[i] in keys;
      }
      assert us == Map(InUnits, ms);
      MembersAgree(ms);
      if Py.Members(ms).Ok? {
        BracketedAgrees("{", Py.Members(ms).value, "}");
      }
    }
  }
}
