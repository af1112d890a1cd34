/** Which characters an encoding can hold; its only line feed is the last byte. */
module EncodedForm {
  import opened Wrappers
  import opened Bytes
  import opened Unicode
  import opened Numbers
  import opened JsonValues
  import opened Sorting
  import opened PythonEncoder
  import Ts = TypeScriptEncoder
  import opened EncodersAgree

  /** Neither control characters nor surrogates. */
  predicate Printable(t: Text) {
    forall i :: 0 <= i < |t| ==> t[i] >= 0x20 && !IsSurrogate(t[i])
  }

  predicate PrintableOk(r: PyResult) {
    r.Ok? ==> Printable(r.value)
  }

  lemma {:induction false} PrintableConcat(a: Text, b: Text)
    requires Printable(a) && Printable(b)
    ensures Printable(a + b)
  {
  }

  lemma {:induction false} EscapedIsPrintable(t: Text)
    requires IsScalar(t)
    ensures Printable(EscapedChars(t))
  {
    if t != [] {
      EscapedIsPrintable(t[1..]);
      assert !IsSurrogate(t[0]);
      PrintableConcat(EscapedChar(t[0]), EscapedChars(t[1..]));
    }
  }

  lemma {:induction false} QuotedIsPrintable(t: Text)
    requires IsScalar(t)
    ensures Printable(Quoted(t))
  {
    EscapedIsPrintable(t);
    PrintableConcat([QUOTE], EscapedChars(t));
    PrintableConcat([QUOTE] + EscapedChars(t), [QUOTE]);
  }

  lemma {:induction false} NumberIsPrintable(x: Number)
    requires !x.NonFinite?
    ensures Printable(EcmascriptNumber(x))
  {
    RespellingIsPrescribed(x);
    SpellingIsNumeric(x);
  }

  lemma {:induction false} JoinedIsPrintable(parts: seq<Text>)
    requires forall i :: 0 <= i < |parts| ==> Printable(parts[i])
    ensures Printable(Joined<CodePoint>(parts, [COMMA]))
  {
    if |parts| > 1 {
      JoinedIsPrintable(parts[1..]);
      PrintableConcat(parts[0], [COMMA]);
      PrintableConcat(parts[0] + [COMMA], Joined<CodePoint>(parts[1..], [COMMA]));
    }
  }

  lemma {:induction false} BracketedIsPrintable(open: string, rs: seq<PyResult>, close: string)
    requires Printable(Literal(open)) && Printable(Literal(close))
    requires forall i :: 0 <= i < |rs| ==> PrintableOk(rs[i])
    ensures Collect(rs).Ok? ==> Printable(Bracketed(open, Collect(rs).value, close))
  {
    CollectExactly(rs);
    if Collect(rs).Ok? {
      var parts := Collect(rs).value;
      assert forall i :: 0 <= i < |parts| ==> rs[i] == Ok(parts[i]);
      JoinedIsPrintable(parts);
      PrintableConcat(Literal(open), Joined<CodePoint>(parts, [COMMA]));
      PrintableConcat(Literal(open) + Joined<CodePoint>(parts, [COMMA]), Literal(close));
    }
  }

  lemma {:induction false} MemberIsPrintable(m: Rendered<Text, Text>)
    requires PrintableOk(m.text)
    ensures PrintableOk(Member(m))
  {
    if IsScalar(m.key) && m.text.Ok? {
      QuotedIsPrintable(m.key);
      PrintableConcat(Quoted(m.key), [COLON]);
      PrintableConcat(Quoted(m.key) + [COLON], m.text.value);
    }
  }

  /** Whatever was put in, the text has neither control characters nor surrogates. */
  lemma {:induction false} SerializedIsPrintable(v: PyValue)
    ensures PrintableOk(Serialized(v))
    decreases v, 1
  {
    match v {
      case Null =>
      case Bool(b) =>
      case Integer(n) => NumberIsPrintable(FromInteger(n));
      case Double(x) => if !x.NonFinite? { NumberIsPrintable(x); }
      case Str(s) => if IsScalar(s) { QuotedIsPrintable(s); }
      case Arr(items) =>
        SerializedArray(items);
        var rs := Map(Serialized, items);
        forall i | 0 <= i < |items|
          ensures PrintableOk(rs[i])
        {
          SerializedIsPrintable(items[i]);
        }
        BracketedIsPrintable("[", rs, "]");
      case Obj(entries) => ObjectIsPrintable(v, entries);
    }
  }

  lemma {:induction false} ObjectIsPrintable(v: PyValue, entries: seq<PyEntry>)
    requires v == Obj(entries)
    ensures PrintableOk(Serialized(v))
    decreases v, 0
  {
    SerializedObject(entries);
    var ms := Map(Render, entries);
    var sorted := Sort(RenderedLe, ms);
    SortKeepsElements(RenderedLe, ms);
    var rs := Map(Member, sorted);
    forall i | 0 <= i < |rs|
      ensures PrintableOk(rs[i])
    {
      assert sorted[i] in multiset(ms);
      var k :| 0 <= k < |ms| && ms[k] == sorted[i];
      SerializedIsPrintable(entries[k].value);
      MemberIsPrintable(sorted[i]);
    }
    BracketedIsPrintable("{", rs, "}");
  }

  /** The encoding of every admitted value ends in a line feed and holds no other. */
  lemma {:induction false} OnlyTheLastByteIsALineFeed(v: PyValue, b: Bytes)
    requires Encoded(v) == Ok(b)
    ensures b != [] && forall i :: 0 <= i < |b| ==> (b[i] == 10 <==> i == |b| - 1)
  {
    var t := Serialized(v).value;
    SerializedIsPrintable(v);
    assert 10 !in t;
    Utf8KeepsAscii(t, 10);
    assert b == Utf8(t) + [10];
    forall i | 0 <= i < |b| - 1
      ensures b[i] != 10
    {
      assert b[i] == Utf8(t)[i];
      assert Utf8(t)[i] in Utf8(t);
    }
  }

  lemma {:induction false} Utf8One()
    ensures Utf8([10]) == [10]
  {
    var t: Text := [10];
    var none: Text := t[1..];
    assert none == [];
    assert Utf8(t) == Utf8Of(10) + Utf8(none);
  }

  /** Nothing of a scalar text is replaced. */
  lemma {:induction false} TextEncoderKeepsScalars(t: Text)
    requires IsScalar(t)
    ensures Ts.TextEncoded(Utf16(t)) == Utf8(t)
  {
    FromUnitsOfUtf16(t);
    assert Ts.Replaced(t) == t;
  }

  lemma {:induction false} LineAgrees(t: Text)
    requires Printable(t)
    ensures Ts.EncodedUnits(Utf16(t)) == EncodedText(t)
  {
    Utf16Concat(t, [10]);
    Utf16One(10);
    assert IsScalar(t + [10]);
    TextEncoderKeepsScalars(t + [10]);
    Utf8Concat(t, [10]);
    Utf8One();
  }

  /** Both encoders write the same bytes for every value, or report the same failure. */
  lemma {:induction false} EncodersAgreeOnBytes(v: Ts.TsValue)
    ensures Ts.EncodedTs(v) == Encoded(FromTs(v))
  {
    SerializersAgree(v);
    SerializedIsPrintable(FromTs(v));
    if Serialized(FromTs(v)).Ok? {
      LineAgrees(Serialized(FromTs(v)).value);
    }
  }
}
