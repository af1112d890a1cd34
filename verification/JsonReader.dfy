/** A reader for the emitted language, and what it recovers from an encoding. */
module JsonReader {
  import opened Wrappers
  import opened Bytes
  import opened Unicode
  import opened Numbers
  import opened JsonValues
  import opened Sorting
  import opened PythonEncoder

  // ---------- strings ----------

  function HexValue(c: int): Option<int> {
    if '0' as int <= c <= '9' as int then Some(c - '0' as int)
    else if 'a' as int <= c <= 'f' as int then Some(c - 'a' as int + 10)
    else None
  }

  function Hex4Value(t: Text): Option<CodePoint>
    requires |t| >= 4
  {
    match (HexValue(t[0]), HexValue(t[1]), HexValue(t[2]), HexValue(t[3]))
    case (Some(a), Some(b), Some(c), Some(d)) => Some(a * 0x1000 + b * 0x100 + c * 16 + d)
    case _ => None
  }

  /** The character that a short escape stands for. */
  function ShortEscape(c: int): Option<CodePoint> {
    if c == QUOTE || c == BACKSLASH || c == '/' as int then Some(c)
    else if c == 'b' as int then Some(8)
    else if c == 't' as int then Some(9)
    else if c == 'n' as int then Some(10)
    else if c == 'f' as int then Some(12)
    else if c == 'r' as int then Some(13)
    else None
  }

  function Prepended(c: CodePoint, r: Option<(Text, Text)>): Option<(Text, Text)> {
    match r
    case None => None
    case Some((t, rest)) => Some(([c] + t, rest))
  }

  /** Reads up to and over the closing quote. */
  function ReadString(t: Text): (r: Option<(Text, Text)>)
    ensures r.Some? ==> |r.value.1| < |t|
  {
    if t == [] || t[0] < 0x20 then None
    else if t[0] == QUOTE then Some(([], t[1..]))
    else if t[0] != BACKSLASH then Prepended(t[0], ReadString(t[1..]))
    else if |t| < 2 then None
    else if t[1] == 'u' as int then
      if |t| < 6 then None
      else match Hex4Value(t[2..6])
        case None => None
        case Some(c) => Prepended(c, ReadString(t[6..]))
    else match ShortEscape(t[1])
      case None => None
      case Some(c) => Prepended(c, ReadString(t[2..]))
  }

  lemma {:induction false} ReadHexEscape(c: CodePoint, tail: Text)
    requires c <= 0x1F
    ensures ReadString([BACKSLASH, 'u' as int] + Hex4(c) + tail) == Prepended(c, ReadString(tail))
  {
    var t := [BACKSLASH, 'u' as int] + Hex4(c) + tail;
    assert t[2..6] == Hex4(c);
    assert t[6..] == tail;
    assert Hex4Value(Hex4(c)) == Some(c);
  }

  lemma {:induction false} ReadShortEscape(e: CodePoint, c: CodePoint, tail: Text)
    requires ShortEscape(e) == Some(c)
    ensures ReadString([BACKSLASH, e] + tail) == Prepended(c, ReadString(tail))
  {
    var t := [BACKSLASH, e] + tail;
    assert t[2..] == tail;
  }

  lemma {:induction false} ReadEscapedChar(c: CodePoint, tail: Text)
    ensures ReadString(EscapedChar(c) + tail) == Prepended(c, ReadString(tail))
  {
    if c == QUOTE || c == BACKSLASH {
      ReadShortEscape(c, c, tail);
    } else if c == 8 {
      ReadShortEscape('b' as int, 8, tail);
    } else if c == 9 {
      ReadShortEscape('t' as int, 9, tail);
    } else if c == 10 {
      ReadShortEscape('n' as int, 10, tail);
    } else if c == 12 {
      ReadShortEscape('f' as int, 12, tail);
    } else if c == 13 {
      ReadShortEscape('r' as int, 13, tail);
    } else if c <= 0x1F {
      ReadHexEscape(c, tail);
    } else {
      var t := [c] + tail;
      assert t[1..] == tail;
    }
  }

  /** Escaping loses nothing. */
  lemma {:induction false} ReadStringInverts(t: Text, rest: Text)
    ensures ReadString(EscapedChars(t) + [QUOTE] + rest) == Some((t, rest))
  {
    if t == [] {
      var all := EscapedChars(t) + [QUOTE] + rest;
      assert all[1..] == rest;
    } else {
      var tail := EscapedChars(t[1..]) + [QUOTE] + rest;
      ReadStringInverts(t[1..], rest);
      ReadEscapedChar(t[0], tail);
      assert EscapedChars(t) + [QUOTE] + rest == EscapedChar(t[0]) + tail;
      assert t == [t[0]] + t[1..];
    }
  }

  // ---------- values ----------

  function Follows(word: Text, t: Text): bool {
    |word| <= |t| && t[..|word|] == word
  }

  /** The length of the number that t starts with. */
  function NumberLength(t: Text): (n: nat)
    ensures n <= |t|
  {
    if t == [] || !IsNumeric(t[0]) then 0 else 1 + NumberLength(t[1..])
  }

  function ReadValue(t: Text): (r: Option<(PyValue, Text)>)
    ensures r.Some? ==> |r.value.1| < |t|
    decreases |t|, 0
  {
    if Follows(Literal("null"), t) then Some((Null, t[4..]))
    else if Follows(Literal("true"), t) then Some((Bool(true), t[4..]))
    else if Follows(Literal("false"), t) then Some((Bool(false), t[5..]))
    else if t == [] then None
    else if t[0] == QUOTE then
      match ReadString(t[1..])
      case None => None
      case Some((s, rest)) => Some((Str(s), rest))
    else if t[0] == '[' as int then
      if Follows(Literal("]"), t[1..]) then Some((Arr([]), t[2..]))
      else match ReadItems(t[1..])
        case None => None
        case Some((items, rest)) => Some((Arr(items), rest))
    else if t[0] == '{' as int then
      if Follows(Literal("}"), t[1..]) then Some((Obj([]), t[2..]))
      else match ReadMembers(t[1..])
        case None => None
        case Some((entries, rest)) => Some((Obj(entries), rest))
    else if IsDigit(t[0]) || t[0] == MINUS then ReadPlainNumber(t)
    else None
  }

  function ReadPlainNumber(t: Text): (r: Option<(PyValue, Text)>)
    requires t != [] && IsNumeric(t[0])
    ensures r.Some? ==> |r.value.1| < |t|
  {
    var n := NumberLength(t);
    var x := ParseNumber(t[..n]);
    if WellFormed(x) then Some((Double(x), t[n..])) else None
  }

  /** The items up to and over the closing bracket; there is at least one. */
  function ReadItems(t: Text): (r: Option<(seq<PyValue>, Text)>)
    ensures r.Some? ==> |r.value.1| < |t|
    decreases |t|, 1
  {
    match ReadValue(t)
    case None => None
    case Some((w, rest)) =>
      if Follows(Literal("]"), rest) then Some(([w], rest[1..]))
      else if !Follows([COMMA], rest) then None
      else match ReadItems(rest[1..])
        case None => None
        case Some((ws, after)) => Some(([w] + ws, after))
  }

  function ReadMember(t: Text): (r: Option<(PyEntry, Text)>)
    ensures r.Some? ==> |r.value.1| < |t|
    decreases |t|, 0
  {
    if !Follows([QUOTE], t) then None
    else match ReadString(t[1..])
      case None => None
      case Some((key, rest)) =>
        if !Follows([COLON], rest) then None
        else match ReadValue(rest[1..])
          case None => None
          case Some((w, after)) => Some((Entry(key, w), after))
  }

  /** The members up to and over the closing brace; there is at least one. */
  function ReadMembers(t: Text): (r: Option<(seq<PyEntry>, Text)>)
    ensures r.Some? ==> |r.value.1| < |t|
    decreases |t|, 1
  {
    match ReadMember(t)
    case None => None
    case Some((e, rest)) =>
      if Follows(Literal("}"), rest) then Some(([e], rest[1..]))
      else if !Follows([COMMA], rest) then None
      else match ReadMembers(rest[1..])
        case None => None
        case Some((es, after)) => Some(([e] + es, after))
  }

  /** The value of an encoding: a text, and a line feed after it. */
  function Decode(b: Bytes): Option<PyValue> {
    if b == [] || b[|b| - 1] != 10 then None
    else match ReadValue(FromUtf8(b[..|b| - 1]))
      case Some((w, rest)) => if rest == [] then Some(w) else None
      case None => None
  }

  // ---------- the canonical form of a value ----------

  /** Every number by its value, and every object's members in the order of the UTF-16 units of their keys. */
  function Canon(v: PyValue): PyValue {
    match v
    case Null => v
    case Bool(_) => v
    case Integer(n) => Double(FromInteger(n))
    case Double(_) => v
    case Str(_) => v
    case Arr(items) => Arr(seq(|items|, i requires 0 <= i < |items| => Canon(items[i])))
    case Obj(entries) =>
      var es := seq(|entries|, i requires 0 <= i < |entries| => Entry(entries[i].key, Canon(entries[i].value)));
      Obj(Sort(EntryLe, es))
  }

  function CanonEntry(e: PyEntry): PyEntry {
    Entry(e.key, Canon(e.value))
  }

  lemma {:induction false} CanonOfArray(items: seq<PyValue>)
    ensures Canon(Arr(items)) == Arr(Map(Canon, items))
  {
    var ws := seq(|items|, i requires 0 <= i < |items| => Canon(items[i]));
    assert ws == Map(Canon, items);
  }

  lemma {:induction false} CanonOfObject(entries: seq<PyEntry>)
    ensures Canon(Obj(entries)) == Obj(Sort(EntryLe, Map(CanonEntry, entries)))
  {
    var es := seq(|entries|, i requires 0 <= i < |entries| => Entry(entries[i].key, Canon(entries[i].value)));
    assert es == Map(CanonEntry, entries);
  }

  // ---------- what texts are read as ----------

  /** What follows cannot be part of a number. */
  predicate Ends(rest: Text) {
    rest == [] || !IsNumeric(rest[0])
  }

  ghost predicate Reads(s: Text, w: PyValue) {
    forall rest {:trigger ReadValue(s + rest)} :: Ends(rest) ==> ReadValue(s + rest) == Some((w, rest))
  }

  ghost predicate ReadsMember(s: Text, e: PyEntry) {
    forall rest {:trigger ReadMember(s + rest)} :: Ends(rest) ==> ReadMember(s + rest) == Some((e, rest))
  }

  lemma {:induction false} WordsRead()
    ensures Reads(Literal("null"), Null)
    ensures Reads(Literal("true"), Bool(true))
    ensures Reads(Literal("false"), Bool(false))
  {
    var n, t, f := Literal("null"), Literal("true"), Literal("false");
    forall rest
      ensures ReadValue(n + rest) == Some((Null, rest))
    {
      assert (n + rest)[..4] == n && (n + rest)[4..] == rest;
    }
    forall rest
      ensures ReadValue(t + rest) == Some((Bool(true), rest))
    {
      assert (t + rest)[..4] == t && (t + rest)[4..] == rest;
      assert (t + rest)[..4][0] == 't' as int && n[0] == 'n' as int;
    }
    forall rest
      ensures ReadValue(f + rest) == Some((Bool(false), rest))
    {
      assert (f + rest)[..5] == f && (f + rest)[5..] == rest;
      assert (f + rest)[..4][0] == f[0] == 'f' as int && n[0] == 'n' as int && t[0] == 't' as int;
    }
  }

  /** No word starts with c. */
  lemma {:induction false} NoWord(t: Text)
    requires t != [] && t[0] !in {'n' as int, 't' as int, 'f' as int}
    ensures !Follows(Literal("null"), t) && !Follows(Literal("true"), t) && !Follows(Literal("false"), t)
  {
    if |t| >= 4 {
      assert t[..4][0] == t[0];
      assert Literal("null")[0] == 'n' as int && Literal("true")[0] == 't' as int;
    }
    if |t| >= 5 {
      assert t[..5][0] == t[0];
      assert Literal("false")[0] == 'f' as int;
    }
  }

  lemma {:induction false} NumberLengthOf(s: Text, rest: Text)
    requires AllNumeric(s) && Ends(rest)
    ensures NumberLength(s + rest) == |s|
  {
    if s == [] {
      assert s + rest == rest;
    } else {
      assert (s + rest)[1..] == s[1..] + rest;
      NumberLengthOf(s[1..], rest);
    }
  }

  lemma {:induction false} NumberStarts(t: Text)
    requires t != [] && (IsDigit(t[0]) || t[0] == MINUS)
    ensures ReadValue(t) == ReadPlainNumber(t)
  {
    NoWord(t);
  }

  lemma {:induction false} PlainNumberReads(s: Text, x: Number, rest: Text)
    requires s != [] && AllNumeric(s) && ParseNumber(s) == x && Ends(rest)
    ensures ReadPlainNumber(s + rest) == Some((Double(x), rest))
  {
    NumberLengthOf(s, rest);
    assert (s + rest)[..|s|] == s && (s + rest)[|s|..] == rest;
  }

  lemma {:induction false} NumberReads(x: Number)
    requires x.Zero? || x.Finite?
    ensures Reads(EcmascriptNumber(x), Double(x))
  {
    var s := EcmascriptNumber(x);
    RespellingIsPrescribed(x);
    SpellingIsNumeric(x);
    ParseNumberInverts(x);
    forall rest | Ends(rest)
      ensures ReadValue(s + rest) == Some((Double(x), rest))
    {
      assert (s + rest)[0] == s[0];
      NumberStarts(s + rest);
      PlainNumberReads(s, x, rest);
    }
  }

  lemma {:induction false} StringReads(s: Text)
    ensures Reads(Quoted(s), Str(s))
  {
    forall rest
      ensures ReadValue(Quoted(s) + rest) == Some((Str(s), rest))
    {
      var t := Quoted(s) + rest;
      ReadStringInverts(s, rest);
      assert t[1..] == EscapedChars(s) + [QUOTE] + rest;
      NoWord(t);
    }
  }

  lemma {:induction false} MemberSteps(t: Text, key: Text, after: Text, w: PyValue, rest: Text)
    requires Follows([QUOTE], t) && ReadString(t[1..]) == Some((key, after))
    requires Follows([COLON], after) && ReadValue(after[1..]) == Some((w, rest))
    ensures ReadMember(t) == Some((Entry(key, w), rest))
  {
  }

  lemma {:induction false} MemberText(key: Text, s: Text, rest: Text, t: Text, after: Text)
    requires after == [COLON] + (s + rest)
    requires t == Quoted(key) + [COLON] + s + rest
    ensures Follows([QUOTE], t) && ReadString(t[1..]) == Some((key, after))
    ensures Follows([COLON], after) && after[1..] == s + rest
  {
    ReadStringInverts(key, after);
    assert t[1..] == EscapedChars(key) + [QUOTE] + after;
    assert t[..1] == [QUOTE] && after[..1] == [COLON];
  }

  lemma {:induction false} MemberReads(key: Text, s: Text, w: PyValue)
    requires Reads(s, w)
    ensures ReadsMember(Quoted(key) + [COLON] + s, Entry(key, w))
  {
    forall rest | Ends(rest)
      ensures ReadMember(Quoted(key) + [COLON] + s + rest) == Some((Entry(key, w), rest))
    {
      var t, after := Quoted(key) + [COLON] + s + rest, [COLON] + (s + rest);
      assert ReadValue(s + rest) == Some((w, rest));
      MemberText(key, s, rest, t, after);
      MemberSteps(t, key, after, w, rest);
    }
  }

  // ---------- lists ----------

  const CLOSE_BRACKET: Ascii := ']' as int
  const CLOSE_BRACE: Ascii := '}' as int

  lemma {:induction false} Closers()
    ensures Literal("]") == [CLOSE_BRACKET] && Literal("}") == [CLOSE_BRACE]
    ensures Literal("[") == ['[' as int] && Literal("{") == ['{' as int]
  {
  }

  /** The tail of a list after its first part. */
  lemma {:induction false} AfterPart(parts: seq<Text>, close: Text, after: Text)
    requires |parts| > 1
    ensures Joined<CodePoint>(parts, [COMMA]) + close + after
         == parts[0] + ([COMMA] + (Joined<CodePoint>(parts[1..], [COMMA]) + close + after))
  {
  }

  lemma {:induction false} ItemsRead(parts: seq<Text>, ws: seq<PyValue>, after: Text)
    requires |parts| == |ws| > 0
    requires forall i :: 0 <= i < |parts| ==> Reads(parts[i], ws[i])
    ensures ReadItems(Joined<CodePoint>(parts, [COMMA]) + [CLOSE_BRACKET] + after) == Some((ws, after))
  {
    Closers();
    if |parts| == 1 {
      var rest := [CLOSE_BRACKET] + after;
      assert parts[0] + [CLOSE_BRACKET] + after == parts[0] + rest;
      assert rest[..1] == [CLOSE_BRACKET] && rest[1..] == after;
      assert Ends(rest);
      assert ws == [ws[0]];
    } else {
      var tail := Joined<CodePoint>(parts[1..], [COMMA]) + [CLOSE_BRACKET] + after;
      var rest := [COMMA] + tail;
      AfterPart(parts, [CLOSE_BRACKET], after);
      ItemsRead(parts[1..], ws[1..], after);
      assert rest[..1] == [COMMA] && rest[1..] == tail;
      assert Ends(rest);
      assert ws == [ws[0]] + ws[1..];
    }
  }

  lemma {:induction false} MembersRead(parts: seq<Text>, es: seq<PyEntry>, after: Text)
    requires |parts| == |es| > 0
    requires forall i :: 0 <= i < |parts| ==> ReadsMember(parts[i], es[i])
    ensures ReadMembers(Joined<CodePoint>(parts, [COMMA]) + [CLOSE_BRACE] + after) == Some((es, after))
  {
    Closers();
    if |parts| == 1 {
      var rest := [CLOSE_BRACE] + after;
      assert parts[0] + [CLOSE_BRACE] + after == parts[0] + rest;
      assert rest[..1] == [CLOSE_BRACE] && rest[1..] == after;
      assert Ends(rest);
      assert es == [es[0]];
    } else {
      var tail := Joined<CodePoint>(parts[1..], [COMMA]) + [CLOSE_BRACE] + after;
      var rest := [COMMA] + tail;
      AfterPart(parts, [CLOSE_BRACE], after);
      MembersRead(parts[1..], es[1..], after);
      assert rest[..1] == [COMMA] && rest[1..] == tail;
      assert Ends(rest);
      assert es == [es[0]] + es[1..];
    }
  }

  lemma {:induction false} ArrayReads(parts: seq<Text>, ws: seq<PyValue>)
    requires |parts| == |ws| && forall i :: 0 <= i < |parts| ==> Reads(parts[i], ws[i])
    ensures Reads(Bracketed("[", parts, "]"), Arr(ws))
  {
    Closers();
    var s := Bracketed("[", parts, "]");
    forall rest
      ensures ReadValue(s + rest) == Some((Arr(ws), rest))
    {
      var t := s + rest;
      var inside := Joined<CodePoint>(parts, [COMMA]) + [CLOSE_BRACKET] + rest;
      assert t[1..] == inside;
      NoWord(t);
      if parts == [] {
        assert inside[..1] == [CLOSE_BRACKET] && t[2..] == rest;
      } else {
        ItemsRead(parts, ws, rest);
        ArrayStarts(t, inside);
      }
    }
  }

  /** A list that reads as items does not start with the closing bracket. */
  lemma {:induction false} ArrayStarts(t: Text, inside: Text)
    requires t == ['[' as int] + inside && ReadItems(inside).Some?
    ensures ReadValue(t) == Some((Arr(ReadItems(inside).value.0), ReadItems(inside).value.1))
  {
    NoWord(t);
    assert t[1..] == inside;
    if Follows(Literal("]"), inside) {
      assert inside[0] == inside[..1][0] == CLOSE_BRACKET;
      NoWord(inside);
      assert false;
    }
  }

  lemma {:induction false} ObjectStarts(t: Text, inside: Text)
    requires t == ['{' as int] + inside && ReadMembers(inside).Some?
    ensures ReadValue(t) == Some((Obj(ReadMembers(inside).value.0), ReadMembers(inside).value.1))
  {
    NoWord(t);
    assert t[1..] == inside;
    assert Follows([QUOTE], inside);
    assert Literal("}")[0] == CLOSE_BRACE && inside[..1][0] == QUOTE;
    assert !Follows(Literal("}"), inside);
  }

  lemma {:induction false} ObjectReads(parts: seq<Text>, es: seq<PyEntry>)
    requires |parts| == |es| && forall i :: 0 <= i < |parts| ==> ReadsMember(parts[i], es[i])
    ensures Reads(Bracketed("{", parts, "}"), Obj(es))
  {
    Closers();
    var s := Bracketed("{", parts, "}");
    forall rest
      ensures ReadValue(s + rest) == Some((Obj(es), rest))
    {
      var t := s + rest;
      var inside := Joined<CodePoint>(parts, [COMMA]) + [CLOSE_BRACE] + rest;
      assert t[1..] == inside;
      NoWord(t);
      if parts == [] {
        assert inside[..1] == [CLOSE_BRACE] && t[2..] == rest;
      } else {
        MembersRead(parts, es, rest);
        ObjectStarts(t, inside);
      }
    }
  }

  // ---------- members, sorted ----------

  /** A member with its text and its canonical value, so that both are sorted together. */
  datatype Item = Item(key: Text, text: PyResult, canon: PyValue)

  predicate ItemLe(a: Item, b: Item) {
    KeyLe(a.key, b.key)
  }

  function ItemOf(e: PyEntry): Item {
    Item(e.key, Serialized(e.value), Canon(e.value))
  }

  function TextPart(m: Item): Rendered<Text, Text> {
    Rendered(m.key, m.text)
  }

  function CanonPart(m: Item): PyEntry {
    Entry(m.key, m.canon)
  }

  lemma {:induction false} SortedTogether(entries: seq<PyEntry>, items: seq<Item>)
    requires items == Map(ItemOf, entries)
    ensures Sort(RenderedLe, Map(Render, entries)) == Map(TextPart, Sort(ItemLe, items))
    ensures Sort(EntryLe, Map(CanonEntry, entries)) == Map(CanonPart, Sort(ItemLe, items))
  {
    SortMap(TextPart, ItemLe, RenderedLe, items);
    SortMap(CanonPart, ItemLe, EntryLe, items);
    assert Map(TextPart, items) == Map(Render, entries);
    assert Map(CanonPart, items) == Map(CanonEntry, entries);
  }

  lemma {:induction false} MembersReadBack(items: seq<Item>, rs: seq<PyResult>)
    requires rs == Map(Member, Map(TextPart, items)) && Collect(rs).Ok?
    requires forall m :: m in items && m.text.Ok? ==> Reads(m.text.value, m.canon)
    ensures Reads(Bracketed("{", Collect(rs).value, "}"), Obj(Map(CanonPart, items)))
  {
    var parts, es := Collect(rs).value, Map(CanonPart, items);
    CollectExactly(rs);
    forall i | 0 <= i < |items|
      ensures ReadsMember(parts[i], es[i])
    {
      assert rs[i] == Ok(parts[i]);
      assert items[i] in items;
      MemberReads(items[i].key, items[i].text.value, items[i].canon);
    }
    ObjectReads(parts, es);
  }

  // ---------- round trip ----------

  /** The reader recovers the canonical form of every admitted value from its text. */
  lemma {:induction false} SerializedReads(v: PyValue)
    requires Serialized(v).Ok?
    ensures Reads(Serialized(v).value, Canon(v))
    decreases v, 1
  {
    match v {
      case Null => WordsRead();
      case Bool(b) => WordsRead();
      case Integer(n) => NumberReads(FromInteger(n));
      case Double(x) => NumberReads(x);
      case Str(s) => StringReads(s);
      case Arr(items) => ArraySerializedReads(v, items);
      case Obj(entries) => ObjectSerializedReads(v, entries);
    }
  }

  lemma {:induction false} ArraySerializedReads(v: PyValue, items: seq<PyValue>)
    requires v == Arr(items) && Serialized(v).Ok?
    ensures Reads(Serialized(v).value, Canon(v))
    decreases v, 0
  {
    SerializedArray(items);
    CanonOfArray(items);
    var rs, ws := Map(Serialized, items), Map(Canon, items);
    var parts := Collect(rs).value;
    CollectExactly(rs);
    forall i | 0 <= i < |items|
      ensures Reads(parts[i], ws[i])
    {
      assert rs[i] == Ok(parts[i]);
      SerializedReads(items[i]);
    }
    ArrayReads(parts, ws);
  }

  lemma {:induction false} ObjectSerializedReads(v: PyValue, entries: seq<PyEntry>)
    requires v == Obj(entries) && Serialized(v).Ok?
    ensures Reads(Serialized(v).value, Canon(v))
    decreases v, 0
  {
    SerializedObject(entries);
    CanonOfObject(entries);
    var items := Map(ItemOf, entries);
    var sorted := Sort(ItemLe, items);
    SortedTogether(entries, items);
    SortKeepsElements(ItemLe, items);
    forall m | m in sorted && m.text.Ok?
      ensures Reads(m.text.value, m.canon)
    {
      assert m in multiset(items);
      var k :| 0 <= k < |items| && items[k] == m;
      SerializedReads(entries[k].value);
    }
    MembersReadBack(sorted, Map(Member, Map(TextPart, sorted)));
  }

  /** Decoding inverts encoding, up to the order of members and the kind of numbers. */
  lemma {:induction false} DecodeInvertsEncode(v: PyValue, b: Bytes)
    requires Encoded(v) == Ok(b)
    ensures Decode(b) == Some(Canon(v))
  {
    var t := Serialized(v).value;
    assert b[..|b| - 1] == Utf8(t);
    FromUtf8Inverts(t);
    SerializedReads(v);
    assert t + [] == t;
    assert ReadValue(t + []) == Some((Canon(v), []));
  }

  /** What is read back lists the members of the outermost object in order. */
  lemma {:induction false} CanonIsSorted(entries: seq<PyEntry>)
    ensures IsSorted(EntryLe, Canon(Obj(entries)).entries)
    ensures multiset(Canon(Obj(entries)).entries) == multiset(Map(CanonEntry, entries))
  {
    CanonOfObject(entries);
    KeyOrder();
    SortSorts(EntryLe, Map(CanonEntry, entries));
    SortKeepsElements(EntryLe, Map(CanonEntry, entries));
  }

  lemma {:induction false} KeyOrder()
    ensures TotalPreorder(EntryLe)
  {
    forall a: PyEntry, b: PyEntry
      ensures EntryLe(a, b) || EntryLe(b, a)
    {
      LexTotal(Utf16(a.key), Utf16(b.key));
    }
    forall a: PyEntry, b: PyEntry, c: PyEntry | EntryLe(a, b) && EntryLe(b, c)
      ensures EntryLe(a, c)
    {
      LexTransitive(Utf16(a.key), Utf16(b.key), Utf16(c.key));
    }
  }
}
