/** Code points, UTF-8, and UTF-16 code units. */
module Unicode {
  import opened Bytes

  type CodePoint = c: int | 0 <= c < 0x110000
  type Text = seq<CodePoint>

  predicate IsSurrogate(c: int) {
    0xD800 <= c <= 0xDFFF
  }

  /** A string of Unicode scalar values. */
  predicate IsScalar(t: Text) {
    forall i :: 0 <= i < |t| ==> !IsSurrogate(t[i])
  }

  // ---------- UTF-8 ----------

  function Utf8Of(c: CodePoint): (b: Bytes)
    ensures 1 <= |b| <= 4
  {
    if c < 0x80 then [c]
    else if c < 0x800 then [0xC0 + c / 64, 0x80 + c % 64]
    else if c < 0x10000 then [0xE0 + c / 4096, 0x80 + c / 64 % 64, 0x80 + c % 64]
    else [0xF0 + c / 262144, 0x80 + c / 4096 % 64, 0x80 + c / 64 % 64, 0x80 + c % 64]
  }

  /** The encoding is the shortest that holds the code point, with its bits in order (section 3 of RFC 3629). */
  lemma {:induction false} Utf8OfExactly(c: CodePoint)
    ensures var b: seq<int> := Utf8Of(c);
      && |b| == (if c <= 0x7F then 1 else if c <= 0x7FF then 2 else if c <= 0xFFFF then 3 else 4)
      && (forall i :: 1 <= i < |b| ==> 128 <= b[i] < 192)
      && (|b| == 1 ==> c == b[0])
      && (|b| == 2 ==> 192 <= b[0] < 224 && c == (b[0] - 192) * 64 + (b[1] - 128))
      && (|b| == 3 ==> 224 <= b[0] < 240 && c == ((b[0] - 224) * 64 + (b[1] - 128)) * 64 + (b[2] - 128))
      && (|b| == 4 ==>
            && 240 <= b[0] < 248
            && c == (((b[0] - 240) * 64 + (b[1] - 128)) * 64 + (b[2] - 128)) * 64 + (b[3] - 128))
  {
    Digits64(c);
  }

  function Utf8(t: Text): Bytes {
    if t == [] then [] else Utf8Of(t[0]) + Utf8(t[1..])
  }

  /** The number of bytes that a lead byte announces. */
  function Width(lead: byte): nat {
    if lead < 0x80 then 1 else if lead < 0xE0 then 2 else if lead < 0xF0 then 3 else 4
  }

  lemma {:induction false} WidthOf(c: CodePoint)
    ensures Width(Utf8Of(c)[0]) == |Utf8Of(c)|
  {
  }

  /** The code point whose encoding starts b. */
  function FirstCode(b: Bytes): int
    requires b != [] && Width(b[0]) <= |b|
  {
    var w := Width(b[0]);
    if w == 1 then b[0]
    else if w == 2 then (b[0] as int - 0xC0) * 64 + (b[1] as int - 0x80)
    else if w == 3 then (b[0] as int - 0xE0) * 4096 + (b[1] as int - 0x80) * 64 + (b[2] as int - 0x80)
    else (b[0] as int - 0xF0) * 262144 + (b[1] as int - 0x80) * 4096 + (b[2] as int - 0x80) * 64 + (b[3] as int - 0x80)
  }

  lemma {:induction false} Digits64(c: nat)
    ensures c == c / 64 * 64 + c % 64
    ensures c / 64 == c / 4096 * 64 + c / 64 % 64
    ensures c / 4096 == c / 262144 * 64 + c / 4096 % 64
  {
  }

  lemma {:induction false} FirstCodeInverts(c: CodePoint)
    ensures Width(Utf8Of(c)[0]) <= |Utf8Of(c)|
    ensures FirstCode(Utf8Of(c)) == c
  {
    Digits64(c);
  }

  /** UTF-8 is a prefix code: equal encodings start with equal code points. */
  lemma {:induction false} Utf8Injective(s: Text, t: Text)
    requires Utf8(s) == Utf8(t)
    ensures s == t
  {
    if s != [] && t != [] {
      var a, b := Utf8Of(s[0]), Utf8Of(t[0]);
      assert Utf8(s)[0] == a[0] && Utf8(t)[0] == b[0];
      WidthOf(s[0]);
      WidthOf(t[0]);
      assert Utf8(s)[..|a|] == a && Utf8(t)[..|b|] == b;
      FirstCodeInverts(s[0]);
      FirstCodeInverts(t[0]);
      assert Utf8(s)[|a|..] == Utf8(s[1..]) && Utf8(t)[|b|..] == Utf8(t[1..]);
      Utf8Injective(s[1..], t[1..]);
      assert s == [s[0]] + s[1..] && t == [t[0]] + t[1..];
    }
  }

  lemma {:induction false} Utf8Concat(s: Text, t: Text)
    ensures Utf8(s + t) == Utf8(s) + Utf8(t)
  {
    if s == [] {
      assert s + t == t;
    } else {
      assert (s + t)[1..] == s[1..] + t;
      Utf8Concat(s[1..], t);
    }
  }

  /** A byte below 0x80 in the encoding is a code point of the text. */
  lemma {:induction false} Utf8KeepsAscii(t: Text, b: byte)
    requires b < 0x80
    ensures b in Utf8(t) <==> b in t
  {
    if t != [] {
      Utf8KeepsAscii(t[1..], b);
      assert t == [t[0]] + t[1..];
      assert b in Utf8Of(t[0]) <==> b == t[0];
    }
  }

  // ---------- decoding UTF-8 ----------

  /** The text whose encoding b is, read by the widths that lead bytes announce. */
  function FromUtf8(b: Bytes): Text
  {
    if b == [] then []
    else
      var w := Width(b[0]);
      if w > |b| || !(0 <= FirstCode(b) < 0x110000) then []
      else [FirstCode(b)] + FromUtf8(b[w..])
  }

  lemma {:induction false} FromUtf8Inverts(t: Text)
    ensures FromUtf8(Utf8(t)) == t
  {
    if t != [] {
      var a, b := Utf8Of(t[0]), Utf8(t);
      FromUtf8Inverts(t[1..]);
      WidthOf(t[0]);
      FirstCodeInverts(t[0]);
      assert b[..|a|] == a && b[|a|..] == Utf8(t[1..]);
      FirstCodeLocal(a, b);
      assert t == [t[0]] + t[1..];
    }
  }

  lemma {:induction false} FirstCodeLocal(a: Bytes, b: Bytes)
    requires a != [] && Width(a[0]) == |a| <= |b| && b[..|a|] == a
    ensures Width(b[0]) == |a| && FirstCode(b) == FirstCode(a)
  {
    assert forall i :: 0 <= i < |a| ==> b[i] == b[..|a|][i];
  }

  // ---------- UTF-16 ----------

  type Unit = u: int | 0 <= u < 0x10000
  type Units = seq<Unit>

  predicate IsHigh(u: int) {
    0xD800 <= u <= 0xDBFF
  }

  predicate IsLow(u: int) {
    0xDC00 <= u <= 0xDFFF
  }

  function Utf16Of(c: CodePoint): (u: Units)
    ensures 1 <= |u| <= 2
  {
    if c < 0x10000 then [c] else [0xD800 + (c - 0x10000) / 0x400, 0xDC00 + (c - 0x10000) % 0x400]
  }

  function Utf16(t: Text): Units {
    if t == [] then [] else Utf16Of(t[0]) + Utf16(t[1..])
  }

  function Paired(high: int, low: int): CodePoint
    requires IsHigh(high) && IsLow(low)
  {
    0x10000 + (high - 0xD800) * 0x400 + (low - 0xDC00)
  }

  /** Surrogate pairs are joined; an unpaired surrogate stays a code point of its own. */
  function FromUnits(u: Units): Text {
    if u == [] then []
    else if |u| >= 2 && IsHigh(u[0]) && IsLow(u[1]) then [Paired(u[0], u[1])] + FromUnits(u[2..])
    else [u[0]] + FromUnits(u[1..])
  }

  lemma {:induction false} PairedInverts(high: int, low: int)
    requires IsHigh(high) && IsLow(low)
    ensures Utf16Of(Paired(high, low)) == [high, low]
  {
  }

  lemma {:induction false} SplitInverts(c: CodePoint)
    requires c >= 0x10000
    ensures IsHigh(Utf16Of(c)[0]) && IsLow(Utf16Of(c)[1]) && Paired(Utf16Of(c)[0], Utf16Of(c)[1]) == c
  {
  }

  /** Reading units as code points loses nothing. */
  lemma {:induction false} Utf16OfFromUnits(u: Units)
    ensures Utf16(FromUnits(u)) == u
    decreases |u|
  {
    if u != [] {
      var t := FromUnits(u);
      if |u| >= 2 && IsHigh(u[0]) && IsLow(u[1]) {
        Utf16OfFromUnits(u[2..]);
        PairedInverts(u[0], u[1]);
        assert t[1..] == FromUnits(u[2..]);
        assert u == [u[0], u[1]] + u[2..];
      } else {
        Utf16OfFromUnits(u[1..]);
        assert t[1..] == FromUnits(u[1..]);
        assert u == [u[0]] + u[1..];
      }
    }
  }

  /** On scalar text writing units and reading them back is the identity. */
  lemma {:induction false} FromUnitsOfUtf16(t: Text)
    requires IsScalar(t)
    ensures FromUnits(Utf16(t)) == t
  {
    if t != [] {
      var u, rest := Utf16(t), Utf16(t[1..]);
      FromUnitsOfUtf16(t[1..]);
      assert !IsSurrogate(t[0]);
      if t[0] >= 0x10000 {
        SplitInverts(t[0]);
        assert u[2..] == rest;
      } else {
        assert u[1..] == rest && u[0] == t[0];
      }
      assert t == [t[0]] + t[1..];
    }
  }

  lemma {:induction false} Utf16Concat(s: Text, t: Text)
    ensures Utf16(s + t) == Utf16(s) + Utf16(t)
  {
    if s == [] {
      assert s + t == t;
    } else {
      assert (s + t)[1..] == s[1..] + t;
      Utf16Concat(s[1..], t);
    }
  }
}
