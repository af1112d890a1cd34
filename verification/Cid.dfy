/**
 Content identifiers: base58 with leading zero bytes, the multibase spellings, and the binary form that
 a contenthash commits.
 */
module Cid {
  import opened Wrappers
  import opened Radix
  import opened Base32

  // ---------- alphabets ----------

  /** The position of a character in the base58 alphabet, which leaves out 0, O, I and l. */
  function Index58(c: char): Option<int> {
    if '1' <= c <= '9' then Some(c as int - '1' as int)
    else if 'A' <= c <= 'H' then Some(c as int - 'A' as int + 9)
    else if 'J' <= c <= 'N' then Some(c as int - 'J' as int + 17)
    else if 'P' <= c <= 'Z' then Some(c as int - 'P' as int + 22)
    else if 'a' <= c <= 'k' then Some(c as int - 'a' as int + 33)
    else if 'm' <= c <= 'z' then Some(c as int - 'm' as int + 44)
    else None
  }

  function Char58(d: int): char
    requires 0 <= d < 58
  {
    (if d < 9 then d + '1' as int
     else if d < 17 then d - 9 + 'A' as int
     else if d < 22 then d - 17 + 'J' as int
     else if d < 33 then d - 22 + 'P' as int
     else if d < 44 then d - 33 + 'a' as int
     else d - 44 + 'm' as int) as char
  }

  /** The base32 digit of an ASCII character, in either case. */
  function Index32(c: char): Option<int> {
    if 'a' <= c <= 'z' then Some(c as int - 'a' as int)
    else if 'A' <= c <= 'Z' then Some(c as int - 'A' as int)
    else if '2' <= c <= '7' then Some(c as int - '2' as int + 26)
    else None
  }

  function Char32(d: int): char
    requires 0 <= d < 32
  {
    (if d < 26 then d + 'a' as int else d - 26 + '2' as int) as char
  }

  lemma {:induction false} AlphabetsInvert(c: char, d: int)
    ensures 0 <= d < 58 ==> Index58(Char58(d)) == Some(d)
    ensures Index58(c).Some? ==> 0 <= Index58(c).value < 58 && Char58(Index58(c).value) == c
    ensures 0 <= d < 32 ==> Index32(Char32(d)) == Some(d)
    ensures Index32(c).Some? ==> 0 <= Index32(c).value < 32
  {
  }

  /** The digits of a string, if every character has one. */
  function Read(index: char -> Option<int>, s: string): Option<seq<int>> {
    if s == [] then Some([])
    else
      var front := Read(index, s[..|s| - 1]);
      var d := index(s[|s| - 1]);
      if front == None || d == None then None else Some(front.value + [d.value])
  }

  function Digits58(s: string): (ds: Option<seq<int>>) {
    Read(c => Index58(c), s)
  }

  function Digits32(s: string): (ds: Option<seq<int>>) {
    Read(c => Index32(c), s)
  }

  function Text58(ds: seq<int>): (s: string)
    requires AreDigits(58, ds)
    ensures |s| == |ds|
  {
    if ds == [] then [] else Text58(ds[..|ds| - 1]) + [Char58(ds[|ds| - 1])]
  }

  function Text32(ds: seq<int>): (s: string)
    requires AreDigits(32, ds)
    ensures |s| == |ds|
  {
    if ds == [] then [] else Text32(ds[..|ds| - 1]) + [Char32(ds[|ds| - 1])]
  }

  lemma {:induction false} ReadText58(ds: seq<int>)
    requires AreDigits(58, ds)
    ensures Digits58(Text58(ds)) == Some(ds)
  {
    if ds != [] {
      ReadText58(ds[..|ds| - 1]);
      AlphabetsInvert('1', ds[|ds| - 1]);
      assert Text58(ds)[..|ds| - 1] == Text58(ds[..|ds| - 1]);
      assert ds == ds[..|ds| - 1] + [ds[|ds| - 1]];
    }
  }

  lemma {:induction false} ReadText32(ds: seq<int>)
    requires AreDigits(32, ds)
    ensures Digits32(Text32(ds)) == Some(ds)
  {
    if ds != [] {
      ReadText32(ds[..|ds| - 1]);
      AlphabetsInvert('1', ds[|ds| - 1]);
      assert Text32(ds)[..|ds| - 1] == Text32(ds[..|ds| - 1]);
      assert ds == ds[..|ds| - 1] + [ds[|ds| - 1]];
    }
  }

  lemma {:induction false} TextOfDigits58(s: string)
    requires Digits58(s).Some?
    ensures |Digits58(s).value| == |s| && AreDigits(58, Digits58(s).value) && Text58(Digits58(s).value) == s
  {
    if s != [] {
      var k := |s| - 1;
      TextOfDigits58(s[..k]);
      AlphabetsInvert(s[k], 0);
      assert Digits58(s).value[..k] == Digits58(s[..k]).value;
      assert s == s[..k] + [s[k]];
    }
  }

  lemma {:induction false} DigitsOf32(s: string)
    requires Digits32(s).Some?
    ensures AreDigits(32, Digits32(s).value) && |Digits32(s).value| == |s|
  {
    if s != [] {
      DigitsOf32(s[..|s| - 1]);
      AlphabetsInvert(s[|s| - 1], 0);
    }
  }

  // ---------- base58 ----------

  /** A leading '1' is a leading zero byte; the rest is a number. */
  function B58Decode(s: string): Option<seq<int>> {
    var ds := Digits58(s);
    if ds == None then None
    else
      TextOfDigits58(s);
      NumNonNegative(58, ds.value);
      Some(Recode(58, 256, ds.value))
  }

  function B58Encode(b: seq<int>): string
    requires AreDigits(256, b)
  {
    NumNonNegative(256, b);
    RecodeInverts(256, 58, b);
    Text58(Recode(256, 58, b))
  }

  /** The loop that accumulates the number, and the count of leading '1's. */
  method ComputeB58Decode(s: string) returns (r: Option<seq<int>>)
    ensures r == B58Decode(s)
  {
    var num := 0;
    ghost var ds: seq<int> := [];
    for i := 0 to |s|
      invariant Digits58(s[..i]) == Some(ds) && AreDigits(58, ds) && num == Num(58, ds) >= 0
    {
      assert s[..i + 1][..i] == s[..i];
      var d := Index58(s[i]);
      if d == None {
        ReadStaysNone(s, i + 1);
        return None;
      }
      AlphabetsInvert(s[i], 0);
      NumSnoc(58, ds, d.value);
      num := num * 58 + d.value;
      ds := ds + [d.value];
    }
    assert s[..|s|] == s;
    TextOfDigits58(s);
    var pad := 0;
    while pad < |s| && s[pad] == '1'
      invariant pad <= |s|
      invariant forall i :: 0 <= i < pad ==> s[i] == '1'
    {
      pad := pad + 1;
    }
    LeadingOnes(s, ds, pad);
    return Some(Zeros(pad) + Minimal(256, num));
  }

  lemma {:induction false} ReadStaysNone(s: string, k: nat)
    requires k <= |s| && Digits58(s[..k]) == None
    ensures Digits58(s) == None
    decreases |s|
  {
    if k < |s| {
      assert s[..|s| - 1][..k] == s[..k];
      ReadStaysNone(s[..|s| - 1], k);
    } else {
      assert s[..k] == s;
    }
  }

  lemma {:induction false} Text58At(ds: seq<int>, i: nat)
    requires AreDigits(58, ds) && i < |ds|
    ensures Text58(ds)[i] == Char58(ds[i])
  {
    if i < |ds| - 1 {
      Text58At(ds[..|ds| - 1], i);
    }
  }

  lemma {:induction false} LeadingOnes(s: string, ds: seq<int>, pad: nat)
    requires AreDigits(58, ds) && s == Text58(ds) && pad <= |s|
    requires (forall i :: 0 <= i < pad ==> s[i] == '1') && (pad < |s| ==> s[pad] != '1')
    ensures LeadingZeros(ds) == pad
  {
    var n := LeadingZeros(ds);
    forall i | 0 <= i < |ds|
      ensures s[i] == '1' <==> ds[i] == 0
    {
      Text58At(ds, i);
      AlphabetsInvert('1', ds[i]);
    }
  }

  /** Base58 loses nothing: bytes survive encoding and decoding. */
  lemma {:induction false} B58DecodeInvertsEncode(b: seq<int>)
    requires AreDigits(256, b)
    ensures B58Decode(B58Encode(b)) == Some(b)
  {
    RecodeInverts(256, 58, b);
    ReadText58(Recode(256, 58, b));
  }

  /** And nothing is spelled twice: a string over the alphabet is the encoding of what it decodes to. */
  lemma {:induction false} B58EncodeInvertsDecode(s: string)
    requires B58Decode(s).Some?
    ensures AreDigits(256, B58Decode(s).value) && B58Encode(B58Decode(s).value) == s
  {
    TextOfDigits58(s);
    RecodeInverts(58, 256, Digits58(s).value);
  }

  lemma {:induction false} B58Injective(s: string, t: string)
    requires B58Decode(s).Some? && B58Decode(s) == B58Decode(t)
    ensures s == t
  {
    B58EncodeInvertsDecode(s);
    B58EncodeInvertsDecode(t);
  }

  // ---------- multibase and the binary form ----------

  type HexDecoder = string -> Option<seq<int>>

  /** Without its trailing padding characters. */
  function Unpadded(t: string): (r: string)
    ensures |r| <= |t|
  {
    if t != [] && t[|t| - 1] == '=' then Unpadded(t[..|t| - 1]) else t
  }

  function Octets(n: nat): nat {
    (n + 7) / 8
  }

  /** The text is filled up to whole octets; padding characters of its own must end in the same octet. */
  function B32Decode(t: string): Option<seq<int>> {
    var core := Unpadded(t);
    var ds := Digits32(core);
    if ds == None || Octets(|t|) != Octets(|core|) then None
    else
      DigitsOf32(core);
      BlockDecode(ds.value)
  }

  function Padding(k: nat): (p: string)
    ensures |p| == k
  {
    seq(k, _ => '=')
  }

  lemma {:induction false} UnpaddedDropsPadding(core: string, k: nat)
    requires core != [] ==> core[|core| - 1] != '='
    ensures Unpadded(core + Padding(k)) == core
  {
    var t := core + Padding(k);
    if k == 0 {
      assert t == core;
    } else {
      UnpaddedDropsPadding(core, k - 1);
      assert t[..|t| - 1] == core + Padding(k - 1);
    }
  }

  /** Padding characters change nothing as long as they do not go beyond the next multiple of eight, and are refused then. */
  lemma {:induction false} PaddingExactly(core: string, k: nat)
    requires core != [] ==> core[|core| - 1] != '='
    ensures B32Decode(core + Padding(k)) == if k <= (-|core|) % 8 then B32Decode(core) else None
  {
    UnpaddedDropsPadding(core, k);
    UnpaddedDropsPadding(core, 0);
    assert core + Padding(0) == core;
    assert Octets(|core| + k) == Octets(|core|) <==> k <= (-|core|) % 8;
  }

  /** Two strings that differ in the case of letters alone. */
  ghost predicate SameUpToCase(s: string, t: string) {
    |s| == |t| && forall i :: 0 <= i < |s| ==> t[i] == s[i] || ('a' <= s[i] <= 'z' && t[i] as int == s[i] as int - 32)
  }

  lemma {:induction false} CaseIsIgnored(s: string, t: string)
    requires SameUpToCase(s, t)
    ensures Digits32(t) == Digits32(s)
  {
    if s != [] {
      CaseIsIgnored(s[..|s| - 1], t[..|t| - 1]);
    }
  }

  lemma {:induction false} DigitsAreUnpadded(t: string)
    requires Digits32(t).Some?
    ensures Unpadded(t) == t
  {
    if t != [] {
      assert Index32('=') == None;
    }
  }

  function B32Encode(b: seq<int>): string
    requires AreDigits(256, b)
  {
    EncodedValue(b);
    Text32(Encode(b))
  }

  function MultibaseDecode(hex: HexDecoder, s: string): Option<seq<int>> {
    if s == [] then None
    else if s[0] == 'b' then B32Decode(s[1..])
    else if s[0] == 'z' then B58Decode(s[1..])
    else if s[0] == 'f' then hex(s[1..])
    else None
  }

  /** Version, codec and multihash; a version 0 identifier is upgraded, anything else must be version 1. */
  function CidBinary(hex: HexDecoder, cid: string): Option<seq<int>> {
    if "Qm" <= cid && |cid| == 46 then
      var mh := B58Decode(cid);
      if mh == None then None else Some([0x01, 0x70] + mh.value)
    else
      var b := MultibaseDecode(hex, cid);
      if b == None || b.value == [] || b.value[0] != 0x01 then None else b
  }

  /** The recipe: the multibase prefix is dropped unread and the rest is streamed. */
  method RecipeBytes(cid: string) returns (r: Option<seq<int>>)
    ensures var t := if cid == [] then [] else cid[1..];
      match Digits32(t)
      case None => r == None
      case Some(ds) => AreDigits(32, ds) && Num(32, ds) >= 0 && r == Some(Decoded(ds))
  {
    var t := if cid == [] then [] else cid[1..];
    var ds := Digits32(t);
    if ds == None {
      return None;
    }
    DigitsOf32(t);
    var out := StreamDecode(ds.value);
    return Some(out);
  }

  lemma {:induction false} BlockDecodeRoundTrip(b: seq<int>)
    requires AreDigits(256, b)
    ensures B32Decode(B32Encode(b)) == Some(b)
  {
    EncodedValue(b);
    ReadText32(Encode(b));
    DecodeInvertsEncode(b);
    DecodersAgree(Encode(b));
    CanonicalLengthLeavesLittle(|Encode(b)|);
    DigitsAreUnpadded(B32Encode(b));
  }

  /**
   All spellings of one identifier commit the same bytes: the version 0 form, and the version 1 form of
   the same multihash in base 32 and in base 58.
   */
  lemma {:induction false} SpellingsAgree(hex: HexDecoder, cid: string)
    requires "Qm" <= cid && |cid| == 46 && CidBinary(hex, cid).Some?
    ensures var bytes := CidBinary(hex, cid).value;
      && AreDigits(256, bytes)
      && CidBinary(hex, "b" + B32Encode(bytes)) == Some(bytes)
      && CidBinary(hex, "z" + B58Encode(bytes)) == Some(bytes)
  {
    var bytes := CidBinary(hex, cid).value;
    B58EncodeInvertsDecode(cid);
    var b, z := "b" + B32Encode(bytes), "z" + B58Encode(bytes);
    BlockDecodeRoundTrip(bytes);
    B58DecodeInvertsEncode(bytes);
    assert b[0] == 'b' && b[1..] == B32Encode(bytes);
    assert z[0] == 'z' && z[1..] == B58Encode(bytes);
    assert "Qm"[0] == 'Q';
  }

  /**
   A version 0 identifier, and only one, is upgraded: the bytes are those of version 1, the dag-pb codec and
   the base 58 decoding of the identifier as the multihash. It is refused exactly for a foreign character.
   */
  lemma {:induction false} Version0Exactly(hex: HexDecoder, cid: string)
    requires |cid| == 46 && cid[0] == 'Q' && cid[1] == 'm'
    ensures CidBinary(hex, cid).Some? <==> forall i :: 0 <= i < |cid| ==> IsBase58(cid[i])
    ensures CidBinary(hex, cid).Some? ==>
      var bytes := CidBinary(hex, cid).value;
      |bytes| >= 2 && bytes[0] == 1 && bytes[1] == 112 && B58Decode(cid) == Some(bytes[2..]) && AreDigits(256, bytes[2..])
  {
    assert "Qm" <= cid;
    ReadableExactly(cid);
    if CidBinary(hex, cid).Some? {
      B58EncodeInvertsDecode(cid);
      var mh := B58Decode(cid).value;
      assert ([0x01, 0x70] + mh)[2..] == mh;
    }
  }

  /** A digit or a letter, except for the four that are easily confused. */
  predicate IsBase58(c: char) {
    ('0' <= c <= '9' || 'A' <= c <= 'Z' || 'a' <= c <= 'z') && c !in {'0', 'O', 'I', 'l'}
  }

  lemma {:induction false} ReadableExactly(s: string)
    ensures Digits58(s).Some? <==> forall i :: 0 <= i < |s| ==> IsBase58(s[i])
  {
    if s != [] {
      var k := |s| - 1;
      ReadableExactly(s[..k]);
      assert s == s[..k] + [s[k]];
      assert Index58(s[k]).Some? <==> IsBase58(s[k]);
    }
  }

  /** Any other identifier is version 1 in one of three bases, named by its first character, and is taken as it is. */
  lemma {:induction false} Version1Exactly(hex: HexDecoder, cid: string, bytes: seq<int>)
    requires !(|cid| == 46 && cid[0] == 'Q' && cid[1] == 'm')
    ensures CidBinary(hex, cid) == Some(bytes) <==>
            && cid != [] && bytes != [] && bytes[0] == 1
            && match cid[0]
               case 'b' => B32Decode(cid[1..]) == Some(bytes)
               case 'z' => B58Decode(cid[1..]) == Some(bytes)
               case 'f' => hex(cid[1..]) == Some(bytes)
               case _ => false
  {
    assert "Qm" <= cid ==> "Qm"[0] == cid[0] && "Qm"[1] == cid[1];
  }

  /**
   On base 32 text that the recipe can read, the independent reimplementation computes the same bytes, and
   refuses only lengths that no byte string has and anything that is not version 1.
   */
  lemma {:induction false} RecipeAgrees(hex: HexDecoder, t: string)
    requires Digits32(t).Some?
    ensures Num(32, Digits32(t).value) >= 0
    ensures var bytes := Decoded(Digits32(t).value);
      CidBinary(hex, "b" + t) == if CanonicalLength(|t|) && bytes != [] && bytes[0] == 0x01 then Some(bytes) else None
  {
    var s := "b" + t;
    assert s[0] == 'b' && s[1..] == t && "Qm"[0] == 'Q';
    DigitsOf32(t);
    DigitsAreUnpadded(t);
    DecodersAgree(Digits32(t).value);
  }

  /** What the recipe cannot read and the reimplementation accepts is text with padding characters. */
  lemma {:induction false} OnlyPaddingTellsThemApart(hex: HexDecoder, t: string)
    requires Digits32(t) == None && CidBinary(hex, "b" + t).Some?
    ensures t != [] && t[|t| - 1] == '='
  {
    var s := "b" + t;
    assert s[0] == 'b' && s[1..] == t && "Qm"[0] == 'Q';
  }
}
