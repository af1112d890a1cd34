/**
 Base 32 without padding characters: the streaming bit accumulator, the encoder by 40-bit quanta
 (section 6 of RFC 4648), and the decoder by quanta that pads and cuts.
 */
module Base32 {
  import opened Wrappers
  import opened Radix

  // ---------- powers of two ----------

  lemma {:induction false} Pow2Adds(m: nat, n: nat)
    ensures Pow(2, m + n) == Pow(2, m) * Pow(2, n)
    decreases n
  {
    if n > 0 {
      Pow2Adds(m, n - 1);
      assert m + n - 1 == m + (n - 1);
    }
  }

  lemma {:induction false} Pow2Small()
    ensures Pow(2, 0) == 1 && Pow(2, 1) == 2 && Pow(2, 2) == 4 && Pow(2, 3) == 8 && Pow(2, 4) == 16
    ensures Pow(2, 5) == 32 && Pow(2, 8) == 256
  {
    assert Pow(2, 3) == 2 * Pow(2, 2) && Pow(2, 2) == 2 * Pow(2, 1);
    assert Pow(2, 5) == 2 * Pow(2, 4) && Pow(2, 4) == 2 * Pow(2, 3);
    assert Pow(2, 8) == 2 * Pow(2, 7) && Pow(2, 7) == 2 * Pow(2, 6) && Pow(2, 6) == 2 * Pow(2, 5);
  }

  lemma {:induction false} Pow32(n: nat)
    ensures Pow(32, n) == Pow(2, 5 * n)
  {
    Pow2Small();
    if n > 0 {
      Pow32(n - 1);
      Pow2Adds(5 * (n - 1), 5);
    }
  }

  lemma {:induction false} Pow256(n: nat)
    ensures Pow(256, n) == Pow(2, 8 * n)
  {
    Pow2Small();
    if n > 0 {
      Pow256(n - 1);
      Pow2Adds(8 * (n - 1), 8);
    }
  }

  // ---------- how five-bit digits fill eight-bit bytes ----------

  /** The bits left over from n digits after the whole bytes. */
  function LeftBits(n: nat): (bits: nat)
    ensures bits < 8
  {
    if n == 0 then 0 else if LeftBits(n - 1) >= 3 then LeftBits(n - 1) - 3 else LeftBits(n - 1) + 5
  }

  /** The whole bytes in n digits. */
  function ByteCount(n: nat): nat {
    if n == 0 then 0 else ByteCount(n - 1) + if LeftBits(n - 1) >= 3 then 1 else 0
  }

  lemma {:induction false} BitsAddUp(n: nat)
    ensures 5 * n == 8 * ByteCount(n) + LeftBits(n)
  {
    if n > 0 {
      BitsAddUp(n - 1);
    }
  }

  lemma {:induction false} BitsUnique(n: nat, bytes: nat, bits: nat)
    requires 5 * n == 8 * bytes + bits && bits < 8
    ensures ByteCount(n) == bytes && LeftBits(n) == bits
  {
    BitsAddUp(n);
  }

  /** The digits' weight is the bytes' weight times that of the left-over bits. */
  lemma {:induction false} WeightsAlign(n: nat)
    ensures Pow(32, n) == Pow(256, ByteCount(n)) * Pow(2, LeftBits(n))
  {
    Pow32(n);
    Pow256(ByteCount(n));
    BitsAddUp(n);
    Pow2Adds(8 * ByteCount(n), LeftBits(n));
  }

  // ---------- what a digit string decodes to ----------

  ghost predicate Quintets(ds: seq<int>) {
    AreDigits(32, ds)
  }

  /** The whole bytes of the bit string; up to seven bits are left over. */
  function Decoded(ds: seq<int>): (b: seq<int>)
    requires Num(32, ds) >= 0
    ensures |b| == ByteCount(|ds|)
  {
    Digits(256, Num(32, ds) / Pow(2, LeftBits(|ds|)), ByteCount(|ds|))
  }

  /** The value of the left-over bits. */
  function LeftOver(ds: seq<int>): int {
    Num(32, ds) % Pow(2, LeftBits(|ds|))
  }

  lemma {:induction false} Split(n: int, d: int)
    requires d > 0
    ensures n == n / d * d + n % d && 0 <= n % d < d
  {
  }

  lemma {:induction false} DigitsOfQuotient(n: nat, d: nat, k: nat)
    requires d > 0 && n < Pow(256, k) * d
    ensures AreDigits(256, Digits(256, n / d, k))
    ensures n == Num(256, Digits(256, n / d, k)) * d + n % d && 0 <= n % d < d
  {
    QuotientBelow(n, d, Pow(256, k));
    NumOfDigits(256, n / d, k);
    Split(n, d);
  }

  /** The decoded bytes are the number without its left-over bits. */
  lemma {:induction false} DecodedValue(ds: seq<int>)
    requires Quintets(ds)
    ensures Num(32, ds) >= 0 && AreDigits(256, Decoded(ds))
    ensures Num(32, ds) == Num(256, Decoded(ds)) * Pow(2, LeftBits(|ds|)) + LeftOver(ds)
    ensures 0 <= LeftOver(ds) < Pow(2, LeftBits(|ds|))
  {
    NumBelowPow(32, ds);
    WeightsAlign(|ds|);
    DigitsOfQuotient(Num(32, ds), Pow(2, LeftBits(|ds|)), ByteCount(|ds|));
  }

  lemma {:induction false} QuotientBelow(n: nat, d: nat, p: nat)
    requires d > 0 && n < p * d
    ensures 0 <= n / d < p
  {
    Split(n, d);
    var q := n / d;
    if p <= q {
      MulMonotone(p, q, d);
    }
  }

  /** Bytes of the right number and value are the decoded bytes. */
  lemma {:induction false} DecodedUnique(ds: seq<int>, b: seq<int>, rest: int)
    requires Quintets(ds) && AreDigits(256, b) && |b| == ByteCount(|ds|)
    requires Num(32, ds) == Num(256, b) * Pow(2, LeftBits(|ds|)) + rest && 0 <= rest < Pow(2, LeftBits(|ds|))
    ensures Num(32, ds) >= 0 && b == Decoded(ds) && rest == LeftOver(ds)
  {
    DecodedValue(ds);
    SplitUnique(Num(256, b), rest, Num(256, Decoded(ds)), LeftOver(ds), Pow(2, LeftBits(|ds|)));
    NumInjective(256, b, Decoded(ds));
  }

  lemma {:induction false} SplitUnique(q: int, r: int, s: int, t: int, d: int)
    requires d > 0 && 0 <= r < d && 0 <= t < d && q * d + r == s * d + t
    ensures q == s && r == t
  {
    DivModUnique(q, r, d);
    DivModUnique(s, t, d);
  }

  // ---------- the streaming accumulator ----------

  /** n << bits. */
  function Shl(n: int, bits: nat): int {
    if bits == 0 then n else 2 * Shl(n, bits - 1)
  }

  /** n >> bits. */
  function Shr(n: int, bits: nat): int {
    if bits == 0 then n else Shr(n, bits - 1) / 2
  }

  lemma {:induction false} ShlIsMul(n: int, bits: nat)
    ensures Shl(n, bits) == n * Pow(2, bits)
  {
    if bits > 0 {
      ShlIsMul(n, bits - 1);
      assert 2 * (n * Pow(2, bits - 1)) == n * (2 * Pow(2, bits - 1));
    }
  }

  lemma {:induction false} ShlAdds(x: int, y: int, bits: nat)
    ensures Shl(x + y, bits) == Shl(x, bits) + Shl(y, bits)
  {
    if bits > 0 {
      ShlAdds(x, y, bits - 1);
    }
  }

  /** Shifting right drops the low bits. */
  lemma {:induction false} ShrDropsLow(n: int, bits: nat) returns (low: int)
    ensures n == Shl(Shr(n, bits), bits) + low && 0 <= low < Shl(1, bits)
  {
    if bits == 0 {
      low := 0;
    } else {
      var m := Shr(n, bits - 1);
      var q, r := m / 2, m % 2;
      low := ShrDropsLow(n, bits - 1);
      ShlAdds(2 * q, r, bits - 1);
      ShlAdds(q, q, bits - 1);
      low := low + Shl(r, bits - 1);
      assert r == 0 ==> Shl(r, bits - 1) == 0 by { ShlIsMul(0, bits - 1); }
    }
  }

  lemma {:induction false} ShrUnique(n: int, q: int, low: int, bits: nat)
    requires n == Shl(q, bits) + low && 0 <= low < Shl(1, bits)
    ensures Shr(n, bits) == q
  {
    var rest := ShrDropsLow(n, bits);
    ShlIsMul(q, bits);
    ShlIsMul(Shr(n, bits), bits);
    ShlIsMul(1, bits);
    SplitUnique(q, low, Shr(n, bits), rest, Pow(2, bits));
  }

  /** The accumulator: the bytes already out, followed by the bits held. */
  ghost predicate Holds(val: int, n: int, bits: nat, rest: int) {
    val == Shl(n, bits) + rest && 0 <= rest < Shl(1, bits)
  }

  /** Shifts five bits in, and a byte out whenever eight or more bits are held; val is never cut. */
  method StreamDecode(ds: seq<int>) returns (out: seq<int>)
    requires Quintets(ds)
    ensures Num(32, ds) >= 0 && out == Decoded(ds)
  {
    var bits, val := 0, 0;
    out := [];
    ghost var rest := 0;
    for i := 0 to |ds|
      invariant bits == LeftBits(i) && |out| == ByteCount(i) && AreDigits(256, out)
      invariant val == Num(32, ds[..i])
      invariant Holds(val, Num(256, out), bits, rest)
    {
      assert ds[..i + 1] == ds[..i] + [ds[i]];
      NumSnoc(32, ds[..i], ds[i]);
      rest := StepIn(val, Num(256, out), bits, rest, ds[i]);
      val := val * 32 + ds[i];
      bits := bits + 5;
      if bits >= 8 {
        var byte := Shr(val, bits - 8) % 256;
        rest := StepOut(val, Num(256, out), bits, rest);
        NumSnoc(256, out, byte);
        out := out + [byte];
        bits := bits - 8;
      }
    }
    assert ds[..|ds|] == ds;
    StreamEnds(ds, out, rest);
  }

  lemma {:induction false} StreamEnds(ds: seq<int>, out: seq<int>, rest: int)
    requires Quintets(ds) && AreDigits(256, out) && |out| == ByteCount(|ds|)
    requires Holds(Num(32, ds), Num(256, out), LeftBits(|ds|), rest)
    ensures Num(32, ds) >= 0 && out == Decoded(ds)
  {
    ShlIsMul(Num(256, out), LeftBits(|ds|));
    ShlIsMul(1, LeftBits(|ds|));
    DecodedUnique(ds, out, rest);
  }

  lemma {:induction false} StepIn(val: int, n: int, bits: nat, rest: int, d: int) returns (newRest: int)
    requires Holds(val, n, bits, rest) && 0 <= d < 32
    ensures Holds(val * 32 + d, n, bits + 5, newRest)
  {
    newRest := rest * 32 + d;
    Shl5(n, bits);
    Shl5(1, bits);
  }

  lemma {:induction false} Shl5(n: int, bits: nat)
    ensures Shl(n, bits + 5) == 32 * Shl(n, bits)
  {
    assert Shl(n, bits + 5) == 4 * Shl(n, bits + 3);
    assert Shl(n, bits + 3) == 4 * Shl(n, bits + 1);
  }

  lemma {:induction false} Shl8(n: int, bits: nat)
    ensures Shl(n, bits + 8) == Shl(n * 256, bits) == 256 * Shl(n, bits)
  {
    ShlIsMul(n, bits + 8);
    ShlIsMul(n * 256, bits);
    ShlIsMul(n, bits);
    Pow2Adds(bits, 8);
    Pow2Small();
    assert n * (Pow(2, bits) * 256) == (n * 256) * Pow(2, bits) == 256 * (n * Pow(2, bits));
  }

  lemma {:induction false} StepOut(val: int, n: int, bits: nat, rest: int) returns (newRest: int)
    requires bits >= 8 && Holds(val, n, bits, rest)
    ensures 0 <= Shr(val, bits - 8) % 256 < 256
    ensures Holds(val, n * 256 + Shr(val, bits - 8) % 256, bits - 8, newRest)
  {
    var b := bits - 8;
    Shl8(n, b);
    Shl8(1, b);
    newRest := ShrDropsLow(rest, b);
    var q := Shr(rest, b);
    ByteInRange(q, newRest, b);
    ShlAdds(n * 256, q, b);
    ShrUnique(val, n * 256 + q, newRest, b);
    DivModUnique(n, q, 256);
  }

  lemma {:induction false} ByteInRange(q: int, low: int, bits: nat)
    requires 0 <= Shl(q, bits) + low < 256 * Shl(1, bits) && 0 <= low < Shl(1, bits)
    ensures 0 <= q < 256
  {
    ShlIsMul(q, bits);
    ShlIsMul(1, bits);
    var p := Pow(2, bits);
    if q < 0 {
      MulMonotone(q, -1, p);
    } else if q >= 256 {
      MulMonotone(256, q, p);
    }
  }

  // ---------- the encoder by quanta ----------

  /** The number of digits for a final group of one to four bytes. */
  function FinalWidth(bytes: nat): nat {
    if bytes == 1 then 2 else if bytes == 2 then 4 else if bytes == 3 then 5 else 7
  }

  /** Five bytes become eight digits; a shorter last group is filled with zero bits on the right. */
  function Encode(b: seq<int>): seq<int>
    requires forall i :: 0 <= i < |b| ==> 0 <= b[i] < 256
  {
    if b == [] then []
    else if |b| >= 5 then
      NumNonNegative(256, b[..5]);
      Digits(32, Num(256, b[..5]), 8) + Encode(b[5..])
    else
      var w := FinalWidth(|b|);
      NumNonNegative(256, b);
      Digits(32, Num(256, b) * Pow(2, 5 * w - 8 * |b|), w)
  }

  lemma {:induction false} ShiftBelow(n: nat, d: nat, p: nat)
    requires d > 0 && n < p
    ensures 0 <= n * d < p * d
  {
    MulMonotone(n + 1, p, d);
    MulMonotone(0, n, d);
    assert (n + 1) * d == n * d + d;
  }

  /** A group of m bytes written in w digits with room for it. */
  lemma {:induction false} GroupEncodes(b: seq<int>, w: nat, pad: nat)
    requires AreDigits(256, b) && 5 * w == 8 * |b| + pad
    ensures Num(256, b) >= 0 && Num(256, b) * Pow(2, pad) >= 0
    ensures Quintets(Digits(32, Num(256, b) * Pow(2, pad), w)) && Num(32, Digits(32, Num(256, b) * Pow(2, pad), w)) == Num(256, b) * Pow(2, pad)
  {
    NumBelowPow(256, b);
    Pow32(w);
    Pow256(|b|);
    Pow2Adds(8 * |b|, pad);
    ShiftBelow(Num(256, b), Pow(2, pad), Pow(256, |b|));
    NumOfDigits(32, Num(256, b) * Pow(2, pad), w);
  }

  /** Encoding moves the number left by the padding bits, fewer than five. */
  ghost predicate Encodes(b: seq<int>, ds: seq<int>) {
    && Quintets(ds) && ByteCount(|ds|) == |b| && LeftBits(|ds|) < 5
    && Num(32, ds) == Num(256, b) * Pow(2, LeftBits(|ds|))
  }

  lemma {:induction false} FinalGroup(b: seq<int>)
    requires AreDigits(256, b) && 0 < |b| < 5
    ensures Encodes(b, Encode(b))
  {
    var w := FinalWidth(|b|);
    var pad := 5 * w - 8 * |b|;
    GroupEncodes(b, w, pad);
    BitsUnique(w, |b|, pad);
  }

  lemma {:induction false} QuantumPrepends(head: seq<int>, tail: seq<int>, e: seq<int>)
    requires AreDigits(256, head) && |head| == 5 && AreDigits(256, tail) && Encodes(tail, e)
    ensures Num(256, head) >= 0 && Encodes(head + tail, Digits(32, Num(256, head), 8) + e)
  {
    NumNonNegative(256, head);
    GroupEncodes(head, 8, 0);
    Pow2Small();
    var q := Digits(32, Num(256, head), 8);
    assert Num(256, head) * Pow(2, 0) == Num(256, head);
    BitsAddUp(|e|);
    BitsUnique(|q + e|, 5 + |tail|, LeftBits(|e|));
    NumConcat(32, q, e);
    NumConcat(256, head, tail);
    WeightsAlign(|e|);
    Align(Num(256, head), Num(256, tail), Pow(256, |tail|), Pow(2, LeftBits(|e|)));
  }

  lemma {:induction false} Align(x: int, y: int, p: int, d: int)
    ensures x * (p * d) + y * d == (x * p + y) * d
  {
  }

  lemma {:induction false} EncodedValue(b: seq<int>)
    requires AreDigits(256, b)
    ensures Encodes(b, Encode(b))
    decreases |b|
  {
    if |b| >= 5 {
      EncodedValue(b[5..]);
      QuantumPrepends(b[..5], b[5..], Encode(b[5..]));
      assert b == b[..5] + b[5..];
    } else if b != [] {
      FinalGroup(b);
    } else {
      Pow2Small();
    }
  }

  /** Decoding inverts encoding on every byte string. */
  lemma {:induction false} DecodeInvertsEncode(b: seq<int>)
    requires AreDigits(256, b)
    ensures Quintets(Encode(b)) && Num(32, Encode(b)) >= 0 && Decoded(Encode(b)) == b
  {
    EncodedValue(b);
    DecodedUnique(Encode(b), b, 0);
  }

  /** A length that whole bytes can have. */
  predicate CanonicalLength(n: nat) {
    n % 8 in {0, 2, 4, 5, 7}
  }

  lemma {:induction false} SmallBits()
    ensures LeftBits(0) == 0 && LeftBits(1) == 5 && LeftBits(2) == 2 && LeftBits(3) == 7
    ensures LeftBits(4) == 4 && LeftBits(5) == 1 && LeftBits(6) == 6 && LeftBits(7) == 3
    ensures ByteCount(2) == 1 && ByteCount(4) == 2 && ByteCount(5) == 3 && ByteCount(7) == 4
  {
    BitsUnique(2, 1, 2);
    BitsUnique(3, 1, 7);
    BitsUnique(4, 2, 4);
    BitsUnique(5, 3, 1);
    BitsUnique(6, 3, 6);
    BitsUnique(7, 4, 3);
  }

  lemma {:induction false} SameRemainder(n: nat)
    ensures CanonicalLength(n + 8) <==> CanonicalLength(n)
  {
  }

  lemma {:induction false} SmallLengths(n: nat)
    requires n < 8
    ensures CanonicalLength(n) <==> LeftBits(n) < 5
  {
    SmallBits();
    assert n % 8 == n;
  }

  lemma {:induction false} BitsRepeat(n: nat)
    ensures LeftBits(n + 8) == LeftBits(n)
  {
    BitsAddUp(n);
    BitsUnique(n + 8, ByteCount(n) + 5, LeftBits(n));
  }

  lemma {:induction false} CanonicalLengthLeavesLittle(n: nat)
    ensures CanonicalLength(n) <==> LeftBits(n) < 5
  {
    if n < 8 {
      SmallLengths(n);
    } else {
      CanonicalLengthLeavesLittle(n - 8);
      SameRemainder(n - 8);
      BitsRepeat(n - 8);
    }
  }

  lemma {:induction false} LengthOfCode(n: nat, k: nat)
    requires ByteCount(k) == ByteCount(n) && LeftBits(k) < 5
    ensures k == n <==> LeftBits(n) < 5
  {
    BitsAddUp(n);
    BitsAddUp(k);
  }

  /** Encoding inverts decoding exactly on the digit strings of a canonical length whose left-over bits are zero. */
  lemma {:induction false} EncodeInvertsDecodeExactly(ds: seq<int>)
    requires Quintets(ds)
    ensures Num(32, ds) >= 0 && AreDigits(256, Decoded(ds))
    ensures Encode(Decoded(ds)) == ds <==> CanonicalLength(|ds|) && LeftOver(ds) == 0
  {
    DecodedValue(ds);
    var b := Decoded(ds);
    EncodedValue(b);
    CanonicalLengthLeavesLittle(|ds|);
    LengthOfCode(|ds|, |Encode(b)|);
    if CanonicalLength(|ds|) && LeftOver(ds) == 0 {
      NumInjective(32, Encode(b), ds);
    }
  }

  // ---------- the decoder by quanta ----------

  /** Eight digits become five bytes; a last group is padded to eight and cut, if its length can occur. */
  function BlockDecode(ds: seq<int>): Option<seq<int>>
    requires forall i :: 0 <= i < |ds| ==> 0 <= ds[i] < 32
  {
    if ds == [] then Some([])
    else if |ds| >= 8 then
      NumNonNegative(32, ds[..8]);
      var rest := BlockDecode(ds[8..]);
      if rest == None then None else Some(Digits(256, Num(32, ds[..8]), 5) + rest.value)
    else if !CanonicalLength(|ds|) then None
    else Some(LastGroup(ds))
  }

  /** Pads with zero digits, decodes forty bits, and cuts off the bytes that the padding added. */
  function LastGroup(ds: seq<int>): seq<int>
    requires forall i :: 0 <= i < |ds| ==> 0 <= ds[i] < 32
    requires |ds| < 8
  {
    var pad := 8 - |ds|;
    NumNonNegative(32, ds);
    Digits(256, Num(32, ds) * Pow(2, 5 * pad), 5)[..(43 - 5 * pad) / 8]
  }

  lemma {:induction false} BlockDecodeStep(q: seq<int>, rest: seq<int>)
    requires Quintets(q) && |q| == 8 && Quintets(rest)
    ensures Num(32, q) >= 0
    ensures BlockDecode(q + rest) ==
            if BlockDecode(rest) == None then None else Some(Digits(256, Num(32, q), 5) + BlockDecode(rest).value)
  {
    NumNonNegative(32, q);
    assert (q + rest)[..8] == q && (q + rest)[8..] == rest;
  }

  lemma {:induction false} FullBlock(ds: seq<int>)
    requires Quintets(ds) && |ds| == 8
    ensures Num(32, ds) >= 0 && AreDigits(256, Digits(256, Num(32, ds), 5)) && Num(256, Digits(256, Num(32, ds), 5)) == Num(32, ds)
  {
    NumBelowPow(32, ds);
    Pow32(8);
    Pow256(5);
    NumOfDigits(256, Num(32, ds), 5);
  }

  lemma {:induction false} BlockPrepends(q: seq<int>, rest: seq<int>)
    requires Quintets(q) && |q| == 8 && Quintets(rest)
    ensures Num(32, q) >= 0 && Num(32, rest) >= 0 && Num(32, q + rest) >= 0
    ensures Decoded(q + rest) == Digits(256, Num(32, q), 5) + Decoded(rest)
  {
    FullBlock(q);
    DecodedValue(rest);
    NumNonNegative(32, q + rest);
    var head, tail := Digits(256, Num(32, q), 5), Decoded(rest);
    BitsAddUp(|rest|);
    BitsUnique(|q + rest|, 5 + |tail|, LeftBits(|rest|));
    PrependedValue(q, rest, head, tail);
    DecodedUnique(q + rest, head + tail, LeftOver(rest));
  }

  lemma {:induction false} PrependedValue(q: seq<int>, rest: seq<int>, head: seq<int>, tail: seq<int>)
    requires Quintets(rest) && Num(32, rest) >= 0 && tail == Decoded(rest) && |tail| == ByteCount(|rest|)
    requires Num(256, head) == Num(32, q)
    requires Num(32, rest) == Num(256, tail) * Pow(2, LeftBits(|rest|)) + LeftOver(rest)
    ensures Num(32, q + rest) == Num(256, head + tail) * Pow(2, LeftBits(|rest|)) + LeftOver(rest)
  {
    NumConcat(32, q, rest);
    NumConcat(256, head, tail);
    WeightsAlign(|rest|);
    Align(Num(32, q), Num(256, tail), Pow(256, |tail|), Pow(2, LeftBits(|rest|)));
  }

  /** The leading digits of a number written at a fixed width. */
  lemma {:induction false} PrefixValue(n: nat, width: nat, k: nat) returns (low: int)
    requires k <= width && n < Pow(256, width)
    ensures AreDigits(256, Digits(256, n, width)[..k])
    ensures n == Num(256, Digits(256, n, width)[..k]) * Pow(256, width - k) + low && 0 <= low < Pow(256, width - k)
  {
    var ds := Digits(256, n, width);
    NumOfDigits(256, n, width);
    var front, back := ds[..k], ds[k..];
    assert ds == front + back;
    NumConcat(256, front, back);
    NumBelowPow(256, back);
    low := Num(256, back);
  }

  /** Fewer than eight digits, moved up to forty bits. */
  lemma {:induction false} PaddedBelow(ds: seq<int>)
    requires Quintets(ds) && |ds| <= 8
    ensures 0 <= Num(32, ds) && 0 <= Num(32, ds) * Pow(2, 40 - 5 * |ds|) < Pow(256, 5)
  {
    NumBelowPow(32, ds);
    Pow32(|ds|);
    Pow256(5);
    Pow2Adds(5 * |ds|, 40 - 5 * |ds|);
    ShiftBelow(Num(32, ds), Pow(2, 40 - 5 * |ds|), Pow(32, |ds|));
  }

  lemma {:induction false} FinalWidths(n: nat)
    requires 0 < n < 8 && CanonicalLength(n)
    ensures ByteCount(n) <= 5 && (43 - 5 * (8 - n)) / 8 == ByteCount(n)
    ensures LeftBits(n) + (40 - 5 * n) == 8 * (5 - ByteCount(n))
  {
    SmallBits();
  }

  lemma {:induction false} FinalWeights(n: nat)
    requires 0 < n < 8 && CanonicalLength(n)
    ensures ByteCount(n) <= 5 && Pow(256, 5 - ByteCount(n)) == Pow(2, LeftBits(n)) * Pow(2, 40 - 5 * n)
  {
    FinalWidths(n);
    Pow256(5 - ByteCount(n));
    Pow2Adds(LeftBits(n), 40 - 5 * n);
  }

  lemma {:induction false} FinalBlockValue(ds: seq<int>, b: seq<int>) returns (rest: int)
    requires Quintets(ds) && 0 < |ds| < 8 && CanonicalLength(|ds|) && ByteCount(|ds|) <= 5
    requires Num(32, ds) * Pow(2, 40 - 5 * |ds|) >= 0
    requires b == Digits(256, Num(32, ds) * Pow(2, 40 - 5 * |ds|), 5)[..ByteCount(|ds|)]
    ensures AreDigits(256, b)
    ensures Num(32, ds) == Num(256, b) * Pow(2, LeftBits(|ds|)) + rest && 0 <= rest < Pow(2, LeftBits(|ds|))
  {
    PaddedBelow(ds);
    FinalWeights(|ds|);
    var low := PrefixValue(Num(32, ds) * Pow(2, 40 - 5 * |ds|), 5, ByteCount(|ds|));
    rest := Cancel(Num(32, ds), Num(256, b), Pow(2, LeftBits(|ds|)), Pow(2, 40 - 5 * |ds|), low);
  }

  lemma {:induction false} FinalBlock(ds: seq<int>)
    requires Quintets(ds) && 0 < |ds| < 8 && CanonicalLength(|ds|)
    ensures Num(32, ds) >= 0 && BlockDecode(ds) == Some(Decoded(ds))
  {
    LastGroupIs(ds);
    var rest := FinalBlockValue(ds, LastGroup(ds));
    DecodedUnique(ds, LastGroup(ds), rest);
  }

  lemma {:induction false} LastGroupIs(ds: seq<int>)
    requires Quintets(ds) && 0 < |ds| < 8 && CanonicalLength(|ds|)
    ensures ByteCount(|ds|) <= 5 && |LastGroup(ds)| == ByteCount(|ds|)
    ensures Num(32, ds) * Pow(2, 40 - 5 * |ds|) >= 0
    ensures LastGroup(ds) == Digits(256, Num(32, ds) * Pow(2, 40 - 5 * |ds|), 5)[..ByteCount(|ds|)]
  {
    FinalWidths(|ds|);
    PaddedBelow(ds);
    assert 5 * (8 - |ds|) == 40 - 5 * |ds|;
  }

  lemma {:induction false} Cancel(n: int, m: int, d: int, p: int, low: int) returns (rest: int)
    requires d > 0 && p > 0 && n * p == m * (d * p) + low && 0 <= low < d * p
    ensures n == m * d + rest && 0 <= rest < d
  {
    rest := n - m * d;
    assert rest * p == low by {
      assert (n - m * d) * p == n * p - (m * d) * p;
      assert (m * d) * p == m * (d * p);
    }
    if rest < 0 {
      MulMonotone(rest, -1, p);
    } else if rest >= d {
      MulMonotone(d, rest, p);
    }
  }

  /** The two decoders agree, except that only the streaming one reads lengths that no byte string has. */
  lemma {:induction false} DecodersAgree(ds: seq<int>)
    requires Quintets(ds)
    ensures Num(32, ds) >= 0
    ensures BlockDecode(ds) == if CanonicalLength(|ds|) then Some(Decoded(ds)) else None
    decreases |ds|
  {
    NumNonNegative(32, ds);
    if |ds| >= 8 {
      var q, rest := ds[..8], ds[8..];
      DecodersAgree(rest);
      BlockDecodeStep(q, rest);
      BlockPrepends(q, rest);
      assert ds == q + rest;
      SameRemainder(|rest|);
    } else if ds != [] && CanonicalLength(|ds|) {
      FinalBlock(ds);
    }
  }
}
