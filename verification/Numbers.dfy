/**
 Number spellings: from the shortest round-tripping decimal coefficient of a binary64 value, the spelling
 of Python's repr, its respelling by text operations, and the spelling that ECMAScript prescribes
 (section 3.2.2.3 of RFC 8785).
 */
module Numbers {
  import opened Wrappers
  import opened Unicode
  import opened Radix

  /**
   A binary64 value, up to what its spelling depends on.  A finite non-zero value is 0.d1...dk times ten to
   the power `point`, where d1...dk are the digits of its shortest round-tripping decimal form.
   */
  datatype Binary64 = NonFinite | NegativeZero | Zero | Finite(negative: bool, digits: seq<int>, point: int)

  predicate IsCoefficient(ds: seq<int>) {
    ds != [] && AreDigits(10, ds) && ds[0] != 0 && ds[|ds| - 1] != 0
  }

  predicate WellFormed(x: Binary64) {
    x.Finite? ==> IsCoefficient(x.digits)
  }

  type Number = x: Binary64 | WellFormed(x) witness Zero

  // ---------- text ----------

  const PLUS: CodePoint := '+' as int
  const MINUS: CodePoint := '-' as int
  const DOT: CodePoint := '.' as int
  const EXP: CodePoint := 'e' as int
  const ZERO: CodePoint := '0' as int

  function Code(ds: seq<int>): (t: Text)
    requires AreDigits(10, ds)
    ensures |t| == |ds|
  {
    seq(|ds|, i requires 0 <= i < |ds| => ZERO + ds[i])
  }

  predicate IsDigit(c: int) {
    ZERO <= c <= ZERO + 9
  }

  predicate AllDigits(t: Text) {
    forall i :: 0 <= i < |t| ==> IsDigit(t[i])
  }

  function Uncode(t: Text): (ds: seq<int>)
    ensures |ds| == |t|
  {
    seq(|t|, i requires 0 <= i < |t| => t[i] - ZERO)
  }

  lemma {:induction false} UncodeInverts(ds: seq<int>)
    requires AreDigits(10, ds)
    ensures AllDigits(Code(ds)) && Uncode(Code(ds)) == ds
  {
  }

  function Sign(negative: bool): Text {
    if negative then [MINUS] else []
  }

  /** Splits at the first c. */
  function Cut(t: Text, c: CodePoint): (r: Option<(Text, Text)>) {
    if t == [] then None
    else if t[0] == c then Some(([], t[1..]))
    else
      var rest := Cut(t[1..], c);
      if rest == None then None else Some(([t[0]] + rest.value.0, rest.value.1))
  }

  lemma {:induction false} CutAt(a: Text, c: CodePoint, b: Text)
    requires c !in a
    ensures Cut(a + [c] + b, c) == Some((a, b))
  {
    var t := a + [c] + b;
    if a == [] {
      assert t[1..] == b;
    } else {
      assert t[1..] == a[1..] + [c] + b;
      CutAt(a[1..], c, b);
      assert a == [a[0]] + a[1..];
    }
  }

  lemma {:induction false} CutNowhere(t: Text, c: CodePoint)
    requires c !in t
    ensures Cut(t, c) == None
  {
    if t != [] {
      CutNowhere(t[1..], c);
    }
  }

  // ---------- decimal integers ----------

  /** The decimal digits of a natural number; zero is "0". */
  function Decimal(n: nat): (ds: seq<int>)
    ensures AreDigits(10, ds) && ds != []
  {
    NumOfMinimal(10, n);
    if n == 0 then [0] else Minimal(10, n)
  }

  lemma {:induction false} DecimalValue(n: nat)
    ensures Num(10, Decimal(n)) == n
  {
    NumOfMinimal(10, n);
    if n == 0 {
      NumSnoc(10, [], 0);
      assert [] + [0] == [0];
    }
  }

  /** At least two digits. */
  function TwoDigits(n: nat): (ds: seq<int>)
    ensures AreDigits(10, ds) && ds != []
  {
    if |Decimal(n)| == 1 then [0] + Decimal(n) else Decimal(n)
  }

  lemma {:induction false} TwoDigitsValue(n: nat)
    ensures Num(10, TwoDigits(n)) == n
  {
    DecimalValue(n);
    var zero := Zeros(1);
    assert zero == [0];
    ZerosAreNothing(10, 1, Decimal(n));
  }

  lemma {:induction false} TwoDigitsExactly(n: nat)
    ensures n < 10 ==> TwoDigits(n) == [0, n]
    ensures n >= 10 ==> TwoDigits(n) == Minimal(10, n)
  {
    var none := Minimal(10, 0);
    assert none + [n] == [n];
    if n >= 10 {
      assert Minimal(10, n / 10) != [];
    }
  }

  /** An integer with an optional sign. */
  function ParseInt(t: Text): int {
    if t != [] && t[0] == MINUS then -Num(10, Uncode(t[1..]))
    else if t != [] && t[0] == PLUS then Num(10, Uncode(t[1..]))
    else Num(10, Uncode(t))
  }

  function Abs(n: int): nat {
    if n < 0 then -n else n
  }

  function ExponentSign(n: int): Text {
    if n < 0 then [MINUS] else [PLUS]
  }

  lemma {:induction false} ParseExponent(n: int, ds: seq<int>)
    requires AreDigits(10, ds) && Num(10, ds) == Abs(n)
    ensures ParseInt(ExponentSign(n) + Code(ds)) == n
  {
    var t := ExponentSign(n) + Code(ds);
    assert t[1..] == Code(ds);
    UncodeInverts(ds);
  }

  // ---------- Python's repr ----------

  /** The coefficient with a point after its first digit, if there are more. */
  function Scientific(ds: seq<int>): Text
    requires IsCoefficient(ds)
  {
    Code(ds[..1]) + if |ds| > 1 then [DOT] + Code(ds[1..]) else []
  }

  /** A coefficient with an exponent n, written with the given digits. */
  function Exponential(ds: seq<int>, n: int, exponent: seq<int>): Text
    requires IsCoefficient(ds) && AreDigits(10, exponent)
  {
    Scientific(ds) + [EXP] + (ExponentSign(n) + Code(exponent))
  }

  /** The shortest repr of an absolute value: fixed between 1e-4 and 1e16, with an exponent of two digits or more otherwise. */
  function PyRepr(ds: seq<int>, point: int): Text
    requires IsCoefficient(ds)
  {
    if -4 < point <= 16 then
      if point <= 0 then [ZERO, DOT] + Code(Zeros(-point) + ds)
      else if point < |ds| then Code(ds[..point]) + [DOT] + Code(ds[point..])
      else Code(ds + Zeros(point - |ds|)) + [DOT, ZERO]
    else Exponential(ds, point - 1, TwoDigits(Abs(point - 1)))
  }

  // ---------- the respelling by text operations ----------

  /** The integer and fraction parts of a mantissa, a fraction of "0" counting as none. */
  function Parts(mantissa: Text): (Text, Text) {
    match Cut(mantissa, DOT)
    case None => (mantissa, [])
    case Some((first, last)) => (first, if last == [ZERO] then [] else last)
  }

  function WithFraction(first: Text, last: Text): Text {
    first + if last != [] then [DOT] + last else []
  }

  function ZeroText(n: int): Text {
    if n > 0 then Code(Zeros(n)) else []
  }

  /** Moves the point of a repr with an exponent. */
  function Respell(first: Text, last: Text, exponent: int): Text {
    var digits := first + last;
    if 0 < exponent < 21 then
      var zeroCount := exponent + 1 - |digits|;
      if zeroCount >= 0 then digits + ZeroText(zeroCount)
      else digits[..exponent + 1] + [DOT] + digits[exponent + 1..]
    else if -7 < exponent < 0 then [ZERO, DOT] + ZeroText(-exponent - 1) + first + last
    else WithFraction(first, last) + [EXP] + ExponentSign(exponent) + Code(Decimal(Abs(exponent)))
  }

  function RespellText(text: Text): Text {
    match Cut(text, EXP)
    case None =>
      var (first, last) := Parts(text);
      WithFraction(first, last)
    case Some((mantissa, exponent)) =>
      var (first, last) := Parts(mantissa);
      Respell(first, last, ParseInt(exponent))
  }

  function EcmascriptNumber(x: Binary64): Text
    requires WellFormed(x) && !x.NonFinite?
  {
    if !x.Finite? then [ZERO] else Sign(x.negative) + RespellText(PyRepr(x.digits, x.point))
  }

  // ---------- the prescribed spelling ----------

  /** Number::toString of ECMAScript, with n the position of the point and k the number of digits. */
  function Prescribed(ds: seq<int>, n: int): Text
    requires IsCoefficient(ds)
  {
    var k := |ds|;
    if k <= n <= 21 then Code(ds + Zeros(n - k))
    else if 0 < n <= 21 then Code(ds[..n]) + [DOT] + Code(ds[n..])
    else if -6 < n <= 0 then [ZERO, DOT] + Code(Zeros(-n) + ds)
    else Exponential(ds, n - 1, Decimal(Abs(n - 1)))
  }

  /** The spelling without an exponent. */
  function FixedText(ds: seq<int>, n: int): Text
    requires IsCoefficient(ds)
  {
    if n <= 0 then [ZERO, DOT] + Code(Zeros(-n) + ds)
    else if n < |ds| then Code(ds[..n]) + [DOT] + Code(ds[n..])
    else Code(ds + Zeros(n - |ds|))
  }

  function NumberToString(x: Binary64): Text
    requires WellFormed(x) && !x.NonFinite?
  {
    if !x.Finite? then [ZERO] else Sign(x.negative) + Prescribed(x.digits, x.point)
  }

  lemma {:induction false} CodeHasNo(ds: seq<int>, c: CodePoint)
    requires AreDigits(10, ds) && !IsDigit(c)
    ensures c !in Code(ds)
  {
  }

  lemma {:induction false} CodeConcat(a: seq<int>, b: seq<int>)
    requires AreDigits(10, a) && AreDigits(10, b)
    ensures AreDigits(10, a + b) && Code(a + b) == Code(a) + Code(b)
  {
  }

  lemma {:induction false} PartsOf(a: seq<int>, b: seq<int>)
    requires AreDigits(10, a) && AreDigits(10, b)
    ensures Parts(Code(a) + [DOT] + Code(b)) == (Code(a), if b == [0] then [] else Code(b))
    ensures Parts(Code(a)) == (Code(a), [])
  {
    CodeHasNo(a, DOT);
    CutAt(Code(a), DOT, Code(b));
    CutNowhere(Code(a), DOT);
    if Code(b) == [ZERO] {
      UncodeInverts(b);
      assert b[0] == 0;
    }
  }

  lemma {:induction false} PartsOfScientific(ds: seq<int>)
    requires IsCoefficient(ds)
    ensures Parts(Scientific(ds)) == (Code(ds[..1]), Code(ds[1..]))
    ensures EXP !in Scientific(ds)
  {
    PartsOf(ds[..1], ds[1..]);
    CodeHasNo(ds[..1], EXP);
    CodeHasNo(ds[1..], EXP);
    if |ds| > 1 {
      assert Scientific(ds) == Code(ds[..1]) + [DOT] + Code(ds[1..]);
      assert ds[1..] != [0];
    } else {
      assert Scientific(ds) == Code(ds[..1]);
    }
  }

  /** A text with a point and no exponent, respelled. */
  lemma {:induction false} DropsZeroFraction(a: seq<int>, b: seq<int>, text: Text)
    requires AreDigits(10, a) && AreDigits(10, b) && text == Code(a) + [DOT] + Code(b)
    ensures Cut(text, EXP) == None
    ensures WithFraction(Parts(text).0, Parts(text).1) == if b == [0] || b == [] then Code(a) else text
  {
    PartsOf(a, b);
    CodeHasNo(a, EXP);
    CodeHasNo(b, EXP);
    CutNowhere(text, EXP);
  }

  /** The text of a repr without an exponent: FixedText with a fraction of "0" after a whole number. */
  lemma {:induction false} FixedRepr(ds: seq<int>, point: int, a: seq<int>, b: seq<int>)
    requires IsCoefficient(ds) && -4 < point <= 16
    requires a == if point <= 0 then [0] else if point < |ds| then ds[..point] else ds + Zeros(point - |ds|)
    requires b == if point <= 0 then Zeros(-point) + ds else if point < |ds| then ds[point..] else [0]
    ensures AreDigits(10, a) && AreDigits(10, b) && b != [] && (b == [0] <==> point >= |ds|)
    ensures PyRepr(ds, point) == Code(a) + [DOT] + Code(b)
    ensures FixedText(ds, point) == if point >= |ds| then Code(a) else PyRepr(ds, point)
  {
    assert Code([0]) == [ZERO];
    if point < |ds| {
      assert b[|b| - 1] == ds[|ds| - 1];
    }
  }

  /** A repr without an exponent only loses a fraction of "0". */
  lemma {:induction false} FixedRespelling(ds: seq<int>, point: int)
    requires IsCoefficient(ds) && -4 < point <= 16
    ensures Cut(PyRepr(ds, point), EXP) == None
    ensures WithFraction(Parts(PyRepr(ds, point)).0, Parts(PyRepr(ds, point)).1) == Prescribed(ds, point)
  {
    var a := if point <= 0 then [0] else if point < |ds| then ds[..point] else ds + Zeros(point - |ds|);
    var b := if point <= 0 then Zeros(-point) + ds else if point < |ds| then ds[point..] else [0];
    FixedRepr(ds, point, a, b);
    DropsZeroFraction(a, b, PyRepr(ds, point));
    FixedIsPrescribed(ds, point);
  }

  lemma {:induction false} WholeRespelling(ds: seq<int>, first: Text, last: Text, point: int)
    requires IsCoefficient(ds) && 1 < point <= 21 && first + last == Code(ds)
    ensures Respell(first, last, point - 1) == FixedText(ds, point)
  {
    if point >= |ds| {
      CodeConcat(ds, Zeros(point - |ds|));
    } else {
      assert Code(ds)[..point] == Code(ds[..point]) && Code(ds)[point..] == Code(ds[point..]);
    }
  }

  lemma {:induction false} FractionRespelling(ds: seq<int>, first: Text, last: Text, point: int)
    requires IsCoefficient(ds) && -6 < point < 1 && first + last == Code(ds)
    ensures Respell(first, last, point - 1) == FixedText(ds, point)
  {
    CodeConcat(Zeros(-point), ds);
    assert ZeroText(-point) == Code(Zeros(-point));
    assert Respell(first, last, point - 1) == [ZERO, DOT] + (ZeroText(-point) + (first + last));
  }

  lemma {:induction false} FixedIsPrescribed(ds: seq<int>, n: int)
    requires IsCoefficient(ds) && -6 < n <= 21
    ensures Prescribed(ds, n) == FixedText(ds, n)
  {
  }

  lemma {:induction false} MantissaIsScientific(ds: seq<int>)
    requires IsCoefficient(ds)
    ensures WithFraction(Code(ds[..1]), Code(ds[1..])) == Scientific(ds)
    ensures Code(ds[..1]) + Code(ds[1..]) == Code(ds)
  {
    assert Code(ds[1..]) == [] <==> |ds| == 1;
  }

  lemma {:induction false} ScientificRespelling(ds: seq<int>, point: int)
    requires IsCoefficient(ds) && !(-4 < point <= 16)
    ensures Respell(Code(ds[..1]), Code(ds[1..]), point - 1) == Prescribed(ds, point)
  {
    MantissaIsScientific(ds);
    RespellingCases(ds, Code(ds[..1]), Code(ds[1..]), point);
  }

  lemma {:induction false} RespellingCases(ds: seq<int>, first: Text, last: Text, point: int)
    requires IsCoefficient(ds) && !(-4 < point <= 16)
    requires first + last == Code(ds) && WithFraction(first, last) == Scientific(ds)
    ensures Respell(first, last, point - 1) == Prescribed(ds, point)
  {
    if -6 < point <= 21 {
      FixedIsPrescribed(ds, point);
      if point > 1 {
        WholeRespelling(ds, first, last, point);
      } else {
        FractionRespelling(ds, first, last, point);
      }
    } else {
      ExponentStays(ds, first, last, point);
    }
  }

  lemma {:induction false} ExponentStays(ds: seq<int>, first: Text, last: Text, point: int)
    requires IsCoefficient(ds) && !(-6 < point <= 21) && WithFraction(first, last) == Scientific(ds)
    ensures Respell(first, last, point - 1) == Prescribed(ds, point)
  {
  }

  /** An exponent reads back, with or without padding. */
  lemma {:induction false} CutOfExponential(ds: seq<int>, n: int, exponent: seq<int>)
    requires IsCoefficient(ds) && AreDigits(10, exponent) && Num(10, exponent) == Abs(n)
    ensures Cut(Exponential(ds, n, exponent), EXP) == Some((Scientific(ds), ExponentSign(n) + Code(exponent)))
    ensures ParseInt(ExponentSign(n) + Code(exponent)) == n
  {
    PartsOfScientific(ds);
    ParseExponent(n, exponent);
    CutAt(Scientific(ds), EXP, ExponentSign(n) + Code(exponent));
  }

  lemma {:induction false} RespellingOfRepr(ds: seq<int>, point: int, text: Text)
    requires IsCoefficient(ds) && text == PyRepr(ds, point)
    ensures RespellText(text) == Prescribed(ds, point)
  {
    if -4 < point <= 16 {
      FixedRespelling(ds, point);
    } else {
      var exponent := TwoDigits(Abs(point - 1));
      TwoDigitsValue(Abs(point - 1));
      ExponentialRespelling(ds, point, exponent);
    }
  }

  lemma {:induction false} ExponentialRespelling(ds: seq<int>, point: int, exponent: seq<int>)
    requires IsCoefficient(ds) && !(-4 < point <= 16)
    requires AreDigits(10, exponent) && Num(10, exponent) == Abs(point - 1)
    ensures RespellText(Exponential(ds, point - 1, exponent)) == Prescribed(ds, point)
  {
    PartsOfScientific(ds);
    CutOfExponential(ds, point - 1, exponent);
    ScientificRespelling(ds, point);
  }

  /** The text operations on Python's repr yield the spelling that ECMAScript prescribes, for every coefficient and exponent. */
  lemma {:induction false} RespellingIsPrescribed(x: Binary64)
    requires WellFormed(x) && !x.NonFinite?
    ensures EcmascriptNumber(x) == NumberToString(x)
  {
    if x.Finite? {
      RespellingOfRepr(x.digits, x.point, PyRepr(x.digits, x.point));
    }
  }

  // ---------- what a spelling denotes ----------

  /** m times ten to the power e. */
  function Scaled(m: int, e: int): real
    decreases Abs(e)
  {
    if e == 0 then m as real else if e > 0 then 10.0 * Scaled(m, e - 1) else Scaled(m, e + 1) / 10.0
  }

  lemma {:induction false} ScaledTimesTen(m: int, e: int)
    ensures Scaled(m * 10, e) == Scaled(m, e + 1)
    decreases Abs(e)
  {
    if e > 0 {
      ScaledTimesTen(m, e - 1);
    } else if e < 0 {
      ScaledTimesTen(m, e + 1);
      assert Scaled(m, e + 1) == Scaled(m, e + 2) / 10.0 || e == -1;
    }
  }

  lemma {:induction false} ScaledZero(e: int)
    ensures Scaled(0, e) == 0.0
    decreases Abs(e)
  {
    if e > 0 {
      ScaledZero(e - 1);
    } else if e < 0 {
      ScaledZero(e + 1);
    }
  }

  /** A decimal: 0.d1...dk times ten to the power `point`, leading and trailing zeros allowed. */
  datatype DecimalForm = DecimalForm(negative: bool, digits: seq<int>, point: int)

  function Amount(d: DecimalForm): real {
    var m := Num(10, d.digits);
    Scaled(if d.negative then -m else m, d.point - |d.digits|)
  }

  /** Reads a number: sign, integer part, fraction and exponent. */
  function ReadNumber(t: Text): DecimalForm {
    if t != [] && t[0] == MINUS then ReadMagnitude(true, t[1..]) else ReadMagnitude(false, t)
  }

  function ReadMagnitude(negative: bool, body: Text): DecimalForm {
    match Cut(body, EXP)
    case None => ReadMantissa(negative, body, 0)
    case Some((mantissa, exponent)) => ReadMantissa(negative, mantissa, ParseInt(exponent))
  }

  function ReadMantissa(negative: bool, mantissa: Text, exponent: int): DecimalForm {
    match Cut(mantissa, DOT)
    case None => DecimalForm(negative, Uncode(mantissa), |mantissa| + exponent)
    case Some((first, last)) => DecimalForm(negative, Uncode(first) + Uncode(last), |first| + exponent)
  }

  /** Drops leading and trailing zeros. */
  function Normalise(d: DecimalForm): Binary64
    decreases |d.digits|
  {
    var ds := d.digits;
    if ds == [] then Zero
    else if ds[0] == 0 then Normalise(d.(digits := ds[1..], point := d.point - 1))
    else if ds[|ds| - 1] == 0 then Normalise(d.(digits := ds[..|ds| - 1]))
    else Finite(d.negative, ds, d.point)
  }

  lemma {:induction false} NormaliseTrailing(negative: bool, ds: seq<int>, j: nat, point: int)
    requires IsCoefficient(ds)
    ensures Normalise(DecimalForm(negative, ds + Zeros(j), point)) == Finite(negative, ds, point)
  {
    if j == 0 {
      assert ds + Zeros(0) == ds;
    } else {
      NormaliseTrailing(negative, ds, j - 1, point);
      var all := ds + Zeros(j);
      assert all[0] != 0 && all[|all| - 1] == 0;
      assert all[..|all| - 1] == ds + Zeros(j - 1);
    }
  }

  lemma {:induction false} NormaliseZeros(negative: bool, k: nat, ds: seq<int>, j: nat, point: int)
    requires IsCoefficient(ds)
    ensures Normalise(DecimalForm(negative, Zeros(k) + ds + Zeros(j), point)) == Finite(negative, ds, point - k)
  {
    if k == 0 {
      NormaliseTrailing(negative, ds, j, point);
      assert Zeros(0) + ds + Zeros(j) == ds + Zeros(j);
    } else {
      NormaliseZeros(negative, k - 1, ds, j, point - 1);
      var all := Zeros(k) + ds + Zeros(j);
      assert all[0] == 0;
      assert all[1..] == Zeros(k - 1) + ds + Zeros(j);
    }
  }

  lemma {:induction false} LeadingZeroIsNothing(d: DecimalForm, ds: seq<int>)
    requires d.digits == ds && ds != [] && ds[0] == 0 && AreDigits(10, ds)
    ensures Amount(d) == Amount(DecimalForm(d.negative, ds[1..], d.point - 1))
  {
    assert ds == Zeros(1) + ds[1..];
    ZerosAreNothing(10, 1, ds[1..]);
  }

  lemma {:induction false} TrailingZeroScales(d: DecimalForm, ds: seq<int>)
    requires d.digits == ds && ds != [] && ds[|ds| - 1] == 0
    ensures Amount(d) == Amount(DecimalForm(d.negative, ds[..|ds| - 1], d.point))
  {
    var m := Num(10, ds[..|ds| - 1]);
    assert Num(10, ds) == m * 10;
    ScaledTimesTen(if d.negative then -m else m, d.point - |ds|);
  }

  /** Dropping zeros does not change the number. */
  lemma {:induction false} NormaliseKeepsAmount(d: DecimalForm, x: Binary64)
    requires AreDigits(10, d.digits) && x == Normalise(d)
    ensures x.Zero? ==> Amount(d) == 0.0
    ensures x.Finite? ==> Amount(d) == Amount(DecimalForm(x.negative, x.digits, x.point))
    decreases |d.digits|
  {
    var ds := d.digits;
    if ds == [] {
      ScaledZero(d.point);
    } else if ds[0] == 0 {
      LeadingZeroIsNothing(d, ds);
      NormaliseKeepsAmount(DecimalForm(d.negative, ds[1..], d.point - 1), x);
    } else if ds[|ds| - 1] == 0 {
      TrailingZeroScales(d, ds);
      NormaliseKeepsAmount(DecimalForm(d.negative, ds[..|ds| - 1], d.point), x);
    }
  }

  lemma {:induction false} ReadSigned(negative: bool, body: Text, t: Text)
    requires body != [] && body[0] != MINUS && t == Sign(negative) + body
    ensures ReadNumber(t) == ReadMagnitude(negative, body)
  {
    assert if negative then t[1..] == body else t == body;
  }

  lemma {:induction false} ReadPlain(negative: bool, a: seq<int>, t: Text)
    requires AreDigits(10, a) && a != []
    requires t == Sign(negative) + Code(a)
    ensures ReadNumber(t) == DecimalForm(negative, a, |a|)
  {
    assert Code(a)[0] == ZERO + a[0];
    ReadSigned(negative, Code(a), t);
    CodeHasNo(a, EXP);
    CutNowhere(Code(a), EXP);
    ReadMantissaOf(negative, a, [], 0);
  }

  lemma {:induction false} ReadPoint(negative: bool, a: seq<int>, b: seq<int>, t: Text)
    requires AreDigits(10, a) && AreDigits(10, b) && a != []
    requires t == Sign(negative) + (Code(a) + [DOT] + Code(b))
    ensures ReadNumber(t) == DecimalForm(negative, a + b, |a|)
  {
    var body := Code(a) + [DOT] + Code(b);
    assert body[0] == ZERO + a[0];
    ReadSigned(negative, body, t);
    CodeHasNo(a, EXP);
    CodeHasNo(b, EXP);
    CutNowhere(body, EXP);
    ReadMantissaOf(negative, a, b, 0);
  }

  lemma {:induction false} ReadMantissaOf(negative: bool, a: seq<int>, b: seq<int>, e: int)
    requires AreDigits(10, a) && AreDigits(10, b)
    ensures ReadMantissa(negative, Code(a) + [DOT] + Code(b), e) == DecimalForm(negative, a + b, |a| + e)
    ensures ReadMantissa(negative, Code(a), e) == DecimalForm(negative, a, |a| + e)
  {
    CodeHasNo(a, DOT);
    CutAt(Code(a), DOT, Code(b));
    CutNowhere(Code(a), DOT);
    UncodeInverts(a);
    UncodeInverts(b);
  }

  lemma {:induction false} MantissaOfScientific(negative: bool, ds: seq<int>, e: int)
    requires IsCoefficient(ds)
    ensures ReadMantissa(negative, Scientific(ds), e) == DecimalForm(negative, ds, 1 + e)
  {
    ReadMantissaOf(negative, ds[..1], ds[1..], e);
    assert ds[..1] + ds[1..] == ds;
    if |ds| == 1 {
      assert ds[..1] == ds;
      assert Scientific(ds) == Code(ds[..1]);
    } else {
      assert Scientific(ds) == Code(ds[..1]) + [DOT] + Code(ds[1..]);
    }
  }

  lemma {:induction false} ReadExponential(negative: bool, ds: seq<int>, n: int, exponent: seq<int>, t: Text)
    requires IsCoefficient(ds) && AreDigits(10, exponent) && Num(10, exponent) == Abs(n)
    requires t == Sign(negative) + Exponential(ds, n, exponent)
    ensures ReadNumber(t) == DecimalForm(negative, ds, 1 + n)
  {
    assert Exponential(ds, n, exponent)[0] == ZERO + ds[0];
    ReadSigned(negative, Exponential(ds, n, exponent), t);
    CutOfExponential(ds, n, exponent);
    MantissaOfScientific(negative, ds, n);
  }

  /** Digits with the point outside or inside. */
  lemma {:induction false} ReadFixed(negative: bool, ds: seq<int>, n: int, t: Text)
    requires IsCoefficient(ds)
    requires t == Sign(negative) + FixedText(ds, n)
    ensures AreDigits(10, ReadNumber(t).digits)
    ensures Normalise(ReadNumber(t)) == Finite(negative, ds, n)
  {
    if n <= 0 {
      ReadSmall(negative, ds, n, t);
    } else if n < |ds| {
      ReadInside(negative, ds, n, t);
    } else {
      ReadWhole(negative, ds, n, t);
    }
  }

  lemma {:induction false} ReadInside(negative: bool, ds: seq<int>, n: int, t: Text)
    requires IsCoefficient(ds) && 0 < n < |ds|
    requires t == Sign(negative) + (Code(ds[..n]) + [DOT] + Code(ds[n..]))
    ensures ReadNumber(t) == DecimalForm(negative, ds, n)
    ensures Normalise(ReadNumber(t)) == Finite(negative, ds, n)
  {
    ReadPoint(negative, ds[..n], ds[n..], t);
    assert ds[..n] + ds[n..] == ds;
  }

  lemma {:induction false} ReadWhole(negative: bool, ds: seq<int>, n: int, t: Text)
    requires IsCoefficient(ds) && n >= |ds|
    requires t == Sign(negative) + Code(ds + Zeros(n - |ds|))
    ensures AreDigits(10, ReadNumber(t).digits)
    ensures Normalise(ReadNumber(t)) == Finite(negative, ds, n)
  {
    ReadWholeDigits(negative, ds, n - |ds|, ds + Zeros(n - |ds|), t);
  }

  /** Digits before the point, with zeros at the end. */
  lemma {:induction false} ReadWholeDigits(negative: bool, ds: seq<int>, j: nat, a: seq<int>, t: Text)
    requires IsCoefficient(ds) && a == ds + Zeros(j) && t == Sign(negative) + Code(a)
    ensures AreDigits(10, ReadNumber(t).digits)
    ensures Normalise(ReadNumber(t)) == Finite(negative, ds, |a|)
  {
    assert a != [];
    ReadPlain(negative, a, t);
    NormaliseTrailing(negative, ds, j, |a|);
  }

  lemma {:induction false} ReadSmall(negative: bool, ds: seq<int>, n: int, t: Text)
    requires IsCoefficient(ds) && n <= 0
    requires t == Sign(negative) + ([ZERO, DOT] + Code(Zeros(-n) + ds))
    ensures AreDigits(10, ReadNumber(t).digits)
    ensures Normalise(ReadNumber(t)) == Finite(negative, ds, n)
  {
    assert Code([0]) == [ZERO];
    assert [ZERO, DOT] + Code(Zeros(-n) + ds) == Code([0]) + [DOT] + Code(Zeros(-n) + ds);
    ReadPoint(negative, [0], Zeros(-n) + ds, t);
    assert [0] + (Zeros(-n) + ds) == Zeros(1 - n) + ds + Zeros(0);
    NormaliseZeros(negative, 1 - n, ds, 0, 1);
  }

  lemma {:induction false} ReadTrailing(negative: bool, ds: seq<int>, n: int, t: Text)
    requires IsCoefficient(ds) && n >= |ds|
    requires t == Sign(negative) + (Code(ds + Zeros(n - |ds|)) + [DOT, ZERO])
    ensures AreDigits(10, ReadNumber(t).digits)
    ensures Normalise(ReadNumber(t)) == Finite(negative, ds, n)
  {
    ReadTrailingZero(negative, ds, n - |ds|, ds + Zeros(n - |ds|), t);
  }

  lemma {:induction false} ReadTrailingZero(negative: bool, ds: seq<int>, j: nat, a: seq<int>, t: Text)
    requires IsCoefficient(ds) && a == ds + Zeros(j) && t == Sign(negative) + (Code(a) + [DOT, ZERO])
    ensures AreDigits(10, ReadNumber(t).digits)
    ensures Normalise(ReadNumber(t)) == Finite(negative, ds, |a|)
  {
    assert a != [];
    assert Code([0]) == [ZERO];
    assert Code(a) + [DOT, ZERO] == Code(a) + [DOT] + Code([0]);
    ReadPoint(negative, a, [0], t);
    assert a + [0] == ds + Zeros(j + 1);
    NormaliseTrailing(negative, ds, j + 1, |a|);
  }

  /** The prescribed spelling reads back as the value it spells. */
  lemma {:induction false} PrescribedReadsBack(negative: bool, ds: seq<int>, n: int, t: Text)
    requires IsCoefficient(ds) && t == Sign(negative) + Prescribed(ds, n)
    ensures AreDigits(10, ReadNumber(t).digits)
    ensures Normalise(ReadNumber(t)) == Finite(negative, ds, n)
  {
    if -6 < n <= 21 {
      FixedIsPrescribed(ds, n);
      ReadFixed(negative, ds, n, t);
    } else {
      DecimalValue(Abs(n - 1));
      ReadExponential(negative, ds, n - 1, Decimal(Abs(n - 1)), t);
    }
  }

  lemma {:induction false} ReprReadsBack(negative: bool, ds: seq<int>, n: int, t: Text)
    requires IsCoefficient(ds) && t == Sign(negative) + PyRepr(ds, n)
    ensures AreDigits(10, ReadNumber(t).digits)
    ensures Normalise(ReadNumber(t)) == Finite(negative, ds, n)
  {
    if !(-4 < n <= 16) {
      TwoDigitsValue(Abs(n - 1));
      ReadExponential(negative, ds, n - 1, TwoDigits(Abs(n - 1)), t);
    } else if n < |ds| {
      assert PyRepr(ds, n) == FixedText(ds, n);
      ReadFixed(negative, ds, n, t);
    } else {
      ReadTrailing(negative, ds, n, t);
    }
  }

  /** Respelling never changes the number: Python's repr and the text made of it denote the value exactly. */
  lemma {:induction false} SpellingsDenoteTheValue(x: Binary64)
    requires WellFormed(x) && x.Finite?
    ensures Amount(ReadNumber(Sign(x.negative) + PyRepr(x.digits, x.point)))
         == Amount(ReadNumber(EcmascriptNumber(x)))
         == Amount(DecimalForm(x.negative, x.digits, x.point))
  {
    var repr, text := Sign(x.negative) + PyRepr(x.digits, x.point), EcmascriptNumber(x);
    RespellingIsPrescribed(x);
    PrescribedReadsBack(x.negative, x.digits, x.point, text);
    ReprReadsBack(x.negative, x.digits, x.point, repr);
    NormaliseKeepsAmount(ReadNumber(text), x);
    NormaliseKeepsAmount(ReadNumber(repr), x);
  }

  function ParseNumber(t: Text): Binary64 {
    Normalise(ReadNumber(t))
  }

  /** The number parser recovers every admitted value from its spelling. */
  lemma {:induction false} ParseNumberInverts(x: Binary64)
    requires WellFormed(x) && (x.Zero? || x.Finite?)
    ensures ParseNumber(NumberToString(x)) == x
  {
    if x.Finite? {
      PrescribedReadsBack(x.negative, x.digits, x.point, NumberToString(x));
    } else {
      assert Code([0]) == [ZERO];
      ReadPlain(false, [0], [ZERO]);
    }
  }

  // ---------- the characters of a number ----------

  predicate IsNumeric(c: int) {
    IsDigit(c) || c == PLUS || c == MINUS || c == DOT || c == EXP
  }

  predicate AllNumeric(t: Text) {
    forall i :: 0 <= i < |t| ==> IsNumeric(t[i])
  }

  lemma {:induction false} NumericConcat(a: Text, b: Text)
    requires AllNumeric(a) && AllNumeric(b)
    ensures AllNumeric(a + b)
  {
  }

  lemma {:induction false} CodeIsNumeric(ds: seq<int>)
    requires AreDigits(10, ds)
    ensures AllNumeric(Code(ds))
  {
  }

  lemma {:induction false} DigitFirst(ds: seq<int>)
    requires AreDigits(10, ds) && ds != []
    ensures Code(ds) != [] && IsDigit(Code(ds)[0]) && AllNumeric(Code(ds))
  {
    CodeIsNumeric(ds);
  }

  lemma {:induction false} FixedIsNumeric(ds: seq<int>, n: int)
    requires IsCoefficient(ds)
    ensures FixedText(ds, n) != [] && IsDigit(FixedText(ds, n)[0]) && AllNumeric(FixedText(ds, n))
  {
    if n <= 0 {
      DigitFirst(Zeros(-n) + ds);
      NumericConcat([ZERO, DOT], Code(Zeros(-n) + ds));
    } else if n < |ds| {
      DigitFirst(ds[..n]);
      DigitFirst(ds[n..]);
      NumericConcat(Code(ds[..n]), [DOT]);
      NumericConcat(Code(ds[..n]) + [DOT], Code(ds[n..]));
    } else {
      DigitFirst(ds + Zeros(n - |ds|));
    }
  }

  lemma {:induction false} ExponentialIsNumeric(ds: seq<int>, n: int, exponent: seq<int>)
    requires IsCoefficient(ds) && AreDigits(10, exponent)
    ensures Exponential(ds, n, exponent) != [] && IsDigit(Exponential(ds, n, exponent)[0])
    ensures AllNumeric(Exponential(ds, n, exponent))
  {
    CodeIsNumeric(ds[..1]);
    CodeIsNumeric(ds[1..]);
    CodeIsNumeric(exponent);
    NumericConcat(Scientific(ds), [EXP]);
    NumericConcat(ExponentSign(n), Code(exponent));
    NumericConcat(Scientific(ds) + [EXP], ExponentSign(n) + Code(exponent));
    assert Scientific(ds)[0] == ZERO + ds[0];
  }

  lemma {:induction false} PrescribedIsNumeric(ds: seq<int>, n: int)
    requires IsCoefficient(ds)
    ensures Prescribed(ds, n) != [] && IsDigit(Prescribed(ds, n)[0]) && AllNumeric(Prescribed(ds, n))
  {
    if -6 < n <= 21 {
      FixedIsPrescribed(ds, n);
      FixedIsNumeric(ds, n);
    } else {
      ExponentialIsNumeric(ds, n - 1, Decimal(Abs(n - 1)));
    }
  }

  /** A spelling has only characters of a number, so that a comma, a bracket or a brace ends it. */
  lemma {:induction false} SpellingIsNumeric(x: Binary64)
    requires WellFormed(x) && !x.NonFinite?
    ensures NumberToString(x) != [] && AllNumeric(NumberToString(x))
    ensures IsDigit(NumberToString(x)[0]) || NumberToString(x)[0] == MINUS
  {
    if x.Finite? {
      PrescribedIsNumeric(x.digits, x.point);
      NumericConcat(Sign(x.negative), Prescribed(x.digits, x.point));
    }
  }

  // ---------- integers ----------

  /** The binary64 value of an integer that has one. */
  function FromInteger(v: int): (x: Number)
    ensures x.Zero? || x.Finite?
  {
    IntegerIsExact(v);
    Normalise(DecimalForm(v < 0, Decimal(Abs(v)), |Decimal(Abs(v))|))
  }

  /** Whether the value is an integer: all digits come before the point. */
  predicate IsInteger(x: Binary64) {
    x.Finite? ==> |x.digits| <= x.point
  }

  /** The magnitude of an integer value. */
  function Magnitude(x: Binary64): int
    requires x.Finite? && IsInteger(x)
  {
    Num(10, x.digits + Zeros(x.point - |x.digits|))
  }

  lemma {:induction false} NormaliseWellFormed(d: DecimalForm)
    requires AreDigits(10, d.digits)
    ensures WellFormed(Normalise(d)) && (Normalise(d).Zero? || Normalise(d).Finite?)
    ensures |d.digits| <= d.point ==> IsInteger(Normalise(d))
    decreases |d.digits|
  {
    var ds := d.digits;
    if ds != [] && ds[0] == 0 {
      NormaliseWellFormed(DecimalForm(d.negative, ds[1..], d.point - 1));
    } else if ds != [] && ds[|ds| - 1] == 0 {
      NormaliseWellFormed(DecimalForm(d.negative, ds[..|ds| - 1], d.point));
    }
  }

  lemma {:induction false} IntegerIsExact(v: int)
    ensures WellFormed(Normalise(DecimalForm(v < 0, Decimal(Abs(v)), |Decimal(Abs(v))|)))
    ensures Normalise(DecimalForm(v < 0, Decimal(Abs(v)), |Decimal(Abs(v))|)).Zero?
         || Normalise(DecimalForm(v < 0, Decimal(Abs(v)), |Decimal(Abs(v))|)).Finite?
  {
    NormaliseWellFormed(DecimalForm(v < 0, Decimal(Abs(v)), |Decimal(Abs(v))|));
  }
}
