/** Positional numerals, most significant digit first, in any base. */
module Radix {
  type Base = b: int | b >= 2 witness 2

  predicate AreDigits(base: Base, ds: seq<int>) {
    forall i :: 0 <= i < |ds| ==> 0 <= ds[i] < base
  }

  function Num(base: Base, ds: seq<int>): int {
    if ds == [] then 0 else Num(base, ds[..|ds| - 1]) * base + ds[|ds| - 1]
  }

  function Pow(base: int, n: nat): (p: int)
    ensures base > 0 ==> p > 0
  {
    if n == 0 then 1 else Pow(base, n - 1) * base
  }

  /** The digits of n at a fixed width; more significant digits are cut off. */
  function Digits(base: Base, n: nat, width: nat): (ds: seq<int>)
    ensures |ds| == width
  {
    if width == 0 then [] else Digits(base, n / base, width - 1) + [n % base]
  }

  /** The digits of n without leading zeros. */
  function Minimal(base: Base, n: nat): seq<int> {
    if n == 0 then [] else
      DivSmaller(n, base);
      Minimal(base, n / base) + [n % base]
  }

  // ---------- division with remainder ----------

  lemma {:induction false} MulMonotone(a: int, b: int, c: int)
    requires a <= b && c >= 0
    ensures a * c <= b * c
  {
  }

  lemma {:induction false} DivSmaller(n: nat, b: Base)
    requires n > 0
    ensures 0 <= n / b < n
  {
    var q := n / b;
    assert n == q * b + n % b;
    MulMonotone(2, b, q);
  }

  lemma {:induction false} MulInjective(x: int, b: int)
    requires b > 0 && -b < x * b < b
    ensures x == 0
  {
  }

  /** Quotient and remainder are unique. */
  lemma {:induction false} DivModUnique(q: int, r: int, b: int)
    requires b > 0 && 0 <= r < b
    ensures (q * b + r) / b == q && (q * b + r) % b == r
  {
    var n := q * b + r;
    var x := n / b - q;
    assert n == (n / b) * b + n % b;
    assert x * b == r - n % b;
    MulInjective(x, b);
  }

  // ---------- digits and numbers determine each other ----------

  lemma {:induction false} NumNonNegative(base: Base, ds: seq<int>)
    requires AreDigits(base, ds)
    ensures Num(base, ds) >= 0
  {
    if ds != [] {
      NumNonNegative(base, ds[..|ds| - 1]);
      assert Num(base, ds[..|ds| - 1]) * base >= 0;
    }
  }

  lemma {:induction false} NumBelowPow(base: Base, ds: seq<int>)
    requires AreDigits(base, ds)
    ensures 0 <= Num(base, ds) < Pow(base, |ds|)
  {
    if ds != [] {
      var n, p := Num(base, ds[..|ds| - 1]), Pow(base, |ds| - 1);
      NumBelowPow(base, ds[..|ds| - 1]);
      MulMonotone(0, n, base);
      MulMonotone(n + 1, p, base);
      assert (n + 1) * base == n * base + base;
    }
  }

  lemma {:induction false} LastDigit(base: Base, ds: seq<int>)
    requires AreDigits(base, ds) && ds != []
    ensures Num(base, ds) / base == Num(base, ds[..|ds| - 1]) && Num(base, ds) % base == ds[|ds| - 1]
  {
    DivModUnique(Num(base, ds[..|ds| - 1]), ds[|ds| - 1], base);
  }

  /** Digits of equal width and equal value are equal. */
  lemma {:induction false} NumInjective(base: Base, a: seq<int>, b: seq<int>)
    requires AreDigits(base, a) && AreDigits(base, b) && |a| == |b| && Num(base, a) == Num(base, b)
    ensures a == b
  {
    if a != [] {
      LastDigit(base, a);
      LastDigit(base, b);
      NumInjective(base, a[..|a| - 1], b[..|b| - 1]);
      assert a == a[..|a| - 1] + [a[|a| - 1]] && b == b[..|b| - 1] + [b[|b| - 1]];
    }
  }

  lemma {:induction false} DivBelow(n: nat, b: Base, p: int)
    requires n < p * b
    ensures 0 <= n / b < p
  {
    var q := n / b;
    assert n == q * b + n % b;
    if p <= q {
      MulMonotone(p, q, b);
    }
  }

  lemma {:induction false} NumSnoc(base: Base, ds: seq<int>, d: int)
    ensures Num(base, ds + [d]) == Num(base, ds) * base + d
  {
    assert (ds + [d])[..|ds|] == ds;
  }

  lemma {:induction false} Remainder(n: int, base: int)
    requires base > 0
    ensures n == n / base * base + n % base && 0 <= n % base < base
  {
  }

  lemma {:induction false} NumOfDigits(base: Base, n: nat, width: nat)
    requires n < Pow(base, width)
    ensures AreDigits(base, Digits(base, n, width)) && Num(base, Digits(base, n, width)) == n
  {
    if width > 0 {
      Remainder(n, base);
      DivBelow(n, base, Pow(base, width - 1));
      NumOfDigits(base, n / base, width - 1);
      NumSnoc(base, Digits(base, n / base, width - 1), n % base);
    }
  }

  lemma {:induction false} NumOfMinimal(base: Base, n: nat)
    ensures AreDigits(base, Minimal(base, n)) && Num(base, Minimal(base, n)) == n
    ensures Minimal(base, n) != [] ==> Minimal(base, n)[0] != 0
    ensures Minimal(base, n) == [] <==> n == 0
  {
    if n > 0 {
      var q, r := n / base, n % base;
      assert n == q * base + r;
      DivSmaller(n, base);
      NumOfMinimal(base, q);
      var front := Minimal(base, q);
      assert Minimal(base, n) == front + [r];
      NumSnoc(base, front, r);
      if front == [] {
        assert q * base == 0;
      }
    }
  }

  lemma {:induction false} NumPositive(base: Base, ds: seq<int>)
    requires AreDigits(base, ds) && ds != [] && ds[0] != 0
    ensures Num(base, ds) > 0
  {
    if |ds| > 1 {
      NumPositive(base, ds[..|ds| - 1]);
      assert Num(base, ds[..|ds| - 1]) * base > 0;
    } else {
      assert ds[..0] == [];
    }
  }

  lemma {:induction false} MinimalOfNum(base: Base, ds: seq<int>)
    requires AreDigits(base, ds) && (ds != [] ==> ds[0] != 0)
    ensures Num(base, ds) >= 0 && Minimal(base, Num(base, ds)) == ds
  {
    NumNonNegative(base, ds);
    if ds != [] {
      NumPositive(base, ds);
      LastDigit(base, ds);
      MinimalOfNum(base, ds[..|ds| - 1]);
      assert ds == ds[..|ds| - 1] + [ds[|ds| - 1]];
    }
  }

  lemma {:induction false} MulDistributes(x: int, p: int, y: int, b: int)
    ensures (x * p + y) * b == x * (p * b) + y * b
  {
  }

  lemma {:induction false} NumConcat(base: Base, a: seq<int>, b: seq<int>)
    ensures Num(base, a + b) == Num(base, a) * Pow(base, |b|) + Num(base, b)
  {
    if b == [] {
      assert a + b == a;
    } else {
      var front, d := b[..|b| - 1], b[|b| - 1];
      assert a + b == (a + front) + [d] && b == front + [d];
      NumConcat(base, a, front);
      NumSnoc(base, a + front, d);
      NumSnoc(base, front, d);
      MulDistributes(Num(base, a), Pow(base, |front|), Num(base, front), base);
    }
  }

  // ---------- recoding with leading zeros kept ----------

  function LeadingZeros(ds: seq<int>): (k: nat)
    ensures k <= |ds|
    ensures forall i :: 0 <= i < k ==> ds[i] == 0
    ensures k < |ds| ==> ds[k] != 0
  {
    if ds == [] || ds[0] != 0 then 0 else 1 + LeadingZeros(ds[1..])
  }

  function Zeros(n: nat): (z: seq<int>)
    ensures |z| == n && forall i :: 0 <= i < n ==> z[i] == 0
  {
    seq(n, _ => 0)
  }

  /** Each leading zero stays a zero; the rest is converted as a number. */
  function Recode(from: Base, to: Base, ds: seq<int>): seq<int>
    requires Num(from, ds) >= 0
  {
    Zeros(LeadingZeros(ds)) + Minimal(to, Num(from, ds))
  }

  lemma {:induction false} ZerosAreNothing(base: Base, k: nat, ds: seq<int>)
    ensures Num(base, Zeros(k) + ds) == Num(base, ds)
  {
    NumConcat(base, Zeros(k), ds);
    NumOfZeros(base, k);
  }

  lemma {:induction false} NumOfZeros(base: Base, k: nat)
    ensures Num(base, Zeros(k)) == 0
  {
    if k > 0 {
      assert Zeros(k)[..k - 1] == Zeros(k - 1);
      NumOfZeros(base, k - 1);
    }
  }

  lemma {:induction false} LeadingZerosOf(k: nat, ds: seq<int>)
    requires ds != [] ==> ds[0] != 0
    ensures LeadingZeros(Zeros(k) + ds) == k
  {
    if k > 0 {
      assert (Zeros(k) + ds)[1..] == Zeros(k - 1) + ds;
      LeadingZerosOf(k - 1, ds);
    } else {
      assert Zeros(0) + ds == ds;
    }
  }

  /** Zeros stay zeros, and the rest is written without further zeros. */
  lemma {:induction false} RecodeSplits(from: Base, to: Base, k: nat, core: seq<int>)
    requires core != [] ==> core[0] != 0
    requires Num(from, Zeros(k) + core) >= 0 && Num(from, core) >= 0
    ensures Recode(from, to, Zeros(k) + core) == Zeros(k) + Minimal(to, Num(from, core))
  {
    LeadingZerosOf(k, core);
    ZerosAreNothing(from, k, core);
  }

  /** Converting to another base and back restores the digits: nothing is lost, and nothing else is hit. */
  lemma {:induction false} RecodeInverts(from: Base, to: Base, ds: seq<int>)
    requires AreDigits(from, ds)
    ensures Num(from, ds) >= 0 && AreDigits(to, Recode(from, to, ds))
    ensures Num(to, Recode(from, to, ds)) == Num(from, ds)
    ensures Recode(to, from, Recode(from, to, ds)) == ds
  {
    NumNonNegative(from, ds);
    var k := LeadingZeros(ds);
    var core := ds[k..];
    assert ds == Zeros(k) + core;
    CoreConverts(from, to, k, core);
  }

  lemma {:induction false} DigitsAfterZeros(base: Base, k: nat, ds: seq<int>)
    requires AreDigits(base, ds)
    ensures AreDigits(base, Zeros(k) + ds)
  {
  }

  lemma {:induction false} CoreConverts(from: Base, to: Base, k: nat, core: seq<int>)
    requires AreDigits(from, core) && (core != [] ==> core[0] != 0)
    requires Num(from, Zeros(k) + core) >= 0
    ensures AreDigits(to, Recode(from, to, Zeros(k) + core))
    ensures Num(to, Recode(from, to, Zeros(k) + core)) == Num(from, Zeros(k) + core)
    ensures Recode(to, from, Recode(from, to, Zeros(k) + core)) == Zeros(k) + core
  {
    ZerosAreNothing(from, k, core);
    var n := Num(from, core);
    NumOfMinimal(to, n);
    ZerosAreNothing(to, k, Minimal(to, n));
    DigitsAfterZeros(to, k, Minimal(to, n));
    MinimalOfNum(from, core);
    RecodeSplits(from, to, k, core);
    RecodeSplits(to, from, k, Minimal(to, n));
  }
}
