/**
 Positional numerals, shared by every codec of the project: big-endian digit
 sequences, their value, and the uniqueness of a numeral of a given length.
 */
module Numerals {

  type byte = x: int | 0 <= x < 256

  datatype Option<+T> = None | Some(value: T) {
    predicate IsFailure() {
      None?
    }

    function PropagateFailure<U>(): Option<U>
      requires None?
    {
      None
    }

    function Extract(): T
      requires Some?
    {
      value
    }
  }

  function Min(a: nat, b: nat): nat {
    if a < b then a else b
  }

  predicate Distinct<T(==)>(s: seq<T>) {
    forall i, j :: 0 <= i < j < |s| ==> s[i] != s[j]
  }

  lemma Assoc<T>(a: seq<T>, b: seq<T>, c: seq<T>)
    ensures a + (b + c) == a + b + c
  {
  }

  function Pow(b: nat, n: nat): nat {
    if n == 0 then 1 else Pow(b, n - 1) * b
  }

  /** The number a big-endian digit sequence denotes. */
  function Value(base: nat, ds: seq<int>): int {
    if |ds| == 0 then 0 else Value(base, ds[..|ds| - 1]) * base + ds[|ds| - 1]
  }

  ghost predicate Digits(base: nat, ds: seq<int>) {
    forall i :: 0 <= i < |ds| ==> 0 <= ds[i] < base
  }

  /** The shortest numeral of `n`: no leading zero, and no digit at all for zero. */
  function ToDigits(base: nat, n: nat): seq<int>
    requires base >= 2
    decreases n
  {
    if n == 0 then [] else
    DivSmaller(n, base);
    ToDigits(base, n / base) + [n % base]
  }

  /** A numeral without its leading zeros. */
  function StripZeros(ds: seq<int>): seq<int> {
    if |ds| > 0 && ds[0] == 0 then StripZeros(ds[1..]) else ds
  }

  lemma MulMono(a: int, b: int, c: nat)
    requires a <= b
    ensures a * c <= b * c
  {
  }

  lemma MulAssoc(a: int, b: int, c: int)
    ensures a * (b * c) == a * b * c
  {
  }

  lemma DivSmaller(n: nat, base: nat)
    requires base >= 2 && n > 0
    ensures 0 <= n / base < n
  {
    MulMono(2, base, n / base);
  }

  lemma DivModSum(n: int, base: nat)
    requires base > 0
    ensures n == (n / base) * base + n % base && 0 <= n % base < base
  {
  }

  /** Quotient and remainder are the only way to split a number by a base. */
  lemma DivModUnique(n: int, base: nat, q: int, d: int)
    requires n == q * base + d && 0 <= d < base
    ensures n / base == q && n % base == d
  {
    if n / base < q {
      MulMono(n / base + 1, q, base);
    } else if n / base > q {
      MulMono(q + 1, n / base, base);
    }
  }

  lemma ValueSnoc(base: nat, ds: seq<int>, d: int)
    ensures Value(base, ds + [d]) == Value(base, ds) * base + d
  {
    assert (ds + [d])[..|ds|] == ds;
  }

  lemma Regroup(x: int, p: int, y: int, base: int, d: int)
    ensures (x * p + y) * base + d == x * (p * base) + (y * base + d)
  {
  }

  lemma {:induction false} ValueConcat(base: nat, a: seq<int>, b: seq<int>)
    ensures Value(base, a + b) == Value(base, a) * Pow(base, |b|) + Value(base, b)
  {
    if |b| == 0 {
      assert a + b == a;
    } else {
      var b' := b[..|b| - 1];
      ValueConcat(base, a, b');
      assert (a + b)[..|a + b| - 1] == a + b';
      Regroup(Value(base, a), Pow(base, |b'|), Value(base, b'), base, b[|b| - 1]);
    }
  }

  lemma SnocBound(a: nat, p: nat, base: nat, d: nat)
    requires a < p && d < base
    ensures 0 <= a * base + d < p * base
  {
    MulMono(a, p - 1, base);
  }

  lemma {:induction false} ValueBounds(base: nat, ds: seq<int>)
    requires Digits(base, ds)
    ensures 0 <= Value(base, ds) < Pow(base, |ds|)
  {
    if |ds| > 0 {
      var p := ds[..|ds| - 1];
      ValueBounds(base, p);
      SnocBound(Value(base, p), Pow(base, |p|), base, ds[|ds| - 1]);
    }
  }

  /** A numeral of a given length is determined by its value. */
  lemma {:induction false} ValueUnique(base: nat, a: seq<int>, b: seq<int>)
    requires |a| == |b| && Digits(base, a) && Digits(base, b)
    requires Value(base, a) == Value(base, b)
    ensures a == b
  {
    if |a| > 0 {
      var n := |a| - 1;
      ValueBounds(base, a[..n]);
      ValueBounds(base, b[..n]);
      DivModUnique(Value(base, a), base, Value(base, a[..n]), a[n]);
      DivModUnique(Value(base, b), base, Value(base, b[..n]), b[n]);
      ValueUnique(base, a[..n], b[..n]);
      assert a == a[..n] + [a[n]] && b == b[..n] + [b[n]];
    }
  }

  lemma LastDigit(base: nat, n: nat) returns (q: nat, d: nat)
    requires base >= 2 && n > 0
    ensures ToDigits(base, n) == ToDigits(base, q) + [d]
    ensures q < n && d < base && n == q * base + d && (q == 0 ==> ToDigits(base, q) == [] && d == n)
  {
    q, d := n / base, n % base;
    DivSmaller(n, base);
    DivModSum(n, base);
  }

  lemma {:induction false} ToDigitsValue(base: nat, n: nat)
    requires base >= 2
    ensures Digits(base, ToDigits(base, n)) && Value(base, ToDigits(base, n)) == n
    ensures n > 0 ==> |ToDigits(base, n)| > 0 && ToDigits(base, n)[0] != 0
    decreases n
  {
    if n == 0 {
      return;
    }
    var q, d := LastDigit(base, n);
    hide Value, ToDigits;
    ToDigitsValue(base, q);
    ValueSnoc(base, ToDigits(base, q), d);
    if q > 0 {
      assert ToDigits(base, n)[0] == ToDigits(base, q)[0];
    }
  }

  lemma ValueDropZero(base: nat, ds: seq<int>)
    requires |ds| > 0 && ds[0] == 0
    ensures Value(base, ds) == Value(base, ds[1..])
  {
    assert ds == [0] + ds[1..];
    ValueConcat(base, [0], ds[1..]);
    assert Value(base, [0]) == 0 by { ValueSnoc(base, [], 0); assert [] + [0] == [0]; }
    hide *;
  }

  lemma {:induction false} StripZerosValue(base: nat, ds: seq<int>)
    ensures Value(base, StripZeros(ds)) == Value(base, ds)
    ensures Digits(base, ds) ==> Digits(base, StripZeros(ds))
    ensures |StripZeros(ds)| > 0 ==> StripZeros(ds)[0] != 0
    ensures |StripZeros(ds)| <= |ds| && StripZeros(ds) == ds[|ds| - |StripZeros(ds)|..]
    ensures forall i :: 0 <= i < |ds| - |StripZeros(ds)| ==> ds[i] == 0
  {
    if |ds| > 0 && ds[0] == 0 {
      StripZerosValue(base, ds[1..]);
      ValueDropZero(base, ds);
    }
  }

  /** A numeral that starts with a non-zero digit is the shortest one of its value. */
  lemma {:induction false} LeadingDigitShortest(base: nat, ds: seq<int>)
    requires base >= 2 && Digits(base, ds)
    requires |ds| > 0 ==> ds[0] != 0
    ensures Value(base, ds) >= 0 && ToDigits(base, Value(base, ds)) == ds
  {
    ValueBounds(base, ds);
    if |ds| > 0 {
      var p := ds[..|ds| - 1];
      LeadingDigitShortest(base, p);
      DivModUnique(Value(base, ds), base, Value(base, p), ds[|ds| - 1]);
      if |p| == 0 {
        assert Value(base, ds) == ds[0];
      } else {
        ValuePositive(base, p);
        assert Value(base, p) * base >= 1;
      }
      assert ds == p + [ds[|ds| - 1]];
    }
  }

  lemma {:induction false} ValuePositive(base: nat, ds: seq<int>)
    requires base >= 2 && Digits(base, ds) && |ds| > 0 && ds[0] != 0
    ensures Value(base, ds) > 0
  {
    if |ds| > 1 {
      ValuePositive(base, ds[..|ds| - 1]);
    } else {
      assert ds[..0] == [];
    }
  }

  /** The shortest numeral of a value is any numeral of it with the leading zeros removed. */
  lemma ToDigitsStrips(base: nat, ds: seq<int>)
    requires base >= 2 && Digits(base, ds)
    ensures Value(base, ds) >= 0 && ToDigits(base, Value(base, ds)) == StripZeros(ds)
  {
    StripZerosValue(base, ds);
    LeadingDigitShortest(base, StripZeros(ds));
  }

  /** A number below the `m`-th power of the base has at most `m` digits. */
  lemma {:induction false} ToDigitsShort(base: nat, v: nat, m: nat)
    requires base >= 2 && v < Pow(base, m)
    ensures |ToDigits(base, v)| <= m
  {
    if v > 0 && m > 0 {
      var q, d := LastDigit(base, v);
      hide ToDigits;
      if q >= Pow(base, m - 1) {
        MulMono(Pow(base, m - 1), q, base);
      }
      ToDigitsShort(base, q, m - 1);
    }
  }

  lemma {:induction false} PowMono(b: nat, m: nat, n: nat)
    requires b >= 1 && m <= n
    ensures 1 <= Pow(b, m) <= Pow(b, n)
    decreases n
  {
    if n > 0 {
      PowMono(b, if m < n then m else m - 1, n - 1);
      MulMono(1, b, Pow(b, n - 1));
    }
  }
}
