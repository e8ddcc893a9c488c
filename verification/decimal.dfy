/** Decimal rendering of integers as Go does it: `strconv`-style digits with no
    leading zero, and the `appendInt` helper of package `time`, which writes a
    minus sign for a negative value, then zeros up to a minimum width, then the
    digits. `%d` is `appendInt` with width 0. */
module Decimal {
  import opened ByteStrings
  import opened Wrappers

  const Zero: byte := 48
  const Minus: byte := 45

  predicate IsDigit(b: byte) {
    48 <= b <= 57
  }

  predicate AllDigits(s: Bytes) {
    forall i :: 0 <= i < |s| ==> IsDigit(s[i])
  }

  function DigitByte(n: int): byte
    requires 0 <= n < 10
  {
    (48 + n) as byte
  }

  function Pow10(k: nat): (p: nat)
    ensures p >= 1
  {
    if k == 0 then 1 else 10 * Pow10(k - 1)
  }

  /** The digits of `n`, most significant first. */
  function Digits(n: nat): (ds: Bytes)
    ensures |ds| >= 1
    ensures AllDigits(ds)
  {
    if n < 10 then [DigitByte(n)] else Digits(n / 10) + [DigitByte(n % 10)]
  }

  function Zeros(k: nat): (z: Bytes)
    ensures |z| == k
    ensures AllDigits(z)
  {
    seq(k, _ => Zero)
  }

  /** `appendInt(nil, x, width)` of Go's package `time`. */
  function AppendInt(x: int, width: nat): Bytes
  {
    var u: nat := if x < 0 then -x else x;
    var ds := Digits(u);
    (if x < 0 then [Minus] else []) + (if |ds| < width then Zeros(width - |ds|) else []) + ds
  }

  /** `fmt.Sprintf("%d", x)`. */
  function FormatInt(x: int): Bytes
  {
    AppendInt(x, 0)
  }

  /** The value of a string of decimal digits (0 for the empty string). */
  function ParseNat(ds: Bytes): nat
    requires AllDigits(ds)
  {
    if |ds| == 0 then 0 else ParseNat(ds[..|ds| - 1]) * 10 + (ds[|ds| - 1] - Zero) as int
  }

  /** The inverse of `AppendInt` and `FormatInt`: an optional minus sign, then at
      least one digit. */
  function ParseInt(s: Bytes): Option<int>
  {
    if |s| >= 2 && s[0] == Minus && AllDigits(s[1..]) then
      Some(-(ParseNat(s[1..]) as int))
    else if |s| >= 1 && AllDigits(s) then Some(ParseNat(s))
    else None
  }

  lemma {:induction false} ParseDigits(n: nat)
    ensures ParseNat(Digits(n)) == n
  {
    if n >= 10 {
      ParseDigits(n / 10);
      var ds := Digits(n);
      assert ds[..|ds| - 1] == Digits(n / 10);
    }
  }

  lemma {:induction false} ParseZeros(k: nat, ds: Bytes)
    requires AllDigits(ds)
    ensures AllDigits(Zeros(k) + ds)
    ensures ParseNat(Zeros(k) + ds) == ParseNat(ds)
    decreases |ds|, k
  {
    var s := Zeros(k) + ds;
    assert AllDigits(s) by {
      forall i | 0 <= i < |s| ensures IsDigit(s[i]) {
        if i >= k { assert s[i] == ds[i - k]; }
      }
    }
    if |ds| > 0 {
      ParseZeros(k, ds[..|ds| - 1]);
      assert s[..|s| - 1] == Zeros(k) + ds[..|ds| - 1];
    } else if k > 0 {
      ParseZeros(k - 1, []);
      assert s[..|s| - 1] == Zeros(k - 1) + [];
    }
  }

  /** `n` has at most `k` digits exactly when it is below 10^k. */
  lemma {:induction false} DigitsLength(n: nat, k: nat)
    requires k >= 1
    ensures |Digits(n)| <= k <==> n < Pow10(k)
  {
    if n >= 10 {
      if k == 1 {
        assert |Digits(n)| == |Digits(n / 10)| + 1;
      } else {
        DigitsLength(n / 10, k - 1);
      }
    } else if k > 1 {
      assert Pow10(k) == 10 * Pow10(k - 1);
    }
  }

  /** A non-negative value below 10^width renders in exactly `width` digits. */
  lemma AppendIntWidth(x: int, width: nat)
    requires width >= 1 && 0 <= x < Pow10(width)
    ensures |AppendInt(x, width)| == width
    ensures AllDigits(AppendInt(x, width))
  {
    DigitsLength(x, width);
    ParseZeros(width - |Digits(x)|, Digits(x));
  }

  /** Parsing a rendered non-negative value gives it back, whatever the padding. */
  lemma AppendIntParse(x: nat, width: nat)
    ensures AllDigits(AppendInt(x, width))
    ensures ParseNat(AppendInt(x, width)) == x
  {
    ParseDigits(x);
    var ds := Digits(x);
    if |ds| < width {
      ParseZeros(width - |ds|, ds);
      assert AppendInt(x, width) == Zeros(width - |ds|) + ds;
    } else {
      assert AppendInt(x, width) == ds;
    }
  }

  /** Every integer, negative ones included, survives rendering and parsing. */
  lemma FormatParse(x: int, width: nat)
    ensures ParseInt(AppendInt(x, width)) == Some(x)
  {
    if x < 0 {
      NegativeParse(x, width);
    } else {
      NonNegativeParse(x, width);
    }
  }

  lemma NonNegativeParse(x: nat, width: nat)
    ensures ParseInt(AppendInt(x, width)) == Some(x)
  {
    AppendIntParse(x, width);
    var s := AppendInt(x, width);
    assert |s| >= 1;
    assert IsDigit(s[0]);
  }

  lemma NegativeParse(x: int, width: nat)
    requires x < 0
    ensures ParseInt(AppendInt(x, width)) == Some(x)
  {
    var u: nat := -x;
    AppendIntParse(u, width);
    AppendIntNegative(x, width);
    ParseMinus(AppendInt(u, width));
  }

  lemma AppendIntNegative(x: int, width: nat)
    requires x < 0
    ensures AppendInt(x, width) == [Minus] + AppendInt(-x, width)
  {
  }

  lemma ParseMinus(t: Bytes)
    requires |t| >= 1 && AllDigits(t)
    ensures ParseInt([Minus] + t) == Some(-(ParseNat(t) as int))
  {
    assert ([Minus] + t)[1..] == t;
  }
}
