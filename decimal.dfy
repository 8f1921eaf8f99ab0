/** Decimal text as the driver writes it (Python's `'{:0Nd}'.format`) and reads
    it (Python's `int()` on a field of a configuration reply). */
module Decimal {
  import opened Bytes

  predicate IsDigit(b: Byte) { ZERO <= b <= NINE }

  predicate AllDigits(s: seq<Byte>) { forall i | 0 <= i < |s| :: IsDigit(s[i]) }

  /** The number a run of decimal digits denotes, leading zeros allowed. */
  function Value(ds: seq<Byte>): nat
    requires AllDigits(ds)
    decreases |ds|
  {
    if ds == [] then 0 else Value(ds[..|ds| - 1]) * 10 + (ds[|ds| - 1] - ZERO)
  }

  function Pow10(k: nat): (p: nat)
    ensures p >= 1
  {
    if k == 0 then 1 else 10 * Pow10(k - 1)
  }

  /** The shortest decimal text of `n`: at least one digit, no leading zero
      unless `n` is 0, and it denotes `n`. */
  function Digits(n: nat): (ds: seq<Byte>)
    ensures |ds| >= 1 && AllDigits(ds)
    ensures |ds| == 1 || ds[0] != ZERO
    ensures Value(ds) == n
    decreases n
  {
    if n < 10 then [ZERO + n]
    else
      var ds := Digits(n / 10) + [ZERO + n % 10];
      assert ds[..|ds| - 1] == Digits(n / 10);
      ds
  }

  /** `n` needs at most `k` digits exactly when it is below `10^k`. */
  lemma {:induction false} DigitsLength(n: nat, k: nat)
    requires k >= 1
    ensures |Digits(n)| <= k <==> n < Pow10(k)
    decreases n
  {
    if n >= 10 {
      if k == 1 {
        assert |Digits(n)| == |Digits(n / 10)| + 1;
      } else {
        DigitsLength(n / 10, k - 1);
        assert Pow10(k) == 10 * Pow10(k - 1);
      }
    } else {
      if k > 1 {
        PowAtLeastTen(k);
      }
    }
  }

  lemma {:induction false} PowAtLeastTen(k: nat)
    requires k >= 1
    ensures Pow10(k) >= 10
  {
    if k > 1 {
      PowAtLeastTen(k - 1);
    }
  }

  function Zeros(k: nat): (z: seq<Byte>)
    ensures |z| == k && AllDigits(z)
  {
    seq(k, _ => ZERO)
  }

  /** Left-pads a digit run with '0' up to `width`; never truncates. */
  function ZeroFill(ds: seq<Byte>, width: int): (r: seq<Byte>)
    ensures |r| == if |ds| < width then width else |ds|
  {
    if |ds| < width then Zeros(width - |ds|) + ds else ds
  }

  function Abs(n: int): nat { if n < 0 then -n else n }

  /** Python's `'{:0<width>d}'.format(n)`: a minus sign first for a negative
      number, then the digits of `|n|` zero-padded so that the whole text is
      at least `width` bytes; a wider number is never cut. */
  function Pad(n: int, width: nat): (r: seq<Byte>)
    ensures var least := |Digits(Abs(n))| + (if n < 0 then 1 else 0);
            |r| == if least < width then width else least
    ensures forall i | 0 <= i < |r| :: IsDigit(r[i]) || r[i] == MINUS
    ensures |r| >= 1 && (r[0] == MINUS <==> n < 0)
  {
    if n < 0 then [MINUS] + ZeroFill(Digits(-n), width - 1) else ZeroFill(Digits(n), width)
  }

  /** Python's `int()` on a field: an optional sign and at least one decimal
      digit; anything else fails. */
  function ParseInt(s: seq<Byte>): (r: Option<int>)
  {
    if |s| > 0 && (s[0] == MINUS || s[0] == PLUS) then
      if |s| > 1 && AllDigits(s[1..]) then
        var magnitude: int := Value(s[1..]);
        Some(if s[0] == MINUS then -magnitude else magnitude)
      else None
    else if |s| > 0 && AllDigits(s) then Some(Value(s))
    else None
  }

  /** Leading zeros do not change the value of a digit run. */
  lemma {:induction false} ValueOfZeroFill(k: nat, ds: seq<Byte>)
    requires AllDigits(ds)
    ensures AllDigits(Zeros(k) + ds)
    ensures Value(Zeros(k) + ds) == Value(ds)
    decreases |ds|
  {
    var z := Zeros(k);
    if ds == [] {
      assert z + ds == z;
      ZerosValue(k);
    } else {
      var init := ds[..|ds| - 1];
      ValueOfZeroFill(k, init);
      assert (z + ds)[..|z + ds| - 1] == z + init;
    }
  }

  lemma {:induction false} ZerosValue(k: nat)
    ensures Value(Zeros(k)) == 0
    decreases k
  {
    if k > 0 {
      assert Zeros(k)[..k - 1] == Zeros(k - 1);
      ZerosValue(k - 1);
    }
  }

  /** The zero-padded text of any integer parses back to that integer, at
      any width. */
  lemma PadParses(n: int, width: nat)
    ensures ParseInt(Pad(n, width)) == Some(n)
  {
    var ds := Digits(Abs(n));
    var w := if n < 0 then width - 1 else width;
    var body := ZeroFill(ds, w);
    if |ds| < w {
      ValueOfZeroFill(w - |ds|, ds);
    }
    assert AllDigits(body) && Value(body) == Abs(n) && |body| >= 1;
    if n < 0 {
      assert Pad(n, width) == [MINUS] + body;
      assert Pad(n, width)[1..] == body;
    } else {
      assert Pad(n, width) == body;
    }
  }

  /** A non-negative value below `10^width` fills its field exactly. */
  lemma PadExactWidth(n: int, width: nat)
    requires width >= 1 && 0 <= n < Pow10(width)
    ensures |Pad(n, width)| == width && AllDigits(Pad(n, width))
  {
    DigitsLength(n, width);
    if |Digits(n)| < width {
      ValueOfZeroFill(width - |Digits(n)|, Digits(n));
    }
  }
}
