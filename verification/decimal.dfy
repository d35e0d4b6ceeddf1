/** Decimal rendering of non-negative integers, as Python's `str(n)` and
    the zero-padded format specs `{n:02}` / `{n:03d}` produce it, together
    with the value of a digit string so that renderings can be read back. */
module Decimal {

  predicate IsDigit(c: char) {
    '0' <= c <= '9'
  }

  predicate AllDigits(s: string) {
    forall i :: 0 <= i < |s| ==> IsDigit(s[i])
  }

  function DigitValue(c: char): nat
    requires IsDigit(c)
  {
    c as int - '0' as int
  }

  function DigitChar(d: nat): (c: char)
    requires d < 10
    ensures IsDigit(c) && DigitValue(c) == d
  {
    ('0' as int + d) as char
  }

  /** The number a string of decimal digits denotes (most significant first). */
  function Value(s: string): nat
    requires AllDigits(s)
  {
    if s == [] then 0 else 10 * Value(s[..|s| - 1]) + DigitValue(s[|s| - 1])
  }

  function Pow10(k: nat): (p: nat)
    ensures p >= 1
  {
    if k == 0 then 1 else 10 * Pow10(k - 1)
  }

  /** A digit string without superfluous leading zeros. */
  predicate Canonical(s: string) {
    |s| > 0 && AllDigits(s) && (s[0] == '0' ==> |s| == 1)
  }

  /** `str(n)`: the decimal rendering of `n`, no padding, no sign. */
  function Dec(n: nat): (r: string)
    ensures |r| > 0
    decreases n
  {
    if n < 10 then [DigitChar(n)] else Dec(n / 10) + [DigitChar(n % 10)]
  }

  /** `str(i)` for any integer: a minus sign in front of a negative one. */
  function Str(i: int): (r: string)
    ensures |r| > 0
  {
    if i < 0 then "-" + Dec(-i) else Dec(i)
  }

  /** `str(n)` is the shortest rendering: digits only, no leading zero, and
      it denotes `n`. */
  lemma {:induction false} DecDigits(n: nat)
    ensures Canonical(Dec(n)) && Value(Dec(n)) == n
    decreases n
  {
    if n >= 10 {
      var p := Dec(n / 10);
      DecDigits(n / 10);
      var r := Dec(n);
      assert r == p + [DigitChar(n % 10)];
      assert r[..|r| - 1] == p;
    }
  }

  function Zeros(k: nat): (z: string)
    ensures |z| == k
  {
    if k == 0 then [] else ['0'] + Zeros(k - 1)
  }

  /** `format(n, "0<width>")`: `str(n)` left-filled with '0' up to `width`;
      a rendering already `width` long or longer is left as it is. */
  function ZeroPad(n: nat, width: nat): (r: string)
    ensures |r| == if |Dec(n)| < width then width else |Dec(n)|
  {
    if |Dec(n)| < width then Zeros(width - |Dec(n)|) + Dec(n) else Dec(n)
  }

  /** Padding only adds zeros in front: the result is all digits and denotes `n`. */
  lemma ZeroPadDigits(n: nat, width: nat)
    ensures AllDigits(ZeroPad(n, width)) && Value(ZeroPad(n, width)) == n
  {
    var d := Dec(n);
    DecDigits(n);
    if |d| < width {
      ValueZerosPrefix(width - |d|, d);
      assert ZeroPad(n, width) == Zeros(width - |d|) + d;
    } else {
      assert ZeroPad(n, width) == d;
    }
  }

  lemma {:induction false} ZerosAllDigits(k: nat)
    ensures AllDigits(Zeros(k)) && Value(Zeros(k)) == 0
  {
    if k > 0 {
      ZerosAllDigits(k - 1);
      var z, p := Zeros(k), Zeros(k - 1);
      ZerosShift(k - 1);
      assert z == p + ['0'];
      assert z[..|z| - 1] == p;
      assert AllDigits(z) by {
        forall i | 0 <= i < |z| ensures IsDigit(z[i]) {
          if i < |p| { assert z[i] == p[i]; }
        }
      }
      assert Value(z) == 10 * Value(p) + DigitValue('0');
    }
  }

  lemma {:induction false} ZerosShift(k: nat)
    ensures ['0'] + Zeros(k) == Zeros(k) + ['0']
  {
    if k > 0 {
      ZerosShift(k - 1);
    }
  }

  /** Leading zeros do not change the value of a digit string. */
  lemma {:induction false} ValueZerosPrefix(k: nat, s: string)
    requires AllDigits(s)
    ensures AllDigits(Zeros(k) + s) && Value(Zeros(k) + s) == Value(s)
  {
    ZerosAllDigits(k);
    var t := Zeros(k) + s;
    assert AllDigits(t) by {
      forall i | 0 <= i < |t| ensures IsDigit(t[i]) {
        if i >= k { assert t[i] == s[i - k]; }
      }
    }
    if s != [] {
      var s' := s[..|s| - 1];
      ValueZerosPrefix(k, s');
      assert t[..|t| - 1] == Zeros(k) + s';
    } else {
      assert t == Zeros(k);
    }
  }

  /** A number below 10^w renders in at most w digits (w >= 1). */
  lemma {:induction false} DecLength(n: nat, w: nat)
    requires w >= 1 && n < Pow10(w)
    ensures |Dec(n)| <= w
    decreases n
  {
    if n >= 10 {
      assert w >= 2;
      DecLength(n / 10, w - 1);
    }
  }

  /** A digit string that does not start with '0' denotes a positive number. */
  lemma {:induction false} ValuePositive(s: string)
    requires |s| > 0 && AllDigits(s) && s[0] != '0'
    ensures Value(s) > 0
  {
    if |s| > 1 {
      ValuePositive(s[..|s| - 1]);
    }
  }

  /** `Dec` is onto the canonical digit strings: rendering the value of a
      canonical string gives the string back. */
  lemma {:induction false} DecOfValue(s: string)
    requires Canonical(s)
    ensures Dec(Value(s)) == s
  {
    var n := Value(s);
    if |s| > 1 {
      var p := s[..|s| - 1];
      var d := DigitValue(s[|s| - 1]);
      ValuePositive(p);
      DecOfValue(p);
      assert n / 10 == Value(p) && n % 10 == d;
      assert s == p + [s[|s| - 1]];
    }
  }

  /** A fixed-width digit string is exactly the zero-padded rendering of its value. */
  lemma {:induction false} ZeroPadOfValue(s: string)
    requires |s| > 0 && AllDigits(s)
    ensures ZeroPad(Value(s), |s|) == s
  {
    if s[0] != '0' || |s| == 1 {
      DecOfValue(s);
    } else {
      var s' := s[1..];
      ZeroPadOfValue(s');
      ValueZerosPrefix(1, s');
      assert s == Zeros(1) + s';
      DecDigits(Value(s'));
      ZeroPadWiden(Value(s'), |s'|);
    }
  }

  /** Widening the padding by one puts one more '0' in front. */
  lemma ZeroPadWiden(v: nat, w: nat)
    requires |Dec(v)| <= w
    ensures ZeroPad(v, w + 1) == ['0'] + ZeroPad(v, w)
  {
    var d := Dec(v);
    assert Zeros(w + 1 - |d|) == ['0'] + Zeros(w - |d|);
    if |d| == w {
      assert Zeros(0) == [];
    }
  }
}
