/**
 * Decimal text and powers of ten: the C library's `atoll`, fc's `to_string`
 * and `to_pretty_string`, `is_power_of_ten`, and the digit-string arithmetic
 * the asset conversions are proved with.
 */
module Decimal {

  // ---------------------------------------------------------------------------
  // Integer division facts used by the scaling proofs
  // ---------------------------------------------------------------------------

  /** Division and remainder are determined by any decomposition n == q * c + r with 0 <= r < c. */
  lemma DivModUnique(n: int, c: int, q: int, r: int)
    requires c > 0 && 0 <= r < c && n == q * c + r
    ensures n / c == q && n % c == r
  {
    var q0, r0 := n / c, n % c;
    assert n == q0 * c + r0;
    if q0 < q {
      assert q * c - q0 * c == (q - q0) * c;
      MulMonotone(1, q - q0, c);
    } else if q < q0 {
      assert q0 * c - q * c == (q0 - q) * c;
      MulMonotone(1, q0 - q, c);
    }
  }

  lemma MulAssociative(a: int, b: int, c: int)
    ensures a * (b * c) == (a * b) * c
  {
  }

  lemma MulMonotone(a: int, b: int, c: int)
    requires a <= b && c >= 0
    ensures a * c <= b * c
  {
    assert b * c - a * c == (b - a) * c;
  }

  /** Dividing twice is dividing by the product. */
  lemma DivDiv(x: int, a: int, b: int)
    requires x >= 0 && a > 0 && b > 0
    ensures (x / a) / b == x / (a * b)
  {
    var q, r := x / (a * b), x % (a * b);
    var s, t := r / a, r % a;
    assert r == s * a + t;
    assert s < b by {
      if s >= b {
        MulMonotone(b, s, a);
      }
    }
    assert x == (q * b + s) * a + t by {
      assert x == q * (a * b) + r;
    }
    DivModUnique(x, a, q * b + s, t);
    DivModUnique(x / a, b, q, s);
  }

  /** A common factor cancels from a quotient. */
  lemma MulDivCancel(x: int, a: int, b: int)
    requires x >= 0 && a > 0 && b > 0
    ensures (x * a) / (a * b) == x / b
  {
    DivModUnique(x * a, a, x, 0);
    DivDiv(x * a, a, b);
  }

  lemma DivBelow(x: int, a: int, b: int)
    requires 0 <= x < a * b && b > 0
    ensures x / b < a
  {
    assert x == (x / b) * b + x % b;
    if x / b >= a {
      MulMonotone(a, x / b, b);
    }
  }

  lemma DivAtLeast(x: int, a: int, b: int)
    requires a >= 0 && b > 0 && x >= a * b
    ensures x / b >= a
  {
    assert x == (x / b) * b + x % b;
    if x / b < a {
      MulMonotone(x / b + 1, a, b);
    }
  }

  // ---------------------------------------------------------------------------
  // Powers of ten
  // ---------------------------------------------------------------------------

  function Pow10(n: nat): (p: nat)
    ensures p >= 1
  {
    if n == 0 then 1 else 10 * Pow10(n - 1)
  }

  lemma {:induction false} Pow10Add(a: nat, b: nat)
    ensures Pow10(a + b) == Pow10(a) * Pow10(b)
  {
    if b > 0 {
      Pow10Add(a, b - 1);
      assert Pow10(a + b) == 10 * (Pow10(a) * Pow10(b - 1));
    }
  }

  lemma {:induction false} Pow10Monotone(a: nat, b: nat)
    requires a <= b
    ensures Pow10(a) <= Pow10(b)
  {
    if a < b {
      Pow10Monotone(a, b - 1);
    }
  }

  /** The test `is_power_of_ten` the sanity check applies to a precision. */
  predicate IsPowerOfTen(p: int)
    ensures IsPowerOfTen(p) ==> p >= 1
    decreases if p < 0 then 0 else p
  {
    p == 1 || (p >= 10 && p % 10 == 0 && IsPowerOfTen(p / 10))
  }

  /** The exponent of a power of ten: the number of fractional digits a precision gives. */
  function Log10(p: int): (k: nat)
    requires IsPowerOfTen(p)
    ensures Pow10(k) == p
    decreases if p < 0 then 0 else p
  {
    if p == 1 then 0 else 1 + Log10(p / 10)
  }

  lemma {:induction false} Pow10IsPowerOfTen(k: nat)
    ensures IsPowerOfTen(Pow10(k)) && Log10(Pow10(k)) == k
  {
    if k > 0 {
      Pow10IsPowerOfTen(k - 1);
      assert Pow10(k) / 10 == Pow10(k - 1);
    }
  }

  // ---------------------------------------------------------------------------
  // Digit strings
  // ---------------------------------------------------------------------------

  predicate IsDigit(c: char) { '0' <= c <= '9' }

  predicate IsDigits(s: string) { forall i :: 0 <= i < |s| ==> IsDigit(s[i]) }

  function DigitChar(d: nat): (c: char)
    requires d < 10
    ensures IsDigit(c) && c as int - '0' as int == d
  {
    (d + '0' as int) as char
  }

  /** The number a string of decimal digits denotes, most significant digit first. */
  function DigitsValue(s: string): (v: nat)
    requires IsDigits(s)
  {
    if s == [] then 0 else DigitsValue(s[..|s| - 1]) * 10 + (s[|s| - 1] as int - '0' as int)
  }

  function Zeros(n: nat): (s: string)
    ensures |s| == n && IsDigits(s)
    ensures forall i :: 0 <= i < n ==> s[i] == '0'
  {
    seq(n, _ => '0')
  }

  lemma DigitsValueSnoc(s: string, c: char)
    requires IsDigits(s) && IsDigit(c)
    ensures IsDigits(s + [c]) && DigitsValue(s + [c]) == DigitsValue(s) * 10 + (c as int - '0' as int)
  {
    assert (s + [c])[..|s|] == s;
  }

  /** Concatenating digit strings shifts the first by the length of the second. */
  lemma {:induction false} DigitsValueAppend(s: string, t: string)
    requires IsDigits(s) && IsDigits(t)
    ensures IsDigits(s + t) && DigitsValue(s + t) == DigitsValue(s) * Pow10(|t|) + DigitsValue(t)
  {
    if t == [] {
      assert s + t == s;
    } else {
      var t', c := t[..|t| - 1], t[|t| - 1];
      SplitLast(s, t);
      DigitsValueAppend(s, t');
      DigitsValueSnoc(s + t', c);
      DigitsValueSnoc(t', c);
      assert Pow10(|t|) == Pow10(|t'|) * 10;
      ShiftDigit(DigitsValue(s), Pow10(|t'|), DigitsValue(t'), c as int - '0' as int);
    }
  }

  lemma SplitLast(s: string, t: string)
    requires t != []
    ensures t == t[..|t| - 1] + [t[|t| - 1]]
    ensures s + t == (s + t[..|t| - 1]) + [t[|t| - 1]]
  {
  }

  lemma ShiftDigit(a: int, b: int, v: int, d: int)
    ensures (a * b + v) * 10 + d == a * (b * 10) + (v * 10 + d)
  {
  }

  lemma {:induction false} DigitsValueBelow(s: string)
    requires IsDigits(s)
    ensures DigitsValue(s) < Pow10(|s|)
  {
    if s != [] {
      DigitsValueBelow(s[..|s| - 1]);
      MulMonotone(DigitsValue(s[..|s| - 1]) + 1, Pow10(|s| - 1), 10);
    }
  }

  lemma {:induction false} ZerosValue(n: nat)
    ensures DigitsValue(Zeros(n)) == 0
  {
    if n > 0 {
      assert Zeros(n)[..n - 1] == Zeros(n - 1);
      ZerosValue(n - 1);
    }
  }

  /** A leading digit other than '0' makes the value at least 10^(|s|-1). */
  lemma DigitsValueAtLeast(s: string)
    requires IsDigits(s) && s != [] && s[0] != '0'
    ensures DigitsValue(s) >= Pow10(|s| - 1)
  {
    assert s == [s[0]] + s[1..];
    DigitsValueAppend([s[0]], s[1..]);
    assert [s[0]][..0] == [];
    MulMonotone(1, DigitsValue([s[0]]), Pow10(|s| - 1));
  }

  /** Keeping the first j digits divides the value by 10^(|s|-j). */
  lemma DigitsValuePrefix(s: string, j: nat)
    requires IsDigits(s) && j <= |s|
    ensures IsDigits(s[..j]) && DigitsValue(s[..j]) == DigitsValue(s) / Pow10(|s| - j)
  {
    assert s == s[..j] + s[j..];
    DigitsValueAppend(s[..j], s[j..]);
    DigitsValueBelow(s[j..]);
    DivModUnique(DigitsValue(s), Pow10(|s| - j), DigitsValue(s[..j]), DigitsValue(s[j..]));
  }

  /** The first k digits of `s`, padded on the right with zeros when `s` is shorter. */
  function PadTruncate(s: string, k: nat): (t: string)
    requires IsDigits(s)
    ensures |t| == k && IsDigits(t)
  {
    if |s| >= k then s[..k] else s + Zeros(k - |s|)
  }

  /** The number of '0' characters `s` starts with. */
  function LeadingZeros(s: string): (z: nat)
    ensures z <= |s|
    ensures forall i :: 0 <= i < z ==> s[i] == '0'
    ensures z < |s| ==> s[z] != '0'
  {
    if s != [] && s[0] == '0' then 1 + LeadingZeros(s[1..]) else 0
  }

  /** The last k decimal digits of n, with leading zeros. */
  function LastDigits(n: nat, k: nat): (s: string)
    ensures |s| == k && IsDigits(s)
  {
    if k == 0 then [] else LastDigits(n / 10, k - 1) + [DigitChar(n % 10)]
  }

  lemma {:induction false} LastDigitsValue(n: nat, k: nat)
    ensures DigitsValue(LastDigits(n, k)) == n % Pow10(k)
  {
    if k > 0 {
      var p := Pow10(k - 1);
      assert Pow10(k) == 10 * p;
      LastDigitsValue(n / 10, k - 1);
      DigitsValueSnoc(LastDigits(n / 10, k - 1), DigitChar(n % 10));
      ModShift(n, p);
    }
  }

  /** The last digit of n below the remainder of n / 10: the remainder of n modulo 10p. */
  lemma ModShift(n: nat, p: int)
    requires p >= 1
    ensures ((n / 10) % p) * 10 + n % 10 == n % (10 * p)
  {
    var q, b, d := (n / 10) / p, (n / 10) % p, n % 10;
    assert n / 10 == q * p + b;
    assert n == (n / 10) * 10 + d;
    assert n == q * (p * 10) + (b * 10 + d) by { ShiftDigit(q, p, b, d); }
    MulMonotone(b + 1, p, 10);
    DivModUnique(n, p * 10, q, b * 10 + d);
  }


  // ---------------------------------------------------------------------------
  // Rendering numbers: fc::to_string and fc::to_pretty_string
  // ---------------------------------------------------------------------------

  /** Plain decimal rendering of a non-negative number, without leading zeros. */
  function Dec(n: nat): (s: string)
    ensures |s| >= 1 && IsDigits(s) && DigitsValue(s) == n
    ensures s[0] == '0' ==> n == 0
  {
    if n < 10 then [DigitChar(n)]
    else
      var s := Dec(n / 10) + [DigitChar(n % 10)];
      DigitsValueSnoc(Dec(n / 10), DigitChar(n % 10));
      s
  }

  /** Rendering 10^k + r (r < 10^k) gives a '1' followed by the k digits of r, zero padded. */
  lemma {:induction false} DecOfPow10Plus(k: nat, r: nat)
    requires r < Pow10(k)
    ensures Dec(Pow10(k) + r) == "1" + LastDigits(r, k)
  {
    if k > 0 {
      var n := Pow10(k) + r;
      DivModUnique(r, 10, r / 10, r % 10);
      assert n == (Pow10(k - 1) + r / 10) * 10 + r % 10;
      DivModUnique(n, 10, Pow10(k - 1) + r / 10, r % 10);
      DivBelow(r, Pow10(k - 1), 10);
      DecOfPow10Plus(k - 1, r / 10);
      assert Dec(n) == Dec(n / 10) + [DigitChar(n % 10)];
    }
  }

  /** Overwriting the leading '1' of 10^k + r with a point leaves the point and the k digits of r. */
  lemma PointedDigits(k: nat, r: nat)
    requires r < Pow10(k)
    ensures Dec(Pow10(k) + r)[0 := '.'] == "." + LastDigits(r, k)
  {
    DecOfPow10Plus(k, r);
    assert ("1" + LastDigits(r, k))[0 := '.'] == "." + LastDigits(r, k);
  }

  /** Decimal rendering with ',' between groups of three digits. */
  function Pretty(n: nat): (s: string)
    ensures |s| >= 1 && IsDigit(s[0])
    ensures forall i :: 0 <= i < |s| ==> IsDigit(s[i]) || s[i] == ','
  {
    if n < 1000 then Dec(n) else Pretty(n / 1000) + "," + LastDigits(n % 1000, 3)
  }

  /** The text with its ',' separators removed. */
  function Ungrouped(s: string): (t: string)
    ensures |t| <= |s|
    ensures forall i :: 0 <= i < |t| ==> t[i] != ','
  {
    if s == [] then [] else (if s[0] == ',' then [] else [s[0]]) + Ungrouped(s[1..])
  }

  lemma {:induction false} UngroupedAppend(a: string, b: string)
    ensures Ungrouped(a + b) == Ungrouped(a) + Ungrouped(b)
  {
    if a == [] {
      assert a + b == b;
    } else {
      var head := if a[0] == ',' then [] else [a[0]];
      assert (a + b)[0] == a[0] && (a + b)[1..] == a[1..] + b;
      UngroupedAppend(a[1..], b);
      assert Ungrouped(a + b) == head + (Ungrouped(a[1..]) + Ungrouped(b));
      assert head + (Ungrouped(a[1..]) + Ungrouped(b)) == (head + Ungrouped(a[1..])) + Ungrouped(b);
    }
  }

  lemma {:induction false} UngroupedDigits(s: string)
    requires IsDigits(s)
    ensures Ungrouped(s) == s
  {
    if s != [] {
      UngroupedDigits(s[1..]);
      assert s == [s[0]] + s[1..];
    }
  }

  /** The last digit of x 10p + r, for r < 10p, is that of r, and the rest is x p + r / 10. */
  lemma SplitLastDigit(x: int, p: int, r: int, n: int)
    requires x >= 1 && p >= 1 && 0 <= r < 10 * p && n == x * (10 * p) + r
    ensures n / 10 == x * p + r / 10 && n % 10 == r % 10 && n >= 10
    ensures r / 10 < p
  {
    MulAssociative(x, p, 10);
    assert x * (10 * p) == (x * p) * 10;
    MulMonotone(1, x, p);
    DivModUnique(r, 10, r / 10, r % 10);
    DivModUnique(n, 10, x * p + r / 10, r % 10);
    DivBelow(r, p, 10);
  }

  /** Rendering q 10^k + r (q >= 1, r < 10^k) gives the digits of q followed by the k digits of r. */
  lemma {:induction false} DecSplit(q: nat, k: nat, r: nat)
    requires q >= 1 && r < Pow10(k)
    ensures Dec(q * Pow10(k) + r) == Dec(q) + LastDigits(r, k)
  {
    if k > 0 {
      var p := Pow10(k - 1);
      var n := q * Pow10(k) + r;
      SplitLastDigit(q, p, r, n);
      DecSplit(q, k - 1, r / 10);
      var front, last := LastDigits(r / 10, k - 1), [DigitChar(r % 10)];
      assert LastDigits(r, k) == front + last;
      assert Dec(n) == (Dec(q) + front) + last;
      assert (Dec(q) + front) + last == Dec(q) + (front + last);
    }
  }

  /** A group of k digits behind a ',' adds k places to the plain rendering. */
  lemma GroupedValue(q: nat, k: nat, r: nat)
    requires q >= 1 && r < Pow10(k) && Ungrouped(Pretty(q)) == Dec(q)
    ensures Ungrouped(Pretty(q) + "," + LastDigits(r, k)) == Dec(q * Pow10(k) + r)
  {
    var head, tail := Pretty(q), LastDigits(r, k);
    assert Ungrouped(head + ",") == Dec(q) by {
      UngroupedAppend(head, ",");
      assert Ungrouped(",") == [];
    }
    assert Ungrouped(head + "," + tail) == Dec(q) + tail by {
      UngroupedAppend(head + ",", tail);
      UngroupedDigits(tail);
    }
    DecSplit(q, k, r);
  }

  /**
   * Removing the separators from the grouped rendering gives the plain
   * rendering, so the grouped text is worth n.
   */
  lemma {:induction false} PrettyUngrouped(n: nat)
    ensures Ungrouped(Pretty(n)) == Dec(n)
    ensures DigitsValue(Ungrouped(Pretty(n))) == n
  {
    if n < 1000 {
      UngroupedDigits(Dec(n));
    } else {
      var q, r := n / 1000, n % 1000;
      PrettyUngrouped(q);
      assert Pow10(3) == 1000;
      GroupedValue(q, 3, r);
    }
  }

  // ---------------------------------------------------------------------------
  // Parsing numbers: atoll
  // ---------------------------------------------------------------------------

  predicate IsSpace(c: char) { c == ' ' || c == '\t' || c == '\n' || c == '\r' || c as int == 11 || c as int == 12 }

  /** The longest prefix of `s` made of decimal digits. */
  function DigitPrefix(s: string): (p: string)
    ensures IsDigits(p) && p <= s
    ensures |p| < |s| ==> !IsDigit(s[|p|])
    ensures IsDigits(s) ==> p == s
  {
    if s != [] && IsDigit(s[0]) then [s[0]] + DigitPrefix(s[1..]) else []
  }

  /** `atoll`: leading white space, an optional sign, then the longest run of digits; 0 when there is none. */
  function Atoll(s: string): (v: int)
    ensures IsDigits(s) ==> v == DigitsValue(s)
    ensures v < 0 ==> '-' in s
  {
    if s != [] && IsSpace(s[0]) then Atoll(s[1..])
    else if s != [] && s[0] == '-' then -(DigitsValue(DigitPrefix(s[1..])) as int)
    else if s != [] && s[0] == '+' then DigitsValue(DigitPrefix(s[1..]))
    else DigitsValue(DigitPrefix(s))
  }

}
