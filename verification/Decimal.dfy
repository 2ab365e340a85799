/** Decimal notation: strconv.Atoi on digits, and fmt's %d and %0*d verbs. */
module Decimal {
  import opened Wrappers

  const MAX_INT: nat := 0x7FFF_FFFF_FFFF_FFFF
  const MIN_INT: int := -0x8000_0000_0000_0000

  predicate IsDigit(c: char) { '0' <= c <= '9' }

  predicate AllDigits(s: string) { forall i :: 0 <= i < |s| ==> IsDigit(s[i]) }

  function DigitOf(c: char): nat
    requires IsDigit(c)
  {
    (c as int) - ('0' as int)
  }

  function CharOf(d: nat): char
    requires d < 10
  {
    ('0' as int + d) as char
  }

  function Value(s: string): nat
    requires AllDigits(s)
  {
    if s == "" then 0 else 10 * Value(s[..|s| - 1]) + DigitOf(s[|s| - 1])
  }

  /** %d of a non-negative int. */
  function Render(n: nat): string {
    if n < 10 then [CharOf(n)] else Render(n / 10) + [CharOf(n % 10)]
  }

  function Zeros(n: nat): string { seq(n, _ => '0') }

  /** Zeros on the left up to the width. */
  function Pad(s: string, width: nat): string {
    if |s| >= width then s else Zeros(width - |s|) + s
  }

  /** fmt takes no width beyond this one from an argument. */
  const MAX_WIDTH: nat := 1_000_000

  const BAD_WIDTH := "%!(BADWIDTH)"

  /** %0*d. */
  function ZeroPadded(width: nat, n: nat): string {
    if width > MAX_WIDTH then BAD_WIDTH + Render(n) else Pad(Render(n), width)
  }

  /** strconv.Atoi of a digit string on a 64-bit platform; None is its range error. */
  function Atoi(s: string): Option<nat>
    requires AllDigits(s)
  {
    if Value(s) > MAX_INT then None else Some(Value(s))
  }

  function Pow10(k: nat): nat { if k == 0 then 1 else 10 * Pow10(k - 1) }

  lemma {:induction false} RenderMeans(n: nat)
    ensures AllDigits(Render(n)) && |Render(n)| >= 1 && Value(Render(n)) == n
  {
    if n >= 10 {
      RenderMeans(n / 10);
      assert Render(n)[..|Render(n)| - 1] == Render(n / 10);
    } else {
      assert Render(n)[..0] == "";
    }
  }

  lemma {:induction false} RenderHasNoLeadingZero(n: nat)
    ensures |Render(n)| >= 1 && (n > 0 ==> Render(n)[0] != '0') && (|Render(n)| > 1 ==> n > 0)
  {
    if n >= 10 { RenderHasNoLeadingZero(n / 10); }
  }

  lemma {:induction false} ValueBound(s: string)
    requires AllDigits(s)
    ensures Value(s) < Pow10(|s|)
  {
    if s != "" { ValueBound(s[..|s| - 1]); }
  }

  /** The number of digits is the least width that holds the number. */
  lemma {:induction false} RenderWidth(n: nat, w: nat)
    requires w >= 1
    ensures |Render(n)| <= w <==> n < Pow10(w)
  {
    if n >= 10 {
      RenderMeans(n / 10);
      if w > 1 {
        RenderWidth(n / 10, w - 1);
        assert n / 10 < Pow10(w - 1) <==> n < 10 * Pow10(w - 1);
      } else {
        assert Pow10(1) == 10 * Pow10(0);
      }
    } else {
      Pow10Grows(w);
    }
  }

  /** 64-bit ints have at most 19 digits. */
  lemma IntWidth(n: nat)
    requires n <= MAX_INT
    ensures |Render(n)| <= 19
  {
    assert Pow10(6) == 1_000_000;
    assert Pow10(12) == 1_000_000_000_000;
    assert Pow10(18) == 1_000_000_000_000_000_000;
    RenderWidth(n, 19);
  }

  lemma RenderMonotone(i: nat, j: nat)
    requires i <= j
    ensures |Render(i)| <= |Render(j)|
  {
    RenderMeans(j);
    RenderWidth(j, |Render(j)|);
    RenderWidth(i, |Render(j)|);
  }

  lemma {:induction false} PowerStarts(k: nat)
    ensures |Render(Pow10(k))| >= 1 && Render(Pow10(k))[0] == '1'
  {
    if k > 0 {
      PowerStarts(k - 1);
      Pow10Grows(k);
      assert Pow10(k) / 10 == Pow10(k - 1);
    }
  }

  lemma {:induction false} NinesStart(k: nat)
    requires k >= 1
    ensures Pow10(k) >= 1 && |Render(Pow10(k) - 1)| >= 1 && Render(Pow10(k) - 1)[0] == '9'
  {
    Pow10Grows(k);
    if k > 1 {
      NinesStart(k - 1);
      assert (Pow10(k) - 1) / 10 == Pow10(k - 1) - 1;
    } else {
      assert Pow10(1) == 10 * Pow10(0);
    }
  }

  lemma {:induction false} Pow10Grows(w: nat)
    ensures Pow10(w) >= 1 && (w >= 1 ==> Pow10(w) >= 10)
  {
    if w > 0 { Pow10Grows(w - 1); }
  }

  lemma {:induction false} ValueFromLeft(c: char, s: string)
    requires IsDigit(c) && AllDigits(s)
    ensures AllDigits([c] + s) && Value([c] + s) == DigitOf(c) * Pow10(|s|) + Value(s)
  {
    if s == "" {
      assert ([c] + s)[..0] == "";
    } else {
      var front := s[..|s| - 1];
      ValueFromLeft(c, front);
      assert ([c] + s)[..|s|] == [c] + front;
      assert ([c] + s)[|s|] == s[|s| - 1];
      assert 10 * (DigitOf(c) * Pow10(|front|)) == DigitOf(c) * Pow10(|s|);
    }
  }

  lemma {:induction false} ZerosMean(k: nat, s: string)
    requires AllDigits(s)
    ensures AllDigits(Zeros(k) + s) && Value(Zeros(k) + s) == Value(s)
  {
    if k == 0 {
      assert Zeros(k) + s == s;
    } else {
      ZerosMean(k - 1, s);
      ValueFromLeft('0', Zeros(k - 1) + s);
      assert Zeros(k) + s == ['0'] + (Zeros(k - 1) + s);
    }
  }

  lemma PadMeans(s: string, width: nat)
    requires AllDigits(s)
    ensures AllDigits(Pad(s, width)) && Value(Pad(s, width)) == Value(s)
    ensures |Pad(s, width)| == if |s| >= width then |s| else width
  {
    if |s| < width { ZerosMean(width - |s|, s); }
  }

  /** A digit string without a superfluous leading zero is the rendering of its value. */
  lemma {:induction false} RenderOfValue(s: string)
    requires AllDigits(s) && |s| >= 1 && (|s| > 1 ==> s[0] != '0')
    ensures Render(Value(s)) == s
  {
    var front := s[..|s| - 1];
    if |s| > 1 {
      RenderOfValue(front);
      RenderMeans(Value(front));
      FirstDigitCounts(front);
      assert Value(s) / 10 == Value(front) && Value(s) % 10 == DigitOf(s[|s| - 1]);
    } else {
      assert front == "";
    }
  }

  lemma {:induction false} FirstDigitCounts(s: string)
    requires AllDigits(s) && |s| >= 1 && s[0] != '0'
    ensures Value(s) >= 1
  {
    if |s| > 1 { FirstDigitCounts(s[..|s| - 1]); }
  }

  // ---- order ----

  /** Lexicographic order of strings. */
  predicate LexLess(a: string, b: string) {
    if b == "" then false
    else if a == "" then true
    else a[0] < b[0] || (a[0] == b[0] && LexLess(a[1..], b[1..]))
  }

  lemma {:induction false} LexSamePrefix(p: string, a: string, b: string)
    ensures LexLess(p + a, p + b) <==> LexLess(a, b)
  {
    if p == "" {
      assert p + a == a && p + b == b;
    } else {
      assert (p + a)[1..] == p[1..] + a && (p + b)[1..] == p[1..] + b;
      LexSamePrefix(p[1..], a, b);
    }
  }

  /** Among digit strings of one width, lexicographic order is numeric order. */
  lemma {:induction false} FixedWidthOrder(a: string, b: string)
    requires AllDigits(a) && AllDigits(b) && |a| == |b|
    ensures LexLess(a, b) <==> Value(a) < Value(b)
  {
    if a != "" {
      var p := Pow10(|a| - 1);
      FixedWidthOrder(a[1..], b[1..]);
      assert a == [a[0]] + a[1..] && b == [b[0]] + b[1..];
      ValueFromLeft(a[0], a[1..]);
      ValueFromLeft(b[0], b[1..]);
      ValueBound(a[1..]);
      ValueBound(b[1..]);
      if a[0] < b[0] {
        LeadingDigit(DigitOf(a[0]), DigitOf(b[0]), p, Value(a[1..]), Value(b[1..]));
      } else if b[0] < a[0] {
        LeadingDigit(DigitOf(b[0]), DigitOf(a[0]), p, Value(b[1..]), Value(a[1..]));
      }
    }
  }

  lemma {:induction false} LeadingDigit(d: nat, e: nat, p: nat, v: nat, w: nat)
    requires d < e && v < p
    ensures d * p + v < e * p + w
    decreases e
  {
    if e > d + 1 { LeadingDigit(d, e - 1, p, v, w); }
    assert e * p == (e - 1) * p + p;
  }
}
