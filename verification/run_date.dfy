/**
  * The snapshot date key: a run date formatted with `strftime("%Y%m%d")`.
  * The key is eight decimal digits, and comparing keys as text (the way
  * Polars compares them) agrees with comparing the dates on the calendar.
  */
module RunDate {
  import opened Wrappers
  import opened LexOrder

  datatype Date = Date(year: int, month: int, day: int)

  predicate IsLeapYear(year: int)
  {
    year % 4 == 0 && (year % 100 != 0 || year % 400 == 0)
  }

  function DaysInMonth(year: int, month: int): int
    requires 1 <= month <= 12
  {
    if month == 2 then (if IsLeapYear(year) then 29 else 28)
    else if month == 4 || month == 6 || month == 9 || month == 11 then 30
    else 31
  }

  /** The dates a Python `datetime` can hold (years 1 to 9999, proleptic Gregorian). */
  predicate ValidDate(d: Date)
  {
    && 1 <= d.year <= 9999
    && 1 <= d.month <= 12
    && 1 <= d.day <= DaysInMonth(d.year, d.month)
  }

  /** `d1` falls on or before `d2` on the calendar. */
  predicate NotAfter(d1: Date, d2: Date)
  {
    || d1.year < d2.year
    || (d1.year == d2.year && (d1.month < d2.month || (d1.month == d2.month && d1.day <= d2.day)))
  }

  function Pow10(n: nat): (p: nat)
    ensures p >= 1
  {
    if n == 0 then 1 else 10 * Pow10(n - 1)
  }

  predicate IsDigit(c: char)
  {
    '0' <= c <= '9'
  }

  predicate AllDigits(s: string)
  {
    forall i :: 0 <= i < |s| ==> IsDigit(s[i])
  }

  function DigitChar(k: nat): (c: char)
    requires k < 10
    ensures IsDigit(c)
  {
    (('0' as int) + k) as char
  }

  function DigitOf(c: char): (k: nat)
    requires IsDigit(c)
    ensures k < 10
  {
    (c as int) - ('0' as int)
  }

  /** The number a string of decimal digits denotes (most significant digit first). */
  function DigitsValue(s: string): (v: nat)
    requires AllDigits(s)
    ensures v < Pow10(|s|)
  {
    if |s| == 0 then 0
    else
      var rest := DigitsValue(s[1..]);
      var d := DigitOf(s[0]);
      var p := Pow10(|s| - 1);
      assert d * p <= 9 * p by { MulMonotone(d, 9, p); }
      d * p + rest
  }

  lemma MulMonotone(a: nat, b: nat, p: nat)
    requires a <= b
    ensures a * p <= b * p
  {
  }

  /** `n / p` and `n % p` are the leading digit and the remainder of an at most `w + 1`-digit number. */
  lemma LeadingDigit(n: nat, p: nat)
    requires p >= 1 && n < 10 * p
    ensures n / p < 10
    ensures n == (n / p) * p + n % p && n % p < p
  {
  }

  /** `n` written with exactly `width` digits, zero padded on the left. */
  function Pad(n: nat, width: nat): (s: string)
    requires n < Pow10(width)
    ensures |s| == width && AllDigits(s)
    ensures DigitsValue(s) == n
  {
    if width == 0 then ""
    else
      var p := Pow10(width - 1);
      LeadingDigit(n, p);
      var head := DigitChar(n / p);
      var tail := Pad(n % p, width - 1);
      var s := [head] + tail;
      assert s[1..] == tail;
      s
  }

  /** `run_date.strftime("%Y%m%d")`: four-digit year, two-digit month, two-digit day. */
  function RunDateKey(d: Date): (key: string)
    requires ValidDate(d)
    ensures |key| == 8 && AllDigits(key)
  {
    Pad(d.year, 4) + Pad(d.month, 2) + Pad(d.day, 2)
  }

  /** Reads an eight-digit key back into a date; `None` for anything else. */
  function ParseRunDateKey(key: string): (d: Option<Date>)
    ensures d.Some? ==> |key| == 8 && AllDigits(key)
  {
    if |key| == 8 && AllDigits(key) then
      Some(Date(DigitsValue(key[..4]), DigitsValue(key[4..6]), DigitsValue(key[6..])))
    else None
  }

  /** Formatting a run date and reading the key back gives the same date. */
  lemma RunDateKeyRoundTrip(d: Date)
    requires ValidDate(d)
    ensures ParseRunDateKey(RunDateKey(d)) == Some(d)
  {
    var key := RunDateKey(d);
    assert key[..4] == Pad(d.year, 4);
    assert key[4..6] == Pad(d.month, 2);
    assert key[6..] == Pad(d.day, 2);
  }

  /** Two numbers of the form `d * p + r` with `r < p` compare as their leading digits, then their remainders. */
  lemma LeadingDigitDecides(da: nat, db: nat, ra: nat, rb: nat, p: nat, va: nat, vb: nat)
    requires ra < p && rb < p
    requires va == da * p + ra && vb == db * p + rb
    ensures da < db ==> va < vb
    ensures db < da ==> vb < va
    ensures da == db ==> (va <= vb <==> ra <= rb)
  {
    if da < db {
      MulMonotone(da + 1, db, p);
    } else if db < da {
      MulMonotone(db + 1, da, p);
    }
  }

  /** On digit strings of one length, text order is numeric order. */
  lemma {:induction false} DigitsOrder(a: string, b: string)
    requires |a| == |b| && AllDigits(a) && AllDigits(b)
    ensures LexLe(a, b) <==> DigitsValue(a) <= DigitsValue(b)
  {
    if |a| > 0 {
      DigitsOrder(a[1..], b[1..]);
      LeadingDigitDecides(DigitOf(a[0]), DigitOf(b[0]), DigitsValue(a[1..]), DigitsValue(b[1..]),
                          Pow10(|a| - 1), DigitsValue(a), DigitsValue(b));
    }
  }

  /** The number a run date key denotes: `yyyymmdd` read as a decimal. */
  lemma RunDateKeyValue(d: Date)
    requires ValidDate(d)
    ensures DigitsValue(RunDateKey(d)) == d.year * 10000 + d.month * 100 + d.day
  {
    var y, m, dd := Pad(d.year, 4), Pad(d.month, 2), Pad(d.day, 2);
    assert Pow10(2) == 100;
    DigitsAppend(y, m);
    var ym := y + m;
    assert DigitsValue(ym) == d.year * 100 + d.month;
    DigitsAppend(ym, dd);
    assert DigitsValue(ym + dd) == (d.year * 100 + d.month) * 100 + d.day;
    assert RunDateKey(d) == ym + dd;
  }

  /** Appending digits shifts the value left. */
  lemma {:induction false} DigitsAppend(a: string, b: string)
    requires AllDigits(a) && AllDigits(b)
    ensures AllDigits(a + b)
    ensures DigitsValue(a + b) == DigitsValue(a) * Pow10(|b|) + DigitsValue(b)
  {
    var ab := a + b;
    assert AllDigits(ab) by {
      forall i | 0 <= i < |ab| ensures IsDigit(ab[i]) {
        if i < |a| { assert ab[i] == a[i]; } else { assert ab[i] == b[i - |a|]; }
      }
    }
    if |a| == 0 {
      assert ab == b;
    } else {
      assert ab[1..] == a[1..] + b;
      DigitsAppend(a[1..], b);
      var d, pa, pb := DigitOf(a[0]), Pow10(|a| - 1), Pow10(|b|);
      var va, vb := DigitsValue(a[1..]), DigitsValue(b);
      assert DigitsValue(a) == d * pa + va;
      assert DigitsValue(ab[1..]) == va * pb + vb;
      assert ab[0] == a[0];
      assert DigitsValue(ab) == d * Pow10(|ab| - 1) + DigitsValue(ab[1..]);
      assert Pow10(|ab| - 1) == pa * pb by {
        PowAdd(|a| - 1, |b|);
      }
      ShiftDistributes(d, pa, pb, va, vb);
    }
  }

  lemma ShiftDistributes(d: nat, pa: nat, pb: nat, va: nat, vb: nat)
    ensures d * (pa * pb) + (va * pb + vb) == (d * pa + va) * pb + vb
  {
    MulAssoc(d, pa, pb);
  }

  lemma MulAssoc(x: nat, y: nat, z: nat)
    ensures x * (y * z) == (x * y) * z
  {
  }

  lemma {:induction false} PowAdd(m: nat, n: nat)
    ensures Pow10(m + n) == Pow10(m) * Pow10(n)
  {
    if m > 0 {
      PowAdd(m - 1, n);
      MulAssoc(10, Pow10(m - 1), Pow10(n));
    }
  }

  /** Comparing run date keys as text agrees with the calendar, so `min`/`max` pick the earliest/latest run. */
  lemma RunDateKeyOrder(d1: Date, d2: Date)
    requires ValidDate(d1) && ValidDate(d2)
    ensures LexLe(RunDateKey(d1), RunDateKey(d2)) <==> NotAfter(d1, d2)
  {
    DigitsOrder(RunDateKey(d1), RunDateKey(d2));
    RunDateKeyValue(d1);
    RunDateKeyValue(d2);
  }

  /** Distinct run dates get distinct keys. */
  lemma RunDateKeyInjective(d1: Date, d2: Date)
    requires ValidDate(d1) && ValidDate(d2)
    ensures RunDateKey(d1) == RunDateKey(d2) <==> d1 == d2
  {
    RunDateKeyRoundTrip(d1);
    RunDateKeyRoundTrip(d2);
  }
}
