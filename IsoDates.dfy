/**
 * Calendar dates in the ISO `yyyy-mm-dd` form that `toISOString().split('T')[0]`
 * yields for years 0 to 9999, and that an `<input type="date">` produces for
 * such years (its year may also have more than four digits). The form compares
 * dates as strings; `IsoDateOrder` shows that for four-digit years the string
 * order is the order of the dates.
 */
module IsoDates {
  import opened Text

  function DigitValue(c: char): (v: nat)
    requires IsDigit(c)
    ensures v <= 9
  {
    c as int - '0' as int
  }

  function Pow10(n: nat): (r: nat)
    ensures r >= 1
  {
    if n == 0 then 1 else 10 * Pow10(n - 1)
  }

  /** A digit followed by a smaller number stays below the next power of ten. */
  lemma DigitPlace(x: nat, n: nat, p: nat)
    requires x <= 9 && n < p
    ensures x * p + n < 10 * p
  {
    assert x * p <= 9 * p;
  }

  /** The decimal number a digit string denotes; it has no more digits than the string. */
  function Number(s: string): (v: nat)
    requires All(s, IsDigit)
    ensures v < Pow10(|s|)
  {
    if s == [] then 0
    else
      var rest := Number(s[1..]);
      var p := Pow10(|s| - 1);
      DigitPlace(DigitValue(s[0]), rest, p);
      DigitValue(s[0]) * p + rest
  }

  /** A smaller leading digit gives a smaller number, whatever follows. */
  lemma LeadingDigit(x: nat, y: nat, nx: nat, ny: nat, p: nat)
    requires x < y && nx < p && ny < p
    ensures x * p + nx < y * p + ny
  {
    assert (x + 1) * p <= y * p;
  }

  /** For digit strings of one length, the string order is the numeric order. */
  lemma {:induction false} StrLessDigits(a: string, b: string)
    requires |a| == |b| && All(a, IsDigit) && All(b, IsDigit)
    ensures StrLess(a, b) <==> Number(a) < Number(b)
  {
    if a != [] {
      var p := Pow10(|a| - 1);
      assert Number(a) == DigitValue(a[0]) * p + Number(a[1..]);
      assert Number(b) == DigitValue(b[0]) * p + Number(b[1..]);
      if a[0] == b[0] {
        StrLessDigits(a[1..], b[1..]);
      } else if a[0] < b[0] {
        LeadingDigit(DigitValue(a[0]), DigitValue(b[0]), Number(a[1..]), Number(b[1..]), p);
      } else {
        LeadingDigit(DigitValue(b[0]), DigitValue(a[0]), Number(b[1..]), Number(a[1..]), p);
      }
    }
  }

  /** For digit strings of one length, equal numbers mean equal strings. */
  lemma NumberInjective(a: string, b: string)
    requires |a| == |b| && All(a, IsDigit) && All(b, IsDigit)
    ensures a == b <==> Number(a) == Number(b)
  {
    StrLessTotal(a, b);
    StrLessDigits(a, b);
    StrLessDigits(b, a);
  }

  /** `yyyy-mm-dd`: four, two and two digits separated by hyphens. */
  predicate IsIsoDate(s: string) {
    && |s| == 10 && s[4] == '-' && s[7] == '-'
    && All(s[..4], IsDigit) && All(s[5..7], IsDigit) && All(s[8..], IsDigit)
  }

  /** The date as the number yyyymmdd; later dates have larger numbers. */
  function DayNumber(s: string): (n: nat)
    requires IsIsoDate(s)
  {
    Number(s[..4]) * 10000 + Number(s[5..7]) * 100 + Number(s[8..])
  }

  /** Comparing (year, month, day) in turn is comparing yyyymmdd. */
  lemma TupleOrder(y1: nat, m1: nat, d1: nat, y2: nat, m2: nat, d2: nat)
    requires m1 < 100 && d1 < 100 && m2 < 100 && d2 < 100
    ensures (y1 < y2 || (y1 == y2 && (m1 < m2 || (m1 == m2 && d1 < d2))))
        <==> y1 * 10000 + m1 * 100 + d1 < y2 * 10000 + m2 * 100 + d2
  {
    if y1 < y2 {
      assert y1 * 10000 + 10000 <= y2 * 10000;
    } else if y2 < y1 {
      assert y2 * 10000 + 10000 <= y1 * 10000;
    } else if m1 < m2 {
      assert m1 * 100 + 100 <= m2 * 100;
    } else if m2 < m1 {
      assert m2 * 100 + 100 <= m1 * 100;
    }
  }

  /** For well-formed dates, JavaScript's string `<` is the calendar order. */
  lemma IsoDateOrder(a: string, b: string)
    requires IsIsoDate(a) && IsIsoDate(b)
    ensures StrLess(a, b) <==> DayNumber(a) < DayNumber(b)
  {
    var ya, ma, da := a[..4], a[5..7], a[8..];
    var yb, mb, db := b[..4], b[5..7], b[8..];
    assert a == ya + ("-" + (ma + ("-" + da)));
    assert b == yb + ("-" + (mb + ("-" + db)));
    StrLessConcat(ya, "-" + (ma + ("-" + da)), yb, "-" + (mb + ("-" + db)));
    StrLessConcat("-", ma + ("-" + da), "-", mb + ("-" + db));
    StrLessIrreflexive("-");
    StrLessConcat(ma, "-" + da, mb, "-" + db);
    StrLessConcat("-", da, "-", db);
    StrLessDigits(ya, yb);
    StrLessDigits(ma, mb);
    StrLessDigits(da, db);
    NumberInjective(ya, yb);
    NumberInjective(ma, mb);
    TupleOrder(Number(ya), Number(ma), Number(da), Number(yb), Number(mb), Number(db));
  }

  /** Example: the last day of a year comes before the first day of the next. */
  lemma DateOrderExample()
    ensures StrLess("2023-12-31", "2024-01-01")
    ensures !StrLess("2024-01-10", "2024-01-10")
  {
    StrLessIrreflexive("2024-01-10");
  }
}
