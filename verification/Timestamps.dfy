/**
  Stored timestamps. The SQL store writes UTC times in the layout of RFC 3339 with up to nine
  fraction digits, trailing zeros dropped, and compares them as text. Section 5.1 of RFC 3339
  promises that text order is time order only for equal numbers of fraction digits; this module
  proves exactly when the two orders agree, and what that means for one-time codes.
  */
module Timestamps {
  import opened TextOrder

  datatype Time = Time(year: nat, month: nat, day: nat, hour: nat, minute: nat, second: nat, nanos: nat)

  const SECOND := 1_000_000_000

  // ---------- The calendar ----------

  predicate IsLeap(y: nat) {
    y % 4 == 0 && (y % 100 != 0 || y % 400 == 0)
  }

  function DaysIn(y: nat, m: nat): nat {
    if m == 2 then (if IsLeap(y) then 29 else 28)
    else if m == 4 || m == 6 || m == 9 || m == 11 then 30
    else 31
  }

  function DaysBeforeYear(y: nat): nat {
    if y == 0 then 0 else DaysBeforeYear(y - 1) + (if IsLeap(y - 1) then 366 else 365)
  }

  function DaysBeforeMonth(y: nat, m: nat): nat {
    if m <= 1 then 0 else DaysBeforeMonth(y, m - 1) + DaysIn(y, m - 1)
  }

  /** Years of four digits, as the layout of RFC 3339 has it. */
  predicate Valid(t: Time) {
    && t.year <= 9999 && 1 <= t.month <= 12 && 1 <= t.day <= DaysIn(t.year, t.month)
    && t.hour < 24 && t.minute < 60 && t.second < 60 && t.nanos < SECOND
  }

  function Days(t: Time): int {
    DaysBeforeYear(t.year) + DaysBeforeMonth(t.year, t.month) + t.day - 1
  }

  function Seconds(t: Time): int {
    ((Days(t) * 24 + t.hour) * 60 + t.minute) * 60 + t.second
  }

  /** Nanoseconds since the start of year 0. */
  function Nanos(t: Time): int {
    Seconds(t) * SECOND + t.nanos
  }

  lemma {:induction false} MonthsFit(y: nat, m: nat)
    requires 1 <= m <= 13
    ensures DaysBeforeMonth(y, 13) == if IsLeap(y) then 366 else 365
    ensures m <= 12 ==> DaysBeforeMonth(y, m) + DaysIn(y, m) <= DaysBeforeMonth(y, 13)
    decreases 13 - m
  {
    if m < 12 {
      MonthsFit(y, m + 1);
    } else {
      assert DaysBeforeMonth(y, 2) == 31;
      assert DaysBeforeMonth(y, 3) == 31 + DaysIn(y, 2);
      assert DaysBeforeMonth(y, 5) == 31 + DaysIn(y, 2) + 31 + 30;
      assert DaysBeforeMonth(y, 7) == DaysBeforeMonth(y, 5) + 31 + 30;
      assert DaysBeforeMonth(y, 9) == DaysBeforeMonth(y, 7) + 31 + 31;
      assert DaysBeforeMonth(y, 11) == DaysBeforeMonth(y, 9) + 30 + 31;
      assert DaysBeforeMonth(y, 13) == DaysBeforeMonth(y, 11) + 30 + 31;
    }
  }

  lemma {:induction false} MonthsAscend(y: nat, m: nat, n: nat)
    requires 1 <= m < n <= 13
    ensures DaysBeforeMonth(y, m) + DaysIn(y, m) <= DaysBeforeMonth(y, n)
  {
    if m + 1 < n {
      MonthsAscend(y, m, n - 1);
    }
  }

  lemma {:induction false} YearsAscend(y: nat, z: nat)
    requires y < z
    ensures DaysBeforeYear(y) + DaysBeforeMonth(y, 13) <= DaysBeforeYear(z)
  {
    MonthsFit(y, 13);
    if y + 1 < z {
      YearsAscend(y, z - 1);
    }
  }

  predicate DateBefore(a: Time, b: Time) {
    a.year < b.year || (a.year == b.year && (a.month < b.month || (a.month == b.month && a.day < b.day)))
  }

  predicate ClockBefore(a: Time, b: Time) {
    a.hour < b.hour || (a.hour == b.hour && (a.minute < b.minute || (a.minute == b.minute && a.second < b.second)))
  }

  predicate SameDate(a: Time, b: Time) {
    a.year == b.year && a.month == b.month && a.day == b.day
  }

  predicate SameClock(a: Time, b: Time) {
    a.hour == b.hour && a.minute == b.minute && a.second == b.second
  }

  lemma DateOrder(a: Time, b: Time)
    requires Valid(a) && Valid(b) && DateBefore(a, b)
    ensures Days(a) < Days(b)
  {
    if a.year < b.year {
      MonthsFit(a.year, a.month);
      YearsAscend(a.year, b.year);
    } else if a.month < b.month {
      MonthsAscend(a.year, a.month, b.month);
    }
  }

  /** The calendar fields order times to the second exactly as the seconds do. */
  lemma SecondsByFields(a: Time, b: Time)
    requires Valid(a) && Valid(b)
    ensures Seconds(a) < Seconds(b) <==> DateBefore(a, b) || (SameDate(a, b) && ClockBefore(a, b))
    ensures Seconds(a) == Seconds(b) <==> SameDate(a, b) && SameClock(a, b)
  {
    if DateBefore(a, b) {
      DateOrder(a, b);
    } else if DateBefore(b, a) {
      DateOrder(b, a);
    }
  }

  // ---------- The text ----------

  function Digit(d: nat): char
    requires d < 10
  {
    ('0' as int + d) as char
  }

  function Digits(n: nat, width: nat): (s: string)
    ensures |s| == width
    ensures forall i | 0 <= i < width :: '0' <= s[i] <= '9'
  {
    if width == 0 then [] else Digits(n / 10, width - 1) + [Digit(n % 10)]
  }

  function Power10(w: nat): nat {
    if w == 0 then 1 else 10 * Power10(w - 1)
  }

  lemma {:induction false} DigitsOrder(a: nat, b: nat, w: nat)
    requires a < b < Power10(w)
    ensures Before(Digits(a, w), Digits(b, w))
  {
    var p, q := Digits(a / 10, w - 1), Digits(b / 10, w - 1);
    if a / 10 < b / 10 {
      DigitsOrder(a / 10, b / 10, w - 1);
      BeforeSameLength(p, q, [Digit(a % 10)], [Digit(b % 10)]);
    } else {
      BeforeSamePrefix(p, [Digit(a % 10)], [Digit(b % 10)]);
    }
  }

  function Stripped(s: string): (r: string)
    ensures r <= s
    ensures forall i | |r| <= i < |s| :: s[i] == '0'
    ensures r != [] ==> r[|r| - 1] != '0'
  {
    if s == [] || s[|s| - 1] != '0' then s else Stripped(s[..|s| - 1])
  }

  /** The fraction digits that are written: none for a whole second. */
  function Fraction(nanos: nat): string {
    Stripped(Digits(nanos, 9))
  }

  function Tail(fraction: string): string {
    if fraction == [] then "Z" else "." + fraction + "Z"
  }

  function DateText(t: Time): string {
    Digits(t.year, 4) + "-" + Digits(t.month, 2) + "-" + Digits(t.day, 2)
  }

  function ClockText(t: Time): string {
    "T" + Digits(t.hour, 2) + ":" + Digits(t.minute, 2) + ":" + Digits(t.second, 2)
  }

  function Format(t: Time): string {
    DateText(t) + ClockText(t) + Tail(Fraction(t.nanos))
  }

  lemma Powers()
    ensures Power10(2) == 100 && Power10(4) == 10000 && Power10(9) == SECOND
  {
    assert Power10(3) == 1000 && Power10(5) == 100000 && Power10(7) == 10000000;
  }

  lemma DateTextOrder(a: Time, b: Time)
    requires Valid(a) && Valid(b) && DateBefore(a, b)
    ensures Before(DateText(a), DateText(b))
  {
    Powers();
    var ya, yb := Digits(a.year, 4), Digits(b.year, 4);
    var ma, mb := Digits(a.month, 2), Digits(b.month, 2);
    var da, db := Digits(a.day, 2), Digits(b.day, 2);
    assert DateText(a) == ya + ("-" + (ma + ("-" + da)));
    assert DateText(b) == yb + ("-" + (mb + ("-" + db)));
    if a.year < b.year {
      DigitsOrder(a.year, b.year, 4);
      BeforeSameLength(ya, yb, "-" + (ma + ("-" + da)), "-" + (mb + ("-" + db)));
    } else {
      BeforeSamePrefix(ya, "-" + (ma + ("-" + da)), "-" + (mb + ("-" + db)));
      BeforeSamePrefix("-", ma + ("-" + da), mb + ("-" + db));
      if a.month < b.month {
        DigitsOrder(a.month, b.month, 2);
        BeforeSameLength(ma, mb, "-" + da, "-" + db);
      } else {
        DigitsOrder(a.day, b.day, 2);
        BeforeSamePrefix(ma, "-" + da, "-" + db);
        BeforeSamePrefix("-", da, db);
      }
    }
  }

  lemma ClockTextOrder(a: Time, b: Time)
    requires Valid(a) && Valid(b) && ClockBefore(a, b)
    ensures Before(ClockText(a), ClockText(b))
  {
    Powers();
    var ha, hb := Digits(a.hour, 2), Digits(b.hour, 2);
    var ma, mb := Digits(a.minute, 2), Digits(b.minute, 2);
    var sa, sb := Digits(a.second, 2), Digits(b.second, 2);
    assert ClockText(a) == "T" + (ha + (":" + (ma + (":" + sa))));
    assert ClockText(b) == "T" + (hb + (":" + (mb + (":" + sb))));
    BeforeSamePrefix("T", ha + (":" + (ma + (":" + sa))), hb + (":" + (mb + (":" + sb))));
    if a.hour < b.hour {
      DigitsOrder(a.hour, b.hour, 2);
      BeforeSameLength(ha, hb, ":" + (ma + (":" + sa)), ":" + (mb + (":" + sb)));
    } else {
      BeforeSamePrefix(ha, ":" + (ma + (":" + sa)), ":" + (mb + (":" + sb)));
      BeforeSamePrefix(":", ma + (":" + sa), mb + (":" + sb));
      if a.minute < b.minute {
        DigitsOrder(a.minute, b.minute, 2);
        BeforeSameLength(ma, mb, ":" + sa, ":" + sb);
      } else {
        DigitsOrder(a.second, b.second, 2);
        BeforeSamePrefix(ma, ":" + sa, ":" + sb);
        BeforeSamePrefix(":", sa, sb);
      }
    }
  }

  lemma DifferentSeconds(a: Time, b: Time)
    requires Valid(a) && Valid(b) && Seconds(a) < Seconds(b)
    ensures Before(Format(a), Format(b))
  {
    SecondsByFields(a, b);
    var ta, tb := Tail(Fraction(a.nanos)), Tail(Fraction(b.nanos));
    assert Format(a) == DateText(a) + (ClockText(a) + ta) && Format(b) == DateText(b) + (ClockText(b) + tb);
    if DateBefore(a, b) {
      DateTextOrder(a, b);
      BeforeSameLength(DateText(a), DateText(b), ClockText(a) + ta, ClockText(b) + tb);
    } else {
      ClockTextOrder(a, b);
      BeforeSameLength(ClockText(a), ClockText(b), ta, tb);
      BeforeSamePrefix(DateText(a), ClockText(a) + ta, ClockText(b) + tb);
    }
  }

  lemma {:induction false} NothingBeforeZeros(s: string, zeros: string)
    requires |s| == |zeros| && (forall i | 0 <= i < |zeros| :: zeros[i] == '0') && forall i | 0 <= i < |s| :: '0' <= s[i]
    ensures !Before(s, zeros)
  {
    if s != [] {
      NothingBeforeZeros(s[1..], zeros[1..]);
    }
  }

  /** A shorter fraction that starts a longer one is the earlier time. */
  lemma FractionStarts(m: nat, n: nat)
    requires m < n < SECOND
    ensures !(Fraction(n) <= Fraction(m))
  {
    Powers();
    DigitsOrder(m, n, 9);
    var s, t, f := Digits(m, 9), Digits(n, 9), Fraction(n);
    if f <= Fraction(m) {
      assert s == f + s[|f|..] && t == f + t[|f|..];
      BeforeSamePrefix(f, s[|f|..], t[|f|..]);
      NothingBeforeZeros(s[|f|..], t[|f|..]);
    }
  }

  lemma TailOrder(m: nat, n: nat)
    requires m < n < SECOND
    ensures Before(Tail(Fraction(m)), Tail(Fraction(n))) <==> !(Fraction(m) <= Fraction(n))
  {
    Powers();
    var d, e, s, t := Fraction(m), Fraction(n), Digits(m, 9), Digits(n, 9);
    FractionStarts(m, n);
    assert e != [];
    assert Tail(e) == "." + (e + "Z");
    if d != [] {
      assert Tail(d) == "." + (d + "Z");
      BeforeSamePrefix(".", d + "Z", e + "Z");
      if d <= e {
        assert e + "Z" == d + (e[|d|..] + "Z");
        BeforeSamePrefix(d, "Z", e[|d|..] + "Z");
        assert e[|d|] == t[|d|];
      } else {
        DigitsOrder(m, n, 9);
        assert s == d + s[|d|..] && t == e + t[|e|..];
        BeforeByPrefix(d, e, s[|d|..], t[|e|..]);
        BeforeByPrefix(d, e, "Z", "Z");
      }
    }
  }

  /**
    For an earlier and a later time, the texts are in order exactly when the times fall in
    different seconds or the earlier fraction, as written, does not start the later one.
    */
  lemma TextOrderIff(a: Time, b: Time)
    requires Valid(a) && Valid(b) && Nanos(a) < Nanos(b)
    ensures Before(Format(a), Format(b)) <==> Seconds(a) != Seconds(b) || !(Fraction(a.nanos) <= Fraction(b.nanos))
  {
    if Seconds(a) == Seconds(b) {
      SecondsByFields(a, b);
      TailOrder(a.nanos, b.nanos);
      BeforeSamePrefix(DateText(a) + ClockText(a), Tail(Fraction(a.nanos)), Tail(Fraction(b.nanos)));
    } else {
      assert Seconds(a) < Seconds(b);
      DifferentSeconds(a, b);
    }
  }

  /** A whole second apart, text order is time order. */
  lemma TextOrderAfterASecond(a: Time, b: Time)
    requires Valid(a) && Valid(b) && Nanos(a) + SECOND <= Nanos(b)
    ensures Before(Format(a), Format(b)) && !Before(Format(b), Format(a))
  {
    DifferentSeconds(a, b);
    if Before(Format(b), Format(a)) {
      BeforeTransitive(Format(a), Format(b), Format(a));
      BeforeIrreflexive(Format(a));
    }
  }

  lemma {:induction false} ZeroDigits(w: nat)
    ensures forall i | 0 <= i < w :: Digits(0, w)[i] == '0'
  {
    if w > 0 {
      ZeroDigits(w - 1);
    }
  }

  /** Within a second the order can be wrong: any later time in it is written before the full second. */
  lemma WholeSecondSortsLast(whole: Time, later: Time)
    requires Valid(whole) && Valid(later) && Seconds(whole) == Seconds(later) && whole.nanos == 0 < later.nanos
    ensures Nanos(whole) < Nanos(later) && Before(Format(later), Format(whole))
  {
    SecondsByFields(whole, later);
    ZeroDigits(9);
    assert Fraction(0) == "";
    FractionStarts(0, later.nanos);
    assert Fraction(later.nanos) != "";
    BeforeSamePrefix(DateText(whole) + ClockText(whole), Tail(Fraction(later.nanos)), "Z");
  }

  // ---------- What is written ----------

  function Value(s: string): int {
    if s == [] then 0 else 10 * Value(s[..|s| - 1]) + (s[|s| - 1] as int - '0' as int)
  }

  lemma {:induction false} DigitsValue(n: nat, w: nat)
    requires n < Power10(w)
    ensures Value(Digits(n, w)) == n
  {
    if w > 0 {
      DigitsValue(n / 10, w - 1);
      assert Digits(n, w)[..w - 1] == Digits(n / 10, w - 1);
    }
  }

  /** The text is a date of ten characters, a clock of nine, and a tail; every field reads back as it was. */
  lemma LayoutReadsBack(t: Time)
    requires Valid(t)
    ensures |Format(t)| >= 20
    ensures var d := Format(t)[..10];
      Value(d[..4]) == t.year && d[4] == '-' && Value(d[5..7]) == t.month && d[7] == '-' && Value(d[8..10]) == t.day
    ensures var c := Format(t)[10..19];
      c[0] == 'T' && Value(c[1..3]) == t.hour && c[3] == ':' && Value(c[4..6]) == t.minute && c[6] == ':' && Value(c[7..9]) == t.second
    ensures Format(t)[19..] == Tail(Fraction(t.nanos))
  {
    Powers();
    DigitsValue(t.year, 4);
    DigitsValue(t.month, 2);
    DigitsValue(t.day, 2);
    DigitsValue(t.hour, 2);
    DigitsValue(t.minute, 2);
    DigitsValue(t.second, 2);
    DateReadsBack(t);
    ClockReadsBack(t);
    ThreeParts(DateText(t), ClockText(t), Tail(Fraction(t.nanos)));
  }

  lemma ThreeParts(d: string, c: string, e: string)
    requires |d| == 10 && |c| == 9
    ensures (d + c + e)[..10] == d && (d + c + e)[10..19] == c && (d + c + e)[19..] == e
  {
  }

  lemma DateReadsBack(t: Time)
    ensures var d := DateText(t);
      && |d| == 10 && d[..4] == Digits(t.year, 4) && d[4] == '-' && d[5..7] == Digits(t.month, 2) && d[7] == '-' && d[8..10] == Digits(t.day, 2)
  {
  }

  lemma ClockReadsBack(t: Time)
    ensures var c := ClockText(t);
      && |c| == 9 && c[0] == 'T' && c[1..3] == Digits(t.hour, 2) && c[3] == ':' && c[4..6] == Digits(t.minute, 2) && c[6] == ':' && c[7..9] == Digits(t.second, 2)
  {
  }
}
