/**
  UTC timestamps as `datetime.isoformat` prints them. A zero fraction is left out, which the
  ordering rule in section 5.1 of RFC 3339 does not cover; text order is time order all the same.
 */
module Timestamps {
  import opened Wrappers
  import opened Text
  import opened Decimal

  // ----- Calendar -----

  datatype Instant = Instant(year: nat, month: nat, day: nat, hour: nat, minute: nat, second: nat, micro: nat)

  predicate Leap(y: nat) { y % 4 == 0 && (y % 100 != 0 || y % 400 == 0) }

  function DaysInMonth(y: nat, m: nat): nat
  {
    if m == 2 then (if Leap(y) then 29 else 28)
    else if m == 4 || m == 6 || m == 9 || m == 11 then 30 else 31
  }

  predicate Valid(t: Instant)
  {
    && 1 <= t.year <= 9999 && 1 <= t.month <= 12 && 1 <= t.day <= DaysInMonth(t.year, t.month)
    && t.hour < 24 && t.minute < 60 && t.second < 60 && t.micro < 1000000
  }

  function DaysBeforeMonth(y: nat, m: nat): nat
  {
    if m <= 1 then 0 else DaysBeforeMonth(y, m - 1) + DaysInMonth(y, m - 1)
  }

  function DaysBeforeYear(y: nat): nat
  {
    if y <= 1 then 0 else DaysBeforeYear(y - 1) + DaysBeforeMonth(y - 1, 13)
  }

  function Ordinal(t: Instant): nat
  {
    DaysBeforeYear(t.year) + DaysBeforeMonth(t.year, t.month) + t.day
  }

  function ClockMicros(t: Instant): nat { ((t.hour * 60 + t.minute) * 60 + t.second) * 1000000 + t.micro }

  /** Microseconds since the beginning of the calendar: the order `datetime` compares by. */
  function Micros(t: Instant): int
  {
    Ordinal(t) * 86400000000 + ClockMicros(t)
  }

  ghost predicate DateBefore(a: Instant, b: Instant)
  {
    a.year < b.year || (a.year == b.year && (a.month < b.month || (a.month == b.month && a.day < b.day)))
  }

  lemma {:induction false} MonthsAddUp(y: nat, m: nat, n: nat)
    requires 1 <= m < n
    ensures DaysBeforeMonth(y, m) + DaysInMonth(y, m) <= DaysBeforeMonth(y, n)
  {
    if m < n - 1 {
      MonthsAddUp(y, m, n - 1);
    }
  }

  lemma {:induction false} YearsAddUp(x: nat, y: nat)
    requires 1 <= x < y
    ensures DaysBeforeYear(x) + DaysBeforeMonth(x, 13) <= DaysBeforeYear(y)
  {
    var days := DaysBeforeMonth(y - 1, 13);
    assert DaysBeforeYear(y) == DaysBeforeYear(y - 1) + days;
    if x < y - 1 {
      YearsAddUp(x, y - 1);
    }
  }

  lemma EarlierDate(a: Instant, b: Instant)
    requires Valid(a) && Valid(b) && DateBefore(a, b)
    ensures Ordinal(a) < Ordinal(b)
  {
    if a.year < b.year {
      YearsAddUp(a.year, b.year);
      MonthsAddUp(a.year, a.month, 13);
    } else if a.month < b.month {
      MonthsAddUp(a.year, a.month, b.month);
    }
  }

  lemma OrdinalOrder(a: Instant, b: Instant)
    requires Valid(a) && Valid(b)
    ensures Ordinal(a) < Ordinal(b) <==> DateBefore(a, b)
    ensures Ordinal(a) == Ordinal(b) <==> a.year == b.year && a.month == b.month && a.day == b.day
  {
    if DateBefore(a, b) {
      EarlierDate(a, b);
    } else if DateBefore(b, a) {
      EarlierDate(b, a);
    }
  }

  ghost predicate ClockBefore(a: Instant, b: Instant)
  {
    a.hour < b.hour || (a.hour == b.hour && (a.minute < b.minute || (a.minute == b.minute
      && (a.second < b.second || (a.second == b.second && a.micro < b.micro)))))
  }

  ghost predicate FieldsBefore(a: Instant, b: Instant)
  {
    DateBefore(a, b) || (a.year == b.year && a.month == b.month && a.day == b.day && ClockBefore(a, b))
  }

  lemma MicrosOrder(a: Instant, b: Instant)
    requires Valid(a) && Valid(b)
    ensures Micros(a) < Micros(b) <==> FieldsBefore(a, b)
  {
    OrdinalOrder(a, b);
  }

  lemma SameMicros(a: Instant, b: Instant)
    requires Valid(a) && Valid(b) && Micros(a) == Micros(b)
    ensures a == b
  {
    MicrosOrder(a, b);
    MicrosOrder(b, a);
  }

  // ----- Text -----

  function Fraction(micro: nat): string { if micro == 0 then "" else "." + Pad(micro, 6) }

  function Seconds(t: Instant): string { Pad(t.second, 2) + (Fraction(t.micro) + "+00:00") }

  function Clock(t: Instant): string
  {
    Pad(t.hour, 2) + (":" + (Pad(t.minute, 2) + (":" + Seconds(t))))
  }

  function Iso(t: Instant): (s: string)
    ensures s != ""
  {
    Pad(t.year, 4) + ("-" + (Pad(t.month, 2) + ("-" + (Pad(t.day, 2) + ("T" + Clock(t))))))
  }

  /** Strings with equally long beginnings compare by those first. */
  lemma {:induction false} LessConcat(p: string, q: string, a: string, b: string)
    requires |p| == |q|
    ensures Less(p + a, q + b) <==> Less(p, q) || (p == q && Less(a, b))
  {
    if p == "" {
      assert p + a == a && q + b == b;
    } else {
      LessConcat(p[1..], q[1..], a, b);
      assert (p + a)[1..] == p[1..] + a && (q + b)[1..] == q[1..] + b;
      assert p == q <==> p[0] == q[0] && p[1..] == q[1..] by {
        assert p == [p[0]] + p[1..] && q == [q[0]] + q[1..];
      }
    }
  }

  lemma {:induction false} PadOrder(a: nat, b: nat, w: nat)
    requires a < Pow10(w) && b < Pow10(w)
    ensures Less(Pad(a, w), Pad(b, w)) <==> a < b
    ensures Pad(a, w) == Pad(b, w) <==> a == b
  {
    if w > 0 {
      PadOrder(a / 10, b / 10, w - 1);
      var p, q, c, d := Pad(a / 10, w - 1), Pad(b / 10, w - 1), [Digit(a % 10)], [Digit(b % 10)];
      LessConcat(p, q, c, d);
      assert Less(c, d) <==> a % 10 < b % 10;
      assert p + c == q + d <==> p == q && c == d by {
        if p + c == q + d {
          assert p == (p + c)[..w - 1] && q == (q + d)[..w - 1];
          assert c[0] == (p + c)[w - 1] && d[0] == (q + d)[w - 1];
        }
      }
    }
  }

  /** A padded field followed by the same separator compares by the field, then by the rest. */
  lemma FieldOrder(a: nat, b: nat, w: nat, sep: string, x: string, y: string)
    requires a < Pow10(w) && b < Pow10(w)
    ensures Less(Pad(a, w) + (sep + x), Pad(b, w) + (sep + y)) <==> a < b || (a == b && Less(x, y))
  {
    PadOrder(a, b, w);
    LessConcat(Pad(a, w), Pad(b, w), sep + x, sep + y);
    LessAfterPrefix(sep, x, y);
  }

  lemma Widths()
    ensures Pow10(2) == 100 && Pow10(4) == 10000 && Pow10(6) == 1000000
  {
    assert Pow10(0) == 1 && Pow10(1) == 10 && Pow10(2) == 100 && Pow10(3) == 1000;
    assert Pow10(4) == 10000 && Pow10(5) == 100000 && Pow10(6) == 1000000;
  }

  /** An omitted zero fraction sorts first, since `+` comes before `.`. */
  lemma FractionOrder(u: nat, v: nat)
    requires u < 1000000 && v < 1000000
    ensures Less(Fraction(u) + "+00:00", Fraction(v) + "+00:00") <==> u < v
  {
    Widths();
    if u == 0 && v == 0 {
      assert Fraction(0) + "+00:00" == "+00:00";
      LessIrreflexive("+00:00");
    } else if u > 0 && v > 0 {
      PadOrder(u, v, 6);
      LessConcat(Fraction(u), Fraction(v), "+00:00", "+00:00");
      LessAfterPrefix(".", Pad(u, 6), Pad(v, 6));
      LessIrreflexive("+00:00");
    } else {
      assert (Fraction(u) + "+00:00")[0] == if u == 0 then '+' else '.';
      assert (Fraction(v) + "+00:00")[0] == if v == 0 then '+' else '.';
    }
  }

  lemma ClockOrder(a: Instant, b: Instant)
    requires Valid(a) && Valid(b)
    ensures Less(Clock(a), Clock(b)) <==> ClockBefore(a, b)
  {
    Widths();
    FractionOrder(a.micro, b.micro);
    FieldOrder(a.second, b.second, 2, "", Fraction(a.micro) + "+00:00", Fraction(b.micro) + "+00:00");
    assert "" + (Fraction(a.micro) + "+00:00") == Fraction(a.micro) + "+00:00";
    assert "" + (Fraction(b.micro) + "+00:00") == Fraction(b.micro) + "+00:00";
    FieldOrder(a.minute, b.minute, 2, ":", Seconds(a), Seconds(b));
    FieldOrder(a.hour, b.hour, 2, ":", Pad(a.minute, 2) + (":" + Seconds(a)), Pad(b.minute, 2) + (":" + Seconds(b)));
  }

  /** Text order of printed UTC timestamps is time order. */
  lemma TextOrderIsTimeOrder(a: Instant, b: Instant)
    requires Valid(a) && Valid(b)
    ensures Less(Iso(a), Iso(b)) <==> Micros(a) < Micros(b)
  {
    Widths();
    MicrosOrder(a, b);
    ClockOrder(a, b);
    var restA, restB := Pad(a.day, 2) + ("T" + Clock(a)), Pad(b.day, 2) + ("T" + Clock(b));
    FieldOrder(a.day, b.day, 2, "T", Clock(a), Clock(b));
    FieldOrder(a.month, b.month, 2, "-", restA, restB);
    FieldOrder(a.year, b.year, 4, "-", Pad(a.month, 2) + ("-" + restA), Pad(b.month, 2) + ("-" + restB));
  }

  lemma SameTextSameTime(a: Instant, b: Instant)
    requires Valid(a) && Valid(b)
    ensures Iso(a) == Iso(b) <==> Micros(a) == Micros(b)
  {
    TextOrderIsTimeOrder(a, b);
    TextOrderIsTimeOrder(b, a);
    LessTotal(Iso(a), Iso(b));
    LessIrreflexive(Iso(a));
  }

  // ----- Reading the text back -----

  /** Reads `w` digits and the separator after them. */
  function TakeField(s: string, w: nat, sep: string): Option<(nat, string)>
  {
    if |s| >= w + |sep| && AllDigits(s[..w]) && s[w..w + |sep|] == sep
    then Some((ValueOf(s[..w]), s[w + |sep|..])) else None
  }

  /** The fraction, which may be left out, and the offset. */
  function TakeFraction(s: string): Option<nat>
  {
    if s == "+00:00" then Some(0)
    else if s == "" || s[0] != '.' then None
    else
      var u :- TakeField(s[1..], 6, "+00:00");
      if u.1 == "" then Some(u.0) else None
  }

  /** `datetime.fromisoformat` on the forms `isoformat` prints for UTC. */
  function ParseUtc(s: string): Option<Instant>
  {
    var year :- TakeField(s, 4, "-");
    var month :- TakeField(year.1, 2, "-");
    var day :- TakeField(month.1, 2, "T");
    var hour :- TakeField(day.1, 2, ":");
    var minute :- TakeField(hour.1, 2, ":");
    var second :- TakeField(minute.1, 2, "");
    var micro :- TakeFraction(second.1);
    var t := Instant(year.0, month.0, day.0, hour.0, minute.0, second.0, micro);
    if Valid(t) then Some(t) else None
  }

  lemma FieldReadBack(n: nat, w: nat, sep: string, rest: string)
    requires n < Pow10(w)
    ensures TakeField(Pad(n, w) + (sep + rest), w, sep) == Some((n, rest))
  {
    ValueOfPad(n, w);
    var s := Pad(n, w) + (sep + rest);
    assert s[..w] == Pad(n, w) && s[w..w + |sep|] == sep && s[w + |sep|..] == rest;
  }

  lemma FractionReadBack(micro: nat)
    requires micro < 1000000
    ensures TakeFraction(Fraction(micro) + "+00:00") == Some(micro)
  {
    Widths();
    var s := Fraction(micro) + "+00:00";
    if micro == 0 {
      assert s == "+00:00";
    } else {
      FieldReadBack(micro, 6, "+00:00", "");
      assert s[1..] == Pad(micro, 6) + ("+00:00" + "");
      assert s[0] == '.' && s != "+00:00";
    }
  }

  /** Reading a printed timestamp gives the instant it was printed from. */
  lemma ParsePrinted(t: Instant)
    requires Valid(t)
    ensures ParseUtc(Iso(t)) == Some(t)
  {
    Widths();
    var tail := Fraction(t.micro) + "+00:00";
    var minutes := Pad(t.minute, 2) + (":" + Seconds(t));
    var days := Pad(t.day, 2) + ("T" + Clock(t));
    FieldReadBack(t.year, 4, "-", Pad(t.month, 2) + ("-" + days));
    FieldReadBack(t.month, 2, "-", days);
    FieldReadBack(t.day, 2, "T", Clock(t));
    FieldReadBack(t.hour, 2, ":", minutes);
    FieldReadBack(t.minute, 2, ":", Seconds(t));
    FieldReadBack(t.second, 2, "", tail);
    assert "" + tail == tail;
    FractionReadBack(t.micro);
  }

  // ----- Adding a lifetime -----

  function YearFrom(n: nat, y: nat): (r: (nat, nat))
    requires n >= 1 && y >= 1
    ensures r.0 >= y && 1 <= r.1 <= DaysBeforeMonth(r.0, 13) && DaysBeforeYear(r.0) + r.1 == DaysBeforeYear(y) + n
    decreases n
  {
    MonthsAddUp(y, 1, 13);
    if n <= DaysBeforeMonth(y, 13) then (y, n) else YearFrom(n - DaysBeforeMonth(y, 13), y + 1)
  }

  function MonthFrom(y: nat, n: nat, m: nat): (r: (nat, nat))
    requires 1 <= m <= 12 && 1 <= n && DaysBeforeMonth(y, m) + n <= DaysBeforeMonth(y, 13)
    ensures 1 <= r.0 <= 12 && 1 <= r.1 <= DaysInMonth(y, r.0)
    ensures DaysBeforeMonth(y, r.0) + r.1 == DaysBeforeMonth(y, m) + n
    decreases 12 - m
  {
    if n <= DaysInMonth(y, m) then (m, n)
    else
      assert m < 12;
      MonthFrom(y, n - DaysInMonth(y, m), m + 1)
  }

  /** Hour, minute, second and microsecond of a day. */
  function TimeOfDay(clock: nat): (r: (nat, nat, nat, nat))
    requires clock < 86400000000
    ensures r.0 < 24 && r.1 < 60 && r.2 < 60 && r.3 < 1000000
    ensures ((r.0 * 60 + r.1) * 60 + r.2) * 1000000 + r.3 == clock
  {
    var seconds := clock / 1000000;
    var minutes := seconds / 60;
    assert seconds < 86400 && minutes < 1440;
    (minutes / 60, minutes % 60, seconds % 60, clock % 1000000)
  }

  function OnDay(n: nat, clock: nat): (t: Instant)
    requires n >= 1 && clock < 86400000000
    ensures Ordinal(t) == n && t.year >= 1 && t.day >= 1 && (t.year <= 9999 ==> Valid(t))
    ensures ClockMicros(t) == clock
  {
    var year := YearFrom(n, 1);
    var month := MonthFrom(year.0, year.1, 1);
    var time := TimeOfDay(clock);
    Instant(year.0, month.0, month.1, time.0, time.1, time.2, time.3)
  }

  function AtMicros(k: nat): (t: Instant)
    requires k >= 86400000000
    ensures Micros(t) == k && t.year >= 1 && t.day >= 1 && (t.year <= 9999 ==> Valid(t)) && ClockMicros(t) < 86400000000
  {
    OnDay(k / 86400000000, k % 86400000000)
  }

  /** `datetime + timedelta(seconds=...)`; `None` is the overflow past year 9999. */
  function Plus(t: Instant, seconds: nat): (r: Option<Instant>)
    requires Valid(t)
    ensures r.Some? ==> Valid(r.value) && Micros(r.value) == Micros(t) + seconds * 1000000
  {
    InstantAt(Micros(t) + seconds * 1000000)
  }

  /** The instant that many microseconds into the calendar, if it has one. */
  function InstantAt(k: int): (r: Option<Instant>)
    ensures r.Some? ==> Valid(r.value) && Micros(r.value) == k
  {
    if k >= 86400000000 && AtMicros(k).year <= 9999 then Some(AtMicros(k)) else None
  }

  lemma LastYear(a: Instant, b: Instant)
    requires Valid(a) && Ordinal(b) <= Ordinal(a) && b.year >= 1 && 1 <= b.day
    ensures b.year <= 9999
  {
    if b.year > 9999 {
      YearsAddUp(a.year, b.year);
      MonthsAddUp(a.year, a.month, 13);
    }
  }

  lemma SameDay(o: nat, c: nat, p: nat, d: nat)
    requires c < 86400000000 && d < 86400000000 && o * 86400000000 + c == p * 86400000000 + d
    ensures o == p
  {
  }

  lemma ClockWithinDay(t: Instant)
    requires Valid(t)
    ensures ClockMicros(t) < 86400000000 && Micros(t) >= 86400000000
  {
  }

  lemma InstantAtInverse(t: Instant)
    requires Valid(t)
    ensures InstantAt(Micros(t)) == Some(t)
  {
    ClockWithinDay(t);
    var r := AtMicros(Micros(t));
    SameDay(Ordinal(r), ClockMicros(r), Ordinal(t), ClockMicros(t));
    LastYear(t, r);
    SameMicros(r, t);
  }

  /** The overflow is reported only when no representable instant is that much later. */
  lemma PlusReaches(t: Instant, seconds: nat, e: Instant)
    requires Valid(t) && Valid(e) && Micros(e) == Micros(t) + seconds * 1000000
    ensures Plus(t, seconds) == Some(e)
  {
    InstantAtInverse(e);
  }
}
