/**
  Text-ordered timestamps: comparing the `isoformat()` texts of two UTC instants, as the SQL statements
  of the stores do, is comparing the instants.
 */
module IsoTime {
  const DAYS_IN_MONTH: seq<nat> := [31, 28, 31, 30, 31, 30, 31, 31, 30, 31, 30, 31]

  /** The fields of a UTC `datetime`. */
  datatype DateTime = DateTime(year: nat, month: nat, day: nat, hour: nat, minute: nat, second: nat, micro: nat)

  predicate IsLeap(year: nat) {
    year % 4 == 0 && (year % 100 != 0 || year % 400 == 0)
  }

  function DaysInMonth(year: nat, month: nat): nat
    requires 1 <= month <= 12
  {
    DAYS_IN_MONTH[month - 1] + if month == 2 && IsLeap(year) then 1 else 0
  }

  /** What the `datetime` constructor accepts. */
  predicate Valid(d: DateTime) {
    && 1 <= d.year <= 9999 && 1 <= d.month <= 12 && 1 <= d.day <= DaysInMonth(d.year, d.month)
    && d.hour < 24 && d.minute < 60 && d.second < 60 && d.micro < 1_000_000
  }

  // ---- the instant ----

  function DaysBeforeYear(year: nat): nat
    requires year >= 1
  {
    var y := year - 1;
    y * 365 + y / 4 - y / 100 + y / 400
  }

  function DaysBeforeMonth(year: nat, month: nat): nat
    requires 1 <= month <= 13
  {
    if month == 1 then 0 else DaysBeforeMonth(year, month - 1) + DaysInMonth(year, month - 1)
  }

  /** Days since the day before 0001-01-01, as `date.toordinal()`. */
  function Ordinal(d: DateTime): nat
    requires Valid(d)
  {
    DaysBeforeYear(d.year) + DaysBeforeMonth(d.year, d.month) + d.day
  }

  /** The instant, in microseconds of the proleptic Gregorian calendar. */
  function Micros(d: DateTime): nat
    requires Valid(d)
  {
    (((Ordinal(d) * 24 + d.hour) * 60 + d.minute) * 60 + d.second) * 1_000_000 + d.micro
  }

  // ---- the text ----

  /** The decimal digits of `n`, zero-padded to `width`. */
  function Padded(width: nat, n: nat): (s: string)
    ensures |s| == width
  {
    if width == 0 then "" else Padded(width - 1, n / 10) + [('0' as int + n % 10) as char]
  }

  /** The fraction, which is left out when it is zero, and the offset. */
  function Tail(micro: nat): string {
    (if micro == 0 then "" else "." + Padded(6, micro)) + "+00:00"
  }

  /** `isoformat()` of a UTC datetime. */
  function IsoFormat(d: DateTime): string {
    Padded(4, d.year) + ("-" + (Padded(2, d.month) + ("-" + (Padded(2, d.day) + ("T" + (Padded(2, d.hour)
    + (":" + (Padded(2, d.minute) + (":" + (Padded(2, d.second) + Tail(d.micro)))))))))))
  }

  /** `<` on TEXT columns: the first differing character decides, and a proper prefix is smaller. */
  predicate TextLess(a: string, b: string) {
    if b == "" then false
    else if a == "" then true
    else if a[0] != b[0] then a[0] < b[0]
    else TextLess(a[1..], b[1..])
  }

  // ---- text order is field order ----

  lemma {:induction false} TextLessPrefix(p: string, a: string, b: string)
    ensures TextLess(p + a, p + b) == TextLess(a, b)
  {
    if p == "" {
      assert p + a == a && p + b == b;
    } else {
      assert (p + a)[1..] == p[1..] + a && (p + b)[1..] == p[1..] + b;
      TextLessPrefix(p[1..], a, b);
    }
  }

  lemma {:induction false} TextLessFixedWidth(p: string, q: string, a: string, b: string)
    requires |p| == |q| && p != q
    ensures TextLess(p + a, q + b) == TextLess(p, q)
  {
    if p[0] != q[0] {
    } else {
      assert p[1..] != q[1..] by {
        assert p == [p[0]] + p[1..] && q == [q[0]] + q[1..];
      }
      assert (p + a)[1..] == p[1..] + a && (q + b)[1..] == q[1..] + b;
      TextLessFixedWidth(p[1..], q[1..], a, b);
    }
  }

  function Pow10(n: nat): nat {
    if n == 0 then 1 else 10 * Pow10(n - 1)
  }

  lemma {:induction false} PaddedOrder(width: nat, x: nat, y: nat)
    requires x < Pow10(width) && y < Pow10(width)
    ensures TextLess(Padded(width, x), Padded(width, y)) == (x < y)
    ensures Padded(width, x) == Padded(width, y) <==> x == y
  {
    if width == 0 {
    } else {
      var p, q := Padded(width - 1, x / 10), Padded(width - 1, y / 10);
      PaddedOrder(width - 1, x / 10, y / 10);
      var a, b := [('0' as int + x % 10) as char], [('0' as int + y % 10) as char];
      assert p == (p + a)[..width - 1] && q == (q + b)[..width - 1];
      if p == q {
        TextLessPrefix(p, a, b);
        assert a[0] == (p + a)[width - 1] && b[0] == (q + b)[width - 1];
      } else {
        TextLessFixedWidth(p, q, a, b);
      }
    }
  }

  /** A leading fixed-width number decides unless it is equal on both sides. */
  lemma FieldDecides(width: nat, x: nat, y: nat, a: string, b: string)
    requires x < Pow10(width) && y < Pow10(width)
    ensures TextLess(Padded(width, x) + a, Padded(width, y) + b) == (x < y || (x == y && TextLess(a, b)))
  {
    PaddedOrder(width, x, y);
    if x == y {
      TextLessPrefix(Padded(width, x), a, b);
    } else {
      TextLessFixedWidth(Padded(width, x), Padded(width, y), a, b);
    }
  }

  lemma Powers()
    ensures Pow10(2) == 100 && Pow10(4) == 10_000 && Pow10(6) == 1_000_000
  {
    assert Pow10(3) == 1000 && Pow10(5) == 100_000;
  }

  /** A missing fraction reads as zero, because '+' sorts before '.'. */
  lemma TailOrder(x: nat, y: nat)
    requires x < 1_000_000 && y < 1_000_000
    ensures TextLess(Tail(x), Tail(y)) == (x < y)
  {
    Powers();
    if x == 0 || y == 0 {
      assert Tail(0) == "+00:00";
      assert x != 0 ==> Tail(x)[0] == '.';
      assert y != 0 ==> Tail(y)[0] == '.';
      if x == y {
        TextLessPrefix(Tail(0), "", "");
        assert Tail(0) + "" == Tail(0);
      }
    } else {
      var p, q := Padded(6, x), Padded(6, y);
      assert Tail(x) == "." + (p + "+00:00") && Tail(y) == "." + (q + "+00:00");
      TextLessPrefix(".", p + "+00:00", q + "+00:00");
      FieldDecides(6, x, y, "+00:00", "+00:00");
      TextLessPrefix("+00:00", "", "");
      assert "+00:00" + "" == "+00:00";
    }
  }

  /** Most significant field first. */
  predicate ClockLess(a: DateTime, b: DateTime) {
    a.hour < b.hour || (a.hour == b.hour &&
    (a.minute < b.minute || (a.minute == b.minute &&
    (a.second < b.second || (a.second == b.second && a.micro < b.micro)))))
  }

  predicate DateLess(a: DateTime, b: DateTime) {
    a.year < b.year || (a.year == b.year &&
    (a.month < b.month || (a.month == b.month && a.day < b.day)))
  }

  predicate FieldsLess(a: DateTime, b: DateTime) {
    DateLess(a, b) || ((a.year, a.month, a.day) == (b.year, b.month, b.day) && ClockLess(a, b))
  }

  function ClockText(d: DateTime): string {
    Padded(2, d.hour) + (":" + (Padded(2, d.minute) + (":" + (Padded(2, d.second) + Tail(d.micro)))))
  }

  lemma ClockTextOrder(a: DateTime, b: DateTime)
    requires Valid(a) && Valid(b)
    ensures TextLess(ClockText(a), ClockText(b)) == ClockLess(a, b)
  {
    Powers();
    TailOrder(a.micro, b.micro);
    var secondA, secondB := Padded(2, a.second) + Tail(a.micro), Padded(2, b.second) + Tail(b.micro);
    FieldDecides(2, a.second, b.second, Tail(a.micro), Tail(b.micro));
    TextLessPrefix(":", secondA, secondB);
    var minuteA, minuteB := Padded(2, a.minute) + (":" + secondA), Padded(2, b.minute) + (":" + secondB);
    FieldDecides(2, a.minute, b.minute, ":" + secondA, ":" + secondB);
    TextLessPrefix(":", minuteA, minuteB);
    FieldDecides(2, a.hour, b.hour, ":" + minuteA, ":" + minuteB);
  }

  lemma TextOrderIsFieldOrder(a: DateTime, b: DateTime)
    requires Valid(a) && Valid(b)
    ensures TextLess(IsoFormat(a), IsoFormat(b)) == FieldsLess(a, b)
  {
    Powers();
    ClockTextOrder(a, b);
    TextLessPrefix("T", ClockText(a), ClockText(b));
    var dayA, dayB := Padded(2, a.day) + ("T" + ClockText(a)), Padded(2, b.day) + ("T" + ClockText(b));
    FieldDecides(2, a.day, b.day, "T" + ClockText(a), "T" + ClockText(b));
    TextLessPrefix("-", dayA, dayB);
    var monthA, monthB := Padded(2, a.month) + ("-" + dayA), Padded(2, b.month) + ("-" + dayB);
    FieldDecides(2, a.month, b.month, "-" + dayA, "-" + dayB);
    TextLessPrefix("-", monthA, monthB);
    FieldDecides(4, a.year, b.year, "-" + monthA, "-" + monthB);
  }

  // ---- field order is time order ----

  lemma {:induction false} MonthsInOrder(year: nat, early: nat, late: nat)
    requires 1 <= early < late <= 13
    ensures DaysBeforeMonth(year, early) + DaysInMonth(year, early) <= DaysBeforeMonth(year, late)
    decreases late
  {
    if early == late - 1 {
    } else {
      MonthsInOrder(year, early, late - 1);
    }
  }

  lemma MonthsOfYear(year: nat)
    ensures DaysBeforeMonth(year, 13) == if IsLeap(year) then 366 else 365
  {
    var leap := if IsLeap(year) then 1 else 0;
    assert DaysBeforeMonth(year, 3) == 59 + leap by {
      assert DaysBeforeMonth(year, 2) == 31;
    }
    assert DaysBeforeMonth(year, 5) == 120 + leap by {
      assert DaysBeforeMonth(year, 4) == 90 + leap;
    }
    assert DaysBeforeMonth(year, 7) == 181 + leap by {
      assert DaysBeforeMonth(year, 6) == 151 + leap;
    }
    assert DaysBeforeMonth(year, 9) == 243 + leap by {
      assert DaysBeforeMonth(year, 8) == 212 + leap;
    }
    assert DaysBeforeMonth(year, 11) == 304 + leap by {
      assert DaysBeforeMonth(year, 10) == 273 + leap;
    }
    assert DaysBeforeMonth(year, 12) == 334 + leap;
  }

  lemma MultipleIsFar(d: int, k: int)
    requires k > 0
    ensures (d > 0 ==> d * k >= k) && (d < 0 ==> d * k <= -k)
  {
  }

  lemma DivMod(n: nat, k: nat, q: nat, r: nat)
    requires k > 0 && n == q * k + r && r < k
    ensures n / k == q && n % k == r
  {
    var d := n / k - q;
    assert d * k == r - n % k;
    MultipleIsFar(d, k);
  }

  lemma Quotients(n: nat, k: nat)
    requires k > 0
    ensures (n + 1) / k - n / k == if (n + 1) % k == 0 then 1 else 0
  {
    var q, r := n / k, n % k;
    assert n == q * k + r;
    if r == k - 1 {
      assert n + 1 == (q + 1) * k + 0;
      DivMod(n + 1, k, q + 1, 0);
    } else {
      assert n + 1 == q * k + (r + 1);
      DivMod(n + 1, k, q, r + 1);
    }
  }

  lemma Divisors(n: nat)
    ensures n % 100 == 0 ==> n % 4 == 0
    ensures n % 400 == 0 ==> n % 100 == 0
  {
    if n % 100 == 0 {
      assert n == 4 * (25 * (n / 100));
      DivMod(n, 4, 25 * (n / 100), 0);
    }
    if n % 400 == 0 {
      assert n == 100 * (4 * (n / 400));
      DivMod(n, 100, 4 * (n / 400), 0);
    }
  }

  /** How the number of leap years grows. */
  lemma YearDays(year: nat)
    requires year >= 1
    ensures DaysBeforeYear(year + 1) == DaysBeforeYear(year) + if IsLeap(year) then 366 else 365
  {
    var last := year - 1;
    Quotients(last, 4);
    Quotients(last, 100);
    Quotients(last, 400);
    Divisors(year);
    assert last + 1 == year;
  }

  lemma YearLength(year: nat)
    requires year >= 1
    ensures DaysBeforeYear(year + 1) == DaysBeforeYear(year) + DaysBeforeMonth(year, 13)
  {
    YearDays(year);
    MonthsOfYear(year);
  }

  lemma {:induction false} YearsInOrder(early: nat, late: nat)
    requires 1 <= early < late
    ensures DaysBeforeYear(early) + DaysBeforeMonth(early, 13) <= DaysBeforeYear(late)
    decreases late - early
  {
    YearLength(early);
    if early + 1 == late {
    } else {
      YearsInOrder(early + 1, late);
    }
  }

  lemma DatesInOrder(a: DateTime, b: DateTime)
    requires Valid(a) && Valid(b) && DateLess(a, b)
    ensures Ordinal(a) < Ordinal(b)
  {
    MonthsInOrder(a.year, a.month, 13);
    if a.year < b.year {
      YearsInOrder(a.year, b.year);
    } else if a.month < b.month {
      MonthsInOrder(a.year, a.month, b.month);
    }
  }

  lemma FieldsInOrder(a: DateTime, b: DateTime)
    requires Valid(a) && Valid(b) && FieldsLess(a, b)
    ensures Micros(a) < Micros(b)
  {
    if DateLess(a, b) {
      DatesInOrder(a, b);
    }
  }

  /** For any two UTC datetimes, text order is time order, with or without a fractional part. */
  lemma TextOrderIsTimeOrder(a: DateTime, b: DateTime)
    requires Valid(a) && Valid(b)
    ensures TextLess(IsoFormat(a), IsoFormat(b)) <==> Micros(a) < Micros(b)
  {
    TextOrderIsFieldOrder(a, b);
    if FieldsLess(a, b) {
      FieldsInOrder(a, b);
    } else if FieldsLess(b, a) {
      FieldsInOrder(b, a);
    } else {
      assert a == b;
    }
  }

  /** The rows a statement like `WHERE consumed_at > ?` counts. */
  function RowsAfterText(rows: seq<DateTime>, since: DateTime): set<nat> {
    set i: nat | i < |rows| && TextLess(IsoFormat(since), IsoFormat(rows[i]))
  }

  /** So the SQL comparisons on text columns select exactly the rows later than the bound. */
  lemma SqlSelectsLaterRows(rows: seq<DateTime>, since: DateTime)
    requires Valid(since) && forall d :: d in rows ==> Valid(d)
    ensures RowsAfterText(rows, since) == set i: nat | i < |rows| && Micros(rows[i]) > Micros(since)
  {
    forall i: nat | i < |rows|
      ensures TextLess(IsoFormat(since), IsoFormat(rows[i])) <==> Micros(rows[i]) > Micros(since)
    {
      TextOrderIsTimeOrder(since, rows[i]);
    }
  }

  // ---- the text read back ----

  /** The number that decimal digits write. */
  function NumberOf(s: string): int {
    if s == "" then 0 else 10 * NumberOf(s[..|s| - 1]) + (s[|s| - 1] as int - '0' as int)
  }

  lemma {:induction false} PaddedReadsBack(width: nat, n: nat)
    requires n < Pow10(width)
    ensures NumberOf(Padded(width, n)) == n
  {
    if width == 0 {
    } else {
      PaddedReadsBack(width - 1, n / 10);
      assert Padded(width, n)[..width - 1] == Padded(width - 1, n / 10);
    }
  }

  /** A field, one separating character and the rest. */
  lemma FieldReadsBack(width: nat, n: nat, sep: char, rest: string)
    requires n < Pow10(width)
    ensures var t := Padded(width, n) + ([sep] + rest);
            |t| == width + 1 + |rest| && NumberOf(t[..width]) == n && t[width] == sep && t[width + 1..] == rest
  {
    PaddedReadsBack(width, n);
    assert (Padded(width, n) + ([sep] + rest))[..width] == Padded(width, n);
  }

  /** The text begins with `n` in `width` digits and then has `sep`. */
  predicate BeginsWith(t: string, width: nat, n: nat, sep: char) {
    |t| > width && NumberOf(t[..width]) == n && t[width] == sep
  }

  /** `SS+00:00`, or `SS.ffffff+00:00` when there is a fraction. */
  predicate EndsWith(t: string, second: nat, micro: nat) {
    && |t| == (if micro == 0 then 8 else 15) && NumberOf(t[..2]) == second && t[|t| - 6..] == "+00:00"
    && (micro != 0 ==> t[2] == '.' && NumberOf(t[3..9]) == micro)
  }

  lemma TailReadsBack(second: nat, micro: nat)
    requires second < 60 && micro < 1_000_000
    ensures EndsWith(Padded(2, second) + Tail(micro), second, micro)
  {
    Powers();
    var p := Padded(2, second);
    var t := p + Tail(micro);
    PaddedReadsBack(2, second);
    assert t[..2] == p;
    if micro != 0 {
      PaddedReadsBack(6, micro);
      assert t == p + "." + Padded(6, micro) + "+00:00";
      assert t[3..9] == Padded(6, micro);
    }
  }

  /** `YYYY-MM-DDTHH:MM:SS[.ffffff]+00:00` with these fields. */
  predicate Writes(t: string, d: DateTime) {
    && |t| >= 17 && BeginsWith(t, 4, d.year, '-') && BeginsWith(t[5..], 2, d.month, '-') && BeginsWith(t[8..], 2, d.day, 'T')
    && BeginsWith(t[11..], 2, d.hour, ':') && BeginsWith(t[14..], 2, d.minute, ':') && EndsWith(t[17..], d.second, d.micro)
  }

  lemma NextPart(t: string, from: nat, width: nat, n: nat, sep: char, rest: string)
    requires from <= |t| && t[from..] == Padded(width, n) + ([sep] + rest) && n < Pow10(width)
    ensures BeginsWith(t[from..], width, n, sep)
    ensures from + width + 1 <= |t| && t[from + width + 1..] == rest
  {
    FieldReadsBack(width, n, sep, rest);
    assert t[from..][width + 1..] == t[from + width + 1..];
  }

  /** The text shows every field of the datetime in its place. */
  lemma IsoTextReadsBack(d: DateTime)
    requires Valid(d)
    ensures Writes(IsoFormat(d), d)
  {
    Powers();
    var t6 := Padded(2, d.second) + Tail(d.micro);
    var t5 := Padded(2, d.minute) + (":" + t6);
    var t4 := Padded(2, d.hour) + (":" + t5);
    var t3 := Padded(2, d.day) + ("T" + t4);
    var t2 := Padded(2, d.month) + ("-" + t3);
    var t := IsoFormat(d);
    assert t == Padded(4, d.year) + ("-" + t2) && t[0..] == t;
    NextPart(t, 0, 4, d.year, '-', t2);
    NextPart(t, 5, 2, d.month, '-', t3);
    NextPart(t, 8, 2, d.day, 'T', t4);
    NextPart(t, 11, 2, d.hour, ':', t5);
    NextPart(t, 14, 2, d.minute, ':', t6);
    TailReadsBack(d.second, d.micro);
  }
}
