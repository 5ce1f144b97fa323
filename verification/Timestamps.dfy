/** ISO 8601 date-time strings and the instants they denote: when the code-point order of the strings
    follows the order of the instants. */
module Timestamps {
  import opened Common
  import opened Ordering

  // ----- the calendar -----

  predicate IsLeap(year: nat) {
    year % 4 == 0 && (year % 100 != 0 || year % 400 == 0)
  }

  function MonthLength(year: nat, month: nat): nat {
    if month == 2 then (if IsLeap(year) then 29 else 28) else if month in {4, 6, 9, 11} then 30 else 31
  }

  function DaysBeforeMonth(year: nat, month: nat): nat {
    if month <= 1 then 0 else DaysBeforeMonth(year, month - 1) + MonthLength(year, month - 1)
  }

  /** Month 13 stands for the whole year. */
  function DaysBeforeYear(year: nat): nat {
    if year == 0 then 0 else DaysBeforeYear(year - 1) + DaysBeforeMonth(year - 1, 13)
  }

  datatype Local = Local(year: nat, month: nat, day: nat, hour: nat, minute: nat, second: nat) {
    predicate Valid() {
      && 1 <= year && 1 <= month <= 12 && 1 <= day <= MonthLength(year, month)
      && hour < 24 && minute < 60 && second < 60
    }

    function Days(): int {
      DaysBeforeYear(year) + DaysBeforeMonth(year, month) + day
    }

    function Seconds(): int {
      86400 * Days() + 3600 * hour + 60 * minute + second
    }
  }

  lemma {:induction false} MonthsGrow(year: nat, m: nat, n: nat)
    requires 1 <= m < n
    ensures DaysBeforeMonth(year, m) + MonthLength(year, m) <= DaysBeforeMonth(year, n)
  {
    if m < n - 1 {
      MonthsGrow(year, m, n - 1);
    }
  }

  lemma {:induction false} YearsGrow(y: nat, z: nat)
    requires y < z
    ensures DaysBeforeYear(y) + DaysBeforeMonth(y, 13) <= DaysBeforeYear(z)
  {
    if y < z - 1 {
      YearsGrow(y, z - 1);
    }
  }

  /** The first of year, month, day, hour, minute and second that differs is smaller in a. */
  predicate FieldsBefore(a: Local, b: Local) {
    a.year < b.year || (a.year == b.year &&
      (a.month < b.month || (a.month == b.month &&
        (a.day < b.day || (a.day == b.day &&
          (a.hour < b.hour || (a.hour == b.hour &&
            (a.minute < b.minute || (a.minute == b.minute && a.second < b.second)))))))))
  }

  lemma FieldsDecide(a: Local, b: Local)
    requires a.Valid() && b.Valid() && FieldsBefore(a, b)
    ensures a.Seconds() < b.Seconds()
  {
    hide DaysBeforeYear, DaysBeforeMonth, MonthLength;
    if a.year < b.year {
      MonthsGrow(a.year, a.month, 13);
      YearsGrow(a.year, b.year);
    } else if a.month < b.month {
      MonthsGrow(a.year, a.month, b.month);
    }
  }

  // ----- the strings -----

  predicate IsDigit(c: char) {
    '0' <= c <= '9'
  }

  predicate AllDigits(s: string) {
    forall i | 0 <= i < |s| :: IsDigit(s[i])
  }

  function Digit(c: char): (d: nat)
    requires IsDigit(c)
    ensures d <= 9
  {
    c as int - '0' as int
  }

  /** The number at places i and i + 1. */
  function Two(s: string, i: nat): nat
    requires i + 2 <= |s| && IsDigit(s[i]) && IsDigit(s[i + 1])
  {
    10 * Digit(s[i]) + Digit(s[i + 1])
  }

  predicate Separator(i: nat) {
    i in {4, 7, 10, 13, 16}
  }

  /** `YYYY-MM-DDThh:mm:ss`, digits outside the separators. */
  predicate HasLocalForm(s: string) {
    && |s| == 19 && s[4] == '-' && s[7] == '-' && s[10] == 'T' && s[13] == ':' && s[16] == ':'
    && forall i: nat | i < 19 && !Separator(i) :: IsDigit(s[i])
  }

  function LocalOf(s: string): Local
    requires HasLocalForm(s)
  {
    Local(100 * Two(s, 0) + Two(s, 2), Two(s, 5), Two(s, 8), Two(s, 11), Two(s, 14), Two(s, 17))
  }

  predicate IsLocal(s: string) {
    HasLocalForm(s) && LocalOf(s).Valid()
  }

  /** `Z`, or a sign and `hh:mm`. */
  predicate IsZone(z: string) {
    || z == "Z"
    || (&& |z| == 6 && (z[0] == '+' || z[0] == '-') && z[3] == ':' && AllDigits(z[1..3]) && AllDigits(z[4..])
        && Two(z[1..3], 0) < 24 && Two(z[4..], 0) < 60)
  }

  /** Minutes east of UTC. */
  function OffsetMinutes(z: string): int
    requires IsZone(z)
  {
    if z == "Z" then 0
    else
      var minutes := 60 * Two(z[1..3], 0) + Two(z[4..], 0);
      if z[0] == '+' then minutes else -minutes
  }

  function DigitPrefix(s: string): (p: string)
    ensures p <= s && AllDigits(p)
  {
    if s != "" && IsDigit(s[0]) then [s[0]] + DigitPrefix(s[1..]) else ""
  }

  function FractionValue(f: string): (r: real)
    requires AllDigits(f)
    ensures 0.0 <= r < 1.0
  {
    if f == "" then 0.0 else (Digit(f[0]) as real + FractionValue(f[1..])) / 10.0
  }

  function FractionText(f: string): string {
    if f == "" then "" else "." + f
  }

  /** A stamp taken apart. */
  datatype Parts = Parts(local: string, fraction: string, zone: string) {
    predicate Valid() {
      IsLocal(local) && AllDigits(fraction) && IsZone(zone)
    }

    function Text(): string {
      local + (FractionText(fraction) + zone)
    }

    function Instant(): real
      requires Valid()
    {
      (LocalOf(local).Seconds() - 60 * OffsetMinutes(zone)) as real + FractionValue(fraction)
    }
  }

  function PartsOf(s: string): Parts
    requires |s| >= 19
  {
    var rest := s[19..];
    var fraction := if rest != "" && rest[0] == '.' then DigitPrefix(rest[1..]) else "";
    Parts(s[..19], fraction, rest[|FractionText(fraction)|..])
  }

  predicate IsStamp(s: string) {
    |s| >= 19 && PartsOf(s).Valid()
  }

  /** The seconds that a stamp denotes, counted from a fixed instant. */
  function Instant(s: string): real {
    if IsStamp(s) then PartsOf(s).Instant() else 0.0
  }

  // ----- writing and reading -----

  lemma {:induction false} DigitPrefixOf(f: string, z: string)
    requires AllDigits(f) && z != "" && !IsDigit(z[0])
    ensures DigitPrefix(f + z) == f
  {
    if f == "" {
      assert f + z == z;
    } else {
      DigitPrefixOf(f[1..], z);
      assert (f + z)[1..] == f[1..] + z;
    }
  }

  /** Reading a written stamp gives its parts back, so every valid text is a stamp. */
  lemma PartsReadBack(p: Parts)
    requires p.Valid()
    ensures IsStamp(p.Text()) && PartsOf(p.Text()) == p
  {
    var rest := FractionText(p.fraction) + p.zone;
    assert p.Text()[..19] == p.local && p.Text()[19..] == rest;
    if p.fraction != "" {
      assert rest[1..] == p.fraction + p.zone;
      DigitPrefixOf(p.fraction, p.zone);
    }
  }

  /** A stamp is the text of its parts. */
  lemma TextOfParts(s: string)
    requires |s| >= 19
    ensures PartsOf(s).Text() == s
  {
    hide DigitPrefix;
    var rest := s[19..];
    var text := FractionText(PartsOf(s).fraction);
    assert text <= rest;
    Rejoined(rest, text);
    Rejoined(s, s[..19]);
  }

  lemma Rejoined(s: string, prefix: string)
    requires prefix <= s
    ensures s == prefix + s[|prefix|..]
  {
  }

  // ----- what the strings denote -----

  /** The dates of the Gregorian calendar, and times of day. */
  ghost predicate OnCalendar(l: Local) {
    && 1 <= l.year && 1 <= l.month <= 12
    && 1 <= l.day <= [31, 29, 31, 30, 31, 30, 31, 31, 30, 31, 30, 31][l.month - 1]
    && (l.month == 2 && l.day == 29 ==> LeapDayIn(l.year))
    && l.hour <= 23 && l.minute <= 59 && l.second <= 59
  }

  ghost predicate LeapDayIn(year: nat) {
    year % 400 == 0 || (year % 100 != 0 && year % 4 == 0)
  }

  /** Every fourth year has one more day, but of the hundredth years only every fourth. */
  ghost function LeapsBefore(year: nat): int {
    (year + 3) / 4 - (year + 99) / 100 + (year + 399) / 400
  }

  /** The days up to a date. */
  ghost function DayNumber(l: Local): int
    requires 1 <= l.month <= 12
  {
    365 * l.year + LeapsBefore(l.year)
    + [0, 31, 59, 90, 120, 151, 181, 212, 243, 273, 304, 334][l.month - 1]
    + (if l.month > 2 && LeapDayIn(l.year) then 1 else 0) + l.day
  }

  lemma {:induction false} MonthsCounted(year: nat, month: nat)
    requires 1 <= month <= 13
    ensures DaysBeforeMonth(year, month) ==
            [0, 31, 59, 90, 120, 151, 181, 212, 243, 273, 304, 334, 365][month - 1]
            + (if month > 2 && LeapDayIn(year) then 1 else 0)
  {
    hide IsLeap, LeapDayIn;
    if month > 1 {
      MonthsCounted(year, month - 1);
      LeapExactly(year);
    }
  }

  lemma Quotient(x: nat, q: nat, r: nat, n: nat)
    requires r < n && x == q * n + r
    ensures x / n == q
  {
    var k := q - x / n;
    assert k * n == x % n - r;
    assert (k >= 1 ==> k * n >= n) && (k <= -1 ==> k * n + n <= 0);
  }

  /** The multiples of n up to y are one more than those below y when y is one. */
  lemma OneMultiple(y: nat, n: nat)
    requires n > 0
    ensures (y + n) / n == (y + n - 1) / n + (if y % n == 0 then 1 else 0)
  {
    var q, r := y / n, y % n;
    assert y == q * n + r;
    assert (q + 1) * n == q * n + n;
    if r == 0 {
      Quotient(y + n, q + 1, 0, n);
      Quotient(y + n - 1, q, n - 1, n);
    } else {
      Quotient(y + n, q + 1, r, n);
      Quotient(y + n - 1, q + 1, r - 1, n);
    }
  }

  lemma HundredsAreFourths(y: nat)
    ensures y % 400 == 0 ==> y % 100 == 0
    ensures y % 100 == 0 ==> y % 4 == 0
  {
    if y % 400 == 0 {
      Quotient(y, 4 * (y / 400), 0, 100);
    }
    if y % 100 == 0 {
      Quotient(y, 25 * (y / 100), 0, 4);
    }
  }

  lemma LeapDays(y: nat)
    ensures LeapsBefore(y + 1) == LeapsBefore(y) + (if LeapDayIn(y) then 1 else 0)
  {
    OneMultiple(y, 4);
    OneMultiple(y, 100);
    OneMultiple(y, 400);
    HundredsAreFourths(y);
  }

  lemma NoLeaps()
    ensures LeapsBefore(0) == 0
  {
  }

  lemma YearLength(year: nat)
    ensures DaysBeforeMonth(year, 13) == 365 + (if LeapDayIn(year) then 1 else 0)
  {
    MonthsCounted(year, 13);
  }

  lemma {:induction false} YearsCounted(year: nat)
    ensures DaysBeforeYear(year) == 365 * year + LeapsBefore(year)
  {
    hide LeapsBefore, DaysBeforeMonth, LeapDayIn;
    NoLeaps();
    if year > 0 {
      YearsCounted(year - 1);
      YearLength(year - 1);
      LeapDays(year - 1);
    }
  }

  lemma LeapExactly(year: nat)
    ensures IsLeap(year) <==> LeapDayIn(year)
  {
    HundredsAreFourths(year);
  }

  lemma CalendarExactly(l: Local)
    ensures l.Valid() <==> OnCalendar(l)
  {
    hide IsLeap, LeapDayIn;
    LeapExactly(l.year);
  }

  lemma SecondsExactly(l: Local)
    requires 1 <= l.month <= 12
    ensures l.Seconds() == ((DayNumber(l) * 24 + l.hour) * 60 + l.minute) * 60 + l.second
  {
    DaysCounted(l);
  }

  lemma DaysCounted(l: Local)
    requires 1 <= l.month <= 12
    ensures l.Days() == DayNumber(l)
  {
    MonthsCounted(l.year, l.month);
    YearsCounted(l.year);
    hide LeapsBefore, DaysBeforeYear, DaysBeforeMonth;
  }

  function DigitOf(n: nat): (c: char)
    requires n <= 9
    ensures IsDigit(c) && Digit(c) == n
  {
    ('0' as int + n) as char
  }

  function Written(l: Local): (s: string)
    requires l.year <= 9999 && l.month <= 99 && l.day <= 99 && l.hour <= 99 && l.minute <= 99 && l.second <= 99
  {
    [DigitOf(l.year / 1000), DigitOf(l.year / 100 % 10), DigitOf(l.year % 100 / 10), DigitOf(l.year % 10), '-',
     DigitOf(l.month / 10), DigitOf(l.month % 10), '-', DigitOf(l.day / 10), DigitOf(l.day % 10), 'T',
     DigitOf(l.hour / 10), DigitOf(l.hour % 10), ':', DigitOf(l.minute / 10), DigitOf(l.minute % 10), ':',
     DigitOf(l.second / 10), DigitOf(l.second % 10)]
  }

  lemma TwoWritten(s: string, i: nat, n: nat)
    requires i + 2 <= |s| && n <= 99 && s[i] == DigitOf(n / 10) && s[i + 1] == DigitOf(n % 10)
    ensures IsDigit(s[i]) && IsDigit(s[i + 1]) && Two(s, i) == n
  {
  }

  lemma YearWritten(s: string, year: nat)
    requires |s| >= 4 && year <= 9999
    requires s[0] == DigitOf(year / 1000) && s[1] == DigitOf(year / 100 % 10)
    requires s[2] == DigitOf(year % 100 / 10) && s[3] == DigitOf(year % 10)
    ensures forall i: nat | i < 4 :: IsDigit(s[i])
    ensures 100 * Two(s, 0) + Two(s, 2) == year
  {
    assert year / 1000 == year / 100 / 10 && year % 10 == year % 100 % 10;
    TwoWritten(s, 0, year / 100);
    TwoWritten(s, 2, year % 100);
  }

  lemma WrittenReadBack(l: Local)
    requires l.year <= 9999 && l.month <= 99 && l.day <= 99 && l.hour <= 99 && l.minute <= 99 && l.second <= 99
    ensures HasLocalForm(Written(l)) && LocalOf(Written(l)) == l
  {
    var s := Written(l);
    YearWritten(s, l.year);
    TwoWritten(s, 5, l.month);
    TwoWritten(s, 8, l.day);
    TwoWritten(s, 11, l.hour);
    TwoWritten(s, 14, l.minute);
    TwoWritten(s, 17, l.second);
    hide IsDigit, DigitOf, Two;
  }

  lemma WrittenIsLocal(l: Local)
    requires OnCalendar(l) && l.year <= 9999
    ensures IsLocal(Written(l)) && LocalOf(Written(l)) == l
  {
    CalendarExactly(l);
    assert l.day <= 31;
    WrittenReadBack(l);
    hide OnCalendar, HasLocalForm, LocalOf, Written;
  }

  /** A zone as it is written, and how far it is ahead of UTC. */
  datatype Zone = Utc | Offset(east: bool, hours: nat, minutes: nat) {
    predicate Valid() {
      Offset? ==> hours <= 23 && minutes <= 59
    }

    function Text(): string
      requires Valid()
    {
      match this
      case Utc => "Z"
      case Offset(east, h, m) =>
        [if east then '+' else '-', DigitOf(h / 10), DigitOf(h % 10), ':', DigitOf(m / 10), DigitOf(m % 10)]
    }

    function Ahead(): int {
      match this
      case Utc => 0
      case Offset(east, h, m) => if east then h * 60 + m else -(h * 60 + m)
    }
  }

  lemma ZoneRead(z: Zone)
    requires z.Valid()
    ensures IsZone(z.Text()) && OffsetMinutes(z.Text()) == z.Ahead()
  {
    if z.Offset? {
      var s := z.Text();
      TwoWritten(s[1..3], 0, z.hours);
      TwoWritten(s[4..], 0, z.minutes);
    }
  }

  /** A written stamp denotes its local time less what its zone is ahead, and a fraction of a second. */
  lemma InstantOfWritten(l: Local, fraction: string, z: Zone)
    requires OnCalendar(l) && l.year <= 9999 && AllDigits(fraction) && z.Valid()
    ensures var s := Written(l) + (FractionText(fraction) + z.Text());
      && IsStamp(s)
      && Instant(s) ==
         (((DayNumber(l) * 24 + l.hour) * 60 + l.minute - z.Ahead()) * 60 + l.second) as real + FractionValue(fraction)
  {
    WrittenIsLocal(l);
    SecondsExactly(l);
    ZoneRead(z);
    PartsReadBack(Parts(Written(l), fraction, z.Text()));
    hide OnCalendar, DayNumber, IsZone, OffsetMinutes, IsLocal, LocalOf, Written, FractionText, FractionValue, PartsOf;
  }

  /** What a digit is worth n places after the point. */
  ghost function Worth(d: nat, n: nat): real {
    if n == 0 then d as real else Worth(d, n - 1) / 10.0
  }

  /** Each digit of a fraction adds what it is worth at its place: tenths, hundredths and so on. */
  lemma {:induction false} FractionExactly(f: string, d: nat)
    requires AllDigits(f) && d <= 9
    ensures FractionValue("") == 0.0
    ensures AllDigits(f + [DigitOf(d)])
    ensures FractionValue(f + [DigitOf(d)]) == FractionValue(f) + Worth(d, |f| + 1)
  {
    if f == "" {
      assert f + [DigitOf(d)] == [DigitOf(d)] && [DigitOf(d)][1..] == "";
      assert Worth(d, 1) == Worth(d, 0) / 10.0;
    } else {
      FractionExactly(f[1..], d);
      assert (f + [DigitOf(d)])[1..] == f[1..] + [DigitOf(d)];
      assert Worth(d, |f| + 1) == Worth(d, |f|) / 10.0;
    }
  }

  // ----- string order and time -----

  lemma {:induction false} LessConcat(a: string, b: string, x: string, y: string)
    requires |a| == |b|
    ensures Less(a + x, b + y) <==> Less(a, b) || (a == b && Less(x, y))
  {
    if a == "" {
      assert a + x == x && b + y == y;
    } else {
      LessConcat(a[1..], b[1..], x, y);
      assert (a + x)[1..] == a[1..] + x && (b + y)[1..] == b[1..] + y;
      assert a == [a[0]] + a[1..] && b == [b[0]] + b[1..];
    }
  }

  lemma {:induction false} FirstDifference(a: string, b: string) returns (k: nat)
    requires |a| == |b| && Less(a, b)
    ensures k < |a| && a[..k] == b[..k] && a[k] < b[k]
  {
    if a[0] < b[0] {
      k := 0;
    } else {
      k := FirstDifference(a[1..], b[1..]);
      k := k + 1;
      assert a[..k] == [a[0]] + a[1..][..k - 1] && b[..k] == [b[0]] + b[1..][..k - 1];
    }
  }

  lemma LocalOrder(a: string, b: string)
    requires IsLocal(a) && IsLocal(b) && Less(a, b)
    ensures LocalOf(a).Seconds() < LocalOf(b).Seconds()
  {
    var k := FirstDifference(a, b);
    assert forall i | 0 <= i < k :: a[i] == a[..k][i] == b[i];
    assert FieldsBefore(LocalOf(a), LocalOf(b));
    FieldsDecide(LocalOf(a), LocalOf(b));
  }

  /** A zone with a sign. */
  predicate Numeric(z: string) {
    z != "" && (z[0] == '+' || z[0] == '-')
  }

  /** The signs come before the point and the digits. */
  lemma SignFirst(s: string, x: string, z: string)
    requires s != "" && s[0] >= '.' && Numeric(z)
    ensures !Less(s + x, "" + z)
  {
  }

  lemma {:induction false} DigitsOrder(f: string, g: string, x: string, y: string)
    requires AllDigits(f) && AllDigits(g) && Less(f + x, g + y)
    requires |f| == |g| || Numeric(y)
    ensures FractionValue(f) <= FractionValue(g)
    decreases |f|
  {
    if f != "" && g == "" {
      SignFirst(f, x, y);
    } else if f != "" && f[0] == g[0] {
      assert (f + x)[1..] == f[1..] + x && (g + y)[1..] == g[1..] + y;
      DigitsOrder(f[1..], g[1..], x, y);
    }
  }

  lemma EmptyIsZero()
    ensures FractionValue("") == 0.0
  {
  }

  lemma FractionOrder(f: string, g: string, x: string, y: string)
    requires AllDigits(f) && AllDigits(g) && Less(FractionText(f) + x, FractionText(g) + y)
    requires |f| == |g| || Numeric(y)
    ensures FractionValue(f) <= FractionValue(g)
  {
    hide Less, FractionValue;
    if f != "" && g != "" {
      assert FractionText(f) + x == "." + (f + x) && FractionText(g) + y == "." + (g + y);
      LessConcat(".", ".", f + x, g + y);
      LessTotal(".", ".");
      DigitsOrder(f, g, x, y);
    } else if f == "" {
      EmptyIsZero();
    } else {
      SignFirst(FractionText(f), x, y);
    }
  }

  lemma ZoneKinds(s: string)
    requires IsStamp(s)
    ensures PartsOf(s).zone == "Z" || Numeric(PartsOf(s).zone)
  {
  }

  /** Under one offset string order never runs against time, unless fractions of different lengths meet
      `Z`, which comes after every digit. */
  lemma StampOrder(a: string, b: string)
    requires IsStamp(a) && IsStamp(b) && Less(a, b)
    requires OffsetMinutes(PartsOf(a).zone) == OffsetMinutes(PartsOf(b).zone)
    requires |PartsOf(a).fraction| == |PartsOf(b).fraction| || Numeric(PartsOf(b).zone)
    ensures Instant(a) <= Instant(b)
  {
    var p, q := PartsOf(a), PartsOf(b);
    TextOfParts(a);
    TextOfParts(b);
    LessConcat(p.local, q.local, FractionText(p.fraction) + p.zone, FractionText(q.fraction) + q.zone);
    LessTotal(p.local, q.local);
    hide HasLocalForm, LocalOf, Less;
    if p.local == q.local {
      FractionOrder(p.fraction, q.fraction, p.zone, q.zone);
    } else {
      LocalOrder(p.local, q.local);
    }
  }

  // ----- a source of stamps -----

  /** The stamps that use only the given zones and the given numbers of fraction digits. */
  ghost function Form(zones: iset<string>, lengths: iset<nat>): iset<string> {
    iset s | IsStamp(s) && PartsOf(s).zone in zones && |PartsOf(s).fraction| in lengths
  }

  ghost predicate FollowsTime(stamps: iset<string>, time: string -> real) {
    forall a, b | a in stamps && b in stamps && Less(a, b) :: time(a) <= time(b)
  }

  ghost predicate OneOffset(zones: iset<string>)
    requires forall z | z in zones :: IsZone(z)
  {
    forall x, y | x in zones && y in zones :: OffsetMinutes(x) == OffsetMinutes(y)
  }

  ghost predicate OneLength(lengths: iset<nat>) {
    forall m, n | m in lengths && n in lengths :: m == n
  }

  function Zeros(n: nat): (f: string)
    ensures |f| == n && AllDigits(f)
  {
    if n == 0 then "" else ['0'] + Zeros(n - 1)
  }

  lemma {:induction false} ZerosValue(n: nat, tail: string)
    requires AllDigits(tail)
    ensures AllDigits(Zeros(n) + tail)
    ensures FractionValue(Zeros(n)) == 0.0
    ensures FractionValue(tail) > 0.0 ==> FractionValue(Zeros(n) + tail) > 0.0
  {
    if n == 0 {
      assert Zeros(n) + tail == tail;
    } else {
      ZerosValue(n - 1, tail);
      assert (Zeros(n) + tail)[1..] == Zeros(n - 1) + tail;
    }
  }

  /** A second of the first minute of the year 2000. */
  function Moment(second: char): string {
    "2000-01-01T00:00:0" + [second]
  }

  lemma MomentIsLocal(second: char)
    requires IsDigit(second)
    ensures IsLocal(Moment(second)) && LocalOf(Moment(second)) == Local(2000, 1, 1, 0, 0, Digit(second))
  {
    var s := Moment(second);
    assert HasLocalForm(s);
    assert Two(s, 0) == 20 && Two(s, 2) == 0 && Two(s, 5) == 1 && Two(s, 8) == 1;
    assert Two(s, 11) == 0 && Two(s, 14) == 0 && Two(s, 17) == Digit(second);
  }

  lemma NextMoment()
    ensures Less(Moment('0'), Moment('1'))
  {
    LessConcat("2000-01-01T00:00:0", "2000-01-01T00:00:0", "0", "1");
  }

  /** With two offsets some stamp denotes a later instant than one with a greater string. */
  lemma OffsetsReverse(x: string, y: string, n: nat) returns (a: string, b: string)
    requires IsZone(x) && IsZone(y) && OffsetMinutes(x) > OffsetMinutes(y)
    ensures IsStamp(a) && PartsOf(a).zone == y && |PartsOf(a).fraction| == n
    ensures IsStamp(b) && PartsOf(b).zone == x && |PartsOf(b).fraction| == n
    ensures Less(a, b) && Instant(b) < Instant(a)
  {
    MomentIsLocal('0');
    MomentIsLocal('1');
    NextMoment();
    hide IsLocal, LocalOf, Less, Zeros, FractionText, FractionValue, IsZone, OffsetMinutes, Moment;
    var p, q := Parts(Moment('0'), Zeros(n), y), Parts(Moment('1'), Zeros(n), x);
    a, b := p.Text(), q.Text();
    PartsReadBack(p);
    PartsReadBack(q);
    LessConcat(p.local, q.local, FractionText(p.fraction) + p.zone, FractionText(q.fraction) + q.zone);
  }

  lemma {:induction false} LongerFirst(m: nat, n: nat)
    requires m < n
    ensures Less((Zeros(n - 1) + "1") + "Z", Zeros(m) + "Z")
  {
    var long, short := (Zeros(n - 1) + "1") + "Z", Zeros(m) + "Z";
    if m > 0 {
      LongerFirst(m - 1, n - 1);
      assert long == ['0'] + ((Zeros(n - 2) + "1") + "Z") && short == ['0'] + (Zeros(m - 1) + "Z");
    } else {
      assert short == "Z" && long[0] == (Zeros(n - 1) + "1")[0];
    }
  }

  /** With `Z` and fractions of two lengths too. */
  lemma LengthsReverse(m: nat, n: nat) returns (a: string, b: string)
    requires m < n
    ensures IsStamp(a) && PartsOf(a).zone == "Z" && |PartsOf(a).fraction| == n
    ensures IsStamp(b) && PartsOf(b).zone == "Z" && |PartsOf(b).fraction| == m
    ensures Less(a, b) && Instant(b) < Instant(a)
  {
    MomentIsLocal('0');
    ZerosValue(n - 1, "1");
    ZerosValue(m, "");
    LongerFirst(m, n);
    var p, q := Parts(Moment('0'), Zeros(n - 1) + "1", "Z"), Parts(Moment('0'), Zeros(m), "Z");
    a, b := p.Text(), q.Text();
    PartsReadBack(p);
    PartsReadBack(q);
    hide IsLocal, LocalOf, FractionValue, Moment, Zeros;
    assert p.fraction != "";
    FractionsReverse(p.fraction, q.fraction);
    LessConcat(p.local, q.local, FractionText(p.fraction) + p.zone, FractionText(q.fraction) + q.zone);
  }

  lemma FractionsReverse(f: string, g: string)
    requires f != "" && Less(f + "Z", g + "Z")
    ensures Less(FractionText(f) + "Z", FractionText(g) + "Z")
  {
    assert FractionText(f) + "Z" == "." + (f + "Z");
    if g != "" {
      assert FractionText(g) + "Z" == "." + (g + "Z");
      hide Less;
      LessConcat(".", ".", f + "Z", g + "Z");
      LessTotal(".", ".");
    } else {
      assert FractionText(g) + "Z" == "Z";
    }
  }

  /** String order follows time on a form exactly when all its zones have one offset and, where `Z` is
      among them, all fractions have one length. */
  lemma FormFollowsTimeExactly(zones: iset<string>, lengths: iset<nat>, n: nat)
    requires n in lengths && forall z | z in zones :: IsZone(z)
    ensures FollowsTime(Form(zones, lengths), Instant) <==>
            OneOffset(zones) && ("Z" in zones ==> OneLength(lengths))
  {
    hide IsStamp, Instant, PartsOf, OffsetMinutes, IsZone, Less;
    var stamps := Form(zones, lengths);
    if OneOffset(zones) && ("Z" in zones ==> OneLength(lengths)) {
      forall a, b | a in stamps && b in stamps && Less(a, b) ensures Instant(a) <= Instant(b) {
        ZoneKinds(b);
        StampOrder(a, b);
      }
    }
    if FollowsTime(stamps, Instant) {
      forall x, y | x in zones && y in zones ensures OffsetMinutes(x) <= OffsetMinutes(y) {
        if OffsetMinutes(x) > OffsetMinutes(y) {
          var a, b := OffsetsReverse(x, y, n);
        }
      }
      forall k, l | k in lengths && l in lengths && "Z" in zones ensures k >= l {
        if k < l {
          var a, b := LengthsReverse(k, l);
        }
      }
    }
  }

  // ----- one form, where string order is time order -----

  /** No trailing zero. */
  predicate Canonical(f: string) {
    f == "" || f[|f| - 1] != '0'
  }

  /** A stamp of one zone with a fixed number of fraction digits, or, in a zone with a sign, with a
      fraction written without trailing zeros: the form in which PostgreSQL puts a time into JSON. */
  predicate InForm(s: string, zone: string, length: Option<nat>) {
    && IsStamp(s) && PartsOf(s).zone == zone
    && match length
       case Some(n) => |PartsOf(s).fraction| == n
       case None => zone != "Z" && Canonical(PartsOf(s).fraction)
  }

  lemma {:induction false} CanonicalPositive(f: string)
    requires AllDigits(f) && Canonical(f) && f != ""
    ensures FractionValue(f) > 0.0
  {
    if |f| > 1 {
      CanonicalPositive(f[1..]);
    }
  }

  lemma {:induction false} FractionInjective(f: string, g: string)
    requires AllDigits(f) && AllDigits(g) && FractionValue(f) == FractionValue(g)
    requires |f| == |g| || (Canonical(f) && Canonical(g))
    ensures f == g
    decreases |f|
  {
    if f != "" && g != "" {
      WholeAndPart(Digit(f[0]), FractionValue(f[1..]), Digit(g[0]), FractionValue(g[1..]));
      hide FractionValue;
      FractionInjective(f[1..], g[1..]);
      assert f == [f[0]] + f[1..] && g == [g[0]] + g[1..];
    } else if f != "" {
      CanonicalPositive(f);
    } else if g != "" {
      CanonicalPositive(g);
    }
  }

  lemma SameInstant(a: string, b: string, zone: string, length: Option<nat>)
    requires InForm(a, zone, length) && InForm(b, zone, length) && Instant(a) == Instant(b)
    ensures a == b
  {
    var p, q := PartsOf(a), PartsOf(b);
    TextOfParts(a);
    TextOfParts(b);
    WholeAndPart(LocalOf(p.local).Seconds() - 60 * OffsetMinutes(zone), FractionValue(p.fraction),
                 LocalOf(q.local).Seconds() - 60 * OffsetMinutes(zone), FractionValue(q.fraction));
    hide IsLocal, LocalOf, FractionValue, OffsetMinutes, IsZone, PartsOf, Less;
    SameLocal(p.local, q.local);
    FractionInjective(p.fraction, q.fraction);
  }

  lemma SameLocal(a: string, b: string)
    requires IsLocal(a) && IsLocal(b) && LocalOf(a).Seconds() == LocalOf(b).Seconds()
    ensures a == b
  {
    hide Less, LocalOf;
    LessTotal(a, b);
    if Less(a, b) {
      LocalOrder(a, b);
    } else if Less(b, a) {
      LocalOrder(b, a);
    }
  }

  lemma WholeAndPart(x: int, f: real, y: int, g: real)
    requires 0.0 <= f < 1.0 && 0.0 <= g < 1.0 && x as real + f == y as real + g
    ensures x == y && f == g
  {
  }

  /** Within one form string order is time order. */
  lemma FormOrder(a: string, b: string, zone: string, length: Option<nat>)
    requires InForm(a, zone, length) && InForm(b, zone, length)
    ensures Less(a, b) <==> Instant(a) < Instant(b)
    ensures a == b <==> Instant(a) == Instant(b)
  {
    LessTotal(a, b);
    ZoneKinds(a);
    hide Instant, IsStamp, PartsOf, Less;
    if Less(a, b) {
      StampOrder(a, b);
    } else if Less(b, a) {
      StampOrder(b, a);
    }
    if Instant(a) == Instant(b) {
      SameInstant(a, b, zone, length);
    }
  }
}
