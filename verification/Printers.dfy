/**
 * The strings the pages show: timestamps, ages and amounts.  None of them loses anything: each
 * sorts as, or reads back to, the number it was made from.
 */
module Printers {
  import opened Words
  import opened Numerals
  import opened Calendar

  const MINUTE := 60
  const HOUR := 3600
  const DAY := 86_400
  const YEAR := 31_536_000

  // ---------------------------------------------------------------- timestamps

  /** 9999-12-31 23:59:59. */
  const LAST_SECOND := 253_402_300_799

  /** 9999-12-31. */
  const LAST_DAY := 2_932_896

  /** Year, month and day in fixed widths. */
  function DateText(d: Date): Text
    requires d.year >= 0 && d.month >= 0 && d.day >= 0
  {
    Padded(d.year, 4) + ([Ascii('-')] + (Padded(d.month, 2) + ([Ascii('-')] + Padded(d.day, 2))))
  }

  /** A second of the day. */
  function TimeText(rem: nat): Text {
    Padded(rem / HOUR, 2) + ([Ascii(':')] + (Padded(rem % HOUR / MINUTE, 2) + ([Ascii(':')] + Padded(rem % MINUTE, 2))))
  }

  function ClampSeconds(secs: U64): nat {
    Min(secs, LAST_SECOND)
  }

  lemma LastDate()
    ensures CivilFromDays(LAST_DAY) == Date(9999, 12, 31)
  {
    var z := LAST_DAY + 719468;
    assert z / 146097 == 24 && z % 146097 == 146036;
  }

  lemma DatesInRange(day: nat)
    requires day <= LAST_DAY
    ensures Valid(CivilFromDays(day)) && 1970 <= CivilFromDays(day).year <= 9999
  {
    CivilIsTheCalendar(day);
    LastDate();
    hide CivilFromDays;
    if 0 < day {
      CivilIsMonotone(0, day);
    }
    if day < LAST_DAY {
      CivilIsMonotone(day, LAST_DAY);
    }
  }

  function TimestampUtc(secs: U64): Text {
    var s := ClampSeconds(secs);
    DatesInRange(s / DAY);
    DateText(CivilFromDays(s / DAY)) + ([Ascii(' ')] + TimeText(s % DAY))
  }

  /** A fixed-width number in front of anything: the number decides, then what follows. */
  lemma FieldOrder(m: nat, n: nat, w: nat, a: Text, b: Text)
    requires w >= 1 && m < Pow10(w) && n < Pow10(w)
    ensures Less(Padded(m, w) + a, Padded(n, w) + b) <==> m < n || (m == n && Less(a, b))
    ensures |a| == |b| ==> (Padded(m, w) + a == Padded(n, w) + b <==> m == n && a == b)
    ensures |Padded(m, w)| == w
  {
    PaddedValue(m, w);
    PaddedValue(n, w);
    FixedOrder(m, n, w);
    LessOfJoin(Fixed(m, w), Fixed(n, w), a, b);
    hide *;
    if Fixed(m, w) + a == Fixed(n, w) + b {
      assert (Fixed(m, w) + a)[..w] == Fixed(m, w) && (Fixed(n, w) + b)[..w] == Fixed(n, w);
      assert (Fixed(m, w) + a)[w..] == a && (Fixed(n, w) + b)[w..] == b;
    }
  }

  lemma SeparatorOrder(sep: Byte, a: Text, b: Text)
    ensures Less([sep] + a, [sep] + b) <==> Less(a, b)
    ensures [sep] + a == [sep] + b <==> a == b
  {
    assert ([sep] + a)[1..] == a && ([sep] + b)[1..] == b;
  }

  lemma Pow10Of2()
    ensures Pow10(2) == 100
  {
    assert Pow10(1) == 10;
  }

  lemma Pow10Of4()
    ensures Pow10(4) == 10000
  {
    Pow10Of2();
    assert Pow10(3) == 1000;
  }

  /** Two two-digit numbers and a separator sort as the pair. */
  lemma PairOrder(sep: Byte, m: nat, n: nat, m': nat, n': nat)
    requires m < 100 && n < 100 && m' < 100 && n' < 100
    ensures var a, b := Padded(m, 2) + ([sep] + Padded(n, 2)), Padded(m', 2) + ([sep] + Padded(n', 2));
            && |a| == |b| == 5
            && (Less(a, b) <==> m < m' || (m == m' && n < n'))
            && (a == b <==> m == m' && n == n')
  {
    Pow10Of2();
    var x, y := Padded(n, 2), Padded(n', 2);
    FieldOrder(n, n', 2, [], []);
    assert x + [] == x && y + [] == y;
    FieldOrder(n', n, 2, [], []);
    SeparatorOrder(sep, x, y);
    FieldOrder(m, m', 2, [sep] + x, [sep] + y);
    FieldOrder(m', m, 2, [sep] + y, [sep] + x);
    hide *;
  }

  lemma TripleOrder(sep: Byte, w: nat, k: nat, m: nat, n: nat, k': nat, m': nat, n': nat)
    requires w >= 1 && k < Pow10(w) && k' < Pow10(w)
    requires m < 100 && n < 100 && m' < 100 && n' < 100
    ensures var a := Padded(k, w) + ([sep] + (Padded(m, 2) + ([sep] + Padded(n, 2))));
            var b := Padded(k', w) + ([sep] + (Padded(m', 2) + ([sep] + Padded(n', 2))));
            && |a| == |b| == w + 6
            && (Less(a, b) <==> k < k' || (k == k' && (m < m' || (m == m' && n < n'))))
            && (a == b <==> k == k' && m == m' && n == n')
  {
    var x, y := Padded(m, 2) + ([sep] + Padded(n, 2)), Padded(m', 2) + ([sep] + Padded(n', 2));
    PairOrder(sep, m, n, m', n');
    SeparatorOrder(sep, x, y);
    FieldOrder(k, k', w, [sep] + x, [sep] + y);
    FieldOrder(k', k, w, [sep] + y, [sep] + x);
    hide *;
  }

  lemma DateOrder(a: nat, b: nat)
    requires a <= LAST_DAY && b <= LAST_DAY
    ensures Valid(CivilFromDays(a)) && Valid(CivilFromDays(b))
    ensures CivilFromDays(a).year >= 0 && CivilFromDays(b).year >= 0
    ensures var s, t := DateText(CivilFromDays(a)), DateText(CivilFromDays(b));
            && |s| == |t| == 10 && (Less(s, t) <==> a < b) && (s == t <==> a == b)
  {
    DatesInRange(a);
    DatesInRange(b);
    var d, e := CivilFromDays(a), CivilFromDays(b);
    if a < b {
      CivilIsMonotone(a, b);
    } else if b < a {
      CivilIsMonotone(b, a);
    }
    Pow10Of4();
    hide CivilFromDays, Padded, Less, Pow10;
    TripleOrder(Ascii('-'), 4, d.year, d.month, d.day, e.year, e.month, e.day);
  }

  lemma SplitSecond(a: nat, b: nat)
    requires a < DAY && b < DAY
    ensures a < b <==>
            || a / HOUR < b / HOUR
            || (a / HOUR == b / HOUR
                && (|| a % HOUR / MINUTE < b % HOUR / MINUTE
                    || (a % HOUR / MINUTE == b % HOUR / MINUTE && a % MINUTE < b % MINUTE)))
    ensures a / HOUR < 24 && a % HOUR / MINUTE < 60
  {
    assert a % HOUR % MINUTE == a % MINUTE && b % HOUR % MINUTE == b % MINUTE;
  }

  lemma TimeOrder(a: nat, b: nat)
    requires a < DAY && b < DAY
    ensures |TimeText(a)| == |TimeText(b)| == 8
    ensures Less(TimeText(a), TimeText(b)) <==> a < b
    ensures TimeText(a) == TimeText(b) <==> a == b
  {
    SplitSecond(a, b);
    SplitSecond(b, a);
    Pow10Of2();
    hide Padded, Less, Pow10;
    TripleOrder(Ascii(':'), 2, a / HOUR, a % HOUR / MINUTE, a % MINUTE, b / HOUR, b % HOUR / MINUTE, b % MINUTE);
  }

  /**
   * Timestamps are nineteen bytes, sort as their seconds do, and are equal only for equal seconds,
   * up to the clamp at the end of year 9999.
   */
  lemma TimestampOrder(a: U64, b: U64)
    ensures |TimestampUtc(a)| == |TimestampUtc(b)| == 19
    ensures Less(TimestampUtc(a), TimestampUtc(b)) <==> ClampSeconds(a) < ClampSeconds(b)
    ensures TimestampUtc(a) == TimestampUtc(b) <==> ClampSeconds(a) == ClampSeconds(b)
  {
    var s, t := ClampSeconds(a), ClampSeconds(b);
    DateOrder(s / DAY, t / DAY);
    TimeOrder(s % DAY, t % DAY);
    hide CivilFromDays, DateText, TimeText, Less;
    var d, e := DateText(CivilFromDays(s / DAY)), DateText(CivilFromDays(t / DAY));
    var x, y := TimeText(s % DAY), TimeText(t % DAY);
    SeparatorOrder(Ascii(' '), x, y);
    LessOfJoin(d, e, [Ascii(' ')] + x, [Ascii(' ')] + y);
    if TimestampUtc(a) == TimestampUtc(b) {
      assert (d + ([Ascii(' ')] + x))[..10] == d && (e + ([Ascii(' ')] + y))[..10] == e;
      assert (d + ([Ascii(' ')] + x))[10..] == [Ascii(' ')] + x && (e + ([Ascii(' ')] + y))[10..] == [Ascii(' ')] + y;
    }
  }

  // ---------------------------------------------------------------- ages

  /** Text cut at every separator. */
  function Split(s: Text, sep: Byte): (parts: seq<Text>)
    ensures |parts| >= 1
  {
    if s == [] then [[]]
    else
      var rest := Split(s[1..], sep);
      if s[0] == sep then [[]] + rest else [[s[0]] + rest[0]] + rest[1..]
  }

  lemma {:induction false} SplitFirst(a: Text, sep: Byte, rest: Text)
    requires sep !in a
    ensures Split(a, sep) == [a]
    ensures Split(a + ([sep] + rest), sep) == [a] + Split(rest, sep)
  {
    var s := a + ([sep] + rest);
    if a == [] {
      assert s == [sep] + rest && s[1..] == rest;
    } else {
      SplitFirst(a[1..], sep, rest);
      assert s[1..] == a[1..] + ([sep] + rest) && s[0] == a[0];
      assert [a[0]] + a[1..] == a;
    }
  }

  lemma SplitNumber(n: nat, w: nat, sep: Byte, rest: Text)
    requires !IsDigit(sep)
    ensures var a := Padded(n, w);
            && AllDigits(a) && Value(a) == n
            && Split(a, sep) == [a]
            && Split(a + ([sep] + rest), sep) == [a] + Split(rest, sep)
  {
    PaddedValue(n, w);
    SplitFirst(Padded(n, w), sep, rest);
  }

  const COLON := Ascii(':')

  function HourText(diff: nat): Text {
    Padded(diff / HOUR, 2) + ([COLON] + (Padded(diff % HOUR / MINUTE, 2) + ([COLON] + Padded(diff % MINUTE, 2))))
  }

  /** What an age string is for a gap of `diff` seconds. */
  function AgeText(diff: nat): Text {
    var years, days := diff / YEAR, diff % YEAR / DAY;
    var clock := HourText(diff % YEAR % DAY);
    if years > 0 then Padded(years, 2) + ([COLON] + (Padded(days, 3) + ([COLON] + clock)))
    else if days > 0 then Padded(days, 2) + ([COLON] + clock)
    else clock
  }

  /** The gap between two timestamps, taken apart by repeated subtraction. */
  method Age(t1: U64, t2: U64) returns (text: Text)
    ensures text == AgeText(if t1 <= t2 then t2 - t1 else t1 - t2)
  {
    hide Padded;
    var diff: nat := if t1 <= t2 then t2 - t1 else t1 - t2;
    ghost var gap := diff;
    var years := diff / YEAR;
    diff := diff - years * YEAR;
    assert diff == gap % YEAR;
    var days := diff / DAY;
    diff := diff - days * DAY;
    assert diff == gap % YEAR % DAY;
    ghost var rem := diff;
    var hours := diff / HOUR;
    diff := diff - hours * HOUR;
    assert diff == rem % HOUR;
    var minutes := diff / MINUTE;
    var seconds := diff - minutes * MINUTE;
    assert seconds == rem % HOUR % MINUTE == rem % MINUTE;
    var clock := Padded(hours, 2) + ([COLON] + (Padded(minutes, 2) + ([COLON] + Padded(seconds, 2))));
    if years > 0 {
      text := Padded(years, 2) + ([COLON] + (Padded(days, 3) + ([COLON] + clock)));
    } else if days > 0 {
      text := Padded(days, 2) + ([COLON] + clock);
    } else {
      text := clock;
    }
  }

  /** What each part of an age counts, from the right. */
  function Unit(fromRight: nat): nat {
    if fromRight == 0 then 1
    else if fromRight == 1 then MINUTE
    else if fromRight == 2 then HOUR
    else if fromRight == 3 then DAY
    else YEAR
  }

  /** The seconds an age string stands for. */
  function SecondsOf(parts: seq<Text>): nat
    requires forall p :: p in parts ==> AllDigits(p)
  {
    if parts == [] then 0
    else
      MulMonotone(0, Value(parts[0]), Unit(|parts| - 1));
      Value(parts[0]) * Unit(|parts| - 1) + SecondsOf(parts[1..])
  }

  lemma SecondsOfCons(a: Text, rest: seq<Text>)
    requires AllDigits(a) && forall p :: p in rest ==> AllDigits(p)
    ensures forall p :: p in [a] + rest ==> AllDigits(p)
    ensures SecondsOf([a] + rest) == Value(a) * Unit(|rest|) + SecondsOf(rest)
  {
    assert ([a] + rest)[1..] == rest;
  }

  /** Readable: the parts of s are numbers, there are n of them, and they come to `seconds`. */
  ghost predicate Reads(s: Text, n: nat, seconds: nat) {
    var parts := Split(s, COLON);
    |parts| == n && (forall p :: p in parts ==> AllDigits(p)) && SecondsOf(parts) == seconds
  }

  lemma ReadsLast(k: nat)
    ensures Reads(Padded(k, 2), 1, k)
  {
    SplitNumber(k, 2, COLON, []);
    SecondsOfCons(Padded(k, 2), []);
    hide Padded, Split, Value;
    assert [Padded(k, 2)] + [] == [Padded(k, 2)];
  }

  lemma ReadsMore(k: nat, w: nat, s: Text, n: nat, seconds: nat)
    requires Reads(s, n, seconds)
    ensures 0 <= k * Unit(n)
    ensures Reads(Padded(k, w) + ([COLON] + s), n + 1, k * Unit(n) + seconds)
  {
    SplitNumber(k, w, COLON, s);
    hide Padded, Split, Value;
    SecondsOfCons(Padded(k, w), Split(s, COLON));
    MulMonotone(0, k, Unit(n));
  }

  lemma ReadsClock(diff: nat)
    ensures Reads(HourText(diff), 3, diff)
  {
    var s, m, h := diff % MINUTE, diff % HOUR / MINUTE, diff / HOUR;
    hide Reads, Padded;
    ReadsLast(s);
    ReadsMore(m, 2, Padded(s, 2), 1, s);
    ReadsMore(h, 2, Padded(m, 2) + ([COLON] + Padded(s, 2)), 2, m * MINUTE + s);
    ClockParts(diff);
  }

  lemma ClockParts(diff: nat)
    ensures diff == diff / HOUR * HOUR + diff % HOUR / MINUTE * MINUTE + diff % MINUTE
    ensures diff % HOUR / MINUTE < 60
  {
    var rest := diff % HOUR;
    assert diff == diff / HOUR * HOUR + rest;
    assert rest == rest / MINUTE * MINUTE + rest % MINUTE;
    RemainderPeriodic(rest, MINUTE, diff / HOUR * 60);
    assert diff == rest + MINUTE * (diff / HOUR * 60);
  }

  /** An age reads back as the absolute difference, whichever of its three forms it took. */
  lemma AgeReadsBack(diff: nat)
    ensures Reads(AgeText(diff), if diff >= YEAR then 5 else if diff >= DAY then 4 else 3, diff)
  {
    var years, days, rem := diff / YEAR, diff % YEAR / DAY, diff % YEAR % DAY;
    ReadsClock(rem);
    ReadsMore(days, 2, HourText(rem), 3, rem);
    ReadsMore(days, 3, HourText(rem), 3, rem);
    ReadsMore(years, 2, Padded(days, 3) + ([COLON] + HourText(rem)), 4, days * DAY + rem);
    hide Reads, Padded, HourText;
    assert diff == years * YEAR + days * DAY + rem;
    assert diff >= YEAR <==> years > 0;
    assert years == 0 ==> (diff >= DAY <==> days > 0);
  }

  // ---------------------------------------------------------------- amounts

  const ATOMIC_PER_XMR := 1_000_000_000_000
  const DECIMALS := 12
  const POINT := Ascii('.')
  const ZERO := Ascii('0')

  function ToXmrString(atomic: U64): Text {
    Digits(atomic / ATOMIC_PER_XMR) + ([POINT] + Padded(atomic % ATOMIC_PER_XMR, DECIMALS))
  }

  /** `trim_end_matches`. */
  function TrimEnd(s: Text, b: Byte): (r: Text)
    ensures |r| <= |s|
  {
    if s != [] && s[|s| - 1] == b then TrimEnd(s[..|s| - 1], b) else s
  }

  function ToTrimmedXmrString(atomic: U64): Text {
    var trimmed := TrimEnd(ToXmrString(atomic), ZERO);
    if trimmed != [] && trimmed[|trimmed| - 1] == POINT then trimmed + [ZERO] else trimmed
  }

  /** The atomic units a decimal amount stands for: digits, a point, and one to twelve digits. */
  function XmrValue(s: Text): Option<nat> {
    var parts := Split(s, POINT);
    if |parts| == 2 && AllDigits(parts[0]) && AllDigits(parts[1]) && 1 <= |parts[1]| <= DECIMALS then
      Some(AtomicOf(Value(parts[0]), Value(parts[1]), DECIMALS - |parts[1]|))
    else None
  }

  function AtomicOf(whole: nat, frac: nat, places: nat): nat {
    MulMonotone(0, frac, Pow10(places));
    whole * ATOMIC_PER_XMR + frac * Pow10(places)
  }

  lemma XmrValueOf(whole: nat, frac: Text)
    requires AllDigits(frac) && 1 <= |frac| <= DECIMALS
    ensures XmrValue(Digits(whole) + ([POINT] + frac))
            == Some(AtomicOf(whole, Value(frac), DECIMALS - |frac|))
  {
    DigitsValue(whole);
    SplitFirst(Digits(whole), POINT, frac);
    SplitFirst(frac, POINT, []);
    hide Split, Digits, Value, AtomicOf;
  }

  lemma Pow10Of12()
    ensures Pow10(12) == ATOMIC_PER_XMR
  {
    Pow10Of4();
    assert Pow10(6) == 100 * Pow10(4);
    assert Pow10(8) == 100 * Pow10(6);
    assert Pow10(10) == 100 * Pow10(8);
  }

  lemma {:induction false} TrimAfterPoint(a: Text, f: Text)
    requires a != [] && a[|a| - 1] == POINT
    ensures TrimEnd(a + f, ZERO) == a + TrimEnd(f, ZERO)
    decreases |f|
  {
    if f != [] {
      var g := f[..|f| - 1];
      assert (a + f)[|a + f| - 1] == f[|f| - 1];
      assert (a + f)[..|a + f| - 1] == a + g;
      TrimAfterPoint(a, g);
    } else {
      assert a + f == a;
    }
  }

  /** Zeros trimmed off the end are made up for by the places they leave. */
  lemma {:induction false} TrimKeepsValue(f: Text, places: nat)
    requires AllDigits(f)
    ensures var t := TrimEnd(f, ZERO);
            AllDigits(t) && AtomicOf(0, Value(f), places) == AtomicOf(0, Value(t), places + |f| - |t|)
    ensures TrimEnd(f, ZERO) != [] ==> TrimEnd(f, ZERO)[|TrimEnd(f, ZERO)| - 1] != POINT
    decreases |f|
  {
    if f != [] && f[|f| - 1] == ZERO {
      var g := f[..|f| - 1];
      TrimKeepsValue(g, places + 1);
      MulAssociates(Value(g), 10, Pow10(places));
    } else if f != [] {
      assert IsDigit(f[|f| - 1]);
    }
  }

  lemma TwelvePlaces(rest: nat)
    requires rest < ATOMIC_PER_XMR
    ensures var frac := Padded(rest, DECIMALS); |frac| == DECIMALS && AllDigits(frac) && Value(frac) == rest
  {
    Pow10Of12();
    PaddedValue(rest, DECIMALS);
    hide *;
  }

  lemma ZeroDigit()
    ensures AllDigits([ZERO]) && Value([ZERO]) == 0
  {
    assert Value([ZERO][..0]) == 0;
  }

  /** What is left of the places after trimming: never nothing. */
  function Kept(frac: Text): Text {
    if TrimEnd(frac, ZERO) == [] then [ZERO] else TrimEnd(frac, ZERO)
  }

  lemma TrimmedText(whole: Text, frac: Text)
    requires AllDigits(frac)
    ensures var trimmed := TrimEnd(whole + ([POINT] + frac), ZERO);
            whole + ([POINT] + Kept(frac)) ==
            if trimmed != [] && trimmed[|trimmed| - 1] == POINT then trimmed + [ZERO] else trimmed
  {
    var front, t := whole + [POINT], TrimEnd(frac, ZERO);
    assert whole + ([POINT] + frac) == front + frac;
    TrimAfterPoint(front, frac);
    TrimKeepsValue(frac, 0);
    hide TrimEnd, AtomicOf;
    if t == [] {
      assert front + t == front && front + [ZERO] == whole + ([POINT] + [ZERO]);
    } else {
      assert (front + t)[|front + t| - 1] == t[|t| - 1];
      assert front + t == whole + ([POINT] + t);
    }
  }

  lemma KeptValue(whole: nat, frac: Text)
    requires AllDigits(frac) && |frac| == DECIMALS
    ensures AllDigits(Kept(frac)) && 1 <= |Kept(frac)| <= DECIMALS
    ensures AtomicOf(whole, Value(Kept(frac)), DECIMALS - |Kept(frac)|) == AtomicOf(whole, Value(frac), 0)
  {
    TrimKeepsValue(frac, 0);
    ZeroDigit();
    hide TrimEnd, Value, Pow10;
  }

  lemma TrimmedReadsBack(whole: nat, frac: Text)
    requires AllDigits(frac) && |frac| == DECIMALS
    ensures var trimmed := TrimEnd(Digits(whole) + ([POINT] + frac), ZERO);
            var text := if trimmed != [] && trimmed[|trimmed| - 1] == POINT then trimmed + [ZERO] else trimmed;
            XmrValue(text) == Some(AtomicOf(whole, Value(frac), 0))
  {
    TrimmedText(Digits(whole), frac);
    KeptValue(whole, frac);
    XmrValueOf(whole, Kept(frac));
    hide *;
  }

  /** Both forms of an amount read back to the same atomic units: no digit is ever lost. */
  lemma AmountsReadBack(atomic: U64)
    ensures XmrValue(ToXmrString(atomic)) == Some(atomic)
    ensures XmrValue(ToTrimmedXmrString(atomic)) == Some(atomic)
  {
    var whole, rest := atomic / ATOMIC_PER_XMR, atomic % ATOMIC_PER_XMR;
    var frac := Padded(rest, DECIMALS);
    TwelvePlaces(rest);
    assert AtomicOf(whole, rest, 0) == atomic;
    hide Padded, Digits, Value, XmrValue, Pow10, TrimEnd, AtomicOf;
    XmrValueOf(whole, frac);
    TrimmedReadsBack(whole, frac);
  }
}
