/**
 * What the printed strings look like, place by place, and what stands there: timestamps read back as
 * their second, ages as the fields of a difference, amounts as whole and twelve places.
 */
module PrintedForms {
  import opened Words
  import opened Numerals
  import opened Calendar
  import opened Printers

  // ---------------------------------------------------------------- timestamps

  lemma FieldReads(n: nat, w: nat)
    requires w >= 1 && n < Pow10(w)
    ensures var s := Padded(n, w); |s| == w && AllDigits(s) && Value(s) == n
  {
    PaddedValue(n, w);
    hide *;
  }

  /** A number of w digits and two of two, with separators between them. */
  lemma TripleReads(sep: Byte, w: nat, k: nat, m: nat, n: nat)
    requires w >= 1 && k < Pow10(w) && m < 100 && n < 100
    ensures var s := Padded(k, w) + ([sep] + (Padded(m, 2) + ([sep] + Padded(n, 2))));
            && |s| == w + 6 && s[w] == sep && s[w + 3] == sep
            && s[..w] == Padded(k, w) && s[w + 1..w + 3] == Padded(m, 2) && s[w + 4..] == Padded(n, 2)
  {
    hide *;
    Pow10Of2();
    FieldReads(k, w);
    FieldReads(m, 2);
    FieldReads(n, 2);
    TripleCut(sep, Padded(k, w), Padded(m, 2), Padded(n, 2));
  }

  lemma TripleCut(sep: Byte, a: Text, b: Text, c: Text)
    requires |b| == |c| == 2
    ensures var s := a + ([sep] + (b + ([sep] + c)));
            && |s| == |a| + 6 && s[|a|] == sep && s[|a| + 3] == sep
            && s[..|a|] == a && s[|a| + 1..|a| + 3] == b && s[|a| + 4..] == c
  {
    var s, tail := a + ([sep] + (b + ([sep] + c))), b + ([sep] + c);
    assert s == a + [sep] + tail;
    assert s[|a| + 1..] == tail && tail[..2] == b && tail[3..] == c;
    assert s[|a| + 1..|a| + 3] == s[|a| + 1..][..2];
    assert s[|a| + 4..] == s[|a| + 1..][3..];
    assert s[|a| + 3] == tail[2];
  }

  /** Day numbers are read off dates: the way back from the closed form. */
  lemma DayOfDate(days: int)
    ensures Valid(CivilFromDays(days)) && DaysFromCivil(CivilFromDays(days)) == days
  {
    CivilIsTheCalendar(days);
    var back := DaysFromCivil(CivilFromDays(days));
    EveryDateHasADay(CivilFromDays(days));
    if back < days {
      CivilIsMonotone(back, days);
    } else if days < back {
      CivilIsMonotone(days, back);
    }
    hide CivilFromDays, DaysFromCivil;
  }

  /** The text of second s of day d. */
  lemma StampPlaces(day: nat, rem: nat)
    requires day <= LAST_DAY && rem < 86400
    ensures Valid(CivilFromDays(day)) && 1970 <= CivilFromDays(day).year <= 9999
    ensures var d := CivilFromDays(day);
            var t := DateText(d) + ([Ascii(' ')] + TimeText(rem));
            && |t| == 19
            && t[4] == t[7] == Ascii('-') && t[10] == Ascii(' ') && t[13] == t[16] == Ascii(':')
            && t[..4] == Padded(d.year, 4) && t[5..7] == Padded(d.month, 2) && t[8..10] == Padded(d.day, 2)
            && t[11..13] == Padded(rem / 3600, 2) && t[14..16] == Padded(rem % 3600 / 60, 2)
            && t[17..] == Padded(rem % 60, 2)
  {
    DatesInRange(day);
    Pow10Of4();
    Pow10Of2();
    var d := CivilFromDays(day);
    hide CivilFromDays, Padded, Pow10;
    TripleReads(Ascii('-'), 4, d.year, d.month, d.day);
    TripleReads(Ascii(':'), 2, rem / 3600, rem % 3600 / 60, rem % 60);
    var a, b := DateText(d), TimeText(rem);
    hide DateText, TimeText;
    StampCut(a, b);
  }

  lemma StampCut(a: Text, b: Text)
    requires |a| == 10 && |b| == 8
    ensures var t := a + ([Ascii(' ')] + b);
            && |t| == 19 && t[10] == Ascii(' ') && t[4] == a[4] && t[7] == a[7] && t[13] == b[2] && t[16] == b[5]
            && t[..4] == a[..4] && t[5..7] == a[5..7] && t[8..10] == a[8..]
            && t[11..13] == b[..2] && t[14..16] == b[3..5] && t[17..] == b[6..]
  {
  }

  /**
   * A timestamp is `YYYY-MM-DD hh:mm:ss`, digits but for the separators.  Its date is a real one, its
   * clock runs from 00:00:00 to 23:59:59, and together they are the second it was made from, up to the
   * last one of year 9999.
   */
  lemma TimestampReadsBack(secs: U64)
    ensures var t := TimestampUtc(secs);
            && |t| == 19
            && t[4] == t[7] == Ascii('-') && t[10] == Ascii(' ') && t[13] == t[16] == Ascii(':')
            && AllDigits(t[..4]) && AllDigits(t[5..7]) && AllDigits(t[8..10])
            && AllDigits(t[11..13]) && AllDigits(t[14..16]) && AllDigits(t[17..])
            && var date := Date(Value(t[..4]), Value(t[5..7]), Value(t[8..10]));
            && var hour, minute, second := Value(t[11..13]), Value(t[14..16]), Value(t[17..]);
            && Valid(date) && hour < 24 && minute < 60 && second < 60
            && 86400 * DaysFromCivil(date) + 3600 * hour + 60 * minute + second
               == if secs <= 253_402_300_799 then secs else 253_402_300_799
  {
    var s := ClampSeconds(secs);
    var day, rem := s / 86400, s % 86400;
    StampPlaces(day, rem);
    DayOfDate(day);
    Pow10Of4();
    Pow10Of2();
    var d := CivilFromDays(day);
    hide CivilFromDays, DateText, TimeText, Padded, Value, Pow10, DaysFromCivil;
    FieldReads(d.year, 4);
    FieldReads(d.month, 2);
    FieldReads(d.day, 2);
    FieldReads(rem / 3600, 2);
    FieldReads(rem % 3600 / 60, 2);
    FieldReads(rem % 60, 2);
    ClockParts(rem);
  }

  // ---------------------------------------------------------------- ages

  /** Two-digit hours, minutes and seconds, each in its range. */
  predicate IsClock(parts: seq<Text>, rem: nat)
    requires |parts| == 3
  {
    && (forall i :: 0 <= i < 3 ==> |parts[i]| == 2 && AllDigits(parts[i]))
    && Value(parts[0]) < 24 && Value(parts[1]) < 60 && Value(parts[2]) < 60
    && 3600 * Value(parts[0]) + 60 * Value(parts[1]) + Value(parts[2]) == rem
  }

  lemma ClockSplits(rem: nat)
    requires rem < 86400
    ensures Split(HourText(rem), COLON) == [Padded(rem / 3600, 2), Padded(rem % 3600 / 60, 2), Padded(rem % 60, 2)]
    ensures IsClock(Split(HourText(rem), COLON), rem)
  {
    var h, m, s := rem / 3600, rem % 3600 / 60, rem % 60;
    SplitNumber(s, 2, COLON, []);
    SplitNumber(m, 2, COLON, Padded(s, 2));
    SplitNumber(h, 2, COLON, Padded(m, 2) + ([COLON] + Padded(s, 2)));
    Pow10Of2();
    hide Padded, Split, Value, Pow10;
    FieldReads(h, 2);
    FieldReads(m, 2);
    FieldReads(s, 2);
    ClockParts(rem);
    assert [Padded(m, 2)] + [Padded(s, 2)] == [Padded(m, 2), Padded(s, 2)];
    assert [Padded(h, 2)] + [Padded(m, 2), Padded(s, 2)] == [Padded(h, 2), Padded(m, 2), Padded(s, 2)];
  }

  /**
   * The three forms of an age: a clock for less than a day; days of two digits or more and a clock for
   * less than a year of 365 days; years, days in three digits and a clock from there on.
   */
  lemma AgeForms(diff: nat)
    ensures var parts := Split(AgeText(diff), COLON);
            && |parts| == (if diff >= 31_536_000 then 5 else if diff >= 86400 then 4 else 3)
            && IsClock(parts[|parts| - 3..], diff % 31_536_000 % 86400)
            && (|parts| == 4 ==>
                  AllDigits(parts[0]) && |parts[0]| >= 2 && Value(parts[0]) == diff / 86400)
            && (|parts| == 5 ==>
                  && AllDigits(parts[0]) && |parts[0]| >= 2 && Value(parts[0]) == diff / 31_536_000
                  && AllDigits(parts[1]) && |parts[1]| == 3 && Value(parts[1]) == diff % 31_536_000 / 86400)
  {
    hide *;
    var years, days, rem := diff / 31_536_000, diff % 31_536_000 / 86400, diff % 31_536_000 % 86400;
    var clock := Split(HourText(rem), COLON);
    ClockSplits(rem);
    AgeBranches(diff);
    ThreeDigits(days);
    PaddedValue(years, 2);
    PaddedValue(days, 2);
    PaddedValue(days, 3);
    assert clock[0..] == clock;
    assert ([Padded(days, 2)] + clock)[1..] == clock;
    assert ([Padded(years, 2), Padded(days, 3)] + clock)[2..] == clock;
  }

  /** Which form it is, and the parts of each. */
  lemma AgeBranches(diff: nat)
    ensures var years, days := diff / 31_536_000, diff % 31_536_000 / 86400;
            var clock := Split(HourText(diff % 31_536_000 % 86400), COLON);
            var parts := Split(AgeText(diff), COLON);
            && days < 365
            && (diff >= 31_536_000 ==> parts == [Padded(years, 2), Padded(days, 3)] + clock)
            && (86400 <= diff < 31_536_000 ==> parts == [Padded(days, 2)] + clock && days == diff / 86400)
            && (diff < 86400 ==> parts == clock)
  {
    hide Padded, Split, Value, HourText;
    var years, days, rem := diff / YEAR, diff % YEAR / DAY, diff % YEAR % DAY;
    AgeUnits(diff);
    SplitNumber(days, 2, COLON, HourText(rem));
    SplitNumber(days, 3, COLON, HourText(rem));
    SplitNumber(years, 2, COLON, Padded(days, 3) + ([COLON] + HourText(rem)));
    var clock := Split(HourText(rem), COLON);
    assert [Padded(years, 2)] + ([Padded(days, 3)] + clock) == [Padded(years, 2), Padded(days, 3)] + clock;
  }

  lemma AgeUnits(diff: nat)
    ensures diff >= 31_536_000 <==> diff / 31_536_000 > 0
    ensures diff < 31_536_000 ==> diff % 31_536_000 == diff
    ensures diff % 31_536_000 / 86400 < 365
    ensures diff >= 86400 <==> diff / 86400 > 0
  {
  }

  lemma ThreeDigits(days: nat)
    requires days < 365
    ensures |Padded(days, 3)| == 3
  {
    Pow10Of2();
    assert Pow10(3) == 1000;
    FieldReads(days, 3);
    hide *;
  }

  // ---------------------------------------------------------------- amounts

  /** Whole XMR without leading zeros, a point, and all twelve places. */
  lemma FullAmountForm(atomic: U64)
    ensures var whole := Digits(atomic / 1_000_000_000_000);
            var text := ToXmrString(atomic);
            && |text| == |whole| + 13 && text[..|whole|] == whole && text[|whole|] == Ascii('.')
            && AllDigits(text[|whole| + 1..]) && Value(text[|whole| + 1..]) == atomic % 1_000_000_000_000
  {
    var whole, frac := Digits(atomic / ATOMIC_PER_XMR), Padded(atomic % ATOMIC_PER_XMR, DECIMALS);
    TwelvePlaces(atomic % ATOMIC_PER_XMR);
    hide Digits, Padded, Value;
    assert (whole + ([POINT] + frac))[|whole| + 1..] == frac;
  }

  /**
   * Trimmed: the same text with zeros taken off its end, as many as there are but for one place after
   * the point.
   */
  lemma TrimmedAmountForm(atomic: U64)
    ensures var full, text := ToXmrString(atomic), ToTrimmedXmrString(atomic);
            var point := |Digits(atomic / 1_000_000_000_000)|;
            && point + 2 <= |text| <= |full| && text == full[..|text|]
            && (forall i :: |text| <= i < |full| ==> full[i] == Ascii('0'))
            && (text[|text| - 1] == Ascii('0') ==> |text| == point + 2)
  {
    hide Digits, Padded, Value, TrimEnd, Kept;
    var whole, frac := Digits(atomic / ATOMIC_PER_XMR), Padded(atomic % ATOMIC_PER_XMR, DECIMALS);
    TwelvePlaces(atomic % ATOMIC_PER_XMR);
    TrimmedText(whole, frac);
    TrimEndIs(frac);
    KeptForm(whole, frac);
    assert ToTrimmedXmrString(atomic) == whole + ([POINT] + Kept(frac));
    hide ToTrimmedXmrString;
  }

  lemma {:induction false} TrimEndIs(f: Text)
    ensures var t := TrimEnd(f, ZERO);
            && |t| <= |f| && t == f[..|t|] && (forall i :: |t| <= i < |f| ==> f[i] == Ascii('0'))
            && (t != [] ==> t[|t| - 1] != Ascii('0'))
    decreases |f|
  {
    if f != [] && f[|f| - 1] == ZERO {
      TrimEndIs(f[..|f| - 1]);
    }
  }

  lemma KeptForm(whole: Text, frac: Text)
    requires |frac| == 12
    requires var t := TrimEnd(frac, ZERO);
             && |t| <= |frac| && t == frac[..|t|] && (forall i :: |t| <= i < |frac| ==> frac[i] == Ascii('0'))
             && (t != [] ==> t[|t| - 1] != Ascii('0'))
    ensures var full, text := whole + ([POINT] + frac), whole + ([POINT] + Kept(frac));
            && |whole| + 2 <= |text| <= |full| && text == full[..|text|]
            && (forall i :: |text| <= i < |full| ==> full[i] == Ascii('0'))
            && (text[|text| - 1] == Ascii('0') ==> |text| == |whole| + 2)
  {
    hide TrimEnd;
    var full, text, kept := whole + ([POINT] + frac), whole + ([POINT] + Kept(frac)), Kept(frac);
    assert kept == frac[..|kept|];
    forall i | |whole| + 1 <= i < |full| ensures full[i] == frac[i - |whole| - 1] {
    }
    assert text[|text| - 1] == kept[|kept| - 1];
  }
}
