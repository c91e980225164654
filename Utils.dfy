/** src/utils.ts: de-duplication, line-ending normalisation, and the
    calendar decomposition and ISO 8601 date string of an epoch second. */
module Utils {
  import opened Strings

  // ---------------------------------------------------------------------------
  // unique
  // ---------------------------------------------------------------------------

  predicate NoDuplicates<T(==)>(xs: seq<T>) {
    forall i, j :: 0 <= i < j < |xs| ==> xs[i] != xs[j]
  }

  /** The index of the first occurrence of `x`. */
  function IndexOf<T(==)>(xs: seq<T>, x: T): (k: nat)
    requires x in xs
    ensures k < |xs| && xs[k] == x && x !in xs[..k]
  {
    if xs[0] == x then 0 else 1 + IndexOf(xs[1..], x)
  }

  /** `[...new Set(xs)]`: every element once, at the place of its first occurrence. */
  function Unique<T(==)>(xs: seq<T>): (u: seq<T>)
    ensures NoDuplicates(u)
    ensures forall i :: 0 <= i < |u| ==> u[i] in xs
    ensures forall i :: 0 <= i < |xs| ==> xs[i] in u
    ensures |u| <= |xs|
  {
    if xs == [] then []
    else
      var init, last := xs[..|xs| - 1], xs[|xs| - 1];
      if last in init then Unique(init) else Unique(init) + [last]
  }

  lemma NoDuplicatesSnoc<T>(xs: seq<T>)
    requires xs != []
    ensures NoDuplicates(xs) <==> NoDuplicates(xs[..|xs| - 1]) && xs[|xs| - 1] !in xs[..|xs| - 1]
  {
    var init, last := xs[..|xs| - 1], xs[|xs| - 1];
    if NoDuplicates(init) && last !in init {
      forall i, j | 0 <= i < j < |xs| ensures xs[i] != xs[j] {
        if j == |xs| - 1 {
          assert xs[i] == init[i];
        } else {
          assert xs[i] == init[i] && xs[j] == init[j];
        }
      }
    }
  }

  /** The de-duplicated list is as long as the input exactly when the input has no
      duplicates: the test `unique(paths).length !== paths.length` detects them. */
  lemma {:induction false} UniqueLength<T>(xs: seq<T>)
    ensures |Unique(xs)| == |xs| <==> NoDuplicates(xs)
  {
    if xs != [] {
      var init, last := xs[..|xs| - 1], xs[|xs| - 1];
      UniqueLength(init);
      NoDuplicatesSnoc(xs);
    }
  }

  lemma IndexOfAppend<T>(a: seq<T>, b: seq<T>, x: T)
    requires x in a + b
    ensures x in a ==> IndexOf(a + b, x) == IndexOf(a, x)
    ensures x !in a ==> IndexOf(a + b, x) >= |a|
  {
    var k := IndexOf(a + b, x);
    if x in a {
      var k' := IndexOf(a, x);
      assert (a + b)[k'] == x;
      assert (a + b)[..k'] == a[..k'];
    }
  }

  /** The elements keep the order of their first occurrences in the input. */
  lemma {:induction false} UniqueKeepsFirstOccurrenceOrder<T>(xs: seq<T>)
    ensures forall i, j :: 0 <= i < j < |Unique(xs)| ==>
      IndexOf(xs, Unique(xs)[i]) < IndexOf(xs, Unique(xs)[j])
  {
    if xs != [] {
      var init, last := xs[..|xs| - 1], xs[|xs| - 1];
      UniqueKeepsFirstOccurrenceOrder(init);
      assert xs == init + [last];
      var u, ui := Unique(xs), Unique(init);
      forall i, j | 0 <= i < j < |u| ensures IndexOf(xs, u[i]) < IndexOf(xs, u[j]) {
        assert u[i] in init;
        IndexOfAppend(init, [last], u[i]);
        if j < |ui| {
          assert u[j] == ui[j] && u[i] == ui[i];
          IndexOfAppend(init, [last], u[j]);
        } else {
          assert u[j] == last && last !in init;
          IndexOfAppend(init, [last], u[j]);
        }
      }
    }
  }

  // ---------------------------------------------------------------------------
  // normalizeEOL
  // ---------------------------------------------------------------------------

  /** `str.split("\r\n").join("\n").split("\n").join(EOL)`; `eol` is the platform's `os.EOL`. */
  function NormalizeEOL(s: string, eol: string): string {
    Join(Split(Join(Split(s, "\r\n"), "\n"), "\n"), eol)
  }

  /** The two split/join rounds are two replace-all passes, the second over the first's output. */
  lemma NormalizeEOLPasses(s: string, eol: string)
    ensures NormalizeEOL(s, eol) == ReplaceAll(ReplaceAll(s, "\r\n", "\n"), "\n", eol)
  {
    JoinSplit(s, "\r\n", "\n");
    JoinSplit(ReplaceAll(s, "\r\n", "\n"), "\n", eol);
  }

  lemma NoCharNoOccurrence(s: string, c: char, pat: string)
    requires c !in s && |pat| > 0 && c in pat
    ensures forall i :: 0 <= i < |s| ==> !OccursAt(s, pat, i)
  {
    var k :| 0 <= k < |pat| && pat[k] == c;
    forall i | 0 <= i < |s| ensures !OccursAt(s, pat, i) {
      if i + |pat| <= |s| {
        assert s[i..i + |pat|][k] == s[i + k];
      }
    }
  }

  /** Without a carriage return, each "\n" becomes `eol` and nothing else changes. */
  lemma NormalizeEOLWithoutCR(s: string, eol: string)
    requires '\r' !in s
    ensures NormalizeEOL(s, eol) == ReplaceAll(s, "\n", eol)
  {
    NormalizeEOLPasses(s, eol);
    NoCharNoOccurrence(s, '\r', "\r\n");
    ReplaceAllAbsent(s, "\r\n", "\n");
  }

  /** A string without "\n" comes back unchanged. */
  lemma NormalizeEOLWithoutLF(s: string, eol: string)
    requires '\n' !in s
    ensures NormalizeEOL(s, eol) == s
  {
    NormalizeEOLPasses(s, eol);
    NoCharNoOccurrence(s, '\n', "\r\n");
    ReplaceAllAbsent(s, "\r\n", "\n");
    NoCharNoOccurrence(s, '\n', "\n");
    ReplaceAllAbsent(s, "\n", eol);
  }

  /** One pass only: with EOL "\n", "\r\r\n" becomes "\r\n", which still holds a CRLF. */
  lemma NormalizeEOLSinglePass()
    ensures NormalizeEOL("\r\r\n", "\n") == "\r\n"
  {
    NormalizeEOLPasses("\r\r\n", "\n");
    assert "\r\r\n"[..2] == "\r\r";
    assert "\r\r\n"[1..] == "\r\n";
    assert ReplaceAll("\r\r\n", "\r\n", "\n") == "\r\n";
    assert "\r\n"[1..] == "\n";
    assert ReplaceAll("\r\n", "\n", "\n") == "\r\n";
  }

  // ---------------------------------------------------------------------------
  // decomposeEpochSecond and dateStringFromEpochSecond
  // ---------------------------------------------------------------------------

  /** What a JavaScript `Date` reports through `getFullYear`, `getMonth` (0-based),
      `getDate`, `getHours`, `getMinutes` and `getSeconds` in the process's time zone. */
  datatype LocalDate = LocalDate(fullYear: int, month0: int, date: int, hours: int, minutes: int, seconds: int)

  predicate ValidLocalDate(d: LocalDate) {
    0 <= d.month0 < 12 && 1 <= d.date <= 31 && 0 <= d.hours < 24 && 0 <= d.minutes < 60 && 0 <= d.seconds < 60
  }

  /** The decomposed calendar fields, with a 1-based month. */
  datatype DateTime = DateTime(year: int, month: int, date: int, hours: int, minutes: int, seconds: int)

  predicate ValidDateTime(t: DateTime) {
    1 <= t.month <= 12 && 1 <= t.date <= 31 && 0 <= t.hours < 24 && 0 <= t.minutes < 60 && 0 <= t.seconds < 60
  }

  /** `decomposeEpochSecond`: `zone` stands for `new Date(ms)` read in the process's time
      zone; the month is reported 1-based. */
  function DecomposeEpochSecond(epochSecond: int, zone: int -> LocalDate): (t: DateTime)
    ensures t.month == zone(epochSecond * 1000).month0 + 1
    ensures ValidLocalDate(zone(epochSecond * 1000)) ==> ValidDateTime(t)
  {
    var d := zone(epochSecond * 1000);
    DateTime(d.fullYear, d.month0 + 1, d.date, d.hours, d.minutes, d.seconds)
  }

  /** The ISO 8601 extended date-time with the fixed `+09:00` offset. */
  function DateString(t: DateTime): string {
    IntToString(t.year) + "-" + Pad2(t.month) + "-" + Pad2(t.date) + "T" +
    Pad2(t.hours) + ":" + Pad2(t.minutes) + ":" + Pad2(t.seconds) + "+09:00"
  }

  /** `dateStringFromEpochSecond`. */
  function DateStringFromEpochSecond(epochSecond: int, zone: int -> LocalDate): string {
    DateString(DecomposeEpochSecond(epochSecond, zone))
  }

  predicate FourDigitYear(t: DateTime) {
    1000 <= t.year <= 9999
  }

  /** For a four-digit year the string is `YYYY-MM-DDTHH:mm:ss+09:00`: 25 characters,
      separators at fixed places, and each field readable back from its slot. */
  lemma DateStringLayout(t: DateTime)
    requires ValidDateTime(t) && FourDigitYear(t)
    ensures var s := DateString(t);
      && |s| == 25
      && s[4] == '-' && s[7] == '-' && s[10] == 'T' && s[13] == ':' && s[16] == ':'
      && s[19..] == "+09:00"
      && AllDigits(s[..4]) && DigitsValue(s[..4]) == t.year
      && AllDigits(s[5..7]) && DigitsValue(s[5..7]) == t.month
      && AllDigits(s[8..10]) && DigitsValue(s[8..10]) == t.date
      && AllDigits(s[11..13]) && DigitsValue(s[11..13]) == t.hours
      && AllDigits(s[14..16]) && DigitsValue(s[14..16]) == t.minutes
      && AllDigits(s[17..19]) && DigitsValue(s[17..19]) == t.seconds
  {
    var y := IntToString(t.year);
    NatToStringRoundTrip(t.year);
    assert |y| == 4 by {
      FourDigitLength(t.year);
    }
    Pad2TwoDigits(t.month);
    Pad2TwoDigits(t.date);
    Pad2TwoDigits(t.hours);
    Pad2TwoDigits(t.minutes);
    Pad2TwoDigits(t.seconds);
    DateSlotsYearMonth(t);
    DateSlotsDateHours(t);
    DateSlotsMinutesSeconds(t);
  }

  /** The fields have their printed widths: four for the year, two for the others. */
  predicate PrintedWidths(t: DateTime) {
    && |IntToString(t.year)| == 4 && |Pad2(t.month)| == 2 && |Pad2(t.date)| == 2
    && |Pad2(t.hours)| == 2 && |Pad2(t.minutes)| == 2 && |Pad2(t.seconds)| == 2
  }

  lemma DateSlotsYearMonth(t: DateTime)
    requires PrintedWidths(t)
    ensures var s := DateString(t);
      |s| == 25 && s[0..4] == IntToString(t.year) && s[4] == '-' && s[5..7] == Pad2(t.month) && s[7] == '-'
  {
    var y, m, d, h, mi, sec := IntToString(t.year), Pad2(t.month), Pad2(t.date), Pad2(t.hours), Pad2(t.minutes), Pad2(t.seconds);
    var s0 := y;
    var s1 := s0 + "-";
    var s2 := s1 + m;
    var s3 := s2 + "-";
    var s4 := s3 + d;
    var s5 := s4 + "T";
    var s6 := s5 + h;
    var s7 := s6 + ":";
    var s8 := s7 + mi;
    var s9 := s8 + ":";
    var s10 := s9 + sec;
    var s11 := s10 + "+09:00";
    assert s0[0..4] == y;
    SliceOfAppend(s0, "-", 0, 4);
    SliceOfAppend(s1, m, 0, 4);
    SliceOfAppend(s2, "-", 0, 4);
    SliceOfAppend(s3, d, 0, 4);
    SliceOfAppend(s4, "T", 0, 4);
    SliceOfAppend(s5, h, 0, 4);
    SliceOfAppend(s6, ":", 0, 4);
    SliceOfAppend(s7, mi, 0, 4);
    SliceOfAppend(s8, ":", 0, 4);
    SliceOfAppend(s9, sec, 0, 4);
    SliceOfAppend(s10, "+09:00", 0, 4);
    AppendedSlice(s0, "-");
    SliceOfAppend(s1, m, 4, 5);
    SliceOfAppend(s2, "-", 4, 5);
    SliceOfAppend(s3, d, 4, 5);
    SliceOfAppend(s4, "T", 4, 5);
    SliceOfAppend(s5, h, 4, 5);
    SliceOfAppend(s6, ":", 4, 5);
    SliceOfAppend(s7, mi, 4, 5);
    SliceOfAppend(s8, ":", 4, 5);
    SliceOfAppend(s9, sec, 4, 5);
    SliceOfAppend(s10, "+09:00", 4, 5);
    AppendedSlice(s1, m);
    SliceOfAppend(s2, "-", 5, 7);
    SliceOfAppend(s3, d, 5, 7);
    SliceOfAppend(s4, "T", 5, 7);
    SliceOfAppend(s5, h, 5, 7);
    SliceOfAppend(s6, ":", 5, 7);
    SliceOfAppend(s7, mi, 5, 7);
    SliceOfAppend(s8, ":", 5, 7);
    SliceOfAppend(s9, sec, 5, 7);
    SliceOfAppend(s10, "+09:00", 5, 7);
    AppendedSlice(s2, "-");
    SliceOfAppend(s3, d, 7, 8);
    SliceOfAppend(s4, "T", 7, 8);
    SliceOfAppend(s5, h, 7, 8);
    SliceOfAppend(s6, ":", 7, 8);
    SliceOfAppend(s7, mi, 7, 8);
    SliceOfAppend(s8, ":", 7, 8);
    SliceOfAppend(s9, sec, 7, 8);
    SliceOfAppend(s10, "+09:00", 7, 8);
    assert s11[4] == s11[4..5][0];
    assert s11[7] == s11[7..8][0];
  }

  lemma DateSlotsDateHours(t: DateTime)
    requires PrintedWidths(t)
    ensures var s := DateString(t);
      |s| == 25 && s[8..10] == Pad2(t.date) && s[10] == 'T' && s[11..13] == Pad2(t.hours) && s[13] == ':'
  {
    var y, m, d, h, mi, sec := IntToString(t.year), Pad2(t.month), Pad2(t.date), Pad2(t.hours), Pad2(t.minutes), Pad2(t.seconds);
    var s0 := y;
    var s1 := s0 + "-";
    var s2 := s1 + m;
    var s3 := s2 + "-";
    var s4 := s3 + d;
    var s5 := s4 + "T";
    var s6 := s5 + h;
    var s7 := s6 + ":";
    var s8 := s7 + mi;
    var s9 := s8 + ":";
    var s10 := s9 + sec;
    var s11 := s10 + "+09:00";
    AppendedSlice(s3, d);
    SliceOfAppend(s4, "T", 8, 10);
    SliceOfAppend(s5, h, 8, 10);
    SliceOfAppend(s6, ":", 8, 10);
    SliceOfAppend(s7, mi, 8, 10);
    SliceOfAppend(s8, ":", 8, 10);
    SliceOfAppend(s9, sec, 8, 10);
    SliceOfAppend(s10, "+09:00", 8, 10);
    AppendedSlice(s4, "T");
    SliceOfAppend(s5, h, 10, 11);
    SliceOfAppend(s6, ":", 10, 11);
    SliceOfAppend(s7, mi, 10, 11);
    SliceOfAppend(s8, ":", 10, 11);
    SliceOfAppend(s9, sec, 10, 11);
    SliceOfAppend(s10, "+09:00", 10, 11);
    AppendedSlice(s5, h);
    SliceOfAppend(s6, ":", 11, 13);
    SliceOfAppend(s7, mi, 11, 13);
    SliceOfAppend(s8, ":", 11, 13);
    SliceOfAppend(s9, sec, 11, 13);
    SliceOfAppend(s10, "+09:00", 11, 13);
    AppendedSlice(s6, ":");
    SliceOfAppend(s7, mi, 13, 14);
    SliceOfAppend(s8, ":", 13, 14);
    SliceOfAppend(s9, sec, 13, 14);
    SliceOfAppend(s10, "+09:00", 13, 14);
    assert s11[10] == s11[10..11][0];
    assert s11[13] == s11[13..14][0];
  }

  lemma DateSlotsMinutesSeconds(t: DateTime)
    requires PrintedWidths(t)
    ensures var s := DateString(t);
      |s| == 25 && s[14..16] == Pad2(t.minutes) && s[16] == ':' && s[17..19] == Pad2(t.seconds) && s[19..] == "+09:00"
  {
    var y, m, d, h, mi, sec := IntToString(t.year), Pad2(t.month), Pad2(t.date), Pad2(t.hours), Pad2(t.minutes), Pad2(t.seconds);
    var s0 := y;
    var s1 := s0 + "-";
    var s2 := s1 + m;
    var s3 := s2 + "-";
    var s4 := s3 + d;
    var s5 := s4 + "T";
    var s6 := s5 + h;
    var s7 := s6 + ":";
    var s8 := s7 + mi;
    var s9 := s8 + ":";
    var s10 := s9 + sec;
    var s11 := s10 + "+09:00";
    AppendedSlice(s7, mi);
    SliceOfAppend(s8, ":", 14, 16);
    SliceOfAppend(s9, sec, 14, 16);
    SliceOfAppend(s10, "+09:00", 14, 16);
    AppendedSlice(s8, ":");
    SliceOfAppend(s9, sec, 16, 17);
    SliceOfAppend(s10, "+09:00", 16, 17);
    AppendedSlice(s9, sec);
    SliceOfAppend(s10, "+09:00", 17, 19);
    AppendedSlice(s10, "+09:00");
    assert s11[16] == s11[16..17][0];
  }

  lemma FourDigitLength(n: nat)
    requires 1000 <= n <= 9999
    ensures |NatToString(n)| == 4
  {
    assert NatToString(n) == NatToString(n / 10) + [DigitChar(n % 10)];
    assert NatToString(n / 10) == NatToString(n / 100) + [DigitChar(n / 10 % 10)];
    assert NatToString(n / 100) == NatToString(n / 1000) + [DigitChar(n / 100 % 10)];
  }

  /** Distinct valid dates with four-digit years give distinct strings. */
  lemma DateStringInjective(t: DateTime, u: DateTime)
    requires ValidDateTime(t) && FourDigitYear(t) && ValidDateTime(u) && FourDigitYear(u)
    requires DateString(t) == DateString(u)
    ensures t == u
  {
    DateStringLayout(t);
    DateStringLayout(u);
  }

  /** The repository's own example: 2018-09-08 21:32:42 in the +09:00 zone. */
  lemma DateStringExample()
    ensures DateString(DateTime(2018, 9, 8, 21, 32, 42)) == "2018-09-08" + "T21:32:42" + "+09:00"
  {
    PrintedYearExample();
    assert Pad2(9) == "09" by { Pad2TwoDigits(9); }
    assert Pad2(8) == "08" by { Pad2TwoDigits(8); }
    assert Pad2(21) == "21" by { Pad2TwoDigits(21); }
    assert Pad2(32) == "32" by { Pad2TwoDigits(32); }
    assert Pad2(42) == "42" by { Pad2TwoDigits(42); }
  }

}
