/** chronicle/src/time.rs: artifact names made from timestamps, and the order they sort in. */
module TimestampNames {
  import opened Sorting
  import opened CivilTime

  // ---------------------------------------------------------------------------------- digits

  function Digit(d: nat): char
    requires d < 10
  {
    "0123456789"[d]
  }

  function Decimal(n: nat): string {
    if n < 10 then [Digit(n)] else Decimal(n / 10) + [Digit(n % 10)]
  }

  function Zeros(n: nat): string {
    if n == 0 then "" else Zeros(n - 1) + "0"
  }

  /** Padded with zeros: at least `width` digits, never fewer than the number needs. */
  function Padded(n: nat, width: nat): string {
    var s := Decimal(n);
    if |s| >= width then s else Zeros(width - |s|) + s
  }

  // ----------------------------------------------------------------------------------- names

  /** The six numbers of a name, most significant first. */
  datatype Parts = Parts(year: int, month: int, day: int, hour: int, minute: int, second: int)

  function PartsOf(secondsSinceEpoch: nat): Parts {
    PartsAt(CivilFromDays(secondsSinceEpoch / 86_400), secondsSinceEpoch % 86_400)
  }

  function PartsAt(date: Date, secondsOfDay: nat): Parts {
    Parts(date.year, date.month, date.day, secondsOfDay / 3_600, (secondsOfDay % 3_600) / 60, secondsOfDay % 60)
  }

  function Values(p: Parts): seq<int> {
    [p.year, p.month, p.day, p.hour, p.minute, p.second]
  }

  /** No number is negative; every one after the year fits its two digits. */
  predicate Printable(v: seq<int>) {
    |v| == 6 && v[0] >= 0 && forall i :: 1 <= i < 6 ==> 0 <= v[i] < 100
  }

  function Join(v: seq<int>, widths: seq<nat>, marks: seq<string>): string
    requires |v| == |widths| == |marks| && forall i :: 0 <= i < |v| ==> v[i] >= 0
  {
    if v == [] then ""
    else Padded(v[0], widths[0]) + marks[0] + Join(v[1..], widths[1..], marks[1..])
  }

  const WIDTHS: seq<nat> := [4, 2, 2, 2, 2, 2]
  const FILESYSTEM_MARKS: seq<string> := ["-", "-", "T", "-", "-", "Z"]
  const COMPACT_MARKS: seq<string> := ["", "", "", "", "", ""]

  lemma CivilRange(d: nat)
    ensures var t := CivilFromDays(d); t.year >= 1970 && 1 <= t.month <= 12 && 1 <= t.day <= 31
  {
    CountingBack(d);
    CivilEpoch();
    if d > 0 {
      CivilFollowsTime(0, d);
    }
  }

  lemma PartsArePrintable(s: nat)
    ensures Printable(Values(PartsOf(s))) && PartsOf(s).year >= 1970
  {
    CivilRange(s / 86_400);
    var secondsOfDay := s % 86_400;
    assert 0 <= secondsOfDay / 3_600 < 24 && 0 <= (secondsOfDay % 3_600) / 60 < 60;
  }

  function Name(s: nat, marks: seq<string>): string
    requires |marks| == 6
  {
    PartsArePrintable(s);
    Join(Values(PartsOf(s)), WIDTHS, marks)
  }

  /** YYYY-MM-DDTHH-MM-SSZ */
  function Filesystem(s: nat): string {
    Name(s, FILESYSTEM_MARKS)
  }

  /** YYYYMMDDHHMMSS */
  function Compact(s: nat): string {
    Name(s, COMPACT_MARKS)
  }

  // -------------------------------------------------------------------- fixed-width numbers

  function Pow10(w: nat): nat {
    if w == 0 then 1 else 10 * Pow10(w - 1)
  }

  /** Exactly `w` digits. */
  function Fixed(n: nat, w: nat): string {
    if w == 0 then "" else Fixed(n / 10, w - 1) + [Digit(n % 10)]
  }

  lemma {:induction false} FixedLength(n: nat, w: nat)
    ensures |Fixed(n, w)| == w
  {
    if w > 0 {
      FixedLength(n / 10, w - 1);
    }
  }

  lemma {:induction false} FixedZero(w: nat)
    ensures Fixed(0, w) == Zeros(w)
  {
    if w > 0 {
      FixedZero(w - 1);
    }
  }

  lemma {:induction false} ZerosLength(n: nat)
    ensures |Zeros(n)| == n
  {
    if n > 0 {
      ZerosLength(n - 1);
    }
  }

  lemma PadOneMore(s: string, last: string, w: nat)
    requires |s| <= w && |last| == 1
    ensures (if |s + last| >= w + 1 then s + last else Zeros(w + 1 - |s + last|) + (s + last))
         == (if |s| >= w then s else Zeros(w - |s|) + s) + last
  {
    if |s| < w {
      assert w + 1 - |s + last| == w - |s|;
      assert Zeros(w - |s|) + (s + last) == (Zeros(w - |s|) + s) + last;
    }
  }

  lemma {:induction false} PaddedIsFixed(n: nat, w: nat)
    requires w >= 1 && n < Pow10(w)
    ensures Padded(n, w) == Fixed(n, w) && |Decimal(n)| <= w
  {
    if n < 10 {
      FixedZero(w - 1);
    } else {
      PaddedIsFixed(n / 10, w - 1);
      PadOneMore(Decimal(n / 10), [Digit(n % 10)], w - 1);
    }
  }

  lemma {:induction false} LessAppend(a: string, b: string, c: string, d: string)
    requires |a| == |b| && Less(a, b)
    ensures Less(a + c, b + d)
  {
    assert a != [] && b != [];
    assert (a + c)[0] == a[0] && (b + d)[0] == b[0];
    if a[0] == b[0] {
      LessAppend(a[1..], b[1..], c, d);
      assert (a + c)[1..] == a[1..] + c && (b + d)[1..] == b[1..] + d;
    }
  }

  lemma {:induction false} LessAfterPrefix(p: string, c: string, d: string)
    requires Less(c, d)
    ensures Less(p + c, p + d)
  {
    if p == [] {
      assert p + c == c && p + d == d;
    } else {
      LessAfterPrefix(p[1..], c, d);
      assert (p + c)[1..] == p[1..] + c && (p + d)[1..] == p[1..] + d;
    }
  }

  lemma {:induction false} FixedOrder(n: nat, m: nat, w: nat)
    requires n < m < Pow10(w)
    ensures Less(Fixed(n, w), Fixed(m, w))
  {
    FixedLength(n / 10, w - 1);
    FixedLength(m / 10, w - 1);
    if n / 10 < m / 10 {
      FixedOrder(n / 10, m / 10, w - 1);
      LessAppend(Fixed(n / 10, w - 1), Fixed(m / 10, w - 1), [Digit(n % 10)], [Digit(m % 10)]);
    } else {
      LessAfterPrefix(Fixed(n / 10, w - 1), [Digit(n % 10)], [Digit(m % 10)]);
    }
  }

  // ------------------------------------------------------------------------ order of the names

  /** The first number that differs is smaller. */
  predicate LexLess(v: seq<int>, u: seq<int>)
    requires |v| == |u|
  {
    v != [] && (v[0] < u[0] || (v[0] == u[0] && LexLess(v[1..], u[1..])))
  }

  ghost predicate Fits(v: seq<int>, widths: seq<nat>) {
    |v| == |widths| && forall i :: 0 <= i < |v| ==> widths[i] >= 1 && 0 <= v[i] < Pow10(widths[i])
  }

  lemma {:induction false} JoinOrder(v: seq<int>, u: seq<int>, widths: seq<nat>, marks: seq<string>)
    requires Fits(v, widths) && Fits(u, widths) && |marks| == |widths|
    requires LexLess(v, u)
    ensures Less(Join(v, widths, marks), Join(u, widths, marks))
  {
    var restV, restU := Join(v[1..], widths[1..], marks[1..]), Join(u[1..], widths[1..], marks[1..]);
    var a, b := Fixed(v[0], widths[0]), Fixed(u[0], widths[0]);
    PaddedIsFixed(v[0], widths[0]);
    PaddedIsFixed(u[0], widths[0]);
    FixedLength(v[0], widths[0]);
    FixedLength(u[0], widths[0]);
    assert a + marks[0] + restV == a + (marks[0] + restV);
    assert b + marks[0] + restU == b + (marks[0] + restU);
    if v[0] < u[0] {
      FixedOrder(v[0], u[0], widths[0]);
      LessAppend(a, b, marks[0] + restV, marks[0] + restU);
    } else {
      JoinOrder(v[1..], u[1..], widths[1..], marks[1..]);
      LessAfterPrefix(a + marks[0], restV, restU);
    }
  }

  lemma ClockSplit(a: nat)
    ensures a == 3_600 * (a / 3_600) + 60 * ((a % 3_600) / 60) + a % 60
    ensures 0 <= (a % 3_600) / 60 < 60 && 0 <= a % 60 < 60
  {
    var c := a % 3_600;
    assert a == 60 * (60 * (a / 3_600)) + c;
    ShiftBy60(60 * (a / 3_600), c);
  }

  lemma ShiftBy60(q: nat, c: nat)
    ensures (60 * q + c) % 60 == c % 60
  {
  }

  lemma ClockLex(h: int, m: int, s: int, h': int, m': int, s': int)
    requires 0 <= m < 60 && 0 <= s < 60 && 0 <= m' < 60 && 0 <= s' < 60
    requires 3_600 * h + 60 * m + s < 3_600 * h' + 60 * m' + s'
    ensures LexLess([h, m, s], [h', m', s'])
  {
  }

  lemma ClockOrder(a: nat, b: nat)
    requires a < b < 86_400
    ensures LexLess([a / 3_600, (a % 3_600) / 60, a % 60], [b / 3_600, (b % 3_600) / 60, b % 60])
  {
    ClockSplit(a);
    ClockSplit(b);
    ClockLex(a / 3_600, (a % 3_600) / 60, a % 60, b / 3_600, (b % 3_600) / 60, b % 60);
  }

  lemma LexByDate(y: int, m: int, d: int, y': int, m': int, d': int, rest: seq<int>, rest': seq<int>)
    requires |rest| == |rest'|
    requires Before(Date(y, m, d), Date(y', m', d')) || (y == y' && m == m' && d == d' && LexLess(rest, rest'))
    ensures LexLess([y, m, d] + rest, [y', m', d'] + rest')
  {
    var v, u := [y, m, d] + rest, [y', m', d'] + rest';
    assert v[1..][1..][1..] == rest && u[1..][1..][1..] == rest';
  }

  lemma PartsOrder(d1: Date, d2: Date, a: nat, b: nat)
    requires a < 86_400 && b < 86_400
    requires Before(d1, d2) || (d1 == d2 && a < b)
    ensures LexLess(Values(PartsAt(d1, a)), Values(PartsAt(d2, b)))
  {
    var p, q := PartsAt(d1, a), PartsAt(d2, b);
    var restP, restQ := [p.hour, p.minute, p.second], [q.hour, q.minute, q.second];
    if !Before(d1, d2) {
      ClockOrder(a, b);
    }
    LexByDate(p.year, p.month, p.day, q.year, q.month, q.day, restP, restQ);
    assert Values(p) == [p.year, p.month, p.day] + restP;
    assert Values(q) == [q.year, q.month, q.day] + restQ;
  }

  lemma LaterDayOrClock(d1: int, d2: int, a: nat, b: nat)
    requires a < 86_400 && b < 86_400
    requires d1 < d2 || (d1 == d2 && a < b)
    ensures LexLess(Values(PartsAt(CivilFromDays(d1), a)), Values(PartsAt(CivilFromDays(d2), b)))
  {
    if d1 < d2 {
      CivilFollowsTime(d1, d2);
    }
    PartsOrder(CivilFromDays(d1), CivilFromDays(d2), a, b);
  }

  lemma PartsFollowTime(s1: nat, s2: nat)
    requires s1 < s2
    ensures LexLess(Values(PartsOf(s1)), Values(PartsOf(s2)))
  {
    LaterDayOrClock(s1 / 86_400, s2 / 86_400, s1 % 86_400, s2 % 86_400);
  }

  /** The first second of the year 10000. */
  const YEAR_10000: nat := 253_402_300_800

  lemma FirstFiveDigitYear()
    ensures CivilFromDays(2_932_897) == Date(10_000, 1, 1)
  {
    CivilIsDateOf(2_932_897, 24, EraDay(3, 24, 3, 306));
  }

  lemma LastFourDigitYear()
    ensures CivilFromDays(2_932_896).year == 9_999
  {
    FirstFiveDigitYear();
    CivilStep(2_932_896);
  }

  lemma FourDigitYears(s: nat)
    ensures PartsOf(s).year < 10_000 <==> s < YEAR_10000
  {
    FirstFiveDigitYear();
    var d := s / 86_400;
    if d < 2_932_897 {
      CivilFollowsTime(d, 2_932_897);
      CivilRange(d);
    } else if d > 2_932_897 {
      CivilFollowsTime(2_932_897, d);
    }
  }

  lemma FieldsFit(s: nat)
    requires s < YEAR_10000
    ensures Fits(Values(PartsOf(s)), WIDTHS)
  {
    PartsArePrintable(s);
    FourDigitYears(s);
    assert Pow10(2) == 100 && Pow10(4) == 10_000;
  }

  /** Names of four-digit years sort by time, in both formats (and so never coincide). */
  lemma NamesSortByTime(s1: nat, s2: nat, marks: seq<string>)
    requires s1 < s2 < YEAR_10000 && |marks| == 6
    ensures Less(Name(s1, marks), Name(s2, marks))
  {
    FieldsFit(s1);
    FieldsFit(s2);
    PartsFollowTime(s1, s2);
    JoinOrder(Values(PartsOf(s1)), Values(PartsOf(s2)), WIDTHS, marks);
  }

  ghost predicate SortsBelow(limit: nat, marks: seq<string>)
    requires |marks| == 6
  {
    forall s1: nat, s2: nat :: s1 < s2 < limit ==> Less(Name(s1, marks), Name(s2, marks))
  }

  lemma FirstCharacter(s: nat, marks: seq<string>, year: nat)
    requires |marks| == 6 && PartsOf(s).year == year
    ensures Name(s, marks) != [] && Padded(year, 4) != [] && Name(s, marks)[0] == Padded(year, 4)[0]
  {
    PartsArePrintable(s);
    assert Values(PartsOf(s))[0] == year;
    assert |Decimal(year)| > 0;
  }

  lemma NinesComeLast(s: nat, marks: seq<string>)
    requires |marks| == 6 && PartsOf(s).year == 9_999
    ensures Name(s, marks) != [] && Name(s, marks)[0] == '9'
  {
    FirstCharacter(s, marks, 9_999);
    assert Decimal(9_999) == "9999";
  }

  lemma OneComesFirst(s: nat, marks: seq<string>)
    requires |marks| == 6 && PartsOf(s).year == 10_000
    ensures Name(s, marks) != [] && Name(s, marks)[0] == '1'
  {
    FirstCharacter(s, marks, 10_000);
    assert Decimal(10_000) == "10000";
  }

  lemma YearsAroundTheLimit()
    ensures PartsOf(YEAR_10000 - 1).year == 9_999 && PartsOf(YEAR_10000).year == 10_000
  {
    LastFourDigitYear();
    FirstFiveDigitYear();
    YearOfParts(YEAR_10000 - 1, 2_932_896);
    YearOfParts(YEAR_10000, 2_932_897);
  }

  lemma YearOfParts(s: nat, d: nat)
    requires 86_400 * d <= s < 86_400 * (d + 1)
    ensures PartsOf(s).year == CivilFromDays(d).year
  {
    assert s / 86_400 == d;
  }

  lemma OrderBreaks(s1: nat, s2: nat, marks: seq<string>)
    requires |marks| == 6 && PartsOf(s1).year == 9_999 && PartsOf(s2).year == 10_000
    ensures !Less(Name(s1, marks), Name(s2, marks))
  {
    NinesComeLast(s1, marks);
    OneComesFirst(s2, marks);
  }

  /** Beyond that the year takes a fifth digit and the order breaks: the bound is exact. */
  lemma SortsBelowExactly(limit: nat, marks: seq<string>)
    requires |marks| == 6
    ensures SortsBelow(limit, marks) <==> limit <= YEAR_10000
  {
    if limit <= YEAR_10000 {
      forall s1: nat, s2: nat | s1 < s2 < limit ensures Less(Name(s1, marks), Name(s2, marks)) {
        NamesSortByTime(s1, s2, marks);
      }
    } else {
      YearsAroundTheLimit();
      OrderBreaks(YEAR_10000 - 1, YEAR_10000, marks);
    }
  }

  lemma OrderByName(s1: nat, s2: nat, marks: seq<string>)
    requires s1 < YEAR_10000 && s2 < YEAR_10000 && |marks| == 6
    ensures s1 < s2 <==> Less(Name(s1, marks), Name(s2, marks))
    ensures s1 == s2 <==> Name(s1, marks) == Name(s2, marks)
  {
    LessTrichotomy(Name(s1, marks), Name(s2, marks));
    if s1 < s2 {
      NamesSortByTime(s1, s2, marks);
    } else if s2 < s1 {
      NamesSortByTime(s2, s1, marks);
    }
  }

  /** Both formats are injective and sort by time up to the end of year 9999. */
  lemma FormatsSortByTime(s1: nat, s2: nat)
    requires s1 < YEAR_10000 && s2 < YEAR_10000
    ensures s1 < s2 <==> Less(Filesystem(s1), Filesystem(s2))
    ensures s1 < s2 <==> Less(Compact(s1), Compact(s2))
    ensures Filesystem(s1) == Filesystem(s2) <==> s1 == s2
    ensures Compact(s1) == Compact(s2) <==> s1 == s2
  {
    OrderByName(s1, s2, FILESYSTEM_MARKS);
    OrderByName(s1, s2, COMPACT_MARKS);
  }

  // ---------------------------------------------------------------------- what the names say

  /** The six numbers are the date of the day and the time of day. */
  lemma PartsAreTheTime(s: nat)
    ensures var p := PartsOf(s);
            && Date(p.year, p.month, p.day) == CivilFromDays(s / 86_400)
            && 0 <= p.hour < 24 && 0 <= p.minute < 60 && 0 <= p.second < 60
            && s == 86_400 * (s / 86_400) + 3_600 * p.hour + 60 * p.minute + p.second
  {
    ClockSplit(s % 86_400);
  }

  predicate IsDigit(c: char) {
    '0' <= c <= '9'
  }

  predicate AllDigits(t: string) {
    forall i :: 0 <= i < |t| ==> IsDigit(t[i])
  }

  /** What decimal digits stand for. */
  function Number(t: string): int
    requires AllDigits(t)
  {
    if t == "" then 0 else 10 * Number(t[..|t| - 1]) + (t[|t| - 1] as int - '0' as int)
  }

  lemma DigitReads(d: nat)
    requires d < 10
    ensures IsDigit(Digit(d)) && Digit(d) as int - '0' as int == d
  {
  }

  lemma {:induction false} FixedReads(n: nat, w: nat)
    requires n < Pow10(w)
    ensures |Fixed(n, w)| == w && AllDigits(Fixed(n, w)) && Number(Fixed(n, w)) == n
  {
    if w > 0 {
      FixedReads(n / 10, w - 1);
      DigitReads(n % 10);
      var t := Fixed(n, w);
      assert t[..|t| - 1] == Fixed(n / 10, w - 1);
    }
  }

  /** These characters are digits and read as `n`. */
  predicate Reads(name: string, from: nat, to: nat, n: int) {
    from <= to <= |name| && AllDigits(name[from..to]) && Number(name[from..to]) == n
  }

  /** From `from` on: a number of the given width, its mark, the next number, and so on to the end. */
  ghost predicate Spells(name: string, from: nat, v: seq<int>, widths: seq<nat>, marks: seq<string>)
    requires |v| == |widths| == |marks|
    decreases |v|
  {
    if v == [] then from == |name|
    else
      var after := from + widths[0];
      && Reads(name, from, after, v[0])
      && after + |marks[0]| <= |name| && name[after..after + |marks[0]|] == marks[0]
      && Spells(name, after + |marks[0]|, v[1..], widths[1..], marks[1..])
  }

  lemma ReadsHere(head: string, t: string, mark: string, rest: string, n: int)
    requires AllDigits(t) && Number(t) == n
    ensures var name := head + t + mark + rest;
            && Reads(name, |head|, |head| + |t|, n) && |head| + |t| + |mark| <= |name|
            && name[|head| + |t|..|head| + |t| + |mark|] == mark
  {
    var name := head + t + mark + rest;
    assert name[|head|..|head| + |t|] == t;
  }

  lemma SpellsMore(head: string, t: string, rest: string, v: seq<int>, widths: seq<nat>, marks: seq<string>)
    requires |v| == |widths| == |marks| && v != [] && |t| == widths[0] && AllDigits(t) && Number(t) == v[0]
    requires var before := head + t + marks[0];
             Spells(before + rest, |before|, v[1..], widths[1..], marks[1..])
    ensures Spells(head + (t + marks[0] + rest), |head|, v, widths, marks)
  {
    assert head + (t + marks[0] + rest) == head + t + marks[0] + rest;
    ReadsHere(head, t, marks[0], rest, v[0]);
  }

  lemma {:induction false} JoinSpells(v: seq<int>, widths: seq<nat>, marks: seq<string>, head: string)
    requires Fits(v, widths) && |marks| == |widths|
    ensures Spells(head + Join(v, widths, marks), |head|, v, widths, marks)
    decreases |v|
  {
    if v == [] {
      assert head + "" == head;
    } else {
      var t := Padded(v[0], widths[0]);
      PaddedIsFixed(v[0], widths[0]);
      FixedReads(v[0], widths[0]);
      JoinSpells(v[1..], widths[1..], marks[1..], head + t + marks[0]);
      SpellsMore(head, t, Join(v[1..], widths[1..], marks[1..]), v, widths, marks);
    }
  }

  /** Up to the year 9999 both names spell the six numbers, the first with its marks between them. */
  lemma NamesSpellTheTime(s: nat)
    requires s < YEAR_10000
    ensures var p := PartsOf(s);
            var v := [p.year, p.month, p.day, p.hour, p.minute, p.second];
            && Spells(Filesystem(s), 0, v, [4, 2, 2, 2, 2, 2], ["-", "-", "T", "-", "-", "Z"])
            && Spells(Compact(s), 0, v, [4, 2, 2, 2, 2, 2], ["", "", "", "", "", ""])
  {
    NameSpells(s, FILESYSTEM_MARKS);
    NameSpells(s, COMPACT_MARKS);
  }

  lemma NameSpells(s: nat, marks: seq<string>)
    requires s < YEAR_10000 && |marks| == 6
    ensures Spells(Name(s, marks), 0, Values(PartsOf(s)), WIDTHS, marks)
  {
    FieldsFit(s);
    SpellsFromTheStart(Values(PartsOf(s)), WIDTHS, marks);
  }

  lemma SpellsFromTheStart(v: seq<int>, widths: seq<nat>, marks: seq<string>)
    requires Fits(v, widths) && |marks| == |widths|
    ensures Spells(Join(v, widths, marks), 0, v, widths, marks)
  {
    JoinSpells(v, widths, marks, "");
    assert "" + Join(v, widths, marks) == Join(v, widths, marks);
  }
}
