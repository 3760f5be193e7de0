/** The ISO `YYYY-MM-DD` strings under which the app stores ticked days:
    printing a date (what `toISOString().slice(0, 10)` yields for a calendar
    day), parsing one back (what `new Date("YYYY-MM-DD")` accepts), and the
    code-unit order in which `Array.prototype.sort` puts such strings. */
module IsoDate {
  import opened Calendar

  datatype Option<T> = None | Some(value: T)

  predicate IsDigit(c: char) {
    '0' <= c <= '9'
  }

  predicate AllDigits(s: string) {
    forall i :: 0 <= i < |s| ==> IsDigit(s[i])
  }

  function Digit(k: int): (c: char)
    requires 0 <= k <= 9
    ensures IsDigit(c)
  {
    (48 + k) as char
  }

  function DigitValue(c: char): (k: int)
    requires IsDigit(c)
    ensures 0 <= k <= 9 && Digit(k) == c
  {
    c as int - 48
  }

  function Pow10(w: nat): (p: nat)
    ensures p >= 1
  {
    if w == 0 then 1 else 10 * Pow10(w - 1)
  }

  /** `n` in decimal, zero-padded (or cut) to exactly `w` digits. */
  function Pad(n: nat, w: nat): (s: string)
    ensures |s| == w && AllDigits(s)
  {
    if w == 0 then [] else Pad(n / 10, w - 1) + [Digit(n % 10)]
  }

  /** The value of a string of decimal digits. */
  function Num(s: string): (n: nat)
    requires AllDigits(s)
  {
    if s == [] then 0 else 10 * Num(s[..|s| - 1]) + DigitValue(s[|s| - 1])
  }

  lemma {:induction false} NumPad(n: nat, w: nat)
    requires n < Pow10(w)
    ensures Num(Pad(n, w)) == n
  {
    if w > 0 {
      NumPad(n / 10, w - 1);
      var s := Pad(n, w);
      assert s[..|s| - 1] == Pad(n / 10, w - 1);
    }
  }

  lemma {:induction false} PadNum(s: string)
    requires AllDigits(s)
    ensures Num(s) < Pow10(|s|) && Pad(Num(s), |s|) == s
  {
    if s != [] {
      var init := s[..|s| - 1];
      PadNum(init);
      assert s == init + [s[|s| - 1]];
    }
  }

  /** Two equal-width paddings agree exactly when the numbers do. */
  lemma PadInjective(x: nat, y: nat, w: nat)
    requires x < Pow10(w) && y < Pow10(w)
    ensures Pad(x, w) == Pad(y, w) <==> x == y
  {
    if Pad(x, w) == Pad(y, w) {
      NumPad(x, w);
      NumPad(y, w);
    }
  }

  /** The string of a date in the form the app stores: `YYYY-MM-DD`. */
  function Iso(d: Date): (s: string)
    requires ValidDate(d) && 0 <= d.year <= 9999
    ensures |s| == 10
  {
    Pad(d.year, 4) + MonthDay(d.month, d.day)
  }

  /** The `-MM-DD` part of a date string. */
  function MonthDay(month: nat, day: nat): (s: string)
    ensures |s| == 6
  {
    ['-'] + (Pad(month, 2) + (['-'] + Pad(day, 2)))
  }

  /** Dates that have a `YYYY-MM-DD` form: real dates of years 0000..9999. */
  predicate Printable(d: Date) {
    ValidDate(d) && 0 <= d.year <= 9999
  }

  /** Reads a `YYYY-MM-DD` string; `None` for anything else, including
      impossible dates such as `2023-02-29`, which are not read as dates
      here (JavaScript engines differ on them). */
  function Parse(s: string): (r: Option<Date>)
    ensures r.Some? ==> Printable(r.value) && Iso(r.value) == s
  {
    if |s| == 10 && s[4] == '-' && s[7] == '-'
       && AllDigits(s[..4]) && AllDigits(s[5..7]) && AllDigits(s[8..])
    then
      var d := Date(Num(s[..4]), Num(s[5..7]), Num(s[8..]));
      if ValidDate(d) then
        IsoOfFields(s);
        Some(d)
      else None
    else None
  }

  /** A string of the `YYYY-MM-DD` shape is the string of the date its
      fields spell, when that is a real date. */
  lemma IsoOfFields(s: string)
    requires |s| == 10 && s[4] == '-' && s[7] == '-'
    requires AllDigits(s[..4]) && AllDigits(s[5..7]) && AllDigits(s[8..])
    requires ValidDate(Date(Num(s[..4]), Num(s[5..7]), Num(s[8..])))
    ensures Printable(Date(Num(s[..4]), Num(s[5..7]), Num(s[8..])))
    ensures Iso(Date(Num(s[..4]), Num(s[5..7]), Num(s[8..]))) == s
  {
    var y, m, d := s[..4], s[5..7], s[8..];
    PadNum(y);
    PadNum(m);
    PadNum(d);
    assert Pow10(4) == 10000;
    assert s == y + (['-'] + (m + (['-'] + d)));
  }

  /** Printing and then parsing gives the date back. */
  lemma ParseIso(d: Date)
    requires Printable(d)
    ensures Parse(Iso(d)) == Some(d)
  {
    var s := Iso(d);
    var y, m, dd := Pad(d.year, 4), Pad(d.month, 2), Pad(d.day, 2);
    assert s == y + (['-'] + (m + (['-'] + dd)));
    assert s[..4] == y && s[5..7] == m && s[8..] == dd;
    assert Pow10(4) == 10000 && Pow10(2) == 100;
    NumPad(d.year, 4);
    NumPad(d.month, 2);
    NumPad(d.day, 2);
  }

  lemma IsoInjective(a: Date, b: Date)
    requires Printable(a) && Printable(b)
    ensures Iso(a) == Iso(b) <==> a == b
  {
    if Iso(a) == Iso(b) {
      ParseIso(a);
      ParseIso(b);
    }
  }

  /** Strings in the order `Array.prototype.sort` uses without a comparator:
      code unit by code unit, a proper prefix first. */
  predicate LexLess(a: string, b: string)
    decreases |a|
  {
    if a == [] then b != []
    else if b == [] then false
    else a[0] < b[0] || (a[0] == b[0] && LexLess(a[1..], b[1..]))
  }

  lemma {:induction false} LexLessIrreflexive(a: string)
    ensures !LexLess(a, a)
    decreases |a|
  {
    if a != [] {
      LexLessIrreflexive(a[1..]);
    }
  }

  lemma {:induction false} LexLessTransitive(a: string, b: string, c: string)
    requires LexLess(a, b) && LexLess(b, c)
    ensures LexLess(a, c)
    decreases |a|
  {
    if a != [] && a[0] == b[0] && b[0] == c[0] {
      LexLessTransitive(a[1..], b[1..], c[1..]);
    }
  }

  lemma {:induction false} LexLessTotal(a: string, b: string)
    requires a != b
    ensures LexLess(a, b) != LexLess(b, a)
    decreases |a|
  {
    if a != [] && b != [] && a[0] == b[0] {
      assert a == [a[0]] + a[1..] && b == [b[0]] + b[1..];
      LexLessTotal(a[1..], b[1..]);
    }
  }

  /** Comparing fixed-width fields: the first field decides unless it is equal. */
  lemma {:induction false} LexLessConcat(p: string, q: string, p': string, q': string)
    requires |p| == |p'|
    ensures LexLess(p + q, p' + q') <==> LexLess(p, p') || (p == p' && LexLess(q, q'))
    decreases |p|
  {
    if p != [] {
      assert (p + q)[1..] == p[1..] + q;
      assert (p' + q')[1..] == p'[1..] + q';
      LexLessConcat(p[1..], q, p'[1..], q');
      if p[0] == p'[0] && p[1..] == p'[1..] {
        assert p == [p[0]] + p[1..] && p' == [p'[0]] + p'[1..];
      }
    } else {
      assert p + q == q && p' + q' == q';
    }
  }

  /** Zero-padded numbers of one width sort as the numbers do. */
  lemma {:induction false} PadOrder(x: nat, y: nat, w: nat)
    requires x < Pow10(w) && y < Pow10(w)
    ensures LexLess(Pad(x, w), Pad(y, w)) <==> x < y
  {
    if w == 0 {
      assert x == 0 && y == 0;
    } else {
      PadOrder(x / 10, y / 10, w - 1);
      PadInjective(x / 10, y / 10, w - 1);
      LexLessConcat(Pad(x / 10, w - 1), [Digit(x % 10)], Pad(y / 10, w - 1), [Digit(y % 10)]);
    }
  }

  /** A string that starts with `-` compares by what follows it. */
  lemma DashPrefix(x: string, y: string)
    ensures LexLess(['-'] + x, ['-'] + y) <==> LexLess(x, y)
  {
    assert (['-'] + x)[1..] == x && (['-'] + y)[1..] == y;
  }

  lemma MonthDayOrder(m: nat, d: nat, m': nat, d': nat)
    requires m < 100 && d < 100 && m' < 100 && d' < 100
    ensures LexLess(MonthDay(m, d), MonthDay(m', d')) <==> m < m' || (m == m' && d < d')
    ensures MonthDay(m, d) == MonthDay(m', d') <==> m == m' && d == d'
  {
    PadOrder(m, m', 2);
    PadOrder(d, d', 2);
    PadInjective(m, m', 2);
    PadInjective(d, d', 2);
    DashPrefix(Pad(d, 2), Pad(d', 2));
    DashPrefix(Pad(m, 2) + (['-'] + Pad(d, 2)), Pad(m', 2) + (['-'] + Pad(d', 2)));
    LexLessConcat(Pad(m, 2), ['-'] + Pad(d, 2), Pad(m', 2), ['-'] + Pad(d', 2));
    if MonthDay(m, d) == MonthDay(m', d') {
      assert MonthDay(m, d)[1..3] == Pad(m, 2) && MonthDay(m', d')[1..3] == Pad(m', 2);
      assert MonthDay(m, d)[4..] == Pad(d, 2) && MonthDay(m', d')[4..] == Pad(d', 2);
    }
  }

  /** The fixed-width `YYYY-MM-DD` form makes string order chronological order. */
  lemma IsoOrder(a: Date, b: Date)
    requires Printable(a) && Printable(b)
    ensures LexLess(Iso(a), Iso(b)) <==> DayNumber(a) < DayNumber(b)
  {
    PadOrder(a.year, b.year, 4);
    PadInjective(a.year, b.year, 4);
    MonthDayOrder(a.month, a.day, b.month, b.day);
    LexLessConcat(Pad(a.year, 4), MonthDay(a.month, a.day), Pad(b.year, 4), MonthDay(b.month, b.day));
    DayNumberOrder(a, b);
  }

  /** The last day that has a `YYYY-MM-DD` form is `MaxDay - 1` (9999-12-31). */
  const MaxDay: int := DaysBeforeYear(10000)

  lemma PrintableDayNumber(d: Date)
    requires ValidDate(d)
    ensures Printable(d) <==> 0 <= DayNumber(d) < MaxDay
  {
    if d.year < 0 {
      DaysBeforeYearMonotone(d.year + 1, 0);
    } else if d.year > 9999 {
      DaysBeforeYearMonotone(10000, d.year);
    } else {
      DaysBeforeYearMonotone(0, d.year);
      DaysBeforeYearMonotone(d.year + 1, 10000);
    }
  }

  /** The string the app uses for day number `n`. */
  function DayIso(n: int): (s: string)
    requires 0 <= n < MaxDay
    ensures |s| == 10
  {
    PrintableDayNumber(FromDayNumber(n));
    Iso(FromDayNumber(n))
  }

  /** Reading back the string of a day gives that day. */
  lemma ParseDayIso(n: int)
    requires 0 <= n < MaxDay
    ensures Parse(DayIso(n)) == Some(FromDayNumber(n))
  {
    PrintableDayNumber(FromDayNumber(n));
    ParseIso(FromDayNumber(n));
  }

  /** Distinct days have distinct strings. */
  lemma DayIsoInjective(a: int, b: int)
    requires 0 <= a < MaxDay && 0 <= b < MaxDay
    ensures DayIso(a) == DayIso(b) <==> a == b
  {
    ParseDayIso(a);
    ParseDayIso(b);
  }

  /** The day number of a well-formed date string. */
  function DayOf(s: string): (n: int)
    requires Parse(s).Some?
    ensures 0 <= n < MaxDay
  {
    PrintableDayNumber(Parse(s).value);
    DayNumber(Parse(s).value)
  }

  /** The string of the day of `s` is `s` itself. */
  lemma DayIsoOf(s: string)
    requires Parse(s).Some?
    ensures DayIso(DayOf(s)) == s
  {
    var d := Parse(s).value;
    PrintableDayNumber(d);
    DayNumberRoundTrip(d);
    assert DayIso(DayNumber(d)) == Iso(d);
  }

  /** String order on well-formed date strings is day order. */
  lemma DayOfOrder(a: string, b: string)
    requires Parse(a).Some? && Parse(b).Some?
    ensures LexLess(a, b) <==> DayOf(a) < DayOf(b)
  {
    IsoOrder(Parse(a).value, Parse(b).value);
  }

  /** The days one string stands for: its day if it is well formed, none otherwise. */
  ghost function StringDays(s: string): (days: set<int>)
    ensures |days| <= 1
  {
    if Parse(s).Some? then {DayOf(s)} else {}
  }

  lemma InStringDays(s: string, n: int)
    ensures n in StringDays(s) <==> 0 <= n < MaxDay && DayIso(n) == s
  {
    if Parse(s).Some? {
      DayIsoOf(s);
    }
    if 0 <= n < MaxDay && DayIso(n) == s {
      ParseDayIso(n);
      DayIsoInjective(DayOf(s), n);
    }
  }

  /** The days a set of strings stands for: its well-formed members read as
      day numbers (a malformed member stands for no day). */
  ghost function DaySet(ticks: set<string>): (days: set<int>)
    decreases |ticks|
  {
    if ticks == {} then {}
    else
      var s :| s in ticks;
      StringDays(s) + DaySet(ticks - {s})
  }

  /** A non-empty set of strings splits into one member and the rest. */
  lemma DaySetSplit(ticks: set<string>) returns (s: string)
    requires ticks != {}
    ensures s in ticks && DaySet(ticks) == StringDays(s) + DaySet(ticks - {s})
  {
    s :| s in ticks && DaySet(ticks) == StringDays(s) + DaySet(ticks - {s});
  }

  /** A day is in the set of days exactly when its string is a member. */
  lemma {:induction false} InDaySet(ticks: set<string>, n: int)
    ensures n in DaySet(ticks) <==> 0 <= n < MaxDay && DayIso(n) in ticks
    decreases |ticks|
  {
    if ticks != {} {
      var s := DaySetSplit(ticks);
      InDaySet(ticks - {s}, n);
      InStringDays(s, n);
    }
  }

  /** A day outside the set of days is not ticked. */
  lemma NotInDaySet(ticks: set<string>, n: int)
    requires n !in DaySet(ticks)
    ensures !(0 <= n < MaxDay && DayIso(n) in ticks)
  {
    InDaySet(ticks, n);
  }

  /** Each member gives at most one day, so there are no more days than strings. */
  lemma {:induction false} DaySetSize(ticks: set<string>)
    ensures |DaySet(ticks)| <= |ticks|
    decreases |ticks|
  {
    if ticks != {} {
      var s := DaySetSplit(ticks);
      var one, rest := StringDays(s), DaySet(ticks - {s});
      DaySetSize(ticks - {s});
      assert |one + rest| + |one * rest| == |one| + |rest|;
    }
  }

  /** Adding the string of day `n` adds exactly day `n`. */
  lemma DaySetAdd(ticks: set<string>, n: int)
    requires 0 <= n < MaxDay
    ensures DaySet(ticks + {DayIso(n)}) == DaySet(ticks) + {n}
  {
    forall m | m in DaySet(ticks + {DayIso(n)})
      ensures m in DaySet(ticks) + {n}
    {
      InDaySet(ticks + {DayIso(n)}, m);
      InDaySet(ticks, m);
      DayIsoInjective(m, n);
    }
    forall m | m in DaySet(ticks) + {n}
      ensures m in DaySet(ticks + {DayIso(n)})
    {
      InDaySet(ticks + {DayIso(n)}, m);
      InDaySet(ticks, m);
    }
  }

  /** Removing the string of day `n` removes exactly day `n`. */
  lemma DaySetRemove(ticks: set<string>, n: int)
    requires 0 <= n < MaxDay
    ensures DaySet(ticks - {DayIso(n)}) == DaySet(ticks) - {n}
  {
    forall m | m in DaySet(ticks - {DayIso(n)})
      ensures m in DaySet(ticks) - {n}
    {
      InDaySet(ticks - {DayIso(n)}, m);
      InDaySet(ticks, m);
    }
    forall m | m in DaySet(ticks) - {n}
      ensures m in DaySet(ticks - {DayIso(n)})
    {
      InDaySet(ticks - {DayIso(n)}, m);
      InDaySet(ticks, m);
      DayIsoInjective(m, n);
    }
  }

  /** `ticks.has(iso)`, with `iso` the `YYYY-MM-DD` string of day `d`:
      is that string in the set? */
  method HasDay(ticks: set<string>, d: int) returns (t: bool)
    ensures t <==> d in DaySet(ticks)
  {
    InDaySet(ticks, d);
    t := 0 <= d < MaxDay && DayIso(d) in ticks;
  }
}
