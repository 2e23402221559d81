/** Timestamps as text, and the order of the names of update logs
    (src/modules/catalog.py, the datetime functions). */
module Timestamps {
  import opened Common
  import opened Versions
  import opened CatalogParts
  import opened UpdateLogs
  import opened Syncs

  // ------------------------------------------------------------------- digits

  function Digit(n: nat): char
    requires n < 10
  {
    '0' + n as char
  }

  function Pow10(w: nat): (r: nat)
    ensures r > 0
  {
    if w == 0 then 1 else 10 * Pow10(w - 1)
  }

  /** The last `w` decimal digits of `n`, zero-padded. */
  function Digits(n: nat, w: nat): (r: string)
    ensures |r| == w
  {
    if w == 0 then "" else Digits(n / 10, w - 1) + [Digit(n % 10)]
  }

  predicate IsDigit(c: char) {
    '0' <= c <= '9'
  }

  /** `int()` of a text of decimal digits; None for its ValueError. */
  function ParseInt(s: string): Option<nat> {
    if s == "" || !IsDigit(Last(s)) then None
    else if |s| == 1 then Some((Last(s) - '0') as nat)
    else match ParseInt(Front(s))
         case None => None
         case Some(n) => Some(n * 10 + (Last(s) - '0') as nat)
  }

  lemma {:induction false} DigitsOnly(n: nat, w: nat)
    ensures forall i :: 0 <= i < w ==> IsDigit(Digits(n, w)[i])
  {
    if w > 0 { DigitsOnly(n / 10, w - 1); }
  }

  lemma {:induction false} ParseDigits(n: nat, w: nat)
    requires w > 0 && n < Pow10(w)
    ensures ParseInt(Digits(n, w)) == Some(n)
  {
    var s := Digits(n, w);
    assert Front(s) == Digits(n / 10, w - 1) && Last(s) == Digit(n % 10);
    if w > 1 { ParseDigits(n / 10, w - 1); }
  }

  lemma OneCode(c: char, d: char)
    ensures LexLess(Codes([c]), Codes([d])) <==> c < d
    ensures [c] == [d] <==> c == d
  {
    if [c] == [d] { assert [c][0] == [d][0]; }
  }

  lemma CodesConcat(s: string, t: string)
    ensures Codes(s + t) == Codes(s) + Codes(t)
  {
  }

  lemma SameText(a: string, x: string, b: string, y: string)
    requires |a| == |b|
    ensures a + x == b + y <==> a == b && x == y
  {
    if a + x == b + y {
      assert a == (a + x)[..|a|] == (b + y)[..|b|] == b;
      assert x == (a + x)[|a|..] == (b + y)[|b|..] == y;
    }
  }

  /** Texts whose first parts are equally long are ordered by those, then by the rest. */
  lemma {:induction false} LexConcat(a: seq<nat>, x: seq<nat>, b: seq<nat>, y: seq<nat>)
    requires |a| == |b|
    ensures LexLess(a + x, b + y) <==> LexLess(a, b) || (a == b && LexLess(x, y))
  {
    if a == [] {
      assert a + x == x && b + y == y;
    } else {
      LexConcat(a[1..], x, b[1..], y);
      assert (a + x)[1..] == a[1..] + x && (b + y)[1..] == b[1..] + y;
      if a[0] == b[0] { assert a == [a[0]] + a[1..] && b == [b[0]] + b[1..]; }
    }
  }

  /** Padded to the same width, numbers and their texts are in the same order. */
  lemma {:induction false} DigitsOrder(a: nat, b: nat, w: nat)
    requires a < Pow10(w) && b < Pow10(w)
    ensures LexLess(Codes(Digits(a, w)), Codes(Digits(b, w))) <==> a < b
    ensures Digits(a, w) == Digits(b, w) <==> a == b
  {
    if w > 0 {
      DigitsOrder(a / 10, b / 10, w - 1);
      var x, y := Digits(a / 10, w - 1), Digits(b / 10, w - 1);
      CodesConcat(x, [Digit(a % 10)]);
      CodesConcat(y, [Digit(b % 10)]);
      OneCode(Digit(a % 10), Digit(b % 10));
      LexConcat(Codes(x), Codes([Digit(a % 10)]), Codes(y), Codes([Digit(b % 10)]));
      SameText(x, [Digit(a % 10)], y, [Digit(b % 10)]);
      if Codes(x) == Codes(y) { CodesInjective(x, y); }
    }
  }

  // ---------------------------------------------------------------- date and time

  datatype DateTime = DateTime(year: nat, month: nat, day: nat, hour: nat, minute: nat, sec: nat, usec: nat)

  predicate Leap(y: nat) {
    y % 4 == 0 && (y % 100 != 0 || y % 400 == 0)
  }

  function DaysIn(y: nat, m: nat): (r: nat)
    ensures 28 <= r <= 31
  {
    if m == 2 then if Leap(y) then 29 else 28
    else if m == 4 || m == 6 || m == 9 || m == 11 then 30 else 31
  }

  /** What `datetime.datetime` accepts. */
  predicate ValidDate(d: DateTime) {
    && 1 <= d.year <= 9999 && 1 <= d.month <= 12 && 1 <= d.day <= DaysIn(d.year, d.month)
    && d.hour < 24 && d.minute < 60 && d.sec < 60 && d.usec < 1_000_000
  }

  /** The dates that there are: February has 29 days in every fourth year but for three
      in four centuries. */
  lemma DatesAre(d: DateTime)
    ensures ValidDate(d) <==>
            && 0 < d.year < 10000 && 0 < d.month < 13 && d.hour <= 23 && d.minute <= 59 && d.sec <= 59
            && d.usec <= 999_999 && d.day > 0
            && d.day <= [31, 28, 31, 30, 31, 30, 31, 31, 30, 31, 30, 31][d.month - 1] +
                        (if d.month == 2 && d.year % 4 == 0 && (d.year % 100 == 0 ==> d.year % 400 == 0) then 1 else 0)
  {
  }

  /** Three texts with a separator between them. */
  function Separated(a: string, b: string, e: string, c: char): string {
    a + [c] + b + [c] + e
  }

  function Fraction(d: DateTime): string {
    if d.usec == 0 then "" else "." + Digits(d.usec, 6)
  }

  /** `isoformat()` of a datetime without time zone. */
  function IsoFormat(d: DateTime): string {
    Separated(Digits(d.year, 4), Digits(d.month, 2), Digits(d.day, 2), '-') + "T" +
    (Separated(Digits(d.hour, 2), Digits(d.minute, 2), Digits(d.sec, 2), ':') + Fraction(d))
  }

  /** `s.replace(c, "")`. */
  function Remove(s: string, c: char): string {
    if s == "" then "" else Remove(Front(s), c) + if Last(s) == c then "" else [Last(s)]
  }

  /** `s.rsplit(c, n)[0]`: what is left of `s` when its last `n` occurrences of `c`,
      with all that follows, are cut off. */
  function RSplitHead(s: string, c: char, n: nat): string
    decreases n, |s|
  {
    if n == 0 || c !in s then s
    else if Last(s) == c then RSplitHead(Front(s), c, n - 1)
    else RSplitHead(Front(s), c, n)
  }

  function ToTs(d: DateTime): string {
    IsoFormat(d)
  }

  function ToBasicTs(d: DateTime): string {
    Remove(Remove(IsoFormat(d), '-'), ':') + "Z"
  }

  function ToUpdateTs(d: DateTime): string {
    Remove(RSplitHead(Remove(IsoFormat(d), '-'), ':', 2), ':') + "Z"
  }

  /** A Python slice, cut off at the end of the text. */
  function Slice(s: string, lo: nat, hi: nat): string {
    if lo >= |s| || lo >= hi then "" else s[lo..Min(hi, |s|)]
  }

  /** A datetime of the fields given; None for a ValueError.  Microseconds that are not a number are taken as zero. */
  function FromFields(year: string, month: string, day: string, hour: string, minute: string, sec: string,
      usec: string): Option<DateTime>
  {
    var y, mo, d := ParseInt(year), ParseInt(month), ParseInt(day);
    var h, mi, s := ParseInt(hour), ParseInt(minute), ParseInt(sec);
    if y.None? || mo.None? || d.None? || h.None? || mi.None? || s.None? then None
    else
      var us := ParseInt(usec);
      var dt := DateTime(y.value, mo.value, d.value, h.value, mi.value, s.value, if us.None? then 0 else us.value);
      if ValidDate(dt) then Some(dt) else None
  }

  function FromTs(ts: string): Option<DateTime> {
    FromFields(Slice(ts, 0, 4), Slice(ts, 5, 7), Slice(ts, 8, 10), Slice(ts, 11, 13), Slice(ts, 14, 16),
      Slice(ts, 17, 19), Slice(ts, 20, 26))
  }

  function FromBasicTs(ts: string): Option<DateTime> {
    FromFields(Slice(ts, 0, 4), Slice(ts, 4, 6), Slice(ts, 6, 8), Slice(ts, 9, 11), Slice(ts, 11, 13),
      Slice(ts, 13, 15), Slice(ts, 16, 22))
  }

  // ------------------------------------------------------------------ the texts

  lemma {:induction false} RemoveConcat(s: string, t: string, c: char)
    ensures Remove(s + t, c) == Remove(s, c) + Remove(t, c)
  {
    if t == "" {
      assert s + t == s;
    } else {
      assert Front(s + t) == s + Front(t) && Last(s + t) == Last(t);
      RemoveConcat(s, Front(t), c);
    }
  }

  lemma FrontLast(s: string)
    requires s != ""
    ensures Front(s) + [Last(s)] == s
  {
  }

  lemma {:induction false} RemoveNone(s: string, c: char)
    requires c !in s
    ensures Remove(s, c) == s
  {
    if s != "" {
      assert Last(s) in s;
      assert Remove(s, c) == Remove(Front(s), c) + [Last(s)];
      hide *;
      RemoveNone(Front(s), c);
      FrontLast(s);
    }
  }

  lemma AddEmpty(s: string)
    ensures s + "" == s
  {
  }

  lemma RemoveSelf(c: char)
    ensures Remove([c], c) == ""
  {
    assert Front([c]) == "";
  }

  lemma RemoveSeparator(s: string, c: char, t: string)
    requires c !in s
    ensures Remove(s + [c] + t, c) == s + Remove(t, c)
  {
    RemoveSelf(c);
    RemoveNone(s, c);
    hide *;
    calc {
      Remove(s + [c] + t, c);
      { RemoveConcat(s + [c], t, c); }
      Remove(s + [c], c) + Remove(t, c);
      { RemoveConcat(s, [c], c); }
      (s + "") + Remove(t, c);
      { AddEmpty(s); }
      s + Remove(t, c);
    }
  }

  lemma Assoc(a: string, b: string, c: string)
    ensures a + (b + c) == a + b + c
  {
  }

  lemma RemoveSeparators(a: string, b: string, e: string, c: char)
    requires c !in a && c !in b && c !in e
    ensures Remove(Separated(a, b, e, c), c) == a + b + e
  {
    RemoveSeparator(a, c, b + [c] + e);
    RemoveSeparator(b, c, e);
    RemoveNone(e, c);
    hide Remove;
    assert Separated(a, b, e, c) == a + [c] + (b + [c] + e);
  }

  lemma NotInDigits(n: nat, w: nat, c: char)
    requires !IsDigit(c)
    ensures c !in Digits(n, w)
  {
    DigitsOnly(n, w);
  }

  lemma {:induction false} RSplitAt(s: string, t: string, c: char, n: nat)
    requires c !in t
    ensures RSplitHead(s + [c] + t, c, n + 1) == RSplitHead(s, c, n)
  {
    var whole := s + [c] + t;
    assert whole[|s|] == c;
    if t == "" {
      assert whole == s + [c];
      assert Front(whole) == s && Last(whole) == c;
    } else {
      assert Front(whole) == s + [c] + Front(t) && Last(whole) == Last(t);
      assert Last(t) in t;
      RSplitAt(s, Front(t), c, n);
    }
  }

  function Clock(d: DateTime): string {
    Separated(Digits(d.hour, 2), Digits(d.minute, 2), Digits(d.sec, 2), ':')
  }

  function DateText(d: DateTime): string {
    Digits(d.year, 4) + Digits(d.month, 2) + Digits(d.day, 2)
  }

  lemma NotInFields(d: DateTime, c: char)
    requires !IsDigit(c)
    ensures c !in DateText(d) && (c != '.' ==> c !in Fraction(d)) && (c != ':' ==> c !in Clock(d))
    ensures c !in Digits(d.hour, 2) && c !in Digits(d.minute, 2) && c !in Digits(d.sec, 2)
    ensures c !in Digits(d.year, 4) && c !in Digits(d.month, 2) && c !in Digits(d.day, 2)
  {
    NotInDigits(d.year, 4, c); NotInDigits(d.month, 2, c); NotInDigits(d.day, 2, c);
    NotInDigits(d.hour, 2, c); NotInDigits(d.minute, 2, c); NotInDigits(d.sec, 2, c);
    NotInDigits(d.usec, 6, c);
  }

  /** The extended format without the hyphens. */
  lemma WithoutHyphens(d: DateTime)
    ensures Remove(IsoFormat(d), '-') == DateText(d) + "T" + (Clock(d) + Fraction(d))
  {
    NotInFields(d, '-');
    hide Digits, Remove, Separated, Fraction;
    var date := Separated(Digits(d.year, 4), Digits(d.month, 2), Digits(d.day, 2), '-');
    RemoveSeparators(Digits(d.year, 4), Digits(d.month, 2), Digits(d.day, 2), '-');
    RemoveConcat(date, "T" + (Clock(d) + Fraction(d)), '-');
    RemoveNone("T" + (Clock(d) + Fraction(d)), '-');
    assert IsoFormat(d) == date + ("T" + (Clock(d) + Fraction(d)));
  }

  /** The basic format: date, "T", time of day, fraction and "Z", without separators. */
  lemma BasicText(d: DateTime)
    ensures ToBasicTs(d) == DateText(d) + "T" + (Digits(d.hour, 2) + Digits(d.minute, 2) + Digits(d.sec, 2)) +
            Fraction(d) + "Z"
  {
    NotInFields(d, ':');
    WithoutHyphens(d);
    RemoveSeparators(Digits(d.hour, 2), Digits(d.minute, 2), Digits(d.sec, 2), ':');
    hide Digits, Remove, Separated, Fraction, IsoFormat, DateText;
    var a, cl, f := DateText(d) + "T", Clock(d), Fraction(d);
    var time := Digits(d.hour, 2) + Digits(d.minute, 2) + Digits(d.sec, 2);
    RemoveConcat(a, cl + f, ':');
    RemoveConcat(cl, f, ':');
    RemoveNone(a, ':');
    RemoveNone(f, ':');
    Assoc(a, time, f);
  }

  lemma ColonFree(d: DateTime)
    ensures ':' !in DateText(d) + "T" + Digits(d.hour, 2) && ':' !in Digits(d.minute, 2)
            && ':' !in Digits(d.sec, 2) + Fraction(d)
  {
    NotInFields(d, ':');
    hide Digits, DateText, Fraction;
  }

  lemma ToUpdate(d: DateTime, text: string, a: string)
    requires Remove(IsoFormat(d), '-') == text && RSplitHead(text, ':', 2) == a && Remove(a, ':') == a
    ensures ToUpdateTs(d) == a + "Z"
  {
  }

  lemma RSplitNone(s: string, c: char)
    ensures RSplitHead(s, c, 0) == s
  {
  }

  lemma ClockText(t: string, h: string, mi: string, s: string, f: string)
    ensures t + (Separated(h, mi, s, ':') + f) == ((t + h) + [':'] + mi) + [':'] + (s + f)
  {
  }

  /** The partial format ends after the hour. */
  lemma UpdateText(d: DateTime)
    ensures ToUpdateTs(d) == DateText(d) + "T" + Digits(d.hour, 2) + "Z"
  {
    ColonFree(d);
    WithoutHyphens(d);
    ClockText(DateText(d) + "T", Digits(d.hour, 2), Digits(d.minute, 2), Digits(d.sec, 2), Fraction(d));
    assert Clock(d) == Separated(Digits(d.hour, 2), Digits(d.minute, 2), Digits(d.sec, 2), ':');
    hide *;
    var a, mi, s := DateText(d) + "T" + Digits(d.hour, 2), Digits(d.minute, 2), Digits(d.sec, 2) + Fraction(d);
    var text := (a + [':'] + mi) + [':'] + s;
    calc {
      RSplitHead(text, ':', 2);
      { RSplitAt(a + [':'] + mi, s, ':', 1); }
      RSplitHead(a + [':'] + mi, ':', 1);
      { RSplitAt(a, mi, ':', 0); }
      RSplitHead(a, ':', 0);
      { RSplitNone(a, ':'); }
      a;
    }
    RemoveNone(a, ':');
    ToUpdate(d, text, a);
  }

  // --------------------------------------------------------------- round trips

  lemma SliceMiddle(a: string, b: string, c: string)
    requires b != ""
    ensures Slice(a + b + c, |a|, |a| + |b|) == b
  {
    assert (a + b + c)[|a|..|a| + |b|] == b;
  }

  /** A text cut after its first `|a|` characters is read on from there. */
  lemma SliceBehind(a: string, b: string, lo: nat, hi: nat)
    ensures Slice(a + b, |a| + lo, |a| + hi) == Slice(b, lo, hi)
  {
    if lo < |b| && lo < hi {
      assert (a + b)[|a| + lo..|a| + Min(hi, |b|)] == b[lo..Min(hi, |b|)];
    }
  }

  /** Three texts of given lengths, one after the other. */
  lemma SliceThree(a: string, b: string, e: string, rest: string)
    requires a != "" && b != "" && e != ""
    ensures var s := a + b + e + rest;
            && Slice(s, 0, |a|) == a && Slice(s, |a|, |a| + |b|) == b && Slice(s, |a| + |b|, |a| + |b| + |e|) == e
            && s[|a| + |b| + |e|..] == rest
  {
    assert a + b + e + rest == "" + a + (b + e + rest) == a + b + (e + rest);
    SliceMiddle("", a, b + e + rest);
    SliceMiddle(a, b, e + rest);
    SliceMiddle(a + b, e, rest);
  }

  lemma SliceSeparated(a: string, b: string, e: string, c: char, rest: string)
    requires a != "" && b != "" && e != ""
    ensures var s := Separated(a, b, e, c) + rest;
            && Slice(s, 0, |a|) == a && Slice(s, |a| + 1, |a| + 1 + |b|) == b
               && Slice(s, |a| + |b| + 2, |a| + |b| + 2 + |e|) == e
            && s[|a| + |b| + |e| + 2..] == rest
  {
    var s := Separated(a, b, e, c) + rest;
    assert s == "" + a + ([c] + b + [c] + e + rest) == (a + [c]) + b + ([c] + e + rest);
    SliceMiddle("", a, [c] + b + [c] + e + rest);
    SliceMiddle(a + [c], b, [c] + e + rest);
    SliceMiddle(a + [c] + b + [c], e, rest);
  }

  lemma Powers()
    ensures Pow10(2) == 100 && Pow10(4) == 10_000 && Pow10(6) == 1_000_000
  {
    assert Pow10(3) == 1000 && Pow10(5) == 100_000;
  }

  /** What the fields of a valid datetime read as. */
  lemma FieldsParse(d: DateTime)
    requires ValidDate(d)
    ensures ParseInt(Digits(d.year, 4)) == Some(d.year) && ParseInt(Digits(d.month, 2)) == Some(d.month)
            && ParseInt(Digits(d.day, 2)) == Some(d.day)
    ensures ParseInt(Digits(d.hour, 2)) == Some(d.hour) && ParseInt(Digits(d.minute, 2)) == Some(d.minute)
            && ParseInt(Digits(d.sec, 2)) == Some(d.sec)
    ensures ParseInt(Digits(d.usec, 6)) == Some(d.usec)
  {
    Powers();
    hide Digits, ParseInt, Pow10;
    ParseDigits(d.year, 4); ParseDigits(d.month, 2); ParseDigits(d.day, 2);
    ParseDigits(d.hour, 2); ParseDigits(d.minute, 2); ParseDigits(d.sec, 2); ParseDigits(d.usec, 6);
  }

  /** The microseconds, from the text that follows the seconds. */
  lemma FractionParses(d: DateTime, tail: string)
    requires ValidDate(d) && (tail == "" || tail == "Z")
    ensures var us := ParseInt(Slice(Fraction(d) + tail, 1, 7)); (if us.None? then 0 else us.value) == d.usec
  {
    FieldsParse(d);
    if d.usec > 0 {
      var s := Fraction(d) + tail;
      assert s == "." + Digits(d.usec, 6) + tail;
      SliceMiddle(".", Digits(d.usec, 6), tail);
    }
  }

  lemma BasicSlices(y: string, mo: string, d: string, h: string, mi: string, s: string, f: string, ts: string)
    requires |y| == 4 && |mo| == |d| == |h| == |mi| == |s| == 2
    requires ts == y + mo + d + "T" + (h + mi + s) + f + "Z"
    ensures Slice(ts, 0, 4) == y && Slice(ts, 4, 6) == mo && Slice(ts, 6, 8) == d
    ensures Slice(ts, 9, 11) == h && Slice(ts, 11, 13) == mi && Slice(ts, 13, 15) == s
    ensures Slice(ts, 16, 22) == Slice(f + "Z", 1, 7)
  {
    hide Slice;
    var date, clock := y + mo + d + "T", h + mi + s + (f + "Z");
    assert ts == y + mo + d + ("T" + clock) == date + clock == (date + (h + mi + s)) + (f + "Z");
    SliceThree(y, mo, d, "T" + clock);
    SliceThree(h, mi, s, f + "Z");
    SliceBehind(date, clock, 0, 2);
    SliceBehind(date, clock, 2, 4);
    SliceBehind(date, clock, 4, 6);
    SliceBehind(date + (h + mi + s), f + "Z", 1, 7);
  }

  /** The basic format read back gives the datetime that was written. */
  lemma BasicRoundTrip(d: DateTime)
    requires ValidDate(d)
    ensures FromBasicTs(ToBasicTs(d)) == Some(d)
  {
    BasicText(d);
    FieldsParse(d);
    FractionParses(d, "Z");
    var y, mo, dd, h, mi, s := Digits(d.year, 4), Digits(d.month, 2), Digits(d.day, 2), Digits(d.hour, 2),
      Digits(d.minute, 2), Digits(d.sec, 2);
    hide Digits, ParseInt, Fraction, ToBasicTs, Slice, ValidDate;
    BasicSlices(y, mo, dd, h, mi, s, Fraction(d), ToBasicTs(d));
  }

  lemma Regroup(a: string, b: string, c: string, d: string)
    ensures a + b + (c + d) == a + (b + (c + d)) == (a + b + c) + d
  {
  }

  lemma ExtendedSlices(y: string, mo: string, d: string, h: string, mi: string, s: string, f: string, ts: string)
    requires |y| == 4 && |mo| == |d| == |h| == |mi| == |s| == 2
    requires ts == Separated(y, mo, d, '-') + "T" + (Separated(h, mi, s, ':') + f)
    ensures Slice(ts, 0, 4) == y && Slice(ts, 5, 7) == mo && Slice(ts, 8, 10) == d
    ensures Slice(ts, 11, 13) == h && Slice(ts, 14, 16) == mi && Slice(ts, 17, 19) == s
    ensures Slice(ts, 20, 26) == Slice(f, 1, 7)
  {
    var date, clock := Separated(y, mo, d, '-'), Separated(h, mi, s, ':');
    assert |date| == 10 && |clock| == 8;
    Regroup(date, "T", clock, f);
    hide *;
    SliceSeparated(y, mo, d, '-', "T" + (clock + f));
    SliceSeparated(h, mi, s, ':', f);
    SliceBehind(date + "T", clock + f, 0, 2);
    SliceBehind(date + "T", clock + f, 3, 5);
    SliceBehind(date + "T", clock + f, 6, 8);
    SliceBehind(date + "T" + clock, f, 1, 7);
  }

  /** The extended format read back gives the datetime that was written. */
  lemma ExtendedRoundTrip(d: DateTime)
    requires ValidDate(d)
    ensures FromTs(ToTs(d)) == Some(d)
  {
    FieldsParse(d);
    FractionParses(d, "");
    AddEmpty(Fraction(d));
    var y, mo, dd, h, mi, s := Digits(d.year, 4), Digits(d.month, 2), Digits(d.day, 2), Digits(d.hour, 2),
      Digits(d.minute, 2), Digits(d.sec, 2);
    hide Digits, ParseInt, Fraction, Slice, ValidDate, Separated;
    ExtendedSlices(y, mo, dd, h, mi, s, Fraction(d), ToTs(d));
  }

  // --------------------------------------------------------- hours and their order

  /** The days before the first of January of year `y`. */
  function DaysToYear(y: nat): nat {
    if y <= 1 then 0 else DaysToYear(y - 1) + if Leap(y - 1) then 366 else 365
  }

  function DaysToMonth(y: nat, m: nat): nat {
    if m <= 1 then 0 else DaysToMonth(y, m - 1) + DaysIn(y, m - 1)
  }

  /** Hours since the beginning of the calendar. */
  function HourIndex(d: DateTime): nat
    requires ValidDate(d)
  {
    (DaysToYear(d.year) + DaysToMonth(d.year, d.month) + (d.day - 1)) * 24 + d.hour
  }

  /** The days before a date by the rule of the calendar: no sum over years or months. */
  ghost function DaysBefore(d: DateTime): int
    requires ValidDate(d)
  {
    var y := d.year - 1;
    365 * y + y / 4 - y / 100 + y / 400 + [0, 31, 59, 90, 120, 151, 181, 212, 243, 273, 304, 334][d.month - 1] +
    (if d.month > 2 && d.year / 4 - y / 4 - d.year / 100 + y / 100 + d.year / 400 - y / 400 == 1 then 1 else 0) +
    d.day - 1
  }

  /** A leap year is one in which that rule counts a day more. */
  lemma LeapCounts(y: nat)
    requires y > 0
    ensures y / 4 - (y - 1) / 4 - y / 100 + (y - 1) / 100 + y / 400 - (y - 1) / 400 == if Leap(y) then 1 else 0
  {
    assert y / 4 - (y - 1) / 4 == if y % 4 == 0 then 1 else 0;
    assert y / 100 - (y - 1) / 100 == if y % 100 == 0 then 1 else 0;
    assert y / 400 - (y - 1) / 400 == if y % 400 == 0 then 1 else 0;
    assert y % 400 == 0 ==> y % 100 == 0;
    assert y % 100 == 0 ==> y % 4 == 0;
  }

  lemma {:induction false} YearsBefore(y: nat)
    requires y > 0
    ensures DaysToYear(y) == 365 * (y - 1) + (y - 1) / 4 - (y - 1) / 100 + (y - 1) / 400
  {
    if y > 1 {
      YearsBefore(y - 1);
      LeapCounts(y - 1);
      hide Leap;
    }
  }

  lemma MonthsBefore(y: nat, m: nat)
    requires 1 <= m <= 12
    ensures DaysToMonth(y, m) == [0, 31, 59, 90, 120, 151, 181, 212, 243, 273, 304, 334][m - 1] +
                                 if m > 2 && Leap(y) then 1 else 0
  {
    var f := DaysIn(y, 2);
    assert DaysToMonth(y, 2) == 31;
    assert DaysToMonth(y, 3) == 31 + f;
    assert DaysToMonth(y, 5) == DaysToMonth(y, 3) + 61;
    assert DaysToMonth(y, 7) == DaysToMonth(y, 5) + 61;
    assert DaysToMonth(y, 9) == DaysToMonth(y, 7) + 62;
    assert DaysToMonth(y, 11) == DaysToMonth(y, 9) + 61;
  }

  /** The hours that are counted are those of the calendar. */
  lemma HourIndexIs(d: DateTime)
    requires ValidDate(d)
    ensures HourIndex(d) == DaysBefore(d) * 24 + d.hour
  {
    YearsBefore(d.year);
    MonthsBefore(d.year, d.month);
    LeapCounts(d.year);
    hide DaysToYear, DaysToMonth, Leap, DaysIn;
  }

  /** Microseconds since the beginning of the calendar. */
  function Microseconds(d: DateTime): nat
    requires ValidDate(d)
  {
    ((HourIndex(d) * 60 + d.minute) * 60 + d.sec) * 1_000_000 + d.usec
  }

  lemma HourOfMicroseconds(d: DateTime)
    requires ValidDate(d)
    ensures HourOf(Microseconds(d)) == HourIndex(d)
  {
    hide HourIndex;
    var h, rest := HourIndex(d), (d.minute * 60 + d.sec) * 1_000_000 + d.usec;
    assert Microseconds(d) == h * HOUR + rest && 0 <= rest < HOUR;
  }

  lemma {:induction false} LaterMonth(y: nat, m: nat, m': nat)
    requires 1 <= m < m'
    ensures DaysToMonth(y, m) + DaysIn(y, m) <= DaysToMonth(y, m')
  {
    hide DaysIn;
    if m + 1 < m' { LaterMonth(y, m, m' - 1); }
  }

  lemma {:induction false} MonthsOfYear(y: nat, m: nat)
    requires 1 <= m <= 12
    ensures DaysToMonth(y, m) + DaysIn(y, m) <= (if Leap(y) then 366 else 365)
  {
    var f := DaysIn(y, 2);
    assert DaysToMonth(y, 2) == 31;
    assert DaysToMonth(y, 3) == 31 + f;
    assert DaysToMonth(y, 5) == DaysToMonth(y, 3) + 61;
    assert DaysToMonth(y, 7) == DaysToMonth(y, 5) + 61;
    assert DaysToMonth(y, 9) == DaysToMonth(y, 7) + 62;
    assert DaysToMonth(y, 11) == DaysToMonth(y, 9) + 61;
    assert DaysToMonth(y, 12) + 31 == DaysToMonth(y, 11) + 61;
    if m < 12 { LaterMonth(y, m, 12); }
  }

  lemma {:induction false} LaterYear(y: nat, y': nat)
    requires 1 <= y < y'
    ensures DaysToYear(y) + (if Leap(y) then 366 else 365) <= DaysToYear(y')
  {
    hide Leap;
    if y + 1 < y' { LaterYear(y, y' - 1); }
  }

  /** `a` is of an earlier date and hour than `b`. */
  predicate EarlierHour(a: DateTime, b: DateTime) {
    if a.year != b.year then a.year < b.year
    else if a.month != b.month then a.month < b.month
    else if a.day != b.day then a.day < b.day
    else a.hour < b.hour
  }

  lemma EarlierIsLess(a: DateTime, b: DateTime)
    requires ValidDate(a) && ValidDate(b) && EarlierHour(a, b)
    ensures HourIndex(a) < HourIndex(b)
  {
    hide DaysToYear, DaysToMonth, Leap, DaysIn;
    MonthsOfYear(a.year, a.month);
    if a.year < b.year { LaterYear(a.year, b.year); }
    else if a.month < b.month { LaterMonth(a.year, a.month, b.month); }
  }

  predicate SameHour(a: DateTime, b: DateTime) {
    a.year == b.year && a.month == b.month && a.day == b.day && a.hour == b.hour
  }

  /** The calendar's order is that of the hours counted. */
  lemma HourOrder(a: DateTime, b: DateTime)
    requires ValidDate(a) && ValidDate(b)
    ensures EarlierHour(a, b) <==> HourIndex(a) < HourIndex(b)
    ensures SameHour(a, b) <==> HourIndex(a) == HourIndex(b)
  {
    if EarlierHour(a, b) { EarlierIsLess(a, b); }
    if EarlierHour(b, a) { EarlierIsLess(b, a); }
  }

  // ------------------------------------------------------------ names of the logs

  /** Python's `<` on texts. */
  predicate TextLess(s: string, t: string) {
    LexLess(Codes(s), Codes(t))
  }

  lemma TextConcat(a: string, x: string, b: string, y: string)
    requires |a| == |b|
    ensures TextLess(a + x, b + y) <==> TextLess(a, b) || (a == b && TextLess(x, y))
    ensures a + x == b + y <==> a == b && x == y
  {
    CodesConcat(a, x);
    CodesConcat(b, y);
    LexConcat(Codes(a), Codes(x), Codes(b), Codes(y));
    SameText(a, x, b, y);
    if Codes(a) == Codes(b) { CodesInjective(a, b); }
  }

  lemma TextIrreflexive(s: string)
    ensures !TextLess(s, s)
  {
    LexIrreflexive(Codes(s));
  }

  lemma FieldOrder(a: nat, x: string, b: nat, y: string, w: nat)
    requires a < Pow10(w) && b < Pow10(w)
    ensures TextLess(Digits(a, w) + x, Digits(b, w) + y) <==> a < b || (a == b && TextLess(x, y))
    ensures Digits(a, w) + x == Digits(b, w) + y <==> a == b && x == y
  {
    DigitsOrder(a, b, w);
    TextConcat(Digits(a, w), x, Digits(b, w), y);
  }

  function StampText(d: DateTime, rest: string): string {
    Digits(d.year, 4) + (Digits(d.month, 2) + (Digits(d.day, 2) + ("T" + (Digits(d.hour, 2) + rest))))
  }

  lemma StampRegroup(d: DateTime, rest: string)
    ensures DateText(d) + "T" + Digits(d.hour, 2) + rest == StampText(d, rest)
  {
    hide Digits;
  }

  /** Texts that begin with an hour's stamp are ordered by the hour, then by what follows. */
  lemma StampOrder(a: DateTime, x: string, b: DateTime, y: string)
    requires ValidDate(a) && ValidDate(b)
    ensures TextLess(StampText(a, x), StampText(b, y)) <==> EarlierHour(a, b) || (SameHour(a, b) && TextLess(x, y))
    ensures StampText(a, x) == StampText(b, y) <==> SameHour(a, b) && x == y
  {
    Powers();
    TextIrreflexive("T");
    hide Digits, Pow10, TextLess, DaysIn;
    FieldOrder(a.hour, x, b.hour, y, 2);
    var h, h' := Digits(a.hour, 2) + x, Digits(b.hour, 2) + y;
    TextConcat("T", h, "T", h');
    FieldOrder(a.day, "T" + h, b.day, "T" + h', 2);
    FieldOrder(a.month, Digits(a.day, 2) + ("T" + h), b.month, Digits(b.day, 2) + ("T" + h'), 2);
    FieldOrder(a.year, Digits(a.month, 2) + (Digits(a.day, 2) + ("T" + h)), b.year, Digits(b.month, 2) +
      (Digits(b.day, 2) + ("T" + h')), 4);
  }

  /** Update timestamps are equal exactly within one hour of one day, and sort as
      text in the order of time, whatever the minutes, seconds and microseconds. */
  lemma UpdateTsOrder(a: DateTime, b: DateTime)
    requires ValidDate(a) && ValidDate(b)
    ensures ToUpdateTs(a) == ToUpdateTs(b) <==> HourOf(Microseconds(a)) == HourOf(Microseconds(b))
    ensures TextLess(ToUpdateTs(a), ToUpdateTs(b)) <==> HourOf(Microseconds(a)) < HourOf(Microseconds(b))
  {
    UpdateText(a);
    UpdateText(b);
    StampRegroup(a, "Z");
    StampRegroup(b, "Z");
    TextIrreflexive("Z");
    HourOfMicroseconds(a);
    HourOfMicroseconds(b);
    hide StampText, HourIndex, Microseconds, HourOf, ToUpdateTs, TextLess, DateText, Digits, ValidDate;
    StampOrder(a, "Z", b, "Z");
    HourOrder(a, b);
  }

  /** "update.<date and hour>.<locale>". */
  function UpdateName(d: DateTime, locale: string): string {
    "update." + ToUpdateTs(d) + "." + locale
  }

  function NameOf(d: DateTime, locale: string): LogName
    requires ValidDate(d)
  {
    LogName(HourOf(Microseconds(d)), locale)
  }

  lemma NameText(d: DateTime, locale: string)
    ensures UpdateName(d, locale) == "update." + StampText(d, "Z." + locale)
  {
    UpdateText(d);
    StampRegroup(d, "Z." + locale);
    hide StampText, ToUpdateTs, DateText, Digits;
    var s := DateText(d) + "T" + Digits(d.hour, 2);
    assert "update." + (s + "Z") + "." + locale == "update." + (s + ("Z." + locale));
  }

  lemma BeforeText(k: LogName, l: LogName)
    ensures Before(k, l) <==> k.hour < l.hour || (k.hour == l.hour && TextLess(k.locale, l.locale))
  {
  }

  /** The names of update logs, sorted as text, are in the order of their hours,
      and by locale within an hour. */
  lemma NamesSortByHour(a: DateTime, la: string, b: DateTime, lb: string)
    requires ValidDate(a) && ValidDate(b)
    ensures TextLess(UpdateName(a, la), UpdateName(b, lb)) <==> Before(NameOf(a, la), NameOf(b, lb))
    ensures UpdateName(a, la) == UpdateName(b, lb) <==> NameOf(a, la) == NameOf(b, lb)
  {
    NameText(a, la);
    NameText(b, lb);
    TextIrreflexive("update.");
    TextIrreflexive("Z.");
    HourOfMicroseconds(a);
    HourOfMicroseconds(b);
    HourOrder(a, b);
    BeforeText(NameOf(a, la), NameOf(b, lb));
    hide StampText, HourIndex, Microseconds, HourOf, TextLess, ValidDate, UpdateName, SameHour, EarlierHour, Before;
    TextConcat("update.", StampText(a, "Z." + la), "update.", StampText(b, "Z." + lb));
    StampOrder(a, "Z." + la, b, "Z." + lb);
    TextConcat("Z.", la, "Z.", lb);
  }

  /** `s.split(c, n)[n]`: what follows the first `n` occurrences of `c`; None for an IndexError. */
  function SplitTail(s: string, c: char, n: nat): Option<string> {
    if n == 0 then Some(s)
    else if s == "" then None
    else SplitTail(s[1..], c, if s[0] == c then n - 1 else n)
  }

  lemma {:induction false} SplitPast(s: string, t: string, c: char, n: nat)
    requires c !in s && n > 0
    ensures SplitTail(s + [c] + t, c, n) == SplitTail(t, c, n - 1)
  {
    if s == "" {
      assert (s + [c] + t)[1..] == t;
    } else {
      assert (s + [c] + t)[1..] == s[1..] + [c] + t;
      SplitPast(s[1..], t, c, n);
    }
  }

  lemma LastRest(c: string)
    ensures SplitTail(c, '.', 0) == Some(c)
  {
  }

  /** A name of three components, the last of which may have further dots. */
  lemma DottedSplit(a: string, b: string, c: string)
    requires '.' !in a && '.' !in b
    ensures SplitTail(a + "." + b + "." + c, '.', 2) == Some(c)
  {
    hide SplitTail;
    SplitPast(a, b + ['.'] + c, '.', 2);
    SplitPast(b, c, '.', 1);
    assert a + "." + b + "." + c == a + ['.'] + (b + ['.'] + c);
    LastRest(c);
  }

  /** The last component of a log's name is its locale, dots in it included. */
  lemma LocaleOfName(d: DateTime, locale: string)
    ensures SplitTail(UpdateName(d, locale), '.', 2) == Some(locale)
  {
    UpdateText(d);
    NotInFields(d, '.');
    var ts := ToUpdateTs(d);
    assert '.' !in ts;
    hide ToUpdateTs, DateText, Digits, SplitTail;
    assert "update" + "." == "update.";
    DottedSplit("update", ts, locale);
  }

  /** "catalog.<type>.<locale>". */
  function PartText(n: PartName): string {
    match n
    case Base => "catalog.base.C"
    case Dependency => "catalog.dependency.C"
    case Summary(l) => "catalog.summary." + l
    case Other(ctype, l) => "catalog." + ctype + "." + l
  }

  /** The last component of a part's name is its locale. */
  lemma LocaleOfPart(n: PartName)
    requires n.Other? ==> '.' !in n.ctype
    ensures SplitTail(PartText(n), '.', 2) == Some(Locale(n))
  {
    hide SplitTail;
    var l := Locale(n);
    match n {
      case Base => DottedSplit("catalog", "base", l);
      case Dependency => DottedSplit("catalog", "dependency", l);
      case Summary(_) => DottedSplit("catalog", "summary", l);
      case Other(ctype, _) => DottedSplit("catalog", ctype, l);
    }
    assert "catalog" + "." == "catalog.";
    assert "catalog." + "base" + "." + "C" == "catalog.base.C";
    assert "catalog." + "dependency" + "." + "C" == "catalog.dependency.C";
    assert "catalog." + "summary" + "." == "catalog.summary.";
  }
}
