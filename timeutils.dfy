/**
 * Time-tracker helpers (server/anox/timetracker/utils.py): canonical tag
 * names, the start of the next day, and splitting a time span at midnights.
 */
module TimeTrackerUtils {
  import opened Wrappers

  /** The exceptions the helpers raise. */
  datatype UtilsError = ValueError | OverflowError

  // ---------------------------------------------------------------------
  // Canonical names
  // ---------------------------------------------------------------------

  /** Python's `str.isspace`: the characters `strip()` removes, by code point. */
  predicate IsSpace(c: char)
    ensures c == ' ' || c == '\t' || c == '\n' || c == '\r' ==> IsSpace(c)
    ensures 'a' <= c <= 'z' || 'A' <= c <= 'Z' || '0' <= c <= '9' ==> !IsSpace(c)
  {
    var n := c as int;
    (0x09 <= n <= 0x0d) || (0x1c <= n <= 0x20) || n == 0x85 || n == 0xa0 || n == 0x1680 ||
    (0x2000 <= n <= 0x200a) || n == 0x2028 || n == 0x2029 || n == 0x202f || n == 0x205f ||
    n == 0x3000
  }

  predicate AllSpace(s: string) {
    forall i :: 0 <= i < |s| ==> IsSpace(s[i])
  }

  /** Neither end of `s` is whitespace. */
  predicate Trimmed(s: string) {
    s == [] || (!IsSpace(s[0]) && !IsSpace(s[|s| - 1]))
  }

  predicate IsUpper(c: char) {
    'A' <= c <= 'Z'
  }

  function LowerChar(c: char): (l: char)
    ensures !IsUpper(l)
    ensures IsSpace(l) <==> IsSpace(c)
    ensures IsUpper(c) ==> l as int == c as int + 32
  {
    if IsUpper(c) then (c as int + 32) as char else c
  }

  predicate NoUpper(s: string) {
    forall i :: 0 <= i < |s| ==> !IsUpper(s[i])
  }

  /** `str.lower()` on the ASCII letters. */
  function Lower(s: string): (r: string)
    ensures |r| == |s|
    ensures forall i :: 0 <= i < |s| ==> r[i] == LowerChar(s[i])
    ensures NoUpper(r)
    ensures NoUpper(s) ==> r == s
  {
    seq(|s|, i requires 0 <= i < |s| => LowerChar(s[i]))
  }

  /** `str.lstrip()`: drops the leading whitespace. */
  function StripStart(s: string): (r: string)
    ensures |r| <= |s|
    ensures r == [] || !IsSpace(r[0])
    decreases |s|
  {
    if s != [] && IsSpace(s[0]) then StripStart(s[1..]) else s
  }

  /** `lstrip` keeps a suffix, drops only whitespace, and leaves no whitespace in front. */
  lemma {:induction false} StripStartDrops(s: string)
    ensures var r := StripStart(s);
      |r| <= |s| && r == s[|s| - |r|..] && AllSpace(s[..|s| - |r|]) && (r == [] || !IsSpace(r[0]))
    decreases |s|
  {
    if s != [] && IsSpace(s[0]) {
      StripStartDrops(s[1..]);
      var r := StripStart(s);
      assert s[..|s| - |r|] == [s[0]] + s[1..][..|s| - 1 - |r|];
    }
  }

  /** `str.rstrip()`: drops the trailing whitespace. */
  function StripEnd(s: string): (r: string)
    ensures |r| <= |s|
    ensures r == [] || !IsSpace(r[|r| - 1])
    decreases |s|
  {
    if s != [] && IsSpace(s[|s| - 1]) then StripEnd(s[..|s| - 1]) else s
  }

  /** `rstrip` keeps a prefix, drops only whitespace, and leaves no whitespace at the end. */
  lemma {:induction false} StripEndDrops(s: string)
    ensures var r := StripEnd(s);
      |r| <= |s| && r == s[..|r|] && AllSpace(s[|r|..]) && (r == [] || !IsSpace(r[|r| - 1]))
    decreases |s|
  {
    if s != [] && IsSpace(s[|s| - 1]) {
      var t := s[..|s| - 1];
      StripEndDrops(t);
      var r := StripEnd(s);
      assert s[|r|..] == t[|r|..] + [s[|s| - 1]];
    }
  }

  /** `str.strip()`. */
  function Strip(s: string): (r: string)
    ensures Trimmed(r)
  {
    StripStartDrops(s);
    StripEndDrops(StripStart(s));
    var t := StripStart(s);
    var r := StripEnd(t);
    assert r != [] ==> r[0] == t[0];
    r
  }

  /** Leading whitespace in front of a text that starts with none is exactly what `lstrip` drops. */
  lemma {:induction false} StripStartOf(pre: string, rest: string)
    requires AllSpace(pre)
    requires rest == [] || !IsSpace(rest[0])
    ensures StripStart(pre + rest) == rest
    decreases |pre|
  {
    if pre == [] {
      assert pre + rest == rest;
      if rest != [] {
        assert !IsSpace((pre + rest)[0]);
      }
    } else {
      assert (pre + rest)[1..] == pre[1..] + rest;
      StripStartOf(pre[1..], rest);
    }
  }

  lemma {:induction false} StripEndOf(rest: string, post: string)
    requires AllSpace(post)
    requires rest == [] || !IsSpace(rest[|rest| - 1])
    ensures StripEnd(rest + post) == rest
    decreases |post|
  {
    if post == [] {
      assert rest + post == rest;
    } else {
      var s := rest + post;
      assert s[..|s| - 1] == rest + post[..|post| - 1];
      StripEndOf(rest, post[..|post| - 1]);
    }
  }

  /**
   * `strip()` characterised: the stripped text is the one text that, with
   * only whitespace around it, makes up the input and has no whitespace at
   * either end.
   */
  lemma StripExactly(pre: string, mid: string, post: string)
    requires AllSpace(pre) && AllSpace(post) && Trimmed(mid)
    ensures Strip(pre + mid + post) == mid
  {
    if mid == [] {
      assert pre + mid + post == pre + post;
      StripStartOf(pre + post, []);
      assert pre + post + [] == pre + post;
      StripEndOf([], []);
    } else {
      assert pre + mid + post == pre + (mid + post);
      StripStartOf(pre, mid + post);
      StripEndOf(mid, post);
    }
  }

  /** The whitespace `strip()` removes from either end. */
  lemma StripParts(s: string) returns (pre: string, post: string)
    ensures AllSpace(pre) && AllSpace(post)
    ensures s == pre + Strip(s) + post
  {
    var t := StripStart(s);
    var r := StripEnd(t);
    StripStartDrops(s);
    StripEndDrops(t);
    pre := s[..|s| - |t|];
    post := t[|r|..];
    TakeDrop(s, |s| - |t|);
    TakeDrop(t, |r|);
    assert r == Strip(s);
    Associative(pre, r, post);
  }

  lemma TakeDrop<T>(s: seq<T>, k: nat)
    requires k <= |s|
    ensures s == s[..k] + s[k..]
  {
  }

  lemma StripDecomposes(s: string)
    ensures exists pre, post :: AllSpace(pre) && AllSpace(post) && s == pre + Strip(s) + post
  {
    var pre, post := StripParts(s);
  }

  /** Appending two items one at a time, then a tail, is putting the pair and the tail after the prefix. */
  lemma AppendPair<T>(prefix: seq<T>, a: T, b: T, tail: seq<T>)
    ensures prefix + [a] + [b] + tail == prefix + ([a, b] + tail)
  {
    assert [a] + [b] + tail == [a, b] + tail;
  }

  lemma Associative<T>(a: seq<T>, b: seq<T>, c: seq<T>)
    ensures a + (b + c) == a + b + c
  {
  }

  lemma Regroup(a: string, b: string, c: string, d: string, e: string)
    ensures a + (b + c + d) + e == (a + b) + c + (d + e)
  {
  }

  lemma LowerAppend(a: string, b: string)
    ensures Lower(a + b) == Lower(a) + Lower(b)
  {
    var l, r := Lower(a + b), Lower(a) + Lower(b);
    assert |l| == |r|;
    forall i | 0 <= i < |l|
      ensures l[i] == r[i]
    {
      if i < |a| {
        assert (a + b)[i] == a[i];
      } else {
        assert (a + b)[i] == b[i - |a|];
      }
    }
  }

  lemma AllSpaceAppend(a: string, b: string)
    requires AllSpace(a) && AllSpace(b)
    ensures AllSpace(a + b)
  {
    forall i | 0 <= i < |a + b|
      ensures IsSpace((a + b)[i])
    {
      if i < |a| {
        assert (a + b)[i] == a[i];
      } else {
        assert (a + b)[i] == b[i - |a|];
      }
    }
  }

  lemma LowerOfSpace(s: string)
    requires AllSpace(s)
    ensures AllSpace(Lower(s))
  {
  }

  /** The canonical form of a tag name: lower case, surrounding whitespace removed. */
  function ToCanonicalName(name: string): (r: string)
    ensures NoUpper(r) && Trimmed(r)
  {
    StripNoUpper(Lower(name));
    Strip(Lower(name))
  }

  lemma StripNoUpper(s: string)
    requires NoUpper(s)
    ensures NoUpper(Strip(s))
  {
    var pre, post := StripParts(s);
    var r := Strip(s);
    forall i | 0 <= i < |r|
      ensures !IsUpper(r[i])
    {
      assert r[i] == s[|pre| + i];
    }
  }

  /** The canonical name is the lower-cased name with only whitespace taken off either end. */
  lemma CanonicalPadding(name: string) returns (pre: string, post: string)
    ensures AllSpace(pre) && AllSpace(post)
    ensures Lower(name) == pre + ToCanonicalName(name) + post
  {
    pre, post := StripParts(Lower(name));
  }

  /** Canonicalising a canonical name changes nothing. */
  lemma CanonicalIdempotent(name: string)
    ensures ToCanonicalName(ToCanonicalName(name)) == ToCanonicalName(name)
  {
    var c := ToCanonicalName(name);
    assert Lower(c) == c;
    StripExactly([], c, []);
    assert [] + c + [] == c;
  }

  /** Whitespace around a name and the case of its letters do not change its canonical form. */
  lemma CanonicalIgnoresPadding(pre: string, name: string, post: string)
    requires AllSpace(pre) && AllSpace(post)
    ensures ToCanonicalName(pre + name + post) == ToCanonicalName(name)
  {
    LowerAppend(pre + name, post);
    LowerAppend(pre, name);
    var l := Lower(pre + name + post);
    assert l == Lower(pre) + Lower(name) + Lower(post);
    var c := ToCanonicalName(name);
    var p, q := CanonicalPadding(name);
    var pre' := Lower(pre) + p;
    var post' := q + Lower(post);
    LowerOfSpace(pre);
    LowerOfSpace(post);
    AllSpaceAppend(Lower(pre), p);
    AllSpaceAppend(q, Lower(post));
    assert l == Lower(pre) + (p + c + q) + Lower(post);
    Regroup(Lower(pre), p, c, q, Lower(post));
    StripExactly(pre', c, post');
  }

  /** The source's examples: letters are lowered, surrounding spaces dropped, inner ones kept. */
  lemma CanonicalExamples()
    ensures ToCanonicalName("CaPitAl") == "capital"
    ensures ToCanonicalName("  spa ce   ") == "spa ce"
  {
    CanonicalOfLower("capital");
    LowerCapital();
    CanonicalIgnoresCase("CaPitAl", "capital");
    CanonicalOfPadded();
  }

  lemma CanonicalOfLower(name: string)
    requires NoUpper(name) && Trimmed(name)
    ensures ToCanonicalName(name) == name
  {
    LowerUnchanged(name);
    StripTrimmed(name);
  }

  lemma LowerUnchanged(s: string)
    requires NoUpper(s)
    ensures Lower(s) == s
  {
  }

  lemma StripTrimmed(s: string)
    requires Trimmed(s)
    ensures Strip(s) == s
  {
    StripExactly([], s, []);
    assert [] + s + [] == s;
  }

  /** Names that differ only in the case of their letters share their canonical form. */
  lemma CanonicalIgnoresCase(a: string, b: string)
    requires Lower(a) == Lower(b)
    ensures ToCanonicalName(a) == ToCanonicalName(b)
  {
  }

  lemma LowerCapital()
    ensures Lower("CaPitAl") == Lower("capital")
  {
    assert Lower("CaPitAl") == "capital";
    assert NoUpper("capital");
  }

  lemma LowerPadded()
    ensures Lower("  spa ce   ") == "  spa ce   "
  {
    assert NoUpper("  spa ce   ");
  }

  lemma PaddedParts()
    ensures AllSpace("  ") && AllSpace("   ") && Trimmed("spa ce")
    ensures "  " + "spa ce" + "   " == "  spa ce   "
  {
  }

  lemma CanonicalOfPadded()
    ensures ToCanonicalName("  spa ce   ") == "spa ce"
  {
    LowerPadded();
    PaddedParts();
    StripExactly("  ", "spa ce", "   ");
  }

  // ---------------------------------------------------------------------
  // Dates
  // ---------------------------------------------------------------------

  /** A naive Python `datetime`; time zones are not part of this model. */
  datatype DateTime = DateTime(year: int, month: int, day: int,
                               hour: int, minute: int, second: int, microsecond: int)

  const MinYear := 1
  const MaxYear := 9999

  predicate IsLeap(y: int) {
    y % 4 == 0 && (y % 100 != 0 || y % 400 == 0)
  }

  function DaysInMonth(y: int, m: int): int
    requires 1 <= m <= 12
  {
    if m == 2 then (if IsLeap(y) then 29 else 28)
    else if m == 4 || m == 6 || m == 9 || m == 11 then 30
    else 31
  }

  /** The datetimes Python can represent. */
  predicate Valid(d: DateTime) {
    MinYear <= d.year <= MaxYear && 1 <= d.month <= 12 &&
    1 <= d.day <= DaysInMonth(d.year, d.month) &&
    0 <= d.hour < 24 && 0 <= d.minute < 60 && 0 <= d.second < 60 &&
    0 <= d.microsecond < 1000000
  }

  predicate SameDate(a: DateTime, b: DateTime) {
    a.year == b.year && a.month == b.month && a.day == b.day
  }

  /** `a`'s calendar date comes before `b`'s. */
  predicate DateLess(a: DateTime, b: DateTime) {
    a.year < b.year ||
    (a.year == b.year && (a.month < b.month || (a.month == b.month && a.day < b.day)))
  }

  predicate TimeLess(a: DateTime, b: DateTime) {
    a.hour < b.hour ||
    (a.hour == b.hour && (a.minute < b.minute ||
      (a.minute == b.minute && (a.second < b.second ||
        (a.second == b.second && a.microsecond < b.microsecond)))))
  }

  /** Python's `<` on naive datetimes: field by field. */
  predicate Less(a: DateTime, b: DateTime)
    ensures Less(a, b) ==> a != b
  {
    DateLess(a, b) || (SameDate(a, b) && TimeLess(a, b))
  }

  predicate LessEq(a: DateTime, b: DateTime) {
    Less(a, b) || a == b
  }

  /** Python's `<` on datetimes is a strict total order: one of two different datetimes comes first. */
  lemma LessStrictTotal(a: DateTime, b: DateTime, c: DateTime)
    ensures Less(a, b) ==> !Less(b, a)
    ensures a != b ==> Less(a, b) || Less(b, a)
    ensures Less(a, b) && Less(b, c) ==> Less(a, c)
  {
  }

  predicate IsMidnight(d: DateTime) {
    d.hour == 0 && d.minute == 0 && d.second == 0 && d.microsecond == 0
  }

  /** The last day Python can represent; adding a day to it overflows. */
  predicate IsLastDay(d: DateTime) {
    d.year == MaxYear && d.month == 12 && d.day == 31
  }

  function DaysInYear(y: int): int {
    if IsLeap(y) then 366 else 365
  }

  function DaysBeforeYear(y: int): int
    requires y >= 1
    decreases y
  {
    if y == 1 then 0 else DaysBeforeYear(y - 1) + DaysInYear(y - 1)
  }

  function DaysBeforeMonth(y: int, m: int): int
    requires 1 <= m <= 12
    decreases m
  {
    if m == 1 then 0 else DaysBeforeMonth(y, m - 1) + DaysInMonth(y, m - 1)
  }

  /** The day number of a date, 1 for 1 January of year 1 (Python's `toordinal`). */
  function Ordinal(d: DateTime): int
    requires d.year >= 1 && 1 <= d.month <= 12
  {
    DaysBeforeYear(d.year) + DaysBeforeMonth(d.year, d.month) + d.day
  }

  lemma DaysBeforeNewYear(y: int)
    ensures DaysBeforeMonth(y, 12) + 31 == DaysInYear(y)
  {
    var feb := DaysInMonth(y, 2);
    assert DaysBeforeMonth(y, 3) == 31 + feb;
    assert DaysBeforeMonth(y, 4) == 62 + feb;
    assert DaysBeforeMonth(y, 5) == 92 + feb;
    assert DaysBeforeMonth(y, 6) == 123 + feb;
    assert DaysBeforeMonth(y, 7) == 153 + feb;
    assert DaysBeforeMonth(y, 8) == 184 + feb;
    assert DaysBeforeMonth(y, 9) == 215 + feb;
    assert DaysBeforeMonth(y, 10) == 245 + feb;
    assert DaysBeforeMonth(y, 11) == 276 + feb;
    assert DaysBeforeMonth(y, 12) == 306 + feb;
  }

  /** `when + timedelta(days=1)`: the same time on the next calendar day. */
  function AddDay(when: DateTime): (r: Result<DateTime, UtilsError>)
    requires Valid(when)
    ensures r.Failure? <==> IsLastDay(when)
    ensures r.Failure? ==> r.error == OverflowError
    ensures r.Success? ==> Valid(r.value) && Ordinal(r.value) == Ordinal(when) + 1
    ensures r.Success? ==> r.value.(year := when.year, month := when.month, day := when.day) == when
  {
    if IsLastDay(when) then Failure(OverflowError)
    else if when.day < DaysInMonth(when.year, when.month) then Success(when.(day := when.day + 1))
    else if when.month < 12 then Success(when.(month := when.month + 1, day := 1))
    else
      DaysBeforeNewYear(when.year);
      Success(when.(year := when.year + 1, month := 1, day := 1))
  }

  function AtMidnight(d: DateTime): DateTime {
    d.(hour := 0, minute := 0, second := 0, microsecond := 0)
  }

  /** Midnight at the start of the day after `when`. */
  function StartOfNextDay(when: DateTime): (r: Result<DateTime, UtilsError>)
    requires Valid(when)
    ensures r.Failure? <==> IsLastDay(when)
    ensures r.Failure? ==> r.error == OverflowError
    ensures r.Success? ==> Valid(r.value) && IsMidnight(r.value)
    ensures r.Success? ==> Ordinal(r.value) == Ordinal(when) + 1 && DateLess(when, r.value)
  {
    match AddDay(when)
    case Failure(e) => Failure(e)
    case Success(next) => Success(AtMidnight(next))
  }

  /**
   * No date lies strictly between a date and the next: any later date is
   * on or after the next day, so the next day's midnight comes no later
   * than any instant of a later day.
   */
  lemma NextDayIsNext(when: DateTime, later: DateTime)
    requires Valid(when) && Valid(later) && DateLess(when, later)
    ensures !IsLastDay(when)
    ensures DateLess(StartOfNextDay(when).value, later) || SameDate(StartOfNextDay(when).value, later)
    ensures LessEq(StartOfNextDay(when).value, later)
  {
  }

  lemma StartOfNextDayExamples()
    ensures StartOfNextDay(DateTime(2000, 11, 23, 0, 0, 0, 0)) == Success(DateTime(2000, 11, 24, 0, 0, 0, 0))
    ensures StartOfNextDay(DateTime(2000, 11, 30, 0, 0, 0, 0)) == Success(DateTime(2000, 12, 1, 0, 0, 0, 0))
    ensures StartOfNextDay(DateTime(2000, 12, 31, 0, 0, 0, 0)) == Success(DateTime(2001, 1, 1, 0, 0, 0, 0))
    ensures StartOfNextDay(DateTime(9999, 12, 31, 23, 0, 0, 0)) == Failure(OverflowError)
  {
  }

  // ---------------------------------------------------------------------
  // Splitting a span at midnights
  // ---------------------------------------------------------------------

  /** A number that grows with the calendar date; it bounds the splitting loops. */
  function DateKey(d: DateTime): int {
    d.year * 512 + d.month * 32 + d.day
  }

  lemma DateKeyOrders(a: DateTime, b: DateTime)
    requires Valid(a) && Valid(b)
    ensures DateLess(a, b) ==> DateKey(a) < DateKey(b)
    ensures SameDate(a, b) ==> DateKey(a) == DateKey(b)
  {
  }

  /** Consecutive pairs meet: the end of each pair is the start of the next. */
  predicate Chained(r: seq<DateTime>)
    decreases |r|
  {
    |r| % 2 == 0 && (|r| >= 4 ==> r[1] == r[2] && Chained(r[2..]))
  }

  /** Each datetime is no later than the one after it. */
  predicate Ordered(r: seq<DateTime>) {
    forall i :: 0 < i < |r| ==> LessEq(r[i - 1], r[i])
  }

  predicate AllValid(r: seq<DateTime>) {
    forall i :: 0 <= i < |r| ==> Valid(r[i])
  }

  /** Every datetime but the first and the last is a midnight. */
  predicate InnerMidnights(r: seq<DateTime>) {
    forall i :: 0 < i < |r| - 1 ==> IsMidnight(r[i])
  }

  /** `b` ends the day `a` falls on: it is on the same date or is the next midnight. */
  predicate WithinDay(a: DateTime, b: DateTime) {
    SameDate(a, b) || (Valid(a) && StartOfNextDay(a) == Success(b))
  }

  /** Each pair (first and second, third and fourth, ...) stays within one day. */
  predicate DayPairs(r: seq<DateTime>)
    decreases |r|
  {
    |r| % 2 == 0 && (|r| >= 2 ==> WithinDay(r[0], r[1]) && DayPairs(r[2..]))
  }

  /** What both loops keep: the current midnight is valid and not after the end's date. */
  predicate LoopState(mid: DateTime, end: DateTime) {
    Valid(mid) && Valid(end) && IsMidnight(mid) && (DateLess(mid, end) || SameDate(mid, end))
  }

  /** Putting a day pair in front of a split keeps its shape. */
  lemma ConsPair(a: DateTime, b: DateTime, rest: seq<DateTime>)
    requires Valid(a) && Valid(b) && LessEq(a, b) && IsMidnight(b)
    requires |rest| >= 2 && rest[0] == b
    requires Chained(rest) && Ordered(rest) && AllValid(rest)
    requires forall i :: 0 <= i < |rest| - 1 ==> IsMidnight(rest[i])
    ensures ([a, b] + rest)[2..] == rest
    ensures Chained([a, b] + rest) && Ordered([a, b] + rest) && AllValid([a, b] + rest)
    ensures forall i :: 1 <= i < |rest| + 1 ==> IsMidnight(([a, b] + rest)[i])
  {
    var r := [a, b] + rest;
    assert r[2..] == rest;
    forall i | 0 < i < |r|
      ensures LessEq(r[i - 1], r[i])
    {
      if i >= 3 {
        assert r[i - 1] == rest[i - 3] && r[i] == rest[i - 2];
      }
    }
    forall i | 1 <= i < |rest| + 1
      ensures IsMidnight(r[i])
    {
      if i >= 2 {
        assert r[i] == rest[i - 2];
      }
    }
  }

  /**
   * The source's loop from `mid` on, as written: it keeps adding day pairs
   * while the day of the month of `mid` is below that of `end`, then closes
   * with the pair from `mid` to `end`.
   */
  function SplitLoop(mid: DateTime, end: DateTime): (r: seq<DateTime>)
    requires LoopState(mid, end)
    ensures |r| >= 2 && r[0] == mid && r[|r| - 1] == end
    decreases DateKey(end) - DateKey(mid)
  {
    DateKeyOrders(mid, end);
    if mid.day < end.day then
      NextDayIsNext(mid, end);
      var next := StartOfNextDay(mid).value;
      DateKeyOrders(next, end);
      [mid, next] + SplitLoop(next, end)
    else
      [mid, end]
  }

  /** The loop's pairs meet, run forward in time, and all but the last datetime are midnights. */
  lemma {:induction false} SplitLoopShape(mid: DateTime, end: DateTime)
    requires LoopState(mid, end)
    ensures var r := SplitLoop(mid, end);
      Chained(r) && Ordered(r) && AllValid(r) && (forall i :: 0 <= i < |r| - 1 ==> IsMidnight(r[i]))
    decreases DateKey(end) - DateKey(mid)
  {
    DateKeyOrders(mid, end);
    if mid.day < end.day {
      NextDayIsNext(mid, end);
      var next := StartOfNextDay(mid).value;
      DateKeyOrders(next, end);
      var rest := SplitLoop(next, end);
      assert SplitLoop(mid, end) == [mid, next] + rest;
      SplitLoopShape(next, end);
      assert LessEq(mid, next) && IsMidnight(next);
      ConsPair(mid, next, rest);
    }
  }

  /**
   * `split_datetimes_across_days` as written: an error when the end is
   * before the start, the pair itself on one date, otherwise the start, the
   * next midnight and the loop from there.
   */
  function SplitAsWritten(start: DateTime, end: DateTime): (r: Result<seq<DateTime>, UtilsError>)
    requires Valid(start) && Valid(end)
    ensures r.Failure? <==> Less(end, start)
    ensures r.Failure? ==> r.error == ValueError
    ensures r.Success? ==> |r.value| >= 2 && r.value[0] == start && r.value[|r.value| - 1] == end
  {
    if Less(end, start) then Failure(ValueError)
    else if SameDate(start, end) then Success([start, end])
    else
      NextDayIsNext(start, end);
      var mid := StartOfNextDay(start).value;
      Success([start, mid] + SplitLoop(mid, end))
  }

  /**
   * What the split promises and keeps as written: the pairs meet, run
   * forward in time, and every datetime inside the span is a midnight.
   */
  lemma SplitAsWrittenShape(start: DateTime, end: DateTime)
    requires Valid(start) && Valid(end) && !Less(end, start)
    ensures var r := SplitAsWritten(start, end).value;
      Chained(r) && Ordered(r) && AllValid(r) && InnerMidnights(r)
  {
    if !SameDate(start, end) {
      NextDayIsNext(start, end);
      var mid := StartOfNextDay(start).value;
      SplitLoopShape(mid, end);
      ConsPair(start, mid, SplitLoop(mid, end));
    }
  }

  lemma SplitFirstDay(start: DateTime, end: DateTime)
    requires Valid(start) && Valid(end) && !Less(end, start) && !SameDate(start, end)
    ensures !IsLastDay(start)
    ensures LoopState(StartOfNextDay(start).value, end)
    ensures SplitAsWritten(start, end) ==
      Success([start, StartOfNextDay(start).value] + SplitLoop(StartOfNextDay(start).value, end))
  {
    NextDayIsNext(start, end);
  }

  lemma SplitLoopStep(mid: DateTime, end: DateTime)
    requires LoopState(mid, end) && mid.day < end.day
    ensures !IsLastDay(mid)
    ensures LoopState(StartOfNextDay(mid).value, end)
    ensures DateKey(mid) < DateKey(StartOfNextDay(mid).value) <= DateKey(end)
    ensures SplitLoop(mid, end) == [mid, StartOfNextDay(mid).value] + SplitLoop(StartOfNextDay(mid).value, end)
  {
    NextDayIsNext(mid, end);
    DateKeyOrders(mid, StartOfNextDay(mid).value);
    DateKeyOrders(StartOfNextDay(mid).value, end);
  }

  /** The source's function, with its loop. */
  method SplitDatetimesAcrossDays(start: DateTime, end: DateTime) returns (r: Result<seq<DateTime>, UtilsError>)
    requires Valid(start) && Valid(end)
    ensures r == SplitAsWritten(start, end)
  {
    if Less(end, start) {
      return Failure(ValueError);
    }
    if SameDate(start, end) {
      return Success([start, end]);
    }

    var result: seq<DateTime> := [];
    SplitFirstDay(start, end);
    var mid := StartOfNextDay(start).value;
    result := result + [start];
    result := result + [mid];
    assert result == [start, mid];
    ghost var whole := result + SplitLoop(mid, end);
    assert SplitAsWritten(start, end) == Success(whole);

    while mid.day < end.day
      invariant LoopState(mid, end)
      invariant result + SplitLoop(mid, end) == whole
      decreases DateKey(end) - DateKey(mid)
    {
      SplitLoopStep(mid, end);
      var next := StartOfNextDay(mid).value;
      AppendPair(result, mid, next, SplitLoop(next, end));
      result := result + [mid];
      result := result + [next];
      mid := next;
    }

    assert SplitLoop(mid, end) == [mid, end] == [mid, end] + [];
    AppendPair(result, mid, end, []);
    result := result + [mid];
    result := result + [end];
    assert result == whole;
    return Success(result);
  }

  // ---------------------------------------------------------------------
  // The split as intended: one pair per calendar day
  // ---------------------------------------------------------------------

  /** The loop with its guard comparing whole dates rather than days of the month. */
  function SplitLoopByDate(mid: DateTime, end: DateTime): (r: seq<DateTime>)
    requires LoopState(mid, end)
    ensures |r| >= 2 && r[0] == mid && r[|r| - 1] == end
    decreases DateKey(end) - DateKey(mid)
  {
    DateKeyOrders(mid, end);
    if DateLess(mid, end) then
      NextDayIsNext(mid, end);
      var next := StartOfNextDay(mid).value;
      DateKeyOrders(next, end);
      [mid, next] + SplitLoopByDate(next, end)
    else
      [mid, end]
  }

  /** The span cut at every midnight inside it. */
  function SplitAcrossDays(start: DateTime, end: DateTime): (r: Result<seq<DateTime>, UtilsError>)
    requires Valid(start) && Valid(end)
    ensures r.Failure? <==> Less(end, start)
    ensures r.Failure? ==> r.error == ValueError
    ensures r.Success? ==> |r.value| >= 2 && r.value[0] == start && r.value[|r.value| - 1] == end
  {
    if Less(end, start) then Failure(ValueError)
    else if SameDate(start, end) then Success([start, end])
    else
      NextDayIsNext(start, end);
      var mid := StartOfNextDay(start).value;
      Success([start, mid] + SplitLoopByDate(mid, end))
  }

  lemma ConsDayPair(a: DateTime, b: DateTime, rest: seq<DateTime>)
    requires WithinDay(a, b) && DayPairs(rest)
    ensures DayPairs([a, b] + rest)
  {
    assert ([a, b] + rest)[2..] == rest;
  }

  lemma SplitLoopByDateStep(mid: DateTime, end: DateTime)
    requires LoopState(mid, end) && DateLess(mid, end)
    ensures !IsLastDay(mid)
    ensures LoopState(StartOfNextDay(mid).value, end)
    ensures DateKey(mid) < DateKey(StartOfNextDay(mid).value) <= DateKey(end)
    ensures SplitLoopByDate(mid, end) ==
      [mid, StartOfNextDay(mid).value] + SplitLoopByDate(StartOfNextDay(mid).value, end)
  {
    NextDayIsNext(mid, end);
    DateKeyOrders(mid, StartOfNextDay(mid).value);
    DateKeyOrders(StartOfNextDay(mid).value, end);
  }

  lemma {:induction false} SplitLoopByDateShape(mid: DateTime, end: DateTime)
    requires LoopState(mid, end)
    ensures var r := SplitLoopByDate(mid, end);
      Chained(r) && Ordered(r) && AllValid(r) && (forall i :: 0 <= i < |r| - 1 ==> IsMidnight(r[i]))
    decreases DateKey(end) - DateKey(mid)
  {
    if DateLess(mid, end) {
      SplitLoopByDateStep(mid, end);
      var next := StartOfNextDay(mid).value;
      SplitLoopByDateShape(next, end);
      assert LessEq(mid, next);
      ConsPair(mid, next, SplitLoopByDate(next, end));
    }
  }

  /** From `mid` on, the corrected loop yields one pair per date up to the end's, each within its day. */
  lemma {:induction false} SplitLoopByDateDays(mid: DateTime, end: DateTime)
    requires LoopState(mid, end)
    ensures var r := SplitLoopByDate(mid, end);
      DayPairs(r) && |r| == 2 * (Ordinal(end) - Ordinal(mid) + 1)
    decreases DateKey(end) - DateKey(mid)
  {
    if DateLess(mid, end) {
      SplitLoopByDateStep(mid, end);
      var next := StartOfNextDay(mid).value;
      SplitLoopByDateDays(next, end);
      assert WithinDay(mid, next);
      ConsDayPair(mid, next, SplitLoopByDate(next, end));
    } else {
      assert WithinDay(mid, end);
      assert ([mid, end])[2..] == [];
    }
  }

  lemma SplitFirstDayByDate(start: DateTime, end: DateTime)
    requires Valid(start) && Valid(end) && !Less(end, start) && !SameDate(start, end)
    ensures !IsLastDay(start)
    ensures LoopState(StartOfNextDay(start).value, end)
    ensures WithinDay(start, StartOfNextDay(start).value) && LessEq(start, StartOfNextDay(start).value)
    ensures SplitAcrossDays(start, end) ==
      Success([start, StartOfNextDay(start).value] + SplitLoopByDate(StartOfNextDay(start).value, end))
  {
    NextDayIsNext(start, end);
  }

  /**
   * The corrected split cuts the span into consecutive pairs, one for each
   * calendar day it touches, each within its day, with a midnight at every
   * cut.
   */
  lemma SplitAcrossDaysByDay(start: DateTime, end: DateTime)
    requires Valid(start) && Valid(end) && !Less(end, start)
    ensures var r := SplitAcrossDays(start, end).value;
      DayPairs(r) && Chained(r) && Ordered(r) && AllValid(r) && InnerMidnights(r) &&
      |r| == 2 * (Ordinal(end) - Ordinal(start) + 1)
  {
    if SameDate(start, end) {
      assert ([start, end])[2..] == [];
      assert WithinDay(start, end);
    } else {
      SplitAcrossSeveralDays(start, end);
      SplitAcrossSeveralDaysShape(start, end);
    }
  }

  /** Over several dates the corrected split yields one pair per date, each within its day. */
  lemma SplitAcrossSeveralDays(start: DateTime, end: DateTime)
    requires Valid(start) && Valid(end) && !Less(end, start) && !SameDate(start, end)
    ensures var r := SplitAcrossDays(start, end).value;
      DayPairs(r) && |r| == 2 * (Ordinal(end) - Ordinal(start) + 1)
  {
    SplitFirstDayByDate(start, end);
    var mid := StartOfNextDay(start).value;
    SplitLoopByDateDays(mid, end);
    ConsDayPair(start, mid, SplitLoopByDate(mid, end));
  }

  /** Over several dates the corrected split's pairs meet, run forward and are cut at midnights. */
  lemma SplitAcrossSeveralDaysShape(start: DateTime, end: DateTime)
    requires Valid(start) && Valid(end) && !Less(end, start) && !SameDate(start, end)
    ensures var r := SplitAcrossDays(start, end).value;
      Chained(r) && Ordered(r) && AllValid(r) && InnerMidnights(r)
  {
    SplitFirstDayByDate(start, end);
    var mid := StartOfNextDay(start).value;
    SplitLoopByDateShape(mid, end);
    ConsPair(start, mid, SplitLoopByDate(mid, end));
  }

  /** Within one month the day of the month orders dates, so the loop as written agrees. */
  lemma {:induction false} SplitLoopWithinMonth(mid: DateTime, end: DateTime)
    requires LoopState(mid, end) && mid.year == end.year && mid.month == end.month
    ensures SplitLoop(mid, end) == SplitLoopByDate(mid, end)
    decreases DateKey(end) - DateKey(mid)
  {
    DateKeyOrders(mid, end);
    if mid.day < end.day {
      SplitLoopStep(mid, end);
      SplitLoopWithinMonth(StartOfNextDay(mid).value, end);
    }
  }

  /** For a span that starts and ends in the same month, the split as written is the corrected one. */
  lemma SplitWithinMonth(start: DateTime, end: DateTime)
    requires Valid(start) && Valid(end) && start.year == end.year && start.month == end.month
    ensures SplitAsWritten(start, end) == SplitAcrossDays(start, end)
  {
    if !Less(end, start) && !SameDate(start, end) {
      SplitFirstDay(start, end);
      SplitLoopWithinMonth(StartOfNextDay(start).value, end);
    }
  }

  /** The source's examples: one day, an end before the start, and a span over three days. */
  lemma SplitExamples()
    ensures var s := DateTime(2000, 11, 23, 0, 0, 0, 0);
      var e := DateTime(2000, 11, 23, 1, 0, 0, 0);
      SplitAsWritten(s, e) == Success([s, e])
    ensures SplitAsWritten(DateTime(2000, 11, 23, 0, 0, 0, 0), DateTime(2000, 11, 22, 0, 0, 0, 0))
      == Failure(ValueError)
    ensures var s := DateTime(2000, 11, 23, 0, 0, 0, 0);
      var e := DateTime(2000, 11, 25, 13, 0, 0, 0);
      var d24 := DateTime(2000, 11, 24, 0, 0, 0, 0);
      var d25 := DateTime(2000, 11, 25, 0, 0, 0, 0);
      SplitAsWritten(s, e) == Success([s, d24, d24, d25, d25, e])
  {
    ThreeDaySplit();
  }

  lemma ThreeDaySplit()
    ensures var s := DateTime(2000, 11, 23, 0, 0, 0, 0);
      var e := DateTime(2000, 11, 25, 13, 0, 0, 0);
      var d24 := DateTime(2000, 11, 24, 0, 0, 0, 0);
      var d25 := DateTime(2000, 11, 25, 0, 0, 0, 0);
      SplitAsWritten(s, e) == Success([s, d24, d24, d25, d25, e])
  {
    var s := DateTime(2000, 11, 23, 0, 0, 0, 0);
    var e := DateTime(2000, 11, 25, 13, 0, 0, 0);
    var d24 := DateTime(2000, 11, 24, 0, 0, 0, 0);
    var d25 := DateTime(2000, 11, 25, 0, 0, 0, 0);
    assert StartOfNextDay(s) == Success(d24);
    assert StartOfNextDay(d24) == Success(d25);
    SplitFirstDay(s, e);
    SplitLoopStep(d24, e);
    assert SplitLoop(d25, e) == [d25, e];
    assert [s, d24] + ([d24, d25] + [d25, e]) == [s, d24, d24, d25, d25, e];
  }

  /**
   * The guard compares days of the month only: from 30 January to 2 February
   * the loop stops at 31 January, since 31 is not below 2, and the last pair
   * spans two days.
   */
  lemma SplitAsWrittenSpansDays()
    ensures var s := DateTime(2000, 1, 30, 12, 0, 0, 0);
      var e := DateTime(2000, 2, 2, 12, 0, 0, 0);
      var jan31 := DateTime(2000, 1, 31, 0, 0, 0, 0);
      SplitAsWritten(s, e) == Success([s, jan31, jan31, e]) &&
      !DayPairs([s, jan31, jan31, e]) &&
      |SplitAcrossDays(s, e).value| == 8
  {
    var s := DateTime(2000, 1, 30, 12, 0, 0, 0);
    var e := DateTime(2000, 2, 2, 12, 0, 0, 0);
    var jan31 := DateTime(2000, 1, 31, 0, 0, 0, 0);
    assert StartOfNextDay(s) == Success(jan31);
    SplitFirstDay(s, e);
    assert SplitLoop(jan31, e) == [jan31, e];
    assert [s, jan31] + [jan31, e] == [s, jan31, jan31, e];
    SpansTwoDays();
    AcrossFourDays(2000);
  }

  lemma SpansTwoDays()
    ensures !DayPairs([DateTime(2000, 1, 30, 12, 0, 0, 0), DateTime(2000, 1, 31, 0, 0, 0, 0),
                       DateTime(2000, 1, 31, 0, 0, 0, 0), DateTime(2000, 2, 2, 12, 0, 0, 0)])
  {
    var r := [DateTime(2000, 1, 30, 12, 0, 0, 0), DateTime(2000, 1, 31, 0, 0, 0, 0),
              DateTime(2000, 1, 31, 0, 0, 0, 0), DateTime(2000, 2, 2, 12, 0, 0, 0)];
    assert r[2..] == [r[2], r[3]];
    assert StartOfNextDay(r[2]) == Success(DateTime(2000, 2, 1, 0, 0, 0, 0));
    assert !WithinDay(r[2], r[3]);
  }

  lemma AcrossFourDays(y: int)
    requires MinYear <= y <= MaxYear
    ensures |SplitAcrossDays(DateTime(y, 1, 30, 12, 0, 0, 0), DateTime(y, 2, 2, 12, 0, 0, 0)).value| == 8
  {
    var s := DateTime(y, 1, 30, 12, 0, 0, 0);
    var e := DateTime(y, 2, 2, 12, 0, 0, 0);
    SplitAcrossDaysByDay(s, e);
    assert DaysBeforeMonth(y, 2) == 31;
  }
}
