/**
 * Duration text (web/src/components/duration/util.ts): a number of seconds
 * printed as days, hours, minutes and seconds, e.g. `1d 2h 5s`.
 */
module Duration {
  import opened Wrappers
  import opened Decimal
  import opened Text

  const SecondsInHour: nat := 3600
  const SecondsInDay: nat := 60 * 60 * 24

  datatype Parts = Parts(days: nat, hours: nat, minutes: nat, seconds: nat)

  /** The components the formatter prints, each within its unit's range. */
  function Decompose(duration: nat): (p: Parts)
    ensures p.hours < 24 && p.minutes < 60 && p.seconds < 60
    ensures p.days * 86400 + p.hours * 3600 + p.minutes * 60 + p.seconds == duration
  {
    var days := duration / SecondsInDay;
    var hours := (duration - days * SecondsInDay) / SecondsInHour;
    var minutes := (duration / 60) % 60;
    var seconds := duration % 60;
    DecomposeExact(duration);
    Parts(days, hours, minutes, seconds)
  }

  lemma DecomposeExact(duration: nat)
    ensures var days := duration / SecondsInDay;
            var hours := (duration - days * SecondsInDay) / SecondsInHour;
            hours < 24 &&
            days * SecondsInDay + hours * SecondsInHour + ((duration / 60) % 60) * 60 + duration % 60 == duration
  {
    var days := duration / 86400;
    var rest := duration % 86400;
    DivModOf(duration, 86400, days, rest);
    var hours := rest / 3600;
    var minutes := (rest % 3600) / 60;
    var seconds := rest % 60;
    DivModOf(rest, 3600, hours, rest % 3600);
    DivModOf(rest % 3600, 60, minutes, seconds);
    DivModOf(duration, 60, days * 1440 + hours * 60 + minutes, seconds);
    DivModOf(days * 1440 + hours * 60 + minutes, 60, days * 24 + hours, minutes);
  }

  /** Division is unique: `q * d + r` with `0 <= r < d` divides by `d` as `q`, remainder `r`. */
  lemma DivModOf(n: int, d: int, q: int, r: int)
    requires d > 0 && 0 <= r < d && n == q * d + r
    ensures n / d == q && n % d == r
  {
    var q0, r0 := n / d, n % d;
    assert n == q0 * d + r0;
    if q0 < q {
      MulLess(q0, q, d);
    } else if q < q0 {
      MulLess(q, q0, d);
    }
  }

  lemma MulLess(a: int, b: int, d: int)
    requires d > 0 && a < b
    ensures a * d + d <= b * d
  {
    var k := b - a;
    assert b * d == a * d + k * d;
    assert k * d == (k - 1) * d + d;
    assert (k - 1) * d >= 0;
  }

  // ---------------------------------------------------------------------
  // Reading duration text back
  // ---------------------------------------------------------------------

  /** The space-separated words of a text (always at least one, possibly empty). */
  function Words(s: string): (ws: seq<string>)
    ensures |ws| >= 1
  {
    if |s| == 0 then [""]
    else
      var rest := Words(s[1..]);
      if s[0] == ' ' then [""] + rest
      else [[s[0]] + rest[0]] + rest[1..]
  }

  function UnitSeconds(unit: char): Option<nat> {
    match unit
    case 'd' => Some(SecondsInDay)
    case 'h' => Some(SecondsInHour)
    case 'm' => Some(60)
    case 's' => Some(1)
    case _ => None
  }

  /** The seconds one word such as `12h` stands for. */
  function ParseWord(w: string): Option<nat> {
    if |w| >= 2 && AllDigits(w[..|w| - 1]) && UnitSeconds(w[|w| - 1]).Some? then
      Some(ParseNat(w[..|w| - 1]) * UnitSeconds(w[|w| - 1]).value)
    else None
  }

  function ParseWords(ws: seq<string>): Option<nat> {
    if |ws| == 0 then Some(0)
    else
      var first := ParseWord(ws[0]);
      var rest := ParseWords(ws[1..]);
      if first.Some? && rest.Some? then Some(first.value + rest.value) else None
  }

  /** The number of seconds a duration text stands for, if it is one. */
  function ParseDuration(s: string): Option<nat> {
    ParseWords(Words(s))
  }

  lemma {:induction false} WordsOfWord(w: string)
    requires ' ' !in w
    ensures Words(w) == [w]
    decreases |w|
  {
    if w != [] {
      WordsOfWord(w[1..]);
      assert [w[0]] + w[1..] == w;
    }
  }

  lemma {:induction false} WordsPrefix(w: string, s: string)
    requires ' ' !in w
    ensures Words(w + " " + s) == [w] + Words(s)
    decreases |w|
  {
    if w == [] {
      assert w + " " + s == [' '] + s;
      assert (w + " " + s)[1..] == s;
    } else {
      assert (w + " " + s)[1..] == w[1..] + " " + s;
      WordsPrefix(w[1..], s);
      assert [w[0]] + w[1..] == w;
    }
  }

  /** The word for `value` units of `unit`, e.g. `12h`. */
  function UnitWord(value: nat, unit: char): (r: string)
    ensures |r| >= 2 && r[|r| - 1] == unit
  {
    NatToString(value) + [unit]
  }

  /** The unit letters of a text: everything but digits and spaces. */
  function Letters(s: string): set<char> {
    set c | c in s && !IsDigit(c) && c != ' '
  }

  lemma LettersAppend(a: string, b: string)
    ensures Letters(a + b) == Letters(a) + Letters(b)
  {
    assert forall c :: c in a + b <==> c in a || c in b;
  }

  lemma LettersOfNat(n: nat)
    ensures Letters(NatToString(n)) == {}
  {
    var s := NatToString(n);
    forall c | c in s ensures IsDigit(c) {
      var i :| 0 <= i < |s| && s[i] == c;
    }
  }

  lemma NoSpaceInNat(value: nat)
    ensures ' ' !in NatToString(value)
  {
  }

  /** One unit word reads back as its seconds, has no space and the unit as its only letter. */
  lemma UnitWordFacts(value: nat, unit: char, weight: nat)
    requires UnitSeconds(unit) == Some(weight)
    ensures ParseWord(UnitWord(value, unit)) == Some(value * weight)
    ensures ' ' !in UnitWord(value, unit)
    ensures Letters(UnitWord(value, unit)) == {unit}
  {
    var w := UnitWord(value, unit);
    assert w[..|w| - 1] == NatToString(value);
    ParseNatToString(value);
    LettersOfNat(value);
    LettersAppend(NatToString(value), [unit]);
    assert Letters([unit]) == {unit};
    NoSpaceInNat(value);
  }

  /** The part printed for one of days, hours and minutes: nothing when it is zero. */
  function Part(value: nat, unit: char): (r: string)
    ensures r == [] <==> value == 0
    ensures r != [] ==> r[|r| - 1] == ' '
  {
    if value != 0 then UnitWord(value, unit) + " " else ""
  }

  /** The text the formatter prints for the given components. */
  function Render(p: Parts): (r: string)
    ensures |r| >= 2 && r[|r| - 1] == 's'
  {
    Part(p.days, 'd') + (Part(p.hours, 'h') + (Part(p.minutes, 'm') + UnitWord(p.seconds, 's')))
  }

  /** A readable word in front of readable words adds its seconds. */
  lemma ParseWordsCons(w: string, ws: seq<string>, a: nat, t: nat)
    requires ParseWord(w) == Some(a) && ParseWords(ws) == Some(t)
    ensures ParseWords([w] + ws) == Some(a + t)
  {
    var all := [w] + ws;
    assert all[0] == w;
    assert all[1..] == ws;
  }

  /** A printed part names its unit exactly when the component is not zero. */
  lemma PartLetters(value: nat, unit: char, weight: nat)
    requires UnitSeconds(unit) == Some(weight)
    ensures Letters(Part(value, unit)) == if value != 0 then {unit} else {}
  {
    if value != 0 {
      UnitWordFacts(value, unit, weight);
      LettersAppend(UnitWord(value, unit), " ");
      assert Letters(" ") == {};
    }
  }

  lemma LettersOfFour(x: string, y: string, z: string, w: string)
    ensures Letters(x + (y + (z + w))) == Letters(x) + Letters(y) + Letters(z) + Letters(w)
  {
    LettersAppend(z, w);
    LettersAppend(y, z + w);
    LettersAppend(x, y + (z + w));
  }

  lemma ReadsBackParts(days: nat, hours: nat, minutes: nat, seconds: nat)
    ensures ParseDuration(Part(days, 'd') + (Part(hours, 'h') + (Part(minutes, 'm') + UnitWord(seconds, 's'))))
      == Some(days * 86400 + hours * 3600 + minutes * 60 + seconds)
  {
    SecondsReadBack(seconds);
    PartReads(days, 'd', 86400);
    PartReads(hours, 'h', 3600);
    PartReads(minutes, 'm', 60);
    ReadsBackThree(Part(days, 'd'), Part(hours, 'h'), Part(minutes, 'm'), UnitWord(seconds, 's'),
      days * 86400, hours * 3600, minutes * 60, seconds);
  }

  /** `x` is empty and stands for nothing, or is one readable word for `a` seconds and a space. */
  predicate PrefixReads(x: string, a: nat) {
    (x == [] && a == 0) ||
    (|x| >= 1 && x[|x| - 1] == ' ' && ' ' !in x[..|x| - 1] && ParseWord(x[..|x| - 1]) == Some(a))
  }

  lemma PartReads(value: nat, unit: char, weight: nat)
    requires UnitSeconds(unit) == Some(weight)
    ensures PrefixReads(Part(value, unit), value * weight)
  {
    if value != 0 {
      var x := Part(value, unit);
      UnitWordFacts(value, unit, weight);
      assert x[..|x| - 1] == UnitWord(value, unit);
    }
  }

  lemma PrefixThenReads(x: string, a: nat, rest: string, t: nat)
    requires PrefixReads(x, a) && ParseDuration(rest) == Some(t)
    ensures ParseDuration(x + rest) == Some(a + t)
  {
    if x != [] {
      var w := x[..|x| - 1];
      assert x + rest == w + " " + rest;
      WordsPrefix(w, rest);
      ParseWordsCons(w, Words(rest), a, t);
    } else {
      assert x + rest == rest;
    }
  }

  lemma ReadsBackThree(x: string, y: string, z: string, last: string, a: nat, b: nat, c: nat, t: nat)
    requires PrefixReads(x, a) && PrefixReads(y, b) && PrefixReads(z, c)
    requires ParseDuration(last) == Some(t)
    ensures ParseDuration(x + (y + (z + last))) == Some(a + b + c + t)
  {
    PrefixThenReads(z, c, last, t);
    PrefixThenReads(y, b, z + last, c + t);
    PrefixThenReads(x, a, y + (z + last), b + (c + t));
  }

  /** The seconds word alone reads back as the seconds. */
  lemma SecondsReadBack(seconds: nat)
    ensures ParseDuration(UnitWord(seconds, 's')) == Some(seconds)
  {
    var last := UnitWord(seconds, 's');
    UnitWordFacts(seconds, 's', 1);
    WordsOfWord(last);
    assert ParseWords([last][1..]) == Some(0);
  }

  /** Duration text reads back as the seconds its components add up to. */
  lemma RenderReadsBack(p: Parts)
    ensures ParseDuration(Render(p)) == Some(p.days * 86400 + p.hours * 3600 + p.minutes * 60 + p.seconds)
  {
    ReadsBackParts(p.days, p.hours, p.minutes, p.seconds);
  }

  /** A unit letter is printed exactly when its component is not zero; `s` always is. */
  lemma RenderLetters(p: Parts)
    ensures Letters(Render(p)) ==
      (if p.days != 0 then {'d'} else {}) + (if p.hours != 0 then {'h'} else {}) +
      (if p.minutes != 0 then {'m'} else {}) + {'s'}
  {
    UnitWordFacts(p.seconds, 's', 1);
    PartLetters(p.days, 'd', 86400);
    PartLetters(p.hours, 'h', 3600);
    PartLetters(p.minutes, 'm', 60);
    LettersOfFour(Part(p.days, 'd'), Part(p.hours, 'h'), Part(p.minutes, 'm'), UnitWord(p.seconds, 's'));
  }

  lemma RenderSplit(p: Parts)
    ensures Render(p) == Part(p.days, 'd') + Part(p.hours, 'h') + Part(p.minutes, 'm') + UnitWord(p.seconds, 's')
  {
    Regroup(Part(p.days, 'd'), Part(p.hours, 'h'), Part(p.minutes, 'm'), UnitWord(p.seconds, 's'));
  }

  /** The part for a non-zero component is its number, its unit letter and a space. */
  lemma PartText(value: nat, unit: char)
    ensures value != 0 ==> Part(value, unit) == NatToString(value) + [unit, ' ']
    ensures value == 0 ==> Part(value, unit) == []
  {
  }

  lemma Regroup(x: string, y: string, z: string, w: string)
    ensures x + (y + (z + w)) == x + y + z + w
  {
  }

  // ---------------------------------------------------------------------
  // The formatter
  // ---------------------------------------------------------------------

  /**
   * What the printed text promises: it reads back as the duration, it names
   * exactly the non-zero units and it always ends with the seconds.
   */
  lemma RenderDuration(duration: nat)
    ensures ParseDuration(Render(Decompose(duration))) == Some(duration)
    ensures 'd' in Render(Decompose(duration)) <==> Decompose(duration).days != 0
    ensures 'h' in Render(Decompose(duration)) <==> Decompose(duration).hours != 0
    ensures 'm' in Render(Decompose(duration)) <==> Decompose(duration).minutes != 0
    ensures EndsWith(Render(Decompose(duration)), NatToString(Decompose(duration).seconds) + "s")
    ensures duration < 60 ==> Render(Decompose(duration)) == NatToString(duration) + "s"
  {
    DecomposeReadsBack(duration);
    RenderUnits(Decompose(duration));
    RenderEnds(Decompose(duration));
    if duration < 60 {
      UnderAMinute(duration);
    }
  }

  /** The rendering of a duration's components reads back as the duration. */
  lemma DecomposeReadsBack(duration: nat)
    ensures ParseDuration(Render(Decompose(duration))) == Some(duration)
  {
    var p := Decompose(duration);
    RenderReadsBack(p);
  }

  /** The text names a unit exactly when its component is not zero. */
  lemma RenderUnits(p: Parts)
    ensures 'd' in Render(p) <==> p.days != 0
    ensures 'h' in Render(p) <==> p.hours != 0
    ensures 'm' in Render(p) <==> p.minutes != 0
  {
    RenderLetters(p);
    NamedUnits(Render(p), p.days != 0, p.hours != 0, p.minutes != 0);
  }

  lemma NamedUnits(r: string, d: bool, h: bool, m: bool)
    requires Letters(r) == (if d then {'d'} else {}) + (if h then {'h'} else {}) + (if m then {'m'} else {}) + {'s'}
    ensures 'd' in r <==> d
    ensures 'h' in r <==> h
    ensures 'm' in r <==> m
  {
    InLetters(r, 'd');
    InLetters(r, 'h');
    InLetters(r, 'm');
  }

  lemma InLetters(s: string, c: char)
    requires !IsDigit(c) && c != ' '
    ensures c in s <==> c in Letters(s)
  {
  }

  /** The text always ends with the seconds. */
  lemma RenderEnds(p: Parts)
    ensures EndsWith(Render(p), NatToString(p.seconds) + "s")
    ensures p.days == 0 && p.hours == 0 && p.minutes == 0 ==> Render(p) == NatToString(p.seconds) + "s"
  {
    var front := Part(p.days, 'd') + Part(p.hours, 'h') + Part(p.minutes, 'm');
    var last := UnitWord(p.seconds, 's');
    RenderSplit(p);
    assert last == NatToString(p.seconds) + "s";
    EndsWithAppend(front, last);
    if p.days == 0 && p.hours == 0 && p.minutes == 0 {
      assert front == [];
    }
  }

  lemma EndsWithAppend(x: string, w: string)
    ensures EndsWith(x + w, w)
  {
    assert (x + w)[|x + w| - |w|..] == w;
  }

  /** Under a minute there are only seconds. */
  lemma UnderAMinute(duration: nat)
    requires duration < 60
    ensures Decompose(duration) == Parts(0, 0, 0, duration)
  {
    DivModOf(duration, 86400, 0, duration);
    DivModOf(duration, 3600, 0, duration);
    DivModOf(duration, 60, 0, duration);
  }

  /**
   * The duration text as the source builds it: zero days, hours and minutes
   * are left out, the seconds are always printed.
   */
  method FormatDuration(duration: nat) returns (result: string)
    ensures result == Render(Decompose(duration))
    ensures ParseDuration(result) == Some(duration)
    ensures 'd' in result <==> Decompose(duration).days != 0
    ensures 'h' in result <==> Decompose(duration).hours != 0
    ensures 'm' in result <==> Decompose(duration).minutes != 0
    ensures EndsWith(result, NatToString(Decompose(duration).seconds) + "s")
    ensures duration < 60 ==> result == NatToString(duration) + "s"
  {
    var parts := Decompose(duration);
    var days, hours, minutes, seconds := parts.days, parts.hours, parts.minutes, parts.seconds;

    result := "";

    if days != 0 {
      result := result + (NatToString(days) + "d ");
    }
    PartText(days, 'd');
    assert result == Part(days, 'd');

    ghost var front := result;
    if hours != 0 {
      result := result + (NatToString(hours) + "h ");
    }
    PartText(hours, 'h');
    assert result == front + Part(hours, 'h');

    front := result;
    if minutes != 0 {
      result := result + (NatToString(minutes) + "m ");
    }
    PartText(minutes, 'm');
    assert result == front + Part(minutes, 'm');

    result := result + (NatToString(seconds) + "s");

    ghost var p := parts;
    assert result == Part(days, 'd') + Part(hours, 'h') + Part(minutes, 'm') + UnitWord(seconds, 's');
    RenderSplit(p);
    RenderDuration(duration);
  }
}
