/**
  DURATION values, section 4.3.6 of RFC 2445 (icalduration.c): the parser, the printer and
  the conversions to and from a number of seconds.

  The fields of a duration are C's unsigned int, so sums and products wrap modulo 2^32.
 */
module Duration {
  import opened Sequences
  import Decimal

  const TWO_31 := 0x8000_0000
  const TWO_32 := 0x1_0000_0000
  const INT_MAX := TWO_31 - 1

  const MINUTE := 60
  const HOUR := 60 * MINUTE
  const DAY := 24 * HOUR
  const WEEK := 7 * DAY

  type UInt = n: nat | n < TWO_32

  /** isNeg is 1 for a negative duration, -1 for a bad one. */
  datatype Duration = Duration(isNeg: int, days: UInt, weeks: UInt, hours: UInt, minutes: UInt, seconds: UInt)

  const NULL_DURATION := Duration(0, 0, 0, 0, 0, 0)
  const BAD_DURATION := Duration(-1, 0, 0, 0, 0, 0)

  /** Conversion of any integer to unsigned int. */
  function ToUInt(n: int): UInt {
    n % TWO_32
  }

  /** Conversion of an unsigned int to int. */
  function ToInt(n: UInt): int {
    if n < TWO_31 then n else n - TWO_32
  }

  // ------------------------------------------------------------------ seconds

  /** The length in seconds, before any wrap-around. */
  function Total(d: Duration): nat {
    d.seconds + MINUTE * d.minutes + HOUR * d.hours + DAY * d.days + WEEK * d.weeks
  }

  function AsInt(d: Duration): int {
    ToInt(ToUInt(Total(d) * (if d.isNeg == 1 then -1 else 1)))
  }

  /** The fields in seconds, with their sign. */
  function SignedSeconds(d: Duration): int {
    (if d.isNeg == 1 then -1 else 1)
    * (d.seconds + 60 * d.minutes + 3600 * d.hours + 86400 * d.days + 604800 * d.weeks)
  }

  /** as_int is the one int that is congruent to them modulo 2^32. */
  lemma AsIntExact(d: Duration)
    ensures -0x8000_0000 <= AsInt(d) <= 0x7FFF_FFFF
    ensures exists k: int :: AsInt(d) == SignedSeconds(d) + 0x1_0000_0000 * k
  {
    var n := Total(d) * (if d.isNeg == 1 then -1 else 1);
    assert n == SignedSeconds(d);
    var k := if AsInt(d) < 0 then -(n / TWO_32) - 1 else -(n / TWO_32);
    assert n == TWO_32 * (n / TWO_32) + n % TWO_32;
    assert AsInt(d) == SignedSeconds(d) + 0x1_0000_0000 * k;
  }

  /** So it is those seconds whenever they fit in an int. */
  lemma AsIntInRange(d: Duration)
    requires -0x7FFF_FFFF <= SignedSeconds(d) <= 0x7FFF_FFFF
    ensures AsInt(d) == SignedSeconds(d)
  {
    AsIntExact(d);
    var k: int :| AsInt(d) == SignedSeconds(d) + 0x1_0000_0000 * k;
    assert k == 0;
  }

  /** The sign, and either weeks alone or days down to seconds; only non-negative numbers are divided. */
  function FromInt(t: int): Duration
    requires -TWO_31 < t < TWO_31
  {
    var isNeg := if t < 0 then 1 else 0;
    var n: nat := if t < 0 then -t else t;
    if n % WEEK == 0 then NULL_DURATION.(isNeg := isNeg, weeks := n / WEEK)
    else Duration(isNeg, n / DAY, 0, n % DAY / HOUR, n % HOUR / MINUTE, n % MINUTE)
  }

  method DurationFromInt(t0: int) returns (dur: Duration)
    requires -TWO_31 < t0 < TWO_31
    ensures dur == FromInt(t0)
  {
    var t, used := t0, 0;
    dur := NULL_DURATION;
    if t < 0 {
      dur := dur.(isNeg := 1);
      t := -t;
    }
    if t % WEEK == 0 {
      dur := dur.(weeks := t / WEEK);
    } else {
      used := used + dur.weeks * WEEK;
      dur := dur.(days := (t - used) / DAY);
      used := used + dur.days * DAY;
      Rest(t, DAY);
      assert t - used == t % DAY;
      dur := dur.(hours := (t - used) / HOUR);
      used := used + dur.hours * HOUR;
      Nested(t);
      Rest(t % DAY, HOUR);
      assert t - used == t % HOUR;
      dur := dur.(minutes := (t - used) / MINUTE);
      used := used + dur.minutes * MINUTE;
      Rest(t % HOUR, MINUTE);
      assert t - used == t % MINUTE;
      dur := dur.(seconds := t - used);
    }
  }

  lemma Rest(n: nat, m: int)
    requires m == MINUTE || m == HOUR || m == DAY
    ensures n - n / m * m == n % m
  {
  }

  lemma Nested(n: nat)
    ensures n % DAY % HOUR == n % HOUR && n % HOUR % MINUTE == n % MINUTE
  {
    HourOfDay(n);
    MinuteOfHour(n);
  }

  lemma Remainder(n: int, q: int, r: int, m: int)
    requires m == MINUTE || m == HOUR
    requires n == m * q + r && 0 <= r < m
    ensures r == n % m
  {
    var e := n / m;
    assert n == m * e + n % m;
    assert m * (q - e) == n % m - r;
    if m == MINUTE {
      assert q == e;
    } else {
      assert q == e;
    }
  }

  lemma HourOfDay(n: nat)
    ensures n % DAY % HOUR == n % HOUR
  {
    var d, h := n / DAY, n % DAY / HOUR;
    assert n == DAY * d + n % DAY;
    Remainder(n, 24 * d + h, n % DAY % HOUR, HOUR);
  }

  lemma MinuteOfHour(n: nat)
    ensures n % HOUR % MINUTE == n % MINUTE
  {
    var h, m := n / HOUR, n % HOUR / MINUTE;
    assert n == HOUR * h + n % HOUR;
    Remainder(n, 60 * h + m, n % HOUR % MINUTE, MINUTE);
  }

  lemma FieldsAddUp(n: nat)
    ensures n == DAY * (n / DAY) + HOUR * (n % DAY / HOUR) + MINUTE * (n % HOUR / MINUTE) + n % MINUTE
  {
    HourOfDay(n);
    MinuteOfHour(n);
    assert n % DAY == HOUR * (n % DAY / HOUR) + n % DAY % HOUR;
  }

  /** The duration of t seconds lasts t seconds: in weeks alone if that is possible, else with normal fields. */
  lemma FromIntExact(t: int)
    requires -TWO_31 < t < TWO_31
    ensures AsInt(FromInt(t)) == t
    ensures var d := FromInt(t);
            WeeksAlone(d) && FieldsFit(d) && d.hours < 24 && d.minutes < 60 && d.seconds < 60
    ensures var d := FromInt(t);
            d.isNeg == (if t < 0 then 1 else 0)
            && (t % 604800 == 0 <==> d.days == 0 && d.hours == 0 && d.minutes == 0 && d.seconds == 0)
  {
    var n: nat := if t < 0 then -t else t;
    TotalIs(t, n);
    AsIntInRange(FromInt(t));
    WeeksOnly(t, n);
  }

  lemma WeeksOnly(t: int, n: nat)
    requires -TWO_31 < t < TWO_31 && n == if t < 0 then -t else t
    ensures t % WEEK == 0 <==> n % WEEK == 0
    ensures var d := FromInt(t);
            n % WEEK == 0 <==> d.days == 0 && d.hours == 0 && d.minutes == 0 && d.seconds == 0
  {
    Multiple(t, n);
    FieldsAddUp(n);
  }

  lemma Multiple(t: int, n: nat)
    requires n == t || n == -t
    ensures t % WEEK == 0 <==> n % WEEK == 0
  {
    var q, r := n / WEEK, n % WEEK;
    if n != t {
      assert t == WEEK * -q - r;
      if r != 0 {
        assert t == WEEK * (-q - 1) + (WEEK - r);
        assert t % WEEK == WEEK - r;
      } else {
        assert t % WEEK == 0;
      }
    }
  }

  lemma TotalIs(t: int, n: nat)
    requires -TWO_31 < t < TWO_31 && n == if t < 0 then -t else t
    ensures Total(FromInt(t)) == n
  {
    FieldsAddUp(n);
  }

  /** Non-zero weeks come without any other field. */
  predicate WeeksAlone(d: Duration) {
    d.weeks != 0 ==> d.days == 0 && d.hours == 0 && d.minutes == 0 && d.seconds == 0
  }

  predicate FieldsFit(d: Duration) {
    d.weeks <= INT_MAX && d.days <= INT_MAX && d.hours <= INT_MAX && d.minutes <= INT_MAX && d.seconds <= INT_MAX
  }

  // ------------------------------------------------------------------ the printer

  /** printf("%d") of an unsigned value: read as a signed one. */
  function Signed(v: UInt): string {
    if v < TWO_31 then Decimal.Print(v) else "-" + Decimal.Print(TWO_32 - v)
  }

  function Printout(v: UInt, unit: char): string {
    if v == 0 then "" else Signed(v) + [unit]
  }

  function TimePart(d: Duration): string {
    if d.hours == 0 && d.minutes == 0 && d.seconds == 0 then ""
    else "T" + (Printout(d.hours, 'H') + (Printout(d.minutes, 'M') + Printout(d.seconds, 'S')))
  }

  function DatePart(d: Duration): string {
    Printout(d.weeks, 'W') + (Printout(d.days, 'D') + TimePart(d))
  }

  /** The printed form of a duration. */
  function Printed(d: Duration): string {
    if AsInt(d) == 0 then "PT0S"
    else (if d.isNeg == 1 then "-" else "") + ("P" + DatePart(d))
  }

  method AppendSegment(buf0: string, sep: char, value: UInt) returns (buf: string)
    ensures buf == buf0 + (Signed(value) + [sep])
  {
    buf := buf0 + Signed(value);
    buf := buf + [sep];
    Assoc(buf0, Signed(value), [sep]);
  }

  method AppendTime(buf0: string, d: Duration) returns (buf: string)
    ensures buf == buf0 + TimePart(d)
  {
    buf := buf0;
    if d.hours != 0 || d.minutes != 0 || d.seconds != 0 {
      buf := buf + "T";
      ghost var b1 := buf;
      NothingAfter(b1);
      if d.hours != 0 {
        buf := AppendSegment(buf, 'H', d.hours);
      }
      assert buf == b1 + Printout(d.hours, 'H');
      ghost var b2 := buf;
      NothingAfter(b2);
      if d.minutes != 0 {
        buf := AppendSegment(buf, 'M', d.minutes);
      }
      assert buf == b2 + Printout(d.minutes, 'M');
      ghost var b3 := buf;
      NothingAfter(b3);
      if d.seconds != 0 {
        buf := AppendSegment(buf, 'S', d.seconds);
      }
      assert buf == b3 + Printout(d.seconds, 'S');
      Assoc(b2, Printout(d.minutes, 'M'), Printout(d.seconds, 'S'));
      Assoc(b1, Printout(d.hours, 'H'), Printout(d.minutes, 'M') + Printout(d.seconds, 'S'));
      Assoc(buf0, "T", Printout(d.hours, 'H') + (Printout(d.minutes, 'M') + Printout(d.seconds, 'S')));
    }
  }

  /** The part of the routine below that follows the P. */
  method AppendDate(buf0: string, d: Duration) returns (buf: string)
    ensures buf == buf0 + DatePart(d)
  {
    buf := buf0;
    NothingAfter(buf0);
    if d.weeks != 0 {
      buf := AppendSegment(buf, 'W', d.weeks);
    }
    assert buf == buf0 + Printout(d.weeks, 'W');
    ghost var weeks := buf;
    NothingAfter(weeks);
    if d.days != 0 {
      buf := AppendSegment(buf, 'D', d.days);
    }
    assert buf == weeks + Printout(d.days, 'D');
    buf := AppendTime(buf, d);
    Assoc(weeks, Printout(d.days, 'D'), TimePart(d));
    Assoc(buf0, Printout(d.weeks, 'W'), Printout(d.days, 'D') + TimePart(d));
  }

  lemma PrintedParts(d: Duration, sign: string)
    requires AsInt(d) != 0 && sign == if d.isNeg == 1 then "-" else ""
    ensures (sign + "P") + DatePart(d) == Printed(d)
  {
    Assoc(sign, "P", DatePart(d));
  }

  method AsIcalString(d: Duration) returns (buf: string)
    ensures buf == Printed(d)
  {
    buf := "";
    var seconds := AsInt(d);
    if seconds != 0 {
      if d.isNeg == 1 {
        buf := buf + "-";
      }
      PrintedParts(d, buf);
      buf := buf + "P";
      buf := AppendDate(buf, d);
    } else {
      buf := buf + "PT0S";
    }
  }

  // ------------------------------------------------------------------- the parser

  /** The variables of the parser's loop; digits is -1 when no number is pending. */
  datatype State = State(beginFlag: bool, timeFlag: bool, dateFlag: bool, weekFlag: bool, digits: int, d: Duration)
  {
    predicate Wf() { digits >= -1 }
  }

  const START := State(false, false, false, false, -1, NULL_DURATION)

  datatype Outcome = Next(st: State) | Error

  /** One turn of the loop, at position i of the string, whose rest is given. */
  function Step(i: nat, rest: string, st: State): (o: Outcome)
    requires rest != "" && st.Wf()
    ensures o.Next? ==> o.st.Wf()
  {
    var c := rest[0];
    if c == '-' then
      if i != 0 || st.beginFlag then Error else Next(st.(d := st.d.(isNeg := 1)))
    else if c == 'P' then
      if i != 0 && i != 1 then Error else Next(st.(beginFlag := true))
    else if c == 'T' then
      Next(st.(timeFlag := true))
    else if Decimal.IsDigit(c) then
      if st.digits != -1 then Next(st)
      else if !st.beginFlag then Error
      else Next(st.(digits := Decimal.Scan(rest)))
    else
      Assign(c, st)
  }

  /** A unit letter: the pending number goes to its field. */
  function Assign(c: char, st: State): (o: Outcome)
    requires st.Wf()
    ensures o.Next? ==> o.st.Wf()
  {
    if c == 'H' then
      if !st.timeFlag || st.weekFlag || st.d.hours != 0 || st.digits == -1 then Error
      else Next(st.(d := st.d.(hours := ToUInt(st.digits)), digits := -1))
    else if c == 'M' then
      if !st.timeFlag || st.weekFlag || st.d.minutes != 0 || st.digits == -1 then Error
      else Next(st.(d := st.d.(minutes := ToUInt(st.digits)), digits := -1))
    else if c == 'S' then
      if !st.timeFlag || st.weekFlag || st.d.seconds != 0 || st.digits == -1 then Error
      else Next(st.(d := st.d.(seconds := ToUInt(st.digits)), digits := -1))
    else if c == 'W' then
      if st.timeFlag || st.dateFlag || st.d.weeks != 0 || st.digits == -1 then Error
      else Next(st.(weekFlag := true, d := st.d.(weeks := ToUInt(st.digits)), digits := -1))
    else if c == 'D' then
      if st.timeFlag || st.weekFlag || st.d.days != 0 || st.digits == -1 then Error
      else Next(st.(dateFlag := true, d := st.d.(days := ToUInt(st.digits)), digits := -1))
    else Error
  }

  /** The parser from position i on. */
  function Parse(i: nat, rest: string, st: State): Duration
    requires st.Wf()
    decreases |rest|
  {
    if rest == "" then st.d
    else match Step(i, rest, st)
      case Error => BAD_DURATION
      case Next(st') => Parse(i + 1, rest[1..], st')
  }

  function FromString(s: string): Duration {
    Parse(0, s, START)
  }

  /** icaldurationtype_from_string, letter by letter. */
  method DurationFromString(str: string) returns (result: Duration)
    ensures result == FromString(str)
  {
    var beginFlag, timeFlag, dateFlag, weekFlag := false, false, false, false;
    var digits := -1;
    var d := NULL_DURATION;
    var i := 0;
    while i != |str|
      invariant 0 <= i <= |str| && digits >= -1
      invariant FromString(str) == Parse(i, str[i..], State(beginFlag, timeFlag, dateFlag, weekFlag, digits, d))
      decreases |str| - i
    {
      var p := str[i];
      assert str[i..][0] == p && str[i..][1..] == str[i + 1..];
      match p {
        case '-' =>
          if i != 0 || beginFlag { return BAD_DURATION; }
          d := d.(isNeg := 1);
        case 'P' =>
          if i != 0 && i != 1 { return BAD_DURATION; }
          beginFlag := true;
        case 'T' =>
          timeFlag := true;
        case 'H' =>
          if !timeFlag || weekFlag || d.hours != 0 || digits == -1 { return BAD_DURATION; }
          d := d.(hours := ToUInt(digits));
          digits := -1;
        case 'M' =>
          if !timeFlag || weekFlag || d.minutes != 0 || digits == -1 { return BAD_DURATION; }
          d := d.(minutes := ToUInt(digits));
          digits := -1;
        case 'S' =>
          if !timeFlag || weekFlag || d.seconds != 0 || digits == -1 { return BAD_DURATION; }
          d := d.(seconds := ToUInt(digits));
          digits := -1;
        case 'W' =>
          if timeFlag || dateFlag || d.weeks != 0 || digits == -1 { return BAD_DURATION; }
          weekFlag := true;
          d := d.(weeks := ToUInt(digits));
          digits := -1;
        case 'D' =>
          if timeFlag || weekFlag || d.days != 0 || digits == -1 { return BAD_DURATION; }
          dateFlag := true;
          d := d.(days := ToUInt(digits));
          digits := -1;
        case _ =>
          if !Decimal.IsDigit(p) { return BAD_DURATION; }
          if digits == -1 {
            if !beginFlag { return BAD_DURATION; }
            digits := Decimal.Scan(str[i..]);
          }
      }
      i := i + 1;
    }
    result := d;
  }

  // -------------------------------------------------- what every parsed string gives

  /** What the parser's variables satisfy at every turn. */
  predicate Consistent(st: State) {
    && st.Wf()
    && (st.weekFlag ==> st.d.days == 0 && st.d.hours == 0 && st.d.minutes == 0 && st.d.seconds == 0)
    && (st.d.weeks != 0 ==> st.weekFlag)
    && (st.d.days != 0 ==> st.dateFlag)
    && (st.d.hours != 0 || st.d.minutes != 0 || st.d.seconds != 0 ==> st.timeFlag)
    && (st.d.isNeg == 0 || st.d.isNeg == 1)
  }

  /** The numbers of a string fit in an int, as sscanf requires. */
  predicate NumbersFit(s: string) {
    forall i :: 0 <= i < |s| ==> Decimal.Scan(s[i..]) <= INT_MAX
  }

  /** A parsed duration is bad, or has a sign of 0 or 1 and weeks only alone. */
  lemma {:induction false} ParseShape(i: nat, rest: string, st: State)
    requires Consistent(st)
    ensures var r := Parse(i, rest, st);
            r == BAD_DURATION || ((r.isNeg == 0 || r.isNeg == 1) && WeeksAlone(r))
    decreases |rest|
  {
    if rest != "" {
      match Step(i, rest, st)
      case Error =>
      case Next(st') => ParseShape(i + 1, rest[1..], st');
    }
  }

  predicate StateFits(st: State) {
    st.digits <= INT_MAX && FieldsFit(st.d)
  }

  lemma StepFits(i: nat, rest: string, st: State)
    requires rest != "" && st.Wf() && StateFits(st) && Decimal.Scan(rest) <= INT_MAX
    ensures var o := Step(i, rest, st); o.Next? ==> StateFits(o.st)
  {
  }

  lemma NumbersFitTail(s: string)
    requires s != "" && NumbersFit(s)
    ensures NumbersFit(s[1..]) && Decimal.Scan(s) <= INT_MAX
  {
    assert s[0..] == s;
    forall k | 0 <= k < |s[1..]| ensures Decimal.Scan(s[1..][k..]) <= INT_MAX {
      assert s[1..][k..] == s[k + 1..];
    }
  }

  lemma {:induction false} ParseFits(i: nat, rest: string, st: State)
    requires st.Wf() && StateFits(st) && NumbersFit(rest)
    ensures FieldsFit(Parse(i, rest, st))
    decreases |rest|
  {
    if rest != "" {
      NumbersFitTail(rest);
      StepFits(i, rest, st);
      match Step(i, rest, st)
      case Error =>
      case Next(st') => ParseFits(i + 1, rest[1..], st');
    }
  }

  /**
    Whatever the string, the parser reports a bad duration or returns one with weeks alone;
    and none of its numbers is lost when they fit in an int.
   */
  lemma EveryString(s: string)
    ensures var r := FromString(s);
            r == BAD_DURATION || ((r.isNeg == 0 || r.isNeg == 1) && WeeksAlone(r))
    ensures NumbersFit(s) ==> FieldsFit(FromString(s))
  {
    ParseShape(0, s, START);
    if NumbersFit(s) {
      ParseFits(0, s, START);
    }
  }

  // ------------------------------------------------------------------- the grammar

  /** A number and its unit. */
  datatype Segment = Segment(digits: string, unit: char)

  predicate Unit(c: char) {
    c == 'H' || c == 'M' || c == 'S' || c == 'W' || c == 'D'
  }

  /** Any digits, leading zeros too, of a number that fits in an int. */
  predicate IsSegment(g: Segment) {
    g.digits != "" && Decimal.AllDigits(g.digits) && Decimal.Value(g.digits) <= INT_MAX && Unit(g.unit)
  }

  predicate AreSegments(segments: seq<Segment>) {
    forall g <- segments :: IsSegment(g)
  }

  function Number(g: Segment): nat {
    if Decimal.AllDigits(g.digits) then Decimal.Value(g.digits) else 0
  }

  function SegmentsText(segments: seq<Segment>): string {
    if segments == [] then "" else segments[0].digits + ([segments[0].unit] + SegmentsText(segments[1..]))
  }

  /** A sign, P, some segments, and T with some segments if there is a time part. */
  function Text(negative: bool, date: seq<Segment>, timed: bool, time: seq<Segment>): string {
    (if negative then "-" else "")
    + ("P" + (SegmentsText(date) + if timed then "T" + SegmentsText(time) else ""))
  }

  /** The number of the last segment with the unit, or 0. */
  function Amount(segments: seq<Segment>, unit: char): nat {
    if segments == [] then 0
    else
      var last := segments[|segments| - 1];
      if last.unit == unit then Number(last) else Amount(segments[..|segments| - 1], unit)
  }

  /** Before a segment there is none of its unit that is not zero. */
  predicate Once(segments: seq<Segment>) {
    forall i, j :: 0 <= i < j < |segments| && segments[i].unit == segments[j].unit ==> Number(segments[i]) == 0
  }

  predicate AllOf(segments: seq<Segment>, units: string) {
    forall g <- segments :: g.unit in units
  }

  /** Days, then hours, minutes and seconds in any order; or weeks alone. */
  predicate Legal(date: seq<Segment>, time: seq<Segment>) {
    && Once(date) && Once(time) && AllOf(time, "HMS")
    && (AllOf(date, "D") || (AllOf(date, "W") && time == []))
  }

  /** What the text says. */
  function Meant(negative: bool, date: seq<Segment>, time: seq<Segment>): Duration
    requires AreSegments(date) && AreSegments(time)
  {
    AmountFits(date, 'D');
    AmountFits(date, 'W');
    AmountFits(time, 'H');
    AmountFits(time, 'M');
    AmountFits(time, 'S');
    Duration(if negative then 1 else 0, Amount(date, 'D'), Amount(date, 'W'),
      Amount(time, 'H'), Amount(time, 'M'), Amount(time, 'S'))
  }

  lemma {:induction false} AmountFits(segments: seq<Segment>, unit: char)
    requires AreSegments(segments)
    ensures Amount(segments, unit) <= INT_MAX
  {
    if segments != [] {
      assert segments[|segments| - 1] in segments;
      AmountFits(segments[..|segments| - 1], unit);
    }
  }

  lemma {:induction false} AmountOfNone(segments: seq<Segment>, unit: char)
    requires forall g <- segments :: g.unit != unit
    ensures Amount(segments, unit) == 0
  {
    if segments != [] {
      assert segments[|segments| - 1] in segments;
      AmountOfNone(segments[..|segments| - 1], unit);
    }
  }

  lemma AmountSnoc(segments: seq<Segment>, g: Segment, unit: char)
    ensures Amount(segments + [g], unit) == if g.unit == unit then Number(g) else Amount(segments, unit)
  {
    assert (segments + [g])[..|segments|] == segments;
  }

  /** It is that of segment k, after which there is none with the unit; k is -1 when there is none at all. */
  predicate IsLast(segments: seq<Segment>, unit: char, k: int) {
    && -1 <= k < |segments| && (forall j :: k < j < |segments| ==> segments[j].unit != unit)
    && Amount(segments, unit) == (if k < 0 then 0 else Number(segments[k]))
    && (k >= 0 ==> segments[k].unit == unit)
  }

  lemma {:induction false} AmountIsLast(segments: seq<Segment>, unit: char) returns (k: int)
    ensures IsLast(segments, unit, k)
  {
    if segments == [] {
      k := -1;
    } else if segments[|segments| - 1].unit == unit {
      k := |segments| - 1;
    } else {
      k := AmountIsLast(segments[..|segments| - 1], unit);
    }
  }

  lemma OnceSnoc(segments: seq<Segment>, g: Segment)
    requires Once(segments)
    ensures Once(segments + [g]) <==> Amount(segments, g.unit) == 0
  {
    var r := segments + [g];
    var k := AmountIsLast(segments, g.unit);
    if Once(r) {
      assert k >= 0 ==> r[k].unit == r[|segments|].unit;
    } else {
      var i, j :| 0 <= i < j < |r| && r[i].unit == r[j].unit && Number(r[i]) != 0;
      assert j == |segments| && segments[i] == r[i];
    }
  }

  lemma OnceFront(segments: seq<Segment>, g: Segment)
    requires Once(segments + [g])
    ensures Once(segments)
  {
    assert forall i :: 0 <= i < |segments| ==> (segments + [g])[i] == segments[i];
  }

  // ----------------------------------------------------------- reading the grammar

  /** Once a number is pending its remaining digits are skipped. */
  lemma {:induction false} SkipDigits(i: nat, digits: string, tail: string, st: State)
    requires st.digits >= 0 && Decimal.AllDigits(digits)
    ensures Parse(i, digits + tail, st) == Parse(i + |digits|, tail, st)
    decreases |digits|
  {
    if digits == "" {
      assert digits + tail == tail;
    } else {
      assert (digits + tail)[1..] == digits[1..] + tail;
      assert Decimal.IsDigit(digits[0]);
      SkipDigits(i + 1, digits[1..], tail, st);
    }
  }

  /** The first digit of a number makes it the pending one. */
  lemma StepDigit(i: nat, text: string, st: State)
    requires st.beginFlag && st.digits == -1 && text != "" && Decimal.IsDigit(text[0])
    ensures Parse(i, text, st) == Parse(i + 1, text[1..], st.(digits := Decimal.Scan(text)))
  {
    var st' := st.(digits := Decimal.Scan(text));
    assert Step(i, text, st) == Next(st');
  }

  lemma DigitsFirst(digits: string, rest: string)
    requires digits != "" && Decimal.AllDigits(digits)
    requires rest != "" ==> !Decimal.IsDigit(rest[0])
    ensures Decimal.IsDigit((digits + rest)[0]) && (digits + rest)[1..] == digits[1..] + rest
    ensures Decimal.AllDigits(digits[1..]) && Decimal.Scan(digits + rest) == Decimal.Value(digits)
  {
    Decimal.RunOf(digits, rest);
    assert digits[0] in digits && forall c <- digits[1..] :: c in digits;
  }

  /** A number becomes the pending one. */
  lemma ParseNumber(i: nat, digits: string, rest: string, st: State)
    requires st.beginFlag && st.digits == -1 && digits != "" && Decimal.AllDigits(digits)
    requires rest != "" ==> !Decimal.IsDigit(rest[0])
    ensures Parse(i, digits + rest, st) == Parse(i + |digits|, rest, st.(digits := Decimal.Value(digits)))
  {
    DigitsFirst(digits, rest);
    StepDigit(i, digits + rest, st);
    SkipDigits(i + 1, digits[1..], rest, st.(digits := Decimal.Value(digits)));
  }

  /** The state after some segments, or Error. */
  function After(segments: seq<Segment>, st: State): (o: Outcome)
    requires st.Wf()
    ensures o.Next? ==> o.st.Wf()
    decreases |segments|
  {
    if segments == [] then Next(st)
    else
      match After(segments[..|segments| - 1], st)
      case Error => Error
      case Next(st') =>
        var last := segments[|segments| - 1];
        Assign(last.unit, st'.(digits := Number(last)))
  }

  function Continued(o: Outcome, i: nat, tail: string): Duration
    requires o.Next? ==> o.st.Wf()
  {
    match o
    case Error => BAD_DURATION
    case Next(st) => Parse(i, tail, st)
  }

  /** The parser has no number pending after a segment. */
  lemma AssignClears(unit: char, st: State)
    requires Unit(unit) && st.Wf() && st.beginFlag
    ensures Assign(unit, st).Next? ==> Assign(unit, st).st.digits == -1 && Assign(unit, st).st.beginFlag
  {
  }

  lemma {:induction false} AfterClears(segments: seq<Segment>, st: State)
    requires AreSegments(segments) && st.beginFlag && st.digits == -1
    ensures var o := After(segments, st); o.Next? ==> o.st.digits == -1 && o.st.beginFlag
    decreases |segments|
  {
    if segments != [] {
      var front, last := segments[..|segments| - 1], segments[|segments| - 1];
      assert last in segments;
      AfterClears(front, st);
      match After(front, st)
      case Error =>
      case Next(st') => AssignClears(last.unit, st'.(digits := Number(last)));
    }
  }

  lemma ParseUnit(i: nat, unit: char, tail: string, st: State)
    requires Unit(unit) && st.Wf()
    ensures Parse(i, [unit] + tail, st) == Continued(Assign(unit, st), i + 1, tail)
  {
    assert ([unit] + tail)[1..] == tail;
  }

  /** Reading a segment. */
  lemma ParseSegment(i: nat, g: Segment, tail: string, st: State) returns (i': nat)
    requires IsSegment(g) && st.beginFlag && st.digits == -1
    ensures i' >= i && Parse(i, g.digits + ([g.unit] + tail), st)
                       == Continued(Assign(g.unit, st.(digits := Number(g))), i', tail)
  {
    var st' := st.(digits := Number(g));
    i' := i + |g.digits| + 1;
    calc {
      Parse(i, g.digits + ([g.unit] + tail), st);
      { ParseNumber(i, g.digits, [g.unit] + tail, st); }
      Parse(i + |g.digits|, [g.unit] + tail, st');
      { ParseUnit(i + |g.digits|, g.unit, tail, st'); }
      Continued(Assign(g.unit, st'), i', tail);
    }
  }

  lemma {:induction false} SegmentsTextSnoc(segments: seq<Segment>, g: Segment, tail: string)
    ensures SegmentsText(segments + [g]) + tail == SegmentsText(segments) + (g.digits + ([g.unit] + tail))
    decreases |segments|
  {
    var all := segments + [g];
    if segments == [] {
      assert all[1..] == [];
      Assoc(g.digits, [g.unit] + "", tail);
      Assoc([g.unit], "", tail);
      assert "" + tail == tail && "" + (g.digits + ([g.unit] + tail)) == g.digits + ([g.unit] + tail);
    } else {
      var first, rest := segments[0], segments[1..];
      assert all[1..] == rest + [g];
      SegmentsTextSnoc(rest, g, tail);
      var end := g.digits + ([g.unit] + tail);
      Assoc(first.digits, [first.unit] + SegmentsText(rest + [g]), tail);
      Assoc([first.unit], SegmentsText(rest + [g]), tail);
      Assoc(first.digits, [first.unit] + SegmentsText(rest), end);
      Assoc([first.unit], SegmentsText(rest), end);
    }
  }

  /** Segments are read one after the other. */
  lemma {:induction false} ParseSegments(i: nat, segments: seq<Segment>, tail: string, st: State) returns (i': nat)
    requires AreSegments(segments) && st.beginFlag && st.digits == -1
    ensures i' >= i && Parse(i, SegmentsText(segments) + tail, st) == Continued(After(segments, st), i', tail)
    decreases |segments|
  {
    if segments == [] {
      i' := i;
      assert "" + tail == tail;
    } else {
      var front, last := segments[..|segments| - 1], segments[|segments| - 1];
      assert segments == front + [last] && last in segments;
      SegmentsTextSnoc(front, last, tail);
      i' := ParseSegments(i, front, last.digits + ([last.unit] + tail), st);
      AfterClears(front, st);
      match After(front, st)
      case Error =>
      case Next(st') => i' := ParseSegment(i', last, tail, st');
    }
  }

  predicate LegalDate(date: seq<Segment>) {
    Once(date) && (AllOf(date, "D") || AllOf(date, "W"))
  }

  function Begun(negative: bool): State {
    START.(beginFlag := true, d := NULL_DURATION.(isNeg := if negative then 1 else 0))
  }

  predicate Has(segments: seq<Segment>, unit: char) {
    exists g <- segments :: g.unit == unit
  }

  /** The state after the date part. */
  function DateState(negative: bool, date: seq<Segment>): State
    requires AreSegments(date)
  {
    Begun(negative).(dateFlag := Has(date, 'D'), weekFlag := Has(date, 'W'), d := Meant(negative, date, []))
  }

  lemma {:induction false} AfterDate(negative: bool, date: seq<Segment>)
    requires AreSegments(date)
    ensures After(date, Begun(negative)) == if LegalDate(date) then Next(DateState(negative, date)) else Error
    decreases |date|
  {
    if date != [] {
      var front, last := date[..|date| - 1], date[|date| - 1];
      assert date == front + [last] && last in date && AreSegments(front);
      AfterDate(negative, front);
      LegalDateSnoc(front, last);
      if LegalDate(front) {
        DateStep(negative, front, last);
      }
    }
  }

  /** What a date part may go on with. */
  predicate Follows(front: seq<Segment>, last: Segment) {
    && Amount(front, last.unit) == 0
    && ((last.unit == 'D' && !Has(front, 'W')) || (last.unit == 'W' && !Has(front, 'D')))
  }

  lemma LegalDateSnoc(front: seq<Segment>, last: Segment)
    ensures LegalDate(front + [last]) <==> LegalDate(front) && Follows(front, last)
  {
    var all := front + [last];
    assert last in all && forall g :: g in front + [last] <==> g in front || g == last;
    if Once(all) {
      OnceFront(front, last);
    }
    if Once(front) {
      OnceSnoc(front, last);
    }
  }

  lemma DateStep(negative: bool, front: seq<Segment>, last: Segment)
    requires AreSegments(front) && IsSegment(last) && LegalDate(front)
    ensures AreSegments(front + [last])
    ensures Assign(last.unit, DateState(negative, front).(digits := Number(last)))
         == if Follows(front, last) then Next(DateState(negative, front + [last])) else Error
  {
    SegmentsSnoc(front, last);
    HasSnoc(front, last, 'D');
    HasSnoc(front, last, 'W');
    AmountSnoc(front, last, 'D');
    AmountSnoc(front, last, 'W');
    AmountFits(front, 'D');
    AmountFits(front, 'W');
    NoneOrAll(front);
  }

  lemma SegmentsSnoc(segments: seq<Segment>, g: Segment)
    ensures AreSegments(segments + [g]) <==> AreSegments(segments) && IsSegment(g)
  {
    assert forall h :: h in segments + [g] <==> h in segments || h == g;
  }

  lemma HasSnoc(segments: seq<Segment>, g: Segment, unit: char)
    ensures Has(segments + [g], unit) <==> Has(segments, unit) || g.unit == unit
  {
    assert forall h :: h in segments + [g] <==> h in segments || h == g;
  }

  /** Without days, or without weeks, the date part is what it looks like. */
  lemma NoneOrAll(date: seq<Segment>)
    requires AreSegments(date)
    ensures AllOf(date, "D") ==> !Has(date, 'W') && Amount(date, 'W') == 0
    ensures AllOf(date, "W") ==> !Has(date, 'D') && Amount(date, 'D') == 0
  {
    if AllOf(date, "D") {
      AmountOfNone(date, 'W');
    }
    if AllOf(date, "W") {
      AmountOfNone(date, 'D');
    }
  }

  predicate LegalTime(time: seq<Segment>) {
    Once(time) && AllOf(time, "HMS")
  }

  /** The state after the time part. */
  function TimeState(st: State, time: seq<Segment>): State
    requires AreSegments(time)
  {
    AmountFits(time, 'H');
    AmountFits(time, 'M');
    AmountFits(time, 'S');
    st.(d := st.d.(hours := Amount(time, 'H'), minutes := Amount(time, 'M'), seconds := Amount(time, 'S')))
  }

  predicate AtTime(st: State) {
    st.beginFlag && st.timeFlag && st.digits == -1 && st.d.hours == 0 && st.d.minutes == 0 && st.d.seconds == 0
  }

  lemma {:induction false} AfterTime(st: State, time: seq<Segment>)
    requires AreSegments(time) && AtTime(st)
    ensures After(time, st)
         == if LegalTime(time) && (time == [] || !st.weekFlag) then Next(TimeState(st, time)) else Error
    decreases |time|
  {
    if time != [] {
      var front, last := time[..|time| - 1], time[|time| - 1];
      assert time == front + [last] && last in time && AreSegments(front);
      AfterTime(st, front);
      LegalTimeSnoc(front, last);
      if LegalTime(front) {
        TimeStep(st, front, last);
      }
    }
  }

  lemma LegalTimeSnoc(front: seq<Segment>, last: Segment)
    ensures LegalTime(front + [last]) <==>
            LegalTime(front) && Amount(front, last.unit) == 0 && last.unit in "HMS"
  {
    var all := front + [last];
    assert last in all && forall g :: g in front + [last] <==> g in front || g == last;
    if Once(all) {
      OnceFront(front, last);
    }
    if Once(front) {
      OnceSnoc(front, last);
    }
  }

  lemma TimeStep(st: State, front: seq<Segment>, last: Segment)
    requires AreSegments(front) && IsSegment(last) && AtTime(st)
    ensures AreSegments(front + [last])
    ensures Assign(last.unit, TimeState(st, front).(digits := Number(last)))
         == if Amount(front, last.unit) == 0 && last.unit in "HMS" && !st.weekFlag
            then Next(TimeState(st, front + [last])) else Error
  {
    SegmentsSnoc(front, last);
    AmountSnoc(front, last, 'H');
    AmountSnoc(front, last, 'M');
    AmountSnoc(front, last, 'S');
    AmountFits(front, 'H');
    AmountFits(front, 'M');
    AmountFits(front, 'S');
  }

  /** The start of every text. */
  lemma ParseHead(negative: bool, tail: string) returns (i: nat)
    ensures i >= 1
    ensures FromString((if negative then "-" else "") + ("P" + tail)) == Parse(i, tail, Begun(negative))
  {
    var body := "P" + tail;
    assert body[1..] == tail;
    var st := START.(d := NULL_DURATION.(isNeg := if negative then 1 else 0));
    if negative {
      assert ("-" + body)[1..] == body;
      assert Step(0, "-" + body, START) == Next(st);
      assert Parse(0, "-" + body, START) == Parse(1, body, st);
      assert Step(1, body, st) == Next(st.(beginFlag := true));
      i := 2;
    } else {
      assert "" + body == body;
      assert Step(0, body, START) == Next(st.(beginFlag := true));
      assert Parse(0, body, START) == Parse(1, tail, st.(beginFlag := true));
      i := 1;
    }
  }

  lemma ParseT(i: nat, tail: string, st: State)
    requires st.Wf()
    ensures Parse(i, "T" + tail, st) == Parse(i + 1, tail, st.(timeFlag := true))
  {
    assert ("T" + tail)[1..] == tail;
  }

  lemma ParseTimePart(i: nat, timed: bool, time: seq<Segment>, negative: bool, date: seq<Segment>)
    requires AreSegments(date) && AreSegments(time) && (!timed ==> time == []) && LegalDate(date)
    ensures Parse(i, if timed then "T" + SegmentsText(time) else "", DateState(negative, date))
         == if Legal(date, time) then Meant(negative, date, time) else BAD_DURATION
  {
    var st := DateState(negative, date);
    NoneOrAll(date);
    assert Has(date, 'W') <==> !AllOf(date, "D");
    if timed {
      var st' := st.(timeFlag := true);
      ParseT(i, SegmentsText(time), st);
      NothingAfter(SegmentsText(time));
      var i' := ParseSegments(i + 1, time, "", st');
      AfterTime(st', time);
    }
  }

  /** Every text of this form is read as it is meant if it is legal, and as a bad duration if not. */
  lemma ReadText(negative: bool, date: seq<Segment>, timed: bool, time: seq<Segment>)
    requires AreSegments(date) && AreSegments(time) && (!timed ==> time == [])
    ensures FromString(Text(negative, date, timed, time))
         == if Legal(date, time) then Meant(negative, date, time) else BAD_DURATION
  {
    var tail := if timed then "T" + SegmentsText(time) else "";
    var i := ParseHead(negative, SegmentsText(date) + tail);
    var i' := ParseSegments(i, date, tail, Begun(negative));
    AfterDate(negative, date);
    if LegalDate(date) {
      ParseTimePart(i', timed, time, negative, date);
    }
  }

  // -------------------------------------------------------------- other strings

  /** A minus sign anywhere but in front makes the string bad. */
  lemma {:induction false} LateMinus(i: nat, rest: string, st: State)
    requires st.Wf() && i >= 1 && '-' in rest
    ensures Parse(i, rest, st) == BAD_DURATION
    decreases |rest|
  {
    if rest[0] != '-' {
      match Step(i, rest, st)
      case Error =>
      case Next(st') =>
        assert rest == [rest[0]] + rest[1..];
        LateMinus(i + 1, rest[1..], st');
    }
  }

  /** The characters the parser knows. */
  predicate Foreign(c: char) {
    c != '-' && c != 'P' && c != 'T' && !Decimal.IsDigit(c) && !Unit(c)
  }

  /** Any other character makes the string bad. */
  lemma {:induction false} ForeignIsBad(i: nat, rest: string, st: State)
    requires st.Wf() && exists c <- rest :: Foreign(c)
    ensures Parse(i, rest, st) == BAD_DURATION
    decreases |rest|
  {
    if !Foreign(rest[0]) {
      match Step(i, rest, st)
      case Error =>
      case Next(st') =>
        assert rest == [rest[0]] + rest[1..];
        ForeignIsBad(i + 1, rest[1..], st');
    }
  }

  /** So does a P after the second character. */
  lemma {:induction false} LateP(i: nat, rest: string, st: State)
    requires st.Wf() && i >= 2 && 'P' in rest
    ensures Parse(i, rest, st) == BAD_DURATION
    decreases |rest|
  {
    if rest[0] != 'P' {
      match Step(i, rest, st)
      case Error =>
      case Next(st') =>
        assert rest == [rest[0]] + rest[1..];
        LateP(i + 1, rest[1..], st');
    }
  }

  /** And a number or a unit, when there is no P. */
  lemma {:induction false} NoP(i: nat, rest: string, st: State)
    requires !st.beginFlag && st.digits == -1 && 'P' !in rest
    requires exists c <- rest :: Decimal.IsDigit(c) || Unit(c)
    ensures Parse(i, rest, st) == BAD_DURATION
    decreases |rest|
  {
    if !Decimal.IsDigit(rest[0]) && !Unit(rest[0]) {
      match Step(i, rest, st)
      case Error =>
      case Next(st') =>
        assert rest == [rest[0]] + rest[1..];
        NoP(i + 1, rest[1..], st');
    }
  }

  // -------------------------------------------------------- parsing what was printed

  /** A field of the duration, unless it is zero. */
  function Field(v: UInt, unit: char): seq<Segment> {
    if v == 0 then [] else [Segment(Signed(v), unit)]
  }

  function DateFields(d: Duration): seq<Segment> {
    Field(d.weeks, 'W') + Field(d.days, 'D')
  }

  function TimeFields(d: Duration): seq<Segment> {
    Field(d.hours, 'H') + (Field(d.minutes, 'M') + Field(d.seconds, 'S'))
  }

  lemma {:induction false} SegmentsTextConcat(a: seq<Segment>, b: seq<Segment>)
    ensures SegmentsText(a + b) == SegmentsText(a) + SegmentsText(b)
  {
    if a == [] {
      assert a + b == b;
    } else {
      assert (a + b)[1..] == a[1..] + b;
      SegmentsTextConcat(a[1..], b);
      Assoc(a[0].digits, [a[0].unit] + SegmentsText(a[1..]), SegmentsText(b));
      Assoc([a[0].unit], SegmentsText(a[1..]), SegmentsText(b));
    }
  }

  /** A field is printed as the int it is read as: one of 2^31 or more with a minus sign. */
  lemma SignedExact(v: UInt)
    ensures v <= 0x7FFF_FFFF ==> Decimal.AllDigits(Signed(v)) && Decimal.Weighted(Signed(v)) == v
    ensures v > 0x7FFF_FFFF ==>
              Signed(v)[0] == '-' && Decimal.AllDigits(Signed(v)[1..])
              && Decimal.Weighted(Signed(v)[1..]) == 0x1_0000_0000 - v
  {
    var n: nat := if v <= 0x7FFF_FFFF then v else 0x1_0000_0000 - v;
    Decimal.PrintValue(n);
    Decimal.ValueExact(Decimal.Print(n));
    if v > 0x7FFF_FFFF {
      assert Signed(v)[1..] == Decimal.Print(n);
    }
  }

  lemma FieldText(v: UInt, unit: char)
    ensures SegmentsText(Field(v, unit)) == Printout(v, unit)
  {
    if v != 0 {
      assert Field(v, unit)[1..] == [] && [unit] + "" == [unit];
    }
  }

  /** The printed form, for a total that is not zero: the sign, and the fields that are not zero in their order. */
  lemma PrintedForm(d: Duration)
    ensures AsInt(d) != 0 ==> Printed(d) == Text(d.isNeg == 1, DateFields(d), TimeFields(d) != [], TimeFields(d))
    ensures AsInt(d) == 0 ==> Printed(d) == Text(false, [], true, [Segment("0", 'S')])
  {
    if AsInt(d) == 0 {
      assert [Segment("0", 'S')][1..] == [];
      assert Text(false, [], true, [Segment("0", 'S')]) == "PT0S";
    } else {
      SegmentsTextConcat(Field(d.weeks, 'W'), Field(d.days, 'D'));
      SegmentsTextConcat(Field(d.minutes, 'M'), Field(d.seconds, 'S'));
      SegmentsTextConcat(Field(d.hours, 'H'), Field(d.minutes, 'M') + Field(d.seconds, 'S'));
      FieldText(d.weeks, 'W');
      FieldText(d.days, 'D');
      FieldText(d.hours, 'H');
      FieldText(d.minutes, 'M');
      FieldText(d.seconds, 'S');
      Assoc(Printout(d.weeks, 'W'), Printout(d.days, 'D'), TimePart(d));
    }
  }

  lemma FieldIs(v: UInt, unit: char)
    requires v <= INT_MAX && Unit(unit)
    ensures AreSegments(Field(v, unit)) && AllOf(Field(v, unit), [unit])
    ensures forall g <- Field(v, unit) :: Number(g) == v
  {
    Decimal.PrintValue(v);
  }

  lemma AmountConcat(a: seq<Segment>, b: seq<Segment>, unit: char)
    ensures Amount(a + b, unit) == if Has(b, unit) then Amount(b, unit) else Amount(a, unit)
  {
    if b == [] {
      assert a + b == a;
    } else {
      var front, last := b[..|b| - 1], b[|b| - 1];
      assert a + b == (a + front) + [last] && b == front + [last];
      AmountSnoc(a + front, last, unit);
      AmountSnoc(front, last, unit);
      HasSnoc(front, last, unit);
      AmountConcat(a, front, unit);
    }
  }

  lemma FieldAmount(v: UInt, unit: char, other: char)
    ensures Amount(Field(v, unit), other) == (if unit == other && v != 0 then Number(Field(v, unit)[0]) else 0)
    ensures Has(Field(v, unit), other) <==> unit == other && v != 0
  {
    if v != 0 {
      assert Field(v, unit)[0] in Field(v, unit);
    }
  }

  lemma ConcatIs(a: seq<Segment>, b: seq<Segment>)
    ensures AreSegments(a + b) <==> AreSegments(a) && AreSegments(b)
    ensures forall units :: AllOf(a + b, units) <==> AllOf(a, units) && AllOf(b, units)
    ensures Once(a) && Once(b) && (forall g <- a, h <- b :: g.unit != h.unit) ==> Once(a + b)
  {
    assert forall g :: g in a + b <==> g in a || g in b;
  }

  lemma DateFieldsLegal(d: Duration)
    requires FieldsFit(d) && WeeksAlone(d)
    ensures AreSegments(DateFields(d)) && LegalDate(DateFields(d))
    ensures d.weeks == 0 ==> AllOf(DateFields(d), "D")
  {
    FieldIs(d.weeks, 'W');
    FieldIs(d.days, 'D');
    ConcatIs(Field(d.weeks, 'W'), Field(d.days, 'D'));
  }

  lemma TimeFieldsLegal(d: Duration)
    requires FieldsFit(d)
    ensures AreSegments(TimeFields(d)) && LegalTime(TimeFields(d))
  {
    FieldIs(d.hours, 'H');
    FieldIs(d.minutes, 'M');
    FieldIs(d.seconds, 'S');
    ConcatIs(Field(d.minutes, 'M'), Field(d.seconds, 'S'));
    OneOf(Field(d.hours, 'H'), 'H', "HMS");
    OneOf(Field(d.minutes, 'M'), 'M', "HMS");
    OneOf(Field(d.seconds, 'S'), 'S', "HMS");
    ConcatIs(Field(d.hours, 'H'), Field(d.minutes, 'M') + Field(d.seconds, 'S'));
    assert forall g :: g in Field(d.minutes, 'M') + Field(d.seconds, 'S') <==>
                       g in Field(d.minutes, 'M') || g in Field(d.seconds, 'S');
  }

  lemma OneOf(segments: seq<Segment>, unit: char, units: string)
    requires AllOf(segments, [unit]) && unit in units
    ensures AllOf(segments, units)
  {
  }

  /** The fields of a duration are legal segments that mean it. */
  lemma FieldsMeant(d: Duration)
    requires FieldsFit(d) && WeeksAlone(d) && (d.isNeg == 0 || d.isNeg == 1)
    ensures AreSegments(DateFields(d)) && AreSegments(TimeFields(d)) && Legal(DateFields(d), TimeFields(d))
    ensures Meant(d.isNeg == 1, DateFields(d), TimeFields(d)) == d
  {
    FieldsAmounts(d);
    DateFieldsLegal(d);
    TimeFieldsLegal(d);
  }

  lemma FieldsAmounts(d: Duration)
    requires FieldsFit(d)
    ensures Amount(DateFields(d), 'W') == d.weeks && Amount(DateFields(d), 'D') == d.days
    ensures Amount(TimeFields(d), 'H') == d.hours && Amount(TimeFields(d), 'M') == d.minutes
    ensures Amount(TimeFields(d), 'S') == d.seconds
  {
    FieldsAmount(d, 'W');
    FieldsAmount(d, 'D');
    FieldsAmount(d, 'H');
    FieldsAmount(d, 'M');
    FieldsAmount(d, 'S');
    FieldIs(d.weeks, 'W');
    FieldIs(d.days, 'D');
    FieldIs(d.hours, 'H');
    FieldIs(d.minutes, 'M');
    FieldIs(d.seconds, 'S');
  }

  lemma FieldsAmount(d: Duration, unit: char)
    ensures Amount(DateFields(d), unit)
         == if unit == 'D' && d.days != 0 then Number(Field(d.days, 'D')[0])
            else if unit == 'W' && d.weeks != 0 then Number(Field(d.weeks, 'W')[0]) else 0
    ensures Amount(TimeFields(d), unit)
         == if unit == 'S' && d.seconds != 0 then Number(Field(d.seconds, 'S')[0])
            else if unit == 'M' && d.minutes != 0 then Number(Field(d.minutes, 'M')[0])
            else if unit == 'H' && d.hours != 0 then Number(Field(d.hours, 'H')[0]) else 0
  {
    FieldAmount(d.weeks, 'W', unit);
    FieldAmount(d.days, 'D', unit);
    FieldAmount(d.hours, 'H', unit);
    FieldAmount(d.minutes, 'M', unit);
    FieldAmount(d.seconds, 'S', unit);
    AmountConcat(Field(d.weeks, 'W'), Field(d.days, 'D'), unit);
    AmountConcat(Field(d.minutes, 'M'), Field(d.seconds, 'S'), unit);
    AmountConcat(Field(d.hours, 'H'), Field(d.minutes, 'M') + Field(d.seconds, 'S'), unit);
    assert forall g :: g in Field(d.minutes, 'M') + Field(d.seconds, 'S') <==>
                       g in Field(d.minutes, 'M') || g in Field(d.seconds, 'S');
  }

  lemma UnfitPrintsMinus(d: Duration)
    requires !FieldsFit(d)
    ensures '-' in DatePart(d)
  {
    if d.weeks > INT_MAX {
      assert '-' in Printout(d.weeks, 'W');
    } else if d.days > INT_MAX {
      assert '-' in Printout(d.days, 'D');
    } else {
      assert '-' in TimePart(d) by {
        if d.hours > INT_MAX {
          assert '-' in Printout(d.hours, 'H');
        } else if d.minutes > INT_MAX {
          assert '-' in Printout(d.minutes, 'M');
        } else {
          assert '-' in Printout(d.seconds, 'S');
        }
      }
    }
  }

  /** A duration whose printed form stands for it. */
  predicate Printable(d: Duration) {
    d == NULL_DURATION
    || (AsInt(d) != 0 && (d.isNeg == 0 || d.isNeg == 1) && WeeksAlone(d) && FieldsFit(d))
  }

  lemma ZeroSegment()
    ensures var zero := [Segment("0", 'S')];
            AreSegments(zero) && Legal([], zero) && Meant(false, [], zero) == NULL_DURATION
  {
    var zero := [Segment("0", 'S')];
    assert Decimal.Print(0) == "0";
    Decimal.PrintValue(0);
    AmountOfNone(zero, 'H');
    AmountOfNone(zero, 'M');
  }

  lemma ZeroText()
    ensures FromString(Text(false, [], true, [Segment("0", 'S')])) == NULL_DURATION
  {
    ZeroSegment();
    ReadText(false, [], true, [Segment("0", 'S')]);
  }

  lemma NullPrinted(d: Duration)
    requires AsInt(d) == 0
    ensures FromString(Printed(d)) == NULL_DURATION
  {
    PrintedForm(d);
    ZeroText();
  }

  /** Parsing undoes printing, exactly on the printable durations. */
  lemma PrintParse(d: Duration)
    ensures FromString(Printed(d)) == d <==> Printable(d)
  {
    if AsInt(d) == 0 {
      NullPrinted(d);
    } else if Printable(d) {
      PrintedForm(d);
      FieldsMeant(d);
      ReadText(d.isNeg == 1, DateFields(d), TimeFields(d) != [], TimeFields(d));
    } else {
      var i := ParseHead(d.isNeg == 1, DatePart(d));
      var st := Begun(d.isNeg == 1);
      ParseShape(i, DatePart(d), st);
      if !FieldsFit(d) {
        UnfitPrintsMinus(d);
        LateMinus(i, DatePart(d), st);
      }
      assert d != BAD_DURATION;
    }
  }

  /** Every number of seconds survives conversion to a duration, printing and parsing. */
  lemma SecondsRoundTrip(t: int)
    requires -TWO_31 < t < TWO_31
    ensures FromString(Printed(FromInt(t))) == FromInt(t)
    ensures AsInt(FromString(Printed(FromInt(t)))) == t
  {
    FromIntExact(t);
    PrintParse(FromInt(t));
  }

  /**
    Whatever the string, as long as its numbers fit in an int, parsing, printing and parsing
    again gives a duration of the same number of seconds, wrap-around included.
   */
  lemma ParsePrintParse(s: string)
    requires NumbersFit(s)
    ensures AsInt(FromString(Printed(FromString(s)))) == AsInt(FromString(s))
  {
    EveryString(s);
    var d := FromString(s);
    if AsInt(d) == 0 {
      NullPrinted(d);
    } else {
      PrintParse(d);
    }
  }
}
