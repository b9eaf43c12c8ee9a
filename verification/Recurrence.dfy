/**
  Recurrence expansion (icalcomponent_foreach_recurrence and its exclusion test).

  The loops over EXDATE, EXRULE, RRULE and RDATE all use the one property cursor of the
  component, and the callback may move it as well.  What a property says about times, and the
  expansion of a rule, which is finite here, are given by the functions of a Reading.
 */
module Recurrence {
  import opened Wrappers
  import opened Sequences
  import opened Tree
  import opened Component
  import Duration

  /** The last second of 17 January 2038. */
  const LAST_SECOND := 2147385599

  /** Seconds since 1970 that icaltime_as_timet can give; -1 for a time it cannot convert. */
  type Seconds = n: int | -1 <= n <= LAST_SECOND

  /** A time: the seconds of the instant in UTC, those of its clock reading, whether it is a DATE. */
  datatype Time = Time(instant: int, clock: Seconds, isDate: bool)

  /** The day of a time in UTC. */
  function Day(t: Time): int {
    t.instant / Duration.DAY
  }

  /** icaltime_compare: by day; on one day a DATE comes before every DATE-TIME and equals a DATE. */
  function Compare(a: Time, b: Time): int {
    if Day(a) != Day(b) then (if Day(a) > Day(b) then 1 else -1)
    else if a.isDate && b.isDate then 0
    else if b.isDate then 1
    else if a.isDate then -1
    else if a.instant == b.instant then 0
    else if a.instant > b.instant then 1
    else -1
  }

  /** Times are equal when they are of one kind, and on the same day or at the same instant. */
  lemma CompareEqual(a: Time, b: Time)
    ensures Compare(a, b) == 0 <==>
            a.isDate == b.isDate && (if a.isDate then Day(a) == Day(b) else a.instant == b.instant)
  {
  }

  /** It is a total order of the times up to that. */
  lemma CompareOrder(a: Time, b: Time, c: Time)
    ensures Compare(b, a) == 0 - Compare(a, b) && -1 <= Compare(a, b) <= 1
    ensures Day(a) < Day(b) || (Day(a) == Day(b) && a.isDate && !b.isDate) ==> Compare(a, b) < 0
    ensures !a.isDate && !b.isDate && a.instant < b.instant ==> Compare(a, b) < 0
    ensures Compare(a, b) <= 0 && Compare(b, c) <= 0 ==> Compare(a, c) <= 0
    ensures Compare(a, b) <= 0 && Compare(b, c) <= 0 && Compare(a, c) == 0 ==> Compare(a, b) == 0 && Compare(b, c) == 0
  {
  }

  datatype Span = Span(start: int, end: int, isBusy: bool)

  datatype Reading = Reading(
    exdate: PropertyValue -> Time,
    expand: (PropertyValue, Time) -> seq<Time>,
    rdate: PropertyValue -> Option<Time>)

  /** What an expansion starts from. */
  datatype Event = Event(dtstart: Time, base: Span, limit: Span)

  // ------------------------------------------------------------------------- spans

  /** icaltime_span_new. */
  function NewSpan(dtstart: Time, dtend: Option<Time>, isBusy: bool): Span {
    var end := if dtend.Some? then dtend.value.instant else dtstart.instant;
    Span(dtstart.instant, if dtstart.isDate then end + Duration.DAY - 1 else end, isBusy)
  }

  /** icaltime_span_overlaps. */
  predicate Overlaps(s1: Span, s2: Span) {
    || s2.start < s1.start < s2.end
    || s2.start < s1.end < s2.end
    || s1.start < s2.start < s1.end
    || s1.start < s2.end < s1.end
    || (s1.start == s2.start && s1.end == s2.end)
  }

  predicate Inside(x: real, s: Span) {
    s.start as real < x < s.end as real
  }

  /** An instant strictly inside both, at any fineness of time. */
  ghost predicate CommonInside(s1: Span, s2: Span) {
    exists x: real :: Inside(x, s1) && Inside(x, s2)
  }

  predicate PointInside(s1: Span, s2: Span) {
    s1.start == s1.end && s2.start < s1.start < s2.end
  }

  /** Two spans overlap when they share an inner instant, one is a point inside the other, or they are the same. */
  lemma OverlapsExact(s1: Span, s2: Span)
    requires s1.start <= s1.end && s2.start <= s2.end
    ensures Overlaps(s1, s2) <==>
            CommonInside(s1, s2) || PointInside(s1, s2) || PointInside(s2, s1)
            || (s1.start == s2.start && s1.end == s2.end)
  {
    var low := if s1.start > s2.start then s1.start else s2.start;
    var high := if s1.end < s2.end then s1.end else s2.end;
    if low < high {
      var x := (low as real + high as real) / 2.0;
      assert Inside(x, s1) && Inside(x, s2);
    }
  }

  // --------------------------------------------------------------------- exclusion

  /** The loop over one EXRULE's times: it ends at the first one that is not later than t. */
  predicate RuleExcludes(times: seq<Time>, t: Time) {
    times != []
    && (Compare(t, times[0]) == 0 || (Compare(t, times[0]) < 0 && RuleExcludes(times[1..], t)))
  }

  predicate DatesExclude(props: seq<PropertyValue>, t: Time, r: Reading) {
    exists p <- props :: p.kind == ExDate && Compare(t, r.exdate(p)) == 0
  }

  predicate RulesExclude(props: seq<PropertyValue>, dtstart: Time, t: Time, r: Reading) {
    exists p <- props :: p.kind == ExRule && RuleExcludes(r.expand(p, dtstart), t)
  }

  predicate Excluded(props: seq<PropertyValue>, dtstart: Time, t: Time, r: Reading) {
    DatesExclude(props, t, r) || RulesExclude(props, dtstart, t, r)
  }

  /** An EXRULE excludes a time when one of its times is equal and all before that one are later. */
  lemma {:induction false} RuleExcludesExact(times: seq<Time>, t: Time)
    ensures RuleExcludes(times, t) <==>
            exists k :: 0 <= k < |times| && Compare(t, times[k]) == 0
                        && forall j :: 0 <= j < k ==> Compare(t, times[j]) < 0
  {
    if times != [] {
      RuleExcludesExact(times[1..], t);
      if RuleExcludes(times[1..], t) && Compare(t, times[0]) < 0 {
        var k :| 0 <= k < |times[1..]| && Compare(t, times[1..][k]) == 0
                 && forall j :: 0 <= j < k ==> Compare(t, times[1..][j]) < 0;
        assert Compare(t, times[k + 1]) == 0;
        forall j | 0 <= j < k + 1 ensures Compare(t, times[j]) < 0 {
          assert j > 0 ==> times[j] == times[1..][j - 1];
        }
      }
      if k :| 0 <= k < |times| && Compare(t, times[k]) == 0
              && forall j :: 0 <= j < k ==> Compare(t, times[j]) < 0 {
        if k > 0 {
          assert Compare(t, times[1..][k - 1]) == 0;
          assert forall j :: 0 <= j < k - 1 ==> times[1..][j] == times[j + 1];
        }
      }
    }
  }

  predicate Increasing(times: seq<Time>) {
    forall i, j :: 0 <= i < j < |times| ==> Compare(times[i], times[j]) < 0
  }

  predicate AmongTimes(times: seq<Time>, t: Time) {
    exists k :: 0 <= k < |times| && Compare(t, times[k]) == 0
  }

  /** A time equals at most one of increasing times. */
  lemma OnceAmong(times: seq<Time>, t: Time, k: nat)
    requires Increasing(times) && k < |times| && Compare(t, times[k]) == 0
    ensures forall j :: 0 <= j < k ==> Compare(t, times[j]) > 0
  {
    forall j | 0 <= j < k ensures Compare(t, times[j]) > 0 {
      assert Compare(times[j], times[k]) < 0;
      CompareOrder(t, times[j], times[k]);
      CompareOrder(t, times[k], times[j]);
      CompareOrder(times[j], times[k], t);
    }
  }

  /**
    Of a rule whose times increase only the first one is excluded, which is DTSTART.  So the
    rule excludes exactly the times it has just when the time is not one of its later ones.
   */
  lemma {:induction false} IncreasingRule(times: seq<Time>, t: Time)
    requires Increasing(times)
    ensures RuleExcludes(times, t) <==> times != [] && Compare(t, times[0]) == 0
    ensures (RuleExcludes(times, t) <==> AmongTimes(times, t))
       <==> (times == [] || !AmongTimes(times[1..], t))
  {
    RuleExcludesExact(times, t);
    if times != [] {
      if AmongTimes(times[1..], t) {
        var k :| 0 <= k < |times[1..]| && Compare(t, times[1..][k]) == 0;
        assert Compare(t, times[k + 1]) == 0;
        OnceAmong(times, t, k + 1);
      }
      if k :| 0 <= k < |times| && Compare(t, times[k]) == 0 {
        OnceAmong(times, t, k);
        if k > 0 {
          assert Compare(t, times[1..][k - 1]) == 0;
        }
      }
    }
  }

  /** The second day of a daily EXRULE is not excluded. */
  lemma SecondDayIsKept()
    ensures var first := Time(0, 0, false);
            var second := Time(Duration.DAY, Duration.DAY, false);
            AmongTimes([first, second], second) && !RuleExcludes([first, second], second)
  {
    assert Compare(Time(Duration.DAY, Duration.DAY, false),
                   [Time(0, 0, false), Time(Duration.DAY, Duration.DAY, false)][1]) == 0;
  }

  /** An EXDATE that is a DATE excludes no DATE-TIME, not even midnight of that day. */
  lemma DateKeepsTimes(props: seq<PropertyValue>, t: Time, r: Reading)
    requires !t.isDate && forall p <- props :: p.kind == ExDate ==> r.exdate(p).isDate
    ensures !DatesExclude(props, t, r)
  {
  }

  /** None of the first n properties is an EXDATE of the time. */
  predicate NoDateBefore(props: seq<PropertyValue>, n: int, t: Time, r: Reading)
    requires n <= |props|
  {
    forall j :: 0 <= j < n && props[j].kind == ExDate ==> Compare(t, r.exdate(props[j])) != 0
  }

  /** None of the first n properties is an EXRULE that excludes the time. */
  predicate NoRuleBefore(props: seq<PropertyValue>, n: int, dtstart: Time, t: Time, r: Reading)
    requires n <= |props|
  {
    forall j :: 0 <= j < n && props[j].kind == ExRule ==> !RuleExcludes(r.expand(props[j], dtstart), t)
  }

  /** The EXDATE loop of the exclusion test. */
  method MatchDates(comp: Component, t: Time, r: Reading) returns (matched: bool)
    requires comp.Ok()
    modifies comp`propertyIterator
    ensures comp.Ok() && (matched <==> DatesExclude(comp.tree.props, t, r))
  {
    var exdate := comp.GetFirstProperty(ExDate);
    matched := false;
    while exdate != null && !matched
      invariant comp.Ok() && exdate == comp.CurrentProperty()
      invariant exdate != null ==> exdate.val.kind == ExDate
      invariant matched ==> DatesExclude(comp.tree.props, t, r)
      invariant !matched ==> NoDateBefore(comp.tree.props, Passed(comp.propertyIterator, comp.tree.props), t, r)
      decreases if exdate == null then 0 else |comp.properties| - comp.propertyIterator, !matched
    {
      matched, exdate := MatchDate(comp, exdate, t, r);
    }
  }

  /** One turn of the loop. */
  method MatchDate(comp: Component, exdate: Property, t: Time, r: Reading) returns (matched: bool, next: Property?)
    requires comp.Ok() && exdate == comp.CurrentProperty() && exdate.val.kind == ExDate
    requires NoDateBefore(comp.tree.props, comp.propertyIterator, t, r)
    modifies comp`propertyIterator
    ensures comp.Ok() && next == comp.CurrentProperty() && (next != null ==> next.val.kind == ExDate)
    ensures matched ==> DatesExclude(comp.tree.props, t, r) && comp.propertyIterator == old(comp.propertyIterator)
    ensures !matched ==> NoDateBefore(comp.tree.props, Passed(comp.propertyIterator, comp.tree.props), t, r)
    ensures !matched ==> comp.propertyIterator == NULL || comp.propertyIterator > old(comp.propertyIterator)
  {
    ghost var k, props := comp.propertyIterator, comp.tree.props;
    assert props[k] == exdate.val && props[k] in props;
    matched, next := Compare(t, r.exdate(exdate.val)) == 0, exdate;
    if !matched {
      next := comp.GetNextProperty(ExDate);
    }
  }

  /** How many properties are behind the cursor. */
  function Passed(cursor: int, props: seq<PropertyValue>): int {
    if cursor == NULL then |props| else cursor
  }

  /** The loop over the times of one EXRULE. */
  method MatchRule(times: seq<Time>, t: Time) returns (matched: bool)
    ensures matched <==> RuleExcludes(times, t)
  {
    var i := 0;
    while i < |times|
      invariant 0 <= i <= |times| && (RuleExcludes(times, t) <==> RuleExcludes(times[i..], t))
    {
      assert times[i..][1..] == times[i + 1..];
      var result := Compare(t, times[i]);
      if result == 0 {
        return true;
      }
      if result == 1 {
        break;
      }
      i := i + 1;
    }
    return false;
  }

  /** The EXRULE loop of the exclusion test. */
  method MatchRules(comp: Component, dtstart: Time, t: Time, r: Reading) returns (matched: bool)
    requires comp.Ok()
    modifies comp`propertyIterator
    ensures comp.Ok() && (matched <==> RulesExclude(comp.tree.props, dtstart, t, r))
  {
    var exrule := comp.GetFirstProperty(ExRule);
    matched := false;
    while exrule != null && !matched
      invariant comp.Ok() && exrule == comp.CurrentProperty()
      invariant exrule != null ==> exrule.val.kind == ExRule
      invariant matched ==> RulesExclude(comp.tree.props, dtstart, t, r)
      invariant !matched ==>
                  NoRuleBefore(comp.tree.props, Passed(comp.propertyIterator, comp.tree.props), dtstart, t, r)
      decreases if exrule == null then 0 else |comp.properties| - comp.propertyIterator, !matched
    {
      matched, exrule := MatchOneRule(comp, exrule, dtstart, t, r);
    }
  }

  /** One turn of the loop. */
  method MatchOneRule(comp: Component, exrule: Property, dtstart: Time, t: Time, r: Reading)
    returns (matched: bool, next: Property?)
    requires comp.Ok() && exrule == comp.CurrentProperty() && exrule.val.kind == ExRule
    requires NoRuleBefore(comp.tree.props, comp.propertyIterator, dtstart, t, r)
    modifies comp`propertyIterator
    ensures comp.Ok() && next == comp.CurrentProperty() && (next != null ==> next.val.kind == ExRule)
    ensures matched ==>
              RulesExclude(comp.tree.props, dtstart, t, r) && comp.propertyIterator == old(comp.propertyIterator)
    ensures !matched ==> NoRuleBefore(comp.tree.props, Passed(comp.propertyIterator, comp.tree.props), dtstart, t, r)
    ensures !matched ==> comp.propertyIterator == NULL || comp.propertyIterator > old(comp.propertyIterator)
  {
    ghost var k, props := comp.propertyIterator, comp.tree.props;
    assert props[k] == exrule.val && props[k] in props;
    next := exrule;
    matched := MatchRule(r.expand(exrule.val, dtstart), t);
    if !matched {
      next := comp.GetNextProperty(ExRule);
    }
  }

  /** icalproperty_recurrence_is_excluded: a null time counts as excluded; the cursor is put back. */
  method IsExcluded(comp: Component, dtstart: Option<Time>, recurtime: Option<Time>, r: Reading)
    returns (excluded: bool)
    requires comp.Ok()
    modifies comp`propertyIterator
    ensures comp.Ok() && comp.propertyIterator == old(comp.propertyIterator)
    ensures excluded <==> dtstart == None || recurtime == None
                          || Excluded(comp.tree.props, dtstart.value, recurtime.value, r)
  {
    if dtstart == None || recurtime == None {
      return true;
    }
    var propertyIterator := comp.propertyIterator;
    excluded := MatchDates(comp, recurtime.value, r);
    if !excluded {
      excluded := MatchRules(comp, dtstart.value, recurtime.value, r);
    }
    comp.SetPropertyIterator(propertyIterator);
  }

  // --------------------------------------------------------------------- expansion

  /** A time the event takes place at, and whether it is only wanted when it meets the limits. */
  datatype Occurrence = Occurrence(time: Time, limited: bool)

  function SpanAt(e: Event, t: Time): Span {
    var start := e.base.start + (t.clock - e.dtstart.clock);
    Span(start, start + (e.base.end - e.base.start), e.base.isBusy)
  }

  predicate Wanted(e: Event, props: seq<PropertyValue>, r: Reading, o: Occurrence) {
    !Excluded(props, e.dtstart, o.time, r) && (o.limited ==> Overlaps(SpanAt(e, o.time), e.limit))
  }

  /** The spans the callback gets for a list of occurrences. */
  function Calls(e: Event, props: seq<PropertyValue>, r: Reading, occurrences: seq<Occurrence>): seq<Span> {
    if occurrences == [] then []
    else
      (if Wanted(e, props, r, occurrences[0]) then [SpanAt(e, occurrences[0].time)] else [])
      + Calls(e, props, r, occurrences[1..])
  }

  /** The times of one property: of an RRULE all but the first, of an RDATE its time unless null. */
  function TimesOf(p: PropertyValue, kind: PropertyKind, dtstart: Time, r: Reading): seq<Occurrence> {
    if p.kind != kind then []
    else if kind == RRule then Limited(r.expand(p, dtstart), 1)
    else if kind == RDate && r.rdate(p).Some? then [Occurrence(r.rdate(p).value, false)]
    else []
  }

  function Limited(times: seq<Time>, i: nat): seq<Occurrence>
    decreases |times| - i
  {
    if i >= |times| then [] else [Occurrence(times[i], true)] + Limited(times, i + 1)
  }

  /** The times of all properties of a kind, in list order. */
  function AllTimes(props: seq<PropertyValue>, kind: PropertyKind, dtstart: Time, r: Reading): seq<Occurrence> {
    if props == [] then [] else TimesOf(props[0], kind, dtstart, r) + AllTimes(props[1..], kind, dtstart, r)
  }

  /** DTSTART, the times of the RRULEs, the times of the RDATEs. */
  function Occurrences(props: seq<PropertyValue>, dtstart: Time, r: Reading): seq<Occurrence> {
    [Occurrence(dtstart, true)] + (AllTimes(props, RRule, dtstart, r) + AllTimes(props, RDate, dtstart, r))
  }

  lemma {:induction false} CallsConcat(e: Event, props: seq<PropertyValue>, r: Reading, a: seq<Occurrence>,
      b: seq<Occurrence>)
    ensures Calls(e, props, r, a + b) == Calls(e, props, r, a) + Calls(e, props, r, b)
  {
    if a == [] {
      assert a + b == b;
    } else {
      assert (a + b)[1..] == a[1..] + b;
      CallsConcat(e, props, r, a[1..], b);
      var first := if Wanted(e, props, r, a[0]) then [SpanAt(e, a[0].time)] else [];
      Assoc(first, Calls(e, props, r, a[1..]), Calls(e, props, r, b));
    }
  }

  // ---------------------------------------------------- what the expansion amounts to

  /** The callback gets exactly the wanted occurrences. */
  lemma {:induction false} CallsExact(e: Event, props: seq<PropertyValue>, r: Reading, occurrences: seq<Occurrence>,
      s: Span)
    ensures s in Calls(e, props, r, occurrences) <==>
            exists o <- occurrences :: Wanted(e, props, r, o) && SpanAt(e, o.time) == s
  {
    if occurrences != [] {
      CallsExact(e, props, r, occurrences[1..], s);
      assert occurrences == [occurrences[0]] + occurrences[1..];
    }
  }

  /** A time of a rule that is not its first. */
  predicate LaterTime(times: seq<Time>, t: Time) {
    exists k :: 1 <= k < |times| && times[k] == t
  }

  /** DTSTART, a time of an RRULE after the first, or the time of an RDATE that has one. */
  predicate IsOccurrence(props: seq<PropertyValue>, dtstart: Time, r: Reading, o: Occurrence) {
    || o == Occurrence(dtstart, true)
    || (o.limited && exists p <- props :: p.kind == RRule && LaterTime(r.expand(p, dtstart), o.time))
    || (!o.limited && exists p <- props :: p.kind == RDate && r.rdate(p) == Some(o.time))
  }

  lemma {:induction false} LimitedMember(times: seq<Time>, i: nat, o: Occurrence)
    ensures o in Limited(times, i) <==> o.limited && exists k :: i <= k < |times| && times[k] == o.time
    decreases |times| - i
  {
    if i < |times| {
      LimitedMember(times, i + 1, o);
    }
  }

  /** Each later time of a rule counts once, in its place. */
  lemma {:induction false} LimitedAt(times: seq<Time>, i: nat, k: nat)
    requires i <= |times|
    ensures |Limited(times, i)| == |times| - i
    ensures k < |times| - i ==> Limited(times, i)[k] == Occurrence(times[i + k], true)
    decreases |times| - i
  {
    if i < |times| {
      LimitedAt(times, i + 1, if k > 0 then k - 1 else 0);
    }
  }

  lemma {:induction false} AllTimesMember(props: seq<PropertyValue>, kind: PropertyKind, dtstart: Time, r: Reading,
      o: Occurrence)
    ensures o in AllTimes(props, kind, dtstart, r) <==> exists p <- props :: o in TimesOf(p, kind, dtstart, r)
  {
    if props != [] {
      AllTimesMember(props[1..], kind, dtstart, r, o);
      assert props == [props[0]] + props[1..];
    }
  }

  lemma OccurrencesExact(props: seq<PropertyValue>, dtstart: Time, r: Reading, o: Occurrence)
    ensures o in Occurrences(props, dtstart, r) <==> IsOccurrence(props, dtstart, r, o)
  {
    AllTimesMember(props, RRule, dtstart, r, o);
    AllTimesMember(props, RDate, dtstart, r, o);
    forall p | p in props ensures p.kind == RRule ==>
      (o in TimesOf(p, RRule, dtstart, r) <==> o.limited && LaterTime(r.expand(p, dtstart), o.time))
    {
      LimitedMember(r.expand(p, dtstart), 1, o);
    }
  }

  /**
    Without an EXRULE the callback gets exactly the occurrences at the time of no EXDATE, and
    of these the base one and those of RRULEs only when they overlap the limits.
   */
  lemma NoExRuleExact(e: Event, props: seq<PropertyValue>, r: Reading, s: Span)
    requires forall p <- props :: p.kind != ExRule
    ensures s in Calls(e, props, r, Occurrences(props, e.dtstart, r)) <==>
            exists o :: IsOccurrence(props, e.dtstart, r, o) && SpanAt(e, o.time) == s
                        && !DatesExclude(props, o.time, r) && (o.limited ==> Overlaps(s, e.limit))
  {
    CallsExact(e, props, r, Occurrences(props, e.dtstart, r), s);
    forall o ensures o in Occurrences(props, e.dtstart, r) <==> IsOccurrence(props, e.dtstart, r, o) {
      OccurrencesExact(props, e.dtstart, r, o);
    }
  }

  /** Every call has the length of the event and is shifted by the difference of the clock readings. */
  lemma {:induction false} CallsShifted(e: Event, props: seq<PropertyValue>, r: Reading, occurrences: seq<Occurrence>)
    ensures forall s <- Calls(e, props, r, occurrences) ::
              && s.end - s.start == e.base.end - e.base.start && s.isBusy == e.base.isBusy
              && exists o <- occurrences :: s.start - e.base.start == o.time.clock - e.dtstart.clock
  {
    forall s | s in Calls(e, props, r, occurrences)
      ensures s.end - s.start == e.base.end - e.base.start && s.isBusy == e.base.isBusy
      ensures exists o <- occurrences :: s.start - e.base.start == o.time.clock - e.dtstart.clock
    {
      CallsExact(e, props, r, occurrences, s);
    }
  }

  /** The seconds an event takes, from its DTSTART and DTEND; a DATE stands for the whole day up to its last second. */
  function EventLength(dtstart: Time, dtend: Option<Time>): int {
    if dtstart.isDate then (if dtend == None then 86399 else dtend.value.instant + 86399 - dtstart.instant)
    else if dtend == None then 0
    else dtend.value.instant - dtstart.instant
  }

  /** For DATEs, which begin with their days, it is a second less than those from DTSTART's to DTEND's. */
  lemma LengthInDays(dtstart: Time, dtend: Time)
    requires dtstart.isDate && dtstart.instant % 86400 == 0 && dtend.instant % 86400 == 0
    ensures EventLength(dtstart, Some(dtend)) == 86400 * (Day(dtend) - Day(dtstart) + 1) - 1
    ensures EventLength(dtstart, None) == EventLength(dtstart, Some(dtstart))
  {
  }

  /** The span meets the limits: it overlaps the time from start to end, or to the last second of 32 bits. */
  ghost predicate InWindow(s: Span, start: int, end: Option<int>) {
    var window := Span(start, if end == None then 0x7FFF_FFFF else end.value, false);
    if s.start <= s.end && window.start <= window.end then
      || CommonInside(s, window) || PointInside(s, window) || PointInside(window, s)
      || (s.start == window.start && s.end == window.end)
    else Overlaps(s, window)
  }

  /** What the callback is to get: a span of the event's length for an occurrence that is not excluded. */
  ghost predicate HandedOver(s: Span, dtstart: Time, dtend: Option<Time>, isBusy: bool, start: int, end: Option<int>,
      props: seq<PropertyValue>, r: Reading)
  {
    exists o :: IsOccurrence(props, dtstart, r, o) && !Excluded(props, dtstart, o.time, r)
                && s.start == dtstart.instant + (o.time.clock - dtstart.clock)
                && s.end == s.start + EventLength(dtstart, dtend) && s.isBusy == isBusy
                && (o.limited ==> InWindow(s, start, end))
  }

  /** The spans the callback gets are those, and no others. */
  lemma HandedOverExact(s: Span, dtstart: Time, dtend: Option<Time>, isBusy: bool, start: int, end: Option<int>,
      props: seq<PropertyValue>, r: Reading)
    ensures s in Calls(EventOf(dtstart, dtend, isBusy, start, end), props, r, Occurrences(props, dtstart, r)) <==>
            HandedOver(s, dtstart, dtend, isBusy, start, end, props, r)
  {
    var e := EventOf(dtstart, dtend, isBusy, start, end);
    CallsExact(e, props, r, Occurrences(props, dtstart, r), s);
    WindowExact(s, start, end);
    forall o ensures o in Occurrences(props, dtstart, r) <==> IsOccurrence(props, dtstart, r, o) {
      OccurrencesExact(props, dtstart, r, o);
    }
    forall o: Occurrence
      ensures SpanAt(e, o.time) == s <==>
              s.start == dtstart.instant + (o.time.clock - dtstart.clock)
              && s.end == s.start + EventLength(dtstart, dtend) && s.isBusy == isBusy
    {
    }
  }

  lemma WindowExact(s: Span, start: int, end: Option<int>)
    ensures Overlaps(s, EventOf(Time(0, 0, false), None, false, start, end).limit) <==> InWindow(s, start, end)
  {
    var window := Span(start, if end == None then 0x7FFF_FFFF else end.value, false);
    if s.start <= s.end && window.start <= window.end {
      OverlapsExact(s, window);
    }
  }

  /** Each property makes its own contribution, once, where it stands in the list. */
  lemma {:induction false} AllTimesSplit(a: seq<PropertyValue>, p: PropertyValue, b: seq<PropertyValue>,
      kind: PropertyKind, dtstart: Time, r: Reading)
    ensures AllTimes(a + [p] + b, kind, dtstart, r)
         == AllTimes(a, kind, dtstart, r) + TimesOf(p, kind, dtstart, r) + AllTimes(b, kind, dtstart, r)
  {
    var all := a + [p] + b;
    if a == [] {
      assert all[1..] == b && all[0] == p;
      assert [] + TimesOf(p, kind, dtstart, r) == TimesOf(p, kind, dtstart, r);
    } else {
      assert all[1..] == a[1..] + [p] + b && all[0] == a[0];
      AllTimesSplit(a[1..], p, b, kind, dtstart, r);
      var first, rest := TimesOf(a[0], kind, dtstart, r), AllTimes(a[1..], kind, dtstart, r);
      Assoc(first, rest + TimesOf(p, kind, dtstart, r), AllTimes(b, kind, dtstart, r));
      Assoc(first, rest, TimesOf(p, kind, dtstart, r));
    }
  }

  /** When nothing is excluded and the limits take in everything, there is a call for each occurrence. */
  lemma {:induction false} NothingLost(e: Event, props: seq<PropertyValue>, r: Reading, occurrences: seq<Occurrence>)
    requires forall o <- occurrences :: Wanted(e, props, r, o)
    ensures |Calls(e, props, r, occurrences)| == |occurrences|
    ensures forall i :: 0 <= i < |occurrences| ==>
              Calls(e, props, r, occurrences)[i] == SpanAt(e, occurrences[i].time)
  {
    if occurrences != [] {
      NothingLost(e, props, r, occurrences[1..]);
    }
  }

  // --------------------------------------------------------------------- the routine

  /** The callback; it may leave the cursor at any property. */
  method Callback(comp: Component, s: Span, calls: seq<Span>) returns (calls': seq<Span>)
    requires comp.Ok()
    modifies comp`propertyIterator
    ensures comp.Ok() && calls' == calls + [s]
  {
    var k: int :| NULL <= k < |comp.properties|;
    comp.SetPropertyIterator(k);
    calls' := calls + [s];
  }

  /** Test one occurrence and call back; the caller puts the cursor back. */
  method TestAndCall(comp: Component, e: Event, r: Reading, o: Occurrence, s: Span, calls: seq<Span>)
    returns (calls': seq<Span>)
    requires comp.Ok() && s == SpanAt(e, o.time)
    modifies comp`propertyIterator
    ensures comp.Ok() && calls' == calls + Calls(e, comp.tree.props, r, [o])
  {
    var excluded := IsExcluded(comp, Some(e.dtstart), Some(o.time), r);
    calls' := calls;
    if !excluded && (!o.limited || Overlaps(s, e.limit)) {
      calls' := Callback(comp, s, calls);
    }
    assert [o][1..] == [];
  }

  /** The body of the loops: the span of the occurrence, and the cursor saved and put back. */
  method VisitOccurrence(comp: Component, e: Event, r: Reading, o: Occurrence, calls: seq<Span>)
    returns (calls': seq<Span>)
    requires comp.Ok()
    modifies comp`propertyIterator
    ensures comp.Ok() && comp.propertyIterator == old(comp.propertyIterator)
    ensures calls' == calls + Calls(e, comp.tree.props, r, [o])
  {
    var dur := Duration.FromInt(o.time.clock - e.dtstart.clock);
    Duration.FromIntExact(o.time.clock - e.dtstart.clock);
    var start := e.base.start + Duration.AsInt(dur);
    var propertyIterator := comp.propertyIterator;
    calls' := TestAndCall(comp, e, r, o, Span(start, start + (e.base.end - e.base.start), e.base.isBusy), calls);
    comp.SetPropertyIterator(propertyIterator);
  }

  /** The times of one RRULE; the first one is thrown away. */
  method VisitRule(comp: Component, e: Event, r: Reading, rrule: PropertyValue, calls: seq<Span>)
    returns (calls': seq<Span>)
    requires comp.Ok() && rrule.kind == RRule
    modifies comp`propertyIterator
    ensures comp.Ok() && comp.propertyIterator == old(comp.propertyIterator)
    ensures calls' == calls + Calls(e, comp.tree.props, r, TimesOf(rrule, RRule, e.dtstart, r))
  {
    var times := r.expand(rrule, e.dtstart);
    ghost var props := comp.tree.props;
    calls' := calls;
    var i := 1;
    while i < |times|
      invariant 1 <= i && comp.Ok() && comp.propertyIterator == old(comp.propertyIterator)
      invariant calls' + Calls(e, props, r, Limited(times, i)) == calls + Calls(e, props, r, Limited(times, 1))
    {
      var o := Occurrence(times[i], true);
      CallsConcat(e, props, r, [o], Limited(times, i + 1));
      Assoc(calls', Calls(e, props, r, [o]), Calls(e, props, r, Limited(times, i + 1)));
      calls' := VisitOccurrence(comp, e, r, o, calls');
      i := i + 1;
    }
    assert calls' + [] == calls';
  }

  /** The times of one RDATE. */
  method VisitDate(comp: Component, e: Event, r: Reading, rdate: PropertyValue, calls: seq<Span>)
    returns (calls': seq<Span>)
    requires comp.Ok() && rdate.kind == RDate
    modifies comp`propertyIterator
    ensures comp.Ok() && comp.propertyIterator == old(comp.propertyIterator)
    ensures calls' == calls + Calls(e, comp.tree.props, r, TimesOf(rdate, RDate, e.dtstart, r))
  {
    var time := r.rdate(rdate);
    if time == None {
      assert calls + [] == calls;
      return calls;
    }
    calls' := VisitOccurrence(comp, e, r, Occurrence(time.value, false), calls);
  }

  /** The times from the cursor on. */
  function TimesFrom(props: seq<PropertyValue>, cursor: int, kind: PropertyKind, dtstart: Time,
      r: Reading): seq<Occurrence>
    requires NULL <= cursor <= |props|
  {
    if cursor == NULL then [] else AllTimes(props[cursor..], kind, dtstart, r)
  }

  /** Going on to the first property of the kind passes over no time. */
  lemma {:induction false} ScanTimes(props: seq<PropertyValue>, i: nat, kind: PropertyKind, dtstart: Time, r: Reading)
    requires i <= |props| && kind != AnyProperty
    ensures TimesFrom(props, ScanProps(props, i, kind), kind, dtstart, r) == AllTimes(props[i..], kind, dtstart, r)
    decreases |props| - i
  {
    if i < |props| && !IsKind(props[i], kind) {
      ScanTimes(props, i + 1, kind, dtstart, r);
      assert props[i..][1..] == props[i + 1..];
      assert [] + AllTimes(props[i + 1..], kind, dtstart, r) == AllTimes(props[i + 1..], kind, dtstart, r);
    }
  }

  /** The calls so far and those still to come from the cursor on. */
  function WithRest(e: Event, props: seq<PropertyValue>, r: Reading, kind: PropertyKind, cursor: int,
      calls: seq<Span>): seq<Span>
    requires NULL <= cursor <= |props|
  {
    calls + Calls(e, props, r, TimesFrom(props, cursor, kind, e.dtstart, r))
  }

  /** One property, then the others. */
  lemma CallsStep(e: Event, props: seq<PropertyValue>, r: Reading, kind: PropertyKind, cursor: nat, calls: seq<Span>)
    requires cursor < |props| && kind != AnyProperty
    ensures WithRest(e, props, r, kind, ScanProps(props, cursor + 1, kind),
                     calls + Calls(e, props, r, TimesOf(props[cursor], kind, e.dtstart, r)))
         == WithRest(e, props, r, kind, cursor, calls)
  {
    var first, rest := TimesOf(props[cursor], kind, e.dtstart, r), AllTimes(props[cursor + 1..], kind, e.dtstart, r);
    assert props[cursor..][1..] == props[cursor + 1..];
    ScanTimes(props, cursor + 1, kind, e.dtstart, r);
    CallsConcat(e, props, r, first, rest);
    Assoc(calls, Calls(e, props, r, first), Calls(e, props, r, rest));
  }

  lemma CallsStart(e: Event, props: seq<PropertyValue>, r: Reading, kind: PropertyKind, calls: seq<Span>)
    requires kind != AnyProperty
    ensures WithRest(e, props, r, kind, ScanProps(props, 0, kind), calls)
         == calls + Calls(e, props, r, AllTimes(props, kind, e.dtstart, r))
  {
    ScanTimes(props, 0, kind, e.dtstart, r);
    assert props[0..] == props;
  }

  lemma CallsEnd(e: Event, props: seq<PropertyValue>, r: Reading, kind: PropertyKind, calls: seq<Span>)
    ensures WithRest(e, props, r, kind, NULL, calls) == calls
  {
  }

  /** One turn of either loop: the times of the property, then the next property. */
  method VisitProperty(comp: Component, e: Event, r: Reading, kind: PropertyKind, p: Property, calls: seq<Span>)
    returns (next: Property?, calls': seq<Span>)
    requires comp.Ok() && (kind == RRule || kind == RDate) && p.val.kind == kind
    requires comp.propertyIterator != NULL && p == comp.properties[comp.propertyIterator]
    modifies comp`propertyIterator
    ensures comp.Ok() && comp.propertyIterator == ScanProps(comp.tree.props, old(comp.propertyIterator) + 1, kind)
    ensures next == comp.CurrentProperty()
    ensures WithRest(e, comp.tree.props, r, kind, comp.propertyIterator, calls')
         == WithRest(e, comp.tree.props, r, kind, old(comp.propertyIterator), calls)
  {
    CallsStep(e, comp.tree.props, r, kind, comp.propertyIterator, calls);
    if kind == RRule {
      calls' := VisitRule(comp, e, r, p.val, calls);
    } else {
      calls' := VisitDate(comp, e, r, p.val, calls);
    }
    next := comp.GetNextProperty(kind);
  }

  /** The loop over the RRULEs, and the one over the RDATEs. */
  method VisitAll(comp: Component, e: Event, r: Reading, kind: PropertyKind, calls: seq<Span>)
    returns (calls': seq<Span>)
    requires comp.Ok() && (kind == RRule || kind == RDate)
    modifies comp`propertyIterator
    ensures comp.Ok()
    ensures calls' == calls + Calls(e, comp.tree.props, r, AllTimes(comp.tree.props, kind, e.dtstart, r))
  {
    ghost var props := comp.tree.props;
    calls' := calls;
    var p := comp.GetFirstProperty(kind);
    ghost var total := WithRest(e, props, r, kind, comp.propertyIterator, calls);
    CallsStart(e, props, r, kind, calls);
    while p != null
      invariant comp.Ok() && p == comp.CurrentProperty()
      invariant p != null ==> p.val.kind == kind
      invariant WithRest(e, props, r, kind, comp.propertyIterator, calls') == total
      decreases if comp.propertyIterator == NULL then 0 else |props| - comp.propertyIterator
    {
      p, calls' := VisitProperty(comp, e, r, kind, p, calls');
    }
    CallsEnd(e, props, r, kind, calls');
  }

  /** The calls of the whole expansion, part by part. */
  lemma CallsOfAll(e: Event, props: seq<PropertyValue>, r: Reading)
    ensures Calls(e, props, r, Occurrences(props, e.dtstart, r))
         == [] + Calls(e, props, r, [Occurrence(e.dtstart, true)])
            + Calls(e, props, r, AllTimes(props, RRule, e.dtstart, r))
            + Calls(e, props, r, AllTimes(props, RDate, e.dtstart, r))
  {
    var first, rules, dates
      := [Occurrence(e.dtstart, true)], AllTimes(props, RRule, e.dtstart, r), AllTimes(props, RDate, e.dtstart, r);
    CallsConcat(e, props, r, first, rules + dates);
    CallsConcat(e, props, r, rules, dates);
    Assoc(Calls(e, props, r, first), Calls(e, props, r, rules), Calls(e, props, r, dates));
    Assoc([], Calls(e, props, r, first), Calls(e, props, r, rules));
    assert [] + Calls(e, props, r, first) == Calls(e, props, r, first);
  }

  /**
    icalcomponent_foreach_recurrence, with the spans handed to the callback as its result: one
    call for each wanted occurrence, DTSTART first, then those of the RRULEs and the RDATEs in
    list order, whatever the callback and the exclusion test do to the cursor.
   */
  method ForeachRecurrence(comp: Component, dtstart: Option<Time>, dtend: Option<Time>, isBusy: bool,
      start: int, end: Option<int>, r: Reading) returns (calls: seq<Span>)
    requires comp.Ok()
    modifies comp`propertyIterator
    ensures comp.Ok()
    ensures dtstart == None ==> calls == []
    ensures dtstart.Some? ==>
              calls == Calls(EventOf(dtstart.value, dtend, isBusy, start, end), comp.tree.props, r,
                             Occurrences(comp.tree.props, dtstart.value, r))
    ensures dtstart.Some? ==>
              forall s :: s in calls <==>
                          HandedOver(s, dtstart.value, dtend, isBusy, start, end, comp.tree.props, r)
  {
    if dtstart == None {
      return [];
    }
    var e := EventOf(dtstart.value, dtend, isBusy, start, end);
    CallsOfAll(e, comp.tree.props, r);
    calls := TestAndCall(comp, e, r, Occurrence(e.dtstart, true), e.base, []);
    calls := VisitAll(comp, e, r, RRule, calls);
    calls := VisitAll(comp, e, r, RDate, calls);
    forall s ensures s in calls <==> HandedOver(s, dtstart.value, dtend, isBusy, start, end, comp.tree.props, r) {
      HandedOverExact(s, dtstart.value, dtend, isBusy, start, end, comp.tree.props, r);
    }
  }

  /** The base span, and the limits: INT_MAX when there is no end. */
  function EventOf(dtstart: Time, dtend: Option<Time>, isBusy: bool, start: int, end: Option<int>): Event {
    Event(dtstart, NewSpan(dtstart, dtend, isBusy),
      Span(start, if end.Some? then end.value else Duration.INT_MAX, false))
  }
}
