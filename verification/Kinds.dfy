/** The names of the kinds of component (component_map of icalcomponent.c). */
module Kinds {
  import opened Tree

  /** What a name stands for; the name "X" is that of all X components. */
  datatype Named = Known(kind: ComponentKind) | XComponent | NoComponent

  datatype MapEntry = MapEntry(kind: Named, name: string)

  const COMPONENT_MAP: seq<MapEntry> := [
    MapEntry(Known(VEvent), "VEVENT"), MapEntry(Known(VTodo), "VTODO"), MapEntry(Known(VJournal), "VJOURNAL"),
    MapEntry(Known(VCalendar), "VCALENDAR"), MapEntry(Known(VAgenda), "VAGENDA"),
    MapEntry(Known(VFreeBusy), "VFREEBUSY"), MapEntry(Known(VTimezone), "VTIMEZONE"),
    MapEntry(Known(VAlarm), "VALARM"), MapEntry(Known(Standard), "STANDARD"), MapEntry(Known(Daylight), "DAYLIGHT"),
    MapEntry(XComponent, "X"), MapEntry(Known(Schedule), "SCHEDULE"), MapEntry(Known(VCar), "VCAR"),
    MapEntry(Known(VCommand), "VCOMMAND"), MapEntry(Known(VQuery), "VQUERY"), MapEntry(Known(VReply), "VREPLY"),
    MapEntry(Known(LicUnknown), "X-LIC-UNKNOWN"), MapEntry(Known(LicMimePart), "X-LIC-MIME-PART"),
    MapEntry(Known(Any), "ANY"), MapEntry(Known(XRoot), "XROOT")]

  function KindName(kind: ComponentKind): string {
    match kind
    case Any => "ANY" case XRoot => "XROOT" case VEvent => "VEVENT" case VTodo => "VTODO"
    case VJournal => "VJOURNAL" case VCalendar => "VCALENDAR" case VAgenda => "VAGENDA"
    case VFreeBusy => "VFREEBUSY" case VTimezone => "VTIMEZONE" case VAlarm => "VALARM"
    case Standard => "STANDARD" case Daylight => "DAYLIGHT" case Schedule => "SCHEDULE"
    case VCar => "VCAR" case VCommand => "VCOMMAND" case VQuery => "VQUERY" case VReply => "VREPLY"
    case LicUnknown => "X-LIC-UNKNOWN" case LicMimePart => "X-LIC-MIME-PART"
  }

  /** Where the kind stands in the table. */
  function Place(kind: ComponentKind): nat {
    match kind
    case VEvent => 0 case VTodo => 1 case VJournal => 2 case VCalendar => 3 case VAgenda => 4
    case VFreeBusy => 5 case VTimezone => 6 case VAlarm => 7 case Standard => 8 case Daylight => 9
    case Schedule => 11 case VCar => 12 case VCommand => 13 case VQuery => 14 case VReply => 15
    case LicUnknown => 16 case LicMimePart => 17 case Any => 18 case XRoot => 19
  }

  /** The kind has one entry in the table, and its name is that of the entry. */
  lemma NameIsMapped(kind: ComponentKind, i: nat)
    requires i < |COMPONENT_MAP|
    ensures Place(kind) < |COMPONENT_MAP|
    ensures COMPONENT_MAP[i].kind == Known(kind) <==> i == Place(kind)
    ensures COMPONENT_MAP[i].kind == Known(kind) ==> COMPONENT_MAP[i].name == KindName(kind)
  {
  }

  /** icalcomponent_kind_to_string. */
  method KindToString(kind: ComponentKind) returns (name: string)
    ensures name == KindName(kind)
  {
    var i := 0;
    NameIsMapped(kind, 0);
    while COMPONENT_MAP[i].kind != Known(kind)
      invariant 0 <= i <= Place(kind) < |COMPONENT_MAP|
      decreases Place(kind) - i
    {
      NameIsMapped(kind, i);
      i := i + 1;
      NameIsMapped(kind, i);
    }
    NameIsMapped(kind, i);
    name := COMPONENT_MAP[i].name;
  }

  function Lower(c: char): char {
    if 'A' <= c <= 'Z' then c + ' ' else c
  }

  /** strncasecmp up to the length of the name. */
  predicate Matches(s: string, name: string) {
    |name| <= |s| && forall i :: 0 <= i < |name| ==> Lower(s[i]) == Lower(name[i])
  }

  /** What the first entry from i on stands for whose name the string starts with, in any case. */
  function FirstMatch(s: string, i: nat): Named
    requires i <= |COMPONENT_MAP|
    decreases |COMPONENT_MAP| - i
  {
    if i == |COMPONENT_MAP| then NoComponent
    else if Matches(s, COMPONENT_MAP[i].name) then COMPONENT_MAP[i].kind
    else FirstMatch(s, i + 1)
  }

  /** icalcomponent_string_to_kind. */
  method StringToKind(s: string) returns (kind: Named)
    ensures kind == FirstMatch(s, 0)
  {
    var i := 0;
    while i < |COMPONENT_MAP|
      invariant 0 <= i <= |COMPONENT_MAP| && FirstMatch(s, i) == FirstMatch(s, 0)
    {
      if Matches(s, COMPONENT_MAP[i].name) {
        return COMPONENT_MAP[i].kind;
      }
      i := i + 1;
    }
    kind := NoComponent;
  }

  lemma {:induction false} FirstMatchIs(s: string, i: nat, k: nat)
    requires i <= k < |COMPONENT_MAP| && Matches(s, COMPONENT_MAP[k].name)
    requires forall j :: i <= j < k ==> !Matches(s, COMPONENT_MAP[j].name)
    ensures FirstMatch(s, i) == COMPONENT_MAP[k].kind
    decreases k - i
  {
    if i < k {
      FirstMatchIs(s, i + 1, k);
    }
  }

  /** The same text, but for letters that are small in t and capital in s. */
  predicate SmallerCase(s: string, t: string) {
    |s| == |t| && forall i :: 0 <= i < |s| && i < |t| ==>
      s[i] == t[i] || (65 <= s[i] as int <= 90 && t[i] as int == s[i] as int + 32)
  }

  /** Capitals or small letters make no difference. */
  lemma {:induction false} AnyCase(s: string, t: string, i: nat)
    requires SmallerCase(s, t) && i <= |COMPONENT_MAP|
    ensures FirstMatch(s, i) == FirstMatch(t, i)
    decreases |COMPONENT_MAP| - i
  {
    if i < |COMPONENT_MAP| {
      MatchesAnyCase(s, t, COMPONENT_MAP[i].name);
      AnyCase(s, t, i + 1);
    }
  }

  lemma MatchesAnyCase(s: string, t: string, name: string)
    requires SmallerCase(s, t)
    ensures Matches(s, name) <==> Matches(t, name)
  {
    assert forall k :: 0 <= k < |s| ==> Lower(s[k]) == Lower(t[k]);
  }

  /** Names in capitals match when one starts with the other. */
  predicate Capitals(s: string) {
    forall c <- s :: !('a' <= c <= 'z')
  }

  lemma LowerInjective(a: char, b: char)
    requires !('a' <= a <= 'z') && !('a' <= b <= 'z') && Lower(a) == Lower(b)
    ensures a == b
  {
  }

  lemma CapitalsMatch(s: string, name: string)
    requires Capitals(s) && Capitals(name)
    ensures Matches(s, name) <==> name <= s
  {
    if Matches(s, name) {
      forall i | 0 <= i < |name| ensures s[i] == name[i] {
        assert s[i] in s && name[i] in name;
        LowerInjective(s[i], name[i]);
      }
    }
  }

  lemma NamesCapital(i: nat)
    requires i < |COMPONENT_MAP|
    ensures Capitals(COMPONENT_MAP[i].name)
  {
    match COMPONENT_MAP[i].kind
    case Known(kind) =>
      NameIsMapped(kind, i);
      KindCapitals(kind);
    case _ =>
      OnlyX(i);
  }

  lemma OnlyX(i: nat)
    requires i < |COMPONENT_MAP| && !COMPONENT_MAP[i].kind.Known?
    ensures i == 10 && COMPONENT_MAP[i].name == "X"
  {
  }

  lemma KindCapitals(kind: ComponentKind)
    ensures Capitals(KindName(kind))
  {
  }

  /** A name with an X in front of others is taken for that of an X component. */
  predicate LooksLikeX(kind: ComponentKind) {
    kind == LicUnknown || kind == LicMimePart || kind == XRoot
  }

  /** The name of a kind stands for the kind again, unless it starts with an X. */
  lemma KindRoundTrip(kind: ComponentKind)
    ensures FirstMatch(KindName(kind), 0) == if LooksLikeX(kind) then XComponent else Known(kind)
  {
    var k := if LooksLikeX(kind) then 10 else Place(kind);
    NameIsMapped(kind, Place(kind));
    NamesCapital(Place(kind));
    NamesCapital(k);
    CapitalsMatch(KindName(kind), COMPONENT_MAP[k].name);
    NoEarlierPrefix(kind, k);
    forall j | 0 <= j < k ensures !Matches(KindName(kind), COMPONENT_MAP[j].name) {
      NamesCapital(j);
      CapitalsMatch(KindName(kind), COMPONENT_MAP[j].name);
    }
    FirstMatchIs(KindName(kind), 0, k);
  }

  lemma NoEarlierPrefix(kind: ComponentKind, k: nat)
    requires k == if LooksLikeX(kind) then 10 else Place(kind)
    ensures k < |COMPONENT_MAP| && COMPONENT_MAP[k].name <= KindName(kind)
    ensures forall j :: 0 <= j < k ==> !(COMPONENT_MAP[j].name <= KindName(kind))
  {
    forall j | 0 <= j < k ensures !(COMPONENT_MAP[j].name <= KindName(kind)) {
      NamesDiffer(kind, j);
    }
  }

  predicate DifferAt(a: string, b: string, i: nat) {
    i < |a| && (i < |b| ==> a[i] != b[i])
  }

  predicate Differ(a: string, b: string) {
    DifferAt(a, b, 0) || DifferAt(a, b, 1) || DifferAt(a, b, 2) || DifferAt(a, b, 3)
  }

  /** Two names in the table differ in one of their first four letters, if the first does not start with an X. */
  lemma NamesDiffer(kind: ComponentKind, j: nat)
    requires j < (if LooksLikeX(kind) then 10 else Place(kind)) && j < |COMPONENT_MAP|
    ensures Differ(COMPONENT_MAP[j].name, KindName(kind))
  {
    if j < 4 {
      FirstNamesDiffer(kind, j);
    } else if j < 8 {
      NextNamesDiffer(kind, j);
    } else {
      LastNamesDiffer(kind, j);
    }
  }

  lemma FirstNamesDiffer(kind: ComponentKind, j: nat)
    requires j < (if LooksLikeX(kind) then 10 else Place(kind)) && j < 4
    ensures Differ(COMPONENT_MAP[j].name, KindName(kind))
  {
  }

  lemma NextNamesDiffer(kind: ComponentKind, j: nat)
    requires j < (if LooksLikeX(kind) then 10 else Place(kind)) && 4 <= j < 8
    ensures Differ(COMPONENT_MAP[j].name, KindName(kind))
  {
  }

  lemma LastNamesDiffer(kind: ComponentKind, j: nat)
    requires j < (if LooksLikeX(kind) then 10 else Place(kind)) && 8 <= j < |COMPONENT_MAP|
    ensures Differ(COMPONENT_MAP[j].name, KindName(kind))
  {
  }
}
