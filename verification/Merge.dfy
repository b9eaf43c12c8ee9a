/**
  Comparing two VTIMEZONEs and merging two VCALENDARs (the timezone part of icalcomponent.c).
 */
module Merge {
  import opened Wrappers
  import opened Sequences
  import opened Tree
  import opened Component
  import Serialise

  // --------------------------------------------------------------------- on values

  /** A VTIMEZONE is taken over when it has a TZID that the calendar does not know yet. */
  function Absorb(children: seq<Tree>, zone: Tree): seq<Tree> {
    if IsNew(children, zone) then [zone] + children else children
  }

  predicate IsNew(children: seq<Tree>, zone: Tree) {
    TzidOf(zone).Some? && TzidOf(zone).value !in Tzids(children)
  }

  function AbsorbAll(children: seq<Tree>, zones: seq<Tree>): seq<Tree>
    decreases |zones|
  {
    if zones == [] then children else Absorb(AbsorbAll(children, zones[..|zones| - 1]), zones[|zones| - 1])
  }

  /** The children of the merged calendar. */
  function Merged(children: seq<Tree>, others: seq<Tree>): seq<Tree> {
    AbsorbAll(children, Filter(others, IsZone)) + Filter(others, IsNotZone)
  }

  predicate HasTzid(t: Tree, tzid: string) {
    IsZone(t) && TzidOf(t) == Some(tzid)
  }

  /** The VTIMEZONEs that have the TZID. */
  function ZonesWith(children: seq<Tree>, tzid: string): seq<Tree> {
    Filter(children, t => HasTzid(t, tzid))
  }

  lemma ZonesWithTzids(children: seq<Tree>, tzid: string)
    ensures ZonesWith(children, tzid) != [] <==> tzid in Tzids(children)
    ensures forall t :: t in ZonesWith(children, tzid) <==> t in children && HasTzid(t, tzid)
  {
    forall t ensures t in ZonesWith(children, tzid) <==> t in children && HasTzid(t, tzid) {
      FilterMember(children, t => HasTzid(t, tzid), t);
    }
    if ZonesWith(children, tzid) != [] {
      assert ZonesWith(children, tzid)[0] in children;
    }
  }

  lemma ZonesWithConcat(children: seq<Tree>, more: seq<Tree>, tzid: string)
    ensures ZonesWith(children + more, tzid) == ZonesWith(children, tzid) + ZonesWith(more, tzid)
  {
    FilterConcat(children, more, t => HasTzid(t, tzid));
  }

  lemma ZonesWithOne(zone: Tree, tzid: string)
    ensures ZonesWith([zone], tzid) == if HasTzid(zone, tzid) then [zone] else []
  {
    var p: Tree -> bool := t => HasTzid(t, tzid);
    assert [zone][1..] == [] && Filter([zone], p) == (if p(zone) then [zone] else []) + Filter([zone][1..], p);
    NothingAfter(if p(zone) then [zone] else []);
  }

  /** Only VTIMEZONEs count. */
  lemma {:induction false} ZonesWithOnly(others: seq<Tree>, tzid: string)
    ensures ZonesWith(Filter(others, IsZone), tzid) == ZonesWith(others, tzid)
    ensures ZonesWith(Filter(others, IsNotZone), tzid) == []
  {
    if others != [] {
      ZonesWithOnly(others[1..], tzid);
      ZonesWithOne(others[0], tzid);
      var some := if IsZone(others[0]) then [others[0]] else [];
      ZonesWithConcat(some, Filter(others[1..], IsZone), tzid);
      ZonesWithConcat(if IsZone(others[0]) then [] else [others[0]], Filter(others[1..], IsNotZone), tzid);
    }
  }

  function FirstOnly<T>(s: seq<T>): seq<T> {
    if s == [] then s else s[..1]
  }

  /** The zones of the first list if it has the TZID, else the first one of the second list. */
  function Resolved(children: seq<Tree>, others: seq<Tree>, tzid: string): seq<Tree> {
    if tzid in Tzids(children) then ZonesWith(children, tzid) else FirstOnly(ZonesWith(others, tzid))
  }

  lemma TzidsSnoc(zones: seq<Tree>)
    requires zones != [] && IsZone(zones[|zones| - 1])
    ensures var last := zones[|zones| - 1];
            Tzids(zones) == Tzids(zones[..|zones| - 1])
                          + (if TzidOf(last).Some? then {TzidOf(last).value} else {})
  {
    assert zones == zones[..|zones| - 1] + [zones[|zones| - 1]];
  }

  lemma {:induction false} AbsorbAllTzids(children: seq<Tree>, zones: seq<Tree>)
    requires forall t <- zones :: IsZone(t)
    ensures Tzids(AbsorbAll(children, zones)) == Tzids(children) + Tzids(zones)
    decreases |zones|
  {
    if zones == [] {
      assert Tzids([]) == {};
    } else {
      var last, front := zones[|zones| - 1], zones[..|zones| - 1];
      assert last in zones && forall t <- front :: t in zones;
      AbsorbAllTzids(children, front);
      TzidsSnoc(zones);
      TzidsAdd(AbsorbAll(children, front), last);
    }
  }

  /**
    Taking over zones: a TZID known before keeps its zones, any other one gets the first that
    is offered.
   */
  lemma {:induction false} AbsorbAllExact(children: seq<Tree>, zones: seq<Tree>, tzid: string)
    requires forall t <- zones :: IsZone(t)
    ensures ZonesWith(AbsorbAll(children, zones), tzid) == Resolved(children, zones, tzid)
    decreases |zones|
  {
    if zones == [] {
      ZonesWithTzids(children, tzid);
    } else {
      var last, front := zones[|zones| - 1], zones[..|zones| - 1];
      assert last in zones && forall t <- front :: t in zones;
      AbsorbAllExact(children, front, tzid);
      AbsorbAllTzids(children, front);
      AbsorbStep(children, front, AbsorbAll(children, front), last, tzid);
      assert zones == front + [last];
    }
  }

  /** One more zone offered. */
  lemma AbsorbStep(children: seq<Tree>, zones: seq<Tree>, now: seq<Tree>, zone: Tree, tzid: string)
    requires IsZone(zone) && Tzids(now) == Tzids(children) + Tzids(zones)
    requires ZonesWith(now, tzid) == Resolved(children, zones, tzid)
    ensures ZonesWith(Absorb(now, zone), tzid) == Resolved(children, zones + [zone], tzid)
  {
    AbsorbOne(now, zone, tzid);
    ZonesWithConcat(zones, [zone], tzid);
    ZonesWithOne(zone, tzid);
    ZonesWithTzids(zones, tzid);
    FirstOfBoth(ZonesWith(zones, tzid), ZonesWith([zone], tzid));
  }

  lemma FirstOfBoth<T>(s: seq<T>, r: seq<T>)
    ensures FirstOnly(s + r) == if s == [] then FirstOnly(r) else FirstOnly(s)
  {
  }

  lemma AbsorbOne(children: seq<Tree>, zone: Tree, tzid: string)
    requires IsZone(zone)
    ensures ZonesWith(Absorb(children, zone), tzid)
         == if HasTzid(zone, tzid) && tzid !in Tzids(children) then [zone] else ZonesWith(children, tzid)
  {
    ZonesWithConcat([zone], children, tzid);
    ZonesWithOne(zone, tzid);
    ZonesWithTzids(children, tzid);
    assert [] + ZonesWith(children, tzid) == ZonesWith(children, tzid);
  }

  lemma {:induction false} AbsorbAllOthers(children: seq<Tree>, zones: seq<Tree>)
    requires forall t <- zones :: IsZone(t)
    ensures Filter(AbsorbAll(children, zones), IsNotZone) == Filter(children, IsNotZone)
    decreases |zones|
  {
    if zones != [] {
      var last, front := zones[|zones| - 1], zones[..|zones| - 1];
      var before := AbsorbAll(children, front);
      assert last in zones && forall t <- front :: t in zones;
      AbsorbAllOthers(children, front);
      assert ([last] + before)[1..] == before;
      assert [] + Filter(before, IsNotZone) == Filter(before, IsNotZone);
    }
  }

  /** Zone i is the first one with a TZID that the children do not have. */
  predicate FirstNew(children: seq<Tree>, zones: seq<Tree>, i: nat)
    requires i < |zones|
  {
    && IsNew(children, zones[i])
    && forall j :: 0 <= j < i ==> TzidOf(zones[j]) != TzidOf(zones[i])
  }

  function NewZones(children: seq<Tree>, zones: seq<Tree>): seq<Tree> {
    if zones == [] then []
    else
      NewZones(children, zones[..|zones| - 1])
      + if FirstNew(children, zones, |zones| - 1) then [zones[|zones| - 1]] else []
  }

  lemma TzidsHave(zones: seq<Tree>, tzid: string)
    requires forall t <- zones :: IsZone(t)
    ensures tzid in Tzids(zones) <==> exists j :: 0 <= j < |zones| && TzidOf(zones[j]) == Some(tzid)
  {
    if j :| 0 <= j < |zones| && TzidOf(zones[j]) == Some(tzid) {
      assert zones[j] in zones;
    }
  }

  /** Those go in front, the last one first; the children stay as they are. */
  lemma {:induction false} AbsorbAllInFront(children: seq<Tree>, zones: seq<Tree>)
    requires forall t <- zones :: IsZone(t)
    ensures AbsorbAll(children, zones) == Reverse(NewZones(children, zones)) + children
    decreases |zones|
  {
    if zones != [] {
      var last, front := zones[|zones| - 1], zones[..|zones| - 1];
      assert last in zones && forall t <- front :: t in zones;
      AbsorbAllInFront(children, front);
      AbsorbAllTzids(children, front);
      if TzidOf(last).Some? {
        TzidsHave(front, TzidOf(last).value);
        assert (exists j :: 0 <= j < |front| && TzidOf(front[j]) == TzidOf(last))
          <==> !forall j :: 0 <= j < |zones| - 1 ==> TzidOf(zones[j]) != TzidOf(last);
      }
      var before := NewZones(children, front);
      if FirstNew(children, zones, |zones| - 1) {
        ReverseSnoc(before, last);
        Assoc([last], Reverse(before), children);
      } else {
        NothingAfter(before);
      }
    }
  }

  lemma ReverseSnoc(s: seq<Tree>, x: Tree)
    ensures Reverse(s + [x]) == [x] + Reverse(s)
  {
  }

  /**
    The merged calendar: the new zones of the second one in reverse, the children of the first
    one, and the other children of the second one.
   */
  lemma MergedInOrder(children: seq<Tree>, others: seq<Tree>)
    ensures Merged(children, others)
         == Reverse(NewZones(children, Filter(others, IsZone))) + children + Filter(others, IsNotZone)
  {
    var zones := Filter(others, IsZone);
    forall t ensures t in zones ==> IsZone(t) { FilterMember(others, IsZone, t); }
    AbsorbAllInFront(children, zones);
  }

  lemma TzidsOfZones(others: seq<Tree>)
    ensures Tzids(Filter(others, IsZone)) == Tzids(others)
  {
    forall t ensures t in Filter(others, IsZone) <==> t in others && IsZone(t) {
      FilterMember(others, IsZone, t);
    }
  }

  /**
    Of the merged calendar: its other children are those of both, in order; it resolves a TZID
    exactly when one of the two did; and the VTIMEZONEs with a TZID are those of the first
    calendar if it knew it, else the first one that the second had.
   */
  lemma MergedExact(children: seq<Tree>, others: seq<Tree>, tzid: string)
    ensures Filter(Merged(children, others), IsNotZone)
         == Filter(children, IsNotZone) + Filter(others, IsNotZone)
    ensures Tzids(Merged(children, others)) == Tzids(children) + Tzids(others)
    ensures ZonesWith(Merged(children, others), tzid) == Resolved(children, others, tzid)
  {
    var zones, rest := Filter(others, IsZone), Filter(others, IsNotZone);
    forall t ensures t in zones ==> IsZone(t) { FilterMember(others, IsZone, t); }
    forall t ensures t in rest ==> IsNotZone(t) { FilterMember(others, IsNotZone, t); }
    AbsorbAllTzids(children, zones);
    AbsorbAllExact(children, zones, tzid);
    AbsorbAllOthers(children, zones);
    ZonesWithConcat(AbsorbAll(children, zones), rest, tzid);
    ZonesWithOnly(others, tzid);
    NothingAfter(ZonesWith(AbsorbAll(children, zones), tzid));
    assert forall t :: t in AbsorbAll(children, zones) + rest <==> t in AbsorbAll(children, zones) || t in rest;
    FilterConcat(AbsorbAll(children, zones), rest, IsNotZone);
    FilterAll(rest, IsNotZone);
    TzidsOfZones(others);
  }

  /** A TZID has as many VTIMEZONEs as in the first calendar, or one that is new. */
  lemma MergedCounts(children: seq<Tree>, others: seq<Tree>, tzid: string)
    ensures |ZonesWith(Merged(children, others), tzid)|
         == if tzid in Tzids(children) then |ZonesWith(children, tzid)| else if tzid in Tzids(others) then 1 else 0
  {
    MergedExact(children, others, tzid);
    ZonesWithTzids(others, tzid);
  }

  /** Whatever VTIMEZONE a TZID leads to is one that it leads to in the given calendar. */
  predicate SameMeaning(children: seq<Tree>, given: seq<Tree>, tzid: string) {
    forall t <- ZonesWith(children, tzid) :: t in ZonesWith(given, tzid)
  }

  /**
    The TZIDs of the components that are moved keep their meaning exactly if the first calendar
    did not know them or knew the same zones by them.
   */
  lemma MeaningKept(children: seq<Tree>, others: seq<Tree>, tzid: string)
    ensures SameMeaning(Merged(children, others), others, tzid)
            <==> tzid !in Tzids(children) || SameMeaning(children, others, tzid)
  {
    MergedExact(children, others, tzid);
  }

  /** Merging a calendar with itself, or merging twice, adds no VTIMEZONE the second time. */
  lemma MergeAgain(children: seq<Tree>, others: seq<Tree>)
    ensures AbsorbAll(Merged(children, others), Filter(others, IsZone)) == Merged(children, others)
  {
    MergedExact(children, others, "");
    KnownZones(Merged(children, others), Filter(others, IsZone), others);
  }

  lemma {:induction false} KnownZones(children: seq<Tree>, zones: seq<Tree>, others: seq<Tree>)
    requires Tzids(others) <= Tzids(children)
    requires forall t <- zones :: t in Filter(others, IsZone)
    ensures AbsorbAll(children, zones) == children
    decreases |zones|
  {
    if zones != [] {
      var last := zones[|zones| - 1];
      assert last in zones;
      FilterMember(others, IsZone, last);
      KnownZones(children, zones[..|zones| - 1], others);
      assert TzidOf(last).Some? ==> TzidOf(last).value in Tzids(others);
    }
  }

  // -------------------------------------------------------------------- comparison

  lemma {:induction false} PropsTzidRestored(props: seq<PropertyValue>, other: string)
    requires PropsTzid(props).Some?
    ensures Serialise.PropsWithTzid(Serialise.PropsWithTzid(props, other), PropsTzid(props).value) == props
  {
    var r := Serialise.PropsWithTzid(props, other);
    assert props == [props[0]] + props[1..];
    if props[0].kind == Tzid {
      assert r[1..] == props[1..];
    } else {
      assert r[1..] == Serialise.PropsWithTzid(props[1..], other);
      PropsTzidRestored(props[1..], other);
    }
  }

  /** The first lookup of a TZID, on a whole tree. */
  method FindTzid(c: Component) returns (k: int, tzid: Option<string>)
    requires c.Valid()
    modifies c`propertyIterator
    ensures c.Valid() && k == ScanProps(c.tree.props, 0, Tzid) && tzid == TzidOf(c.tree)
    ensures k < |c.properties| && (tzid.Some? ==> k != NULL)
  {
    var p := c.GetFirstProperty(Tzid);
    c.RelinkedValid();
    k := c.propertyIterator;
    FirstTzid(c.tree.props);
    tzid := if p == null || !p.val.value.Text? then None else Some(p.val.value.text);
  }

  /**
    icalcomponent_compare_vtimezones.  The TZID of the second tree is set to that of the first
    for the time of the comparison; afterwards both trees are what they were.
   */
  method CompareVtimezones(v1: Component, v2: Component, line: PropertyValue -> string) returns (r: int)
    requires v1.Valid() && v2.Valid() && v1.Repr !! v2.Repr
    modifies v1`propertyIterator, v2`propertyIterator, v2`tree, v2.properties
    ensures r == Serialise.CompareZones(old(v1.tree), old(v2.tree), line)
    ensures v1.Valid() && v1.tree == old(v1.tree) && v2.Valid() && v2.tree == old(v2.tree)
  {
    var k1, tzid1 := FindTzid(v1);
    r := -1;
    if tzid1.Some? {
      r := CompareGiven(v1, v2, tzid1.value, line);
    }
  }

  /** The rest, once the TZID of the first tree is known. */
  method CompareGiven(v1: Component, v2: Component, tzid1: string, line: PropertyValue -> string) returns (r: int)
    requires v1.Valid() && v2.Valid() && v1.Repr !! v2.Repr && TzidOf(v1.tree) == Some(tzid1)
    modifies v2`propertyIterator, v2`tree, v2.properties
    ensures r == Serialise.CompareZones(v1.tree, old(v2.tree), line)
    ensures v1.Valid() && v1.tree == old(v1.tree) && v2.Valid() && v2.tree == old(v2.tree)
  {
    var k2, tzid2 := FindTzidBeside(v1, v2);
    r := -1;
    if tzid2.Some? {
      r := CompareUnderTzid(v1, v2, k2, tzid1, tzid2.value, line);
    }
  }

  method FindTzidBeside(v1: Component, v2: Component) returns (k: int, tzid: Option<string>)
    requires v1.Valid() && v2.Valid() && v1.Repr !! v2.Repr
    modifies v2`propertyIterator
    ensures v1.Valid() && v1.tree == old(v1.tree) && v2.Valid() && v2.tree == old(v2.tree)
    ensures k == ScanProps(v2.tree.props, 0, Tzid) && tzid == TzidOf(v2.tree)
    ensures k < |v2.properties| && (tzid.Some? ==> k != NULL)
  {
    k, tzid := FindTzid(v2);
    v1.Untouched();
  }

  /** The comparison proper, with the TZID at k2 set and set back. */
  method CompareUnderTzid(v1: Component, v2: Component, k2: nat, tzid1: string, tzid2: string,
      line: PropertyValue -> string) returns (r: int)
    requires v1.Valid() && v2.Valid() && v1.Repr !! v2.Repr
    requires k2 < |v2.properties| && ScanProps(v2.tree.props, 0, Tzid) == k2 && TzidOf(v2.tree) == Some(tzid2)
    modifies v2`tree, v2.properties[k2]
    ensures r
         == if Serialise.AsString(v1.tree, line) == Serialise.AsString(Serialise.WithTzid(old(v2.tree), tzid1), line)
            then 1 else 0
    ensures v1.Valid() && v1.tree == old(v1.tree) && v2.Valid() && v2.tree == old(v2.tree)
  {
    TzidRestored(v2.tree, tzid1, tzid2);
    SetTzidBeside(v1, v2, k2, tzid1);
    r := CompareStrings(v1, v2, line);
    SetTzidBeside(v1, v2, k2, tzid2);
  }

  /** Setting the TZID of one tree leaves another one alone. */
  method SetTzidBeside(v1: Component, v2: Component, k2: nat, tzid: string)
    requires v1.Valid() && v2.Valid() && v1.Repr !! v2.Repr
    requires k2 < |v2.properties| && ScanProps(v2.tree.props, 0, Tzid) == k2
    modifies v2`tree, v2.properties[k2]
    ensures v1.Valid() && v1.tree == old(v1.tree)
    ensures v2.Valid() && v2.tree == Serialise.WithTzid(old(v2.tree), tzid)
  {
    assert v2.properties[k2] in v2.properties && v2.properties[k2] !in v1.Repr && v2 !in v1.Repr;
    v2.SetTzidAt(k2, tzid);
    v1.Untouched();
  }

  lemma TzidRestored(t: Tree, other: string, tzid: string)
    requires TzidOf(t) == Some(tzid)
    ensures Serialise.WithTzid(Serialise.WithTzid(t, other), tzid) == t
    ensures ScanProps(Serialise.WithTzid(t, other).props, 0, Tzid) == ScanProps(t.props, 0, Tzid)
  {
    SameScan(t.props, other);
    PropsTzidRestored(t.props, other);
  }

  method CompareStrings(v1: Component, v2: Component, line: PropertyValue -> string) returns (r: int)
    requires v1.Valid() && v2.Valid()
    ensures r == if Serialise.AsString(v1.tree, line) == Serialise.AsString(v2.tree, line) then 1 else 0
  {
    var string1 := v1.AsIcalString(line);
    var string2 := v2.AsIcalString(line);
    r := if string1 == string2 then 1 else 0;
  }

  lemma SameScan(props: seq<PropertyValue>, tzid: string)
    ensures ScanProps(Serialise.PropsWithTzid(props, tzid), 0, Tzid) == ScanProps(props, 0, Tzid)
  {
    SetFirstTzid(props, tzid);
    var k := ScanProps(props, 0, Tzid);
    if k != NULL {
      FirstScan(props[k := props[k].(value := Text(tzid))], 0, k);
    }
  }

  lemma {:induction false} FirstScan(props: seq<PropertyValue>, i: nat, k: nat)
    requires i <= k < |props| && props[k].kind == Tzid && forall j :: i <= j < k ==> props[j].kind != Tzid
    ensures ScanProps(props, i, Tzid) == k
    decreases k - i
  {
    if i < k {
      FirstScan(props, i + 1, k);
    }
  }

  // ----------------------------------------------------------------------- merging

  /** Take child k out of one tree and add it to another. */
  method MoveChild(from: Component, to: Component, child: Component, ghost k: nat)
    requires from.Valid() && to.Valid() && from.Repr !! to.Repr
    requires k < |from.components| && from.components[k] == child
    modifies from, to, child, child.Children()`propertyIterator
    ensures from.Valid() && to.Valid() && from.Repr !! to.Repr && from.Repr + to.Repr == old(from.Repr + to.Repr)
    ensures from.components == Without(old(from.components), k)
    ensures from.tree == old(from.tree).(children := Without(old(from.tree.children), k))
    ensures from.componentIterator == CursorAfterRemove(old(from.componentIterator), k, |old(from.components)|)
    ensures to.components
         == if child.kind == VTimezone then [child] + old(to.components) else old(to.components) + [child]
    ensures to.tree == old(to.tree).(children := AddChild(old(to.tree.children), old(from.tree.children[k])))
  {
    from.Detach(child, k);
    to.Untouched();
    from.AdoptBeside(to, child);
  }

  /** The decision of icalcomponent_merge_vtimezone: whether the zone is to be moved. */
  method ZoneIsNew(comp: Component, zone: Component, line: PropertyValue -> string) returns (isNew: bool)
    requires comp.Valid() && zone.Valid() && comp.Repr !! zone.Repr && TzidOf(comp.tree) == None
    modifies comp`propertyIterator, comp`timezones, comp`timezonesSorted
    modifies zone`propertyIterator, zone`tree, zone.properties
    ensures comp.Valid() && comp.tree == old(comp.tree)
    ensures zone.Valid() && zone.tree == old(zone.tree)
    ensures isNew <==> IsNew(comp.tree.children, zone.tree)
  {
    var k, tzid := FindTzid(zone);
    comp.Untouched();
    isNew := false;
    if tzid.Some? {
      isNew := TzidIsNew(comp, zone, tzid.value, line);
    }
  }

  /** The rest of the decision, once the TZID is known. */
  method TzidIsNew(comp: Component, zone: Component, tzid: string, line: PropertyValue -> string) returns (isNew: bool)
    requires comp.Valid() && zone.Valid() && comp.Repr !! zone.Repr && TzidOf(comp.tree) == None
    modifies comp`propertyIterator, comp`timezones, comp`timezonesSorted
    modifies zone`propertyIterator, zone`tree, zone.properties
    ensures comp.Valid() && comp.tree == old(comp.tree)
    ensures zone.Valid() && zone.tree == old(zone.tree)
    ensures isNew <==> tzid !in Tzids(comp.tree.children)
  {
    var existing := LookUp(comp, tzid);
    zone.Untouched();
    isNew := existing == None;
    if !isNew && !(|tzid| > 0 && tzid[0] == '/') {
      var same := CompareVtimezones(comp, zone, line);
      assert same == -1;
    }
  }

  /** icalcomponent_get_timezone on a whole tree. */
  method LookUp(comp: Component, tzid: string) returns (zone: Option<Zone>)
    requires comp.Valid()
    modifies comp`timezones, comp`timezonesSorted
    ensures comp.Valid() && (zone.Some? <==> tzid in Tzids(comp.tree.children))
    ensures zone.Some? ==>
              zone.value.component in comp.components
              && zone.value.component.tree in ZonesWith(comp.tree.children, tzid)
  {
    zone := comp.GetTimezone(tzid);
    comp.SelfChangedValid();
    ZonesWithTzids(comp.tree.children, tzid);
  }

  /** icalcomponent_merge_vtimezone: the zone, child k of the other calendar, goes over if it is new. */
  method MergeVtimezone(comp: Component, other: Component, zone: Component, ghost k: nat, line: PropertyValue -> string)
    returns (moved: bool)
    requires comp.Valid() && other.Valid() && comp.Repr !! other.Repr && TzidOf(comp.tree) == None
    requires k < |other.components| && other.components[k] == zone && zone.kind == VTimezone
    modifies comp, other, zone, zone.properties, zone.Children()`propertyIterator
    ensures comp.Valid() && other.Valid() && comp.Repr !! other.Repr
    ensures comp.Repr + other.Repr == old(comp.Repr + other.Repr)
    ensures moved <==> IsNew(old(comp.tree.children), old(other.tree.children[k]))
    ensures moved ==>
              && comp.tree == old(comp.tree).(children := [old(other.tree.children[k])] + old(comp.tree.children))
              && comp.components == [zone] + old(comp.components)
              && other.components == Without(old(other.components), k)
              && other.tree == old(other.tree).(children := Without(old(other.tree.children), k))
              && other.componentIterator == CursorAfterRemove(old(other.componentIterator), k, |old(other.components)|)
    ensures !moved ==>
              && comp.tree == old(comp.tree) && comp.components == old(comp.components)
              && other.tree == old(other.tree) && other.components == old(other.components)
              && other.componentIterator == old(other.componentIterator)
  {
    moved := ZoneIsNewHere(comp, other, zone, k, line);
    if moved {
      MoveChild(other, comp, zone, k);
    }
  }

  /** The decision, for a zone that is still a child of the other calendar. */
  method ZoneIsNewHere(comp: Component, other: Component, zone: Component, ghost k: nat, line: PropertyValue -> string)
    returns (isNew: bool)
    requires comp.Valid() && other.Valid() && comp.Repr !! other.Repr && TzidOf(comp.tree) == None
    requires k < |other.components| && other.components[k] == zone
    modifies comp`propertyIterator, comp`timezones, comp`timezonesSorted
    modifies zone`propertyIterator, zone`tree, zone.properties
    ensures comp.Valid() && comp.tree == old(comp.tree) && comp.components == old(comp.components)
    ensures comp.Repr == old(comp.Repr) && unchanged(other) && other.Valid()
    ensures isNew <==> IsNew(comp.tree.children, other.tree.children[k])
  {
    other.ChildValid(k);
    isNew := ZoneIsNew(comp, zone, line);
    other.ChildSameValid(k);
  }

  lemma ScanNextZone(children: seq<Tree>, k: nat)
    requires ZonesFirst(children) && k < |children| && IsZone(children[k])
    ensures ScanChildren(children, k + 1, VTimezone)
         == if k + 1 < |children| && IsZone(children[k + 1]) then k + 1 else NULL
  {
    var next := ScanChildren(children, k + 1, VTimezone);
    if next != NULL {
      assert IsZone(children[k + 1]);
    }
  }

  lemma OthersCons(c: Component, components: seq<Component>)
    ensures Others([c] + components, VTimezone)
         == (if c.kind == VTimezone then [] else [c]) + Others(components, VTimezone)
  {
    assert ([c] + components)[1..] == components;
  }

  lemma {:induction false} OthersSnoc(components: seq<Component>, c: Component)
    ensures Others(components + [c], VTimezone)
         == Others(components, VTimezone) + (if c.kind == VTimezone then [] else [c])
  {
    if components == [] {
      assert [c][1..] == [];
      NothingAfter(if c.kind == VTimezone then [] else [c]);
    } else {
      assert (components + [c])[1..] == components[1..] + [c];
      OthersSnoc(components[1..], c);
    }
  }

  /** The first of the others goes when it is taken out and only zones stand before it. */
  lemma {:induction false} OthersFirst(components: seq<Component>, k: nat)
    requires k < |components| && components[k].kind != VTimezone
    requires forall i :: 0 <= i < k ==> components[i].kind == VTimezone
    ensures Others(components, VTimezone) == [components[k]] + Others(Without(components, k), VTimezone)
    decreases k
  {
    if k == 0 {
      WithoutFirst(components);
    } else {
      WithoutTail(components, k);
      OthersFirst(components[1..], k - 1);
      assert [] + Others(components[1..], VTimezone) == Others(components[1..], VTimezone);
      var rest := Others(Without(components[1..], k - 1), VTimezone);
      assert [] + rest == rest;
    }
  }

  /** One turn of the first loop: the next zone is fetched, then the current one, child k, merged. */
  method MergeZoneTurn(comp: Component, other: Component, zone: Component, ghost k: nat, line: PropertyValue -> string)
    returns (next: Component?, ghost gone: bool)
    requires comp.Valid() && other.Valid() && comp.Repr !! other.Repr && TzidOf(comp.tree) == None
    requires other.componentIterator == k && zone == other.components[k] && zone.kind == VTimezone
    modifies comp, other, zone, zone.properties, zone.Children()`propertyIterator
    ensures comp.Valid() && other.Valid() && comp.Repr !! other.Repr
    ensures comp.Repr + other.Repr == old(comp.Repr + other.Repr)
    ensures gone <==> IsNew(old(comp.tree.children), old(other.tree.children[k]))
    ensures comp.tree == old(comp.tree).(children := Absorb(old(comp.tree.children), old(other.tree.children[k])))
    ensures other.tree == old(other.tree).(children := Leave(old(other.tree.children), k, gone))
    ensures other.componentIterator == CursorAfterTurn(old(other.tree.children), k, gone)
    ensures next == other.CurrentComponent()
    ensures Others(comp.components, VTimezone) == Others(old(comp.components), VTimezone)
    ensures Others(other.components, VTimezone) == Others(old(other.components), VTimezone)
  {
    OthersCons(zone, comp.components);
    OthersWithout(other.components, VTimezone, k);
    next := NextZone(comp, other, k);
    gone := MergeVtimezone(comp, other, zone, k, line);
  }

  /** A list with the element at k gone or not. */
  function Leave<T>(s: seq<T>, k: nat, gone: bool): seq<T>
    requires k < |s|
  {
    if gone then Without(s, k) else s
  }

  /** The cursor after the turn for child k: at the next child if it is a zone. */
  function CursorAfterTurn(children: seq<Tree>, k: nat, gone: bool): int
    requires k < |children|
  {
    if k + 1 < |children| && IsZone(children[k + 1]) then (if gone then k else k + 1) else NULL
  }

  /** The next zone is fetched; it is at the cursor still when the current one has gone. */
  method NextZone(comp: Component, other: Component, ghost k: nat) returns (next: Component?)
    requires comp.Valid() && other.Valid() && comp.Repr !! other.Repr && other.componentIterator == k
    requires IsZone(other.tree.children[k])
    modifies other`componentIterator
    ensures comp.Valid() && other.Valid()
    ensures other.componentIterator
         == if k + 1 < |other.components| && IsZone(other.tree.children[k + 1]) then k + 1 else NULL
    ensures next == other.CurrentComponent()
    ensures next != null ==> Without(other.components, k)[k] == next
  {
    ScanNextZone(other.tree.children, k);
    next := other.GetNextComponent(VTimezone);
    other.SelfChangedValid();
    comp.Untouched();
  }

  /** The zones that are not taken over. */
  function LeftZones(children: seq<Tree>, zones: seq<Tree>): seq<Tree>
    decreases |zones|
  {
    if zones == [] then []
    else
      var before := AbsorbAll(children, zones[..|zones| - 1]);
      var left := LeftZones(children, zones[..|zones| - 1]);
      if IsNew(before, zones[|zones| - 1]) then left else left + [zones[|zones| - 1]]
  }

  /** The children of the other calendar once i of them have been looked at, and the cursor. */
  function LeftOver(children: seq<Tree>, others: seq<Tree>, i: nat): seq<Tree>
    requires i <= |others|
  {
    LeftZones(children, others[..i]) + others[i..]
  }

  function LeftCursor(children: seq<Tree>, others: seq<Tree>, i: nat): int
    requires i <= |others|
  {
    if i < |others| && IsZone(others[i]) then |LeftZones(children, others[..i])| else NULL
  }

  /** One more zone looked at. */
  lemma LeftStep(children: seq<Tree>, others: seq<Tree>, i: nat)
    requires i < |others| && IsZone(others[i])
    ensures var k, now := LeftCursor(children, others, i), LeftOver(children, others, i);
            var before := AbsorbAll(children, others[..i]);
            var gone := IsNew(before, others[i]);
            && 0 <= k < |now| && now[k] == others[i]
            && AbsorbAll(children, others[..i + 1]) == Absorb(before, others[i])
            && LeftOver(children, others, i + 1) == Leave(now, k, gone)
            && LeftCursor(children, others, i + 1) == CursorAfterTurn(now, k, gone)
            && (AllZones(others[..i]) ==> AllZones(others[..i + 1]))
  {
    var left := LeftZones(children, others[..i]);
    assert others[..i + 1][..i] == others[..i] && others[..i + 1][i] == others[i];
    DropOne(others, i);
    WithoutMiddle(left, others[i], others[i + 1..]);
    if i + 1 < |others| {
      assert (left + others[i..])[|left| + 1] == others[i + 1];
    }
  }

  lemma LeftStart(children: seq<Tree>, others: seq<Tree>)
    ensures AbsorbAll(children, others[..0]) == children && LeftOver(children, others, 0) == others
    ensures ZonesFirst(others) ==> LeftCursor(children, others, 0) == ScanChildren(others, 0, VTimezone)
  {
    assert others[..0] == [] && [] + others[0..] == others;
    if ZonesFirst(others) && ScanChildren(others, 0, VTimezone) != NULL {
      assert IsZone(others[0]);
    }
  }

  /** When the cursor has run out the zones are all looked at. */
  lemma LeftEnd(children: seq<Tree>, others: seq<Tree>, i: nat)
    requires i <= |others| && ZonesFirst(others) && AllZones(others[..i]) && LeftCursor(children, others, i) == NULL
    ensures AbsorbAll(children, others[..i]) == AbsorbAll(children, Filter(others, IsZone))
    ensures LeftOver(children, others, i) == LeftZones(children, Filter(others, IsZone)) + Filter(others, IsNotZone)
  {
    assert i < |others| ==> IsNotZone(others[i]);
    assert NoZones(others[i..]);
    assert others == others[..i] + others[i..];
    CloneSides(others[..i], others[i..]);
  }

  lemma ZoneInRepr(other: Component, zone: Component)
    requires other.Valid() && zone in other.components
    ensures zone in other.Repr && (forall p <- zone.properties :: p in other.Repr)
    ensures forall c <- zone.components :: c in other.Repr
  {
  }

  /** The state of the first loop when i children of the other calendar have been looked at. */
  ghost predicate ZonesMerged(comp: Component, other: Component, subcomp: Component?, ct: Tree, ot: Tree, i: nat)
    reads comp, other
  {
    && i <= |ot.children| && AllZones(ot.children[..i])
    && comp.tree == ct.(children := AbsorbAll(ct.children, ot.children[..i]))
    && other.tree == ot.(children := LeftOver(ct.children, ot.children, i))
    && other.componentIterator == LeftCursor(ct.children, ot.children, i)
    && NULL <= other.componentIterator < |other.components|
    && subcomp == other.CurrentComponent()
  }

  method MergeZoneTurnAt(comp: Component, other: Component, zone: Component, line: PropertyValue -> string,
      ghost ct: Tree, ghost ot: Tree, ghost i: nat) returns (next: Component?)
    requires comp.Valid() && other.Valid() && comp.Repr !! other.Repr && TzidOf(ct) == None
    requires ZonesMerged(comp, other, zone, ct, ot, i)
    modifies comp.Repr + other.Repr
    ensures comp.Valid() && other.Valid() && comp.Repr !! other.Repr
    ensures comp.Repr + other.Repr == old(comp.Repr + other.Repr)
    ensures i < |ot.children| && ZonesMerged(comp, other, next, ct, ot, i + 1)
    ensures Others(comp.components, VTimezone) == Others(old(comp.components), VTimezone)
    ensures Others(other.components, VTimezone) == Others(old(other.components), VTimezone)
  {
    LeftStep(ct.children, ot.children, i);
    ZoneInRepr(other, zone);
    ghost var gone;
    next, gone := MergeZoneTurn(comp, other, zone, other.componentIterator, line);
  }

  /** The first loop starts at the first zone of the other calendar. */
  method FirstZone(comp: Component, other: Component) returns (subcomp: Component?)
    requires comp.Valid() && other.Valid() && comp.Repr !! other.Repr
    modifies other`componentIterator
    ensures comp.Valid() && other.Valid() && ZonesMerged(comp, other, subcomp, comp.tree, other.tree, 0)
  {
    subcomp := FirstBeside(comp, other);
    NoneMerged(comp, other, subcomp);
  }

  lemma NoneMerged(comp: Component, other: Component, subcomp: Component?)
    requires other.Ok() && subcomp == other.CurrentComponent()
    requires other.componentIterator == ScanChildren(other.tree.children, 0, VTimezone)
    ensures ZonesMerged(comp, other, subcomp, comp.tree, other.tree, 0)
  {
    LeftStart(comp.tree.children, other.tree.children);
  }

  method FirstBeside(comp: Component, other: Component) returns (subcomp: Component?)
    requires comp.Valid() && other.Valid() && comp.Repr !! other.Repr
    modifies other`componentIterator
    ensures comp.Valid() && other.Valid() && other.tree == old(other.tree)
    ensures other.componentIterator == ScanChildren(other.tree.children, 0, VTimezone)
    ensures subcomp == other.CurrentComponent()
  {
    subcomp := other.GetFirstComponent(VTimezone);
    other.SelfChangedValid();
    comp.Untouched();
  }

  /** The first loop of the merge. */
  method MergeZones(comp: Component, other: Component, line: PropertyValue -> string)
    requires comp.Valid() && other.Valid() && comp.Repr !! other.Repr && TzidOf(comp.tree) == None
    modifies comp.Repr + other.Repr
    ensures comp.Valid() && other.Valid() && comp.Repr !! other.Repr
    ensures comp.Repr + other.Repr == old(comp.Repr + other.Repr)
    ensures comp.tree == old(comp.tree).(children :=
              AbsorbAll(old(comp.tree.children), Filter(old(other.tree.children), IsZone)))
    ensures other.tree == old(other.tree).(children :=
              LeftZones(old(comp.tree.children), Filter(old(other.tree.children), IsZone))
              + Filter(old(other.tree.children), IsNotZone))
    ensures Others(comp.components, VTimezone) == Others(old(comp.components), VTimezone)
    ensures Others(other.components, VTimezone) == Others(old(other.components), VTimezone)
  {
    ghost var ct, ot := comp.tree, other.tree;
    ghost var i := VisitZones(comp, other, line);
    LeftEnd(ct.children, ot.children, i);
  }

  /** The loop itself; i children of the other calendar have been looked at when the cursor runs out. */
  method VisitZones(comp: Component, other: Component, line: PropertyValue -> string) returns (ghost i: nat)
    requires comp.Valid() && other.Valid() && comp.Repr !! other.Repr && TzidOf(comp.tree) == None
    modifies comp.Repr + other.Repr
    ensures comp.Valid() && other.Valid() && comp.Repr !! other.Repr
    ensures comp.Repr + other.Repr == old(comp.Repr + other.Repr)
    ensures ZonesMerged(comp, other, null, old(comp.tree), old(other.tree), i)
    ensures Others(comp.components, VTimezone) == Others(old(comp.components), VTimezone)
    ensures Others(other.components, VTimezone) == Others(old(other.components), VTimezone)
  {
    ghost var ct, ot := comp.tree, other.tree;
    i := 0;
    var subcomp := FirstZone(comp, other);
    while subcomp != null
      invariant comp.Valid() && other.Valid() && comp.Repr !! other.Repr
      invariant comp.Repr + other.Repr == old(comp.Repr + other.Repr)
      invariant ZonesMerged(comp, other, subcomp, ct, ot, i)
      invariant Others(comp.components, VTimezone) == Others(old(comp.components), VTimezone)
      invariant Others(other.components, VTimezone) == Others(old(other.components), VTimezone)
      decreases |ot.children| - i
    {
      subcomp := MergeZoneTurnAt(comp, other, subcomp, line, ct, ot, i);
      i := i + 1;
    }
  }

  /**
    The state of the second loop when i of the other children have been moved: the zones stay
    in front, and the cursor is among them or at the next child to be moved.
   */
  ghost predicate OthersMoved(comp: Component, other: Component, subcomp: Component?, ct: Tree, ot: Tree,
      zones: seq<Tree>, rest: seq<Tree>, i: nat)
    reads comp, other
  {
    && AllZones(zones) && NoZones(rest) && i <= |rest|
    && comp.tree == ct.(children := ct.children + rest[..i])
    && other.tree == ot.(children := zones + rest[i..])
    && |other.components| == |other.tree.children|
    && NULL <= other.componentIterator < |other.components|
    && (other.componentIterator == NULL ==> i == |rest|)
    && (other.componentIterator != NULL ==>
          other.componentIterator <= |zones| && (i > 0 ==> other.componentIterator == |zones|))
    && subcomp == other.CurrentComponent()
  }

  lemma MoveStep(children: seq<Tree>, zones: seq<Tree>, rest: seq<Tree>, i: nat)
    requires i < |rest| && NoZones(rest)
    ensures (zones + rest[i..])[|zones|] == rest[i] && IsNotZone(rest[i])
    ensures Without(zones + rest[i..], |zones|) == zones + rest[i + 1..]
    ensures (children + rest[..i]) + [rest[i]] == children + rest[..i + 1]
  {
    assert rest[..i] + [rest[i]] == rest[..i + 1];
    Assoc(children, rest[..i], [rest[i]]);
    DropOne(rest, i);
    WithoutMiddle(zones, rest[i], rest[i + 1..]);
  }

  /** A child that is not a VTIMEZONE is moved. */
  method MoveOther(comp: Component, other: Component, child: Component, ghost k: nat)
    requires comp.Valid() && other.Valid() && comp.Repr !! other.Repr
    requires k < |other.components| && other.components[k] == child && child.kind != VTimezone
    requires forall j :: 0 <= j < k ==> other.components[j].kind == VTimezone
    requires other.componentIterator == NULL || other.componentIterator > k
    modifies comp.Repr + other.Repr
    ensures comp.Valid() && other.Valid() && comp.Repr !! other.Repr
    ensures comp.Repr + other.Repr == old(comp.Repr + other.Repr)
    ensures comp.tree == old(comp.tree).(children := old(comp.tree.children) + [old(other.tree.children[k])])
    ensures other.tree == old(other.tree).(children := Without(old(other.tree.children), k))
    ensures other.components == Without(old(other.components), k)
    ensures other.componentIterator
         == if old(other.componentIterator) == NULL then NULL else old(other.componentIterator) - 1
    ensures Others(comp.components, VTimezone) + Others(other.components, VTimezone)
         == Others(old(comp.components), VTimezone) + Others(old(other.components), VTimezone)
  {
    PositionIs(other.components, child, k);
    ZoneInRepr(other, child);
    OthersSnoc(comp.components, child);
    OthersFirst(other.components, k);
    Snoc(Others(comp.components, VTimezone), child, Others(Without(other.components, k), VTimezone));
    MoveChild(other, comp, child, k);
  }

  lemma ZonesBefore(other: Component, k: nat)
    requires other.Ok() && k < |other.components|
    ensures other.components[k].kind == other.tree.children[k].kind
    ensures !IsZone(other.tree.children[k]) && AllZones(other.tree.children[..k]) ==>
              forall j :: 0 <= j < k ==> other.components[j].kind == VTimezone
  {
    if AllZones(other.tree.children[..k]) {
      forall j | 0 <= j < k ensures other.components[j].kind == VTimezone {
        assert IsZone(other.tree.children[..k][j]);
      }
    }
  }

  /** One turn of the second loop: the next child is fetched, then the current one is looked at. */
  method MoveTurn(comp: Component, other: Component, child: Component, ghost ct: Tree, ghost ot: Tree,
      ghost zones: seq<Tree>, ghost rest: seq<Tree>, ghost i: nat) returns (next: Component?, ghost i': nat)
    requires comp.Valid() && other.Valid() && comp.Repr !! other.Repr
    requires OthersMoved(comp, other, child, ct, ot, zones, rest, i)
    modifies comp.Repr + other.Repr
    ensures comp.Valid() && other.Valid() && comp.Repr !! other.Repr
    ensures comp.Repr + other.Repr == old(comp.Repr + other.Repr)
    ensures OthersMoved(comp, other, next, ct, ot, zones, rest, i')
    ensures i' == i + 1
            || (i' == i
                && (other.componentIterator == NULL || other.componentIterator > old(other.componentIterator)))
    ensures Others(comp.components, VTimezone) + Others(other.components, VTimezone)
         == Others(old(comp.components), VTimezone) + Others(old(other.components), VTimezone)
  {
    ghost var k := other.componentIterator;
    ZonesBefore(other, k);
    CursorZone(zones, rest, i, k);
    next := NextBeside(comp, other);
    i' := i;
    if child.kind != VTimezone {
      MoveFetched(comp, other, child, next, ct, ot, zones, rest, i);
      i' := i + 1;
    }
  }

  /** The next child is fetched; the other tree is left alone. */
  method NextBeside(comp: Component, other: Component) returns (next: Component?)
    requires comp.Valid() && other.Valid() && comp.Repr !! other.Repr && other.componentIterator != NULL
    modifies other`componentIterator
    ensures comp.Valid() && other.Valid() && next == other.CurrentComponent()
    ensures other.componentIterator
         == if old(other.componentIterator) + 1 < |other.components| then old(other.componentIterator) + 1 else NULL
  {
    next := other.NextChild();
    comp.Untouched();
  }

  lemma CursorZone(zones: seq<Tree>, rest: seq<Tree>, i: nat, k: nat)
    requires AllZones(zones) && NoZones(rest) && i <= |rest| && k <= |zones| && k < |zones + rest[i..]|
    ensures IsZone((zones + rest[i..])[k]) <==> k < |zones|
    ensures k == |zones| ==> i < |rest|
    ensures k == |zones| ==> (zones + rest[i..])[..k] == zones
    ensures k < |zones| && k + 1 == |zones + rest[i..]| ==> i == |rest|
  {
  }

  /** The child is moved, the next one having been fetched. */
  method MoveFetched(comp: Component, other: Component, child: Component, next: Component?, ghost ct: Tree,
      ghost ot: Tree, ghost zones: seq<Tree>, ghost rest: seq<Tree>, ghost i: nat)
    requires comp.Valid() && other.Valid() && comp.Repr !! other.Repr && child.kind != VTimezone
    requires AllZones(zones) && NoZones(rest) && i < |rest|
    requires comp.tree == ct.(children := ct.children + rest[..i]) && other.tree == ot.(children := zones + rest[i..])
    requires other.components[|zones|] == child && next == other.CurrentComponent()
    requires other.componentIterator == if |zones| + 1 < |other.components| then |zones| + 1 else NULL
    requires forall j :: 0 <= j < |zones| ==> other.components[j].kind == VTimezone
    modifies comp.Repr + other.Repr
    ensures comp.Valid() && other.Valid() && comp.Repr !! other.Repr
    ensures comp.Repr + other.Repr == old(comp.Repr + other.Repr)
    ensures OthersMoved(comp, other, next, ct, ot, zones, rest, i + 1)
    ensures Others(comp.components, VTimezone) + Others(other.components, VTimezone)
         == Others(old(comp.components), VTimezone) + Others(old(other.components), VTimezone)
  {
    MoveStep(ct.children, zones, rest, i);
    CursorKeepsElement(other.components, |zones|, other.componentIterator);
    MoveOther(comp, other, child, |zones|);
  }

  /** The second loop of the merge: everything but the zones is moved, in order. */
  method MoveOthers(comp: Component, other: Component, ghost zones: seq<Tree>, ghost rest: seq<Tree>)
    requires comp.Valid() && other.Valid() && comp.Repr !! other.Repr
    requires AllZones(zones) && NoZones(rest) && other.tree.children == zones + rest
    modifies comp.Repr + other.Repr
    ensures comp.Valid() && other.Valid() && comp.Repr !! other.Repr
    ensures comp.tree == old(comp.tree).(children := old(comp.tree.children) + rest)
    ensures other.tree == old(other.tree).(children := zones)
    ensures Others(comp.components, VTimezone)
         == Others(old(comp.components), VTimezone) + Others(old(other.components), VTimezone)
  {
    ghost var ct, ot := comp.tree, other.tree;
    ghost var i := VisitOthers(comp, other, zones, rest);
    MoveEnd(ct.children, zones, rest);
    OnlyZonesLeft(other, zones);
    NothingAfter(Others(comp.components, VTimezone));
  }

  /** The loop itself. */
  method VisitOthers(comp: Component, other: Component, ghost zones: seq<Tree>, ghost rest: seq<Tree>)
    returns (ghost i: nat)
    requires comp.Valid() && other.Valid() && comp.Repr !! other.Repr
    requires AllZones(zones) && NoZones(rest) && other.tree.children == zones + rest
    modifies comp.Repr + other.Repr
    ensures comp.Valid() && other.Valid() && comp.Repr !! other.Repr
    ensures OthersMoved(comp, other, null, old(comp.tree), old(other.tree), zones, rest, i)
    ensures Others(comp.components, VTimezone) + Others(other.components, VTimezone)
         == Others(old(comp.components), VTimezone) + Others(old(other.components), VTimezone)
  {
    ghost var ct, ot := comp.tree, other.tree;
    i := 0;
    MoveStart(ct.children, zones, rest);
    var subcomp := other.FirstChild();
    comp.Untouched();
    while subcomp != null
      invariant comp.Valid() && other.Valid() && comp.Repr !! other.Repr
      invariant comp.Repr + other.Repr == old(comp.Repr + other.Repr)
      invariant OthersMoved(comp, other, subcomp, ct, ot, zones, rest, i)
      invariant Others(comp.components, VTimezone) + Others(other.components, VTimezone)
             == Others(old(comp.components), VTimezone) + Others(old(other.components), VTimezone)
      decreases |rest| - i, if other.componentIterator == NULL then 0 else |other.components| - other.componentIterator
    {
      subcomp, i := MoveTurn(comp, other, subcomp, ct, ot, zones, rest, i);
    }
  }

  lemma MoveStart(children: seq<Tree>, zones: seq<Tree>, rest: seq<Tree>)
    ensures children + rest[..0] == children && zones + rest[0..] == zones + rest
  {
  }

  lemma MoveEnd(children: seq<Tree>, zones: seq<Tree>, rest: seq<Tree>)
    ensures children + rest[..|rest|] == children + rest && zones + rest[|rest|..] == zones
  {
  }

  lemma OnlyZonesLeft(other: Component, zones: seq<Tree>)
    requires other.Ok() && other.tree.children == zones && AllZones(zones)
    ensures Others(other.components, VTimezone) == []
  {
    NoOthers(other.components, zones);
  }

  lemma {:induction false} NoOthers(components: seq<Component>, zones: seq<Tree>)
    requires |components| == |zones| && AllZones(zones)
    requires forall i :: 0 <= i < |components| ==> components[i].kind == zones[i].kind
    ensures Others(components, VTimezone) == []
  {
    if components != [] {
      assert IsZone(zones[0]);
      assert forall i :: 0 <= i < |components| - 1 ==> components[1..][i].kind == zones[1..][i].kind;
      NoOthers(components[1..], zones[1..]);
    }
  }

  lemma {:induction false} LeftAreZones(children: seq<Tree>, zones: seq<Tree>)
    requires AllZones(zones)
    ensures AllZones(LeftZones(children, zones))
    decreases |zones|
  {
    if zones != [] {
      LeftAreZones(children, zones[..|zones| - 1]);
    }
  }

  /**
    icalcomponent_merge_component, up to the freeing of what is left of the second calendar.
    The first calendar has no TZID property of its own.
   */
  method MergeComponent(comp: Component, other: Component, line: PropertyValue -> string)
    requires comp.Valid() && other.Valid() && comp.Repr !! other.Repr
    requires comp.kind == VCalendar && other.kind == VCalendar && TzidOf(comp.tree) == None
    modifies comp.Repr + other.Repr
    ensures comp.Valid() && other.Valid() && comp.Repr !! other.Repr
    ensures comp.tree == old(comp.tree).(children := Merged(old(comp.tree.children), old(other.tree.children)))
    ensures Others(comp.components, VTimezone)
         == Others(old(comp.components), VTimezone) + Others(old(other.components), VTimezone)
  {
    ghost var cs, ts := comp.tree.children, other.tree.children;
    ghost var zones, rest := LeftZones(cs, Filter(ts, IsZone)), Filter(ts, IsNotZone);
    KindsOf(ts);
    LeftAreZones(cs, Filter(ts, IsZone));
    MergeZones(comp, other, line);
    MoveOthers(comp, other, zones, rest);
  }

  /**
    A zone can be looked up after the merge exactly when it could in one of the calendars, and
    it is that of the first one if that knew it, else the first of the second one.
   */
  method MergeAndLookUp(comp: Component, other: Component, line: PropertyValue -> string, tzid: string)
    returns (zone: Option<Zone>)
    requires comp.Valid() && other.Valid() && comp.Repr !! other.Repr
    requires comp.kind == VCalendar && other.kind == VCalendar && TzidOf(comp.tree) == None
    modifies comp.Repr + other.Repr
    ensures zone.Some? <==> tzid in old(Tzids(comp.tree.children)) || tzid in old(Tzids(other.tree.children))
    ensures zone.Some? ==>
              zone.value.component in comp.components
              && zone.value.component.tree in old(Resolved(comp.tree.children, other.tree.children, tzid))
  {
    MergedExact(comp.tree.children, other.tree.children, tzid);
    MergeComponent(comp, other, line);
    zone := LookUp(comp, tzid);
  }
}
