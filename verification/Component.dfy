/**
  The mutable component tree of icalcomponent.c.

  A pvl list is the sequence of its data, and a cursor into it the position of the element
  it points to, or NULL.  An icalproperty is an object with a value and a parent link.  The
  icaltimezone array of a component is the sequence of its entries, empty when it has not
  been allocated.

  The ghost field tree is the value of the component (see Tree.dfy), and Repr the objects
  it is made of.
 */
module Component {
  import opened Wrappers
  import opened Sequences
  import opened Tree
  import opened Paths
  import Strcmp
  import Serialise

  const NULL := -1

  class Property {
    var val: PropertyValue
    var parent: Component?

    constructor (val: PropertyValue)
      ensures this.val == val && parent == null
    {
      this.val := val;
      parent := null;
    }
  }

  /** icaltimezone: the TZID, copied when the entry is made, and the VTIMEZONE. */
  datatype Zone = Zone(tzid: string, component: Component)

  function ZoneKey(z: Zone): string {
    z.tzid
  }

  /** The entry that belongs to one child, if any. */
  ghost function EntryFor(component: Component, child: Tree): seq<Zone> {
    if IsZone(child) then ZoneFor(component, TzidOf(child)) else []
  }

  /** The entries that belong in the array of timezones, in the order of the children. */
  ghost function ZonesOf(components: seq<Component>, children: seq<Tree>): seq<Zone>
    requires |components| == |children|
  {
    if children == [] then []
    else
      EntryFor(components[0], children[0]) + ZonesOf(components[1..], children[1..])
  }

  lemma {:induction false} ZonesAppend(components: seq<Component>, children: seq<Tree>, child: Component)
    requires |components| == |children| && child.kind != VTimezone && child.tree.kind == child.kind
    ensures ZonesOf(components + [child], children + [child.tree]) == ZonesOf(components, children)
  {
    if children == [] {
      assert ([child.tree])[1..] == [];
    } else {
      assert (components + [child])[1..] == components[1..] + [child];
      assert (children + [child.tree])[1..] == children[1..] + [child.tree];
      ZonesAppend(components[1..], children[1..], child);
    }
  }

  /** The parts of a VTIMEZONE that say when its times hold. */
  predicate IsObservance(c: Component) {
    c.kind == Standard || c.kind == Daylight
  }

  function ZoneFor(child: Component, tzid: Option<string>): seq<Zone> {
    if tzid.Some? then [Zone(tzid.value, child)] else []
  }

  lemma ZonesPrepend(child: Component, components: seq<Component>, children: seq<Tree>)
    requires |components| == |children| && child.kind == VTimezone && child.tree.kind == child.kind
    ensures ZonesOf([child] + components, [child.tree] + children)
         == ZoneFor(child, TzidOf(child.tree)) + ZonesOf(components, children)
  {
    assert ([child] + components)[1..] == components && ([child.tree] + children)[1..] == children;
  }

  lemma {:induction false} FirstTzidFrom(props: seq<PropertyValue>, i: nat)
    requires i <= |props|
    ensures var k := ScanProps(props, i, Tzid);
            PropsTzid(props[i..]) == if k != NULL && props[k].value.Text? then Some(props[k].value.text) else None
    decreases |props| - i
  {
    if i < |props| {
      assert props[i..][1..] == props[i + 1..];
      FirstTzidFrom(props, i + 1);
    }
  }

  lemma FirstTzid(props: seq<PropertyValue>)
    ensures var k := ScanProps(props, 0, Tzid);
            PropsTzid(props) == if k != NULL && props[k].value.Text? then Some(props[k].value.text) else None
  {
    FirstTzidFrom(props, 0);
    assert props[0..] == props;
  }

  lemma {:induction false} SetFirstTzidFrom(props: seq<PropertyValue>, i: nat, tzid: string)
    requires i <= |props|
    ensures var k := ScanProps(props, i, Tzid);
            Serialise.PropsWithTzid(props[i..], tzid)
            == if k == NULL then props[i..] else props[k := props[k].(value := Text(tzid))][i..]
    decreases |props| - i
  {
    if i < |props| {
      DropOne(props, i);
      SetFirstTzidFrom(props, i + 1, tzid);
      var k := ScanProps(props, i, Tzid);
      if k != NULL {
        UpdateLater(props, i, k, props[k].(value := Text(tzid)));
      }
    }
  }

  lemma SetFirstTzid(props: seq<PropertyValue>, tzid: string)
    ensures var k := ScanProps(props, 0, Tzid);
            Serialise.PropsWithTzid(props, tzid)
            == if k == NULL then props else props[k := props[k].(value := Text(tzid))]
  {
    SetFirstTzidFrom(props, 0, tzid);
    assert props[0..] == props;
  }

  /** The first position from i on of a property of the kind, or NULL. */
  function ScanProps(props: seq<PropertyValue>, i: nat, kind: PropertyKind): (k: int)
    requires i <= |props|
    ensures k == NULL || i <= k < |props|
    ensures k != NULL ==> IsKind(props[k], kind)
    ensures forall j :: i <= j < (if k == NULL then |props| else k) ==> !IsKind(props[j], kind)
    decreases |props| - i
  {
    if i == |props| then NULL else if IsKind(props[i], kind) then i else ScanProps(props, i + 1, kind)
  }

  /** The same from a position that may be NULL already. */
  function SeekProps(props: seq<PropertyValue>, i: int, kind: PropertyKind): int
    requires NULL <= i <= |props|
  {
    if i == NULL then NULL else ScanProps(props, i, kind)
  }

  /** The first position from i on of a child of the kind, or NULL. */
  function ScanChildren(children: seq<Tree>, i: nat, kind: ComponentKind): (k: int)
    requires i <= |children|
    ensures k == NULL || i <= k < |children|
    ensures k != NULL ==> IsChild(children[k], kind)
    ensures forall j :: i <= j < (if k == NULL then |children| else k) ==> !IsChild(children[j], kind)
    decreases |children| - i
  {
    if i == |children| then NULL else if IsChild(children[i], kind) then i else ScanChildren(children, i + 1, kind)
  }

  /** Where a cursor is after element k of n has gone: at its element, or the next one. */
  function CursorAfterRemove(cursor: int, k: nat, n: nat): int
    requires NULL <= cursor < n && k < n
  {
    if cursor == k then (if k + 1 < n then k else NULL)
    else if cursor > k then cursor - 1
    else cursor
  }

  /**
    Once element k has gone a cursor is at the same element as before, or, if that was element
    k, at the one that came after it, or at the end.
   */
  lemma CursorKeepsElement<T>(s: seq<T>, k: nat, cursor: int)
    requires k < |s| && (cursor == NULL || 0 <= cursor < |s|)
    ensures var after := CursorAfterRemove(cursor, k, |s|);
            if cursor == NULL || (cursor == k == |s| - 1) then after == NULL
            else 0 <= after < |s| - 1 && Without(s, k)[after] == s[if cursor == k then k + 1 else cursor]
  {
  }

  /** The first entry for a component, or the length. */
  function ZonePosition(zones: seq<Zone>, c: Component): (k: nat)
    ensures k <= |zones|
    ensures k < |zones| ==> zones[k].component == c
    ensures forall i :: 0 <= i < k ==> zones[i].component != c
  {
    if zones == [] || zones[0].component == c then 0 else 1 + ZonePosition(zones[1..], c)
  }

  function WithoutZone(zones: seq<Zone>, c: Component): seq<Zone> {
    var k := ZonePosition(zones, c);
    if k < |zones| then Without(zones, k) else zones
  }

  /** Every entry comes from a zone among the children. */
  lemma {:induction false} ZonesMember(components: seq<Component>, children: seq<Tree>, z: Zone)
    requires |components| == |children|
    ensures z in ZonesOf(components, children) <==>
            exists k :: 0 <= k < |children| && components[k] == z.component
                        && IsZone(children[k]) && TzidOf(children[k]) == Some(z.tzid)
  {
    if children != [] {
      ZonesMember(components[1..], children[1..], z);
      if z in ZonesOf(components[1..], children[1..]) {
        var k :| 0 <= k < |children[1..]| && components[1..][k] == z.component
                 && IsZone(children[1..][k]) && TzidOf(children[1..][k]) == Some(z.tzid);
        assert components[k + 1] == z.component;
      }
      if k :| 0 <= k < |children| && components[k] == z.component
              && IsZone(children[k]) && TzidOf(children[k]) == Some(z.tzid) {
        if k > 0 {
          assert components[1..][k - 1] == z.component;
        }
      }
    }
  }

  /** The entries of all children but one. */
  lemma {:induction false} ZonesWithout(components: seq<Component>, children: seq<Tree>, k: nat)
    requires |components| == |children| && k < |children|
    ensures multiset(ZonesOf(components, children))
         == multiset(ZonesOf(Without(components, k), Without(children, k)))
            + multiset(EntryFor(components[k], children[k]))
  {
    var head, rest := EntryFor(components[0], children[0]), ZonesOf(components[1..], children[1..]);
    MultisetConcat(head, rest);
    if k == 0 {
      WithoutFirst(components);
      WithoutFirst(children);
      MultisetSwap(multiset(head), multiset(rest));
    } else {
      ZonesWithout(components[1..], children[1..], k - 1);
      WithoutTail(components, k);
      WithoutTail(children, k);
      var rest' := ZonesOf(Without(components[1..], k - 1), Without(children[1..], k - 1));
      MultisetConcat(head, rest');
      MultisetAssoc(multiset(head), multiset(rest'), multiset(EntryFor(components[k], children[k])));
    }
  }

  /** A child changes into another one of its kind: the entries are the same exactly if its TZID stays. */
  lemma ZonesUpdated(components: seq<Component>, children: seq<Tree>, i: nat, t: Tree)
    requires |components| == |children| && i < |children| && t.kind == children[i].kind
    ensures multiset(ZonesOf(components, children[i := t])) == multiset(ZonesOf(components, children))
            <==> SameZone(t, children[i])
    ensures ZonesFirst(children) ==> ZonesFirst(children[i := t])
  {
    var left := multiset(ZonesOf(Without(components, i), Without(children, i)));
    var was, now := EntryFor(components[i], children[i]), EntryFor(components[i], t);
    ZonesWithout(components, children, i);
    ZonesWithout(components, children[i := t], i);
    assert Without(children[i := t], i) == Without(children, i);
    if left + multiset(was) == left + multiset(now) {
      MultisetSwap(left, multiset(was));
      MultisetSwap(left, multiset(now));
      MultisetCancel(multiset(was), multiset(now), left);
      SameEntry(components[i], children[i], t);
    }
    UpdatedZonesFirst(children, i, t);
  }

  lemma SameEntry(component: Component, t: Tree, other: Tree)
    requires t.kind == other.kind
    requires multiset(EntryFor(component, t)) == multiset(EntryFor(component, other))
    ensures SameZone(other, t)
  {
    if EntryFor(component, t) != [] {
      SameElements(EntryFor(component, t), EntryFor(component, other), EntryFor(component, t)[0]);
    } else {
      assert |multiset(EntryFor(component, other))| == 0;
    }
  }

  lemma {:induction false} UpdatedZonesFirst(children: seq<Tree>, i: nat, t: Tree)
    requires i < |children| && t.kind == children[i].kind
    ensures ZonesFirst(children) ==> ZonesFirst(children[i := t])
  {
    if i == 0 {
      assert children[0 := t][1..] == children[1..];
    } else {
      assert children[i := t][1..] == children[1..][i - 1 := t];
      UpdatedZonesFirst(children[1..], i - 1, t);
    }
  }

  predicate HasEntry(zones: seq<Zone>, tzid: string) {
    exists i :: 0 <= i < |zones| && zones[i].tzid == tzid
  }

  /** The TZIDs that are found in the array are those of the children. */
  ghost predicate LooksUp(zones: seq<Zone>, children: seq<Tree>) {
    forall tzid :: HasEntry(zones, tzid) <==> tzid in Tzids(children)
  }

  /**
    Whatever becomes of a child, an array that was in step finds exactly the TZIDs there are
    if and only if those are the same as before.
   */
  lemma StaleLookups(zones: seq<Zone>, components: seq<Component>, children: seq<Tree>, i: nat, t: Tree)
    requires |components| == |children| && i < |children|
    requires multiset(zones) == multiset(ZonesOf(components, children))
    ensures LooksUp(zones, children[i := t]) <==> Tzids(children[i := t]) == Tzids(children)
  {
    forall tzid ensures HasEntry(zones, tzid) <==> tzid in Tzids(children) {
      TzidIndexed(zones, components, children, tzid);
    }
  }

  lemma WithoutSorted(zones: seq<Zone>, k: nat)
    requires k < |zones| && Strcmp.Sorted(Map(zones, ZoneKey))
    ensures Strcmp.Sorted(Map(Without(zones, k), ZoneKey))
  {
    var keys := Map(zones, ZoneKey);
    forall i, j | 0 <= i < j < |zones| - 1
      ensures Strcmp.AtMost(ZoneKey(Without(zones, k)[i]), ZoneKey(Without(zones, k)[j])) {
      assert Strcmp.AtMost(keys[if i < k then i else i + 1], keys[if j < k then j else j + 1]);
    }
  }

  predicate DistinctComponents(components: seq<Component>) {
    forall i, j :: 0 <= i < j < |components| ==> components[i] != components[j]
  }

  /** An entry for child k is the one that belongs to it. */
  lemma EntryOfChild(components: seq<Component>, children: seq<Tree>, k: nat, z: Zone)
    requires |components| == |children| && k < |children| && DistinctComponents(components)
    requires z.component == components[k]
    ensures z in ZonesOf(components, children) <==> EntryFor(components[k], children[k]) == [z]
  {
    ZonesMember(components, children, z);
  }

  /** Dropping the entry of child k keeps the array in step with the list. */
  lemma ZoneDropped(zones: seq<Zone>, components: seq<Component>, children: seq<Tree>, k: nat)
    requires |components| == |children| && k < |children| && DistinctComponents(components)
    requires multiset(zones) == multiset(ZonesOf(components, children))
    ensures multiset(WithoutZone(zones, components[k]))
         == multiset(ZonesOf(Without(components, k), Without(children, k)))
  {
    var i := ZonePosition(zones, components[k]);
    var before, after := ZonesOf(components, children), ZonesOf(Without(components, k), Without(children, k));
    ZonesWithout(components, children, k);
    if i < |zones| {
      SameElements(zones, before, zones[i]);
      EntryOfChild(components, children, k, zones[i]);
      WithoutMultiset(zones, i);
      MultisetCancel(multiset(Without(zones, i)), multiset(after), multiset([zones[i]]));
    } else {
      if EntryFor(components[k], children[k]) != [] {
        var z := EntryFor(components[k], children[k])[0];
        EntryOfChild(components, children, k, z);
        SameElements(zones, before, z);
      }
      assert multiset(after) + multiset([]) == multiset(after);
    }
  }

  /** There is no entry for a component that is not a child. */
  lemma NoZone(zones: seq<Zone>, components: seq<Component>, children: seq<Tree>, c: Component)
    requires |components| == |children| && c !in components
    requires multiset(zones) == multiset(ZonesOf(components, children))
    ensures WithoutZone(zones, c) == zones
  {
    var i := ZonePosition(zones, c);
    if i < |zones| {
      SameElements(zones, ZonesOf(components, children), zones[i]);
      ZonesMember(components, children, zones[i]);
    }
  }

  /** A child that is not a VTIMEZONE has no entry. */
  lemma OtherHasNoZone(zones: seq<Zone>, components: seq<Component>, children: seq<Tree>, k: nat)
    requires |components| == |children| && k < |children| && DistinctComponents(components)
    requires multiset(zones) == multiset(ZonesOf(components, children)) && !IsZone(children[k])
    ensures WithoutZone(zones, components[k]) == zones
  {
    var i := ZonePosition(zones, components[k]);
    if i < |zones| {
      SameElements(zones, ZonesOf(components, children), zones[i]);
      EntryOfChild(components, children, k, zones[i]);
    }
  }

  lemma OtherIsNotIndexed(zones: seq<Zone>, components: seq<Component>, children: seq<Tree>, c: Component)
    requires |components| == |children| && DistinctComponents(components)
    requires multiset(zones) == multiset(ZonesOf(components, children))
    requires forall k :: 0 <= k < |children| && components[k] == c ==> !IsZone(children[k])
    ensures WithoutZone(zones, c) == zones
  {
    if k :| 0 <= k < |components| && components[k] == c {
      OtherHasNoZone(zones, components, children, k);
    } else {
      NoZone(zones, components, children, c);
    }
  }

  /** The properties of the kind from position i on, in list order; props are their values. */
  function Selected(properties: seq<Property>, props: seq<PropertyValue>, i: nat, kind: PropertyKind): seq<Property>
    requires |properties| == |props| && i <= |props|
    decreases |props| - i
  {
    if i == |props| then []
    else (if IsKind(props[i], kind) then [properties[i]] else []) + Selected(properties, props, i + 1, kind)
  }

  /** The properties selected from a cursor on. */
  function SelectedFrom(properties: seq<Property>, props: seq<PropertyValue>, cursor: int,
      kind: PropertyKind): seq<Property>
    requires |properties| == |props| && NULL <= cursor < |props|
  {
    if cursor == NULL then [] else [properties[cursor]] + Selected(properties, props, cursor + 1, kind)
  }

  lemma {:induction false} SelectedScan(properties: seq<Property>, props: seq<PropertyValue>, i: nat,
      kind: PropertyKind)
    requires |properties| == |props| && i <= |props|
    ensures Selected(properties, props, i, kind)
         == SelectedFrom(properties, props, ScanProps(props, i, kind), kind)
    decreases |props| - i
  {
    if i < |props| && !IsKind(props[i], kind) {
      SelectedScan(properties, props, i + 1, kind);
      assert [] + Selected(properties, props, i + 1, kind) == Selected(properties, props, i + 1, kind);
    }
  }

  /** What has been visited and what is still to come. */
  function WithRest(visited: seq<Property>, properties: seq<Property>, props: seq<PropertyValue>, cursor: int,
      kind: PropertyKind): seq<Property>
    requires |properties| == |props| && NULL <= cursor < |props|
  {
    visited + SelectedFrom(properties, props, cursor, kind)
  }

  lemma VisitEnds(properties: seq<Property>, props: seq<PropertyValue>, visited: seq<Property>, kind: PropertyKind)
    requires |properties| == |props|
    ensures WithRest([], properties, props, ScanProps(props, 0, kind), kind) == Selected(properties, props, 0, kind)
    ensures WithRest(visited, properties, props, NULL, kind) == visited
  {
    SelectedScan(properties, props, 0, kind);
  }

  /** Visiting one more property and going on to the next one. */
  lemma VisitStep(visited: seq<Property>, properties: seq<Property>, props: seq<PropertyValue>, cursor: nat,
      kind: PropertyKind)
    requires |properties| == |props| && cursor < |props|
    ensures WithRest(visited + [properties[cursor]], properties, props, ScanProps(props, cursor + 1, kind), kind)
         == WithRest(visited, properties, props, cursor, kind)
  {
    SelectedScan(properties, props, cursor + 1, kind);
    Snoc(visited, properties[cursor], Selected(properties, props, cursor + 1, kind));
  }

  /** The components of the kind from position i on, in order. */
  function Matching(components: seq<Component>, i: nat, kind: ComponentKind): seq<Component>
    requires i <= |components|
    decreases |components| - i
  {
    if i == |components| then []
    else (if components[i].kind == kind || kind == Any then [components[i]] else []) + Matching(components, i + 1, kind)
  }

  /** Those from a cursor on. */
  function MatchingFrom(components: seq<Component>, cursor: int, kind: ComponentKind): seq<Component>
    requires NULL <= cursor < |components|
  {
    if cursor == NULL then [] else [components[cursor]] + Matching(components, cursor + 1, kind)
  }

  predicate SameKinds(components: seq<Component>, children: seq<Tree>) {
    |components| == |children| && forall i :: 0 <= i < |children| ==> components[i].kind == children[i].kind
  }

  lemma {:induction false} MatchingScan(components: seq<Component>, children: seq<Tree>, i: nat, kind: ComponentKind)
    requires SameKinds(components, children) && i <= |children|
    ensures Matching(components, i, kind) == MatchingFrom(components, ScanChildren(children, i, kind), kind)
    decreases |children| - i
  {
    if i < |children| && !IsChild(children[i], kind) {
      MatchingScan(components, children, i + 1, kind);
      assert [] + Matching(components, i + 1, kind) == Matching(components, i + 1, kind);
    }
  }

  /** What has been visited and what is still to come. */
  function WithMatching(visited: seq<Component>, components: seq<Component>, cursor: int,
      kind: ComponentKind): seq<Component>
    requires NULL <= cursor < |components|
  {
    visited + MatchingFrom(components, cursor, kind)
  }

  lemma MatchingEnds(visited: seq<Component>, components: seq<Component>, children: seq<Tree>, kind: ComponentKind)
    requires SameKinds(components, children)
    ensures WithMatching([], components, ScanChildren(children, 0, kind), kind) == Matching(components, 0, kind)
    ensures WithMatching(visited, components, NULL, kind) == visited
  {
    MatchingScan(components, children, 0, kind);
  }

  lemma MatchingStep(visited: seq<Component>, components: seq<Component>, children: seq<Tree>, cursor: nat,
      kind: ComponentKind)
    requires SameKinds(components, children) && cursor < |components|
    ensures WithMatching(visited + [components[cursor]], components, ScanChildren(children, cursor + 1, kind), kind)
         == WithMatching(visited, components, cursor, kind)
  {
    MatchingScan(components, children, cursor + 1, kind);
    Snoc(visited, components[cursor], Matching(components, cursor + 1, kind));
  }

  /** The components of the kind and the others are all of them, each once. */
  lemma {:induction false} MatchingAndOthers(components: seq<Component>, i: nat, kind: ComponentKind)
    requires i <= |components|
    ensures multiset(components[i..])
         == multiset(Matching(components, i, kind)) + multiset(Others(components[i..], kind))
    decreases |components| - i
  {
    if i < |components| {
      MatchingAndOthers(components, i + 1, kind);
      DropOne(components, i);
      assert components[i..][1..] == components[i + 1..];
    }
  }

  /** The components that are not of the kind, in order. */
  function Others(components: seq<Component>, kind: ComponentKind): seq<Component> {
    if components == [] then []
    else (if components[0].kind == kind || kind == Any then [] else [components[0]]) + Others(components[1..], kind)
  }

  lemma {:induction false} OthersWithout(components: seq<Component>, kind: ComponentKind, k: nat)
    requires k < |components| && (components[k].kind == kind || kind == Any)
    ensures Others(Without(components, k), kind) == Others(components, kind)
  {
    if k == 0 {
      WithoutFirst(components);
    } else {
      WithoutTail(components, k);
      OthersWithout(components[1..], kind, k - 1);
    }
  }

  predicate PartOf(components: seq<Component>, all: seq<Component>) {
    forall c <- components :: c in all
  }

  lemma PartWithout(components: seq<Component>, k: nat, all: seq<Component>)
    requires k < |components| && PartOf(components, all)
    ensures components[k] in all && PartOf(Without(components, k), all)
  {
  }

  lemma {:induction false} OthersAll(components: seq<Component>, kind: ComponentKind)
    requires forall c <- components :: c.kind != kind && kind != Any
    ensures Others(components, kind) == components
  {
    if components != [] {
      OthersAll(components[1..], kind);
    }
  }

  lemma ScanIs(children: seq<Tree>, i: nat, kind: ComponentKind, k: int)
    requires i <= |children| && (k == NULL || i <= k < |children|)
    requires k != NULL ==> IsChild(children[k], kind)
    requires forall j :: i <= j < (if k == NULL then |children| else k) ==> !IsChild(children[j], kind)
    ensures ScanChildren(children, i, kind) == k
  {
  }

  /** After the first match has gone, the next one is the first. */
  lemma ScanWithout(children: seq<Tree>, kind: ComponentKind, k: nat)
    requires k < |children| && ScanChildren(children, 0, kind) == k
    ensures ScanChildren(Without(children, k), 0, kind)
         == CursorAfterRemove(ScanChildren(children, k + 1, kind), k, |children|)
  {
    var next, rest := ScanChildren(children, k + 1, kind), Without(children, k);
    forall j | 0 <= j < (if next == NULL then |rest| else next - 1) ensures !IsChild(rest[j], kind) {
      assert rest[j] == children[if j < k then j else j + 1];
    }
    ScanIs(rest, 0, kind, if next == NULL then NULL else next - 1);
  }

  /** The same as ScanChildren from a position that may be NULL already. */
  function SeekChildren(children: seq<Tree>, i: int, kind: ComponentKind): int
    requires NULL <= i <= |children|
  {
    if i == NULL then NULL else ScanChildren(children, i, kind)
  }

  /** A TZID can be resolved among the children exactly when the array has an entry for it. */
  lemma TzidIndexed(zones: seq<Zone>, components: seq<Component>, children: seq<Tree>, tzid: string)
    requires |components| == |children|
    requires multiset(zones) == multiset(ZonesOf(components, children))
    ensures tzid in Tzids(children) <==> HasEntry(zones, tzid)
  {
    if i :| 0 <= i < |zones| && zones[i].tzid == tzid {
      SameElements(zones, ZonesOf(components, children), zones[i]);
      ZonesMember(components, children, zones[i]);
      var k :| 0 <= k < |children| && IsZone(children[k]) && TzidOf(children[k]) == Some(tzid);
      assert children[k] in children;
    }
    if tzid in Tzids(children) {
      var t :| t in children && IsZone(t) && TzidOf(t) == Some(tzid);
      var k :| 0 <= k < |children| && children[k] == t;
      var z := Zone(tzid, components[k]);
      ZonesMember(components, children, z);
      SameElements(zones, ZonesOf(components, children), z);
    }
  }

  /** A VTIMEZONE child and its TZID. */
  predicate HasZone(components: seq<Component>, children: seq<Tree>, z: Zone)
    requires |components| == |children|
  {
    exists k :: 0 <= k < |children| && components[k] == z.component
                && IsZone(children[k]) && TzidOf(children[k]) == Some(z.tzid)
  }

  /** An entry names a VTIMEZONE child and its TZID. */
  lemma EntryIsChild(zones: seq<Zone>, components: seq<Component>, children: seq<Tree>, z: Zone)
    requires |components| == |children| && z in zones
    requires multiset(zones) == multiset(ZonesOf(components, children))
    ensures HasZone(components, children, z)
  {
    SameElements(zones, ZonesOf(components, children), z);
    ZonesMember(components, children, z);
  }

  /** The routines that change a component or its cursors; what is taken out is given by its position. */
  datatype Edit =
    | AddProperty(p: Property) | RemoveProperty(k: nat) | AddComponent(c: Component) | RemoveComponent(k: nat)
    | Within(inner: Inner)

  /** Those that are given nothing to put in or take out. */
  datatype Inner =
    | StripErrors | ConvertErrors
    | FirstProperty(prop: PropertyKind) | NextProperty(prop: PropertyKind)
    | FirstComponent(comp: ComponentKind) | NextComponent(comp: ComponentKind) | GetTimezone(tzid: string)

  /** The object an edit puts in. */
  ghost function NewPart(e: Edit): set<object> {
    match e
    case AddProperty(p) => {p}
    case AddComponent(c) => {c}
    case _ => {}
  }

  /** With all that is below it. */
  ghost function NewParts(e: Edit): set<object>
    reads NewPart(e)
  {
    match e
    case AddProperty(p) => {p}
    case AddComponent(c) => c.Repr
    case _ => {}
  }

  /** The value of the component after the edit. */
  ghost function Edited(t: Tree, e: Edit): (r: Tree)
    reads NewPart(e)
    ensures r.kind == t.kind
  {
    match e
    case AddProperty(p) => WithProperty(t, p.val)
    case RemoveProperty(k) => if k < |t.props| then WithoutProperty(t, k) else t
    case AddComponent(c) => WithChild(t, c.tree)
    case RemoveComponent(k) => if k < |t.children| then WithoutChild(t, k) else t
    case Within(inner) => EditedWithin(t, inner)
  }

  ghost function EditedWithin(t: Tree, inner: Inner): (r: Tree)
    ensures r.kind == t.kind
  {
    match inner
    case StripErrors => Strip(t)
    case ConvertErrors => Convert(t)
    case _ => t
  }

  /** What an edit takes out. */
  datatype Part = Nothing | TakenProperty(p: Property) | TakenComponent(c: Component)

  ghost function TakenPart(part: Part): set<object> {
    match part
    case Nothing => {}
    case TakenProperty(p) => {p}
    case TakenComponent(c) => {c}
  }

  /** With all that is below it. */
  ghost function TakenParts(part: Part): set<object>
    reads TakenPart(part)
  {
    match part
    case Nothing => {}
    case TakenProperty(p) => {p}
    case TakenComponent(c) => c.Repr
  }

  /** The value of such a part, or that it is somebody's still. */
  datatype Removal = NothingRemoved | PropertyRemoved(p: PropertyValue) | TreeRemoved(t: Tree) | NotFree

  ghost function ValueOf(part: Part): Removal
    reads TakenPart(part), TakenParts(part)
  {
    match part
    case Nothing => NothingRemoved
    case TakenProperty(p) => if p.parent == null then PropertyRemoved(p.val) else NotFree
    case TakenComponent(c) => if c.parent == null && c.Valid() then TreeRemoved(c.tree) else NotFree
  }

  /** What an edit removes from a component with the given value. */
  function Removed(t: Tree, e: Edit): Removal {
    match e
    case RemoveProperty(k) => if k < |t.props| then PropertyRemoved(t.props[k]) else NothingRemoved
    case RemoveComponent(k) => if k < |t.children| then TreeRemoved(t.children[k]) else NothingRemoved
    case _ => NothingRemoved
  }

  /** Those routines leave the TZID of the component as it is. */
  lemma WithinKeepsTzid(t: Tree, inner: Inner)
    ensures TzidOf(EditedWithin(t, inner)) == TzidOf(t)
  {
    ErrorsKeepTzid(t);
  }

  lemma OthersStay(s: seq<Property>, k: nat)
    requires k < |s| && forall i, j :: 0 <= i < j < |s| ==> s[i] != s[j]
    ensures forall i :: 0 <= i < k ==> s[i] != s[k]
    ensures Objects(Without(s, k)) == Objects(s) - {s[k]}
  {
    forall i | 0 <= i < |s| && i != k ensures s[i] in Without(s, k) {
      assert s[i] == Without(s, k)[if i < k then i else i - 1];
    }
    assert s[k] !in Without(s, k);
  }

  /** With new elements, or none, a set shares nothing with what is outside of it. */
  lemma StillApart(changed: set<object>, was: set<object>, all: set<object>, other: set<object>)
    requires (forall o <- changed :: o in was || o !in all) && other <= all - was
    ensures other !! changed
  {
  }

  lemma WithoutOne(s: seq<Component>, k: nat)
    requires k < |s| && DistinctComponents(s)
    ensures forall c <- Without(s, k) :: c in s && c != s[k]
  {
    forall c | c in Without(s, k) ensures c in s && c != s[k] {
      var i :| 0 <= i < |s| - 1 && Without(s, k)[i] == c;
      assert c == s[if i < k then i else i + 1];
    }
  }

  class Component {
    const kind: ComponentKind
    var properties: seq<Property>
    var propertyIterator: int
    var components: seq<Component>
    var componentIterator: int
    var parent: Component?
    var timezones: seq<Zone>
    var timezonesSorted: bool

    ghost var tree: Tree
    ghost var Repr: set<object>

    /** The property list: distinct objects, each linked to this component. */
    ghost predicate PropertiesOk()
      reads this, properties
    {
      && tree.kind == kind
      && NULL <= propertyIterator < |properties|
      && |properties| == |tree.props|
      && (forall i :: 0 <= i < |properties| ==>
            properties[i].val == tree.props[i] && properties[i].parent == this)
      && (forall i, j :: 0 <= i < j < |properties| ==> properties[i] != properties[j])
    }

    /** The component list: distinct components, each linked to this one. */
    ghost predicate ComponentsOk()
      reads this, components
    {
      && NULL <= componentIterator < |components|
      && |components| == |tree.children|
      && (forall i :: 0 <= i < |components| ==>
            components[i].tree == tree.children[i] && components[i].parent == this && components[i] != this
            && components[i].kind == tree.children[i].kind)
      && (forall i, j :: 0 <= i < j < |components| ==> components[i] != components[j])
    }

    /** The array of timezones holds exactly the zones of the children, in order when it says so. */
    ghost predicate IndexOk()
      requires |components| == |tree.children|
      reads this
    {
      && multiset(timezones) == multiset(ZonesOf(components, tree.children))
      && (timezonesSorted ==> Strcmp.Sorted(Map(timezones, ZoneKey)))
      && ZonesFirst(tree.children)
    }

    /** What every routine keeps of the component it is called on. */
    ghost predicate Ok()
      reads this, properties, components
    {
      PropertiesOk() && ComponentsOk() && IndexOk()
    }

    /** The property the cursor is at, or null. */
    ghost function CurrentProperty(): Property?
      requires NULL <= propertyIterator < |properties|
      reads this
    {
      if propertyIterator == NULL then null else properties[propertyIterator]
    }

    /** The child the cursor is at, or null. */
    ghost function CurrentComponent(): Component?
      requires NULL <= componentIterator < |components|
      reads this
    {
      if componentIterator == NULL then null else components[componentIterator]
    }

    ghost function Children(): set<Component>
      reads this
    {
      set c <- components
    }

    constructor (kind: ComponentKind)
      ensures Ok() && Repr == {this} && tree == Node(kind, [], []) && parent == null
      ensures properties == [] && components == [] && propertyIterator == componentIterator == NULL
      ensures this.kind == kind
    {
      this.kind := kind;
      properties, propertyIterator := [], NULL;
      components, componentIterator := [], NULL;
      parent := null;
      timezones, timezonesSorted := [], true;
      tree := Node(kind, [], []);
      Repr := {this};
    }

    // The parts of Ok() that a routine leaves alone, or changes in one known way.

    twostate lemma PropertiesKept()
      requires old(PropertiesOk())
      requires properties == old(properties) && tree.props == old(tree.props) && tree.kind == old(tree.kind)
      requires NULL <= propertyIterator < |properties|
      requires forall p <- properties :: p.val == old(p.val) && p.parent == old(p.parent)
      ensures PropertiesOk()
    {
    }

    twostate lemma ComponentsKept()
      requires old(ComponentsOk())
      requires components == old(components) && tree.children == old(tree.children)
      requires NULL <= componentIterator < |components|
      requires forall c <- components :: c.parent == old(c.parent) && c.tree == old(c.tree)
      ensures ComponentsOk()
    {
    }

    twostate lemma IndexKept()
      requires old(|components| == |tree.children| && IndexOk()) && |components| == |tree.children|
      requires timezones == old(timezones) && timezonesSorted == old(timezonesSorted)
      requires multiset(ZonesOf(components, tree.children)) == multiset(old(ZonesOf(components, tree.children)))
      requires ZonesFirst(tree.children)
      ensures IndexOk()
    {
    }

    // ------------------------------------------------------------------ properties

    method AddProperty(p: Property)
      requires Ok() && p.parent == null
      modifies this`properties, this`tree, this`Repr, p`parent
      ensures Ok() && properties == old(properties) + [p] && Repr == old(Repr) + {p}
      ensures tree == old(tree).(props := old(tree.props) + [p.val]) && p.parent == this
    {
      p.parent := this;
      properties := properties + [p];
      tree := tree.(props := tree.props + [p.val]);
      Repr := Repr + {p};
      ComponentsKept();
      IndexKept();
    }

    twostate lemma PropertyGone(k: nat)
      requires old(PropertiesOk()) && k < |old(properties)|
      requires properties == Without(old(properties), k) && tree.kind == kind
      requires tree.props == Without(old(tree.props), k)
      requires propertyIterator == CursorAfterRemove(old(propertyIterator), k, |old(properties)|)
      requires forall q <- old(properties) :: q != old(properties[k]) ==>
                 q.val == old(q.val) && q.parent == old(q.parent)
      ensures PropertiesOk()
    {
    }

    /** pvl_remove of the element that holds p, with the cursor moved off it. */
    method RemovePropertyAt(k: nat, p: Property)
      requires Ok() && k < |properties| && properties[k] == p
      modifies this`properties, this`propertyIterator, this`tree, this`Repr, p`parent
      ensures Ok() && properties == Without(old(properties), k) && Repr == old(Repr) - {p}
      ensures tree == old(tree).(props := Without(old(tree.props), k)) && p.parent == null
      ensures propertyIterator == CursorAfterRemove(old(propertyIterator), k, |old(properties)|)
    {
      propertyIterator := CursorAfterRemove(propertyIterator, k, |properties|);
      properties := Without(properties, k);
      p.parent := null;
      tree := tree.(props := Without(tree.props, k));
      Repr := Repr - {p};
      PropertyGone(k);
      ComponentsKept();
      IndexKept();
    }

    method GetFirstProperty(kind: PropertyKind) returns (p: Property?)
      requires Ok()
      modifies this`propertyIterator
      ensures Ok() && propertyIterator == ScanProps(tree.props, 0, kind)
      ensures p == CurrentProperty()
    {
      propertyIterator := if |properties| > 0 then 0 else NULL;
      p := SeekProperty(kind);
    }

    method GetNextProperty(kind: PropertyKind) returns (p: Property?)
      requires Ok()
      modifies this`propertyIterator
      ensures Ok()
      ensures propertyIterator == if old(propertyIterator) == NULL then NULL
                                  else ScanProps(tree.props, old(propertyIterator) + 1, kind)
      ensures p == CurrentProperty()
    {
      if propertyIterator == NULL {
        return null;
      }
      propertyIterator := if propertyIterator + 1 < |properties| then propertyIterator + 1 else NULL;
      p := SeekProperty(kind);
    }

    /** The loop of the two routines above: the cursor goes on to the first match. */
    method SeekProperty(kind: PropertyKind) returns (p: Property?)
      requires Ok()
      modifies this`propertyIterator
      ensures Ok()
      ensures propertyIterator == SeekProps(tree.props, old(propertyIterator), kind)
      ensures p == CurrentProperty()
    {
      while propertyIterator != NULL
        invariant NULL <= propertyIterator < |properties|
        invariant SeekProps(tree.props, propertyIterator, kind) == SeekProps(tree.props, old(propertyIterator), kind)
        decreases if propertyIterator == NULL then 0 else |properties| - propertyIterator
      {
        if IsKind(properties[propertyIterator].val, kind) {
          break;
        }
        propertyIterator := if propertyIterator + 1 < |properties| then propertyIterator + 1 else NULL;
      }
      p := if propertyIterator == NULL then null else properties[propertyIterator];
      PropertiesKept();
      ComponentsKept();
      IndexKept();
    }

    /** icalcomponent_remove_property: the loop goes on to the end of the list. */
    method RemoveProperty(p: Property)
      requires Ok() && p.parent != null
      modifies this`properties, this`propertyIterator, this`tree, this`Repr, p`parent
      ensures Ok()
      ensures var k := Position(old(properties), p);
              if k == |old(properties)| then
                properties == old(properties) && tree == old(tree) && propertyIterator == old(propertyIterator)
                && p.parent == old(p.parent) && Repr == old(Repr)
              else
                && properties == Without(old(properties), k) && Repr == old(Repr) - {p}
                && tree == old(tree).(props := Without(old(tree.props), k)) && p.parent == null
                && propertyIterator == CursorAfterRemove(old(propertyIterator), k, |old(properties)|)
    {
      var k := 0;
      while k < |properties|
        invariant 0 <= k <= |properties|
        invariant forall j :: 0 <= j < k ==> properties[j] != p
      {
        if properties[k] == p {
          break;
        }
        k := k + 1;
      }
      PositionIs(properties, p, k);
      if k < |properties| {
        RemovePropertyAt(k, p);
        while k < |properties|
          invariant 0 <= k <= |properties|
        {
          assert properties[k] != p;
          k := k + 1;
        }
      }
    }

    /** Put the cursor at a place saved before, or wherever a caller of the two routines leaves it. */
    method SetPropertyIterator(k: int)
      requires Ok() && NULL <= k < |properties|
      modifies this`propertyIterator
      ensures Ok() && propertyIterator == k
    {
      propertyIterator := k;
      ComponentsKept();
      IndexKept();
    }

    method CountProperties(kind: PropertyKind) returns (count: nat)
      requires Ok()
      ensures count == |Selected(properties, tree.props, 0, kind)|
    {
      count := 0;
      for i := 0 to |properties|
        invariant count + |Selected(properties, tree.props, i, kind)| == |Selected(properties, tree.props, 0, kind)|
      {
        if IsKind(properties[i].val, kind) {
          count := count + 1;
        }
      }
    }

    /** The first/next loop visits the properties of a kind, all of them, once, in list order. */
    method VisitProperties(kind: PropertyKind) returns (visited: seq<Property>)
      requires Ok()
      modifies this`propertyIterator
      ensures Ok() && propertyIterator == NULL
      ensures visited == Selected(properties, tree.props, 0, kind)
    {
      visited := [];
      var p := GetFirstProperty(kind);
      ghost var all := Selected(properties, tree.props, 0, kind);
      VisitEnds(properties, tree.props, visited, kind);
      while p != null
        invariant Ok() && p == CurrentProperty()
        invariant WithRest(visited, properties, tree.props, propertyIterator, kind) == all
        decreases if p == null then 0 else |properties| - propertyIterator
      {
        p, visited := VisitProperty(kind, p, visited);
      }
      VisitEnds(properties, tree.props, visited, kind);
    }

    /** One turn of the loop. */
    method VisitProperty(kind: PropertyKind, p: Property, visited: seq<Property>)
      returns (next: Property?, visited': seq<Property>)
      requires Ok() && p == CurrentProperty()
      modifies this`propertyIterator
      ensures Ok() && next == CurrentProperty()
      ensures next != null ==> propertyIterator > old(propertyIterator)
      ensures WithRest(visited', properties, tree.props, propertyIterator, kind)
           == WithRest(visited, properties, tree.props, old(propertyIterator), kind)
    {
      VisitStep(visited, properties, tree.props, propertyIterator, kind);
      visited' := visited + [p];
      next := GetNextProperty(kind);
    }

    // ------------------------------------------------------------------ components

    /**
      icaltimezone_get_vtimezone_properties, as far as the TZID goes.  It looks up other
      properties too, so the cursors of this component are left anywhere, and those over the
      properties of its observances run to the end.
     */
    method LookUpTzid() returns (tzid: Option<string>)
      requires Ok()
      modifies this`propertyIterator, this`componentIterator, Children()`propertyIterator
      ensures Ok() && tzid == TzidOf(tree)
      ensures forall c <- components ::
                c.propertyIterator
                == if tzid.Some? && (c.kind == Standard || c.kind == Daylight) && c != this then NULL
                   else old(c.propertyIterator)
    {
      var p := GetFirstProperty(Tzid);
      FirstTzid(tree.props);
      tzid := None;
      if p != null && p.val.value.Text? {
        tzid := Some(p.val.value.text);
        SkimObservances();
      }
    }

    /**
      icaltimezone_get_tznames_from_vtimezone, for what it does to the cursors: the loop over
      the children ends with the cursor at the end, and so do those over the properties of
      the observances.
     */
    method SkimObservances()
      requires Ok()
      modifies this`propertyIterator, this`componentIterator, Children()`propertyIterator
      ensures Ok() && componentIterator == NULL
      ensures forall c <- components ::
                c != this ==> c.propertyIterator == if IsObservance(c) then NULL else old(c.propertyIterator)
    {
      SkimChildren();
      propertyIterator, componentIterator := NULL, NULL;
      PropertiesKept();
      ComponentsKept();
      IndexKept();
    }

    method SkimChildren()
      requires ComponentsOk()
      modifies Children()`propertyIterator
      ensures forall c <- components :: c.propertyIterator == if IsObservance(c) then NULL else old(c.propertyIterator)
    {
      for i := 0 to |components|
        invariant forall j :: 0 <= j < |components| ==>
                    components[j].propertyIterator
                    == if j < i && IsObservance(components[j]) then NULL else old(components[j].propertyIterator)
      {
        if IsObservance(components[i]) {
          components[i].propertyIterator := NULL;
        }
      }
    }

    twostate lemma ComponentPushed(child: Component)
      requires old(ComponentsOk()) && child !in old(components) && child != this
      requires components == old(components) + [child] && tree.children == old(tree.children) + [child.tree]
      requires componentIterator == old(componentIterator)
      requires child.parent == this && child.tree == old(child.tree) && child.tree.kind == child.kind
      requires forall c <- old(components) :: c.parent == old(c.parent) && c.tree == old(c.tree)
      ensures ComponentsOk()
    {
    }

    twostate lemma ComponentUnshifted(child: Component)
      requires old(ComponentsOk()) && child !in old(components) && child != this
      requires components == [child] + old(components) && tree.children == [child.tree] + old(tree.children)
      requires componentIterator == if old(componentIterator) == NULL then NULL else old(componentIterator) + 1
      requires child.parent == this && child.tree == old(child.tree) && child.tree.kind == child.kind
      requires forall c <- old(components) :: c.parent == old(c.parent) && c.tree == old(c.tree)
      ensures ComponentsOk()
    {
    }

    /** pvl_push of a child that is not a VTIMEZONE. */
    method PushOther(child: Component)
      requires Ok() && child !in components && child != this
      requires child.kind != VTimezone && child.tree.kind == child.kind
      modifies this`components, this`tree, this`Repr, child`parent
      ensures Ok() && child.parent == this
      ensures components == old(components) + [child] && Repr == old(Repr) + child.Repr
      ensures tree == old(tree).(children := old(tree.children) + [child.tree])
    {
      ghost var children := tree.children;
      AddKeepsZonesFirst(children, child.tree);
      ZonesAppend(components, children, child);
      assert ZonesFirst(children + [child.tree]);
      child.parent := this;
      components := components + [child];
      tree := tree.(children := tree.children + [child.tree]);
      Repr := Repr + child.Repr;
      PropertiesKept();
      ComponentPushed(child);
      IndexKept();
    }

    twostate lemma ZoneIndexed(child: Component)
      requires old(|components| == |tree.children| && IndexOk()) && |components| == |tree.children|
      requires var added := ZoneFor(child, TzidOf(child.tree));
               timezones == old(timezones) + added && !timezonesSorted && ZonesFirst(tree.children)
               && ZonesOf(components, tree.children) == added + old(ZonesOf(components, tree.children))
      ensures IndexOk()
    {
    }

    /** icaltimezone_array_append_from_vtimezone: a zone without a TZID gets no entry. */
    method AppendZone(child: Component, tzid: Option<string>)
      requires PropertiesOk() && ComponentsOk()
      modifies this`timezones, this`timezonesSorted
      ensures PropertiesOk() && ComponentsOk()
      ensures timezones == old(timezones) + ZoneFor(child, tzid) && !timezonesSorted
    {
      if tzid.Some? {
        timezones := timezones + [Zone(tzid.value, child)];
      }
      timezonesSorted := false;
    }

    /** pvl_unshift of a VTIMEZONE, and the entry for it in the array of timezones. */
    method UnshiftZone(child: Component, tzid: Option<string>)
      requires Ok() && child !in components && child != this
      requires child.kind == VTimezone && child.tree.kind == child.kind && tzid == TzidOf(child.tree)
      modifies this`components, this`componentIterator, this`timezones, this`timezonesSorted, this`tree, this`Repr,
               child`parent
      ensures Ok() && child.parent == this
      ensures components == [child] + old(components) && Repr == old(Repr) + child.Repr
      ensures tree == old(tree).(children := [child.tree] + old(tree.children))
      ensures componentIterator == if old(componentIterator) == NULL then NULL else old(componentIterator) + 1
    {
      ZonesPrepend(child, components, tree.children);
      AddKeepsZonesFirst(tree.children, child.tree);
      Unshift(child);
      AppendZone(child, tzid);
      ZoneIndexed(child);
    }

    /** The list, the cursor and the link. */
    method Unshift(child: Component)
      requires PropertiesOk() && ComponentsOk() && child !in components && child != this
      requires child.tree.kind == child.kind
      modifies this`components, this`componentIterator, this`tree, this`Repr, child`parent
      ensures PropertiesOk() && ComponentsOk()
      ensures components == [child] + old(components) && Repr == old(Repr) + child.Repr && child.parent == this
      ensures tree == old(tree).(children := [child.tree] + old(tree.children))
      ensures componentIterator == if old(componentIterator) == NULL then NULL else old(componentIterator) + 1
    {
      child.parent := this;
      components := [child] + components;
      componentIterator := if componentIterator == NULL then NULL else componentIterator + 1;
      tree := tree.(children := [child.tree] + tree.children);
      Repr := Repr + child.Repr;
      PropertiesKept();
      ComponentUnshifted(child);
    }

    method AddComponent(child: Component)
      requires Ok() && child.Ok() && child !in components && child != this
      modifies this`components, this`componentIterator, this`timezones, this`timezonesSorted, this`tree, this`Repr
      modifies child`parent, child`propertyIterator, child`componentIterator, child.Children()`propertyIterator
      ensures Ok() && Repr == old(Repr) + child.Repr && child.parent == this
      ensures tree == old(tree).(children := AddChild(old(tree.children), child.tree))
      ensures components == (if child.kind == VTimezone then [child] + old(components) else old(components) + [child])
      ensures componentIterator
           == if child.kind == VTimezone && old(componentIterator) != NULL then old(componentIterator) + 1
              else old(componentIterator)
      ensures NULL <= child.propertyIterator < |child.properties|
      ensures NULL <= child.componentIterator < |child.components|
      ensures forall c <- child.components ::
                c.propertyIterator == NULL || c.propertyIterator == old(c.propertyIterator)
    {
      if child.kind != VTimezone {
        PushOther(child);
      } else {
        AddZone(child);
      }
    }

    /** The TZID of a component that is no child of this one. */
    method LookUpBeside(child: Component) returns (tzid: Option<string>)
      requires Ok() && child.Ok() && child !in components && child != this
      modifies child`propertyIterator, child`componentIterator, child.Children()`propertyIterator
      ensures Ok() && tzid == TzidOf(child.tree) && child.tree.kind == child.kind
      ensures NULL <= child.propertyIterator < |child.properties|
      ensures NULL <= child.componentIterator < |child.components|
      ensures forall c <- child.components ::
                c.propertyIterator == NULL || c.propertyIterator == old(c.propertyIterator)
    {
      tzid := child.LookUpTzid();
      PropertiesKept();
      ComponentsKept();
      IndexKept();
    }

    /** The part for a VTIMEZONE. */
    method AddZone(child: Component)
      requires Ok() && child.Ok() && child !in components && child != this && child.kind == VTimezone
      modifies this`components, this`componentIterator, this`timezones, this`timezonesSorted, this`tree, this`Repr
      modifies child`parent, child`propertyIterator, child`componentIterator, child.Children()`propertyIterator
      ensures Ok() && Repr == old(Repr) + child.Repr && child.parent == this
      ensures tree == old(tree).(children := [child.tree] + old(tree.children))
      ensures components == [child] + old(components)
      ensures componentIterator == if old(componentIterator) == NULL then NULL else old(componentIterator) + 1
      ensures NULL <= child.propertyIterator < |child.properties|
      ensures NULL <= child.componentIterator < |child.components|
      ensures forall c <- child.components ::
                c.propertyIterator == NULL || c.propertyIterator == old(c.propertyIterator)
    {
      var tzid := LookUpBeside(child);
      UnshiftZone(child, tzid);
    }

    /** The loop over the array of timezones in the routine below. */
    method DropZone(child: Component)
      modifies this`timezones
      ensures timezones == WithoutZone(old(timezones), child)
    {
      var i := 0;
      while i < |timezones|
        invariant 0 <= i <= |timezones| && timezones == old(timezones)
        invariant forall j :: 0 <= j < i ==> timezones[j].component != child
      {
        if timezones[i].component == child {
          timezones := Without(timezones, i);
          return;
        }
        i := i + 1;
      }
    }

    twostate lemma ComponentGone(k: nat)
      requires old(ComponentsOk()) && k < |old(components)|
      requires components == Without(old(components), k) && tree.children == Without(old(tree.children), k)
      requires componentIterator == CursorAfterRemove(old(componentIterator), k, |old(components)|)
      requires forall c <- old(components) :: c != old(components[k]) ==>
                 c.parent == old(c.parent) && c.tree == old(c.tree)
      ensures ComponentsOk()
    {
    }

    /** pvl_remove of the element that holds child, with the cursor moved off it. */
    method RemoveComponentAt(k: nat, child: Component)
      requires PropertiesOk() && ComponentsOk() && k < |components| && components[k] == child
      modifies this`components, this`componentIterator, this`tree, this`Repr, child`parent
      ensures components == Without(old(components), k) && child.parent == null
      ensures tree == old(tree).(children := Without(old(tree.children), k))
      ensures componentIterator == CursorAfterRemove(old(componentIterator), k, |old(components)|)
      ensures Repr == old(Repr) - child.Repr && PropertiesOk() && ComponentsOk()
    {
      componentIterator := CursorAfterRemove(componentIterator, k, |components|);
      components := Without(components, k);
      child.parent := null;
      tree := tree.(children := Without(tree.children, k));
      Repr := Repr - child.Repr;
      PropertiesKept();
      ComponentGone(k);
    }

    /** The search along the list in the routine below. */
    method FindComponent(child: Component) returns (k: nat)
      ensures k <= |components| && (k < |components| ==> components[k] == child)
      ensures forall j :: 0 <= j < k ==> components[j] != child
    {
      k := 0;
      while k < |components|
        invariant 0 <= k <= |components|
        invariant forall j :: 0 <= j < k ==> components[j] != child
      {
        if components[k] == child {
          break;
        }
        k := k + 1;
      }
    }

    /** k is where the child was; a component that is not a child is left alone. */
    method RemoveComponent(child: Component) returns (ghost k: nat)
      requires Ok()
      modifies this`components, this`componentIterator, this`timezones, this`tree, this`Repr, child`parent
      ensures Ok() && timezones == WithoutZone(old(timezones), child)
      ensures k <= |old(components)| && (k < |old(components)| ==> old(components)[k] == child)
      ensures k == |old(components)| ==>
                && child !in old(components)
                && components == old(components) && tree == old(tree) && componentIterator == old(componentIterator)
                && timezones == old(timezones) && Repr == old(Repr) && child.parent == old(child.parent)
      ensures k < |old(components)| ==>
                && components == Without(old(components), k) && child.parent == null
                && tree == old(tree).(children := Without(old(tree.children), k))
                && componentIterator == CursorAfterRemove(old(componentIterator), k, |old(components)|)
                && Repr == old(Repr) - child.Repr
    {
      DropEntry(child);
      k := RemoveFromList(child, old(timezones));
    }

    /** The rest, once the entry has been dropped. */
    method RemoveFromList(child: Component, ghost zones: seq<Zone>) returns (ghost k: nat)
      requires PropertiesOk() && ComponentsOk()
      requires multiset(zones) == multiset(ZonesOf(components, tree.children)) && ZonesFirst(tree.children)
      requires timezones == WithoutZone(zones, child) && (timezonesSorted ==> Strcmp.Sorted(Map(zones, ZoneKey)))
      modifies this`components, this`componentIterator, this`tree, this`Repr, child`parent
      ensures Ok()
      ensures k <= |old(components)| && (k < |old(components)| ==> old(components)[k] == child)
      ensures k == |old(components)| ==>
                && child !in old(components) && timezones == zones
                && components == old(components) && tree == old(tree) && componentIterator == old(componentIterator)
                && Repr == old(Repr) && child.parent == old(child.parent)
      ensures k < |old(components)| ==>
                && components == Without(old(components), k) && child.parent == null
                && tree == old(tree).(children := Without(old(tree.children), k))
                && componentIterator == CursorAfterRemove(old(componentIterator), k, |old(components)|)
                && Repr == old(Repr) - child.Repr
    {
      var at := FindComponent(child);
      k := at;
      if at < |components| {
        RemoveFound(at, child, zones);
      } else {
        NoZone(zones, components, tree.children, child);
      }
    }

    /** The rest, once the child has been found and its entry dropped. */
    method RemoveFound(k: nat, child: Component, ghost zones: seq<Zone>)
      requires PropertiesOk() && ComponentsOk() && k < |components| && components[k] == child
      requires multiset(zones) == multiset(ZonesOf(components, tree.children)) && ZonesFirst(tree.children)
      requires timezones == WithoutZone(zones, child) && (timezonesSorted ==> Strcmp.Sorted(Map(zones, ZoneKey)))
      modifies this`components, this`componentIterator, this`tree, this`Repr, child`parent
      ensures Ok() && components == Without(old(components), k) && child.parent == null
      ensures tree == old(tree).(children := Without(old(tree.children), k))
      ensures componentIterator == CursorAfterRemove(old(componentIterator), k, |old(components)|)
      ensures Repr == old(Repr) - child.Repr
    {
      ZoneDropped(zones, components, tree.children, k);
      RemoveKeepsZonesFirst(tree.children, k);
      ghost var i := ZonePosition(zones, child);
      if timezonesSorted && i < |zones| {
        WithoutSorted(zones, i);
      }
      RemoveComponentAt(k, child);
    }

    /** The entry of a VTIMEZONE is dropped; no other component has one. */
    method DropEntry(child: Component)
      requires Ok()
      modifies this`timezones
      ensures PropertiesOk() && ComponentsOk() && timezones == WithoutZone(old(timezones), child)
    {
      if child.kind == VTimezone {
        DropZone(child);
      } else {
        OtherIsNotIndexed(timezones, components, tree.children, child);
      }
      PropertiesKept();
      ComponentsKept();
    }

    /** The same for a component that is known to be child k. */
    method TakeComponent(ghost k: nat, child: Component)
      requires Ok() && k < |components| && components[k] == child
      modifies this`components, this`componentIterator, this`timezones, this`tree, this`Repr, child`parent
      ensures Ok() && components == Without(old(components), k) && child.parent == null
      ensures tree == old(tree).(children := Without(old(tree.children), k))
      ensures componentIterator == CursorAfterRemove(old(componentIterator), k, |old(components)|)
      ensures Repr == old(Repr) - child.Repr
    {
      ghost var at := RemoveComponent(child);
    }

    method GetFirstComponent(kind: ComponentKind) returns (c: Component?)
      requires Ok()
      modifies this`componentIterator
      ensures Ok() && componentIterator == ScanChildren(tree.children, 0, kind)
      ensures c == CurrentComponent()
    {
      componentIterator := if |components| > 0 then 0 else NULL;
      c := SeekComponent(kind);
    }

    method GetNextComponent(kind: ComponentKind) returns (c: Component?)
      requires Ok()
      modifies this`componentIterator
      ensures Ok()
      ensures componentIterator == if old(componentIterator) == NULL then NULL
                                   else ScanChildren(tree.children, old(componentIterator) + 1, kind)
      ensures c == CurrentComponent()
    {
      if componentIterator == NULL {
        return null;
      }
      componentIterator := if componentIterator + 1 < |components| then componentIterator + 1 else NULL;
      c := SeekComponent(kind);
    }

    /** The loop of the two routines above: the cursor goes on to the first match. */
    method SeekComponent(kind: ComponentKind) returns (c: Component?)
      requires Ok()
      modifies this`componentIterator
      ensures Ok()
      ensures componentIterator == SeekChildren(tree.children, old(componentIterator), kind)
      ensures c == CurrentComponent()
    {
      while componentIterator != NULL
        invariant NULL <= componentIterator < |components|
        invariant SeekChildren(tree.children, componentIterator, kind)
               == SeekChildren(tree.children, old(componentIterator), kind)
        decreases if componentIterator == NULL then 0 else |components| - componentIterator
      {
        if components[componentIterator].kind == kind || kind == Any {
          break;
        }
        componentIterator := if componentIterator + 1 < |components| then componentIterator + 1 else NULL;
      }
      c := if componentIterator == NULL then null else components[componentIterator];
      PropertiesKept();
      ComponentsKept();
      IndexKept();
    }

    method CountComponents(kind: ComponentKind) returns (count: nat)
      requires Ok()
      ensures count == |Matching(components, 0, kind)|
    {
      count := 0;
      for i := 0 to |components|
        invariant count + |Matching(components, i, kind)| == |Matching(components, 0, kind)|
      {
        if components[i].kind == kind || kind == Any {
          count := count + 1;
        }
      }
    }

    /** The first/next loop visits the children of a kind, all of them, once, in list order. */
    method VisitComponents(kind: ComponentKind) returns (visited: seq<Component>)
      requires Ok()
      modifies this`componentIterator
      ensures Ok() && componentIterator == NULL
      ensures visited == Matching(components, 0, kind)
    {
      visited := [];
      var c := GetFirstComponent(kind);
      ghost var all := Matching(components, 0, kind);
      MatchingEnds(visited, components, tree.children, kind);
      while c != null
        invariant Ok() && c == CurrentComponent()
        invariant WithMatching(visited, components, componentIterator, kind) == all
        decreases if c == null then 0 else |components| - componentIterator
      {
        c, visited := VisitComponent(kind, c, visited);
      }
      MatchingEnds(visited, components, tree.children, kind);
    }

    /** One turn of the loop. */
    method VisitComponent(kind: ComponentKind, c: Component, visited: seq<Component>)
      returns (next: Component?, visited': seq<Component>)
      requires Ok() && c == CurrentComponent()
      modifies this`componentIterator
      ensures Ok() && next == CurrentComponent()
      ensures next != null ==> componentIterator > old(componentIterator)
      ensures WithMatching(visited', components, componentIterator, kind)
           == WithMatching(visited, components, old(componentIterator), kind)
    {
      MatchingStep(visited, components, tree.children, componentIterator, kind);
      visited' := visited + [c];
      next := GetNextComponent(kind);
    }

    /** One turn of the loop below: the next match is fetched before the current one is removed. */
    method RemoveFirstMatch(kind: ComponentKind, c: Component, ghost all: seq<Component>) returns (next: Component?)
      requires Ok() && componentIterator != NULL && components[componentIterator] == c
      requires componentIterator == ScanChildren(tree.children, 0, kind) && PartOf(components, all)
      modifies this`components, this`componentIterator, this`timezones, this`tree, this`Repr, c`parent
      ensures Ok() && |components| == |old(components)| - 1 && c.parent == null && PartOf(components, all)
      ensures Others(components, kind) == Others(old(components), kind)
      ensures componentIterator == ScanChildren(tree.children, 0, kind)
      ensures next == CurrentComponent()
    {
      ghost var k := componentIterator;
      OthersWithout(components, kind, k);
      PartWithout(components, k, all);
      next := GetNextComponent(kind);
      ScanWithout(tree.children, kind, k);
      CursorKeepsElement(components, k, componentIterator);
      TakeComponent(k, c);
    }

    /**
      The way to remove all components of a kind: the next one is fetched before the current
      one is removed.  All of them go, and nothing else.
     */
    method RemoveComponents(kind: ComponentKind)
      requires Ok()
      modifies this`components, this`componentIterator, this`timezones, this`tree, this`Repr, components
      ensures Ok() && components == Others(old(components), kind)
    {
      ghost var all := components;
      var c := GetFirstComponent(kind);
      while c != null
        invariant Ok() && Others(components, kind) == Others(all, kind)
        invariant componentIterator == ScanChildren(tree.children, 0, kind)
        invariant c == CurrentComponent()
        invariant PartOf(components, all)
        decreases |components|
      {
        assert c in components;
        c := RemoveFirstMatch(kind, c, all);
      }
      OthersAll(components, kind);
    }

    // ------------------------------------------------------------------- timezones

    /** icalcomponent_get_timezone. */
    method GetTimezone(tzid: string) returns (zone: Option<Zone>)
      requires Ok()
      modifies this`timezones, this`timezonesSorted
      ensures Ok() && (zone.Some? <==> tzid in Tzids(tree.children))
      ensures zone.Some? ==> zone.value.tzid == tzid && HasZone(components, tree.children, zone.value)
    {
      zone := GetEntry(tzid);
      TzidIndexed(timezones, components, tree.children, tzid);
      if zone.Some? {
        EntryIsChild(timezones, components, tree.children, zone.value);
      }
      PropertiesKept();
      ComponentsKept();
    }

    /** The same of any array, in step with the children or not: it is sorted if need be, then searched by halves. */
    method GetEntry(tzid: string) returns (zone: Option<Zone>)
      requires timezonesSorted ==> Strcmp.Sorted(Map(timezones, ZoneKey))
      modifies this`timezones, this`timezonesSorted
      ensures timezonesSorted && Strcmp.Sorted(Map(timezones, ZoneKey))
      ensures multiset(timezones) == multiset(old(timezones))
      ensures zone.Some? <==> HasEntry(timezones, tzid)
      ensures zone.Some? ==> zone.value.tzid == tzid && zone.value in timezones
    {
      if !timezonesSorted {
        SortTimezones();
      }
      var k := SearchTimezones(tzid);
      zone := if k < |timezones| then Some(timezones[k]) else None;
    }

    method SortTimezones()
      modifies this`timezones, this`timezonesSorted
      ensures timezonesSorted && Strcmp.Sorted(Map(timezones, ZoneKey))
      ensures multiset(timezones) == multiset(old(timezones))
    {
      timezones := Strcmp.Sort(timezones, ZoneKey);
      timezonesSorted := true;
    }

    /** The binary search: the position of an entry, or the length when there is none. */
    method SearchTimezones(tzid: string) returns (k: nat)
      requires Strcmp.Sorted(Map(timezones, ZoneKey))
      ensures k <= |timezones| && (k < |timezones| ==> timezones[k].tzid == tzid)
      ensures k == |timezones| ==> forall i :: 0 <= i < |timezones| ==> timezones[i].tzid != tzid
    {
      var lower, upper := 0, |timezones|;
      while lower < upper
        invariant 0 <= lower <= upper <= |timezones|
        invariant forall i :: 0 <= i < lower || upper <= i < |timezones| ==> timezones[i].tzid != tzid
      {
        var middle := (lower + upper) / 2;
        var cmp := Strcmp.Compare(tzid, timezones[middle].tzid);
        Strcmp.CompareZero(tzid, timezones[middle].tzid);
        if cmp == 0 {
          return middle;
        }
        NotBeyond(timezones, middle, tzid);
        if cmp < 0 {
          upper := middle;
        } else {
          lower := middle + 1;
        }
      }
      k := |timezones|;
    }

    // ----------------------------------------------------------------- whole trees

    /** A component that with everything below it is a tree, each node of it Ok(). */
    ghost predicate Valid()
      reads this, Repr
      decreases Repr
      ensures Valid() ==> this in Repr
    {
      && this in Repr
      && (forall p <- properties :: p in Repr)
      && (forall c <- components :: c in Repr)
      && Ok()
      && (forall c <- components :: c.Repr <= Repr && this !in c.Repr && c.Valid())
      && Separate()
    }

    /** The children share nothing with each other or with the properties of this component. */
    ghost predicate Separate()
      reads this, components
    {
      && (forall i, j :: 0 <= i < j < |components| ==> components[i].Repr !! components[j].Repr)
      && (forall c <- components, p <- properties :: p !in c.Repr)
    }

    /** icalcomponent_count_errors. */
    method CountAllErrors() returns (errors: nat)
      requires Valid()
      ensures errors == CountErrors(tree)
      decreases Repr
    {
      errors := 0;
      for i := 0 to |properties|
        invariant errors + |Filter(tree.props[i..], IsError)| == |Filter(tree.props, IsError)|
      {
        assert tree.props[i..][1..] == tree.props[i + 1..];
        if IsError(properties[i].val) {
          errors := errors + 1;
        }
      }
      for i := 0 to |components|
        invariant errors + CountErrorsIn(tree.children[i..]) == CountErrors(tree)
      {
        assert tree.children[i..][1..] == tree.children[i + 1..];
        var n := components[i].CountAllErrors();
        errors := errors + n;
      }
    }

    /** icalcomponent_as_ical_string_r. */
    method AsIcalString(line: PropertyValue -> string) returns (buf: string)
      requires Valid()
      ensures buf == Serialise.AsString(tree, line)
      decreases Repr
    {
      buf := Serialise.Header(kind);
      ghost var all := Serialise.Lines(tree.props, line);
      for i := 0 to |properties|
        invariant buf + Serialise.Lines(tree.props[i..], line) == Serialise.Header(kind) + all
      {
        assert tree.props[i..][1..] == tree.props[i + 1..];
        Assoc(buf, line(tree.props[i]), Serialise.Lines(tree.props[i + 1..], line));
        buf := buf + line(properties[i].val);
      }
      assert buf + "" == buf;
      ghost var children := Serialise.AllAsString(tree.children, line);
      for i := 0 to |components|
        invariant buf + Serialise.AllAsString(tree.children[i..], line) == Serialise.Header(kind) + all + children
      {
        assert tree.children[i..][1..] == tree.children[i + 1..];
        var s := components[i].AsIcalString(line);
        Assoc(buf, s, Serialise.AllAsString(tree.children[i + 1..], line));
        buf := buf + s;
      }
      assert buf + "" == buf;
      Assoc(Serialise.Header(kind) + all, children, Serialise.Footer(kind));
      Assoc(Serialise.Header(kind), all, children + Serialise.Footer(kind));
      buf := buf + Serialise.Footer(kind);
    }

    /** A child added to a tree makes a tree, when the two had nothing in common. */
    twostate lemma AddedValid(child: Component)
      requires old(Valid() && child.Valid()) && old(child.Repr !! Repr)
      requires Ok() && properties == old(properties) && Repr == old(Repr) + old(child.Repr)
      requires components == [child] + old(components) || components == old(components) + [child]
      requires child.Valid() && child.Repr == old(child.Repr)
      requires forall o <- old(Repr) :: o != this ==> unchanged(o)
      ensures Valid()
    {
      ChildrenFramed();
      JoinedSeparate(child);
      assert forall c <- components :: c == child || c in old(components);
    }

    twostate lemma JoinedSeparate(child: Component)
      requires old(Valid()) && old(child.Repr !! Repr) && properties == old(properties)
      requires components == [child] + old(components) || components == old(components) + [child]
      requires child.Repr == old(child.Repr)
      requires forall c <- old(components) :: c.Repr == old(c.Repr) && c.Repr <= old(Repr)
      ensures Separate()
    {
    }

    /** What is below a component stays a tree when only the component itself changes. */
    twostate lemma ChildrenFramed()
      requires old(Valid())
      requires forall o <- old(Repr) :: o != this ==> unchanged(o)
      ensures forall c <- old(components) ::
                c.Valid() && c.Repr == old(c.Repr) && c.tree == old(c.tree) && c.parent == old(c.parent)
                && c.Repr <= old(Repr) && this !in c.Repr
    {
    }

    /** Moving the cursors, or linking it to a parent, leaves a tree as it is. */
    twostate lemma RelinkedValid()
      requires old(Valid())
      requires Repr == old(Repr) && properties == old(properties) && components == old(components)
      requires timezones == old(timezones) && timezonesSorted == old(timezonesSorted) && tree == old(tree)
      requires NULL <= propertyIterator < |properties| && NULL <= componentIterator < |components|
      requires forall o <- old(Repr) :: o != this ==> unchanged(o)
      ensures Valid()
    {
      PropertiesKept();
      ComponentsKept();
      IndexKept();
    }

    /** The same, with the cursors over the properties of its children moved too. */
    twostate lemma SkimmedValid()
      requires old(Valid())
      requires Repr == old(Repr) && properties == old(properties) && components == old(components)
      requires timezones == old(timezones) && timezonesSorted == old(timezonesSorted) && tree == old(tree)
      requires NULL <= propertyIterator < |properties| && NULL <= componentIterator < |components|
      requires forall o <- old(Repr) :: o != this && o !in old(Children()) ==> unchanged(o)
      requires forall c <- components :: c.propertyIterator == NULL || c.propertyIterator == old(c.propertyIterator)
      requires forall c <- components :: OnlySkimmed(c)
      ensures Valid()
    {
      forall c | c in components
        ensures c.Valid() && c.Repr == old(c.Repr) && c.tree == old(c.tree) && c.parent == old(c.parent)
      {
        SkimmedChild(c);
      }
      PropertiesKept();
      ComponentsKept();
      IndexKept();
      ChildrenStayed();
    }

    /** With the same lists and children that are trees of the same objects it is a tree. */
    twostate lemma ChildrenStayed()
      requires old(Valid()) && Ok()
      requires Repr == old(Repr) && properties == old(properties) && components == old(components)
      requires forall c <- components :: c.Valid() && c.Repr == old(c.Repr)
      ensures Valid()
    {
    }

    twostate lemma SkimmedChild(c: Component)
      requires old(Valid()) && c in old(components) && OnlySkimmed(c)
      requires c.propertyIterator == NULL || c.propertyIterator == old(c.propertyIterator)
      requires forall o <- old(Repr) :: o != this && o !in old(Children()) ==> unchanged(o)
      ensures c.Valid() && c.Repr == old(c.Repr) && c.tree == old(c.tree) && c.parent == old(c.parent)
    {
      assert forall d <- old(components) :: d != c ==> d in old(d.Repr) && d !in old(c.Repr);
      c.RelinkedValid();
    }

    /** Nothing but the cursor over the properties has changed. */
    twostate predicate OnlySkimmed(c: Component)
      reads c
    {
      unchanged(c`properties, c`components, c`componentIterator, c`parent, c`timezones, c`timezonesSorted,
                c`tree, c`Repr)
    }

    /** A tree of which nothing has changed. */
    twostate lemma Untouched()
      requires old(Valid())
      requires forall o <- old(Repr) :: unchanged(o)
      ensures Valid() && Repr == old(Repr) && tree == old(tree)
    {
    }

    /** A tree of which only this component has changed, in its lists' favour or not at all. */
    twostate lemma SelfChangedValid()
      requires old(Valid()) && Ok()
      requires Repr == old(Repr) && properties == old(properties) && components == old(components)
      requires forall o <- old(Repr) :: o != this ==> unchanged(o)
      ensures Valid()
    {
    }

    /** A child may have moved its cursors, or changed and changed back. */
    twostate lemma ChildSameValid(i: nat)
      requires old(Valid()) && i < |old(components)|
      requires unchanged(this) && components[i].Valid() && components[i].Repr == old(components[i].Repr)
      requires components[i].tree == old(components[i].tree) && components[i].parent == this
      requires forall o <- old(Repr) - old(components[i].Repr) :: unchanged(o)
      ensures Valid()
    {
      assert tree.children == old(tree.children)[i := components[i].tree];
      ChildChanged(i);
    }

    lemma ChildValid(i: nat)
      requires Valid() && i < |components|
      ensures components[i].Valid() && components[i].tree == tree.children[i] && components[i].parent == this
      ensures components[i].Repr < Repr && this !in components[i].Repr && components[i].kind == tree.children[i].kind
    {
    }

    /** A component without children is a tree. */
    lemma LeafValid()
      requires Ok() && components == [] && this in Repr && forall p <- properties :: p in Repr
      ensures Valid()
    {
    }

    /** icalcomponent_new_clone. */
    method NewClone() returns (copy: Component)
      requires Valid()
      ensures copy.Valid() && fresh(copy.Repr)
      ensures copy.tree == Clone(tree) && copy.parent == null
      decreases Repr, 2
    {
      copy := CloneProperties();
      for i := 0 to |components|
        invariant Valid() && copy.Valid() && fresh(copy.Repr) && copy.parent == null
        invariant copy.tree == ClonedSoFar(tree, i)
      {
        CloneChildInto(i, copy);
      }
      AllCloned(tree);
    }

    /** Clone child i and add the clone to the copy. */
    method CloneChildInto(i: nat, copy: Component)
      requires Valid() && i < |components| && copy.Valid() && copy.Repr !! Repr
      requires copy.tree == ClonedSoFar(tree, i)
      modifies copy
      ensures Valid() && unchanged(this) && copy.Valid() && copy.parent == old(copy.parent)
      ensures forall o <- copy.Repr :: o in old(copy.Repr) || fresh(o)
      ensures copy.tree == ClonedSoFar(tree, i + 1)
      decreases Repr, 1
    {
      CloneSnoc([], tree.children, i);
      var child := CloneChild(i, copy);
      AdoptBeside(copy, child);
    }

    method CloneChild(i: nat, ghost copy: Component) returns (child: Component)
      requires Valid() && i < |components| && copy.Valid()
      ensures Valid() && copy.Valid() && child.Valid() && fresh(child.Repr) && child.tree == Clone(tree.children[i])
      decreases Repr, 0
    {
      ChildValid(i);
      child := components[i].NewClone();
    }

    /** The new component with clones of the properties. */
    method CloneProperties() returns (copy: Component)
      requires Valid()
      ensures copy.Valid() && fresh(copy.Repr) && copy.parent == null && copy.kind == kind
      ensures copy.tree == Node(kind, tree.props, [])
    {
      copy := new Component(kind);
      for i := 0 to |properties|
        invariant copy.Ok() && fresh(copy.Repr) && copy.parent == null && copy.kind == kind
        invariant copy in copy.Repr && forall p <- copy.properties :: p in copy.Repr
        invariant copy.components == [] && copy.tree == Node(kind, tree.props[..i], [])
      {
        CloneProperty(i, copy);
      }
      copy.LeafValid();
    }

    /** Clone property i and add the clone to the copy, which has clones of those before it. */
    method CloneProperty(i: nat, copy: Component)
      requires Ok() && i < |properties| && copy.Ok() && copy.tree == Node(kind, tree.props[..i], [])
      requires forall p <- copy.properties :: p in copy.Repr
      modifies copy`properties, copy`tree, copy`Repr
      ensures copy.Ok() && copy.tree == Node(kind, tree.props[..i + 1], [])
      ensures forall p <- copy.properties :: p in copy.Repr
      ensures old(copy.Repr) <= copy.Repr && fresh(copy.Repr - old(copy.Repr))
    {
      var p := new Property(properties[i].val);
      TakeOne(tree.props, i);
      copy.AddProperty(p);
    }

    /** icalcomponent_add_component on whole trees. */
    method Adopt(child: Component)
      requires Valid() && child.Valid() && child.Repr !! Repr
      modifies this, child, child.Children()`propertyIterator
      ensures Valid() && Repr == old(Repr) + old(child.Repr) && parent == old(parent)
      ensures tree == old(tree).(children := AddChild(old(tree.children), old(child.tree)))
      ensures components == (if child.kind == VTimezone then [child] + old(components) else old(components) + [child])
      ensures properties == old(properties) && child.parent == this
      ensures child in components && child.tree == old(child.tree) && child.Repr == old(child.Repr)
    {
      assert child in child.Repr && forall c <- child.components :: c in child.Repr;
      ghost var children := child.Children();
      assert this !in children && child !in children;
      AddTree(child);
      forall c | c in children ensures child.OnlySkimmed(c) {
      }
      AdoptedValid(child);
    }

    /** Adding a tree to another one leaves this one alone. */
    method AdoptBeside(to: Component, child: Component)
      requires Valid() && to.Valid() && child.Valid()
      requires to.Repr !! Repr && child.Repr !! Repr && child.Repr !! to.Repr
      modifies to, child, child.Children()`propertyIterator
      ensures Valid() && unchanged(this) && to.Valid() && to.Repr == old(to.Repr) + old(child.Repr)
      ensures to.parent == old(to.parent)
      ensures to.components
           == if child.kind == VTimezone then [child] + old(to.components) else old(to.components) + [child]
      ensures to.tree == old(to.tree).(children := AddChild(old(to.tree.children), old(child.tree)))
    {
      to.Adopt(child);
      Untouched();
    }

    /** The same, told by what has changed. */
    method AddTree(child: Component)
      requires Ok() && child.Ok() && child !in components && child != this && this !in child.components
      modifies this`components, this`componentIterator, this`timezones, this`timezonesSorted, this`tree, this`Repr
      modifies child`parent, child`propertyIterator, child`componentIterator, child.Children()`propertyIterator
      ensures Ok() && Repr == old(Repr) + old(child.Repr) && parent == old(parent) && properties == old(properties)
      ensures tree == old(tree).(children := AddChild(old(tree.children), old(child.tree)))
      ensures components == (if child.kind == VTimezone then [child] + old(components) else old(components) + [child])
      ensures child.parent == this && child.SameButLinks()
      ensures NULL <= child.propertyIterator < |child.properties|
      ensures NULL <= child.componentIterator < |child.components|
      ensures forall c <- child.components ::
                c.propertyIterator == NULL || c.propertyIterator == old(c.propertyIterator)
    {
      AddComponent(child);
    }

    /** Adding a tree to one it shares nothing with leaves two trees, one below the other. */
    twostate lemma AdoptedValid(child: Component)
      requires old(Valid() && child.Valid()) && old(child.Repr !! Repr)
      requires Ok() && properties == old(properties) && Repr == old(Repr) + old(child.Repr)
      requires components == [child] + old(components) || components == old(components) + [child]
      requires forall o <- old(Repr) :: o != this ==> unchanged(o)
      requires forall o <- old(child.Repr) :: o != child && o !in old(child.Children()) ==> unchanged(o)
      requires child.SameButLinks()
      requires NULL <= child.propertyIterator < |child.properties|
      requires NULL <= child.componentIterator < |child.components|
      requires forall c <- child.components ::
                 c.propertyIterator == NULL || c.propertyIterator == old(c.propertyIterator)
      requires forall c <- child.components :: child.OnlySkimmed(c)
      ensures Valid()
    {
      child.SkimmedValid();
      AddedValid(child);
    }

    /** The cursors and the parent link apart, nothing has changed. */
    twostate predicate SameButLinks()
      reads this
    {
      unchanged(this`properties, this`components, this`timezones, this`timezonesSorted, this`tree, this`Repr)
    }

    /** icalcomponent_remove_component on whole trees: what is taken out is a tree of its own. */
    method Detach(child: Component, ghost k: nat)
      requires Valid() && k < |components| && components[k] == child
      modifies this, child`parent
      ensures Valid() && Repr == old(Repr) - old(child.Repr) && parent == old(parent) && properties == old(properties)
      ensures child.Valid() && child.Repr == old(child.Repr) && child.tree == old(child.tree) && child.parent == null
      ensures components == Without(old(components), k)
      ensures tree == old(tree).(children := Without(old(tree.children), k))
      ensures componentIterator == CursorAfterRemove(old(componentIterator), k, |old(components)|)
    {
      ChildValid(k);
      TakeComponent(k, child);
      child.RelinkedValid();
      DetachedValid(k);
    }

    twostate lemma DetachedValid(k: nat)
      requires old(Valid()) && k < |old(components)| && Ok() && properties == old(properties)
      requires components == Without(old(components), k) && Repr == old(Repr) - old(components[k].Repr)
      requires forall o <- old(Repr) - old(components[k].Repr) :: o != this ==> unchanged(o)
      ensures Valid()
    {
      SiblingsFramed(k);
      WithoutOne(old(components), k);
      DetachedSeparate(k);
      forall p | p in properties ensures p in Repr {
      }
    }

    twostate lemma DetachedSeparate(k: nat)
      requires old(Separate()) && k < |old(components)| && properties == old(properties)
      requires components == Without(old(components), k)
      requires forall c <- components :: c.Repr == old(c.Repr)
      ensures Separate()
    {
    }

    /** A TZID property gets another value. */
    method SetTzidAt(k: nat, tzid: string)
      requires Valid() && k < |properties| && ScanProps(tree.props, 0, Tzid) == k
      modifies properties[k], this`tree
      ensures Valid() && tree == Serialise.WithTzid(old(tree), tzid)
      ensures forall p <- properties :: p != properties[k] ==> p.val == old(p.val)
      ensures properties[k].val == old(properties[k].val).(value := Text(tzid))
    {
      SetTzidHere(k, tzid);
      OwnChangedValid();
    }

    /** The same, of this component alone. */
    method SetTzidHere(k: nat, tzid: string)
      requires Ok() && k < |properties| && ScanProps(tree.props, 0, Tzid) == k
      modifies properties[k], this`tree
      ensures Ok() && tree == Serialise.WithTzid(old(tree), tzid)
      ensures forall p <- properties :: p != properties[k] ==> unchanged(p)
      ensures properties[k].val == old(properties[k].val).(value := Text(tzid))
    {
      SetFirstTzid(tree.props, tzid);
      properties[k].val := properties[k].val.(value := Text(tzid));
      tree := tree.(props := tree.props[k := tree.props[k].(value := Text(tzid))]);
      ComponentsKept();
      IndexKept();
    }

    // ------------------------------------------------------------------------- edits

    /** icalcomponent_add_property on a whole tree. */
    method AttachProperty(p: Property)
      requires Valid() && p !in Repr && p.parent == null
      modifies this`properties, this`tree, this`Repr, p`parent
      ensures Valid() && Repr == old(Repr) + {p} && properties == old(properties) + [p]
      ensures tree == old(tree).(props := old(tree.props) + [p.val]) && p.parent == this
    {
      AddProperty(p);
      assert Repr == old(Repr) - Objects(old(properties)) + Objects(properties);
      OwnChangedValid();
    }

    /** icalcomponent_remove_property on a whole tree. */
    method TakeProperty(k: nat)
      requires Valid() && k < |properties|
      modifies this`properties, this`propertyIterator, this`tree, this`Repr, properties[k]
      ensures Valid() && Repr == old(Repr) - {old(properties[k])} && properties == Without(old(properties), k)
      ensures tree == WithoutProperty(old(tree), k) && old(properties[k]).parent == null && parent == old(parent)
      ensures old(properties[k]) in old(Repr) && old(properties[k]).val == old(tree.props[k])
    {
      PositionIs(properties, properties[k], k);
      OthersStay(properties, k);
      RemoveProperty(properties[k]);
      assert Repr == old(Repr) - Objects(old(properties)) + Objects(properties);
      OwnChangedValid();
    }

    /** What an edit may put into a tree is no part of it, and what it takes out is there. */
    ghost predicate Allowed(e: Edit, t: Tree)
      reads this, NewPart(e), NewParts(e)
    {
      && NewParts(e) !! Repr
      && match e
         case AddProperty(p) => p.parent == null
         case RemoveProperty(k) => k < |t.props|
         case AddComponent(c) => c.Valid()
         case RemoveComponent(k) => k < |t.children|
         case Within(inner) => inner.ConvertErrors? ==> TypedTree(t)
    }

    /** One of the routines on a component, in a tree of its own. */
    method Apply(e: Edit) returns (part: Part)
      requires Valid() && Allowed(e, tree)
      modifies Repr + NewParts(e)
      ensures Valid() && tree == old(Edited(tree, e)) && parent == old(parent)
      ensures forall o <- Repr :: o in old(Repr) || o in old(NewParts(e)) || fresh(o)
      ensures ValueOf(part) == Removed(old(tree), e) && TakenParts(part) <= old(Repr) - Repr
    {
      match e
      case Within(inner) =>
        ApplyWithin(inner);
        part := Nothing;
      case AddProperty(p) =>
        AttachProperty(p);
        part := Nothing;
      case AddComponent(c) =>
        Adopt(c);
        part := Nothing;
      case RemoveProperty(k) =>
        part := TakenProperty(properties[k]);
        TakeProperty(k);
      case RemoveComponent(k) =>
        part := TakeChild(k);
    }

    method TakeChild(k: nat) returns (part: Part)
      requires Valid() && k < |components|
      modifies Repr
      ensures Valid() && Repr <= old(Repr) && tree == WithoutChild(old(tree), k) && parent == old(parent)
      ensures ValueOf(part) == TreeRemoved(old(tree.children[k])) && TakenParts(part) <= old(Repr) - Repr
    {
      ChildValid(k);
      var child := components[k];
      Detach(child, k);
      part := TakenComponent(child);
    }

    method ApplyWithin(inner: Inner)
      requires Valid() && (inner.ConvertErrors? ==> TypedTree(tree))
      modifies Repr
      ensures Valid() && tree == old(EditedWithin(tree, inner)) && parent == old(parent) && fresh(Repr - old(Repr))
    {
      match inner
      case StripErrors =>
        StripErrors();
      case ConvertErrors =>
        ConvertErrors(Height(tree));
      case _ =>
        LookWithin(inner);
    }

    /** The routines that only look something up, on a whole tree. */
    method LookWithin(inner: Inner)
      requires Valid()
      modifies this`propertyIterator, this`componentIterator, this`timezones, this`timezonesSorted
      ensures Valid()
    {
      Look(inner);
      SelfChangedValid();
    }

    method Look(inner: Inner)
      requires Ok()
      modifies this`propertyIterator, this`componentIterator, this`timezones, this`timezonesSorted
      ensures Ok()
    {
      match inner {
        case FirstProperty(kind) =>
          var p := GetFirstProperty(kind);
        case NextProperty(kind) =>
          var p := GetNextProperty(kind);
        case FirstComponent(kind) =>
          var c := GetFirstComponent(kind);
        case NextComponent(kind) =>
          var c := GetNextComponent(kind);
        case GetTimezone(tzid) =>
          var zone := GetTimezone(tzid);
        case _ =>
      }
    }

    /**
      A routine called on a component anywhere in a tree, at the end of a path of positions.
      It touches that component and what is below it alone; what the proof adds is that the
      whole is a tree again, with the index of each component above still in step, exactly
      if the TZID of a VTIMEZONE that is somebody's child stays the same.
     */
    method EditAt(path: seq<nat>, e: Edit) returns (part: Part)
      requires Valid() && OnPath(tree, path) && Allowed(e, At(tree, path))
      modifies Repr + NewParts(e)
      ensures Valid() <==> path == [] || old(SameZone(Edited(At(tree, path), e), At(tree, path)))
      ensures tree == old(Replaced(tree, path, Edited(At(tree, path), e))) && parent == old(parent)
      ensures path != [] ==> timezones == old(timezones) && timezonesSorted == old(timezonesSorted)
      ensures forall o <- Repr :: o in old(Repr) || o in old(NewParts(e)) || fresh(o)
      ensures ValueOf(part) == Removed(old(At(tree, path)), e) && TakenParts(part) <= old(Repr) - Repr
      decreases |path|, 0
    {
      if path == [] {
        part := Apply(e);
      } else {
        part := EditBelow(path[0], path[1..], e, Edited(At(tree, path), e), NewParts(e));
      }
    }

    /** The step from a component to the one above it; other is what the edit makes. */
    method EditBelow(i: nat, path: seq<nat>, e: Edit, ghost other: Tree, ghost added: set<object>)
      returns (part: Part)
      requires Valid() && i < |components| && OnPath(tree.children[i], path) && Allowed(e, At(tree.children[i], path))
      requires other == Edited(At(tree.children[i], path), e) && added == NewParts(e)
      modifies Repr + added
      ensures Valid() <==> SameZone(other, old(At(tree.children[i], path)))
      ensures timezones == old(timezones) && timezonesSorted == old(timezonesSorted) && parent == old(parent)
      ensures tree == old(tree).(children := old(tree.children)[i := Replaced(old(tree.children[i]), path, other)])
      ensures forall o <- Repr :: o in old(Repr) || o in added || fresh(o)
      ensures ValueOf(part) == Removed(old(At(tree.children[i], path)), e) && TakenParts(part) <= old(Repr) - Repr
      decreases |path|, 2
    {
      ghost var was := components[i].Repr;
      ReplacedTop(tree.children[i], path, other);
      part := EditChild(i, path, e, other, added);
      ResyncBeside(i, components[i], was, part);
      ChildEdited(i);
    }

    /** The edit itself, the rest of this tree being left alone. */
    method EditChild(i: nat, path: seq<nat>, e: Edit, ghost other: Tree, ghost added: set<object>)
      returns (part: Part)
      requires Valid() && i < |components| && OnPath(tree.children[i], path) && Allowed(e, At(tree.children[i], path))
      requires other == Edited(At(tree.children[i], path), e) && added == NewParts(e)
      modifies components[i].Repr + added
      ensures components[i].Valid() <==> path == [] || SameZone(other, old(At(tree.children[i], path)))
      ensures components[i].parent == this
      ensures components[i].tree == Replaced(old(tree.children[i]), path, other)
      ensures forall o <- components[i].Repr :: o in old(components[i].Repr) || o in added || fresh(o)
      ensures ValueOf(part) == Removed(old(At(tree.children[i], path)), e)
      ensures TakenParts(part) <= old(components[i].Repr) - components[i].Repr
      decreases |path|, 1
    {
      ChildValid(i);
      part := components[i].EditAt(path, e);
    }

    /** Child k of a component of the tree is taken out. */
    method TakeOut(from: seq<nat>, k: nat) returns (c: Component)
      requires Valid() && OnPath(tree, from) && k < |At(tree, from).children|
      modifies Repr
      ensures Valid() && tree == ChildLeft(old(tree), from, k) && parent == old(parent)
      ensures forall o <- Repr :: o in old(Repr) || fresh(o)
      ensures ValueOf(TakenComponent(c)) == TreeRemoved(old(At(tree, from).children[k])) && c.Repr <= old(Repr) - Repr
    {
      assert NewParts(Edit.RemoveComponent(k)) == {};
      var part := EditAt(from, Edit.RemoveComponent(k));
      c := part.c;
    }

    /** A tree is added to a component of this one. */
    method PutIn(to: seq<nat>, c: Component, ghost t: Tree)
      requires Valid() && OnPath(tree, to) && ValueOf(TakenComponent(c)) == TreeRemoved(t) && c.Repr !! Repr
      modifies Repr + c.Repr
      ensures Valid() && tree == old(Replaced(tree, to, WithChild(At(tree, to), t))) && parent == old(parent)
      ensures forall o <- Repr :: o in old(Repr) || o in old(c.Repr) || fresh(o)
    {
      var nothing := EditAt(to, Edit.AddComponent(c));
    }

    /** A component is taken out in one place and put in in another. */
    method MoveComponent(from: seq<nat>, k: nat, to: seq<nat>)
      requires Valid() && CanMoveChild(tree, from, k, to)
      modifies Repr
      ensures Valid() && tree == ChildMoved(old(tree), from, k, to) && parent == old(parent)
      ensures forall o <- Repr :: o in old(Repr) || fresh(o)
    {
      ghost var t := At(tree, from).children[k];
      var c := TakeOut(from, k);
      PutIn(to, c, t);
    }

    /** The same of a property; the index is in step in the end unless it is the TZID of an attached VTIMEZONE. */
    method MoveProperty(from: seq<nat>, k: nat, to: seq<nat>)
      requires Valid() && CanMoveProperty(tree, from, k, to)
      requires from == [] || SameZone(WithoutProperty(At(tree, from), k), At(tree, from))
      modifies Repr
      ensures Valid() <==> to == [] || old(CanAddProperty(PropertyLeft(tree, from, k), to, At(tree, from).props[k]))
      ensures tree == PropertyMoved(old(tree), from, k, to) && parent == old(parent)
      ensures forall o <- Repr :: o in old(Repr) || fresh(o)
    {
      var p := TakeOutProperty(from, k);
      PutInProperty(to, p);
    }

    method TakeOutProperty(from: seq<nat>, k: nat) returns (p: Property)
      requires Valid() && OnPath(tree, from) && k < |At(tree, from).props|
      requires from == [] || SameZone(WithoutProperty(At(tree, from), k), At(tree, from))
      modifies Repr
      ensures Valid() && tree == PropertyLeft(old(tree), from, k) && parent == old(parent)
      ensures forall o <- Repr :: o in old(Repr) || fresh(o)
      ensures p.val == old(At(tree, from).props[k]) && p.parent == null && p in old(Repr) - Repr
    {
      assert NewParts(Edit.RemoveProperty(k)) == {};
      var part := EditAt(from, Edit.RemoveProperty(k));
      p := part.p;
    }

    method PutInProperty(to: seq<nat>, p: Property)
      requires Valid() && OnPath(tree, to) && p.parent == null && p !in Repr
      modifies Repr, p
      ensures Valid() <==> to == [] || old(CanAddProperty(tree, to, p.val))
      ensures tree == old(Replaced(tree, to, WithProperty(At(tree, to), p.val))) && parent == old(parent)
      ensures forall o <- Repr :: o in old(Repr) || o == p || fresh(o)
    {
      var nothing := EditAt(to, Edit.AddProperty(p));
    }

    /** After an edit below it a component looks up the TZIDs that its children had before. */
    method LookUpAfterEdit(path: seq<nat>, e: Edit, tzid: string) returns (zone: Option<Zone>)
      requires Valid() && path != [] && OnPath(tree, path) && Allowed(e, At(tree, path))
      modifies Repr + NewParts(e)
      ensures tree == old(Replaced(tree, path, Edited(At(tree, path), e)))
      ensures zone.Some? <==> tzid in old(Tzids(tree.children))
    {
      var part := EditAt(path, e);
      zone := GetEntry(tzid);
      TzidIndexed(timezones, old(components), old(tree.children), tzid);
    }

    // ---------------------------------------------------------------- error stripping

    /** The loop of icalcomponent_strip_errors over the properties. */
    method StripOwn()
      requires Ok()
      modifies this`properties, this`propertyIterator, this`tree, this`Repr, properties
      ensures Ok() && tree == old(tree).(props := Filter(old(tree.props), IsNotError))
      ensures forall p <- properties :: p in old(properties)
    {
      ghost var all := tree.props;
      ghost var m := 0;
      var k := 0;
      assert all[..0] == [] && [] + all == all && all[0..] == all;
      while k < |properties|
        invariant Ok() && m <= |all| && tree == old(tree).(props := StripSoFar(all, m)) && k == StripCursor(all, m)
        invariant forall p <- properties :: p in old(properties)
        decreases |all| - m
      {
        assert properties[k] in properties;
        k := StripTurn(k, all, m);
        m := m + 1;
      }
      FilterDone(all, m);
    }

    /** The same turn, told by how many properties have been looked at. */
    method StripTurn(k: nat, ghost all: seq<PropertyValue>, ghost m: nat) returns (next: nat)
      requires Ok() && k < |properties| && m <= |all| && tree.props == StripSoFar(all, m) && k == StripCursor(all, m)
      modifies this`properties, this`propertyIterator, this`tree, this`Repr, properties[k]
      ensures Ok() && m < |all| && tree == old(tree).(props := StripSoFar(all, m + 1))
      ensures next == StripCursor(all, m + 1)
      ensures forall p <- properties :: p in old(properties)
    {
      NotDone(all, m);
      StripStep(all, m);
      next := StripAt(k);
    }

    /** One turn of the loop: the element after k is saved before k is removed. */
    method StripAt(k: nat) returns (next: nat)
      requires Ok() && k < |properties|
      modifies this`properties, this`propertyIterator, this`tree, this`Repr, properties[k]
      ensures Ok()
      ensures IsError(old(tree.props[k])) ==>
                next == k && tree == old(tree).(props := Without(old(tree.props), k))
      ensures !IsError(old(tree.props[k])) ==>
                next == k + 1 && tree == old(tree)
      ensures forall p <- properties :: p in old(properties)
    {
      var p := properties[k];
      if IsError(p.val) {
        PositionIs(properties, p, k);
        RemoveProperty(p);
        next := k;
      } else {
        next := k + 1;
      }
    }

    /** What is below a component stays a tree when only it and its properties change. */
    twostate lemma BelowFramed()
      requires old(Valid())
      requires forall o <- old(Repr) - Objects(old(properties)) :: o != this ==> unchanged(o)
      ensures forall c <- old(components) :: c.Valid() && c.Repr == old(c.Repr)
    {
      forall c | c in old(components) ensures c.Valid() && c.Repr == old(c.Repr) {
        assert forall o <- old(c.Repr) :: o in old(Repr) - Objects(old(properties)) && o != this;
      }
    }

    /** With other properties, old or new, and the same children it is a tree still. */
    twostate lemma OwnChangedValid()
      requires old(Valid()) && Ok() && components == old(components)
      requires forall p <- properties :: p in old(properties) || p !in old(Repr)
      requires Repr == old(Repr) - Objects(old(properties)) + Objects(properties)
      requires forall o <- old(Repr) - Objects(old(properties)) :: o != this ==> unchanged(o)
      ensures Valid()
    {
      BelowFramed();
      forall c | c in components ensures c.Repr <= Repr && c in Repr {
        assert c in c.Repr;
        assert forall o <- c.Repr :: o in old(Repr) - Objects(old(properties));
      }
    }

    /** The array after a child has changed: in step exactly if the child is no VTIMEZONE or has kept its TZID. */
    twostate lemma ChildChangedIndex(i: nat)
      requires old(Ok()) && i < |old(components)| && components == old(components)
      requires timezones == old(timezones) && timezonesSorted == old(timezonesSorted)
      requires tree == old(tree).(children := old(tree.children)[i := components[i].tree])
      requires components[i].tree.kind == old(tree.children[i].kind)
      ensures IndexOk() <==> SameZone(components[i].tree, old(tree.children[i]))
    {
      ZonesUpdated(components, old(tree.children), i, components[i].tree);
    }

    /** The parts of Ok() after a child has changed in neither kind nor TZID. */
    twostate lemma ChildChangedOk(i: nat)
      requires old(Ok()) && i < |old(components)|
      requires properties == old(properties) && propertyIterator == old(propertyIterator)
      requires components == old(components) && NULL <= componentIterator < |components|
      requires timezones == old(timezones) && timezonesSorted == old(timezonesSorted)
      requires tree == old(tree).(children := old(tree.children)[i := components[i].tree])
      requires components[i].tree.kind == old(tree.children[i].kind)
      requires SameZone(components[i].tree, old(tree.children[i]))
      requires components[i].parent == this
      requires forall p <- properties :: p.val == old(p.val) && p.parent == old(p.parent)
      requires forall c <- components :: c != components[i] ==> c.parent == old(c.parent) && c.tree == old(c.tree)
      ensures Ok()
    {
      PropertiesKept();
      ChildChangedIndex(i);
    }

    /** A child that has become another tree, of its own objects and others, makes a tree again. */
    twostate lemma ChildChanged(i: nat)
      requires old(Valid()) && i < |old(components)|
      requires properties == old(properties) && propertyIterator == old(propertyIterator)
      requires components == old(components) && NULL <= componentIterator < |components|
      requires timezones == old(timezones) && timezonesSorted == old(timezonesSorted)
      requires tree == old(tree).(children := old(tree.children)[i := components[i].tree])
      requires components[i].tree.kind == old(tree.children[i].kind) && components[i].parent == this
      requires SameZone(components[i].tree, old(tree.children[i]))
      requires components[i].Valid()
      requires forall o <- components[i].Repr :: o in old(components[i].Repr) || o !in old(Repr)
      requires Repr == old(Repr) - old(components[i].Repr) + components[i].Repr
      requires forall o <- old(Repr) - old(components[i].Repr) :: o != this ==> unchanged(o)
      ensures Valid()
    {
      SiblingsFramed(i);
      PropertiesFramed(i);
      ChildChangedOk(i);
      ChildFits(i);
    }

    /** The same exactly: with the child's own tree and the array in step. */
    twostate lemma ChildEdited(i: nat)
      requires old(Valid()) && i < |old(components)|
      requires properties == old(properties) && propertyIterator == old(propertyIterator)
      requires components == old(components) && componentIterator == old(componentIterator)
      requires timezones == old(timezones) && timezonesSorted == old(timezonesSorted)
      requires tree == old(tree).(children := old(tree.children)[i := components[i].tree])
      requires components[i].tree.kind == old(tree.children[i].kind) && components[i].parent == this
      requires forall o <- components[i].Repr :: o in old(components[i].Repr) || o !in old(Repr)
      requires Repr == old(Repr) - old(components[i].Repr) + components[i].Repr
      requires forall o <- old(Repr) - old(components[i].Repr) :: o != this ==> unchanged(o)
      ensures Valid() <==> components[i].Valid() && SameZone(components[i].tree, old(tree.children[i]))
    {
      ChildChangedIndex(i);
      if components[i].Valid() && SameZone(components[i].tree, old(tree.children[i])) {
        ChildChanged(i);
      }
    }

    /** The properties are not part of child i. */
    twostate lemma PropertiesFramed(i: nat)
      requires old(Valid()) && i < |old(components)|
      requires forall o <- old(Repr) - old(components[i].Repr) :: o != this ==> unchanged(o)
      ensures forall p <- old(properties) :: p.val == old(p.val) && p.parent == old(p.parent)
    {
      forall p | p in old(properties) ensures p.val == old(p.val) && p.parent == old(p.parent) {
        assert p in old(Repr) - old(components[i].Repr);
      }
    }

    /** The child and the others make up a tree. */
    twostate lemma ChildFits(i: nat)
      requires old(Valid()) && i < |old(components)| && Ok()
      requires properties == old(properties) && components == old(components)
      requires components[i].Valid()
      requires forall o <- components[i].Repr :: o in old(components[i].Repr) || o !in old(Repr)
      requires Repr == old(Repr) - old(components[i].Repr) + components[i].Repr
      requires forall c <- components :: c != components[i] ==> c.Valid() && c.Repr == old(c.Repr)
      requires forall c <- components :: c != components[i] ==>
                 c in c.Repr && c.Repr <= old(Repr) - old(components[i].Repr)
      ensures Valid()
    {
      ChildSeparate(i);
      forall o | o in old(Repr) && o !in old(components[i].Repr) ensures o in Repr && o !in components[i].Repr {
      }
    }

    /** The child and its siblings share nothing. */
    twostate lemma ChildSeparate(i: nat)
      requires old(Separate()) && i < |old(components)| && forall p <- old(properties) :: p in old(Repr)
      requires properties == old(properties) && components == old(components)
      requires forall o <- components[i].Repr :: o in old(components[i].Repr) || o !in old(Repr)
      requires forall c <- components :: c != components[i] ==>
                 c.Repr == old(c.Repr) && c.Repr <= old(Repr) - old(components[i].Repr)
      requires forall a, b :: 0 <= a < b < |components| ==> components[a] != components[b]
      ensures Separate()
    {
      forall c | c in components && c != components[i] ensures c.Repr !! components[i].Repr {
        StillApart(components[i].Repr, old(components[i].Repr), old(Repr), c.Repr);
      }
    }

    /** The children other than child i are as they were, and share nothing with it. */
    twostate lemma SiblingsFramed(i: nat)
      requires old(Valid()) && i < |old(components)|
      requires forall o <- old(Repr) - old(components[i].Repr) :: o != this ==> unchanged(o)
      ensures forall c <- old(components) :: c != old(components[i]) ==>
                c.Valid() && c.Repr == old(c.Repr) && c.tree == old(c.tree) && c.parent == old(c.parent)
                && c in c.Repr && c.Repr <= old(Repr) - old(components[i].Repr) && this !in c.Repr
    {
      forall c | c in old(components) && c != old(components[i])
        ensures c.Valid() && c.Repr == old(c.Repr) && c.tree == old(c.tree) && c.parent == old(c.parent)
        ensures c in c.Repr && c.Repr <= old(Repr) - old(components[i].Repr) && this !in c.Repr
      {
        assert forall o <- old(c.Repr) :: o in old(Repr) - old(components[i].Repr) && o != this;
      }
    }

    /** The first loop of strip_errors, on a whole tree. */
    method StripOwnOfTree()
      requires Valid()
      modifies this`properties, this`propertyIterator, this`tree, this`Repr, properties
      ensures Valid() && tree == old(tree).(props := Filter(old(tree.props), IsNotError))
      ensures Repr <= old(Repr) && components == old(components) && parent == old(parent)
    {
      StripOwnGathered();
      OwnChangedValid();
    }

    /** The same, told by what has changed. */
    method StripOwnGathered()
      requires Ok()
      modifies this`properties, this`propertyIterator, this`tree, this`Repr, properties
      ensures Ok() && tree == old(tree).(props := Filter(old(tree.props), IsNotError))
      ensures components == old(components) && parent == old(parent)
      ensures Repr == old(Repr) - Objects(old(properties)) + Objects(properties)
      ensures forall p <- properties :: p in old(properties)
      ensures forall o <- old(Repr) - Objects(old(properties)) :: o != this ==> unchanged(o)
    {
      StripOwn();
      Gather(old(Repr) - Objects(old(properties)));
    }

    /** The objects of a tree are those that are left and the properties. */
    ghost method Gather(left: set<object>)
      requires Ok()
      modifies this`Repr
      ensures Ok() && Repr == left + Objects(properties)
    {
      Repr := left + Objects(properties);
    }

    /** icalcomponent_strip_errors. */
    method StripErrors()
      requires Valid()
      modifies Repr
      ensures Valid() && tree == Strip(old(tree)) && Repr <= old(Repr)
      ensures components == old(components) && parent == old(parent)
      decreases Repr, 2
    {
      StripOwnOfTree();
      StripChildren();
    }

    /** The second loop of strip_errors. */
    method StripChildren()
      requires Valid()
      modifies Repr
      ensures Valid() && tree == old(tree).(children := StripAll(old(tree.children))) && Repr <= old(Repr)
      ensures components == old(components) && parent == old(parent)
      decreases Repr, 1
    {
      ghost var children := tree.children;
      UpdateEnds(StripAll(children), children);
      for i := 0 to |components|
        invariant Valid() && Repr <= old(Repr) && components == old(components) && parent == old(parent)
        invariant tree == old(tree).(children := Blend(StripAll(children), children, i))
      {
        UpdateMiddle(StripAll(children), children, i);
        StripChild(i);
      }
    }

    method StripChild(i: nat)
      requires Valid() && i < |components|
      modifies Repr
      ensures Valid() && Repr <= old(Repr)
      ensures components == old(components) && parent == old(parent)
      ensures tree == old(tree).(children := old(tree.children)[i := Strip(old(tree.children[i]))])
      decreases Repr, 0
    {
      ChildValid(i);
      ErrorsKeepTzid(tree.children[i]);
      var child := components[i];
      ghost var was := child.Repr;
      child.StripErrors();
      assert child.Valid() && this !in child.Repr && components[i] == child;
      Resync(i, child, was);
      ChildChanged(i);
    }

    /** Take over the new value and the new objects of child i. */
    ghost method Resync(i: nat, child: Component, was: set<object>)
      requires i < |tree.children| && child != this
      modifies this`tree, this`Repr
      ensures tree == old(tree).(children := old(tree.children)[i := child.tree])
      ensures Repr == old(Repr) - was + child.Repr
    {
      var value, objects := child.tree, child.Repr;
      tree := tree.(children := tree.children[i := value]);
      Repr := Repr - was + objects;
    }

    ghost method ResyncBeside(i: nat, child: Component, was: set<object>, part: Part)
      requires i < |tree.children| && child != this && this !in TakenPart(part) && this !in TakenParts(part)
      modifies this`tree, this`Repr
      ensures tree == old(tree).(children := old(tree.children)[i := child.tree])
      ensures Repr == old(Repr) - was + child.Repr
      ensures ValueOf(part) == old(ValueOf(part)) && TakenParts(part) == old(TakenParts(part))
    {
      Resync(i, child, was);
    }

    // --------------------------------------------------------------- error conversion

    /** The body of the loop of convert_errors over the properties, the cursor having moved on. */
    method ConvertIfError(ghost k: nat, p: Property)
      requires Ok() && k < |properties| && properties[k] == p && propertyIterator != k
      requires IsError(p.val) ==> FirstErrorType(p.val.params).Some? && p.val.value.Text?
      modifies this`properties, this`propertyIterator, this`tree, this`Repr, p`parent
      ensures Ok()
      ensures Convertible(p.val) ==>
                && tree == old(tree).(props := Without(old(tree.props) + [Converted(p.val)], k))
                && propertyIterator
                   == (if old(propertyIterator) > k then old(propertyIterator) - 1 else old(propertyIterator))
      ensures !Convertible(p.val) ==>
                tree == old(tree) && properties == old(properties) && propertyIterator == old(propertyIterator)
      ensures forall q <- properties :: q in old(properties) || fresh(q)
      ensures propertyIterator == NULL <==> old(propertyIterator) == NULL
      ensures propertyIterator != NULL ==> properties[propertyIterator] == old(properties[propertyIterator])
    {
      if IsError(p.val) {
        var status := StatusFor(FirstErrorType(p.val.params).value);
        if status.Some? {
          ReportStatus(k, p, PropertyValue(RequestStatus, [], Status(status.value, p.val.value.text)));
        }
      }
    }

    /** A new property with the request status comes for p. */
    method ReportStatus(ghost k: nat, p: Property, val: PropertyValue)
      requires Ok() && k < |properties| && properties[k] == p && propertyIterator != k
      modifies this`properties, this`propertyIterator, this`tree, this`Repr, p`parent
      ensures Ok() && tree == old(tree).(props := Without(old(tree.props) + [val], k))
      ensures propertyIterator
           == (if old(propertyIterator) > k then old(propertyIterator) - 1 else old(propertyIterator))
      ensures forall q <- properties :: q in old(properties) || fresh(q)
      ensures propertyIterator != NULL ==> properties[propertyIterator] == old(properties[propertyIterator])
    {
      var status := new Property(val);
      NextTakesPlace(properties, status, k);
      ReplaceProperty(k, p, status);
    }

    /** The new property goes to the end of the list, then the old one goes. */
    method ReplaceProperty(ghost k: nat, p: Property, status: Property)
      requires Ok() && k < |properties| && properties[k] == p && status.parent == null && status != p
      modifies this`properties, this`propertyIterator, this`tree, this`Repr, p`parent, status`parent
      ensures Ok() && properties == Without(old(properties) + [status], k)
      ensures tree == old(tree).(props := Without(old(tree.props) + [status.val], k))
      ensures Repr == old(Repr) + {status} - {p}
      ensures propertyIterator == CursorAfterRemove(old(propertyIterator), k, |old(properties)| + 1)
    {
      AddProperty(status);
      PositionIs(properties, p, k);
      RemoveProperty(p);
    }

    /** One turn of the loop: the next property is fetched, then p is looked at. */
    method ConvertTurn(p: Property, ghost all: seq<PropertyValue>, ghost m: nat) returns (next: Property?)
      requires Ok() && propertyIterator != NULL && properties[propertyIterator] == p && m <= |all|
      requires Typed(all) && tree.props == ConvertSoFar(all, m) && CursorAt(all, m, propertyIterator)
      modifies this`properties, this`propertyIterator, this`tree, this`Repr, p`parent
      ensures Ok() && tree == old(tree).(props := ConvertSoFar(all, NextTurn(all, m)))
      ensures CursorAt(all, NextTurn(all, m), propertyIterator)
      ensures next == CurrentProperty()
      ensures forall q <- properties :: q in old(properties) || fresh(q)
      ensures m == |all| ==> propertyIterator == NULL || propertyIterator > old(propertyIterator)
    {
      ConvertStep(all, m, propertyIterator);
      next := ConvertCurrent(p);
    }

    /** The turn, told by the list before it: the cursor moves on, then p at its old place is looked at. */
    method ConvertCurrent(p: Property) returns (next: Property?)
      requires Ok() && p == CurrentProperty()
      requires IsError(p.val) ==> FirstErrorType(p.val.params).Some? && p.val.value.Text?
      modifies this`properties, this`propertyIterator, this`tree, this`Repr, p`parent
      ensures Ok() && next == CurrentProperty()
      ensures var k, props := old(propertyIterator), old(tree.props);
              if Convertible(p.val) then
                && tree == old(tree).(props := Without(props + [Converted(p.val)], k))
                && propertyIterator == (if k + 1 < |props| then k else NULL)
              else
                tree == old(tree) && propertyIterator == (if k + 1 < |props| then k + 1 else NULL)
      ensures forall q <- properties :: q in old(properties) || fresh(q)
    {
      ghost var k := propertyIterator;
      ScanAny(tree.props, k + 1);
      next := GetNextProperty(AnyProperty);
      ConvertIfError(k, p);
    }

    /** The loop of icalcomponent_convert_errors over the properties. */
    method ConvertOwn()
      requires Ok() && Typed(tree.props)
      modifies this`properties, this`propertyIterator, this`tree, this`Repr, properties
      ensures Ok() && tree == old(tree).(props := ConvertProps(old(tree.props)))
      ensures forall q <- properties :: q in old(properties) || fresh(q)
    {
      ghost var all := tree.props;
      ghost var m := 0;
      ConvertStart(all);
      ScanAny(tree.props, 0);
      var p := GetFirstProperty(AnyProperty);
      while p != null
        invariant Ok() && m <= |all| && tree == old(tree).(props := ConvertSoFar(all, m))
        invariant p == CurrentProperty()
        invariant CursorAt(all, m, propertyIterator) || (all == [] && propertyIterator == NULL)
        invariant forall q <- properties :: q in old(properties) || fresh(q)
        decreases |all| - m, if propertyIterator == NULL then 0 else |properties| - propertyIterator
      {
        assert p in properties;
        p := ConvertTurn(p, all, m);
        m := NextTurn(all, m);
      }
      ConvertDone(all, m);
    }

    /** The first loop of convert_errors, on a whole tree. */
    method ConvertOwnOfTree()
      requires Valid() && Typed(tree.props)
      modifies this`properties, this`propertyIterator, this`tree, this`Repr, properties
      ensures Valid() && tree == old(tree).(props := ConvertProps(old(tree.props)))
      ensures components == old(components) && parent == old(parent)
      ensures forall o <- Repr :: o in old(Repr) || fresh(o)
    {
      ConvertOwnGathered();
      OwnChangedValid();
    }

    /** The same, told by what has changed. */
    method ConvertOwnGathered()
      requires Ok() && Typed(tree.props)
      modifies this`properties, this`propertyIterator, this`tree, this`Repr, properties
      ensures Ok() && tree == old(tree).(props := ConvertProps(old(tree.props)))
      ensures components == old(components) && parent == old(parent)
      ensures Repr == old(Repr) - Objects(old(properties)) + Objects(properties)
      ensures forall p <- properties :: p in old(properties) || fresh(p)
      ensures forall o <- old(Repr) - Objects(old(properties)) :: o != this ==> unchanged(o)
    {
      ConvertOwn();
      Gather(old(Repr) - Objects(old(properties)));
    }

    /** icalcomponent_convert_errors; depth bounds the height of the tree. */
    method ConvertErrors(ghost depth: nat)
      requires Valid() && TypedTree(tree) && Height(tree) <= depth
      modifies Repr
      ensures Valid() && tree == Convert(old(tree))
      ensures forall o <- Repr :: o in old(Repr) || fresh(o)
      ensures components == old(components) && parent == old(parent)
      decreases depth, 5
    {
      ConvertOwnOfTree();
      ConvertChildren(depth);
    }

    /** The second loop of convert_errors, on the component's own cursor. */
    method ConvertChildren(ghost depth: nat)
      requires Valid() && TypedAll(tree.children) && HeightOfAll(tree.children) < depth
      modifies Repr
      ensures Valid() && tree == old(tree).(children := ConvertAll(old(tree.children)))
      ensures forall o <- Repr :: o in old(Repr) || fresh(o)
      ensures components == old(components) && parent == old(parent)
      decreases depth, 4
    {
      UpdateEnds(ConvertAll(tree.children), tree.children);
      ReadyToConvert(tree.children, depth);
      VisitToConvert(tree.children, ConvertAll(tree.children), depth);
    }

    /** The loop itself; done is what the children are to become. */
    method VisitToConvert(ghost children: seq<Tree>, ghost done: seq<Tree>, ghost depth: nat)
      requires Valid() && ToConvert(children, done, depth) && tree.children == Blend(done, children, 0)
      modifies Repr
      ensures Valid() && components == old(components) && parent == old(parent)
      ensures forall o <- Repr :: o in old(Repr) || fresh(o)
      ensures tree == old(tree).(children := Blend(done, children, |children|))
      decreases depth, 3
    {
      ghost var i := 0;
      var c := FirstChild();
      while c != null
        invariant Valid() && components == old(components) && parent == old(parent)
        invariant forall o <- Repr :: o in old(Repr) || fresh(o)
        invariant i <= |children| && componentIterator == (if i < |children| then i else NULL)
        invariant c == CurrentComponent()
        invariant tree == old(tree).(children := Blend(done, children, i))
        decreases |children| - i
      {
        c := ConvertChildAt(children, done, i, depth);
        i := i + 1;
      }
    }

    /** One turn of the loop: child i is converted, then the cursor moves on. */
    method ConvertChildAt(ghost children: seq<Tree>, ghost done: seq<Tree>, ghost i: nat, ghost depth: nat)
      returns (c: Component?)
      requires Valid() && ToConvert(children, done, depth)
      requires componentIterator == i < |components| == |children| && tree.children == Blend(done, children, i)
      modifies Repr
      ensures Valid() && components == old(components) && parent == old(parent)
      ensures forall o <- Repr :: o in old(Repr) || fresh(o)
      ensures componentIterator == (if i + 1 < |children| then i + 1 else NULL)
      ensures c == CurrentComponent()
      ensures tree == old(tree).(children := Blend(done, children, i + 1))
      decreases depth, 2
    {
      UpdateMiddle(done, children, i);
      ConvertChild(i, depth);
      assert tree.children == Blend(done, children, i + 1);
      c := NextChild();
    }

    method ConvertChild(ghost i: nat, ghost depth: nat)
      requires Valid() && componentIterator == i < |components|
      requires TypedTree(tree.children[i]) && Height(tree.children[i]) < depth
      modifies Repr
      ensures Valid() && componentIterator == old(componentIterator)
      ensures forall o <- Repr :: o in old(Repr) || fresh(o)
      ensures components == old(components) && parent == old(parent)
      ensures tree == old(tree).(children := old(tree.children)[i := Convert(old(tree.children[i]))])
      decreases depth, 1
    {
      ghost var was := components[i].Repr;
      ErrorsKeepTzid(tree.children[i]);
      ConvertBelow(i, depth);
      Resync(i, components[i], was);
      ChildChanged(i);
    }

    /** The call itself, the rest of this tree being left alone. */
    method ConvertBelow(ghost i: nat, ghost depth: nat)
      requires Valid() && componentIterator == i < |components|
      requires TypedTree(tree.children[i]) && Height(tree.children[i]) < depth
      modifies components[i].Repr
      ensures components[i].Valid() && components[i].parent == this
      ensures components[i].tree == Convert(old(tree.children[i]))
      ensures forall o <- components[i].Repr :: o in old(components[i].Repr) || fresh(o)
      decreases depth, 0
    {
      ChildValid(i);
      components[componentIterator].ConvertErrors(depth - 1);
    }

    /** get_first_component of any kind, on a whole tree. */
    method FirstChild() returns (c: Component?)
      requires Valid()
      modifies this`componentIterator
      ensures Valid() && tree == old(tree) && Repr == old(Repr) && components == old(components)
      ensures parent == old(parent)
      ensures componentIterator == if |components| > 0 then 0 else NULL
      ensures c == CurrentComponent()
    {
      ScanAnyChild(tree.children, 0);
      c := GetFirstComponent(Any);
      RelinkedValid();
    }

    /** get_next_component of any kind, on a whole tree. */
    method NextChild() returns (c: Component?)
      requires Valid() && componentIterator != NULL
      modifies this`componentIterator
      ensures Valid() && tree == old(tree) && Repr == old(Repr) && components == old(components)
      ensures parent == old(parent)
      ensures componentIterator
           == if old(componentIterator) + 1 < |components| then old(componentIterator) + 1 else NULL
      ensures c == CurrentComponent()
    {
      ScanAnyChild(tree.children, componentIterator + 1);
      c := GetNextComponent(Any);
      RelinkedValid();
    }
  }

  lemma ScanAnyChild(children: seq<Tree>, i: nat)
    requires i <= |children|
    ensures ScanChildren(children, i, Any) == if i < |children| then i else NULL
  {
  }

  /** How deep a tree is. */
  ghost function Height(t: Tree): nat
    decreases t, 1
  {
    1 + HeightOfAll(t.children)
  }

  ghost function HeightOfAll(ts: seq<Tree>): nat
    decreases ts, 0
  {
    if ts == [] then 0
    else
      var h, rest := Height(ts[0]), HeightOfAll(ts[1..]);
      if h > rest then h else rest
  }

  lemma {:induction false} HeightOfChild(ts: seq<Tree>, i: nat)
    requires i < |ts|
    ensures Height(ts[i]) <= HeightOfAll(ts)
  {
    if i > 0 {
      HeightOfChild(ts[1..], i - 1);
    }
  }

  /** The children can be converted, to what is given. */
  ghost predicate ToConvert(children: seq<Tree>, done: seq<Tree>, depth: nat) {
    |done| == |children| && forall i :: 0 <= i < |children| ==> Becomes(children[i], done[i], depth)
  }

  ghost predicate Becomes(t: Tree, converted: Tree, depth: nat) {
    TypedTree(t) && Height(t) < depth && converted == Convert(t)
  }

  lemma ReadyToConvert(children: seq<Tree>, depth: nat)
    requires TypedAll(children) && HeightOfAll(children) < depth
    ensures ToConvert(children, ConvertAll(children), depth)
  {
    forall i | 0 <= i < |children| ensures Becomes(children[i], ConvertAll(children)[i], depth) {
      HeightOfChild(children, i);
      assert children[i] in children;
    }
  }

  predicate TypedAll(ts: seq<Tree>) {
    forall c <- ts :: TypedTree(c)
  }

  lemma ConvertStart(all: seq<PropertyValue>)
    ensures ConvertSoFar(all, 0) == all && Filter(all[..0], Kept) == []
  {
    assert all[..0] == [] && all[0..] == all;
    assert [] + all + [] == all;
  }

  lemma ConvertDone(all: seq<PropertyValue>, m: nat)
    requires m <= |all| && CursorAt(all, m, NULL)
    ensures ConvertSoFar(all, m) == ConvertProps(all)
  {
    assert m == |all| && all[..m] == all && all[m..] == [];
    NothingAfter(Filter(all, Kept));
  }

  /** The list once m of its properties have been looked at. */
  function ConvertSoFar(all: seq<PropertyValue>, m: nat): seq<PropertyValue>
    requires m <= |all|
  {
    Filter(all[..m], Kept) + all[m..] + Map(Filter(all[..m], Convertible), Converted)
  }

  /** The cursor is at the next property of the original list, or among the request statuses. */
  predicate CursorAt(all: seq<PropertyValue>, m: nat, cursor: int)
    requires m <= |all|
  {
    if m < |all| then cursor == |Filter(all[..m], Kept)|
    else cursor == NULL || |Filter(all[..m], Kept)| <= cursor < |ConvertSoFar(all, m)|
  }

  function NextTurn(all: seq<PropertyValue>, m: nat): (r: nat)
    requires m <= |all|
    ensures r <= |all|
  {
    if m < |all| then m + 1 else m
  }

  lemma NextTakesPlace(s: seq<Property>, x: Property, k: nat)
    requires k < |s|
    ensures k + 1 < |s| ==> Without(s + [x], k)[k] == s[k + 1]
    ensures forall q <- Without(s + [x], k) :: q in s || q == x
  {
  }

  lemma ScanAny(props: seq<PropertyValue>, i: nat)
    requires i <= |props|
    ensures ScanProps(props, i, AnyProperty) == if i < |props| then i else NULL
  {
  }

  lemma MapSnoc(s: seq<PropertyValue>, x: PropertyValue)
    ensures Map(s + [x], Converted) == Map(s, Converted) + [Converted(x)]
  {
  }

  /** One more property looked at. */
  lemma ConvertStep(all: seq<PropertyValue>, m: nat, k: nat)
    requires m <= |all| && CursorAt(all, m, k) && k < |ConvertSoFar(all, m)| && Typed(all)
    ensures var p, now := ConvertSoFar(all, m)[k], ConvertSoFar(all, m);
            && (IsError(p) ==> FirstErrorType(p.params).Some? && p.value.Text?)
            && (Convertible(p) ==>
                  m < |all| && ConvertSoFar(all, NextTurn(all, m)) == Without(now + [Converted(p)], k)
                  && CursorAt(all, NextTurn(all, m), if k + 1 < |now| then k else NULL))
            && (!Convertible(p) ==>
                  ConvertSoFar(all, NextTurn(all, m)) == now
                  && CursorAt(all, NextTurn(all, m), if k + 1 < |now| then k + 1 else NULL))
  {
    var kept, gone := Filter(all[..m], Kept), Filter(all[..m], Convertible);
    if m < |all| {
      FilterSnoc(all, m, Kept);
      FilterSnoc(all, m, Convertible);
      DropOne(all, m);
      MapSnoc(gone, all[m]);
      NothingAfter(kept);
      NothingAfter(gone);
      WithoutInner(kept, all[m], all[m + 1..], Map(gone, Converted), Converted(all[m]));
      assert all[m] in all;
    } else {
      MadeFromErrors(all[..m], kept, all[m..], k);
    }
  }

  /** What stands after the kept properties is no error. */
  lemma MadeFromErrors(some: seq<PropertyValue>, kept: seq<PropertyValue>, rest: seq<PropertyValue>, k: nat)
    requires rest == [] && |kept| <= k < |kept + rest + Map(Filter(some, Convertible), Converted)|
    ensures !IsError((kept + rest + Map(Filter(some, Convertible), Converted))[k])
  {
    var gone := Filter(some, Convertible);
    FilterMember(some, Convertible, gone[k - |kept|]);
    assert (kept + rest + Map(gone, Converted))[k] == Converted(gone[k - |kept|]);
  }

  lemma FilterSnoc<T>(s: seq<T>, m: nat, p: T -> bool)
    requires m < |s|
    ensures Filter(s[..m + 1], p) == Filter(s[..m], p) + (if p(s[m]) then [s[m]] else [])
  {
    assert s[..m + 1] == s[..m] + [s[m]];
    FilterConcat(s[..m], [s[m]], p);
    assert [s[m]][1..] == [];
    NothingAfter(if p(s[m]) then [s[m]] else []);
  }

  ghost function Objects(properties: seq<Property>): set<object> {
    set p <- properties
  }

  /** The list once m of its properties have been looked at, and the place of the next one. */
  function StripSoFar(all: seq<PropertyValue>, m: nat): seq<PropertyValue>
    requires m <= |all|
  {
    Filter(all[..m], IsNotError) + all[m..]
  }

  function StripCursor(all: seq<PropertyValue>, m: nat): nat
    requires m <= |all|
  {
    |Filter(all[..m], IsNotError)|
  }

  /** One more property looked at: an error is taken out at its place, another one stays. */
  lemma StripStep(all: seq<PropertyValue>, m: nat)
    requires m < |all|
    ensures var k := StripCursor(all, m);
            && k < |StripSoFar(all, m)| && StripSoFar(all, m)[k] == all[m]
            && (IsError(all[m]) ==>
                  StripSoFar(all, m + 1) == Without(StripSoFar(all, m), k) && StripCursor(all, m + 1) == k)
            && (!IsError(all[m]) ==>
                  StripSoFar(all, m + 1) == StripSoFar(all, m) && StripCursor(all, m + 1) == k + 1)
  {
    var kept := Filter(all[..m], IsNotError);
    FilterSnoc(all, m, IsNotError);
    DropOne(all, m);
    WithoutMiddle(kept, all[m], all[m + 1..]);
    NothingAfter(kept);
  }

  lemma NotDone(all: seq<PropertyValue>, m: nat)
    requires m <= |all| && StripCursor(all, m) < |StripSoFar(all, m)|
    ensures m < |all|
  {
  }

  lemma FilterDone(all: seq<PropertyValue>, m: nat)
    requires m <= |all| && StripCursor(all, m) >= |StripSoFar(all, m)|
    ensures StripSoFar(all, m) == Filter(all, IsNotError)
  {
    assert m == |all|;
    assert all[..m] == all;
    NothingAfter(Filter(all, IsNotError));
  }

  /** What a comparison with the middle entry rules out. */
  lemma NotBeyond(zones: seq<Zone>, middle: nat, tzid: string)
    requires Strcmp.Sorted(Map(zones, ZoneKey)) && middle < |zones|
    requires zones[middle].tzid != tzid
    ensures Strcmp.Compare(tzid, zones[middle].tzid) < 0 ==>
              forall i :: middle <= i < |zones| ==> zones[i].tzid != tzid
    ensures Strcmp.Compare(tzid, zones[middle].tzid) > 0 ==>
              forall i :: 0 <= i <= middle ==> zones[i].tzid != tzid
  {
    var keys := Map(zones, ZoneKey);
    Strcmp.CompareFlip(tzid, zones[middle].tzid);
    forall i | 0 <= i < |zones| && i != middle && zones[i].tzid == tzid
      ensures if i < middle then Strcmp.Compare(tzid, zones[middle].tzid) <= 0
              else Strcmp.Compare(tzid, zones[middle].tzid) >= 0
    {
      if i < middle {
        assert Strcmp.AtMost(keys[i], keys[middle]);
      } else {
        assert Strcmp.AtMost(keys[middle], keys[i]);
      }
    }
  }

  /** A VTIMEZONE without a TZID gets no entry. */
  method AttachNamelessZone(calendar: Component, zone: Component)
    requires calendar.Ok() && calendar.components == [] && zone.Ok() && zone.components == [] && zone != calendar
    requires zone.kind == VTimezone && TzidOf(zone.tree) == None
    modifies calendar, zone
    ensures calendar.components == [zone] && calendar.timezones == []
    ensures zone.Ok() && zone.tree == old(zone.tree)
  {
    calendar.AddComponent(zone);
    assert ZonesOf(calendar.components, calendar.tree.children) == [];
    assert |calendar.timezones| == |multiset(calendar.timezones)| == 0;
    zone.PropertiesKept();
    zone.ComponentsKept();
    zone.IndexKept();
  }

  /**
    Why a TZID must stay: one given to a VTIMEZONE that is a child already does not get into
    the array of its parent.
   */
  method LateTzid(tzid: string) returns (calendar: Component, zone: Component)
    ensures calendar.components == [zone] && zone.kind == VTimezone && TzidOf(zone.tree) == Some(tzid)
    ensures calendar.timezones == []
  {
    calendar := new Component(VCalendar);
    zone := new Component(VTimezone);
    AttachNamelessZone(calendar, zone);
    var p := new Property(PropertyValue(Tzid, [], Text(tzid)));
    zone.AddProperty(p);
  }
}
