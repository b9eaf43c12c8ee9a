/**
  Component trees as values: what a component, its properties and its sub-components amount
  to once sharing and update in place are put aside.  The operations of icalcomponent.c on
  whole trees are specified here; Component.dfy proves the routines that carry them out.
 */
module Tree {
  import opened Wrappers
  import opened Sequences

  /** The kinds of component that have a name, X components apart. */
  datatype ComponentKind =
    | Any | XRoot | VEvent | VTodo | VJournal | VCalendar | VAgenda | VFreeBusy | VTimezone | VAlarm
    | Standard | Daylight | Schedule | VCar | VCommand | VQuery | VReply | LicUnknown | LicMimePart

  datatype PropertyKind =
    | AnyProperty | ExDate | ExRule | RRule | RDate | Tzid | XLicError | RequestStatus | Other(code: nat)

  datatype ErrorType =
    | ParameterNameParse | ParameterValueParse | PropertyParse | ValueParse | ComponentParse | OtherError(code: nat)

  datatype StatusCode = InvPropName | InvPropVal | InvParam | InvParamVal | InvComp

  datatype Parameter = XLicErrorType(error: ErrorType) | OtherParameter(text: string)

  datatype Value = Text(text: string) | Status(status: StatusCode, debug: string)

  datatype PropertyValue = PropertyValue(kind: PropertyKind, params: seq<Parameter>, value: Value)

  datatype Tree = Node(kind: ComponentKind, props: seq<PropertyValue>, children: seq<Tree>)

  // ------------------------------------------------------------- picking by kind

  /** Filter a sequence, keeping its order. */
  function Filter<T>(s: seq<T>, p: T -> bool): seq<T> {
    if s == [] then [] else (if p(s[0]) then [s[0]] else []) + Filter(s[1..], p)
  }

  lemma {:induction false} FilterConcat<T>(a: seq<T>, b: seq<T>, p: T -> bool)
    ensures Filter(a + b, p) == Filter(a, p) + Filter(b, p)
  {
    if a == [] {
      assert a + b == b;
    } else {
      assert (a + b)[1..] == a[1..] + b;
      FilterConcat(a[1..], b, p);
      Regroup(if p(a[0]) then [a[0]] else [], Filter(a[1..], p), [], Filter(b, p));
      assert [] + Filter(b, p) == Filter(b, p);
    }
  }

  lemma {:induction false} FilterMember<T>(s: seq<T>, p: T -> bool, x: T)
    ensures x in Filter(s, p) <==> x in s && p(x)
  {
    if s != [] {
      assert s == [s[0]] + s[1..];
      FilterMember(s[1..], p, x);
    }
  }

  lemma {:induction false} FilterAll<T>(s: seq<T>, p: T -> bool)
    requires forall x <- s :: p(x)
    ensures Filter(s, p) == s
  {
    if s != [] {
      FilterAll(s[1..], p);
    }
  }

  lemma {:induction false} FilterNone<T>(s: seq<T>, p: T -> bool)
    requires forall x <- s :: !p(x)
    ensures Filter(s, p) == []
  {
    if s != [] {
      FilterNone(s[1..], p);
    }
  }

  predicate IsKind(p: PropertyValue, kind: PropertyKind) {
    p.kind == kind || kind == AnyProperty
  }

  predicate IsChild(t: Tree, kind: ComponentKind) {
    t.kind == kind || kind == Any
  }

  function Reverse<T>(s: seq<T>): (r: seq<T>)
    ensures |r| == |s| && forall i :: 0 <= i < |s| ==> r[i] == s[|s| - 1 - i]
  {
    if s == [] then [] else Reverse(s[1..]) + [s[0]]
  }

  // ---------------------------------------------------------------- adding a child

  predicate IsZone(t: Tree) {
    t.kind == VTimezone
  }

  predicate IsNotZone(t: Tree) {
    t.kind != VTimezone
  }

  /** A VTIMEZONE goes in front, anything else at the end. */
  function AddChild(children: seq<Tree>, child: Tree): seq<Tree> {
    if IsZone(child) then [child] + children else children + [child]
  }

  /** All VTIMEZONEs come before all other children. */
  predicate ZonesFirst(children: seq<Tree>) {
    forall i, j :: 0 <= i < j < |children| && IsZone(children[j]) ==> IsZone(children[i])
  }

  lemma AddKeepsZonesFirst(children: seq<Tree>, child: Tree)
    requires ZonesFirst(children)
    ensures ZonesFirst(AddChild(children, child))
  {
    var r := AddChild(children, child);
    var shift := if IsZone(child) then 1 else 0;
    forall i, j | 0 <= i < j < |r| && IsZone(r[j]) ensures IsZone(r[i]) {
      assert r[j] == children[j - shift];
      if i >= shift {
        assert r[i] == children[i - shift];
      }
    }
  }

  lemma RemoveKeepsZonesFirst(children: seq<Tree>, k: nat)
    requires ZonesFirst(children) && k < |children|
    ensures ZonesFirst(children[..k] + children[k + 1..])
  {
  }

  /** Children ordered with the zones first are the zones followed by the others. */
  lemma {:induction false} ZonesFirstSplit(children: seq<Tree>)
    ensures ZonesFirst(children) <==> children == Filter(children, IsZone) + Filter(children, IsNotZone)
  {
    var zones, others := Filter(children, IsZone), Filter(children, IsNotZone);
    forall t ensures t in zones ==> IsZone(t) { FilterMember(children, IsZone, t); }
    forall t ensures t in others ==> IsNotZone(t) { FilterMember(children, IsNotZone, t); }
    if children == zones + others {
      forall i, j | 0 <= i < j < |children| ensures IsZone(children[j]) ==> IsZone(children[i]) {
        if j >= |zones| {
          assert children[j] == others[j - |zones|];
          assert IsNotZone(children[j]);
        } else {
          assert children[i] == zones[i];
        }
      }
    }
    if ZonesFirst(children) && children != [] {
      assert ZonesFirst(children[1..]);
      ZonesFirstSplit(children[1..]);
      if !IsZone(children[0]) {
        FilterNone(children[1..], IsZone);
      }
    }
  }

  // -------------------------------------------------------------------------- TZID

  /** The value of the first TZID property. */
  function PropsTzid(props: seq<PropertyValue>): Option<string> {
    if props == [] then None
    else if props[0].kind == Tzid && props[0].value.Text? then Some(props[0].value.text)
    else if props[0].kind == Tzid then None
    else PropsTzid(props[1..])
  }

  /** It is that of the property before which there is no TZID property, if its value is a text. */
  lemma {:induction false} PropsTzidExact(props: seq<PropertyValue>, tzid: string)
    ensures PropsTzid(props) == Some(tzid) <==>
            exists k :: 0 <= k < |props| && props[k].kind == Tzid && props[k].value == Text(tzid)
                        && forall j :: 0 <= j < k ==> props[j].kind != Tzid
  {
    if props != [] && props[0].kind != Tzid {
      PropsTzidExact(props[1..], tzid);
      if k :| 0 <= k < |props[1..]| && props[1..][k].kind == Tzid && props[1..][k].value == Text(tzid)
              && forall j :: 0 <= j < k ==> props[1..][j].kind != Tzid {
        assert props[k + 1] == props[1..][k];
        assert forall j :: 0 < j < k + 1 ==> props[j] == props[1..][j - 1];
      }
      if k :| 0 <= k < |props| && props[k].kind == Tzid && props[k].value == Text(tzid)
              && forall j :: 0 <= j < k ==> props[j].kind != Tzid {
        assert props[1..][k - 1] == props[k];
        assert forall j :: 0 <= j < k - 1 ==> props[1..][j] == props[j + 1];
      }
    }
  }

  function TzidOf(t: Tree): Option<string> {
    PropsTzid(t.props)
  }

  /** The TZIDs under which some VTIMEZONE child can be found. */
  function Tzids(children: seq<Tree>): set<string> {
    set t <- children | IsZone(t) && TzidOf(t).Some? :: TzidOf(t).value
  }

  // ------------------------------------------------------------------------- clone

  /** icalcomponent_new_clone. */
  function Clone(t: Tree): Tree
    decreases t, 1
  {
    Node(t.kind, t.props, CloneChildren([], t.children))
  }

  /** The children added one after the other to those cloned so far. */
  function CloneChildren(done: seq<Tree>, children: seq<Tree>): seq<Tree>
    decreases children, 0
  {
    if children == [] then done
    else CloneChildren(AddChild(done, Clone(children[0])), children[1..])
  }

  lemma {:induction false} CloneSnoc(done: seq<Tree>, children: seq<Tree>, i: nat)
    requires i < |children|
    ensures CloneChildren(done, children[..i + 1])
         == AddChild(CloneChildren(done, children[..i]), Clone(children[i]))
    decreases i
  {
    var first, rest := children[0], children[1..];
    assert children[..i + 1][1..] == rest[..i] && children[..i + 1][0] == first;
    if i > 0 {
      assert children[..i][1..] == rest[..i - 1] && children[..i][0] == first;
      CloneSnoc(AddChild(done, Clone(first)), rest, i - 1);
    }
  }

  /** The tree with clones of the first children. */
  function ClonedSoFar(t: Tree, i: nat): Tree
    requires i <= |t.children|
  {
    t.(children := CloneChildren([], t.children[..i]))
  }

  lemma AllCloned(t: Tree)
    ensures ClonedSoFar(t, |t.children|) == Clone(t)
    ensures ClonedSoFar(t, 0) == Node(t.kind, t.props, [])
  {
    assert t.children[..|t.children|] == t.children;
  }

  function ClonesOf(children: seq<Tree>): (r: seq<Tree>)
    decreases children, 0
    ensures |r| == |children| && forall i :: 0 <= i < |children| ==> r[i] == Clone(children[i])
  {
    if children == [] then [] else [Clone(children[0])] + ClonesOf(children[1..])
  }

  lemma {:induction false} ClonesFilter(children: seq<Tree>)
    ensures Filter(ClonesOf(children), IsZone) == ClonesOf(Filter(children, IsZone))
    ensures Filter(ClonesOf(children), IsNotZone) == ClonesOf(Filter(children, IsNotZone))
  {
    if children != [] {
      ClonesFilter(children[1..]);
      assert ClonesOf(children)[1..] == ClonesOf(children[1..]);
      ClonesOfConcat(Filter(children[..1], IsZone), Filter(children[1..], IsZone));
      ClonesOfConcat(Filter(children[..1], IsNotZone), Filter(children[1..], IsNotZone));
    }
  }

  lemma ClonesOfConcat(a: seq<Tree>, b: seq<Tree>)
    ensures ClonesOf(a + b) == ClonesOf(a) + ClonesOf(b)
  {
  }

  lemma ReverseClones(s: seq<Tree>)
    ensures Reverse(ClonesOf(s)) == ClonesOf(Reverse(s))
  {
  }

  lemma ReverseCons<T>(x: T, s: seq<T>)
    ensures Reverse([x] + s) == Reverse(s) + [x]
  {
    assert ([x] + s)[1..] == s;
  }

  /** Cloning reverses the zones, in front, and keeps the order of the others. */
  lemma {:induction false} CloneChildrenIs(done: seq<Tree>, children: seq<Tree>)
    ensures CloneChildren(done, children)
         == Reverse(ClonesOf(Filter(children, IsZone))) + done + ClonesOf(Filter(children, IsNotZone))
    decreases |children|
  {
    if children == [] {
      assert [] + done + [] == done;
    } else {
      var first, rest := children[0], children[1..];
      var c := Clone(first);
      var zones, others := ClonesOf(Filter(rest, IsZone)), ClonesOf(Filter(rest, IsNotZone));
      CloneChildrenIs(AddChild(done, c), rest);
      ConsClones(first, Filter(rest, IsZone));
      ConsClones(first, Filter(rest, IsNotZone));
      if IsZone(first) {
        assert [] + Filter(rest, IsNotZone) == Filter(rest, IsNotZone);
        Regroup(Reverse(zones), [c], done, others);
        ReverseCons(c, zones);
      } else {
        assert [] + Filter(rest, IsZone) == Filter(rest, IsZone);
        Regroup(Reverse(zones), done, [c], others);
      }
    }
  }

  lemma ConsClones(t: Tree, s: seq<Tree>)
    ensures ClonesOf([t] + s) == [Clone(t)] + ClonesOf(s)
  {
    assert ([t] + s)[1..] == s;
  }

  /** Zones come first at every level of the tree. */
  predicate Ordered(t: Tree) {
    ZonesFirst(t.children) && forall c <- t.children :: Ordered(c)
  }

  function Twice(s: seq<Tree>): (r: seq<Tree>)
    ensures |r| == |s| && forall i :: 0 <= i < |s| ==> r[i] == Clone(Clone(s[i]))
  {
    ClonesOf(ClonesOf(s))
  }

  lemma ReverseTwice<T>(s: seq<T>)
    ensures Reverse(Reverse(s)) == s
  {
  }

  /** Cloning twice clones each child twice and puts the zones in front, in their order. */
  lemma TwiceChildren(children: seq<Tree>)
    ensures CloneChildren([], CloneChildren([], children))
         == Twice(Filter(children, IsZone)) + Twice(Filter(children, IsNotZone))
  {
    var zones, others := ClonesOf(Filter(children, IsZone)), ClonesOf(Filter(children, IsNotZone));
    var front := Reverse(zones);
    CloneChildrenIs([], children);
    EmptyMiddle(front, others);
    KindsOf(children);
    CloneKinds(Filter(children, IsZone));
    CloneKinds(Filter(children, IsNotZone));
    CloneSides(front, others);
    CloneChildrenIs([], front + others);
    ReverseClones(zones);
    ReverseTwice(ClonesOf(zones));
    EmptyMiddle(ClonesOf(zones), ClonesOf(others));
  }

  predicate AllZones(s: seq<Tree>) {
    forall i :: 0 <= i < |s| ==> IsZone(s[i])
  }

  predicate NoZones(s: seq<Tree>) {
    forall i :: 0 <= i < |s| ==> IsNotZone(s[i])
  }

  lemma KindsOf(children: seq<Tree>)
    ensures AllZones(Filter(children, IsZone)) && NoZones(Filter(children, IsNotZone))
  {
    var zones, others := Filter(children, IsZone), Filter(children, IsNotZone);
    forall i | 0 <= i < |zones| ensures IsZone(zones[i]) { FilterMember(children, IsZone, zones[i]); }
    forall i | 0 <= i < |others| ensures IsNotZone(others[i]) { FilterMember(children, IsNotZone, others[i]); }
  }

  lemma CloneKinds(s: seq<Tree>)
    ensures AllZones(s) ==> AllZones(ClonesOf(s)) && AllZones(Reverse(ClonesOf(s))) && AllZones(Twice(s))
    ensures NoZones(s) ==> NoZones(ClonesOf(s)) && NoZones(Twice(s))
  {
  }

  /** Every tree of the sequence comes back from being cloned twice. */
  predicate ComeBack(s: seq<Tree>) {
    forall i :: 0 <= i < |s| ==> Clone(Clone(s[i])) == s[i]
  }

  lemma TwiceFixed(s: seq<Tree>)
    ensures Twice(s) == s <==> ComeBack(s)
  {
  }

  lemma ComeBackParts(a: seq<Tree>, b: seq<Tree>)
    ensures ComeBack(a + b) <==> ComeBack(a) && ComeBack(b)
  {
    if ComeBack(a + b) {
      assert forall i :: 0 <= i < |a| ==> a[i] == (a + b)[i];
      assert forall i :: 0 <= i < |b| ==> b[i] == (a + b)[|a| + i];
    }
  }

  /** The children come back exactly when each does and the zones are in front. */
  lemma ChildrenComeBack(children: seq<Tree>)
    ensures CloneChildren([], CloneChildren([], children)) == children
       <==> ZonesFirst(children) && ComeBack(children)
  {
    var zones, others := Filter(children, IsZone), Filter(children, IsNotZone);
    TwiceChildren(children);
    ZonesFirstSplit(children);
    TwiceFixed(zones);
    TwiceFixed(others);
    ComeBackParts(zones, others);
    if Twice(zones) + Twice(others) == children {
      KindsOf(children);
      CloneKinds(zones);
      CloneKinds(others);
      FrontOfKind(Twice(zones), Twice(others));
      assert zones + others == children;
      assert Twice(zones) == children[..|zones|] == zones;
      assert Twice(others) == children[|zones|..] == others;
    }
  }

  /** Cloning twice gives the tree back exactly when its zones come first at every level. */
  lemma {:induction false} CloneTwice(t: Tree)
    ensures Clone(Clone(t)) == t <==> Ordered(t)
    decreases t
  {
    ChildrenComeBack(t.children);
    forall i | 0 <= i < |t.children| ensures Clone(Clone(t.children[i])) == t.children[i] <==> Ordered(t.children[i]) {
      CloneTwice(t.children[i]);
    }
    assert (forall c <- t.children :: Ordered(c)) <==> forall i :: 0 <= i < |t.children| ==> Ordered(t.children[i]);
  }

  /** A sequence of zones followed by one without them has its zones first. */
  lemma FrontOfKind(front: seq<Tree>, back: seq<Tree>)
    requires AllZones(front) && NoZones(back)
    ensures ZonesFirst(front + back)
  {
  }

  lemma CloneSides(front: seq<Tree>, back: seq<Tree>)
    requires AllZones(front) && NoZones(back)
    ensures Filter(front + back, IsZone) == front && Filter(front + back, IsNotZone) == back
  {
    FilterConcat(front, back, IsZone);
    FilterConcat(front, back, IsNotZone);
    FilterAll(front, IsZone);
    FilterAll(back, IsNotZone);
    FilterNone(back, IsZone);
    FilterNone(front, IsNotZone);
  }

  /** Whatever the order of its children, a clone has its zones first at every level. */
  lemma {:induction false} CloneIsOrdered(t: Tree)
    ensures Ordered(Clone(t))
    decreases t, 1
  {
    CloneChildrenOrdered([], t.children);
  }

  lemma {:induction false} CloneChildrenOrdered(done: seq<Tree>, children: seq<Tree>)
    requires ZonesFirst(done) && forall c <- done :: Ordered(c)
    ensures var r := CloneChildren(done, children); ZonesFirst(r) && forall c <- r :: Ordered(c)
    decreases children, 0
  {
    if children != [] {
      var c := Clone(children[0]);
      CloneIsOrdered(children[0]);
      AddKeepsZonesFirst(done, c);
      CloneChildrenOrdered(AddChild(done, c), children[1..]);
    }
  }

  /** The zones in reverse, then the others in order. */
  function ZonesReversed(children: seq<Tree>): (r: seq<Tree>)
    ensures |r| == |children| && forall i :: 0 <= i < |r| ==> r[i] in children
  {
    var zones, others := Filter(children, IsZone), Filter(children, IsNotZone);
    SidesCount(children);
    forall t ensures t in zones || t in others ==> t in children {
      FilterMember(children, IsZone, t);
      FilterMember(children, IsNotZone, t);
    }
    Reverse(zones) + others
  }

  lemma {:induction false} SidesCount(children: seq<Tree>)
    ensures |Filter(children, IsZone)| + |Filter(children, IsNotZone)| == |children|
  {
    if children != [] {
      SidesCount(children[1..]);
    }
  }

  /** A copy with the kind and the properties of the original, and at every level the zones in reverse and in front. */
  predicate Mirrors(t: Tree, copy: Tree)
    decreases t
  {
    && copy.kind == t.kind && copy.props == t.props && |copy.children| == |t.children|
    && forall i :: 0 <= i < |t.children| && i < |copy.children| ==>
         Mirrors(ZonesReversed(t.children)[i], copy.children[i])
  }

  /** The clone of a tree is such a copy, and no other tree is. */
  lemma {:induction false} CloneExact(t: Tree, copy: Tree)
    ensures Mirrors(t, copy) <==> copy == Clone(t)
    decreases t
  {
    var source := ZonesReversed(t.children);
    CloneChildrenIs([], t.children);
    ClonesInPlace(t.children);
    assert Clone(t).children == ClonesOf(source);
    if |copy.children| == |t.children| {
      forall i | 0 <= i < |source|
        ensures Mirrors(source[i], copy.children[i]) <==> copy.children[i] == Clone(source[i])
      {
        CloneExact(source[i], copy.children[i]);
      }
    }
  }

  lemma ClonesInPlace(children: seq<Tree>)
    ensures Reverse(ClonesOf(Filter(children, IsZone))) + [] + ClonesOf(Filter(children, IsNotZone))
         == ClonesOf(ZonesReversed(children))
  {
    var zones, others := Filter(children, IsZone), Filter(children, IsNotZone);
    EmptyMiddle(Reverse(ClonesOf(zones)), ClonesOf(others));
    ReverseClones(zones);
    ClonesOfConcat(Reverse(zones), others);
  }

  /** At every level at most one VTIMEZONE, in front. */
  predicate OneZone(t: Tree) {
    ZonesFirst(t.children) && |Filter(t.children, IsZone)| <= 1 && forall c <- t.children :: OneZone(c)
  }

  /** Such a tree is its own clone. */
  lemma {:induction false} CloneOfOneZone(t: Tree)
    requires OneZone(t)
    ensures Clone(t) == t
    decreases t
  {
    var zones := Filter(t.children, IsZone);
    ZonesFirstSplit(t.children);
    assert Reverse(zones) == zones && ZonesReversed(t.children) == t.children;
    forall i | 0 <= i < |t.children| ensures Mirrors(t.children[i], t.children[i]) {
      CloneOfOneZone(t.children[i]);
      CloneExact(t.children[i], t.children[i]);
    }
    CloneExact(t, t);
  }

  lemma TzidsAdd(children: seq<Tree>, child: Tree)
    ensures Tzids(AddChild(children, child))
         == Tzids(children) + (if IsZone(child) && TzidOf(child).Some? then {TzidOf(child).value} else {})
  {
    var r := AddChild(children, child);
    assert forall t :: t in r <==> t in children || t == child;
  }

  lemma TzidsTail(children: seq<Tree>)
    requires children != []
    ensures Tzids(children) == Tzids(children[1..])
      + (if IsZone(children[0]) && TzidOf(children[0]).Some? then {TzidOf(children[0]).value} else {})
  {
    assert children == [children[0]] + children[1..];
  }

  lemma {:induction false} CloneChildrenTzids(done: seq<Tree>, children: seq<Tree>)
    ensures Tzids(CloneChildren(done, children)) == Tzids(done) + Tzids(children)
    decreases |children|
  {
    if children != [] {
      var c := Clone(children[0]);
      CloneChildrenTzids(AddChild(done, c), children[1..]);
      TzidsAdd(done, c);
      TzidsTail(children);
    }
  }

  /** A clone resolves exactly the same TZIDs. */
  lemma CloneTzids(t: Tree)
    ensures Tzids(Clone(t).children) == Tzids(t.children)
  {
    CloneChildrenTzids([], t.children);
    assert Tzids([]) == {};
  }

  // ------------------------------------------------------------------------ errors

  predicate IsError(p: PropertyValue) {
    p.kind == XLicError
  }

  predicate IsNotError(p: PropertyValue) {
    p.kind != XLicError
  }

  /** icalcomponent_count_errors. */
  function CountErrors(t: Tree): nat
    decreases t, 1
  {
    |Filter(t.props, IsError)| + CountErrorsIn(t.children)
  }

  function CountErrorsIn(ts: seq<Tree>): nat
    decreases ts, 0
  {
    if ts == [] then 0 else CountErrors(ts[0]) + CountErrorsIn(ts[1..])
  }

  /** icalcomponent_strip_errors. */
  function Strip(t: Tree): Tree
    decreases t, 1
  {
    Node(t.kind, Filter(t.props, IsNotError), StripAll(t.children))
  }

  function StripAll(ts: seq<Tree>): (r: seq<Tree>)
    decreases ts, 0
    ensures |r| == |ts| && forall i :: 0 <= i < |ts| ==> r[i] == Strip(ts[i])
  {
    if ts == [] then [] else [Strip(ts[0])] + StripAll(ts[1..])
  }

  /** What is left of a list, in its order, when some of its elements go. */
  predicate Thinned<T(==)>(all: seq<T>, left: seq<T>, gone: T -> bool) {
    if all == [] then left == []
    else if gone(all[0]) then Thinned(all[1..], left, gone)
    else left != [] && left[0] == all[0] && Thinned(all[1..], left[1..], gone)
  }

  lemma {:induction false} ThinnedExact(all: seq<PropertyValue>, left: seq<PropertyValue>, gone: PropertyValue -> bool,
      stays: PropertyValue -> bool)
    requires forall p :: stays(p) <==> !gone(p)
    ensures Thinned(all, left, gone) <==> left == Filter(all, stays)
  {
    if all != [] {
      var rest := Filter(all[1..], stays);
      assert ([all[0]] + rest)[1..] == rest && [] + rest == rest;
      if gone(all[0]) {
        ThinnedExact(all[1..], left, gone, stays);
      } else if left != [] {
        ThinnedExact(all[1..], left[1..], gone, stays);
        assert left == [left[0]] + left[1..];
      }
    }
  }

  /** At every level the properties are those that are no errors, and the children the same ones. */
  predicate WithoutErrors(t: Tree, r: Tree)
    decreases t
  {
    && r.kind == t.kind && Thinned(t.props, r.props, IsError) && |r.children| == |t.children|
    && forall i :: 0 <= i < |t.children| && i < |r.children| ==> WithoutErrors(t.children[i], r.children[i])
  }

  lemma {:induction false} StripExact(t: Tree, r: Tree)
    ensures WithoutErrors(t, r) <==> r == Strip(t)
    decreases t
  {
    ThinnedExact(t.props, r.props, IsError, IsNotError);
    if |r.children| == |t.children| {
      forall i | 0 <= i < |t.children|
        ensures WithoutErrors(t.children[i], r.children[i]) <==> r.children[i] == Strip(t.children[i])
      {
        StripExact(t.children[i], r.children[i]);
      }
    }
  }

  /** All properties of the tree. */
  function CountProperties(t: Tree): nat
    decreases t, 1
  {
    |t.props| + CountPropertiesIn(t.children)
  }

  function CountPropertiesIn(ts: seq<Tree>): nat
    decreases ts, 0
  {
    if ts == [] then 0 else CountProperties(ts[0]) + CountPropertiesIn(ts[1..])
  }

  lemma {:induction false} FilterSplit(props: seq<PropertyValue>)
    ensures |Filter(props, IsError)| + |Filter(props, IsNotError)| == |props|
    ensures Filter(Filter(props, IsNotError), IsError) == []
    ensures Filter(props, IsError) == [] ==> Filter(props, IsNotError) == props
  {
    if props != [] {
      FilterSplit(props[1..]);
      var rest := Filter(props[1..], IsNotError);
      assert ([props[0]] + rest)[1..] == rest && [] + rest == rest;
    }
  }

  /** After stripping no error is left anywhere, and as many properties are gone as there were errors. */
  lemma {:induction false} StripClean(t: Tree)
    ensures CountErrors(Strip(t)) == 0
    ensures CountProperties(Strip(t)) + CountErrors(t) == CountProperties(t)
    decreases t, 1
  {
    FilterSplit(t.props);
    StripAllClean(t.children);
  }

  lemma {:induction false} StripAllClean(ts: seq<Tree>)
    ensures CountErrorsIn(StripAll(ts)) == 0
    ensures CountPropertiesIn(StripAll(ts)) + CountErrorsIn(ts) == CountPropertiesIn(ts)
    decreases ts, 0
  {
    if ts != [] {
      StripClean(ts[0]);
      StripAllClean(ts[1..]);
      assert StripAll(ts)[1..] == StripAll(ts[1..]);
    }
  }

  /** Stripping changes exactly the trees that have an error. */
  lemma {:induction false} StripFixed(t: Tree)
    ensures Strip(t) == t <==> CountErrors(t) == 0
    decreases t, 1
  {
    StripClean(t);
    FilterSplit(t.props);
    if CountErrors(t) == 0 {
      StripAllFixed(t.children);
    }
  }

  lemma {:induction false} StripAllFixed(ts: seq<Tree>)
    requires CountErrorsIn(ts) == 0
    ensures StripAll(ts) == ts
    decreases ts, 0
  {
    if ts != [] {
      StripFixed(ts[0]);
      StripAllFixed(ts[1..]);
    }
  }

  // ------------------------------------------------------------- converting errors

  /** The value of the first X-LIC-ERRORTYPE parameter. */
  function FirstErrorType(params: seq<Parameter>): Option<ErrorType> {
    if params == [] then None
    else if params[0].XLicErrorType? then Some(params[0].error)
    else FirstErrorType(params[1..])
  }

  lemma {:induction false} FirstErrorTypeExact(params: seq<Parameter>, e: ErrorType)
    ensures FirstErrorType(params) == Some(e) <==>
            exists k :: 0 <= k < |params| && params[k] == XLicErrorType(e)
                        && forall j :: 0 <= j < k ==> params[j].OtherParameter?
  {
    if params != [] && params[0].OtherParameter? {
      FirstErrorTypeExact(params[1..], e);
      if k :| 0 <= k < |params[1..]| && params[1..][k] == XLicErrorType(e)
              && forall j :: 0 <= j < k ==> params[1..][j].OtherParameter? {
        assert params[k + 1] == params[1..][k];
        assert forall j :: 0 < j < k + 1 ==> params[j] == params[1..][j - 1];
      }
      if k :| 0 <= k < |params| && params[k] == XLicErrorType(e)
              && forall j :: 0 <= j < k ==> params[j].OtherParameter? {
        assert params[1..][k - 1] == params[k];
        assert forall j :: 0 <= j < k - 1 ==> params[1..][j] == params[j + 1];
      }
    }
  }

  /** The number after "3." and the text of a status, section 4.8.8.2 of RFC 2445. */
  function Meaning(code: StatusCode): (nat, string) {
    match code
    case InvPropName => (0, "Invalid property name.")
    case InvPropVal => (1, "Invalid property value.")
    case InvParam => (2, "Invalid property parameter.")
    case InvParamVal => (3, "Invalid property parameter  value.")
    case InvComp => (4, "Invalid calendar component.")
  }

  function StatusFor(e: ErrorType): Option<StatusCode> {
    match e
    case ParameterNameParse => Some(InvParam)
    case ParameterValueParse => Some(InvParamVal)
    case PropertyParse => Some(InvPropName)
    case ValueParse => Some(InvPropVal)
    case ComponentParse => Some(InvComp)
    case OtherError(_) => None
  }

  /** Every error property has its type parameter and a text, which convert_errors reads unchecked. */
  predicate Typed(props: seq<PropertyValue>) {
    forall p <- props :: IsError(p) ==> FirstErrorType(p.params).Some? && p.value.Text?
  }

  predicate TypedTree(t: Tree) {
    Typed(t.props) && forall c <- t.children :: TypedTree(c)
  }

  /** An error of one of the five types that have a request status. */
  predicate Convertible(p: PropertyValue) {
    IsError(p) && FirstErrorType(p.params).Some? && p.value.Text? && StatusFor(FirstErrorType(p.params).value).Some?
  }

  predicate Kept(p: PropertyValue) {
    !Convertible(p)
  }

  /** The REQUEST-STATUS property that takes the place of an error. */
  function Converted(p: PropertyValue): PropertyValue {
    if Convertible(p)
    then PropertyValue(RequestStatus, [], Status(StatusFor(FirstErrorType(p.params).value).value, p.value.text))
    else p
  }

  /** The properties that stay, then one request status for each of the others. */
  function ConvertProps(props: seq<PropertyValue>): seq<PropertyValue> {
    Filter(props, Kept) + Map(Filter(props, Convertible), Converted)
  }

  /** icalcomponent_convert_errors. */
  function Convert(t: Tree): Tree
    decreases t, 1
  {
    Node(t.kind, ConvertProps(t.props), ConvertAll(t.children))
  }

  function ConvertAll(ts: seq<Tree>): (r: seq<Tree>)
    decreases ts, 0
    ensures |r| == |ts| && forall i :: 0 <= i < |ts| ==> r[i] == Convert(ts[i])
  {
    if ts == [] then [] else [Convert(ts[0])] + ConvertAll(ts[1..])
  }

  /** The status says what the error was. */
  lemma StatusExact(e: ErrorType, code: StatusCode)
    ensures StatusFor(e) == Some(code) <==>
            || (e == PropertyParse && Meaning(code) == (0, "Invalid property name."))
            || (e == ValueParse && Meaning(code) == (1, "Invalid property value."))
            || (e == ParameterNameParse && Meaning(code) == (2, "Invalid property parameter."))
            || (e == ParameterValueParse && Meaning(code) == (3, "Invalid property parameter  value."))
            || (e == ComponentParse && Meaning(code) == (4, "Invalid calendar component."))
  {
  }

  /** The error is reported by the REQUEST-STATUS: its type by the code, its text word for word. */
  predicate Reports(p: PropertyValue, report: PropertyValue) {
    && p.value.Text? && report.value.Status? && report.kind == RequestStatus && report.params == []
    && report.value.debug == p.value.text
    && FirstErrorType(p.params).Some? && StatusFor(FirstErrorType(p.params).value) == Some(report.value.status)
  }

  /** Some errors have been reported; the other properties are kept, both in order. */
  predicate Parted(all: seq<PropertyValue>, kept: seq<PropertyValue>, made: seq<PropertyValue>) {
    if all == [] then kept == [] && made == []
    else if IsError(all[0]) && made != [] && Reports(all[0], made[0]) then Parted(all[1..], kept, made[1..])
    else !Convertible(all[0]) && kept != [] && kept[0] == all[0] && Parted(all[1..], kept[1..], made)
  }

  lemma ReportsExact(p: PropertyValue, report: PropertyValue)
    ensures IsError(p) && Reports(p, report) <==> Convertible(p) && report == Converted(p)
  {
  }

  lemma ConsIs<T>(s: seq<T>, x: T, t: seq<T>)
    ensures s == [x] + t <==> s != [] && s[0] == x && s[1..] == t
  {
    if s != [] {
      assert s == [s[0]] + s[1..];
    }
  }

  lemma FilterHead(all: seq<PropertyValue>, p: PropertyValue -> bool)
    requires all != []
    ensures Filter(all, p) == if p(all[0]) then [all[0]] + Filter(all[1..], p) else Filter(all[1..], p)
  {
  }

  lemma MapHead(p: PropertyValue, rest: seq<PropertyValue>)
    ensures Map([p] + rest, Converted) == [Converted(p)] + Map(rest, Converted)
  {
  }

  lemma {:induction false} PartedExact(all: seq<PropertyValue>, kept: seq<PropertyValue>, made: seq<PropertyValue>)
    ensures Parted(all, kept, made) <==>
            kept == Filter(all, Kept) && made == Map(Filter(all, Convertible), Converted)
  {
    if all != [] {
      var p, stay, go := all[0], Filter(all[1..], Kept), Filter(all[1..], Convertible);
      FilterHead(all, Kept);
      FilterHead(all, Convertible);
      MapHead(p, go);
      ConsIs(kept, p, stay);
      ConsIs(made, Converted(p), Map(go, Converted));
      if made != [] {
        ReportsExact(p, made[0]);
        PartedExact(all[1..], kept, made[1..]);
      }
      if kept != [] {
        PartedExact(all[1..], kept[1..], made);
      }
    }
  }

  /** At every level the errors that have a status are reported behind the other properties. */
  predicate ErrorsReported(t: Tree, r: Tree)
    decreases t
  {
    && r.kind == t.kind && |r.children| == |t.children|
    && (exists n :: 0 <= n <= |r.props| && Parted(t.props, r.props[..n], r.props[n..]))
    && forall i :: 0 <= i < |t.children| && i < |r.children| ==> ErrorsReported(t.children[i], r.children[i])
  }

  lemma {:induction false} ConvertExact(t: Tree, r: Tree)
    ensures ErrorsReported(t, r) <==> r == Convert(t)
    decreases t
  {
    var kept, made := Filter(t.props, Kept), Map(Filter(t.props, Convertible), Converted);
    forall n | 0 <= n <= |r.props|
      ensures Parted(t.props, r.props[..n], r.props[n..]) <==> r.props[..n] == kept && r.props[n..] == made
    {
      PartedExact(t.props, r.props[..n], r.props[n..]);
    }
    if r.props == kept + made {
      assert r.props[..|kept|] == kept && r.props[|kept|..] == made;
    }
    if n :| 0 <= n <= |r.props| && r.props[..n] == kept && r.props[n..] == made {
      assert r.props == kept + made;
    }
    if |r.children| == |t.children| {
      forall i | 0 <= i < |t.children|
        ensures ErrorsReported(t.children[i], r.children[i]) <==> r.children[i] == Convert(t.children[i])
      {
        ConvertExact(t.children[i], r.children[i]);
      }
    }
  }

  /** Two trees with the same number of properties at every node. */
  predicate SameCounts(a: Tree, b: Tree) {
    && |a.props| == |b.props| && |a.children| == |b.children|
    && forall i :: 0 <= i < |a.children| && i < |b.children| ==> SameCounts(a.children[i], b.children[i])
  }

  predicate IsStatus(p: PropertyValue) {
    p.kind == RequestStatus
  }

  function CountWhere(t: Tree, p: PropertyValue -> bool): nat
    decreases t, 1
  {
    |Filter(t.props, p)| + CountWhereIn(t.children, p)
  }

  function CountWhereIn(ts: seq<Tree>, p: PropertyValue -> bool): nat
    decreases ts, 0
  {
    if ts == [] then 0 else CountWhere(ts[0], p) + CountWhereIn(ts[1..], p)
  }

  lemma {:induction false} KeptCounts(props: seq<PropertyValue>)
    ensures |Filter(props, Kept)| + |Filter(props, Convertible)| == |props|
    ensures |Filter(Filter(props, Kept), IsError)| + |Filter(props, Convertible)| == |Filter(props, IsError)|
    ensures |Filter(Filter(props, Kept), IsStatus)| == |Filter(props, IsStatus)|
  {
    if props != [] {
      KeptCounts(props[1..]);
      var rest := Filter(props[1..], Kept);
      assert ([props[0]] + rest)[1..] == rest && [] + rest == rest;
    }
  }

  lemma ConvertPropsCounts(props: seq<PropertyValue>)
    ensures |ConvertProps(props)| == |props|
    ensures |Filter(ConvertProps(props), IsError)| + |Filter(props, Convertible)| == |Filter(props, IsError)|
    ensures |Filter(ConvertProps(props), IsStatus)| == |Filter(props, IsStatus)| + |Filter(props, Convertible)|
  {
    var kept, made := Filter(props, Kept), Map(Filter(props, Convertible), Converted);
    KeptCounts(props);
    forall i | 0 <= i < |made| ensures IsStatus(made[i]) && !IsError(made[i]) {
      FilterMember(props, Convertible, Filter(props, Convertible)[i]);
    }
    FilterConcat(kept, made, IsError);
    FilterConcat(kept, made, IsStatus);
    FilterNone(made, IsError);
    FilterAll(made, IsStatus);
  }

  /** Each node keeps the number of its properties. */
  lemma {:induction false} ConvertKeepsCounts(t: Tree)
    ensures SameCounts(t, Convert(t))
    decreases t
  {
    ConvertPropsCounts(t.props);
    forall i | 0 <= i < |t.children| ensures SameCounts(t.children[i], Convert(t).children[i]) {
      ConvertKeepsCounts(t.children[i]);
    }
  }

  /** The errors that go are the convertible ones, and a request status comes for each. */
  lemma {:induction false} ConvertAccounts(t: Tree)
    ensures CountWhere(Convert(t), IsError) + CountWhere(t, Convertible) == CountWhere(t, IsError)
    ensures CountWhere(Convert(t), IsStatus) == CountWhere(t, IsStatus) + CountWhere(t, Convertible)
    decreases t, 1
  {
    ConvertPropsCounts(t.props);
    ConvertAllAccounts(t.children);
  }

  lemma {:induction false} ConvertAllAccounts(ts: seq<Tree>)
    ensures CountWhereIn(ConvertAll(ts), IsError) + CountWhereIn(ts, Convertible) == CountWhereIn(ts, IsError)
    ensures CountWhereIn(ConvertAll(ts), IsStatus) == CountWhereIn(ts, IsStatus) + CountWhereIn(ts, Convertible)
    decreases ts, 0
  {
    if ts != [] {
      ConvertAccounts(ts[0]);
      ConvertAllAccounts(ts[1..]);
      assert ConvertAll(ts)[1..] == ConvertAll(ts[1..]);
    }
  }

  lemma {:induction false} ErrorsAreCounted(t: Tree)
    ensures CountWhere(t, IsError) == CountErrors(t)
    decreases t, 1
  {
    ErrorsAreCountedIn(t.children);
  }

  lemma {:induction false} ErrorsAreCountedIn(ts: seq<Tree>)
    ensures CountWhereIn(ts, IsError) == CountErrorsIn(ts)
    decreases ts, 0
  {
    if ts != [] {
      ErrorsAreCounted(ts[0]);
      ErrorsAreCountedIn(ts[1..]);
    }
  }

  // --------------------------------------------------- what errors leave unchanged

  lemma {:induction false} FilterTzid(props: seq<PropertyValue>, p: PropertyValue -> bool)
    requires forall q: PropertyValue :: q.kind == Tzid ==> p(q)
    ensures PropsTzid(Filter(props, p)) == PropsTzid(props)
  {
    if props != [] {
      FilterTzid(props[1..], p);
      var rest := Filter(props[1..], p);
      assert ([props[0]] + rest)[1..] == rest && [] + rest == rest;
    }
  }

  lemma {:induction false} AppendedTzid(props: seq<PropertyValue>, more: seq<PropertyValue>)
    requires forall q <- more :: q.kind != Tzid
    ensures PropsTzid(props + more) == PropsTzid(props)
  {
    if props != [] {
      assert (props + more)[1..] == props[1..] + more;
      AppendedTzid(props[1..], more);
    } else {
      assert props + more == more;
      NoTzid(more);
    }
  }

  lemma {:induction false} NoTzid(props: seq<PropertyValue>)
    requires forall q <- props :: q.kind != Tzid
    ensures PropsTzid(props) == None
  {
    if props != [] {
      NoTzid(props[1..]);
    }
  }

  /** Stripping and converting errors leave the kind and the TZID of a component alone. */
  lemma ErrorsKeepTzid(t: Tree)
    ensures Strip(t).kind == t.kind && TzidOf(Strip(t)) == TzidOf(t)
    ensures Convert(t).kind == t.kind && TzidOf(Convert(t)) == TzidOf(t)
  {
    var made := Map(Filter(t.props, Convertible), Converted);
    FilterTzid(t.props, IsNotError);
    FilterTzid(t.props, Kept);
    forall i | 0 <= i < |made| ensures made[i].kind != Tzid {
      FilterMember(t.props, Convertible, Filter(t.props, Convertible)[i]);
    }
    AppendedTzid(Filter(t.props, Kept), made);
  }
}
