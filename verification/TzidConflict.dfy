/**
  Choosing a TZID for a VTIMEZONE whose own TZID is taken by a different one
  (icalcomponent_handle_conflicting_vtimezones, up to the table of TZIDs to be renamed).
 */
module TzidConflict {
  import opened Wrappers
  import opened Sequences
  import opened Tree
  import opened Component
  import Merge
  import Serialise
  import Decimal
  import Duration

  // ----------------------------------------------------------------------- suffixes

  /** The length of the first len characters of a TZID without the digits they end in. */
  function PrefixLengthOf(tzid: string, len: nat): (r: nat)
    requires len <= |tzid|
    ensures r <= len
  {
    if len == 0 || !Decimal.IsDigit(tzid[len - 1]) then len else PrefixLengthOf(tzid, len - 1)
  }

  /** The length of a TZID without the digits it ends in. */
  function PrefixLength(tzid: string): (r: nat)
    ensures r <= |tzid|
  {
    PrefixLengthOf(tzid, |tzid|)
  }

  /** Only digits come after the prefix, and none ends it. */
  lemma PrefixLengthDigits(tzid: string)
    ensures var r := PrefixLength(tzid);
            Decimal.AllDigits(tzid[r..]) && (r > 0 ==> !Decimal.IsDigit(tzid[r - 1]))
  {
    PrefixLengthOfDigits(tzid, |tzid|);
  }

  lemma {:induction false} PrefixLengthOfDigits(tzid: string, len: nat)
    requires len <= |tzid|
    ensures var r := PrefixLengthOf(tzid, len);
            (forall i :: r <= i < len ==> Decimal.IsDigit(tzid[i])) && (r > 0 ==> !Decimal.IsDigit(tzid[r - 1]))
  {
    if len > 0 && Decimal.IsDigit(tzid[len - 1]) {
      PrefixLengthOfDigits(tzid, len - 1);
    }
  }

  function Prefix(tzid: string): string {
    tzid[..PrefixLength(tzid)]
  }

  /** The number at the end of a TZID, as atoi reads it; 0 when there is none. */
  function SuffixNumber(tzid: string): nat {
    PrefixLengthDigits(tzid);
    Decimal.Value(tzid[PrefixLength(tzid)..])
  }

  /** Nothing else is the length without the digits at the end. */
  lemma PrefixLengthUnique(tzid: string, len: nat)
    requires len <= |tzid|
    requires Decimal.AllDigits(tzid[len..]) && (len > 0 ==> !Decimal.IsDigit(tzid[len - 1]))
    ensures len == PrefixLength(tzid)
  {
    var other := PrefixLength(tzid);
    PrefixLengthDigits(tzid);
    if len < other {
      DigitBefore(tzid, len, other);
    } else if other < len {
      DigitBefore(tzid, other, len);
    }
  }

  lemma DigitBefore(tzid: string, len: nat, other: nat)
    requires len < other <= |tzid| && Decimal.AllDigits(tzid[len..])
    ensures Decimal.IsDigit(tzid[other - 1])
  {
    assert tzid[other - 1] == tzid[len..][other - 1 - len];
  }

  /** icalcomponent_get_tzid_prefix_len. */
  method GetTzidPrefixLen(tzid: string) returns (len: nat)
    ensures len == PrefixLength(tzid)
  {
    len := |tzid|;
    while len > 0 && Decimal.IsDigit(tzid[len - 1])
      invariant len <= |tzid| && PrefixLengthOf(tzid, len) == PrefixLength(tzid)
    {
      len := len - 1;
    }
  }

  /** The lengths without digits are compared, then that many characters. */
  method HasPrefix(existing: string, tzid: string, length: nat) returns (same: bool)
    requires length == PrefixLength(tzid)
    ensures same <==> Prefix(existing) == Prefix(tzid)
  {
    var existingLength := GetTzidPrefixLen(existing);
    same := length == existingLength && tzid[..length] == existing[..length];
  }

  /** A number put after the prefix is the number at the end, and the prefix is the same. */
  lemma Suffixed(tzid: string, n: nat)
    ensures Prefix(Prefix(tzid) + Decimal.Print(n)) == Prefix(tzid)
    ensures SuffixNumber(Prefix(tzid) + Decimal.Print(n)) == n
  {
    var made, len := Prefix(tzid) + Decimal.Print(n), PrefixLength(tzid);
    PrefixLengthDigits(tzid);
    Decimal.PrintValue(n);
    assert made[len..] == Decimal.Print(n) && made[..len] == Prefix(tzid);
    PrefixLengthUnique(made, len);
  }

  /** Whatever digits are put after a prefix that does not end in one, leading zeros too, are the number at the end. */
  lemma NumberAtEnd(prefix: string, digits: string)
    requires Decimal.AllDigits(digits) && (prefix != "" ==> !Decimal.IsDigit(prefix[|prefix| - 1]))
    ensures Prefix(prefix + digits) == prefix
    ensures SuffixNumber(prefix + digits) == Decimal.Weighted(digits)
  {
    var made := prefix + digits;
    assert made[|prefix|..] == digits && made[..|prefix|] == prefix;
    PrefixLengthUnique(made, |prefix|);
    Decimal.ValueExact(digits);
  }

  /** A number above those of all TZIDs with the prefix makes a new TZID. */
  lemma SuffixedIsNew(tzid: string, n: nat, tzids: set<string>)
    requires forall t <- tzids :: Prefix(t) == Prefix(tzid) ==> SuffixNumber(t) < n
    ensures Prefix(tzid) + Decimal.Print(n) !in tzids
  {
    Suffixed(tzid, n);
  }

  // ------------------------------------------------------------------------ choosing

  /** The TZID of a zone that is the same but for its TZID, or a TZID of its own. */
  datatype Choice = Existing(tzid: string) | Chosen(tzid: string)

  /** A VTIMEZONE among the children whose TZID has the prefix, and what comparing it gives. */
  predicate IsRival(child: Tree, tzid: string) {
    IsZone(child) && TzidOf(child).Some? && Prefix(TzidOf(child).value) == Prefix(tzid)
  }

  /** atoi and the sum of it and 1 stay within an int. */
  predicate NumbersFit(children: seq<Tree>, tzid: string) {
    forall child <- children :: IsRival(child, tzid) ==> SuffixNumber(TzidOf(child).value) < Duration.INT_MAX
  }

  /** Compare a VTIMEZONE of the calendar with another one. */
  method CompareChild(comp: Component, ghost k: nat, child: Component, v: Component, line: PropertyValue -> string)
    returns (r: int)
    requires comp.Valid() && v.Valid() && comp.Repr !! v.Repr && k < |comp.components| && comp.components[k] == child
    modifies child`propertyIterator, v`propertyIterator, v`tree, v.properties
    ensures unchanged(comp) && comp.Valid() && v.Valid() && v.tree == old(v.tree)
    ensures r == Serialise.CompareZones(comp.tree.children[k], v.tree, line)
  {
    comp.ChildValid(k);
    r := Merge.CompareVtimezones(child, v, line);
    comp.ChildSameValid(k);
  }

  /** The same, or 0, without a comparison, when the prefixes differ. */
  method CompareIf(rival: bool, comp: Component, ghost k: nat, child: Component, v: Component,
      line: PropertyValue -> string)
    returns (r: int)
    requires comp.Valid() && v.Valid() && comp.Repr !! v.Repr && k < |comp.components| && comp.components[k] == child
    modifies comp.Children()`propertyIterator, v`propertyIterator, v`tree, v.properties
    ensures unchanged(comp) && comp.Valid() && v.Valid() && v.tree == old(v.tree)
    ensures r == if rival then Serialise.CompareZones(comp.tree.children[k], v.tree, line) else 0
  {
    r := 0;
    if rival {
      r := CompareChild(comp, k, child, v, line);
    }
  }

  /**
    The choice: the TZID of a VTIMEZONE with the same prefix that is the same but for its TZID
    if there is one, else one made of the prefix and a number, which the calendar does not know.
   */
  ghost predicate Right(c: Choice, children: seq<Tree>, tzid: string, v: Tree, line: PropertyValue -> string) {
    match c
    case Existing(t) =>
      exists child <- children :: IsRival(child, tzid) && TzidOf(child) == Some(t)
                                  && Serialise.CompareZones(child, v, line) == 1
    case Chosen(t) =>
      && (forall child <- children :: IsRival(child, tzid) ==> Serialise.CompareZones(child, v, line) == 0)
      && t !in Tzids(children) && Prefix(t) == Prefix(tzid)
      && (forall child <- children :: IsRival(child, tzid) ==> SuffixNumber(TzidOf(child).value) < SuffixNumber(t))
      && (SuffixNumber(t) == 1
          || exists child <- children ::
                IsRival(child, tzid) && SuffixNumber(TzidOf(child).value) + 1 == SuffixNumber(t))
      && SuffixNumber(t) <= Duration.INT_MAX
  }

  /** A new TZID is chosen exactly when no VTIMEZONE with the prefix is the same but for its TZID. */
  lemma ChoiceExact(c: Choice, children: seq<Tree>, tzid: string, v: Tree, line: PropertyValue -> string)
    requires Right(c, children, tzid, v, line) && TzidOf(v) == Some(tzid)
    requires forall child <- children :: IsRival(child, tzid) ==>
               Serialise.Faithful(line, Serialise.PropsOf(child)
                                        + Serialise.PropsOf(Serialise.WithTzid(v, TzidOf(child).value)))
    ensures c.Chosen? <==> forall child <- children :: IsRival(child, tzid) ==> !Serialise.EqualButTzid(child, v)
  {
    forall child | child in children && IsRival(child, tzid)
      ensures Serialise.CompareZones(child, v, line) == 1 <==> Serialise.EqualButTzid(child, v)
      ensures Serialise.CompareZones(child, v, line) == 0 <==> !Serialise.EqualButTzid(child, v)
    {
      Serialise.CompareExact(child, v, line);
    }
  }

  /** The array of timezones and the lists it has to agree with. */
  datatype Index = Index(zones: seq<Zone>, components: seq<Component>, children: seq<Tree>) {
    ghost predicate Wf() {
      && |components| == |children| && DistinctComponents(components)
      && multiset(zones) == multiset(ZonesOf(components, children))
    }
  }

  ghost function IndexOf(comp: Component): Index
    reads comp
  {
    Index(comp.timezones, comp.components, comp.tree.children)
  }

  /** What comparing entry i of the array gives; 0 when its TZID has another prefix. */
  ghost function Result(x: Index, i: nat, v: Tree, tzid: string, line: PropertyValue -> string): int
    requires i < |x.zones|
  {
    var k := Position(x.components, x.zones[i].component);
    if k < |x.children| && Prefix(x.zones[i].tzid) == Prefix(tzid)
    then Serialise.CompareZones(x.children[k], v, line) else 0
  }

  /** The same for all entries. */
  ghost function Results(x: Index, v: Tree, tzid: string, line: PropertyValue -> string): (r: seq<int>)
    ensures |r| == |x.zones| && forall i :: 0 <= i < |r| ==> r[i] == Result(x, i, v, tzid, line)
  {
    seq(|x.zones|, i requires 0 <= i < |x.zones| => Result(x, i, v, tzid, line))
  }

  /** Where the loop over the entries stops, and with which number, from entry i and a number on. */
  function Search(same: seq<int>, zones: seq<Zone>, i: nat, max: nat, tzid: string): (nat, nat)
    requires i <= |zones| == |same|
    decreases |zones| - i
  {
    if i == |zones| || same[i] != 0 then (i, max)
    else Search(same, zones, i + 1, NextMax(max, tzid, zones[i].tzid), tzid)
  }

  /** What the number is, among the entries before the one the loop stops at. */
  ghost predicate Largest(x: Index, i: nat, max: nat, tzid: string)
    requires i <= |x.zones|
  {
    && (forall j :: 0 <= j < i && Prefix(x.zones[j].tzid) == Prefix(tzid) ==> SuffixNumber(x.zones[j].tzid) <= max)
    && (max == 0
        || exists child <- x.children :: IsRival(child, tzid) && SuffixNumber(TzidOf(child).value) == max)
  }

  /** The loop stops at the first entry that is the same zone, or at the end. */
  lemma {:induction false} SearchIs(same: seq<int>, zones: seq<Zone>, i: nat, max: nat, tzid: string)
    requires i <= |zones| == |same|
    ensures var k := Search(same, zones, i, max, tzid).0;
            && i <= k <= |zones| && (k < |zones| ==> same[k] != 0) && (forall j :: i <= j < k ==> same[j] == 0)
    decreases |zones| - i
  {
    if i < |zones| && same[i] == 0 {
      SearchIs(same, zones, i + 1, NextMax(max, tzid, zones[i].tzid), tzid);
    }
  }

  lemma {:induction false} SearchLargest(same: seq<int>, x: Index, i: nat, max: nat, tzid: string)
    requires x.Wf() && i <= |x.zones| == |same| && Largest(x, i, max, tzid)
    ensures var (k, n) := Search(same, x.zones, i, max, tzid);
            k <= |x.zones| && Largest(x, k, n, tzid)
    decreases |x.zones| - i
  {
    if i < |x.zones| && same[i] == 0 {
      LargestNext(x, i, max, tzid);
      SearchLargest(same, x, i + 1, NextMax(max, tzid, x.zones[i].tzid), tzid);
    }
  }

  lemma LargestNext(x: Index, i: nat, max: nat, tzid: string)
    requires x.Wf() && i < |x.zones| && Largest(x, i, max, tzid)
    ensures Largest(x, i + 1, NextMax(max, tzid, x.zones[i].tzid), tzid)
  {
    EntryAt(x, i);
    var child := x.children[Position(x.components, x.zones[i].component)];
    var max' := NextMax(max, tzid, x.zones[i].tzid);
    assert child in x.children && max' >= max;
    assert max' != max ==> IsRival(child, tzid) && SuffixNumber(TzidOf(child).value) == max';
  }

  lemma SearchEnd(same: seq<int>, zones: seq<Zone>, max: nat, tzid: string)
    requires |same| == |zones|
    ensures Search(same, zones, |zones|, max, tzid) == (|zones|, max)
  {
  }

  function NextMax(max: nat, tzid: string, existing: string): nat {
    if Prefix(existing) == Prefix(tzid) && max < SuffixNumber(existing) then SuffixNumber(existing) else max
  }

  lemma EntryAt(x: Index, i: nat)
    requires x.Wf() && i < |x.zones|
    ensures var k := Position(x.components, x.zones[i].component);
            k < |x.components| && IsZone(x.children[k]) && TzidOf(x.children[k]) == Some(x.zones[i].tzid)
  {
    EntryIsChild(x.zones, x.components, x.children, x.zones[i]);
    var k :| 0 <= k < |x.children| && x.components[k] == x.zones[i].component
             && IsZone(x.children[k]) && TzidOf(x.children[k]) == Some(x.zones[i].tzid);
    PositionIs(x.components, x.zones[i].component, k);
  }

  /** A VTIMEZONE with a TZID has an entry in the array. */
  lemma ChildHasEntry(x: Index, child: Tree) returns (i: nat)
    requires x.Wf() && child in x.children && IsZone(child) && TzidOf(child).Some?
    ensures i < |x.zones| && x.zones[i].tzid == TzidOf(child).value
    ensures var k := Position(x.components, x.zones[i].component); k < |x.children| && x.children[k] == child
  {
    var k :| 0 <= k < |x.children| && x.children[k] == child;
    var z := Zone(TzidOf(child).value, x.components[k]);
    ZonesMember(x.components, x.children, z);
    SameElements(x.zones, ZonesOf(x.components, x.children), z);
    PositionIs(x.components, z.component, k);
    i :| 0 <= i < |x.zones| && x.zones[i] == z;
  }

  /** When every entry is different, so is every rival, and the number chosen is above theirs. */
  lemma RivalsPassed(x: Index, max: nat, v: Tree, tzid: string, line: PropertyValue -> string)
    requires x.Wf() && Largest(x, |x.zones|, max, tzid)
    requires forall j :: 0 <= j < |x.zones| ==> Result(x, j, v, tzid, line) == 0
    ensures forall child <- x.children :: IsRival(child, tzid) ==>
              Serialise.CompareZones(child, v, line) == 0 && SuffixNumber(TzidOf(child).value) <= max
  {
    forall child | child in x.children && IsRival(child, tzid)
      ensures Serialise.CompareZones(child, v, line) == 0 && SuffixNumber(TzidOf(child).value) <= max
    {
      var i := ChildHasEntry(x, child);
      assert Result(x, i, v, tzid, line) == 0;
    }
  }

  /** The choice when the loop over the entries has stopped at entry i. */
  function Outcome(x: Index, i: nat, max: nat, tzid: string): Choice
    requires i <= |x.zones|
  {
    if i < |x.zones| then Existing(x.zones[i].tzid) else Chosen(Prefix(tzid) + Decimal.Print(max + 1))
  }

  lemma OutcomeRight(x: Index, i: nat, max: nat, v: Tree, tzid: string, line: PropertyValue -> string)
    requires x.Wf() && TzidOf(v).Some? && NumbersFit(x.children, tzid)
    requires (i, max) == Search(Results(x, v, tzid, line), x.zones, 0, 0, tzid)
    ensures i <= |x.zones| && Right(Outcome(x, i, max, tzid), x.children, tzid, v, line)
  {
    var same := Results(x, v, tzid, line);
    SearchIs(same, x.zones, 0, 0, tzid);
    SearchLargest(same, x, 0, 0, tzid);
    assert forall j :: 0 <= j < i ==> Result(x, j, v, tzid, line) == same[j];
    if i < |x.zones| {
      EntryAt(x, i);
      var child := x.children[Position(x.components, x.zones[i].component)];
      assert child in x.children;
    } else {
      RivalsPassed(x, max, v, tzid, line);
      Suffixed(tzid, max + 1);
      SuffixedIsNew(tzid, max + 1, Tzids(x.children));
    }
  }

  /** icalcomponent_handle_conflicting_vtimezones. */
  method ChooseTzid(comp: Component, v: Component, tzid: string, line: PropertyValue -> string) returns (c: Choice)
    requires comp.Valid() && v.Valid() && comp.Repr !! v.Repr
    requires TzidOf(v.tree) == Some(tzid) && NumbersFit(comp.tree.children, tzid)
    modifies comp.Children()`propertyIterator, v`propertyIterator, v`tree, v.properties
    ensures comp.Valid() && v.Valid() && comp.tree == old(comp.tree) && v.tree == old(v.tree)
    ensures Right(c, comp.tree.children, tzid, v.tree, line)
  {
    ghost var x := IndexOf(comp);
    var i, maxSuffix := FindSameZone(comp, v, tzid, line, x, Results(x, v.tree, tzid, line));
    OutcomeRight(x, i, maxSuffix, v.tree, tzid, line);
    c := if i < |comp.timezones| then Existing(comp.timezones[i].tzid)
         else Chosen(Prefix(tzid) + Decimal.Print(maxSuffix + 1));
  }

  /** The loop over the entries, up to the first one that is the same zone. */
  method FindSameZone(comp: Component, v: Component, tzid: string, line: PropertyValue -> string, ghost x: Index,
      ghost all: seq<int>) returns (i: nat, maxSuffix: nat)
    requires comp.Valid() && v.Valid() && comp.Repr !! v.Repr && x == IndexOf(comp)
    requires all == Results(x, v.tree, tzid, line)
    modifies comp.Children()`propertyIterator, v`propertyIterator, v`tree, v.properties
    ensures comp.Valid() && v.Valid() && v.tree == old(v.tree)
    ensures (i, maxSuffix) == Search(all, x.zones, 0, 0, tzid)
  {
    var length := GetTzidPrefixLen(tzid);
    i, maxSuffix := 0, 0;
    var same := 0;
    while i < |comp.timezones| && same == 0
      invariant i <= |x.zones| && comp.Valid() && v.Valid() && v.tree == old(v.tree)
      invariant Search(all, x.zones, i, maxSuffix, tzid) == Search(all, x.zones, 0, 0, tzid)
      invariant same != 0 ==> (i, maxSuffix) == Search(all, x.zones, 0, 0, tzid)
      decreases |x.zones| - i, same == 0
    {
      same, i, maxSuffix := LookAtEntry(comp, i, v, tzid, length, line, maxSuffix, x, all);
    }
    SearchEnd(all, x.zones, maxSuffix, tzid);
  }

  /** One turn of the loop: an entry whose TZID has the prefix is compared, and counted if it is different. */
  method LookAtEntry(comp: Component, i: nat, v: Component, tzid: string, length: nat, line: PropertyValue -> string,
      max: nat, ghost x: Index, ghost all: seq<int>) returns (same: int, next: nat, max': nat)
    requires comp.Valid() && v.Valid() && comp.Repr !! v.Repr && x == IndexOf(comp)
    requires all == Results(x, v.tree, tzid, line)
    requires i < |x.zones| && length == PrefixLength(tzid)
    modifies comp.Children()`propertyIterator, v`propertyIterator, v`tree, v.properties
    ensures comp.Valid() && v.Valid() && v.tree == old(v.tree)
    ensures next == (if same == 0 then i + 1 else i)
    ensures Search(all, x.zones, next, max', tzid) == Search(all, x.zones, i, max, tzid)
    ensures same != 0 ==> Search(all, x.zones, i, max, tzid) == (next, max')
  {
    var z := comp.timezones[i];
    var rival := HasPrefix(z.tzid, tzid, length);
    ghost var k := ResultIs(x, i, rival, v.tree, tzid, line, all[i]);
    same := CompareIf(rival, comp, k, z.component, v, line);
    next, max' := if same == 0 then i + 1 else i, if same == 0 then NextMax(max, tzid, z.tzid) else max;
  }

  /** What the result is, given whether the prefix is the same. */
  lemma ResultIs(x: Index, i: nat, rival: bool, v: Tree, tzid: string, line: PropertyValue -> string, same: int)
    returns (k: nat)
    requires x.Wf() && i < |x.zones| && (rival <==> Prefix(x.zones[i].tzid) == Prefix(tzid))
    requires same == Result(x, i, v, tzid, line)
    ensures k < |x.components| && x.components[k] == x.zones[i].component
    ensures same == if rival then Serialise.CompareZones(x.children[k], v, line) else 0
  {
    EntryAt(x, i);
    k := Position(x.components, x.zones[i].component);
  }
}
