/**
  A component anywhere in a tree, by the positions on the way to it; what becomes of the whole
  when it is replaced, and when a part of it is moved to another place.
 */
module Paths {
  import opened Wrappers
  import opened Sequences
  import opened Tree

  predicate OnPath(t: Tree, path: seq<nat>)
    decreases |path|
  {
    path == [] || (path[0] < |t.children| && OnPath(t.children[path[0]], path[1..]))
  }

  /** The tree at the end of the path. */
  function At(t: Tree, path: seq<nat>): Tree
    requires OnPath(t, path)
    decreases |path|
  {
    if path == [] then t else At(t.children[path[0]], path[1..])
  }

  /** The tree with another one there. */
  function Replaced(t: Tree, path: seq<nat>, other: Tree): (r: Tree)
    requires OnPath(t, path)
    decreases |path|
  {
    if path == [] then other
    else t.(children := t.children[path[0] := Replaced(t.children[path[0]], path[1..], other)])
  }

  /** As a child, other would be indexed like t. */
  predicate SameZone(other: Tree, t: Tree) {
    IsZone(other) ==> TzidOf(other) == TzidOf(t)
  }

  lemma ReplacedTop(t: Tree, path: seq<nat>, other: Tree)
    requires OnPath(t, path) && other.kind == At(t, path).kind
    ensures Replaced(t, path, other).kind == t.kind
    ensures SameZone(Replaced(t, path, other), t) <==> path != [] || SameZone(other, t)
  {
  }

  /** What is at the end of the path is the other tree; replacing a tree by itself changes nothing. */
  lemma {:induction false} ReplacedAt(t: Tree, path: seq<nat>, other: Tree)
    requires OnPath(t, path)
    ensures OnPath(Replaced(t, path, other), path) && At(Replaced(t, path, other), path) == other
    ensures Replaced(t, path, At(t, path)) == t
    decreases |path|
  {
    if path != [] {
      ReplacedAt(t.children[path[0]], path[1..], other);
    }
  }

  /** At a path that leads elsewhere nothing has changed. */
  lemma {:induction false} ReplacedElsewhere(t: Tree, path: seq<nat>, other: Tree, q: seq<nat>)
    requires OnPath(t, path) && OnPath(t, q) && !(path <= q) && !(q <= path)
    ensures OnPath(Replaced(t, path, other), q) && At(Replaced(t, path, other), q) == At(t, q)
    decreases |path|
  {
    if path[0] == q[0] {
      assert path == [path[0]] + path[1..] && q == [q[0]] + q[1..];
      ReplacedElsewhere(t.children[path[0]], path[1..], other, q[1..]);
    }
  }

  /** The TZIDs looked up in a component are the same after an edit below it that keeps those of its children. */
  lemma EditKeepsTzids(t: Tree, path: seq<nat>, other: Tree)
    requires OnPath(t, path) && path != [] && other.kind == At(t, path).kind
    requires SameZone(other, At(t, path)) || |path| > 1
    ensures Tzids(Replaced(t, path, other).children) == Tzids(t.children)
  {
    var i, child := path[0], t.children[path[0]];
    var changed := Replaced(child, path[1..], other);
    ReplacedTop(child, path[1..], other);
    var children := t.children[i := changed];
    assert child in t.children && children[i] in children;
    forall c | c in t.children && c != child ensures c in children {
      var k :| 0 <= k < |t.children| && t.children[k] == c;
      assert children[k] == c;
    }
    forall c | c in children && c != changed ensures c in t.children {
      var k :| 0 <= k < |children| && children[k] == c;
      assert t.children[k] == c;
    }
  }

  // ------------------------------------------------------------------------- moves

  function WithoutChild(t: Tree, k: nat): (r: Tree)
    requires k < |t.children|
  {
    t.(children := Without(t.children, k))
  }

  function WithChild(t: Tree, c: Tree): Tree {
    t.(children := AddChild(t.children, c))
  }

  function WithoutProperty(t: Tree, k: nat): Tree
    requires k < |t.props|
  {
    t.(props := Without(t.props, k))
  }

  function WithProperty(t: Tree, p: PropertyValue): Tree {
    t.(props := t.props + [p])
  }

  /** Child k of the component at the end of a path is taken out. */
  function ChildLeft(t: Tree, from: seq<nat>, k: nat): Tree
    requires OnPath(t, from) && k < |At(t, from).children|
  {
    Replaced(t, from, WithoutChild(At(t, from), k))
  }

  /** The path to the new place is one that holds once the child is out. */
  predicate CanMoveChild(t: Tree, from: seq<nat>, k: nat, to: seq<nat>) {
    OnPath(t, from) && k < |At(t, from).children| && OnPath(ChildLeft(t, from, k), to)
  }

  function ChildMoved(t: Tree, from: seq<nat>, k: nat, to: seq<nat>): Tree
    requires CanMoveChild(t, from, k, to)
  {
    var left := ChildLeft(t, from, k);
    Replaced(left, to, WithChild(At(left, to), At(t, from).children[k]))
  }

  function PropertyLeft(t: Tree, from: seq<nat>, k: nat): Tree
    requires OnPath(t, from) && k < |At(t, from).props|
  {
    Replaced(t, from, WithoutProperty(At(t, from), k))
  }

  /** A VTIMEZONE there has a TZID already, or the property is none. */
  predicate CanAddProperty(t: Tree, to: seq<nat>, p: PropertyValue)
    requires OnPath(t, to)
  {
    SameZone(WithProperty(At(t, to), p), At(t, to))
  }

  predicate CanMoveProperty(t: Tree, from: seq<nat>, k: nat, to: seq<nat>) {
    OnPath(t, from) && k < |At(t, from).props| && OnPath(PropertyLeft(t, from, k), to)
  }

  function PropertyMoved(t: Tree, from: seq<nat>, k: nat, to: seq<nat>): Tree
    requires CanMoveProperty(t, from, k, to)
  {
    var left := PropertyLeft(t, from, k);
    Replaced(left, to, WithProperty(At(left, to), At(t, from).props[k]))
  }

  /** All that a tree is made of, own telling what there is in a component apart from its children. */
  function Total<T>(t: Tree, own: Tree -> multiset<T>): multiset<T>
    decreases t, 1
  {
    own(t.(children := [])) + TotalOfAll(t.children, own)
  }

  function TotalOfAll<T>(ts: seq<Tree>, own: Tree -> multiset<T>): multiset<T>
    decreases ts, 0
  {
    if ts == [] then multiset{} else Total(ts[0], own) + TotalOfAll(ts[1..], own)
  }

  /** The components of a tree, each with its properties and without its children. */
  function Components(t: Tree): multiset<Tree> {
    Total(t, (bare: Tree) => multiset{bare})
  }

  /** The properties of a tree, wherever they are. */
  function Properties(t: Tree): multiset<PropertyValue> {
    Total(t, (bare: Tree) => multiset(bare.props))
  }

  lemma {:induction false} TotalUpdated<T>(ts: seq<Tree>, i: nat, t: Tree, own: Tree -> multiset<T>)
    requires i < |ts|
    ensures TotalOfAll(ts[i := t], own) + Total(ts[i], own) == TotalOfAll(ts, own) + Total(t, own)
  {
    if i == 0 {
      assert ts[0 := t][1..] == ts[1..];
      Between(Total(t, own), Total(ts[0], own), TotalOfAll(ts[1..], own));
      Between(Total(ts[0], own), Total(t, own), TotalOfAll(ts[1..], own));
      MultisetSwap(Total(t, own), Total(ts[0], own));
    } else {
      var rest, first := ts[1..], Total(ts[0], own);
      assert ts[i := t][1..] == rest[i - 1 := t];
      TotalUpdated(rest, i - 1, t, own);
      MultisetAssoc(first, TotalOfAll(rest[i - 1 := t], own), Total(ts[i], own));
      MultisetAssoc(first, TotalOfAll(rest, own), Total(t, own));
    }
  }

  lemma {:induction false} ReplacedTotal<T>(t: Tree, path: seq<nat>, other: Tree, own: Tree -> multiset<T>)
    requires OnPath(t, path)
    ensures Total(Replaced(t, path, other), own) + Total(At(t, path), own) == Total(t, own) + Total(other, own)
    decreases |path|
  {
    if path == [] {
      MultisetSwap(Total(t, own), Total(other, own));
    } else {
      var child := t.children[path[0]];
      var changed := Replaced(child, path[1..], other);
      ReplacedTotal(child, path[1..], other, own);
      TotalUpdated(t.children, path[0], changed, own);
      Exchange(own(t.(children := [])), TotalOfAll(t.children, own), TotalOfAll(t.children[path[0] := changed], own),
        Total(child, own), Total(changed, own), Total(At(t, path), own), Total(other, own));
    }
  }

  lemma Exchange<T>(bare: multiset<T>, children: multiset<T>, children': multiset<T>,
      child: multiset<T>, child': multiset<T>, part: multiset<T>, part': multiset<T>)
    requires children' + child == children + child' && child' + part == child + part'
    ensures (bare + children') + part == (bare + children) + part'
  {
    assert forall x :: (bare + children')[x] + part[x] == (bare + children)[x] + part'[x] by {
      forall x ensures (bare + children')[x] + part[x] == (bare + children)[x] + part'[x] {
        assert (children' + child)[x] == (children + child')[x] && (child' + part)[x] == (child + part')[x];
      }
    }
  }

  lemma {:induction false} TotalWithout<T>(ts: seq<Tree>, k: nat, own: Tree -> multiset<T>)
    requires k < |ts|
    ensures TotalOfAll(Without(ts, k), own) + Total(ts[k], own) == TotalOfAll(ts, own)
  {
    if k == 0 {
      WithoutFirst(ts);
      MultisetSwap(TotalOfAll(ts[1..], own), Total(ts[0], own));
    } else {
      WithoutTail(ts, k);
      TotalWithout(ts[1..], k - 1, own);
    }
  }

  lemma {:induction false} TotalConcat<T>(ss: seq<Tree>, ts: seq<Tree>, own: Tree -> multiset<T>)
    ensures TotalOfAll(ss + ts, own) == TotalOfAll(ss, own) + TotalOfAll(ts, own)
  {
    if ss == [] {
      assert ss + ts == ts;
    } else {
      assert (ss + ts)[1..] == ss[1..] + ts;
      TotalConcat(ss[1..], ts, own);
    }
  }

  lemma TotalAdded<T>(ts: seq<Tree>, c: Tree, own: Tree -> multiset<T>)
    ensures TotalOfAll(AddChild(ts, c), own) == TotalOfAll(ts, own) + Total(c, own)
  {
    assert TotalOfAll([c], own) == Total(c, own) by {
      assert [c][1..] == [];
    }
    TotalConcat([c], ts, own);
    TotalConcat(ts, [c], own);
    MultisetSwap(TotalOfAll(ts, own), Total(c, own));
  }

  /** What is taken out in one place and put in in another is there still. */
  lemma MovedTotal<T>(t: Tree, from: seq<nat>, a: Tree, to: seq<nat>, b: Tree, part: multiset<T>,
      own: Tree -> multiset<T>)
    requires OnPath(t, from) && OnPath(Replaced(t, from, a), to)
    requires Total(a, own) + part == Total(At(t, from), own)
    requires Total(b, own) == Total(At(Replaced(t, from, a), to), own) + part
    ensures Total(Replaced(Replaced(t, from, a), to, b), own) == Total(t, own)
  {
    var left := Replaced(t, from, a);
    ReplacedTotal(t, from, a, own);
    ReplacedTotal(left, to, b, own);
    Balance(Total(t, own), Total(left, own), Total(Replaced(left, to, b), own), Total(At(t, from), own), Total(a, own),
      Total(At(left, to), own), Total(b, own), part);
  }

  lemma Balance<T>(first: multiset<T>, left: multiset<T>, last: multiset<T>, from: multiset<T>, a: multiset<T>,
      to: multiset<T>, b: multiset<T>, part: multiset<T>)
    requires left + from == first + a && last + to == left + b && a + part == from && b == to + part
    ensures last == first
  {
    forall x ensures last[x] == first[x] {
      assert (left + from)[x] == (first + a)[x] && (last + to)[x] == (left + b)[x];
      assert (a + part)[x] == from[x] && b[x] == (to + part)[x];
    }
  }

  /** A move of a component keeps every component, and with it every property. */
  lemma ChildMoveKeeps(t: Tree, from: seq<nat>, k: nat, to: seq<nat>)
    requires CanMoveChild(t, from, k, to)
    ensures Components(ChildMoved(t, from, k, to)) == Components(t)
    ensures Properties(ChildMoved(t, from, k, to)) == Properties(t)
  {
    ChildMoveTotal(t, from, k, to, (bare: Tree) => multiset{bare});
    ChildMoveTotal(t, from, k, to, (bare: Tree) => multiset(bare.props));
  }

  lemma ChildMoveTotal<T>(t: Tree, from: seq<nat>, k: nat, to: seq<nat>, own: Tree -> multiset<T>)
    requires CanMoveChild(t, from, k, to)
    ensures Total(ChildMoved(t, from, k, to), own) == Total(t, own)
  {
    var source := At(t, from);
    var left := ChildLeft(t, from, k);
    var target, c := At(left, to), source.children[k];
    TotalWithout(source.children, k, own);
    TotalAdded(target.children, c, own);
    MultisetAssoc(own(source.(children := [])), TotalOfAll(Without(source.children, k), own), Total(c, own));
    MultisetAssoc(own(target.(children := [])), TotalOfAll(target.children, own), Total(c, own));
    MovedTotal(t, from, WithoutChild(source, k), to, WithChild(target, c), Total(c, own), own);
  }

  /** A move of a property keeps every property. */
  lemma PropertyMoveKeeps(t: Tree, from: seq<nat>, k: nat, to: seq<nat>)
    requires CanMoveProperty(t, from, k, to)
    ensures Properties(PropertyMoved(t, from, k, to)) == Properties(t)
  {
    var own := (bare: Tree) => multiset(bare.props);
    var source := At(t, from);
    var a := WithoutProperty(source, k);
    var left := PropertyLeft(t, from, k);
    var target, p := At(left, to), source.props[k];
    var b := WithProperty(target, p);
    WithoutMultiset(source.props, k);
    MultisetConcat(target.props, [p]);
    Between(multiset(a.props), multiset([p]), TotalOfAll(source.children, own));
    Between(multiset(target.props), multiset([p]), TotalOfAll(target.children, own));
    MovedTotal(t, from, a, to, b, multiset([p]), own);
  }

  lemma Between<T>(a: multiset<T>, b: multiset<T>, c: multiset<T>)
    ensures (a + b) + c == (a + c) + b
  {
  }
  // ------------------------------------------------------------------------ clones

  lemma {:induction false} TotalReversed<T>(ts: seq<Tree>, own: Tree -> multiset<T>)
    ensures TotalOfAll(Reverse(ts), own) == TotalOfAll(ts, own)
  {
    if ts != [] {
      TotalReversed(ts[1..], own);
      TotalConcat(Reverse(ts[1..]), [ts[0]], own);
      assert [ts[0]][1..] == [];
      MultisetSwap(TotalOfAll(ts[1..], own), Total(ts[0], own));
    }
  }

  lemma {:induction false} TotalSides<T>(ts: seq<Tree>, own: Tree -> multiset<T>)
    ensures TotalOfAll(Filter(ts, IsZone), own) + TotalOfAll(Filter(ts, IsNotZone), own) == TotalOfAll(ts, own)
  {
    if ts != [] {
      TotalSides(ts[1..], own);
      var zones, others := Filter(ts[1..], IsZone), Filter(ts[1..], IsNotZone);
      assert ([ts[0]] + zones)[1..] == zones && ([ts[0]] + others)[1..] == others;
      assert [] + zones == zones && [] + others == others;
    }
  }

  lemma {:induction false} TotalOfClones<T>(ts: seq<Tree>, own: Tree -> multiset<T>)
    ensures TotalOfAll(ClonesOf(ts), own) == TotalOfAll(ts, own)
    decreases ts, 0
  {
    if ts != [] {
      CloneTotal(ts[0], own);
      TotalOfClones(ts[1..], own);
      assert ClonesOf(ts)[1..] == ClonesOf(ts[1..]);
    }
  }

  lemma {:induction false} CloneTotal<T>(t: Tree, own: Tree -> multiset<T>)
    ensures Total(Clone(t), own) == Total(t, own)
    decreases t, 1
  {
    CloneChildrenIs([], t.children);
    TotalOfClones(t.children, own);
    ClonesFilter(t.children);
    var zones, others := Filter(t.children, IsZone), Filter(t.children, IsNotZone);
    TotalConcat(Reverse(ClonesOf(zones)), ClonesOf(others), own);
    EmptyMiddle(Reverse(ClonesOf(zones)), ClonesOf(others));
    TotalReversed(ClonesOf(zones), own);
    TotalSides(ClonesOf(t.children), own);
  }

  /** A clone has the components of the tree, each with its kind and properties as often as there. */
  lemma CloneKeepsAll(t: Tree)
    ensures Components(Clone(t)) == Components(t)
    ensures Properties(Clone(t)) == Properties(t)
  {
    CloneTotal(t, (bare: Tree) => multiset{bare});
    CloneTotal(t, (bare: Tree) => multiset(bare.props));
  }
}
