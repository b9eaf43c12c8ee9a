/**
  The pointer-type table of the Perl binding (netical_wrap.c): which class may be passed
  where another type is expected.  The table is sorted lazily; a search goes through a
  table of first letters and an eight-slot cache.

  A class name is a string without the terminating NUL, and a type is non-empty ASCII.
 */
module SwigTable {
  import opened Wrappers
  import opened Sequences
  import Strcmp

  datatype Cast = NoCast | Cast(apply: int -> int)

  /** An equivalent type: an element of the chain of a table entry. */
  class EqNode {
    const name: string
    var cast: Cast

    constructor (name: string, cast: Cast)
      ensures this.name == name && this.cast == cast
    {
      this.name := name;
      this.cast := cast;
    }
  }

  /** SwigPtrType, with its linked list of equivalent types. */
  datatype Entry = Entry(name: string, cast: Cast, chain: seq<EqNode>)

  datatype Slot = Slot(stat: nat, tp: EqNode?, name: string, mapped: string)

  const CACHE_SIZE := 8
  const EMPTY_SLOT := Slot(0, null, "", "")

  /** Buffers for names hold 256 bytes. */
  const BUFFER := 256

  predicate TypeName(s: string) {
    s != "" && forall c <- s :: 1 <= c as int < 128
  }

  function First(s: string): int
    requires s != ""
  {
    s[0] as int
  }

  lemma FirstAscii(s: string)
    requires TypeName(s)
    ensures 1 <= First(s) < 128
  {
    assert s[0] in s;
  }

  // -------------------------------------------------------------- the simple search

  datatype Outcome = Found(tp: EqNode) | Missing | TooLong

  /** The given type with the matched prefix replaced by an equivalent one. */
  function Substituted(equivalent: string, suffix: string): string
    requires |equivalent| < BUFFER
  {
    var room := BUFFER - 1 - |equivalent|;
    equivalent + suffix[..if |suffix| <= room then |suffix| else room]
  }

  function SearchChain(chain: seq<EqNode>, suffix: string, cls: string): Outcome {
    if chain == [] then Missing
    else if |chain[0].name| >= BUFFER - 1 then TooLong
    else if Substituted(chain[0].name, suffix) == cls then Found(chain[0])
    else SearchChain(chain[1..], suffix, cls)
  }

  /** The entries from i on, as long as their names are prefixes of t. */
  function SearchFrom(table: seq<Entry>, i: nat, t: string, cls: string): Outcome
    requires i <= |table|
    decreases |table| - i
  {
    if i == |table| || !(table[i].name <= t) then Missing
    else
      var found := SearchChain(table[i].chain, t[|table[i].name|..], cls);
      if found.Missing? then SearchFrom(table, i + 1, t, cls) else found
  }

  /** The first entry from i on whose name is a prefix of t. */
  function FirstPrefix(table: seq<Entry>, i: nat, t: string): (k: nat)
    requires i <= |table|
    ensures i <= k <= |table|
    decreases |table| - i
  {
    if i == |table| || table[i].name <= t then i else FirstPrefix(table, i + 1, t)
  }

  /**
    The search without first letters and without a cache: from the first entry whose name is
    a prefix of t, through the entries that follow as long as theirs are too.
   */
  function Search(table: seq<Entry>, t: string, cls: string): Outcome {
    SearchFrom(table, FirstPrefix(table, 0, t), t, cls)
  }

  lemma {:induction false} FirstPrefixIs(table: seq<Entry>, i: nat, t: string, k: nat)
    requires i <= k <= |table|
    requires forall j :: i <= j < k ==> !(table[j].name <= t)
    requires k < |table| ==> table[k].name <= t
    ensures FirstPrefix(table, i, t) == k
    decreases k - i
  {
    if i < k {
      FirstPrefixIs(table, i + 1, t, k);
    }
  }

  // ------------------------------------------------------ what the search accepts

  /** What comes after the name in t. */
  function Suffix(name: string, t: string): string {
    if name <= t then t[|name|..] else ""
  }

  /** A name that does not fit in the buffer ends the search. */
  predicate Stops(node: EqNode) {
    |node.name| >= 255
  }

  /** What a buffer keeps of a text. */
  function Buffered(s: string): string {
    if |s| <= 255 then s else s[..255]
  }

  /** The class is t with the name of an entry replaced by that of the node, as far as the buffer goes. */
  predicate Accepts(node: EqNode, suffix: string, cls: string) {
    !Stops(node) && cls == Buffered(node.name + suffix)
  }

  lemma SubstitutedExact(equivalent: string, suffix: string)
    requires |equivalent| < 255
    ensures Substituted(equivalent, suffix) == Buffered(equivalent + suffix)
  {
  }

  /** Node j of entry i makes an object of the class acceptable where t is wanted. */
  predicate Fits(table: seq<Entry>, t: string, cls: string, i: int, j: int) {
    && 0 <= i < |table| && 0 <= j < |table[i].chain|
    && table[i].name <= t && Accepts(table[i].chain[j], Suffix(table[i].name, t), cls)
  }

  /** From entry first on all names up to entry i are prefixes of t. */
  predicate Run(table: seq<Entry>, t: string, first: nat, i: nat)
    requires i < |table|
  {
    forall k :: first <= k <= i ==> table[k].name <= t
  }

  /** No node from entry first on and before node j of entry i is accepted or ends the search. */
  predicate Passed(table: seq<Entry>, t: string, cls: string, first: nat, i: nat, j: nat)
    requires i < |table|
  {
    forall k, l :: first <= k <= i && 0 <= l < |table[k].chain| && (k < i || l < j) ==>
      !Stops(table[k].chain[l]) && !Accepts(table[k].chain[l], Suffix(table[k].name, t), cls)
  }

  /** The search that starts at entry first comes to node j of entry i. */
  predicate ReachedFrom(table: seq<Entry>, t: string, cls: string, first: nat, i: int, j: int) {
    && first <= i < |table| && 0 <= j < |table[i].chain|
    && Run(table, t, first, i) && Passed(table, t, cls, first, i, j)
  }

  predicate Reached(table: seq<Entry>, t: string, cls: string, i: int, j: int) {
    ReachedFrom(table, t, cls, FirstPrefix(table, 0, t), i, j)
  }

  /** The first node that does not let the search go on decides. */
  lemma {:induction false} ChainAt(chain: seq<EqNode>, suffix: string, cls: string, j: nat)
    requires j <= |chain| && forall l :: 0 <= l < j ==> !Stops(chain[l]) && !Accepts(chain[l], suffix, cls)
    ensures SearchChain(chain, suffix, cls) == SearchChain(chain[j..], suffix, cls)
  {
    if j > 0 {
      SubstitutedExact(chain[0].name, suffix);
      ChainAt(chain[1..], suffix, cls, j - 1);
      assert chain[1..][j - 1..] == chain[j..];
    }
  }

  /** A chain without such a node lets the search go on. */
  lemma {:induction false} ChainOutcome(chain: seq<EqNode>, suffix: string, cls: string) returns (j: nat)
    ensures j <= |chain| && forall l :: 0 <= l < j ==> !Stops(chain[l]) && !Accepts(chain[l], suffix, cls)
    ensures j == |chain| ==> SearchChain(chain, suffix, cls) == Missing
    ensures j < |chain| ==> Stops(chain[j]) || Accepts(chain[j], suffix, cls)
    ensures j < |chain| ==> SearchChain(chain, suffix, cls) == if Stops(chain[j]) then TooLong else Found(chain[j])
  {
    if chain != [] && !Stops(chain[0]) {
      SubstitutedExact(chain[0].name, suffix);
    }
    if chain == [] || Stops(chain[0]) || Accepts(chain[0], suffix, cls) {
      j := 0;
    } else {
      j := ChainOutcome(chain[1..], suffix, cls);
      j := j + 1;
    }
  }

  lemma {:induction false} SearchFromAt(table: seq<Entry>, t: string, cls: string, first: nat, i: nat, j: nat)
    requires ReachedFrom(table, t, cls, first, i, j)
    requires Stops(table[i].chain[j]) || Accepts(table[i].chain[j], Suffix(table[i].name, t), cls)
    ensures SearchFrom(table, first, t, cls)
         == if Stops(table[i].chain[j]) then TooLong else Found(table[i].chain[j])
    decreases i - first
  {
    var chain, suffix := table[first].chain, Suffix(table[first].name, t);
    assert table[first].name <= t;
    var l := ChainOutcome(chain, suffix, cls);
    if first < i {
      SearchFromAt(table, t, cls, first + 1, i, j);
    }
  }

  lemma {:induction false} SearchFromOutcome(table: seq<Entry>, t: string, cls: string, first: nat)
    returns (i: nat, j: nat)
    requires first <= |table| && SearchFrom(table, first, t, cls) != Missing
    ensures ReachedFrom(table, t, cls, first, i, j)
    ensures Stops(table[i].chain[j]) || Accepts(table[i].chain[j], Suffix(table[i].name, t), cls)
    decreases |table| - first
  {
    var chain, suffix := table[first].chain, Suffix(table[first].name, t);
    i := first;
    j := ChainOutcome(chain, suffix, cls);
    if j == |chain| {
      i, j := SearchFromOutcome(table, t, cls, first + 1);
    }
  }

  /**
    What the search answers, for any table: a node if and only if it fits and the search comes
    to it, and that a name is too long if and only if it comes to such a name.
   */
  lemma SearchExact(table: seq<Entry>, t: string, cls: string, tp: EqNode)
    ensures Search(table, t, cls) == Found(tp) <==>
            exists i, j :: Fits(table, t, cls, i, j) && Reached(table, t, cls, i, j) && table[i].chain[j] == tp
    ensures Search(table, t, cls) == TooLong <==>
            exists i, j :: Reached(table, t, cls, i, j) && Stops(table[i].chain[j])
  {
    var first := FirstPrefix(table, 0, t);
    forall i, j | Reached(table, t, cls, i, j)
                  && (Stops(table[i].chain[j]) || Accepts(table[i].chain[j], Suffix(table[i].name, t), cls))
      ensures Search(table, t, cls) == if Stops(table[i].chain[j]) then TooLong else Found(table[i].chain[j])
    {
      SearchFromAt(table, t, cls, first, i, j);
    }
    if Search(table, t, cls) != Missing {
      var i, j := SearchFromOutcome(table, t, cls, first);
      assert Reached(table, t, cls, i, j) && table[i].name <= t;
    }
  }

  lemma AcceptedExact(table: seq<Entry>, t: string, cls: string)
    ensures Search(table, t, cls).Found? <==>
            exists i, j :: Fits(table, t, cls, i, j) && Reached(table, t, cls, i, j)
  {
    if Search(table, t, cls).Found? {
      SearchExact(table, t, cls, Search(table, t, cls).tp);
    }
    if i, j :| Fits(table, t, cls, i, j) && Reached(table, t, cls, i, j) {
      SearchExact(table, t, cls, table[i].chain[j]);
    }
  }

  /** A mapping that fits is the answer exactly when the search comes to it. */
  lemma MappingHonoured(table: seq<Entry>, t: string, cls: string, i: nat, j: nat)
    requires Fits(table, t, cls, i, j)
    requires forall k, l :: 0 <= k < |table| && 0 <= l < |table[k].chain| && (k != i || l != j) ==>
               table[k].chain[l] != table[i].chain[j]
    ensures Search(table, t, cls) == Found(table[i].chain[j]) <==> Reached(table, t, cls, i, j)
  {
    SearchExact(table, t, cls, table[i].chain[j]);
    if Search(table, t, cls) == Found(table[i].chain[j]) {
      var k, l :| Fits(table, t, cls, k, l) && Reached(table, t, cls, k, l) && table[k].chain[l] == table[i].chain[j];
      assert k == i && l == j;
    }
  }

  /**
    A mapping that fits need not be honoured: in the sorted table a, aa, ab the search for ab
    stops at aa, and never comes to the mapping of ab.
   */
  lemma RunInterrupted(other: EqNode, node: EqNode)
    requires other.name == "x" && node.name == "c"
    ensures var table := [Entry("a", NoCast, [other]), Entry("aa", NoCast, [other]), Entry("ab", NoCast, [node])];
            && Named(table) && Distinct(table) && InOrder(table)
            && Fits(table, "ab", "c", 2, 0) && Search(table, "ab", "c") == Missing
  {
    var table := [Entry("a", NoCast, [other]), Entry("aa", NoCast, [other]), Entry("ab", NoCast, [node])];
    var keys := Map(table, NameOf);
    assert keys == ["a", "aa", "ab"];
    assert "a"[1..] == "" && "aa"[1..] == "a" && "ab"[1..] == "b";
    assert Strcmp.AtMost("a", "aa") && Strcmp.AtMost("a", "ab") && Strcmp.AtMost("aa", "ab");
    assert "a" <= "ab" && !("aa" <= "ab") && "ab" <= "ab" && "ab"[2..] == "" && "ab"[1..] == "b";
    assert Substituted("x", "b") == "xb" && Substituted("c", "") == "c";
    assert [other][1..] == [] && SearchChain([other], "b", "c") == Missing;
    assert SearchFrom(table, 1, "ab", "c") == Missing;
    assert FirstPrefix(table, 0, "ab") == 0;
  }

  // ------------------------------------------------------------------ sorted tables

  function NameOf(e: Entry): string {
    e.name
  }

  predicate Distinct(table: seq<Entry>) {
    forall i, j :: 0 <= i < j < |table| ==> table[i].name != table[j].name
  }

  predicate Named(table: seq<Entry>) {
    forall i :: 0 <= i < |table| ==> TypeName(table[i].name)
  }

  predicate InOrder(table: seq<Entry>) {
    Strcmp.Sorted(Map(table, NameOf))
  }

  lemma OrderedAt(table: seq<Entry>, i: nat, j: nat)
    requires InOrder(table) && i < j < |table|
    ensures Strcmp.AtMost(table[i].name, table[j].name)
  {
    var keys := Map(table, NameOf);
    assert keys[i] == table[i].name && keys[j] == table[j].name;
  }

  lemma FirstLettersOrdered(table: seq<Entry>, i: nat, j: nat)
    requires InOrder(table) && Named(table) && i <= j < |table|
    ensures First(table[i].name) <= First(table[j].name)
  {
    if i < j {
      OrderedAt(table, i, j);
    }
  }

  lemma {:induction false} CountOnce(s: seq<Entry>, e: Entry)
    requires Distinct(s)
    ensures multiset(s)[e] <= 1
  {
    if s != [] {
      var front := s[..|s| - 1];
      assert s == front + [s[|s| - 1]];
      CountOnce(front, e);
      if s[|s| - 1] == e {
        assert e !in front;
      }
    }
  }

  lemma CountTwice(r: seq<Entry>, i: nat, j: nat)
    requires i < j < |r| && r[i] == r[j]
    ensures multiset(r)[r[i]] >= 2
  {
    assert r == r[..i] + ([r[i]] + (r[i + 1..j] + ([r[j]] + r[j + 1..])));
  }

  /** Rearranging a table keeps its names distinct. */
  lemma DistinctPermuted(r: seq<Entry>, s: seq<Entry>)
    requires multiset(r) == multiset(s) && Distinct(s)
    ensures Distinct(r)
  {
    forall i, j | 0 <= i < j < |r| ensures r[i].name != r[j].name {
      if r[i].name == r[j].name {
        SameElements(r, s, r[i]);
        SameElements(r, s, r[j]);
        CountTwice(r, i, j);
        CountOnce(s, r[i]);
      }
    }
  }

  lemma NamedPermuted(r: seq<Entry>, s: seq<Entry>)
    requires multiset(r) == multiset(s) && Named(s)
    ensures Named(r)
  {
    forall i | 0 <= i < |r| ensures TypeName(r[i].name) {
      SameElements(r, s, r[i]);
    }
  }

  lemma SameFirst(r: seq<Entry>, s: seq<Entry>)
    requires multiset(r) == multiset(s) && Distinct(r) && InOrder(r) && InOrder(s)
    requires r != [] && s != []
    ensures r[0] == s[0]
  {
    SameElements(r, s, s[0]);
    SameElements(r, s, r[0]);
    var i :| 0 <= i < |r| && r[i] == s[0];
    var j :| 0 <= j < |s| && s[j] == r[0];
    if i > 0 && j > 0 {
      OrderedAt(r, 0, i);
      OrderedAt(s, 0, j);
      Strcmp.Antisymmetric(r[0].name, s[0].name);
    }
  }

  lemma TailInOrder(s: seq<Entry>)
    requires s != [] && InOrder(s)
    ensures InOrder(s[1..])
  {
    assert Map(s[1..], NameOf) == Map(s, NameOf)[1..];
  }

  lemma TailMultiset(s: seq<Entry>)
    requires s != []
    ensures multiset(s[1..]) == multiset(s) - multiset{s[0]}
  {
    assert s == [s[0]] + s[1..];
  }

  /** A table has one sorted arrangement, so what a search finds depends on the mappings alone. */
  lemma {:induction false} SortedUnique(r: seq<Entry>, s: seq<Entry>)
    requires multiset(r) == multiset(s) && Distinct(r) && InOrder(r) && InOrder(s)
    ensures r == s
    decreases |s|
  {
    assert |r| == |multiset(r)| == |multiset(s)| == |s|;
    if s != [] {
      SameFirst(r, s);
      TailMultiset(r);
      TailMultiset(s);
      TailInOrder(r);
      TailInOrder(s);
      SortedUnique(r[1..], s[1..]);
      assert r == [r[0]] + r[1..] && s == [s[0]] + s[1..];
    }
  }

  // ------------------------------------------------------------------ first letters

  /** n is the least index whose name starts with the letter ch or a later one. */
  predicate LeastFrom(table: seq<Entry>, ch: int, n: int)
    requires Named(table)
  {
    && 0 <= n <= |table|
    && (forall k :: 0 <= k < n ==> First(table[k].name) < ch)
    && (n < |table| ==> First(table[n].name) >= ch)
  }

  /** n is the least index not below lo whose name starts with ch, or the length. */
  predicate LeastAt(table: seq<Entry>, lo: nat, ch: int, n: int)
    requires Named(table)
  {
    && lo <= n <= |table|
    && (forall k :: lo <= k < n ==> First(table[k].name) != ch)
    && (n < |table| ==> First(table[n].name) == ch)
  }

  predicate StartTable(table: seq<Entry>, start: seq<int>)
    requires Named(table)
  {
    |start| == 256 && forall ch :: 0 <= ch < 256 ==> LeastFrom(table, ch, start[ch])
  }

  lemma PrefixFirst(name: string, t: string)
    requires name != "" && name <= t
    ensures First(name) == First(t)
  {
  }

  lemma BucketBounds(table: seq<Entry>, ch: int, lo: int, hi: int)
    requires Named(table) && LeastFrom(table, ch, lo) && LeastFrom(table, ch + 1, hi)
    ensures lo <= hi
  {
  }

  /** Only entries of the bucket of its first letter can be prefixes of t. */
  lemma OutsideBucket(table: seq<Entry>, t: string, lo: int, hi: int, j: nat)
    requires Named(table) && InOrder(table) && t != ""
    requires LeastFrom(table, First(t), lo) && LeastFrom(table, First(t) + 1, hi)
    requires j < |table| && table[j].name <= t
    ensures lo <= j < hi
  {
    PrefixFirst(table[j].name, t);
    if j >= hi {
      FirstLettersOrdered(table, hi, j);
    }
  }

  /** The first matching entry of the bucket is the first of the whole table. */
  lemma BucketSearch(table: seq<Entry>, t: string, lo: int, hi: int, k: int)
    requires Named(table) && InOrder(table) && t != ""
    requires LeastFrom(table, First(t), lo) && LeastFrom(table, First(t) + 1, hi)
    requires lo <= k <= hi
    requires forall j :: lo <= j < k ==> !(table[j].name <= t)
    requires k < hi ==> table[k].name <= t
    ensures FirstPrefix(table, 0, t) == if k < hi then k else |table|
  {
    var first := if k < hi then k else |table|;
    forall j | 0 <= j < first ensures !(table[j].name <= t) {
      if table[j].name <= t {
        OutsideBucket(table, t, lo, hi, j);
      }
    }
    FirstPrefixIs(table, 0, t, first);
  }

  // ---------------------------------------------------------------------- the state

  ghost function Nodes(table: seq<Entry>): set<EqNode> {
    set e, n | e in table && n in e.chain :: n
  }

  function FindName(table: seq<Entry>, name: string, i: nat): (k: nat)
    requires i <= |table|
    ensures i <= k <= |table|
    ensures k < |table| ==> table[k].name == name
    ensures forall j :: i <= j < k ==> table[j].name != name
    decreases |table| - i
  {
    if i == |table| || table[i].name == name then i else FindName(table, name, i + 1)
  }

  /** A slot in use holds what the simple search finds. */
  predicate Coherent(table: seq<Entry>, slot: Slot) {
    slot.stat != 0 ==> slot.tp != null && Search(table, slot.name, slot.mapped) == Found(slot.tp)
  }

  predicate Matches(slot: Slot, t: string, cls: string) {
    slot.stat != 0 && t == slot.name && cls == slot.mapped
  }

  /** Slot k is among the first i of a cyclic scan. */
  predicate Visited(k: int, origin: int, i: int) {
    (k - origin) % CACHE_SIZE < i
  }

  lemma VisitedStep(k: int, origin: int, i: int)
    requires 0 <= k < CACHE_SIZE && 0 <= origin < CACHE_SIZE && 0 <= i < CACHE_SIZE
    ensures Visited(k, origin, i + 1) ==> Visited(k, origin, i) || k == (origin + i) % CACHE_SIZE
  {
  }

  /** Tables that differ in nothing a search looks at. */
  predicate Alike(a: seq<Entry>, b: seq<Entry>) {
    |a| == |b| && forall i :: 0 <= i < |a| ==> a[i].name == b[i].name && a[i].chain == b[i].chain
  }

  lemma {:induction false} SearchFromAlike(a: seq<Entry>, b: seq<Entry>, i: nat, t: string, cls: string)
    requires Alike(a, b) && i <= |a|
    ensures SearchFrom(a, i, t, cls) == SearchFrom(b, i, t, cls)
    ensures FirstPrefix(a, i, t) == FirstPrefix(b, i, t)
    decreases |a| - i
  {
    if i < |a| {
      SearchFromAlike(a, b, i + 1, t, cls);
    }
  }

  lemma SearchAlike(a: seq<Entry>, b: seq<Entry>, t: string, cls: string)
    requires Alike(a, b)
    ensures Search(a, t, cls) == Search(b, t, cls)
  {
    SearchFromAlike(a, b, 0, t, cls);
    SearchFromAlike(a, b, FirstPrefix(a, 0, t), t, cls);
  }

  lemma OrderAlike(a: seq<Entry>, b: seq<Entry>)
    requires Alike(a, b)
    ensures InOrder(a) ==> InOrder(b)
    ensures Named(a) ==> Named(b)
    ensures Distinct(a) ==> Distinct(b)
  {
    assert Map(a, NameOf) == Map(b, NameOf);
  }

  /** The pointer handed to the caller. */
  function Converted(tp: EqNode, pointer: int): int
    reads tp
  {
    match tp.cast
    case NoCast => pointer
    case Cast(f) => f(pointer)
  }

  /** The error string and the pointer; a pointer that is not stored is None. */
  function Answer(table: seq<Entry>, t: string, cls: string, pointer: int): (Option<string>, Option<int>)
    reads Nodes(table)
  {
    var found := Search(table, t, cls);
    match found
    case Found(tp) => SearchFinds(table, t, cls); (None, Some(Converted(tp, pointer)))
    case Missing => (Some(cls), Some(pointer))
    case TooLong => (Some(cls), None)
  }

  /**
    What the caller gets, for any table: the pointer, changed by the cast of the node the search
    comes to if it has one; no pointer when the search comes to a name that is too long; else the
    pointer as it is, with the error.
   */
  lemma AnswerExact(table: seq<Entry>, t: string, cls: string, pointer: int)
    ensures forall i, j :: Fits(table, t, cls, i, j) && Reached(table, t, cls, i, j) ==>
              && (table[i].chain[j].cast.NoCast? ==> Answer(table, t, cls, pointer) == (None, Some(pointer)))
              && (table[i].chain[j].cast.Cast? ==>
                    Answer(table, t, cls, pointer) == (None, Some(table[i].chain[j].cast.apply(pointer))))
    ensures (forall i, j :: !(Fits(table, t, cls, i, j) && Reached(table, t, cls, i, j))) ==>
              Answer(table, t, cls, pointer)
              == (Some(cls), if LongNameReached(table, t, cls) then None else Some(pointer))
  {
    forall i, j | Fits(table, t, cls, i, j) && Reached(table, t, cls, i, j)
      ensures Search(table, t, cls) == Found(table[i].chain[j])
    {
      SearchExact(table, t, cls, table[i].chain[j]);
    }
    AcceptedExact(table, t, cls);
    LongExact(table, t, cls);
  }

  /** The search comes to a name that is too long. */
  predicate LongNameReached(table: seq<Entry>, t: string, cls: string) {
    exists i, j {:trigger Reached(table, t, cls, i, j)} ::
      0 <= i < |table| && 0 <= j < |table[i].chain| && Reached(table, t, cls, i, j) && Stops(table[i].chain[j])
  }

  lemma LongExact(table: seq<Entry>, t: string, cls: string)
    ensures Search(table, t, cls) == TooLong <==> LongNameReached(table, t, cls)
  {
    if Search(table, t, cls) == TooLong {
      var first := FirstPrefix(table, 0, t);
      var i, j := SearchFromOutcome(table, t, cls, first);
      SearchFromAt(table, t, cls, first, i, j);
      assert Reached(table, t, cls, i, j);
    }
    if LongNameReached(table, t, cls) {
      var i, j :| 0 <= i < |table| && 0 <= j < |table[i].chain|
                  && Reached(table, t, cls, i, j) && Stops(table[i].chain[j]);
      SearchFromAt(table, t, cls, FirstPrefix(table, 0, t), i, j);
    }
  }

  lemma {:induction false} ChainFinds(chain: seq<EqNode>, suffix: string, cls: string)
    ensures var o := SearchChain(chain, suffix, cls); o.Found? ==> o.tp in chain
  {
    if chain != [] {
      ChainFinds(chain[1..], suffix, cls);
    }
  }

  lemma {:induction false} SearchFromFinds(table: seq<Entry>, i: nat, t: string, cls: string)
    requires i <= |table|
    ensures var o := SearchFrom(table, i, t, cls); o.Found? ==> o.tp in Nodes(table)
    decreases |table| - i
  {
    if i < |table| && table[i].name <= t {
      ChainFinds(table[i].chain, t[|table[i].name|..], cls);
      assert table[i] in table;
      SearchFromFinds(table, i + 1, t, cls);
    }
  }

  lemma SearchFinds(table: seq<Entry>, t: string, cls: string)
    ensures var o := Search(table, t, cls); o.Found? ==> o.tp in Nodes(table)
  {
    SearchFromFinds(table, FirstPrefix(table, 0, t), t, cls);
  }

  /** The names the loop of SWIG_RegisterMapping compares: all of a chain but its last. */
  function Compared(e: Entry, k: nat): string
    requires k < |e.chain|
  {
    if k == 0 then e.name else e.chain[k - 1].name
  }

  /** The first position from k on whose compared name is the given one. */
  function KnownAt(e: Entry, equivalent: string, k: nat): (r: nat)
    requires k <= |e.chain|
    ensures k <= r <= |e.chain|
    ensures r < |e.chain| ==> Compared(e, r) == equivalent
    ensures forall j :: k <= j < r ==> Compared(e, j) != equivalent
    decreases |e.chain| - k
  {
    if k == |e.chain| || Compared(e, k) == equivalent then k else KnownAt(e, equivalent, k + 1)
  }

  predicate Known(e: Entry, equivalent: string) {
    KnownAt(e, equivalent, 0) < |e.chain|
  }

  /** A mapping is known when there is one and its name is that of the entry or of a node before the last. */
  lemma KnownExact(e: Entry, equivalent: string)
    ensures Known(e, equivalent) <==>
            e.chain != []
            && (e.name == equivalent || exists j :: 0 <= j < |e.chain| - 1 && e.chain[j].name == equivalent)
  {
    var k := KnownAt(e, equivalent, 0);
    if e.chain != [] && e.name == equivalent {
      assert Compared(e, 0) == equivalent;
    }
    if j :| 0 <= j < |e.chain| - 1 && e.chain[j].name == equivalent {
      assert Compared(e, j + 1) == equivalent;
    }
  }

  /** What registering a known mapping with a cast changes: the cast of the position found. */
  twostate predicate Recast(before: seq<Entry>, new after: seq<Entry>, i: nat, equivalent: string, cast: Cast)
    requires i < |before| && Known(before[i], equivalent)
    reads Nodes(before)
  {
    var k := KnownAt(before[i], equivalent, 0);
    assert before[i] in before && (k > 0 ==> before[i].chain[k - 1] in before[i].chain);
    if cast.NoCast? then
      after == before && forall n :: n in Nodes(before) ==> n.cast == old(n.cast)
    else if k == 0 then
      after == before[i := before[i].(cast := cast)] && forall n :: n in Nodes(before) ==> n.cast == old(n.cast)
    else
      after == before && before[i].chain[k - 1].cast == cast
      && forall n :: n in Nodes(before) && n != before[i].chain[k - 1] ==> n.cast == old(n.cast)
  }

  /** The table after a mapping from origtype to a new node has been added. */
  function Extended(table: seq<Entry>, origtype: string, node: EqNode): seq<Entry> {
    var i := FindName(table, origtype, 0);
    if i == |table| then table + [Entry(origtype, NoCast, [node])]
    else table[i := table[i].(chain := table[i].chain + [node])]
  }

  /** The static variables of the binding. */
  class TypeTable {
    var table: seq<Entry>
    var sorted: bool
    const start: array<int>
    const cache: array<Slot>
    var cacheIndex: nat
    var lastCache: nat

    /** The invariant of every run. */
    ghost predicate Valid()
      reads this, start, cache
    {
      && start.Length == 256 && cache.Length == CACHE_SIZE
      && cacheIndex < CACHE_SIZE && lastCache < CACHE_SIZE
      && Named(table) && Distinct(table)
      && (sorted ==> InOrder(table) && StartTable(table, start[..]))
      && (sorted ==> forall k :: 0 <= k < CACHE_SIZE ==> Coherent(table, cache[k]))
    }

    constructor ()
      ensures Valid() && fresh(start) && fresh(cache)
      ensures table == [] && !sorted
    {
      table, sorted := [], false;
      start := new int[256](_ => 0);
      cache := new Slot[CACHE_SIZE](_ => EMPTY_SLOT);
      cacheIndex, lastCache := 0, 0;
    }

    /** The three loops that fill the table of first letters. */
    method FillStart()
      requires start.Length == 256 && Named(table) && InOrder(table)
      modifies start
      ensures StartTable(table, start[..])
    {
      for i := 0 to 256
        invariant forall c :: 0 <= c < i ==> start[c] == |table|
      {
        start[i] := |table|;
      }
      for i := |table| downto 0
        invariant forall c :: 0 <= c < 256 ==> LeastAt(table, i, c, start[c])
      {
        FirstAscii(table[i].name);
        start[First(table[i].name)] := i;
      }
      ghost var least := start[..];
      assert LeastFrom(table, 255, least[255]) by {
        forall k | 0 <= k < |table| ensures First(table[k].name) < 255 {
          FirstAscii(table[k].name);
        }
        assert LeastAt(table, 0, 255, least[255]);
      }
      for i := 255 downto 0
        invariant forall c :: 0 <= c < i ==> start[c] == least[c]
        invariant forall c :: 0 <= c < 256 ==> LeastAt(table, 0, c, least[c])
        invariant forall c :: i <= c < 256 ==> LeastFrom(table, c, start[c])
      {
        if start[i] > start[i + 1] {
          start[i] := start[i + 1];
        }
      }
    }

    /** The step taken when the table is not marked as sorted. */
    method SortTable()
      requires Valid() && !sorted
      modifies this`table, this`sorted, start, cache
      ensures Valid() && sorted && multiset(table) == multiset(old(table))
    {
      var rearranged := Strcmp.Sort(table, NameOf);
      DistinctPermuted(rearranged, table);
      NamedPermuted(rearranged, table);
      table := rearranged;
      FillStart();
      sorted := true;
      for i := 0 to CACHE_SIZE
        modifies cache
        invariant forall k :: 0 <= k < i ==> cache[k].stat == 0
      {
        cache[i] := cache[i].(stat := 0);
      }
    }

    /** The cyclic scan: every slot is compared, starting from the last one hit. */
    method ScanCache(t: string, cls: string) returns (hit: EqNode?)
      requires Valid() && sorted
      modifies this`lastCache, cache
      ensures Valid()
      ensures hit == null <==> forall k :: 0 <= k < CACHE_SIZE ==> !Matches(old(cache[k]), t, cls)
      ensures hit != null ==> Search(table, t, cls) == Found(hit)
      ensures hit == null ==> lastCache == old(lastCache) && cache[..] == old(cache[..])
    {
      ghost var origin := lastCache;
      var c := lastCache;
      for i := 0 to CACHE_SIZE
        invariant c == lastCache == (origin + i) % CACHE_SIZE
        invariant cache[..] == old(cache[..])
        invariant forall k :: 0 <= k < CACHE_SIZE && Visited(k, origin, i) ==> !Matches(cache[k], t, cls)
      {
        if Matches(cache[c], t, cls) {
          hit := cache[c].tp;
          assert Coherent(table, cache[c]);
          cache[c] := cache[c].(stat := cache[c].stat + 1);
          return;
        }
        forall k | 0 <= k < CACHE_SIZE && Visited(k, origin, i + 1) ensures k == c || Visited(k, origin, i) {
          VisitedStep(k, origin, i);
        }
        lastCache := (lastCache + 1) % CACHE_SIZE;
        c := if lastCache == 0 then 0 else c + 1;
      }
      assert forall k :: 0 <= k < CACHE_SIZE ==> Visited(k, origin, CACHE_SIZE);
      hit := null;
    }

    /** The loop over the equivalent types of one entry. */
    method WalkChain(chain: seq<EqNode>, suffix: string, cls: string) returns (found: Outcome)
      ensures found == SearchChain(chain, suffix, cls)
    {
      var i := 0;
      while i < |chain|
        invariant 0 <= i <= |chain|
        invariant SearchChain(chain[i..], suffix, cls) == SearchChain(chain, suffix, cls)
      {
        if |chain[i].name| >= BUFFER - 1 {
          return TooLong;
        }
        if Substituted(chain[i].name, suffix) == cls {
          return Found(chain[i]);
        }
        assert chain[i..][1..] == chain[i + 1..];
        i := i + 1;
      }
      return Missing;
    }

    /** The search through the bucket of the first letter; the table's length when it fails. */
    method FindInBucket(t: string) returns (k: nat)
      requires Valid() && sorted && TypeName(t)
      ensures k == FirstPrefix(table, 0, t)
    {
      FirstAscii(t);
      k := start[First(t)];
      var end := start[First(t) + 1];
      ghost var lo := k;
      assert LeastFrom(table, First(t), start[..][First(t)]) && LeastFrom(table, First(t) + 1, start[..][First(t) + 1]);
      BucketBounds(table, First(t), k, end);
      while k < end && !(table[k].name <= t)
        invariant lo <= k <= end
        invariant forall j :: lo <= j < k ==> !(table[j].name <= t)
      {
        k := k + 1;
      }
      BucketSearch(table, t, lo, end, k);
      if k >= end {
        k := |table|;
      }
    }

    /** The search through the bucket and the entries that follow, not going past the table. */
    method SlowSearch(t: string, cls: string) returns (found: Outcome)
      requires Valid() && sorted && TypeName(t)
      ensures found == Search(table, t, cls)
    {
      var k := FindInBucket(t);
      while k < |table| && table[k].name <= t
        invariant 0 <= k <= |table|
        invariant SearchFrom(table, k, t, cls) == Search(table, t, cls)
      {
        found := WalkChain(table[k].chain, t[|table[k].name|..], cls);
        if !found.Missing? {
          return found;
        }
        k := k + 1;
      }
      return Missing;
    }

    /**
      SWIG_GetPtr, for an object of class cls that holds a pointer, and a wanted type or none.
      The answer is that of the simple search through the sorted table, cached or not.
     */
    method GetPtr(pointer: int, cls: string, wanted: Option<string>)
      returns (error: Option<string>, ptr: Option<int>)
      requires Valid()
      requires wanted.Some? ==> TypeName(wanted.value) && |wanted.value| < BUFFER
      modifies this`table, this`sorted, this`cacheIndex, this`lastCache, start, cache
      ensures Valid() && multiset(table) == multiset(old(table))
      ensures old(sorted) ==> sorted && table == old(table)
      ensures wanted == None || wanted == Some(cls) ==> error == None && ptr == Some(pointer)
      ensures wanted.Some? && wanted.value != cls ==>
        sorted && (error, ptr) == Answer(table, wanted.value, cls, pointer)
      ensures wanted.Some? && wanted.value != cls ==>
        (error == None <==>
           exists i, j :: Fits(table, wanted.value, cls, i, j) && Reached(table, wanted.value, cls, i, j))
      ensures wanted.Some? && wanted.value != cls ==>
        forall i, j :: Fits(table, wanted.value, cls, i, j) && Reached(table, wanted.value, cls, i, j) ==>
          && (table[i].chain[j].cast.NoCast? ==> ptr == Some(pointer))
          && (table[i].chain[j].cast.Cast? ==> ptr == Some(table[i].chain[j].cast.apply(pointer)))
      ensures wanted.Some? && wanted.value != cls && error != None ==>
        error == Some(cls) && ptr == if LongNameReached(table, wanted.value, cls) then None else Some(pointer)
    {
      if wanted == None || wanted == Some(cls) {
        return None, Some(pointer);
      }
      var t := wanted.value;
      if !sorted {
        SortTable();
      }
      AcceptedExact(table, t, cls);
      error, ptr := Ask(pointer, cls, t);
      AnswerExact(table, t, cls, pointer);
    }

    /** The cache first, then the search, whose result goes into the cache. */
    method Ask(pointer: int, cls: string, t: string) returns (error: Option<string>, ptr: Option<int>)
      requires Valid() && sorted && TypeName(t) && |t| < BUFFER
      modifies this`cacheIndex, this`lastCache, cache
      ensures Valid() && (error, ptr) == Answer(table, t, cls, pointer)
    {
      SearchFinds(table, t, cls);
      var hit := ScanCache(t, cls);
      if hit != null {
        return None, Some(Converted(hit, pointer));
      }
      var found := SlowSearch(t, cls);
      match found
      case TooLong =>
        return Some(cls), None;
      case Missing =>
        return Some(cls), Some(pointer);
      case Found(tp) =>
        error, ptr := None, Some(Converted(tp, pointer));
        cache[cacheIndex] := Slot(1, tp, t, cls);
        cacheIndex := cacheIndex % CACHE_SIZE;
    }

    /** SWIG_RegisterMapping; added is the node it allocates, if it does. */
    method RegisterMapping(origtype: string, equivalent: string, cast: Cast) returns (ghost added: EqNode?)
      requires Valid() && TypeName(origtype)
      modifies this`table, this`sorted, Nodes(table)
      ensures Valid()
      ensures added == null <==>
        var i := FindName(old(table), origtype, 0); i < |old(table)| && Known(old(table)[i], equivalent)
      ensures added != null ==>
        && fresh(added) && added.name == equivalent && added.cast == cast && !sorted
        && table == Extended(old(table), origtype, added)
        && forall n :: n in Nodes(old(table)) ==> n.cast == old(n.cast)
      ensures added == null ==>
        sorted == old(sorted) && Recast(old(table), table, FindName(old(table), origtype, 0), equivalent, cast)
    {
      var i := FindName(table, origtype, 0);
      if i == |table| {
        var first := new EqNode(equivalent, cast);
        table := table + [Entry(origtype, NoCast, [first])];
        sorted := false;
        return first;
      }
      added := RegisterInChain(i, equivalent, cast);
    }

    /** A compared name is the new one: its cast is overwritten. */
    method ChangeCast(i: nat, k: nat, cast: Cast)
      requires Valid() && i < |table| && k < |table[i].chain| && cast.Cast?
      modifies this`table, Nodes(table)
      ensures Valid()
      ensures k == 0 ==> table == old(table)[i := old(table)[i].(cast := cast)]
                         && forall n :: n in Nodes(old(table)) ==> n.cast == old(n.cast)
      ensures k > 0 ==> table == old(table) && table[i].chain[k - 1].cast == cast
      ensures k > 0 ==> forall n :: n in Nodes(table) && n != table[i].chain[k - 1] ==> n.cast == old(n.cast)
    {
      var e := table[i];
      assert e in table;
      if k == 0 {
        ghost var before := table;
        table := table[i := e.(cast := cast)];
        OrderAlike(before, table);
        forall slot | slot in cache[..] && Coherent(before, slot) ensures Coherent(table, slot) {
          SearchAlike(before, table, slot.name, slot.mapped);
        }
      } else {
        assert e.chain[k - 1] in e.chain;
        e.chain[k - 1].cast := cast;
      }
    }

    /** The walk along the chain of an entry that exists. */
    method RegisterInChain(i: nat, equivalent: string, cast: Cast) returns (ghost added: EqNode?)
      requires Valid() && i < |table|
      modifies this`table, this`sorted, Nodes(table)
      ensures Valid()
      ensures added == null <==> Known(old(table)[i], equivalent)
      ensures added != null ==>
        && fresh(added) && added.name == equivalent && added.cast == cast && !sorted
        && table == old(table)[i := old(table)[i].(chain := old(table)[i].chain + [added])]
        && forall n :: n in Nodes(old(table)) ==> n.cast == old(n.cast)
      ensures added == null ==> sorted == old(sorted) && Recast(old(table), table, i, equivalent, cast)
    {
      var e := table[i];
      assert e in table;
      var k := 0;
      while k < |e.chain|
        invariant 0 <= k <= |e.chain|
        invariant KnownAt(e, equivalent, k) == KnownAt(e, equivalent, 0)
      {
        if Compared(e, k) == equivalent {
          if cast.Cast? {
            ChangeCast(i, k, cast);
          }
          return null;
        }
        k := k + 1;
      }
      var last := new EqNode(equivalent, cast);
      table := table[i := e.(chain := e.chain + [last])];
      sorted := false;
      return last;
    }
  }

  /** Asking again gives the same answer, from the cache or not. */
  method AskTwice(types: TypeTable, pointer: int, cls: string, t: string)
    returns (first: (Option<string>, Option<int>), second: (Option<string>, Option<int>))
    requires types.Valid() && TypeName(t) && |t| < BUFFER
    modifies types, types.start, types.cache
    ensures types.Valid() && first == second
  {
    var error, ptr := types.GetPtr(pointer, cls, Some(t));
    first := (error, ptr);
    error, ptr := types.GetPtr(pointer, cls, Some(t));
    second := (error, ptr);
    SearchFinds(types.table, t, cls);
  }

  /** The name is that of an entry, and it is registered as equivalent to itself when it has other equivalents. */
  predicate KnownAsItself(table: seq<Entry>, origtype: string, equivalent: string) {
    var i := FindName(table, origtype, 0);
    i < |table| && table[i].chain != [] && origtype == equivalent
  }

  /**
    After a mapping has been registered with a cast, a pointer that is accepted because of its
    node is cast.  Only a name that is equivalent to itself may get no node, its cast going
    where no search looks.
   */
  method RegisterAndGet(types: TypeTable, origtype: string, equivalent: string, f: int -> int, pointer: int,
      cls: string, t: string) returns (error: Option<string>, ptr: Option<int>, ghost node: EqNode?)
    requires types.Valid() && TypeName(origtype) && TypeName(t) && |t| < BUFFER && t != cls
    modifies types, types.start, types.cache, Nodes(types.table)
    ensures types.Valid() && (node == null <==> old(KnownAsItself(types.table, origtype, equivalent)))
    ensures node != null ==> node.name == equivalent
    ensures forall i, j :: Fits(types.table, t, cls, i, j) && Reached(types.table, t, cls, i, j)
                           && types.table[i].chain[j] == node
              ==> error == None && ptr == Some(f(pointer))
  {
    ghost var before, i := types.table, FindName(types.table, origtype, 0);
    node := types.RegisterMapping(origtype, equivalent, Cast(f));
    if node == null {
      ghost var k := KnownAt(before[i], equivalent, 0);
      node := if k > 0 then before[i].chain[k - 1] else null;
    }
    error, ptr := types.GetPtr(pointer, cls, Some(t));
  }

  /** Two sorted tables with the same mappings answer alike. */
  lemma AnswerOfMappings(a: seq<Entry>, b: seq<Entry>, t: string, cls: string, pointer: int)
    requires multiset(a) == multiset(b) && Distinct(a) && InOrder(a) && InOrder(b)
    ensures Answer(a, t, cls, pointer) == Answer(b, t, cls, pointer)
  {
    SortedUnique(a, b);
  }
}
