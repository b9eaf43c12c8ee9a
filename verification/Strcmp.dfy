/** The order of C's strcmp, and the sorting by it that the library leaves to qsort. */
module Strcmp {
  import opened Sequences

  /** The sign of strcmp(a, b). */
  function Compare(a: string, b: string): int {
    if a == "" then (if b == "" then 0 else -1)
    else if b == "" then 1
    else if a[0] < b[0] then -1
    else if a[0] > b[0] then 1
    else Compare(a[1..], b[1..])
  }

  predicate AtMost(a: string, b: string) {
    Compare(a, b) <= 0
  }

  lemma {:induction false} CompareZero(a: string, b: string)
    ensures Compare(a, b) == 0 <==> a == b
  {
    if a != "" && b != "" && a[0] == b[0] {
      CompareZero(a[1..], b[1..]);
      assert a == [a[0]] + a[1..] && b == [b[0]] + b[1..];
    }
  }

  lemma {:induction false} CompareFlip(a: string, b: string)
    ensures Compare(a, b) == -Compare(b, a)
  {
    if a != "" && b != "" && a[0] == b[0] {
      CompareFlip(a[1..], b[1..]);
    }
  }

  lemma {:induction false} Transitive(a: string, b: string, c: string)
    requires AtMost(a, b) && AtMost(b, c)
    ensures AtMost(a, c)
  {
    if a != "" && b != "" && c != "" && a[0] == b[0] && b[0] == c[0] {
      Transitive(a[1..], b[1..], c[1..]);
    }
  }

  lemma Total(a: string, b: string)
    ensures AtMost(a, b) || AtMost(b, a)
  {
    CompareFlip(a, b);
  }

  lemma Antisymmetric(a: string, b: string)
    requires AtMost(a, b) && AtMost(b, a)
    ensures a == b
  {
    CompareFlip(a, b);
    CompareZero(a, b);
  }

  // ------------------------------------------------------------------------ qsort

  predicate Sorted(keys: seq<string>) {
    forall i, j :: 0 <= i < j < |keys| ==> AtMost(keys[i], keys[j])
  }

  /** Where x goes in a sorted sequence. */
  function Place<T>(s: seq<T>, key: T -> string, x: T): (k: nat)
    requires Sorted(Map(s, key))
    ensures k <= |s|
    ensures forall i :: 0 <= i < k ==> AtMost(key(s[i]), key(x))
    ensures k < |s| ==> AtMost(key(x), key(s[k]))
  {
    if s == [] then 0
    else
      assert Map(s[1..], key) == Map(s, key)[1..];
      Total(key(x), key(s[0]));
      if AtMost(key(x), key(s[0])) then 0 else
        1 + Place(s[1..], key, x)
  }

  lemma InsertSorted<T>(s: seq<T>, key: T -> string, x: T, k: nat)
    requires Sorted(Map(s, key)) && k <= |s|
    requires forall i :: 0 <= i < k ==> AtMost(key(s[i]), key(x))
    requires k < |s| ==> AtMost(key(x), key(s[k]))
    ensures Sorted(Map(s[..k] + [x] + s[k..], key))
  {
    var r := s[..k] + [x] + s[k..];
    forall i, j | 0 <= i < j < |r| ensures AtMost(key(r[i]), key(r[j])) {
      var from := if i < k then i else i - 1;
      var to := if j < k then j else j - 1;
      if i != k && j != k {
        assert r[i] == s[from] && r[j] == s[to];
        assert AtMost(Map(s, key)[from], Map(s, key)[to]);
      } else if i == k && j > k + 1 {
        assert AtMost(Map(s, key)[k], Map(s, key)[to]);
        Transitive(key(x), key(s[k]), key(s[to]));
      }
    }
  }

  lemma InsertMultiset<T>(s: seq<T>, x: T, k: nat)
    requires k <= |s|
    ensures multiset(s[..k] + [x] + s[k..]) == multiset(s) + multiset{x}
  {
    assert s == s[..k] + s[k..];
  }

  function Inserted<T>(s: seq<T>, key: T -> string, x: T): (r: seq<T>)
    requires Sorted(Map(s, key))
    ensures Sorted(Map(r, key)) && multiset(r) == multiset(s) + multiset{x}
  {
    var k := Place(s, key, x);
    InsertSorted(s, key, x, k);
    InsertMultiset(s, x, k);
    s[..k] + [x] + s[k..]
  }

  lemma PrefixMultiset<T>(s: seq<T>, n: nat)
    requires n < |s|
    ensures multiset(s[..n + 1]) == multiset(s[..n]) + multiset{s[n]}
  {
    assert s[..n + 1] == s[..n] + [s[n]];
  }

  /** qsort: some arrangement of the elements in the order of their keys. */
  method Sort<T>(s: seq<T>, key: T -> string) returns (r: seq<T>)
    ensures multiset(r) == multiset(s) && Sorted(Map(r, key))
  {
    r := [];
    for n := 0 to |s|
      invariant multiset(r) == multiset(s[..n]) && Sorted(Map(r, key))
    {
      r := Inserted(r, key, s[n]);
      PrefixMultiset(s, n);
    }
    assert s[..|s|] == s;
  }
}
