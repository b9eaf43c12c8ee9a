/** Sequences: concatenation, and taking out or replacing one element. */
module Sequences {

  lemma Assoc<T>(a: seq<T>, b: seq<T>, c: seq<T>)
    ensures (a + b) + c == a + (b + c)
  {
  }

  lemma Snoc<T>(a: seq<T>, x: T, b: seq<T>)
    ensures (a + [x]) + b == a + ([x] + b)
  {
  }

  lemma NothingAfter<T>(s: seq<T>)
    ensures s + [] == s
  {
  }

  lemma EmptyMiddle<T>(a: seq<T>, b: seq<T>)
    ensures a + [] + b == a + b
  {
  }

  lemma Regroup<T>(a: seq<T>, b: seq<T>, c: seq<T>, d: seq<T>)
    ensures a + (b + c) + d == a + b + c + d
    ensures a + b + (c + d) == a + b + c + d
  {
  }

  lemma TakeDrop<T>(s: seq<T>, n: nat)
    requires n <= |s|
    ensures s == s[..n] + s[n..]
  {
  }

  lemma DropOne<T>(s: seq<T>, m: nat)
    requires m < |s|
    ensures s[m..] == [s[m]] + s[m + 1..]
  {
  }

  function Map<A, B>(s: seq<A>, f: A -> B): (r: seq<B>)
    ensures |r| == |s| && forall i :: 0 <= i < |s| ==> r[i] == f(s[i])
  {
    seq(|s|, i requires 0 <= i < |s| => f(s[i]))
  }

  lemma TakeOne<T>(s: seq<T>, m: nat)
    requires m < |s|
    ensures s[..m] + [s[m]] == s[..m + 1]
  {
  }

  /** The first position of x, or the length. */
  function Position<T(==)>(s: seq<T>, x: T): (k: nat)
    ensures k <= |s|
    ensures k < |s| ==> s[k] == x
    ensures forall i :: 0 <= i < k ==> s[i] != x
  {
    if s == [] || s[0] == x then 0 else 1 + Position(s[1..], x)
  }

  lemma PositionIs<T>(s: seq<T>, x: T, k: nat)
    requires k <= |s| && (k < |s| ==> s[k] == x) && forall i :: 0 <= i < k ==> s[i] != x
    ensures Position(s, x) == k
  {
  }

  function Without<T>(s: seq<T>, k: nat): (r: seq<T>)
    requires k < |s|
    ensures |r| == |s| - 1
    ensures forall i :: 0 <= i < |r| ==> r[i] == if i < k then s[i] else s[i + 1]
  {
    s[..k] + s[k + 1..]
  }

  lemma WithoutFirst<T>(s: seq<T>)
    requires s != []
    ensures Without(s, 0) == s[1..]
  {
  }

  lemma WithoutTail<T>(s: seq<T>, k: nat)
    requires 0 < k < |s|
    ensures Without(s, k)[0] == s[0] && Without(s, k)[1..] == Without(s[1..], k - 1)
  {
  }

  lemma WithoutMiddle<T>(a: seq<T>, x: T, b: seq<T>)
    ensures (a + ([x] + b))[|a|] == x && Without(a + ([x] + b), |a|) == a + b
    ensures (a + [x]) + b == a + ([x] + b)
  {
  }

  lemma WithoutInner<T>(a: seq<T>, x: T, b: seq<T>, c: seq<T>, y: T)
    ensures (a + ([x] + b) + c)[|a|] == x
    ensures Without((a + ([x] + b) + c) + [y], |a|) == a + b + (c + [y])
    ensures (a + [x]) + b + c == a + ([x] + b) + c
  {
  }

  lemma UpdateLater<T>(s: seq<T>, i: nat, k: nat, x: T)
    requires i <= k < |s|
    ensures s[k := x][i..] == if k == i then [x] + s[i + 1..] else [s[i]] + s[k := x][i + 1..]
  {
  }

  /** A list of which the first i elements have been dealt with. */
  function Blend<T>(done: seq<T>, todo: seq<T>, i: nat): (r: seq<T>)
    requires |done| == |todo| && i <= |todo|
    ensures |r| == |todo|
  {
    done[..i] + todo[i..]
  }

  lemma UpdateEnds<T>(done: seq<T>, todo: seq<T>)
    requires |done| == |todo|
    ensures Blend(done, todo, 0) == todo && Blend(done, todo, |todo|) == done
  {
  }

  lemma UpdateMiddle<T>(done: seq<T>, todo: seq<T>, i: nat)
    requires |done| == |todo| && i < |todo|
    ensures Blend(done, todo, i)[i] == todo[i]
    ensures Blend(done, todo, i)[i := done[i]] == Blend(done, todo, i + 1)
  {
  }

  lemma MultisetConcat<T>(a: seq<T>, b: seq<T>)
    ensures multiset(a + b) == multiset(a) + multiset(b)
  {
  }

  lemma MultisetSwap<T>(a: multiset<T>, b: multiset<T>)
    ensures a + b == b + a
  {
  }

  lemma MultisetAssoc<T>(a: multiset<T>, b: multiset<T>, c: multiset<T>)
    ensures a + (b + c) == a + b + c
  {
  }

  lemma MultisetCancel<T>(a: multiset<T>, b: multiset<T>, c: multiset<T>)
    requires a + c == b + c
    ensures a == b
  {
    assert a == (a + c) - c && b == (b + c) - c;
  }

  lemma SameElements<T>(s: seq<T>, r: seq<T>, x: T)
    requires multiset(s) == multiset(r)
    ensures x in s <==> x in r
  {
    assert x in s <==> x in multiset(s);
    assert x in r <==> x in multiset(r);
  }

  lemma WithoutMultiset<T>(s: seq<T>, k: nat)
    requires k < |s|
    ensures multiset(s) == multiset(Without(s, k)) + multiset([s[k]])
  {
    assert s == s[..k] + ([s[k]] + s[k + 1..]);
  }
}
