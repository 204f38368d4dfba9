/** The library sort the modelled programs call (Python's `sorted`, `Array.prototype.sort`, SQL's
    `ORDER BY`), as a function on sequences over any total order, with the facts its callers rely on. */
module Sorting {
  ghost predicate TotalPreorder<T(!new)>(le: (T, T) -> bool) {
    && (forall a, b :: le(a, b) || le(b, a))
    && (forall a, b, c :: le(a, b) && le(b, c) ==> le(a, c))
  }

  ghost predicate TotalOrder<T(!new)>(le: (T, T) -> bool) {
    TotalPreorder(le) && forall a, b :: le(a, b) && le(b, a) ==> a == b
  }

  ghost predicate SortedBy<T>(le: (T, T) -> bool, s: seq<T>) {
    forall i, j :: 0 <= i < j < |s| ==> le(s[i], s[j])
  }

  /** Places `x` after every element that is not above it. */
  function Insert<T>(le: (T, T) -> bool, x: T, s: seq<T>): seq<T> {
    if s == [] then [x]
    else if le(s[0], x) then [s[0]] + Insert(le, x, s[1..])
    else [x] + s
  }

  function Sort<T>(le: (T, T) -> bool, s: seq<T>): seq<T> {
    if s == [] then [] else Insert(le, s[|s| - 1], Sort(le, s[..|s| - 1]))
  }

  lemma {:induction false} SortedCons<T>(le: (T, T) -> bool, head: T, tail: seq<T>)
    requires SortedBy(le, tail) && forall i :: 0 <= i < |tail| ==> le(head, tail[i])
    ensures SortedBy(le, [head] + tail)
  {
    var s := [head] + tail;
    forall i, j | 0 <= i < j < |s| ensures le(s[i], s[j]) {
      assert s[j] == tail[j - 1];
      if i > 0 { assert s[i] == tail[i - 1]; }
    }
  }

  lemma {:induction false} InsertShape<T>(le: (T, T) -> bool, x: T, s: seq<T>) returns (k: nat)
    ensures k <= |s| && Insert(le, x, s) == s[..k] + [x] + s[k..]
    ensures forall i :: 0 <= i < k ==> le(s[i], x)
    ensures k < |s| ==> !le(s[k], x)
  {
    if s == [] || !le(s[0], x) {
      k := 0;
    } else {
      var tail := s[1..];
      var k' := InsertShape(le, x, tail);
      k := k' + 1;
      assert s[..k] == [s[0]] + tail[..k'] && s[k..] == tail[k'..];
      assert forall i :: 1 <= i < |s| ==> s[i] == tail[i - 1];
    }
  }

  lemma {:induction false} AboveStaysAbove<T(!new)>(le: (T, T) -> bool, x: T, s: seq<T>, k: nat, i: nat)
    requires TotalPreorder(le) && SortedBy(le, s) && k <= i < |s| && !le(s[k], x)
    ensures le(x, s[i]) && !le(s[i], x)
  {
    assert k < i ==> le(s[k], s[i]);
  }

  lemma {:induction false} SplicedSorted<T>(le: (T, T) -> bool, s: seq<T>, k: nat, x: T)
    requires k <= |s| && SortedBy(le, s)
    requires forall i :: 0 <= i < k ==> le(s[i], x)
    requires forall i :: k <= i < |s| ==> le(x, s[i])
    ensures SortedBy(le, s[..k] + [x] + s[k..])
  {
    var t := s[..k] + [x] + s[k..];
    assert forall i :: 0 <= i < |t| ==> t[i] == if i < k then s[i] else if i == k then x else s[i - 1];
  }

  /** An insertion splits the sequence at one point: nothing above `x` before it, nothing below after. */
  lemma {:induction false} InsertSplits<T(!new)>(le: (T, T) -> bool, x: T, s: seq<T>) returns (k: nat)
    requires TotalPreorder(le) && SortedBy(le, s)
    ensures k <= |s| && Insert(le, x, s) == s[..k] + [x] + s[k..]
    ensures forall i :: 0 <= i < k ==> le(s[i], x)
    ensures forall i :: k <= i < |s| ==> le(x, s[i]) && !le(s[i], x)
    ensures SortedBy(le, Insert(le, x, s))
  {
    k := InsertShape(le, x, s);
    forall i | k <= i < |s| ensures le(x, s[i]) && !le(s[i], x) { AboveStaysAbove(le, x, s, k, i); }
    SplicedSorted(le, s, k, x);
  }

  lemma {:induction false} InsertContents<T>(le: (T, T) -> bool, x: T, s: seq<T>)
    ensures multiset(Insert(le, x, s)) == multiset(s) + multiset{x} && |Insert(le, x, s)| == |s| + 1
  {
    if s != [] {
      assert s == [s[0]] + s[1..];
      if le(s[0], x) { InsertContents(le, x, s[1..]); }
    }
  }

  lemma {:induction false} SortContents<T>(le: (T, T) -> bool, s: seq<T>)
    ensures multiset(Sort(le, s)) == multiset(s) && |Sort(le, s)| == |s|
  {
    if s != [] {
      var init := s[..|s| - 1];
      SortContents(le, init);
      InsertContents(le, s[|s| - 1], Sort(le, init));
      assert s == init + [s[|s| - 1]];
    }
  }

  lemma {:induction false} SortIsSorted<T(!new)>(le: (T, T) -> bool, s: seq<T>)
    requires TotalPreorder(le)
    ensures SortedBy(le, Sort(le, s)) && multiset(Sort(le, s)) == multiset(s) && |Sort(le, s)| == |s|
  {
    SortContents(le, s);
    if s != [] {
      SortIsSorted(le, s[..|s| - 1]);
      var _ := InsertSplits(le, s[|s| - 1], Sort(le, s[..|s| - 1]));
    }
  }

  lemma {:induction false} SortMembers<T>(le: (T, T) -> bool, s: seq<T>, x: T)
    ensures x in Sort(le, s) <==> x in s
  {
    SortContents(le, s);
    assert x in Sort(le, s) <==> x in multiset(Sort(le, s));
    assert x in s <==> x in multiset(s);
  }

  lemma {:induction false} FirstIsLeast<T(!new)>(le: (T, T) -> bool, s: seq<T>, x: T)
    requires TotalOrder(le) && SortedBy(le, s) && x in s
    ensures le(s[0], x)
  {
    var i :| 0 <= i < |s| && s[i] == x;
    assert le(x, x);
  }

  lemma {:induction false} WithoutFirst<T>(s: seq<T>)
    requires s != []
    ensures multiset(s[1..]) == multiset(s) - multiset{s[0]}
  {
    assert s == [s[0]] + s[1..];
  }

  /** A multiset has one sorted listing. */
  lemma {:induction false} SortedListingUnique<T(!new)>(le: (T, T) -> bool, a: seq<T>, b: seq<T>)
    requires TotalOrder(le) && SortedBy(le, a) && SortedBy(le, b) && multiset(a) == multiset(b)
    ensures a == b
  {
    assert |a| == |multiset(a)| == |multiset(b)| == |b|;
    if a != [] {
      assert a[0] in multiset(a) && b[0] in multiset(b);
      FirstIsLeast(le, a, b[0]);
      FirstIsLeast(le, b, a[0]);
      WithoutFirst(a);
      WithoutFirst(b);
      SortedListingUnique(le, a[1..], b[1..]);
      assert a == [a[0]] + a[1..] && b == [b[0]] + b[1..];
    }
  }

  lemma {:induction false} SortOfSorted<T(!new)>(le: (T, T) -> bool, s: seq<T>)
    requires TotalOrder(le) && SortedBy(le, s)
    ensures Sort(le, s) == s
  {
    SortIsSorted(le, s);
    SortedListingUnique(le, Sort(le, s), s);
  }
}
