/** Sorting by a key, as library sorts do: stable, and determined by the multiset of
    elements whenever equal keys mean equal elements. */
module Sorting {

  predicate LexLeq(a: seq<int>, b: seq<int>) {
    if a == [] then true
    else if b == [] then false
    else if a[0] != b[0] then a[0] < b[0]
    else LexLeq(a[1..], b[1..])
  }

  lemma {:induction false} LexTotal(a: seq<int>, b: seq<int>)
    ensures LexLeq(a, b) || LexLeq(b, a)
  {
    if a != [] && b != [] && a[0] == b[0] { LexTotal(a[1..], b[1..]); }
  }

  lemma {:induction false} LexTransitive(a: seq<int>, b: seq<int>, c: seq<int>)
    requires LexLeq(a, b) && LexLeq(b, c)
    ensures LexLeq(a, c)
  {
    if a != [] && c != [] && a[0] == b[0] == c[0] { LexTransitive(a[1..], b[1..], c[1..]); }
  }

  lemma {:induction false} LexAntisymmetric(a: seq<int>, b: seq<int>)
    requires LexLeq(a, b) && LexLeq(b, a)
    ensures a == b
  {
    if a != [] && b != [] {
      LexAntisymmetric(a[1..], b[1..]);
      assert a == [a[0]] + a[1..] && b == [b[0]] + b[1..];
    }
  }

  predicate SortedBy<T>(s: seq<T>, key: T -> seq<int>) {
    forall i, j :: 0 <= i < j < |s| ==> LexLeq(key(s[i]), key(s[j]))
  }

  /** Inserts after every element whose key is not greater. */
  function Insert<T>(s: seq<T>, x: T, key: T -> seq<int>): (r: seq<T>)
    requires SortedBy(s, key)
    ensures SortedBy(r, key) && multiset(r) == multiset(s) + multiset{x}
  {
    if s == [] then [x]
    else if LexLeq(key(s[|s| - 1]), key(x)) then
      InsertLast(s, x, key);
      s + [x]
    else
      var n := |s| - 1;
      var rest := Insert(s[..n], x, key);
      InsertBefore(s, x, key, rest);
      rest + [s[n]]
  }

  lemma InsertLast<T>(s: seq<T>, x: T, key: T -> seq<int>)
    requires SortedBy(s, key) && s != [] && LexLeq(key(s[|s| - 1]), key(x))
    ensures SortedBy(s + [x], key)
  {
    forall i | 0 <= i < |s| ensures LexLeq(key(s[i]), key(x)) {
      if i < |s| - 1 { LexTransitive(key(s[i]), key(s[|s| - 1]), key(x)); }
    }
  }

  lemma InsertBefore<T>(s: seq<T>, x: T, key: T -> seq<int>, rest: seq<T>)
    requires s != [] && SortedBy(s, key) && !LexLeq(key(s[|s| - 1]), key(x))
    requires SortedBy(rest, key) && multiset(rest) == multiset(s[..|s| - 1]) + multiset{x}
    ensures SortedBy(rest + [s[|s| - 1]], key)
    ensures multiset(rest + [s[|s| - 1]]) == multiset(s) + multiset{x}
  {
    var n := |s| - 1;
    LexTotal(key(s[n]), key(x));
    forall i | 0 <= i < |rest| ensures LexLeq(key(rest[i]), key(s[n])) {
      assert rest[i] in multiset(rest);
      if rest[i] != x {
        assert rest[i] in s[..n];
      }
    }
    assert s == s[..n] + [s[n]];
  }

  function SortBy<T>(s: seq<T>, key: T -> seq<int>): (r: seq<T>)
    ensures SortedBy(r, key) && multiset(r) == multiset(s) && |r| == |s|
  {
    if s == [] then []
    else
      var n := |s| - 1;
      assert s == s[..n] + [s[n]];
      var r := Insert(SortBy(s[..n], key), s[n], key);
      assert |multiset(r)| == |multiset(s)|;
      r
  }

  ghost predicate KeysIdentify<T>(s: seq<T>, key: T -> seq<int>) {
    forall i, j :: 0 <= i < |s| && 0 <= j < |s| && key(s[i]) == key(s[j]) ==> s[i] == s[j]
  }

  lemma LexReflexive(a: seq<int>)
    ensures LexLeq(a, a)
  {
    LexTotal(a, a);
  }

  lemma HeadIsLeast<T>(a: seq<T>, key: T -> seq<int>, x: T)
    requires SortedBy(a, key) && a != [] && x in a
    ensures LexLeq(key(a[0]), key(x))
  {
    var i :| 0 <= i < |a| && a[i] == x;
    LexReflexive(key(x));
  }

  lemma SameHead<T>(a: seq<T>, b: seq<T>, key: T -> seq<int>)
    requires multiset(a) == multiset(b) && a != [] && b != []
    requires SortedBy(a, key) && SortedBy(b, key) && KeysIdentify(a, key)
    ensures a[0] == b[0]
  {
    assert a[0] in multiset(b) && b[0] in multiset(a);
    HeadIsLeast(a, key, b[0]);
    HeadIsLeast(b, key, a[0]);
    LexAntisymmetric(key(a[0]), key(b[0]));
  }

  lemma TailKeepsOrder<T>(a: seq<T>, key: T -> seq<int>)
    requires a != [] && SortedBy(a, key)
    ensures SortedBy(a[1..], key) && multiset(a[1..]) == multiset(a) - multiset{a[0]}
    ensures KeysIdentify(a, key) ==> KeysIdentify(a[1..], key)
  {
    assert a == [a[0]] + a[1..];
    assert forall i :: 0 <= i < |a[1..]| ==> a[1..][i] == a[i + 1];
  }

  lemma SameLength<T>(a: seq<T>, b: seq<T>)
    requires multiset(a) == multiset(b)
    ensures |a| == |b|
  {
    assert |multiset(a)| == |a| && |multiset(b)| == |b|;
  }

  /** A sorted arrangement is unique when equal keys mean equal elements. */
  lemma {:induction false} SortedUnique<T>(a: seq<T>, b: seq<T>, key: T -> seq<int>)
    requires multiset(a) == multiset(b) && SortedBy(a, key) && SortedBy(b, key) && KeysIdentify(a, key)
    ensures a == b
    decreases |a|
  {
    SameLength(a, b);
    if a != [] {
      SameHead(a, b, key);
      TailKeepsOrder(a, key);
      TailKeepsOrder(b, key);
      SortedUnique(a[1..], b[1..], key);
      SameHeadAndTail(a, b);
    }
  }

  lemma SameHeadAndTail<T>(a: seq<T>, b: seq<T>)
    requires a != [] && b != [] && a[0] == b[0] && a[1..] == b[1..]
    ensures a == b
  {
    assert a == [a[0]] + a[1..] && b == [b[0]] + b[1..];
  }
}
