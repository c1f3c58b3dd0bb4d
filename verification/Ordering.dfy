/** The order of keys, bytewise as std::string compares them, and sorting by key. */
module Ordering {
  import opened Types

  predicate KeyLess(a: Bytes, b: Bytes) {
    b != [] && (a == [] || a[0] < b[0] || (a[0] == b[0] && KeyLess(a[1..], b[1..])))
  }

  lemma {:induction false} LessIrreflexive(a: Bytes)
    ensures !KeyLess(a, a)
  {
    if a != [] {
      LessIrreflexive(a[1..]);
    }
  }

  lemma {:induction false} LessTransitive(a: Bytes, b: Bytes, c: Bytes)
    requires KeyLess(a, b) && KeyLess(b, c)
    ensures KeyLess(a, c)
  {
    if a != [] && a[0] == b[0] == c[0] {
      LessTransitive(a[1..], b[1..], c[1..]);
    }
  }

  lemma {:induction false} LessTotal(a: Bytes, b: Bytes)
    ensures a == b || KeyLess(a, b) || KeyLess(b, a)
  {
    if a != [] && b != [] {
      LessTotal(a[1..], b[1..]);
      if a[0] == b[0] && a[1..] == b[1..] {
        assert a == [a[0]] + a[1..] == b;
      }
    }
  }

  lemma LessAsymmetric(a: Bytes, b: Bytes)
    requires KeyLess(a, b)
    ensures !KeyLess(b, a)
  {
    if KeyLess(b, a) {
      LessTransitive(a, b, a);
      LessIrreflexive(a);
    }
  }

  ghost predicate IncreasingBy<T>(items: seq<T>, key: T -> Bytes) {
    forall i, j :: 0 <= i < j < |items| ==> KeyLess(key(items[i]), key(items[j]))
  }

  /** Strictly increasing lists with the same members are equal: a sort by distinct keys has one result. */
  lemma {:induction false} IncreasingUnique<T>(a: seq<T>, b: seq<T>, key: T -> Bytes)
    requires IncreasingBy(a, key) && IncreasingBy(b, key)
    requires forall x :: x in a <==> x in b
    ensures a == b
  {
    assert a != [] ==> a[0] in a;
    assert b != [] ==> b[0] in b;
    if a != [] {
      FirstEqual(a, b, key);
      forall x
        ensures x in a[1..] <==> x in b[1..]
      {
        InTail(a, key, x);
        InTail(b, key, x);
      }
      IncreasingUnique(a[1..], b[1..], key);
    }
  }

  lemma FirstEqual<T>(a: seq<T>, b: seq<T>, key: T -> Bytes)
    requires IncreasingBy(a, key) && IncreasingBy(b, key)
    requires a != [] && b != [] && a[0] in b && b[0] in a
    ensures a[0] == b[0]
  {
    var i :| 0 <= i < |b| && b[i] == a[0];
    var j :| 0 <= j < |a| && a[j] == b[0];
    if i > 0 && j > 0 {
      LessAsymmetric(key(a[0]), key(a[j]));
    }
  }

  lemma InTail<T>(a: seq<T>, key: T -> Bytes, x: T)
    requires IncreasingBy(a, key) && a != []
    ensures x in a[1..] <==> x in a && x != a[0]
  {
    assert a == [a[0]] + a[1..];
    if x in a[1..] {
      var i :| 0 < i < |a| && a[i] == x;
      LessIrreflexive(key(x));
    }
  }

  lemma {:induction false} LeastExists(s: set<Bytes>) returns (k: Bytes)
    requires s != {}
    ensures k in s && forall j :: j in s && j != k ==> KeyLess(k, j)
  {
    k :| k in s;
    var rest := s - {k};
    assert forall j :: j in s ==> j == k || j in rest;
    if rest != {} {
      var m := LeastExists(rest);
      LessTotal(k, m);
      var best := if KeyLess(m, k) then m else k;
      forall j | j in s && j != best
        ensures KeyLess(best, j)
      {
        if best == k && j != m {
          LessTransitive(k, m, j);
        }
      }
      k := best;
    }
  }

  ghost function Least(s: set<Bytes>): (k: Bytes)
    requires s != {}
    ensures k in s && forall j :: j in s && j != k ==> KeyLess(k, j)
  {
    assert exists k :: k in s && forall j :: j in s && j != k ==> KeyLess(k, j) by {
      var k := LeastExists(s);
    }
    var k :| k in s && forall j :: j in s && j != k ==> KeyLess(k, j);
    k
  }

  /** The keys of a set, strictly increasing. */
  ghost function SortedKeys(s: set<Bytes>): (ks: seq<Bytes>)
    ensures forall k :: k in ks <==> k in s
    ensures IncreasingBy(ks, (k: Bytes) => k)
    ensures |ks| == |s|
  {
    if s == {} then []
    else
      var k := Least(s);
      [k] + SortedKeys(s - {k})
  }

  /** Sorting by key: a permutation in which no key is followed by a smaller one. */
  method SortBy<T>(items: seq<T>, key: T -> Bytes) returns (sorted: seq<T>)
    ensures multiset(sorted) == multiset(items)
    ensures forall i, j :: 0 <= i < j < |sorted| ==> !KeyLess(key(sorted[j]), key(sorted[i]))
  {
    sorted := [];
    for n := 0 to |items|
      invariant multiset(sorted) == multiset(items[..n])
      invariant forall i, j :: 0 <= i < j < |sorted| ==> !KeyLess(key(sorted[j]), key(sorted[i]))
    {
      var p := 0;
      while p < |sorted| && !KeyLess(key(items[n]), key(sorted[p]))
        invariant p <= |sorted|
        invariant forall i :: 0 <= i < p ==> !KeyLess(key(items[n]), key(sorted[i]))
      {
        p := p + 1;
      }
      InsertKeepsOrder(sorted, items[n], p, key);
      assert sorted == sorted[..p] + sorted[p..];
      assert items[..n + 1] == items[..n] + [items[n]];
      sorted := sorted[..p] + [items[n]] + sorted[p..];
    }
    assert items[..|items|] == items;
  }

  lemma InsertKeepsOrder<T>(s: seq<T>, x: T, p: nat, key: T -> Bytes)
    requires p <= |s|
    requires forall i, j :: 0 <= i < j < |s| ==> !KeyLess(key(s[j]), key(s[i]))
    requires forall i :: 0 <= i < p ==> !KeyLess(key(x), key(s[i]))
    requires p < |s| ==> KeyLess(key(x), key(s[p]))
    ensures var r := s[..p] + [x] + s[p..];
            forall i, j :: 0 <= i < j < |r| ==> !KeyLess(key(r[j]), key(r[i]))
  {
    var r := s[..p] + [x] + s[p..];
    forall i, j | 0 <= i < j < |r|
      ensures !KeyLess(key(r[j]), key(r[i]))
    {
      if i == p {
        var y := s[j - 1];
        if KeyLess(key(y), key(x)) {
          LessTransitive(key(y), key(x), key(s[p]));
          if j == p + 1 {
            LessIrreflexive(key(y));
          }
        }
      }
    }
  }

  /** With pairwise different keys the sorted list is strictly increasing. */
  lemma SortedDistinct<T>(s: seq<T>, key: T -> Bytes)
    requires forall i, j :: 0 <= i < j < |s| ==> !KeyLess(key(s[j]), key(s[i]))
    requires forall i, j :: 0 <= i < j < |s| ==> key(s[i]) != key(s[j])
    ensures IncreasingBy(s, key)
  {
    forall i, j | 0 <= i < j < |s|
      ensures KeyLess(key(s[i]), key(s[j]))
    {
      LessTotal(key(s[i]), key(s[j]));
    }
  }
}
