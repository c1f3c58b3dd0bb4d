/** The LRU cache as a list of entries, most recently used first. */
module Lru {
  import opened Types

  datatype Cache<K, V> = Cache(capacity: nat, entries: seq<(K, V)>, hits: nat, misses: nat, evictions: nat)

  predicate Has<K(==), V>(es: seq<(K, V)>, k: K) {
    exists i :: 0 <= i < |es| && es[i].0 == k
  }

  predicate Distinct<K(==), V>(es: seq<(K, V)>) {
    forall i, j :: 0 <= i < j < |es| ==> es[i].0 != es[j].0
  }

  ghost predicate Valid<K, V>(c: Cache<K, V>) {
    Distinct(c.entries) && |c.entries| <= c.capacity
  }

  /** The value of the first entry of a key. */
  function Lookup<K(==), V>(es: seq<(K, V)>, k: K): (v: V)
    requires Has(es, k)
    ensures (k, v) in es
  {
    if es[0].0 == k then es[0].1 else Lookup(es[1..], k)
  }

  /** The list without the entries of a key. */
  function Without<K(==), V>(es: seq<(K, V)>, k: K): seq<(K, V)> {
    if es == [] then []
    else if es[0].0 == k then Without(es[1..], k)
    else [es[0]] + Without(es[1..], k)
  }

  function Empty<K, V>(capacity: nat): Cache<K, V> {
    Cache(capacity, [], 0, 0, 0)
  }

  function Get<K(==), V>(c: Cache<K, V>, k: K): (Cache<K, V>, Option<V>) {
    if Has(c.entries, k) then
      var v := Lookup(c.entries, k);
      (c.(entries := [(k, v)] + Without(c.entries, k), hits := c.hits + 1), Some(v))
    else (c.(misses := c.misses + 1), None)
  }

  function Put<K(==), V>(c: Cache<K, V>, k: K, v: V): Cache<K, V> {
    if c.capacity == 0 then c
    else if Has(c.entries, k) then c.(entries := [(k, v)] + Without(c.entries, k))
    else
      var es := [(k, v)] + c.entries;
      if |es| > c.capacity then c.(entries := es[..|es| - 1], evictions := c.evictions + 1)
      else c.(entries := es)
  }

  function Erase<K(==), V>(c: Cache<K, V>, k: K): Cache<K, V> {
    c.(entries := Without(c.entries, k))
  }

  function Clear<K, V>(c: Cache<K, V>): Cache<K, V> {
    c.(entries := [])
  }

  // Facts about lists of entries

  lemma {:induction false} WithoutAt<K, V>(es: seq<(K, V)>, i: nat)
    requires i < |es| && Distinct(es)
    ensures Without(es, es[i].0) == es[..i] + es[i + 1..]
    ensures Lookup(es, es[i].0) == es[i].1
  {
    var k := es[i].0;
    if i == 0 {
      WithoutAbsent(es[1..], k);
    } else {
      WithoutAt(es[1..], i - 1);
    }
  }

  lemma {:induction false} WithoutAbsent<K, V>(es: seq<(K, V)>, k: K)
    requires !Has(es, k)
    ensures Without(es, k) == es
  {
    if es != [] {
      assert forall i :: 0 <= i < |es| - 1 ==> es[1..][i] == es[i + 1];
      WithoutAbsent(es[1..], k);
    }
  }

  lemma {:induction false} InWithout<K, V>(es: seq<(K, V)>, k: K, e: (K, V))
    ensures e in Without(es, k) <==> e in es && e.0 != k
  {
    if es != [] {
      assert es == [es[0]] + es[1..];
      InWithout(es[1..], k, e);
    }
  }

  lemma WithoutDistinct<K, V>(es: seq<(K, V)>, k: K)
    requires Distinct(es)
    ensures Distinct(Without(es, k)) && !Has(Without(es, k), k)
    ensures |Without(es, k)| == if Has(es, k) then |es| - 1 else |es|
  {
    if Has(es, k) {
      var i :| 0 <= i < |es| && es[i].0 == k;
      WithoutAt(es, i);
    } else {
      WithoutAbsent(es, k);
    }
  }

  lemma HasOfMember<K, V>(es: seq<(K, V)>, e: (K, V))
    requires e in es
    ensures Has(es, e.0)
  {
    var i :| 0 <= i < |es| && es[i] == e;
  }

  /** With distinct keys a membership determines the value found. */
  lemma LookupMember<K, V>(es: seq<(K, V)>, e: (K, V))
    requires e in es && Distinct(es)
    ensures Has(es, e.0) && Lookup(es, e.0) == e.1
  {
    var i :| 0 <= i < |es| && es[i] == e;
    WithoutAt(es, i);
  }

  // Every operation keeps the structure

  lemma GetValid<K, V>(c: Cache<K, V>, k: K)
    requires Valid(c)
    ensures Valid(Get(c, k).0)
  {
    WithoutDistinct(c.entries, k);
  }

  lemma PutValid<K, V>(c: Cache<K, V>, k: K, v: V)
    requires Valid(c)
    ensures Valid(Put(c, k, v))
  {
    WithoutDistinct(c.entries, k);
  }

  lemma EraseValid<K, V>(c: Cache<K, V>, k: K)
    requires Valid(c)
    ensures Valid(Erase(c, k))
  {
    WithoutDistinct(c.entries, k);
  }

  /** What a get or a put can leave in the cache. */
  lemma GetMembers<K, V>(c: Cache<K, V>, k: K, e: (K, V))
    requires e in Get(c, k).0.entries
    ensures e in c.entries
  {
    InWithout(c.entries, k, e);
  }

  lemma PutMembers<K, V>(c: Cache<K, V>, k: K, v: V, e: (K, V))
    requires Valid(c) && e in Put(c, k, v).entries
    ensures e == (k, v) || (e in c.entries && e.0 != k)
  {
    InWithout(c.entries, k, e);
    if c.capacity > 0 && !Has(c.entries, k) && e in c.entries && e.0 == k {
      HasOfMember(c.entries, e);
    }
  }

  // Traces

  datatype CacheOp<K, V> = DoGet(key: K) | DoPut(key: K, value: V) | DoErase(key: K) | DoClear

  function Step<K(==), V>(c: Cache<K, V>, op: CacheOp<K, V>): Cache<K, V> {
    match op
    case DoGet(k) => Get(c, k).0
    case DoPut(k, v) => Put(c, k, v)
    case DoErase(k) => Erase(c, k)
    case DoClear => Clear(c)
  }

  function Run<K(==), V>(c: Cache<K, V>, ops: seq<CacheOp<K, V>>): Cache<K, V> {
    if ops == [] then c else Step(Run(c, ops[..|ops| - 1]), ops[|ops| - 1])
  }

  lemma StepValid<K, V>(c: Cache<K, V>, op: CacheOp<K, V>)
    requires Valid(c)
    ensures Valid(Step(c, op)) && Step(c, op).capacity == c.capacity
  {
    hide Valid;
    match op
    case DoGet(k) => GetValid(c, k);
    case DoPut(k, v) => PutValid(c, k, v);
    case DoErase(k) => EraseValid(c, k);
    case DoClear => EmptyValid(c);
  }

  lemma EmptyValid<K, V>(c: Cache<K, V>)
    ensures Valid(Clear(c))
  {}

  /** After every operation sequence the keys are distinct and the size is within the capacity. */
  lemma {:induction false} RunValid<K, V>(c: Cache<K, V>, ops: seq<CacheOp<K, V>>)
    requires Valid(c)
    ensures Valid(Run(c, ops)) && Run(c, ops).capacity == c.capacity
  {
    hide Valid, Step;
    if ops != [] {
      RunValid(c, ops[..|ops| - 1]);
      StepValid(Run(c, ops[..|ops| - 1]), ops[|ops| - 1]);
    }
  }

  /** Every get is counted once, as a hit or as a miss. */
  function Gets<K, V>(ops: seq<CacheOp<K, V>>): nat {
    if ops == [] then 0 else Gets(ops[..|ops| - 1]) + if ops[|ops| - 1].DoGet? then 1 else 0
  }

  lemma {:induction false} GetsAreCounted<K, V>(c: Cache<K, V>, ops: seq<CacheOp<K, V>>)
    ensures Run(c, ops).hits + Run(c, ops).misses == c.hits + c.misses + Gets(ops)
  {
    if ops != [] {
      GetsAreCounted(c, ops[..|ops| - 1]);
    }
  }
}

/** A larger cache contains a smaller one, at every point of every trace. */
module LruInclusion {
  import opened Types
  import opened Lru

  /** `a` can be obtained from `b` by deleting entries. */
  predicate SubList<T(==)>(a: seq<T>, b: seq<T>) {
    a == [] || (b != [] && ((a[0] == b[0] && SubList(a[1..], b[1..])) || SubList(a, b[1..])))
  }

  lemma {:induction false} SubMember<T>(a: seq<T>, b: seq<T>, x: T)
    requires SubList(a, b) && x in a
    ensures x in b
  {
    if a[0] == b[0] && SubList(a[1..], b[1..]) {
      if x != a[0] {
        SubMember(a[1..], b[1..], x);
      }
    } else {
      SubMember(a, b[1..], x);
    }
  }

  lemma {:induction false} SubLength<T>(a: seq<T>, b: seq<T>)
    requires SubList(a, b)
    ensures |a| <= |b|
  {
    if a != [] {
      if a[0] == b[0] && SubList(a[1..], b[1..]) {
        SubLength(a[1..], b[1..]);
      } else {
        SubLength(a, b[1..]);
      }
    }
  }

  lemma {:induction false} SubTail<T>(a: seq<T>, b: seq<T>)
    requires a != [] && SubList(a, b)
    ensures SubList(a[1..], b)
  {
    if a[0] == b[0] && SubList(a[1..], b[1..]) {
      SubSkip(a[1..], b);
    } else {
      SubTail(a, b[1..]);
      SubSkip(a[1..], b);
    }
  }

  lemma SubSkip<T>(a: seq<T>, b: seq<T>)
    requires b != [] && SubList(a, b[1..])
    ensures SubList(a, b)
  {}

  lemma SubCons<T>(x: T, a: seq<T>, b: seq<T>)
    requires SubList(a, b)
    ensures SubList([x] + a, [x] + b)
  {
    assert ([x] + a)[1..] == a && ([x] + b)[1..] == b;
  }

  lemma {:induction false} SubDropLast<T>(a: seq<T>, b: seq<T>)
    requires a != [] && SubList(a, b)
    ensures b != [] && SubList(a[..|a| - 1], b[..|b| - 1]) && SubList(a[..|a| - 1], b)
  {
    var a', b' := a[..|a| - 1], b[..|b| - 1];
    if |a| > 1 {
      if a[0] == b[0] && SubList(a[1..], b[1..]) {
        SubDropLast(a[1..], b[1..]);
        assert a'[1..] == a[1..][..|a| - 2] && b'[1..] == b[1..][..|b| - 2];
      } else {
        SubDropLast(a, b[1..]);
        assert b'[1..] == b[1..][..|b| - 2];
      }
    }
  }

  lemma {:induction false} SubWithout<K, V>(a: seq<(K, V)>, b: seq<(K, V)>, k: K)
    requires SubList(a, b)
    ensures SubList(Without(a, k), Without(b, k))
  {
    if a != [] {
      if a[0] == b[0] && SubList(a[1..], b[1..]) {
        SubWithout(a[1..], b[1..], k);
        if a[0].0 != k {
          SubCons(a[0], Without(a[1..], k), Without(b[1..], k));
        }
      } else {
        SubWithout(a, b[1..], k);
        if b[0].0 != k {
          assert Without(b, k)[1..] == Without(b[1..], k);
          SubSkip(Without(a, k), Without(b, k));
        }
      }
    }
  }

  /** The smaller cache's list is a subsequence of the larger one's, values included, and the two
      differ by no more entries than the capacities do. */
  ghost predicate Included<K, V>(s: Cache<K, V>, l: Cache<K, V>) {
    && Valid(s) && Valid(l)
    && s.capacity <= l.capacity
    && SubList(s.entries, l.entries)
    && |l.entries| - |s.entries| <= l.capacity - s.capacity
    && s.hits <= l.hits && l.misses <= s.misses
    && (s.capacity > 0 ==> l.evictions <= s.evictions)
  }

  lemma HasInLarger<K, V>(s: Cache<K, V>, l: Cache<K, V>, k: K)
    requires Included(s, l) && Has(s.entries, k)
    ensures Has(l.entries, k) && Lookup(l.entries, k) == Lookup(s.entries, k)
  {
    var v := Lookup(s.entries, k);
    SubMember(s.entries, l.entries, (k, v));
    LookupMember(l.entries, (k, v));
  }

  lemma GetIncluded<K, V>(s: Cache<K, V>, l: Cache<K, V>, k: K)
    requires Included(s, l)
    ensures Included(Get(s, k).0, Get(l, k).0)
  {
    GetValid(s, k);
    GetValid(l, k);
    SubWithout(s.entries, l.entries, k);
    WithoutDistinct(s.entries, k);
    WithoutDistinct(l.entries, k);
    if Has(s.entries, k) {
      HasInLarger(s, l, k);
      SubCons((k, Lookup(s.entries, k)), Without(s.entries, k), Without(l.entries, k));
    } else if Has(l.entries, k) {
      WithoutAbsent(s.entries, k);
      var l' := Get(l, k).0.entries;
      assert l'[1..] == Without(l.entries, k);
      SubSkip(s.entries, l');
    }
  }

  lemma PutIncluded<K, V>(s: Cache<K, V>, l: Cache<K, V>, k: K, v: V)
    requires Included(s, l)
    ensures Included(Put(s, k, v), Put(l, k, v))
  {
    PutValid(s, k, v);
    PutValid(l, k, v);
    if s.capacity > 0 {
      WithoutDistinct(s.entries, k);
      WithoutDistinct(l.entries, k);
      SubWithout(s.entries, l.entries, k);
      SubCons((k, v), Without(s.entries, k), Without(l.entries, k));
      if Has(s.entries, k) {
        HasInLarger(s, l, k);
      } else {
        WithoutAbsent(s.entries, k);
        if !Has(l.entries, k) {
          WithoutAbsent(l.entries, k);
        }
        SubDropLast([(k, v)] + s.entries, [(k, v)] + Without(l.entries, k));
      }
    }
  }

  lemma EraseIncluded<K, V>(s: Cache<K, V>, l: Cache<K, V>, k: K)
    requires Included(s, l)
    ensures Included(Erase(s, k), Erase(l, k))
  {
    SubWithout(s.entries, l.entries, k);
    WithoutDistinct(s.entries, k);
    WithoutDistinct(l.entries, k);
    if Has(s.entries, k) {
      HasInLarger(s, l, k);
    }
  }

  /** LRU inclusion: on a common trace the larger cache holds everything the smaller one holds, has
      at least as many hits and, unless the smaller one has no room at all, at most as many evictions. */
  lemma {:induction false} Inclusion<K, V>(small: nat, large: nat, ops: seq<CacheOp<K, V>>)
    requires small <= large
    ensures Included(Run(Empty(small), ops), Run(Empty(large), ops))
  {
    hide Included, Step;
    if ops == [] {
      EmptyIncluded<K, V>(small, large);
    } else {
      var front, op := ops[..|ops| - 1], ops[|ops| - 1];
      Inclusion(small, large, front);
      StepIncluded(Run(Empty(small), front), Run(Empty(large), front), op);
    }
  }

  lemma EmptyIncluded<K, V>(small: nat, large: nat)
    requires small <= large
    ensures Included(Empty<K, V>(small), Empty<K, V>(large))
  {}

  lemma StepIncluded<K, V>(s: Cache<K, V>, l: Cache<K, V>, op: CacheOp<K, V>)
    requires Included(s, l)
    ensures Included(Step(s, op), Step(l, op))
  {
    match op
    case DoGet(k) => GetIncluded(s, l, k);
    case DoPut(k, v) => PutIncluded(s, l, k, v);
    case DoErase(k) => EraseIncluded(s, l, k);
    case DoClear =>
  }

  /** Without a positive capacity a cache holds nothing and never evicts, whatever is done to it. */
  lemma {:induction false} NoCapacityNoEvictions<K, V>(ops: seq<CacheOp<K, V>>)
    ensures Run(Empty<K, V>(0), ops).entries == [] && Run(Empty<K, V>(0), ops).evictions == 0
  {
    if ops != [] {
      NoCapacityNoEvictions(ops[..|ops| - 1]);
      RunValid(Empty<K, V>(0), ops);
    }
  }

  /** Puts of the keys 0 to n - 1. */
  function Puts<V>(n: nat, v: V): seq<CacheOp<nat, V>> {
    seq(n, i requires 0 <= i < n => DoPut(i, v))
  }

  lemma {:induction false} PutsFit<V>(capacity: nat, n: nat, v: V)
    requires n <= capacity
    ensures var c := Run(Empty<nat, V>(capacity), Puts(n, v));
            && c.capacity == capacity && c.evictions == 0 && |c.entries| == n
            && forall i :: 0 <= i < n ==> c.entries[i].0 < n
  {
    if n > 0 {
      PutsFit(capacity, n - 1, v);
      assert Puts(n, v)[..n - 1] == Puts(n - 1, v);
    }
  }

  /** One put more than there is room for evicts. */
  lemma PutsOverflow<V>(capacity: nat, v: V)
    requires capacity > 0
    ensures Run(Empty<nat, V>(capacity), Puts(capacity + 1, v)).evictions == 1
  {
    PutsFit(capacity, capacity, v);
    assert Puts(capacity + 1, v)[..capacity] == Puts(capacity, v);
  }

  /** So a larger cache evicts at most as often as a smaller one on every trace exactly when the
      smaller one has room for something, or neither has. */
  lemma FewerEvictionsIff<V(!new)>(small: nat, large: nat, v: V)
    requires small <= large
    ensures (forall ops: seq<CacheOp<nat, V>> :: Run(Empty(large), ops).evictions <= Run(Empty(small), ops).evictions)
            <==> small > 0 || large == 0
  {
    hide Run;
    if small > 0 || large == 0 {
      forall ops: seq<CacheOp<nat, V>>
        ensures Run(Empty(large), ops).evictions <= Run(Empty(small), ops).evictions
      {
        Inclusion(small, large, ops);
        RunValid(Empty<nat, V>(small), ops);
      }
    } else {
      PutsOverflow(large, v);
      NoCapacityNoEvictions(Puts(large + 1, v));
    }
  }
}

/** The recency specification: a table of time stamps from which the oldest entry is dropped. */
module LruRecency {
  import opened Types
  import opened Lru

  datatype Stamp<V> = Stamp(value: V, at: nat)

  /** Every cached key with its value and the time of its last successful get or put. */
  datatype Table<K, V> = Table(capacity: nat, rows: map<K, Stamp<V>>, clock: nat)

  lemma {:induction false} OldestAmong<K, V>(rows: map<K, Stamp<V>>, keys: set<K>) returns (k: K)
    requires keys != {} && keys <= rows.Keys
    ensures k in keys && forall j :: j in keys ==> rows[k].at <= rows[j].at
    decreases keys
  {
    k :| k in keys;
    var rest := keys - {k};
    assert forall j :: j in keys ==> j == k || j in rest;
    if rest != {} {
      var m := OldestAmong(rows, rest);
      k := if rows[k].at <= rows[m].at then k else m;
    }
  }

  ghost function Oldest<K(!new), V>(rows: map<K, Stamp<V>>): (k: K)
    requires rows != map[]
    ensures k in rows && forall j :: j in rows ==> rows[k].at <= rows[j].at
  {
    assert exists k :: k in rows && forall j :: j in rows ==> rows[k].at <= rows[j].at by {
      assert rows.Keys != {};
      var k := OldestAmong(rows, rows.Keys);
    }
    var k :| k in rows && forall j :: j in rows ==> rows[k].at <= rows[j].at;
    k
  }

  ghost function TableStep<K(!new), V>(t: Table<K, V>, op: CacheOp<K, V>): Table<K, V> {
    match op
    case DoGet(k) =>
      if k in t.rows then t.(rows := t.rows[k := Stamp(t.rows[k].value, t.clock)], clock := t.clock + 1)
      else t.(clock := t.clock + 1)
    case DoPut(k, v) =>
      if t.capacity == 0 then t.(clock := t.clock + 1)
      else
        var room := if k in t.rows || |t.rows| < t.capacity || t.rows == map[]
            then t.rows else t.rows - {Oldest(t.rows)};
        t.(rows := room[k := Stamp(v, t.clock)], clock := t.clock + 1)
    case DoErase(k) => t.(rows := t.rows - {k}, clock := t.clock + 1)
    case DoClear => t.(rows := map[], clock := t.clock + 1)
  }

  ghost function TableRun<K(!new), V>(t: Table<K, V>, ops: seq<CacheOp<K, V>>): Table<K, V> {
    if ops == [] then t else TableStep(TableRun(t, ops[..|ops| - 1]), ops[|ops| - 1])
  }

  /** The list holds the table's keys and values, in order of decreasing time stamps. */
  ghost predicate Ordered<K, V>(c: Cache<K, V>, t: Table<K, V>) {
    && Valid(c) && c.capacity == t.capacity
    && |c.entries| == |t.rows|
    && (forall i :: 0 <= i < |c.entries| ==>
          && c.entries[i].0 in t.rows
          && t.rows[c.entries[i].0].value == c.entries[i].1
          && t.rows[c.entries[i].0].at < t.clock)
    && (forall i, j :: 0 <= i < j < |c.entries| ==> t.rows[c.entries[i].0].at > t.rows[c.entries[j].0].at)
  }

  ghost function KeySet<K, V>(es: seq<(K, V)>): set<K> {
    set i | 0 <= i < |es| :: es[i].0
  }

  lemma {:induction false} KeySetSize<K, V>(es: seq<(K, V)>)
    requires Distinct(es)
    ensures |KeySet(es)| == |es|
  {
    if es != [] {
      var n := |es| - 1;
      KeySetSize(es[..n]);
      assert KeySet(es) == KeySet(es[..n]) + {es[n].0};
      assert es[n].0 !in KeySet(es[..n]);
    }
  }

  lemma {:induction false} SizeMonotone<T>(a: set<T>, b: set<T>)
    requires a <= b
    ensures |a| <= |b|
    decreases a
  {
    if x :| x in a {
      SizeMonotone(a - {x}, b - {x});
    }
  }

  lemma SubsetSize<T>(a: set<T>, b: set<T>)
    requires a <= b && |a| == |b|
    ensures a == b
  {
    if x: T :| x in b && x !in a {
      assert a <= b - {x};
      SizeMonotone(a, b - {x});
    }
  }

  /** The table has no keys besides those of the list. */
  lemma SameKeys<K, V>(c: Cache<K, V>, t: Table<K, V>, k: K)
    requires Ordered(c, t)
    ensures k in t.rows <==> Has(c.entries, k)
  {
    KeySetSize(c.entries);
    SubsetSize(KeySet(c.entries), t.rows.Keys);
    assert k in t.rows <==> k in KeySet(c.entries);
  }

  lemma DropOrdered<K, V>(c: Cache<K, V>, t: Table<K, V>, i: nat)
    requires Ordered(c, t) && i < |c.entries|
    ensures Ordered(c.(entries := c.entries[..i] + c.entries[i + 1..]), t.(rows := t.rows - {c.entries[i].0}))
  {
    var k := c.entries[i].0;
    assert (t.rows - {k}).Keys == t.rows.Keys - {k};
  }

  lemma InsertOrdered<K, V>(c: Cache<K, V>, t: Table<K, V>, k: K, v: V)
    requires Ordered(c, t) && k !in t.rows && |c.entries| < c.capacity
    ensures Ordered(c.(entries := [(k, v)] + c.entries),
                    t.(rows := t.rows[k := Stamp(v, t.clock)], clock := t.clock + 1))
  {
    assert t.rows[k := Stamp(v, t.clock)].Keys == t.rows.Keys + {k};
  }

  /** Counters do not matter to the order. */
  lemma Recount<K, V>(c: Cache<K, V>, t: Table<K, V>, hits: nat, evictions: nat)
    requires Ordered(c, t)
    ensures Ordered(c.(hits := hits, evictions := evictions), t)
  {}

  /** Bringing key `k` to the front of both. */
  lemma FrontOrdered<K, V>(c: Cache<K, V>, t: Table<K, V>, k: K, v: V, i: nat, hits: nat)
    requires Ordered(c, t) && i < |c.entries| && c.entries[i].0 == k
    ensures Ordered(c.(entries := [(k, v)] + Without(c.entries, k), hits := hits),
                    t.(rows := t.rows[k := Stamp(v, t.clock)], clock := t.clock + 1))
  {
    WithoutAt(c.entries, i);
    DropOrdered(c, t, i);
    var c', t' := c.(entries := Without(c.entries, k)), t.(rows := t.rows - {k});
    InsertOrdered(c', t', k, v);
    var c'' := c'.(entries := [(k, v)] + c'.entries);
    var t'' := t'.(rows := t'.rows[k := Stamp(v, t.clock)], clock := t.clock + 1);
    assert t''.rows == t.rows[k := Stamp(v, t.clock)];
    Recount(c'', t'', hits, c.evictions);
  }

  /** The entry that a full cache evicts is the one touched longest ago. */
  lemma LastIsOldest<K(!new), V>(c: Cache<K, V>, t: Table<K, V>)
    requires Ordered(c, t) && c.entries != []
    ensures t.rows != map[] && Oldest(t.rows) == c.entries[|c.entries| - 1].0
  {
    var n := |c.entries| - 1;
    assert c.entries[n].0 in t.rows;
    var k := Oldest(t.rows);
    SameKeys(c, t, k);
    var i :| 0 <= i < |c.entries| && c.entries[i].0 == k;
  }

  lemma OrderedSizes<K, V>(c: Cache<K, V>, t: Table<K, V>)
    requires Ordered(c, t)
    ensures c.capacity == t.capacity && |c.entries| == |t.rows| <= c.capacity
    ensures |t.rows| == 0 <==> t.rows == map[]
  {}

  lemma LookupAt<K, V>(c: Cache<K, V>, t: Table<K, V>, k: K) returns (i: nat)
    requires Ordered(c, t) && Has(c.entries, k)
    ensures i < |c.entries| && c.entries[i].0 == k && k in t.rows
    ensures Lookup(c.entries, k) == t.rows[k].value
  {
    i :| 0 <= i < |c.entries| && c.entries[i].0 == k;
    WithoutAt(c.entries, i);
  }

  lemma Tick<K, V>(c: Cache<K, V>, t: Table<K, V>, misses: nat)
    requires Ordered(c, t)
    ensures Ordered(c.(misses := misses), t.(clock := t.clock + 1))
    ensures Ordered(Clear(c), t.(rows := map[], clock := t.clock + 1))
  {}

  lemma PutOrdered<K(!new), V>(c: Cache<K, V>, t: Table<K, V>, k: K, v: V)
    requires Ordered(c, t)
    ensures Ordered(Put(c, k, v), TableStep(t, DoPut(k, v)))
  {
    hide Ordered, Oldest, Has;
    SameKeys(c, t, k);
    OrderedSizes(c, t);
    if c.capacity == 0 {
      Tick(c, t, c.misses);
    } else if Has(c.entries, k) {
      var i := LookupAt(c, t, k);
      FrontOrdered(c, t, k, v, i, c.hits);
    } else if |c.entries| < c.capacity {
      InsertOrdered(c, t, k, v);
    } else {
      var n := |c.entries| - 1;
      LastIsOldest(c, t);
      DropOrdered(c, t, n);
      assert c.entries[..n] + c.entries[n + 1..] == c.entries[..n];
      var c', t' := c.(entries := c.entries[..n]), t.(rows := t.rows - {c.entries[n].0});
      InsertOrdered(c', t', k, v);
      Recount(c'.(entries := [(k, v)] + c'.entries),
              t'.(rows := t'.rows[k := Stamp(v, t.clock)], clock := t.clock + 1),
              c.hits, c.evictions + 1);
      assert ([(k, v)] + c.entries)[..n + 1] == [(k, v)] + c.entries[..n];
    }
  }

  /** One operation of the list is one operation of the table, with the same answer. */
  lemma StepOrdered<K(!new), V>(c: Cache<K, V>, t: Table<K, V>, op: CacheOp<K, V>)
    requires Ordered(c, t)
    ensures Ordered(Step(c, op), TableStep(t, op))
    ensures op.DoGet? ==> Get(c, op.key).1 == if op.key in t.rows then Some(t.rows[op.key].value) else None
  {
    hide Ordered, Oldest, Has, Put;
    match op
    case DoGet(k) =>
      SameKeys(c, t, k);
      if Has(c.entries, k) {
        var i := LookupAt(c, t, k);
        FrontOrdered(c, t, k, t.rows[k].value, i, c.hits + 1);
      } else {
        Tick(c, t, c.misses + 1);
      }
    case DoPut(k, v) =>
      PutOrdered(c, t, k, v);
    case DoErase(k) =>
      EraseOrdered(c, t, k);
    case DoClear =>
      Tick(c, t, c.misses);
  }

  lemma EraseOrdered<K, V>(c: Cache<K, V>, t: Table<K, V>, k: K)
    requires Ordered(c, t)
    ensures Ordered(Erase(c, k), t.(rows := t.rows - {k}, clock := t.clock + 1))
  {
    hide Ordered, Has;
    SameKeys(c, t, k);
    if Has(c.entries, k) {
      var i := LookupAt(c, t, k);
      EraseAt(c, t, k, i);
    } else {
      WithoutAbsent(c.entries, k);
      assert t.rows - {k} == t.rows;
      Tick(c, t, c.misses);
    }
  }

  lemma EraseAt<K, V>(c: Cache<K, V>, t: Table<K, V>, k: K, i: nat)
    requires Ordered(c, t) && i < |c.entries| && c.entries[i].0 == k
    ensures Ordered(Erase(c, k), t.(rows := t.rows - {k}, clock := t.clock + 1))
  {
    WithoutAt(c.entries, i);
    DropOrdered(c, t, i);
    Tick(Erase(c, k), t.(rows := t.rows - {k}), c.misses);
  }

  /** After every operation sequence the list is the table sorted by recency. */
  lemma {:induction false} RunOrdered<K(!new), V>(capacity: nat, ops: seq<CacheOp<K, V>>)
    ensures Ordered(Run(Empty(capacity), ops), TableRun(Table(capacity, map[], 0), ops))
  {
    hide Step, TableStep;
    if ops != [] {
      var front := ops[..|ops| - 1];
      RunOrdered(capacity, front);
      StepOrdered(Run(Empty(capacity), front), TableRun(Table(capacity, map[], 0), front), ops[|ops| - 1]);
    }
  }

  // The counters, told from the table

  predicate Finds<K(==), V>(t: Table<K, V>, op: CacheOp<K, V>) {
    op.DoGet? && op.key in t.rows
  }

  predicate Fails<K(==), V>(t: Table<K, V>, op: CacheOp<K, V>) {
    op.DoGet? && op.key !in t.rows
  }

  /** A put that makes some other key leave the table. */
  ghost predicate Evicts<K(!new), V>(t: Table<K, V>, op: CacheOp<K, V>) {
    op.DoPut? && exists j :: j in t.rows && j !in TableStep(t, op).rows
  }

  datatype Counts = Counts(hits: nat, misses: nat, evictions: nat)

  function One(b: bool): nat {
    if b then 1 else 0
  }

  ghost function TableCounts<K(!new), V>(t: Table<K, V>, ops: seq<CacheOp<K, V>>): Counts {
    if ops == [] then Counts(0, 0, 0)
    else
      var front, op := ops[..|ops| - 1], ops[|ops| - 1];
      var before, counts := TableRun(t, front), TableCounts(t, front);
      Counts(counts.hits + One(Finds(before, op)), counts.misses + One(Fails(before, op)),
             counts.evictions + One(Evicts(before, op)))
  }

  lemma PutCounted<K(!new), V>(c: Cache<K, V>, t: Table<K, V>, k: K, v: V)
    requires Ordered(c, t)
    ensures Put(c, k, v).evictions == c.evictions + One(Evicts(t, DoPut(k, v)))
  {
    hide Ordered, Oldest, Has, Lookup, Without;
    SameKeys(c, t, k);
    OrderedSizes(c, t);
    if c.capacity > 0 && !Has(c.entries, k) && |c.entries| == c.capacity {
      var j := Oldest(t.rows);
      assert j in t.rows && j !in TableStep(t, DoPut(k, v)).rows;
    }
  }

  /** Each operation counts what happens to the table: a hit when a get finds its key there, a miss
      when it does not, an eviction when a put makes a key leave. */
  lemma StepCounted<K(!new), V>(c: Cache<K, V>, t: Table<K, V>, op: CacheOp<K, V>)
    requires Ordered(c, t)
    ensures Step(c, op).hits == c.hits + One(Finds(t, op))
    ensures Step(c, op).misses == c.misses + One(Fails(t, op))
    ensures Step(c, op).evictions == c.evictions + One(Evicts(t, op))
  {
    hide Ordered, Oldest, Has, Lookup, Without, TableStep;
    match op
    case DoGet(k) => SameKeys(c, t, k);
    case DoPut(k, v) => PutCounted(c, t, k, v);
    case _ =>
  }

  /** The three counters after every operation sequence; every get is counted once. */
  lemma {:induction false} RunCounted<K(!new), V>(capacity: nat, ops: seq<CacheOp<K, V>>)
    ensures var c := Run(Empty<K, V>(capacity), ops);
            && Counts(c.hits, c.misses, c.evictions) == TableCounts(Table(capacity, map[], 0), ops)
            && c.hits + c.misses == Gets(ops)
  {
    hide Step, TableStep, Finds, Fails, Evicts, Gets;
    GetsAreCounted(Empty<K, V>(capacity), ops);
    if ops != [] {
      var front := ops[..|ops| - 1];
      RunCounted(capacity, front);
      RunOrdered(capacity, front);
      StepCounted(Run(Empty(capacity), front), TableRun(Table(capacity, map[], 0), front), ops[|ops| - 1]);
    }
  }

  // The table, told from the trace

  predicate Touches<K(==), V>(op: CacheOp<K, V>, k: K) {
    (op.DoGet? || op.DoPut?) && op.key == k
  }

  ghost predicate IsLastTouch<K, V>(ops: seq<CacheOp<K, V>>, k: K, i: nat) {
    i < |ops| && Touches(ops[i], k) && forall j :: i < j < |ops| ==> !Touches(ops[j], k)
  }

  lemma RowAfter<K(!new), V>(t: Table<K, V>, op: CacheOp<K, V>, k: K)
    requires t.capacity == 0 ==> t.rows == map[]
    ensures TableStep(t, op).clock == t.clock + 1
    ensures k in TableStep(t, op).rows ==>
              var row := TableStep(t, op).rows[k];
              if op.DoPut? && op.key == k then row == Stamp(op.value, t.clock)
              else
                && k in t.rows && op != DoErase(k) && op != DoClear
                && row == Stamp(t.rows[k].value, if Touches(op, k) then t.clock else t.rows[k].at)
  {
    hide Oldest;
  }

  /** The put that a row goes back to: nothing since has put, erased or cleared away its key. */
  ghost predicate ComesFrom<K, V>(ops: seq<CacheOp<K, V>>, k: K, value: V, i: nat) {
    && i < |ops| && ops[i] == DoPut(k, value)
    && forall j :: i < j < |ops| ==> !(ops[j].DoPut? && ops[j].key == k) && ops[j] != DoErase(k) && ops[j] != DoClear
  }

  /** A row's value is that of the last put of its key, its stamp is the position of the last get or
      put of its key, and the key has been neither erased nor cleared away since that put. */
  lemma {:induction false} RowsTellTheTrace<K(!new), V>(capacity: nat, ops: seq<CacheOp<K, V>>, k: K)
    ensures var t := TableRun<K, V>(Table(capacity, map[], 0), ops);
            && t.clock == |ops|
            && (k in t.rows ==>
                  && IsLastTouch(ops, k, t.rows[k].at)
                  && exists i: nat :: ComesFrom(ops, k, t.rows[k].value, i))
  {
    hide TableStep, Touches, Ordered, Run;
    if ops != [] {
      var n := |ops| - 1;
      var t := TableRun<K, V>(Table(capacity, map[], 0), ops[..n]);
      RowsTellTheTrace(capacity, ops[..n], k);
      RunOrdered<K, V>(capacity, ops[..n]);
      OrderedSizes(Run(Empty(capacity), ops[..n]), t);
      RowAfter(t, ops[n], k);
      if k in TableStep(t, ops[n]).rows {
        OneMoreTouch(ops, k);
        if ops[n].DoPut? && ops[n].key == k {
          assert ComesFrom(ops, k, ops[n].value, n);
        } else {
          var i: nat :| ComesFrom(ops[..n], k, t.rows[k].value, i);
          assert ComesFrom(ops, k, t.rows[k].value, i);
        }
      }
    }
  }

  lemma OneMoreTouch<K, V>(ops: seq<CacheOp<K, V>>, k: K)
    requires ops != []
    ensures var n := |ops| - 1;
            && (Touches(ops[n], k) ==> IsLastTouch(ops, k, n))
            && (!Touches(ops[n], k) ==> forall i: nat :: IsLastTouch(ops[..n], k, i) ==> IsLastTouch(ops, k, i))
            && (ops[n].DoPut? && ops[n].key == k ==> Touches(ops[n], k))
  {}
}

/** Erasing many keys, as expiry does one at a time. */
module LruBulk {
  import opened Lru

  function WithoutAll<K(==), V>(es: seq<(K, V)>, ks: set<K>): seq<(K, V)> {
    if es == [] then []
    else if es[0].0 in ks then WithoutAll(es[1..], ks)
    else [es[0]] + WithoutAll(es[1..], ks)
  }

  lemma {:induction false} WithoutNone<K, V>(es: seq<(K, V)>)
    ensures WithoutAll(es, {}) == es
  {
    if es != [] {
      WithoutNone(es[1..]);
    }
  }

  lemma {:induction false} WithoutOneMore<K, V>(es: seq<(K, V)>, ks: set<K>, k: K)
    ensures Without(WithoutAll(es, ks), k) == WithoutAll(es, ks + {k})
  {
    if es != [] {
      WithoutOneMore(es[1..], ks, k);
      if es[0].0 !in ks {
        assert WithoutAll(es, ks)[1..] == WithoutAll(es[1..], ks);
      }
    }
  }

  lemma {:induction false} InWithoutAll<K, V>(es: seq<(K, V)>, ks: set<K>, e: (K, V))
    ensures e in WithoutAll(es, ks) <==> e in es && e.0 !in ks
  {
    if es != [] {
      assert es == [es[0]] + es[1..];
      InWithoutAll(es[1..], ks, e);
    }
  }

  lemma {:induction false} WithoutAllDistinct<K, V>(es: seq<(K, V)>, ks: set<K>)
    requires Distinct(es)
    ensures Distinct(WithoutAll(es, ks)) && |WithoutAll(es, ks)| <= |es|
  {
    if es != [] {
      WithoutAllDistinct(es[1..], ks);
      forall e | e in WithoutAll(es[1..], ks)
        ensures e.0 != es[0].0
      {
        InWithoutAll(es[1..], ks, e);
        var i :| 0 <= i < |es[1..]| && es[1..][i] == e;
        assert es[i + 1] == e;
      }
    }
  }
}
