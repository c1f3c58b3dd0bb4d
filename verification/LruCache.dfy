/** The cache object: a list of nodes, an index from keys to nodes of that list, and counters. */
module LruCache {
  import opened Types
  import Lru

  /** A list node; the index refers to it by identity wherever in the list it moves. */
  class Node<K, V> {
    const key: K
    var value: V

    constructor (key: K, value: V)
      ensures this.key == key && this.value == value
    {
      this.key := key;
      this.value := value;
    }
  }

  ghost function Pairs<K, V>(nodes: seq<Node<K, V>>): (es: seq<(K, V)>)
    reads nodes
    ensures |es| == |nodes|
    ensures forall i :: 0 <= i < |nodes| ==> es[i] == (nodes[i].key, nodes[i].value)
  {
    seq(|nodes|, i requires 0 <= i < |nodes| reads nodes => (nodes[i].key, nodes[i].value))
  }

  /** List and index agree: distinct keys, and the index maps exactly them to their own nodes. */
  ghost predicate Linked<K, V>(nodes: seq<Node<K, V>>, index: map<K, Node<K, V>>) {
    && (forall i, j :: 0 <= i < j < |nodes| ==> nodes[i].key != nodes[j].key)
    && (forall i :: 0 <= i < |nodes| ==> nodes[i].key in index && index[nodes[i].key] == nodes[i])
    && (forall k :: k in index ==> index[k] in nodes && index[k].key == k)
  }

  lemma LinkedDrop<K, V>(nodes: seq<Node<K, V>>, index: map<K, Node<K, V>>, i: nat)
    requires Linked(nodes, index) && i < |nodes|
    ensures Linked(nodes[..i] + nodes[i + 1..], index - {nodes[i].key})
    ensures forall n :: n in nodes[..i] + nodes[i + 1..] ==> n in nodes
  {
    var rest, index' := nodes[..i] + nodes[i + 1..], index - {nodes[i].key};
    forall k | k in index'
      ensures index'[k] in rest && index'[k].key == k
    {
      var j :| 0 <= j < |nodes| && nodes[j] == index[k];
      assert nodes[j] == if j < i then rest[j] else rest[j - 1];
    }
  }

  lemma LinkedPush<K, V>(nodes: seq<Node<K, V>>, index: map<K, Node<K, V>>, node: Node<K, V>)
    requires Linked(nodes, index) && node.key !in index
    ensures Linked([node] + nodes, index[node.key := node])
  {}

  lemma LinkedMove<K, V>(nodes: seq<Node<K, V>>, index: map<K, Node<K, V>>, i: nat)
    requires Linked(nodes, index) && i < |nodes|
    ensures Linked([nodes[i]] + nodes[..i] + nodes[i + 1..], index)
    ensures forall n :: n in [nodes[i]] + nodes[..i] + nodes[i + 1..] <==> n in nodes
  {
    hide Linked;
    var node, rest := nodes[i], nodes[..i] + nodes[i + 1..];
    LinkedDrop(nodes, index, i);
    LinkedPush(rest, index - {node.key}, node);
    LinkedAt(nodes, index, i);
    MoveMembers(nodes, i);
  }

  lemma LinkedAt<K, V>(nodes: seq<Node<K, V>>, index: map<K, Node<K, V>>, i: nat)
    requires Linked(nodes, index) && i < |nodes|
    ensures (index - {nodes[i].key})[nodes[i].key := nodes[i]] == index
  {}

  lemma MoveMembers<T>(s: seq<T>, i: nat)
    requires i < |s|
    ensures [s[i]] + s[..i] + s[i + 1..] == [s[i]] + (s[..i] + s[i + 1..])
    ensures forall x :: x in [s[i]] + s[..i] + s[i + 1..] <==> x in s
  {
    assert s == s[..i] + [s[i]] + s[i + 1..];
  }

  /** The index answers exactly for the keys of the list. */
  lemma LinkedKeys<K, V>(nodes: seq<Node<K, V>>, index: map<K, Node<K, V>>)
    requires Linked(nodes, index)
    ensures Lru.Distinct(Pairs(nodes))
    ensures forall k :: k in index <==> Lru.Has(Pairs(nodes), k)
  {
    forall k
      ensures k in index <==> Lru.Has(Pairs(nodes), k)
    {
      if k in index {
        var i :| 0 <= i < |nodes| && nodes[i] == index[k];
        assert Pairs(nodes)[i].0 == k;
      }
    }
  }

  lemma PairsParts<K, V>(nodes: seq<Node<K, V>>, i: nat)
    requires i < |nodes|
    ensures Pairs(nodes[..i] + nodes[i + 1..]) == Pairs(nodes)[..i] + Pairs(nodes)[i + 1..]
    ensures Pairs([nodes[i]] + nodes[..i] + nodes[i + 1..])
            == [(nodes[i].key, nodes[i].value)] + (Pairs(nodes)[..i] + Pairs(nodes)[i + 1..])
  {
    var a, b := nodes[..i] + nodes[i + 1..], [nodes[i]] + nodes[..i] + nodes[i + 1..];
    assert forall j :: 0 <= j < |a| ==> Pairs(a)[j] == (a[j].key, a[j].value);
    assert forall j :: 0 <= j < |b| ==> Pairs(b)[j] == (b[j].key, b[j].value);
  }

  lemma PairsPush<K, V>(nodes: seq<Node<K, V>>, node: Node<K, V>)
    ensures Pairs([node] + nodes) == [(node.key, node.value)] + Pairs(nodes)
  {
    var b := [node] + nodes;
    assert forall j :: 0 <= j < |b| ==> Pairs(b)[j] == (b[j].key, b[j].value);
  }

  class LruCache<K(==), V> {
    const capacity: nat
    var entries: seq<Node<K, V>>
    var index: map<K, Node<K, V>>
    var hits: nat
    var misses: nat
    var evictions: nat

    ghost predicate Valid()
      reads this
    {
      |entries| <= capacity && Linked(entries, index)
    }

    /** The cache as a value. */
    ghost function State(): Lru.Cache<K, V>
      reads this, entries
    {
      Lru.Cache(capacity, Pairs(entries), hits, misses, evictions)
    }

    lemma StateValid()
      requires Valid()
      ensures Lru.Valid(State())
    {
      hide Linked;
      LinkedKeys(entries, index);
    }

    constructor (capacity: nat)
      ensures Valid() && State() == Lru.Empty(capacity) && entries == []
    {
      this.capacity := capacity;
      entries := [];
      index := map[];
      hits, misses, evictions := 0, 0, 0;
    }

    /** Moves a node of the list to its front. */
    method Splice(node: Node<K, V>)
      requires Linked(entries, index) && node in entries
      modifies this`entries
      ensures Linked(entries, index) && |entries| == old(|entries|)
      ensures Pairs(entries) == [(node.key, node.value)] + Lru.Without(old(Pairs(entries)), node.key)
      ensures forall n :: n in entries <==> n in old(entries)
    {
      hide Linked, Pairs;
      LinkedKeys(entries, index);
      var i :| 0 <= i < |entries| && entries[i] == node;
      Lru.WithoutAt(Pairs(entries), i);
      LinkedMove(entries, index, i);
      PairsParts(entries, i);
      entries := [entries[i]] + entries[..i] + entries[i + 1..];
    }

    /** The node that the index holds for a key. */
    lemma Found(key: K) returns (i: nat)
      requires Linked(entries, index) && key in index
      ensures i < |entries| && entries[i] == index[key] && index[key].key == key
      ensures index[key] in entries
    {
      i :| 0 <= i < |entries| && entries[i] == index[key];
    }

    method Get(key: K) returns (r: Option<V>)
      requires Valid()
      modifies this
      ensures Valid()
      ensures (State(), r) == Lru.Get(old(State()), key)
      ensures forall n :: n in entries ==> n in old(entries)
    {
      hide Linked, Pairs;
      LinkedKeys(entries, index);
      if key !in index {
        misses := misses + 1;
        return None;
      }
      ghost var i := Found(key);
      Lru.WithoutAt(Pairs(entries), i);
      var node := index[key];
      Splice(node);
      hits := hits + 1;
      return Some(node.value);
    }

    method Put(key: K, value: V)
      requires Valid()
      modifies this, entries
      ensures Valid()
      ensures State() == Lru.Put(old(State()), key, value)
      ensures forall n :: n in entries ==> n in old(entries) || fresh(n)
    {
      hide Linked, Pairs;
      if capacity == 0 {
        return;
      }
      LinkedKeys(entries, index);
      if key in index {
        PutExisting(key, value);
        return;
      }
      var node := new Node(key, value);
      LinkedPush(entries, index, node);
      PairsPush(entries, node);
      entries := [node] + entries;
      index := index[key := node];
      if |entries| > capacity {
        DropLast();
        evictions := evictions + 1;
      }
    }

    method PutExisting(key: K, value: V)
      requires Linked(entries, index) && key in index
      modifies this`entries, entries
      ensures Linked(entries, index) && |entries| == old(|entries|)
      ensures Pairs(entries) == [(key, value)] + Lru.Without(old(Pairs(entries)), key)
      ensures forall n :: n in entries <==> n in old(entries)
    {
      hide Linked;
      ghost var i := Found(key);
      LinkedKeys(entries, index);
      var node := index[key];
      ghost var es := Pairs(entries);
      Lru.WithoutAt(es, i);
      AllDifferent(i);
      node.value := value;
      assert Pairs(entries) == es[i := (key, value)];
      LinkedKeys(entries, index);
      Lru.WithoutAt(Pairs(entries), i);
      Splice(node);
    }

    lemma AllDifferent(i: nat)
      requires Linked(entries, index) && i < |entries|
      ensures forall j :: 0 <= j < |entries| && j != i ==> entries[j] != entries[i]
    {}

    method DropLast()
      requires Linked(entries, index) && entries != []
      modifies this`entries, this`index
      ensures Linked(entries, index)
      ensures entries == old(entries)[..old(|entries|) - 1]
      ensures Pairs(entries) == old(Pairs(entries))[..old(|entries|) - 1]
    {
      hide Linked;
      var n := |entries| - 1;
      var leastRecent := entries[n];
      LinkedDrop(entries, index, n);
      assert entries[..n] + entries[n + 1..] == entries[..n];
      index := index - {leastRecent.key};
      entries := entries[..n];
    }

    method Erase(key: K)
      requires Valid()
      modifies this
      ensures Valid()
      ensures State() == Lru.Erase(old(State()), key)
      ensures forall n :: n in entries ==> n in old(entries)
    {
      hide Linked, Pairs;
      LinkedKeys(entries, index);
      if key !in index {
        Lru.WithoutAbsent(Pairs(entries), key);
        return;
      }
      var node := index[key];
      ghost var _ := Found(key);
      var i :| 0 <= i < |entries| && entries[i] == node;
      Lru.WithoutAt(Pairs(entries), i);
      LinkedDrop(entries, index, i);
      PairsParts(entries, i);
      entries := entries[..i] + entries[i + 1..];
      index := index - {key};
    }

    method Clear()
      requires Valid()
      modifies this
      ensures Valid()
      ensures State() == Lru.Clear(old(State())) && entries == []
    {
      entries := [];
      index := map[];
    }

    method Statistics() returns (size: nat, h: nat, m: nat, e: nat)
      requires Valid()
      ensures size == |State().entries| <= capacity
      ensures (h, m, e) == (State().hits, State().misses, State().evictions)
    {
      size, h, m, e := |entries|, hits, misses, evictions;
    }
  }
}
