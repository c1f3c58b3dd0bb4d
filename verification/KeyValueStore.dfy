/** The store object: index, cache, log and counters updated step by step. Every method takes the
    state that the corresponding function of module Engine gives and answers as it does. */
module KeyValueStore {
  import opened Types
  import opened Codec
  import opened Log
  import opened Recovery
  import opened Compaction
  import opened Ordering
  import A = AppendOnlyStore
  import E = Engine
  import L = LruCache
  import Lru
  import LruBulk

  class KeyValueStore {
    const cleanupIntervalMs: int
    const storage: A.AppendOnlyStore
    const cache: L.LruCache<Bytes, Bytes>
    var index: Index
    var running: bool
    var counters: E.Counters

    ghost predicate Valid()
      reads this, storage, cache
    {
      storage.Valid() && cache.Valid()
    }

    ghost function Footprint(): set<object?>
      reads this, storage, cache
    {
      {this, storage, storage.file, cache}
      + (if storage.temporary == null then {} else {storage.temporary})
      + (set n | n in cache.entries)
    }

    ghost function State(): E.Engine
      reads Footprint()
      reads this, storage, cache
    {
      E.Engine(E.Disk(storage.file.bytes, if storage.temporary == null then None else Some(storage.temporary.bytes)),
               cleanupIntervalMs, running, index, cache.State(), counters)
    }

    constructor (existing: A.ByteFile, cleanupIntervalMs: int, cacheCapacity: nat)
      ensures Valid() && fresh(Footprint() - {existing})
      ensures State() == E.Engine(E.Disk(existing.bytes, None), cleanupIntervalMs, false, map[],
                                  Lru.Empty(cacheCapacity), E.NO_COUNTS)
    {
      this.cleanupIntervalMs := cleanupIntervalMs;
      storage := new A.AppendOnlyStore(existing);
      cache := new L.LruCache(cacheCapacity);
      index := map[];
      running := false;
      counters := E.NO_COUNTS;
    }

    method Open(nowMs: int64) returns (r: E.Outcome)
      requires Valid()
      modifies Footprint()
      ensures Valid() && fresh(Footprint() - old(Footprint()))
      ensures (State(), r) == E.Open(old(State()), nowMs)
    {
      hide Recover, RecoveredBytes, L.Linked, Lru.Clear, L.Pairs;
      if running {
        return E.Done;
      }
      if cleanupIntervalMs <= 0 {
        return E.Failed(InvalidArgument);
      }
      var recovery := storage.RecoverFile(nowMs);
      if recovery.Err? {
        CorruptKeepsBytes(old(storage.file.bytes), nowMs);
        return E.Failed(recovery.code);
      }
      index := recovery.value.index;
      cache.Clear();
      counters := counters.(recovered := recovery.value.validRecords, truncated := recovery.value.truncatedBytes);
      running := true;
      return E.Done;
    }

    method Close() returns (r: E.Outcome)
      requires Valid()
      modifies this`running
      ensures Valid()
      ensures (State(), r) == E.Close(old(State()))
    {
      running := false;
      return E.Done;
    }

    method Set(key: Bytes, value: Bytes, ttlMs: Option<int>, nowMs: int64) returns (r: E.Outcome)
      requires Valid() && E.TtlFits(ttlMs, nowMs)
      modifies Footprint()
      ensures Valid() && fresh(Footprint() - old(Footprint()))
      ensures (State(), r) == E.Set(old(State()), key, value, ttlMs, nowMs)
    {
      hide E.SetLocked, L.Linked, L.Pairs;
      if !running {
        return E.Failed(Closed);
      }
      if key == [] || |key| > MAX_KEY_SIZE {
        return E.Failed(InvalidArgument);
      }
      if |value| > MAX_VALUE_SIZE {
        return E.Failed(InvalidArgument);
      }
      if ttlMs.Some? && ttlMs.value <= 0 {
        return E.Failed(InvalidArgument);
      }
      var expiresAtMs: int64 := if ttlMs.Some? then nowMs + ttlMs.value else 0;
      SetLocked(key, value, expiresAtMs);
      return E.Done;
    }

    /** Append first; only then index and cache. */
    method SetLocked(key: Bytes, value: Bytes, expiresAtMs: int64)
      requires Valid() && E.ValidKey(key) && |value| <= MAX_VALUE_SIZE
      modifies Footprint()
      ensures Valid() && fresh(Footprint() - old(Footprint()))
      ensures State() == E.SetLocked(old(State()), key, value, expiresAtMs)
    {
      hide EncodeFrame, L.Linked, Lru.Put, L.Pairs, MetaAt;
      var appended := storage.AppendRecord(Record(OpSet, key, value, expiresAtMs));
      index := index[key := appended.value];
      cache.Put(key, value);
      counters := counters.(sets := counters.sets + 1);
    }

    method Get(key: Bytes, nowMs: int64) returns (r: E.Outcome)
      requires Valid()
      modifies Footprint()
      ensures Valid() && fresh(Footprint() - old(Footprint()))
      ensures (State(), r) == E.Get(old(State()), key, nowMs)
    {
      hide L.Linked, L.Pairs, IsExpired, E.DropExpired, E.Fetch;
      if !running {
        return E.Failed(Closed);
      }
      if key == [] || |key| > MAX_KEY_SIZE {
        return E.Failed(InvalidArgument);
      }
      counters := counters.(gets := counters.gets + 1);
      if key !in index {
        return E.Failed(NotFound);
      }
      if IsExpired(index[key].expiresAtMs, nowMs) {
        var _ := EraseIfExpired(key, nowMs);
        return E.Failed(NotFound);
      }
      r := Fetch(key);
    }

    /** The cache first, then the file. */
    method Fetch(key: Bytes) returns (r: E.Outcome)
      requires Valid() && key in index
      modifies Footprint()
      ensures Valid() && fresh(Footprint() - old(Footprint()))
      ensures (State(), r) == E.Fetch(old(State()), key)
    {
      hide ReadValue, L.Linked, Lru.Put, Lru.Get, L.Pairs;
      var cached := cache.Get(key);
      if cached.Some? {
        return E.Value(cached.value);
      }
      var readResult := storage.ReadValueAt(index[key]);
      if readResult.Err? {
        return E.Failed(readResult.code);
      }
      cache.Put(key, readResult.value);
      return E.Value(readResult.value);
    }

    method EraseIfExpired(key: Bytes, nowMs: int64) returns (erased: bool)
      requires Valid()
      modifies this, cache
      ensures Valid() && fresh(Footprint() - old(Footprint()))
      ensures State() == E.EraseIfExpired(old(State()), key, nowMs)
      ensures erased <==> key in old(index) && IsExpired(old(index)[key].expiresAtMs, nowMs)
    {
      hide L.Linked, Lru.Erase, L.Pairs, E.DropExpired, IsExpired;
      if key !in index || !IsExpired(index[key].expiresAtMs, nowMs) {
        return false;
      }
      DropExpired(key);
      return true;
    }

    /** Takes a key out of cache and index together. */
    method EraseEntry(key: Bytes)
      requires cache.Valid()
      modifies this`index, cache
      ensures cache.Valid() && forall n :: n in cache.entries ==> n in old(cache.entries)
      ensures index == old(index) - {key}
      ensures cache.State() == Lru.Erase(old(cache.State()), key)
    {
      hide L.Linked, Lru.Erase, L.Pairs;
      cache.Erase(key);
      index := index - {key};
    }

    /** Takes an expired key out and counts it. */
    method DropExpired(key: Bytes)
      requires Valid()
      modifies this, cache
      ensures Valid() && forall n :: n in cache.entries ==> n in old(cache.entries)
      ensures State() == E.DropExpired(old(State()), key)
    {
      hide L.Linked, Lru.Erase, L.Pairs;
      EraseEntry(key);
      counters := counters.(expired := counters.expired + 1);
    }

    /** Appends the tombstone first; only then cache and index. */
    method RemoveIndexed(key: Bytes)
      requires Valid() && E.ValidKey(key)
      modifies Footprint()
      ensures Valid() && fresh(Footprint() - old(Footprint()))
      ensures State() == E.RemoveIndexed(old(State()), key)
    {
      hide EncodeFrame, L.Linked, Lru.Erase, L.Pairs, MetaAt;
      var _ := storage.AppendRecord(Record(OpDelete, key, [], 0));
      EraseEntry(key);
      counters := counters.(deletes := counters.deletes + 1);
    }

    method Remove(key: Bytes, nowMs: int64) returns (r: E.Outcome)
      requires Valid()
      modifies Footprint()
      ensures Valid() && fresh(Footprint() - old(Footprint()))
      ensures (State(), r) == E.Remove(old(State()), key, nowMs)
    {
      hide L.Linked, L.Pairs, IsExpired, E.DropExpired, E.RemoveIndexed;
      if !running {
        return E.Failed(Closed);
      }
      if key == [] || |key| > MAX_KEY_SIZE {
        return E.Failed(InvalidArgument);
      }
      if key !in index {
        return E.Failed(NotFound);
      }
      if IsExpired(index[key].expiresAtMs, nowMs) {
        DropExpired(key);
        return E.Failed(NotFound);
      }
      RemoveIndexed(key);
      return E.Done;
    }

    method Exists(key: Bytes, nowMs: int64) returns (r: E.Outcome)
      requires Valid()
      modifies Footprint()
      ensures Valid() && fresh(Footprint() - old(Footprint()))
      ensures (State(), r) == E.Exists(old(State()), key, nowMs)
    {
      hide E.Get, L.Linked, L.Pairs;
      var result := Get(key, nowMs);
      if result.Failed? && result.code == NotFound {
        return E.Present(false);
      }
      if result.Failed? {
        return result;
      }
      return E.Present(true);
    }

    /** Walks over the index in no particular order and drops what has expired. */
    method EraseExpired(nowMs: int64) returns (removed: nat)
      requires cache.Valid()
      modifies this`index, cache
      ensures cache.Valid() && (forall n :: n in cache.entries ==> n in old(cache.entries))
      ensures index == old(index) - E.ExpiredKeys(old(index), nowMs)
      ensures cache.State() == old(cache.State()).(
                entries := LruBulk.WithoutAll(old(cache.State().entries), E.ExpiredKeys(old(index), nowMs)))
      ensures removed == |E.ExpiredKeys(old(index), nowMs)|
    {
      hide L.Linked, Lru.Erase, L.Pairs, IsExpired, E.ExpiredKeys, WithoutKeys;
      removed := 0;
      var pending := index.Keys;
      ghost var before := cache.State();
      ghost var expired := E.ExpiredKeys(index, nowMs);
      StartSweep(before, index, expired, nowMs);
      while pending != {}
        invariant cache.Valid() && pending <= index.Keys
        invariant index == old(index) - (expired - pending)
        invariant cache.State() == WithoutKeys(before, expired - pending)
        invariant forall n :: n in cache.entries ==> n in old(cache.entries)
        invariant removed == |expired - pending|
        decreases pending
      {
        var key :| key in pending;
        SweepOther(before, old(index), expired, pending, key, nowMs);
        if IsExpired(index[key].expiresAtMs, nowMs) {
          SweepExpired(before, old(index), expired, pending, key, nowMs);
          EraseEntry(key);
          removed := removed + 1;
        }
        pending := pending - {key};
      }
      assert expired - {} == expired;
      EndSweep(before, expired);
    }

    /** Drops what has expired and counts it. */
    method Sweep(nowMs: int64) returns (removed: nat)
      requires Valid()
      modifies this, cache
      ensures Valid() && (forall n :: n in cache.entries ==> n in old(cache.entries))
      ensures State() == E.Sweep(old(State()), nowMs)
      ensures removed == |E.ExpiredKeys(old(index), nowMs)|
    {
      hide L.Linked, L.Pairs, E.ExpiredKeys, LruBulk.WithoutAll;
      removed := EraseExpired(nowMs);
      counters := counters.(expired := counters.expired + removed);
    }

    method CleanupExpired(nowMs: int64) returns (r: E.Outcome)
      requires Valid()
      modifies this, cache
      ensures Valid() && fresh(Footprint() - old(Footprint()))
      ensures (State(), r) == E.Cleanup(old(State()), nowMs)
    {
      hide E.Sweep, E.ExpiredKeys, L.Linked, L.Pairs;
      if !running {
        return E.Removed(0);
      }
      var removed := Sweep(nowMs);
      return E.Removed(removed);
    }

    /** The keys that start with `prefix`, collected in no particular order and sorted. */
    method Keys(prefix: Bytes, nowMs: int64) returns (r: E.Outcome)
      requires Valid()
      modifies this, cache
      ensures Valid() && fresh(Footprint() - old(Footprint()))
      ensures (State(), r) == E.Keys(old(State()), prefix, nowMs)
    {
      hide E.Sweep, E.ExpiredKeys, L.Linked, L.Pairs, SortedKeys, IncreasingBy;
      if !running {
        return E.Failed(Closed);
      }
      var _ := Sweep(nowMs);
      OpenAfterSweep(old(State()), nowMs);
      var pending := index.Keys;
      var result: seq<Bytes> := [];
      while pending != {}
        invariant pending <= index.Keys
        invariant forall k :: k in result <==> k in index && k !in pending && prefix <= k
        invariant forall i, j :: 0 <= i < j < |result| ==> result[i] != result[j]
        decreases pending
      {
        var key :| key in pending;
        pending := pending - {key};
        if prefix <= key {
          result := result + [key];
        }
      }
      var sorted := SortBy(result, (k: Bytes) => k);
      SortedIsUnique(result, sorted, E.Matching(index.Keys, prefix));
      return E.KeyList(sorted);
    }

    /** Reads every indexed value; the index is walked in no particular order. */
    method Gather() returns (ok: bool, records: seq<Record>)
      requires Valid()
      ensures ok <==> E.Readable(storage.file.bytes, index)
      ensures ok ==> forall r :: r in records <==>
                       r.key in index && r == RecordOf(r.key, E.Gathered(storage.file.bytes, index)[r.key])
      ensures ok ==> forall i, j :: 0 <= i < j < |records| ==> records[i].key != records[j].key
    {
      hide ReadValue;
      records := [];
      ok := true;
      var pending := index.Keys;
      ghost var data := storage.file.bytes;
      while pending != {}
        invariant pending <= index.Keys
        invariant forall k :: k in index && k !in pending ==> ReadValue(data, index[k]).Ok?
        invariant forall r :: r in records <==>
                    && r.key in index && r.key !in pending
                    && r == Record(OpSet, r.key, ReadValue(data, index[r.key]).value, index[r.key].expiresAtMs)
        invariant forall i, j :: 0 <= i < j < |records| ==> records[i].key != records[j].key
        decreases pending
      {
        var key :| key in pending;
        var readResult := storage.ReadValueAt(index[key]);
        if readResult.Err? {
          ok := false;
          return;
        }
        pending := pending - {key};
        assert forall i :: 0 <= i < |records| ==> records[i] in records;
        records := records + [Record(OpSet, key, readResult.value, index[key].expiresAtMs)];
      }
    }

    /** Takes over the index of a compacted file; what was cached is dropped. */
    method TakeOver(compacted: Index)
      requires cache.Valid()
      modifies this, cache
      ensures cache.Valid() && cache.entries == []
      ensures index == compacted && running == old(running)
      ensures cache.State() == Lru.Clear(old(cache.State()))
      ensures counters == old(counters).(compactions := old(counters).compactions + 1)
    {
      hide L.Linked, L.Pairs;
      index := compacted;
      cache.Clear();
      counters := counters.(compactions := counters.compactions + 1);
    }

    /** Puts the compacted file in place and takes over its index. */
    method Replace(liveRecords: seq<Record>, ghost m: Bindings) returns (r: E.Outcome)
      requires Valid() && liveRecords == CompactRecords(m)
      modifies Footprint()
      ensures Valid() && fresh(Footprint() - old(Footprint()))
      ensures (State(), r) == E.Rewrite(old(State()), m)
    {
      hide EncodeLog, LogSize, Latest, ValidBindings, Frames, LastPlaces, L.Linked, L.Pairs, Lru.Clear,
          CompactRecords, CompactFrames, CompactBytes, AllValid;
      CompactOutcome(m);
      var compacted := storage.Compact(liveRecords);
      if compacted.Err? {
        return E.Failed(compacted.code);
      }
      TakeOver(compacted.value.index);
      return E.Summary(|index|, compacted.value.oldFileBytes, compacted.value.newFileBytes);
    }

    method CompactSwept() returns (r: E.Outcome)
      requires Valid()
      modifies Footprint()
      ensures Valid() && fresh(Footprint() - old(Footprint()))
      ensures (State(), r) == E.CompactSwept(old(State()))
    {
      hide E.Readable, E.Gathered, E.Rewrite, L.Linked, L.Pairs, CompactRecords, IncreasingBy, RecordOf;
      var ok, records := Gather();
      if !ok {
        return E.Failed(Corruption);
      }
      ghost var m := E.Gathered(storage.file.bytes, index);
      GatheredKeys(storage.file.bytes, index);
      var liveRecords := SortBy(records, (x: Record) => x.key);
      SortedRecordsAreUnique(records, liveRecords, m);
      r := Replace(liveRecords, m);
    }

    method Compact(nowMs: int64) returns (r: E.Outcome)
      requires Valid()
      modifies Footprint()
      ensures Valid() && fresh(Footprint() - old(Footprint()))
      ensures (State(), r) == E.Compact(old(State()), nowMs)
    {
      hide E.Sweep, E.CompactSwept, L.Linked, L.Pairs;
      if !running {
        return E.Failed(Closed);
      }
      var _ := Sweep(nowMs);
      r := CompactSwept();
    }
  }

  lemma CorruptKeepsBytes(data: Bytes, nowMs: int64)
    ensures Recover(data, nowMs).Err? ==> RecoveredBytes(data) == data
  {}

  lemma OpenAfterSweep(s: E.Engine, nowMs: int64)
    ensures E.Sweep(s, nowMs).isOpen == s.isOpen
  {}

  /** The cache without some keys. */
  ghost function WithoutKeys(c: E.Cache, gone: set<Bytes>): E.Cache {
    c.(entries := LruBulk.WithoutAll(c.entries, gone))
  }

  lemma StartSweep(before: E.Cache, index: Index, expired: set<Bytes>, nowMs: int64)
    requires expired == E.ExpiredKeys(index, nowMs)
    ensures expired - index.Keys == {} && index - {} == index
    ensures WithoutKeys(before, {}) == before
  {
    LruBulk.WithoutNone(before.entries);
  }

  lemma EndSweep(before: E.Cache, expired: set<Bytes>)
    ensures WithoutKeys(before, expired) == before.(entries := LruBulk.WithoutAll(before.entries, expired))
  {}

  /** A key that has not expired is passed over. */
  lemma SweepOther(before: E.Cache, index: Index, expired: set<Bytes>, pending: set<Bytes>, key: Bytes, nowMs: int64)
    requires expired == E.ExpiredKeys(index, nowMs) && key in pending && key in index
    ensures (index - (expired - pending))[key] == index[key]
    ensures !IsExpired(index[key].expiresAtMs, nowMs) ==> expired - (pending - {key}) == expired - pending
  {
    hide IsExpired;
  }

  /** A key that has expired joins the dropped ones. */
  lemma SweepExpired(before: E.Cache, index: Index, expired: set<Bytes>, pending: set<Bytes>, key: Bytes,
      nowMs: int64)
    requires expired == E.ExpiredKeys(index, nowMs) && key in pending && key in index
    requires IsExpired(index[key].expiresAtMs, nowMs)
    ensures |expired - (pending - {key})| == |expired - pending| + 1
    ensures (index - (expired - pending)) - {key} == index - (expired - (pending - {key}))
    ensures Lru.Erase(WithoutKeys(before, expired - pending), key) == WithoutKeys(before, expired - (pending - {key}))
  {
    hide IsExpired, LruBulk.WithoutAll;
    assert expired - (pending - {key}) == expired - pending + {key};
    LruBulk.WithoutOneMore(before.entries, expired - pending, key);
  }

  lemma GatheredKeys(data: Bytes, index: Index)
    requires E.Readable(data, index)
    ensures E.Gathered(data, index).Keys == index.Keys
  {}

  lemma CompactIndexSize(m: Bindings)
    ensures |Latest(CompactFrames(m))| == |m|
  {
    hide Latest, Meaning, CompactFrames;
    CompactMeaning(m);
    SameKeys(CompactFrames(m));
    assert |Latest(CompactFrames(m)).Keys| == |m.Keys|;
  }

  /** What the store makes of the records of some bindings. */
  lemma CompactOutcome(m: Bindings)
    ensures ValidBindings(m) <==> AllValid(CompactRecords(m))
    ensures Frames(CompactRecords(m)) == CompactFrames(m) && EncodeLog(CompactFrames(m)) == CompactBytes(m)
    ensures LastPlaces(CompactFrames(m)) == Latest(CompactFrames(m))
    ensures |Latest(CompactFrames(m))| == |m|
  {
    hide Latest, LastPlaces, CompactRecords, ValidBindings, AllValid;
    RecordsOf(m);
    LastPlacesOfSets(CompactFrames(m));
    CompactIndexSize(m);
  }

  lemma PermutationMembers<T>(a: seq<T>, b: seq<T>)
    requires multiset(a) == multiset(b)
    ensures forall x :: x in a <==> x in b
  {
    forall x
      ensures x in a <==> x in b
    {
      assert x in a <==> x in multiset(a);
      assert x in b <==> x in multiset(b);
    }
  }

  ghost predicate NoRepeats<T>(s: seq<T>) {
    forall i, j :: 0 <= i < j < |s| ==> s[i] != s[j]
  }

  lemma {:induction false} NoRepeatsCounts<T>(s: seq<T>)
    ensures NoRepeats(s) <==> forall x :: x in s ==> multiset(s)[x] == 1
  {
    if s != [] {
      var front, last := s[..|s| - 1], s[|s| - 1];
      assert s == front + [last];
      NoRepeatsCounts(front);
      assert multiset(s) == multiset(front) + multiset{last};
      if NoRepeats(s) {
        assert last !in front;
      }
      if forall x :: x in s ==> multiset(s)[x] == 1 {
        assert last in s && multiset(s)[last] == multiset(front)[last] + 1;
        forall x | x in front
          ensures multiset(front)[x] == 1
        {
          assert x in s;
        }
      }
    }
  }

  lemma PermutationKeepsNoRepeats<T>(a: seq<T>, b: seq<T>)
    requires multiset(a) == multiset(b) && NoRepeats(a)
    ensures NoRepeats(b)
  {
    NoRepeatsCounts(a);
    NoRepeatsCounts(b);
    PermutationMembers(a, b);
  }

  /** Whatever order the keys were collected in, sorting gives the one increasing list of them. */
  lemma SortedIsUnique(result: seq<Bytes>, sorted: seq<Bytes>, keys: set<Bytes>)
    requires multiset(sorted) == multiset(result) && NoRepeats(result)
    requires forall k :: k in result <==> k in keys
    requires forall i, j :: 0 <= i < j < |sorted| ==>
               !KeyLess(((k: Bytes) => k)(sorted[j]), ((k: Bytes) => k)(sorted[i]))
    ensures sorted == SortedKeys(keys)
  {
    hide KeyLess, NoRepeats, IncreasingBy, SortedKeys;
    var id := (k: Bytes) => k;
    PermutationKeepsNoRepeats(result, sorted);
    PermutationMembers(result, sorted);
    assert forall i, j :: 0 <= i < j < |sorted| ==> id(sorted[i]) != id(sorted[j]) by {
      Different(sorted);
    }
    SortedDistinct(sorted, id);
    IncreasingUnique(sorted, SortedKeys(keys), id);
  }

  lemma Different<T>(s: seq<T>)
    requires NoRepeats(s)
    ensures forall i, j :: 0 <= i < j < |s| ==> s[i] != s[j]
  {}

  lemma SortedRecordsAreUnique(records: seq<Record>, sorted: seq<Record>, m: Bindings)
    requires multiset(sorted) == multiset(records)
    requires forall i, j :: 0 <= i < j < |records| ==> records[i].key != records[j].key
    requires forall r :: r in records <==> r.key in m && r == RecordOf(r.key, m[r.key])
    requires forall i, j :: 0 <= i < j < |sorted| ==>
               !KeyLess(((x: Record) => x.key)(sorted[j]), ((x: Record) => x.key)(sorted[i]))
    ensures sorted == CompactRecords(m)
  {
    hide KeyLess, IncreasingBy, CompactRecords;
    var byKey := (x: Record) => x.key;
    PermutationMembers(records, sorted);
    DistinctKeysNoRepeats(records);
    PermutationKeepsNoRepeats(records, sorted);
    forall i, j | 0 <= i < j < |sorted|
      ensures byKey(sorted[i]) != byKey(sorted[j])
    {
      assert sorted[i] in records && sorted[j] in records;
    }
    SortedDistinct(sorted, byKey);
    RecordsUnique(sorted, m);
  }

  lemma DistinctKeysNoRepeats(records: seq<Record>)
    requires forall i, j :: 0 <= i < j < |records| ==> records[i].key != records[j].key
    ensures NoRepeats(records)
  {}
}
