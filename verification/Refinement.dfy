/** The engine refines the timed map: over every run, with restarts, crashes, expiry and compaction
    anywhere in it, file, index and cache agree and every answer is the timed map's answer. */
module Refinement {
  import opened Types
  import opened Codec
  import opened Log
  import opened Recovery
  import opened Compaction
  import opened Ordering
  import opened Engine
  import opened TimedMap
  import Lru
  import LruBulk

  /** The index holds at most the latest SET of each key, and at least those that are still live. */
  ghost predicate IndexAgrees(index: Index, fs: seq<Frame>, nowMs: int64) {
    && (forall k :: k in index ==> k in Latest(fs) && index[k] == Latest(fs)[k])
    && (forall k :: k in Latest(fs) && !IsExpired(Latest(fs)[k].expiresAtMs, nowMs) ==> k in index)
  }

  /** Every cached value is the value that the file has for that key, and the key is indexed. */
  ghost predicate CacheAgrees(entries: seq<(Bytes, Bytes)>, index: Index, m: Bindings) {
    forall e :: e in entries ==> e.0 in index && e.0 in m && e.1 == m[e.0].value
  }

  /** The engine stands on the records `fs`; a closed engine may have a torn tail behind them. */
  ghost predicate StandsOn(s: Engine, fs: seq<Frame>, tail: Bytes, nowMs: int64) {
    && s.disk.data == EncodeLog(fs) + tail
    && ValidLog(fs)
    && ParseFrame(tail) == Torn
    && Lru.Valid(s.cache)
    && (s.isOpen ==>
          && tail == []
          && s.disk.data == EncodeLog(fs)
          && s.cleanupIntervalMs > 0
          && IndexAgrees(s.index, fs, nowMs)
          && CacheAgrees(s.cache.entries, s.index, Meaning(fs)))
  }

  ghost predicate SameView(fs: seq<Frame>, p: Spec, nowMs: int64) {
    Live(Meaning(fs), nowMs) == Live(p.m, nowMs)
  }

  ghost predicate SameStatus(s: Engine, p: Spec) {
    s.isOpen == p.isOpen && (s.cleanupIntervalMs > 0) == p.canOpen
  }

  /** The refinement relation. */
  ghost predicate Refines(s: Engine, p: Spec, nowMs: int64) {
    && SameStatus(s, p)
    && exists fs: seq<Frame>, tail: Bytes :: StandsOn(s, fs, tail, nowMs) && SameView(fs, p, nowMs)
  }

  // Time passes

  lemma ViewLater(a: Bindings, b: Bindings, t1: int64, t2: int64)
    requires Live(a, t1) == Live(b, t1) && t1 <= t2
    ensures Live(a, t2) == Live(b, t2)
  {
    LiveLater(a, t1, t2);
    LiveLater(b, t1, t2);
  }

  /** With a clock that does not go back the relation survives waiting. */
  lemma TimePasses(s: Engine, fs: seq<Frame>, tail: Bytes, p: Spec, t1: int64, t2: int64)
    requires StandsOn(s, fs, tail, t1) && SameView(fs, p, t1) && t1 <= t2
    ensures StandsOn(s, fs, tail, t2) && SameView(fs, p, t2)
  {
    hide Latest, Meaning, EncodeLog, ParseFrame, ValidLog;
    ViewLater(Meaning(fs), p.m, t1, t2);
  }

  // What agreement gives

  lemma IndexedKey(s: Engine, fs: seq<Frame>, nowMs: int64, k: Bytes)
    requires StandsOn(s, fs, [], nowMs) && s.isOpen
    ensures k in s.index ==>
              && k in Meaning(fs)
              && s.index[k].expiresAtMs == Meaning(fs)[k].expiresAtMs
              && ReadValue(s.disk.data, s.index[k]) == Ok(Meaning(fs)[k].value)
              && s.index[k].valueOffset + s.index[k].valueSize <= |s.disk.data|
    ensures Visible(Meaning(fs), k, nowMs) <==> k in s.index && !IsExpired(s.index[k].expiresAtMs, nowMs)
  {
    hide Latest, Meaning, EncodeLog, ParseFrame, ValidLog, ReadValue;
    SameKeys(fs);
    assert EncodeLog(fs) + [] == EncodeLog(fs);
    if k in Latest(fs) {
      ReadThroughIndex(fs, [], k);
    }
  }

  lemma VisibleIsLive(m: Bindings, k: Bytes, nowMs: int64)
    ensures k in Live(m, nowMs) <==> Visible(m, k, nowMs)
  {}

  /** The index restricted to unexpired keys equals, metadata included, what a fresh recovery of the
      current file would build at this or any later time; and that recovery would cut nothing. */
  lemma IndexIsRecovery(s: Engine, fs: seq<Frame>, nowMs: int64, t: int64)
    requires StandsOn(s, fs, [], nowMs) && s.isOpen && nowMs <= t
    ensures Recover(s.disk.data, t) == Ok(RecoveryState(LiveIndex(s.index, t), |fs|, 0))
    ensures RecoveredBytes(s.disk.data) == s.disk.data
  {
    hide Latest, Meaning, EncodeLog, ParseFrame, ValidLog, Replay, Split, Recover, RecoveredBytes, CacheAgrees;
    RecoverDecomposed(fs, [], t);
    ReplayIsLiveLatest(fs, t);
    assert EncodeLog(fs) + [] == EncodeLog(fs);
    assert LiveIndex(s.index, t) == LiveIndex(Latest(fs), t);
  }

  /** Every index entry locates its own whole record inside the file. */
  lemma EntriesLocateRecords(s: Engine, fs: seq<Frame>, nowMs: int64, j: Bytes, k: Bytes)
    requires StandsOn(s, fs, [], nowMs) && s.isOpen && j in s.index && k in s.index
    ensures j != k ==> s.index[j].recordOffset != s.index[k].recordOffset
    ensures s.index[k].valueOffset + s.index[k].valueSize <= |s.disk.data|
    ensures exists i: nat :: IsLastWrite(fs, k, i) && fs[i].record.operation == OpSet
                             && s.index[k] == MetaAt(fs[i], LogSize(fs[..i]))
  {
    hide Latest, Meaning, EncodeLog, ParseFrame, ValidLog, ReadValue, CacheAgrees;
    IndexedKey(s, fs, nowMs, k);
    var i := LastWriter(fs, k);
    if j != k {
      DistinctOffsets(fs, j, k);
    }
  }

  // Opening and restarting

  lemma OpenRefines(s: Engine, fs: seq<Frame>, tail: Bytes, p: Spec, nowMs: int64)
    requires StandsOn(s, fs, tail, nowMs) && SameView(fs, p, nowMs) && SameStatus(s, p)
    ensures Answers(p, Timed(CallOpen, nowMs), Open(s, nowMs).1)
    ensures Refines(Open(s, nowMs).0, SpecStep(p, Timed(CallOpen, nowMs)), nowMs)
  {
    hide Latest, Meaning, EncodeLog, ParseFrame, ValidLog, Replay, Split, Recover, RecoveredBytes;
    var (s', r) := Open(s, nowMs);
    if !s.isOpen && s.cleanupIntervalMs > 0 {
      RecoverDecomposed(fs, tail, nowMs);
      ReplayIsLiveLatest(fs, nowMs);
      NothingIsTorn();
      assert EncodeLog(fs) + [] == EncodeLog(fs);
      assert StandsOn(s', fs, [], nowMs);
    } else {
      assert StandsOn(s', fs, tail, nowMs);
    }
  }

  lemma RestartStandsOn(s: Engine, disk: Disk, fs: seq<Frame>, tail: Bytes, nowMs: int64)
    requires disk.data == EncodeLog(fs) + tail && ValidLog(fs) && ParseFrame(tail) == Torn
    ensures StandsOn(Restart(s, disk), fs, tail, nowMs)
  {
    hide Latest, Meaning, EncodeLog, ParseFrame, ValidLog;
  }

  // Writing

  lemma AppendAgrees(s: Engine, fs: seq<Frame>, f: Frame, nowMs: int64)
    requires StandsOn(s, fs, [], nowMs) && s.isOpen && ValidFrame(f)
    ensures EncodeLog(fs + [f]) == s.disk.data + EncodeFrame(f)
    ensures ValidLog(fs + [f]) && |s.disk.data| == LogSize(fs)
  {
    hide Latest, Meaning, EncodeLog, ParseFrame, EncodeFrame, LogSize;
    EncodeSnoc(fs, f);
  }

  lemma SetIndexAgrees(index: Index, fs: seq<Frame>, k: Bytes, v: Bytes, e: int64, nowMs: int64)
    requires IndexAgrees(index, fs, nowMs)
    ensures IndexAgrees(index[k := MetaAt(SetFrame(k, v, e), LogSize(fs))], fs + [SetFrame(k, v, e)], nowMs)
  {
    hide Latest, Meaning, LogSize, MetaAt;
    MeaningSnoc(fs, SetFrame(k, v, e));
  }

  lemma PutCacheAgrees(c: Cache, index: Index, m: Bindings, k: Bytes, meta: RecordMetadata, v: Bytes, e: int64)
    requires Lru.Valid(c) && CacheAgrees(c.entries, index, m)
    ensures CacheAgrees(Lru.Put(c, k, v).entries, index[k := meta], m[k := Binding(v, e)])
  {
    hide Lru.Put, Lru.Valid;
    var entries := Lru.Put(c, k, v).entries;
    if c.capacity == 0 {
      NoRoom(c, k, v);
    }
    forall x | x in entries
      ensures x.0 in index[k := meta] && x.0 in m[k := Binding(v, e)] && x.1 == m[k := Binding(v, e)][x.0].value
    {
      Lru.PutMembers(c, k, v, x);
    }
  }

  lemma NoRoom(c: Cache, k: Bytes, v: Bytes)
    requires Lru.Valid(c) && c.capacity == 0
    ensures Lru.Put(c, k, v).entries == []
  {}

  lemma EraseCacheAgrees(c: Cache, index: Index, m: Bindings, k: Bytes)
    requires CacheAgrees(c.entries, index, m)
    ensures CacheAgrees(Lru.Erase(c, k).entries, index - {k}, m - {k})
    ensures CacheAgrees(Lru.Erase(c, k).entries, index - {k}, m)
  {
    forall x | x in Lru.Erase(c, k).entries
      ensures x in c.entries && x.0 != k
    {
      Lru.InWithout(c.entries, k, x);
    }
  }

  lemma SetLockedStandsOn(s: Engine, fs: seq<Frame>, k: Bytes, v: Bytes, e: int64, nowMs: int64)
    requires StandsOn(s, fs, [], nowMs) && s.isOpen && ValidFrame(SetFrame(k, v, e))
    ensures StandsOn(SetLocked(s, k, v, e), fs + [SetFrame(k, v, e)], [], nowMs)
    ensures Meaning(fs + [SetFrame(k, v, e)]) == Meaning(fs)[k := Binding(v, e)]
  {
    hide Latest, Meaning, EncodeLog, ParseFrame, EncodeFrame, LogSize, ValidLog, CacheAgrees, IndexAgrees,
        Lru.Put, Lru.Valid, MetaAt;
    var f := SetFrame(k, v, e);
    AppendAgrees(s, fs, f, nowMs);
    SetIndexAgrees(s.index, fs, k, v, e, nowMs);
    MeaningSnoc(fs, f);
    PutCacheAgrees(s.cache, s.index, Meaning(fs), k, MetaAt(f, LogSize(fs)), v, e);
    Lru.PutValid(s.cache, k, v);
    assert EncodeLog(fs + [f]) + [] == EncodeLog(fs + [f]);
    NothingIsTorn();
  }

  lemma ViewAfterSet(a: Bindings, b: Bindings, k: Bytes, x: Binding, nowMs: int64)
    requires Live(a, nowMs) == Live(b, nowMs)
    ensures Live(a[k := x], nowMs) == Live(b[k := x], nowMs)
  {
    LiveAfterSet(a, k, x, nowMs);
    LiveAfterSet(b, k, x, nowMs);
  }

  lemma LiveAfterSet(m: Bindings, k: Bytes, x: Binding, nowMs: int64)
    ensures Live(m[k := x], nowMs)
            == if IsExpired(x.expiresAtMs, nowMs) then Live(m, nowMs) - {k} else Live(m, nowMs)[k := x]
  {}

  lemma ViewAfterRemove(a: Bindings, b: Bindings, k: Bytes, nowMs: int64)
    requires Live(a, nowMs) == Live(b, nowMs)
    ensures Live(a - {k}, nowMs) == Live(b - {k}, nowMs)
    ensures Live(a - {k}, nowMs) == Live(a, nowMs) - {k}
  {
    assert Live(a - {k}, nowMs) == Live(a, nowMs) - {k};
    assert Live(b - {k}, nowMs) == Live(b, nowMs) - {k};
  }

  lemma SetFrameValid(k: Bytes, v: Bytes, e: int64)
    requires ValidKey(k) && |v| <= MAX_VALUE_SIZE
    ensures ValidFrame(SetFrame(k, v, e))
  {}

  lemma DeleteFrameValid(k: Bytes)
    requires ValidKey(k)
    ensures ValidFrame(DeleteFrame(k))
  {}

  lemma SetRefines(s: Engine, fs: seq<Frame>, p: Spec, k: Bytes, v: Bytes, ttlMs: Option<int>, nowMs: int64)
    requires StandsOn(s, fs, [], nowMs) && SameView(fs, p, nowMs) && SameStatus(s, p)
    requires s.isOpen && ValidSet(k, v, ttlMs) && TtlFits(ttlMs, nowMs)
    ensures Refines(Set(s, k, v, ttlMs, nowMs).0, SpecSet(p, k, v, ttlMs, nowMs), nowMs)
  {
    hide Meaning, StandsOn, Live, ValidFrame;
    var e := ExpiryOf(ttlMs, nowMs);
    SetFrameValid(k, v, e);
    SetLockedStandsOn(s, fs, k, v, e, nowMs);
    ViewAfterSet(Meaning(fs), p.m, k, Binding(v, e), nowMs);
    assert StandsOn(SetLocked(s, k, v, e), fs + [SetFrame(k, v, e)], [], nowMs);
  }

  lemma RemoveIndexAgrees(index: Index, fs: seq<Frame>, k: Bytes, nowMs: int64)
    requires IndexAgrees(index, fs, nowMs)
    ensures IndexAgrees(index - {k}, fs + [DeleteFrame(k)], nowMs)
  {
    hide Latest, Meaning;
    MeaningSnoc(fs, DeleteFrame(k));
  }

  lemma RemoveLive(s: Engine, fs: seq<Frame>, k: Bytes, nowMs: int64)
    requires StandsOn(s, fs, [], nowMs) && WouldDelete(s, k, nowMs)
    ensures StandsOn(Remove(s, k, nowMs).0, fs + [DeleteFrame(k)], [], nowMs)
    ensures Meaning(fs + [DeleteFrame(k)]) == Meaning(fs) - {k}
  {
    hide Latest, Meaning, EncodeLog, ParseFrame, EncodeFrame, LogSize, ValidLog, CacheAgrees, IndexAgrees,
        Lru.Erase, Lru.Valid, ValidFrame;
    var f := DeleteFrame(k);
    DeleteFrameValid(k);
    AppendAgrees(s, fs, f, nowMs);
    RemoveIndexAgrees(s.index, fs, k, nowMs);
    MeaningSnoc(fs, f);
    EraseCacheAgrees(s.cache, s.index, Meaning(fs), k);
    Lru.EraseValid(s.cache, k);
    assert EncodeLog(fs + [f]) + [] == EncodeLog(fs + [f]);
    NothingIsTorn();
  }

  // Dropping what has expired

  lemma DropExpiredStandsOn(s: Engine, fs: seq<Frame>, k: Bytes, nowMs: int64)
    requires StandsOn(s, fs, [], nowMs) && s.isOpen
    requires k in s.index && IsExpired(s.index[k].expiresAtMs, nowMs)
    ensures StandsOn(DropExpired(s, k), fs, [], nowMs)
  {
    hide Latest, Meaning, EncodeLog, ParseFrame, ValidLog, CacheAgrees, Lru.Erase, Lru.Valid;
    EraseCacheAgrees(s.cache, s.index, Meaning(fs), k);
    Lru.EraseValid(s.cache, k);
  }

  lemma SweepStandsOn(s: Engine, fs: seq<Frame>, nowMs: int64)
    requires StandsOn(s, fs, [], nowMs) && s.isOpen
    ensures StandsOn(Sweep(s, nowMs), fs, [], nowMs)
    ensures Sweep(s, nowMs).index == LiveIndex(Latest(fs), nowMs)
    ensures Sweep(s, nowMs).index.Keys == Live(Meaning(fs), nowMs).Keys
  {
    hide Latest, Meaning, EncodeLog, ParseFrame, ValidLog, CacheAgrees, Lru.Valid;
    var gone := ExpiredKeys(s.index, nowMs);
    SweepCache(s.cache, s.index, Meaning(fs), gone);
    assert s.index - gone == LiveIndex(Latest(fs), nowMs);
    forall k
      ensures k in Sweep(s, nowMs).index <==> k in Live(Meaning(fs), nowMs)
    {
      IndexedKey(s, fs, nowMs, k);
    }
  }

  lemma SweepCache(c: Cache, index: Index, m: Bindings, gone: set<Bytes>)
    requires Lru.Valid(c) && CacheAgrees(c.entries, index, m)
    ensures Lru.Valid(c.(entries := LruBulk.WithoutAll(c.entries, gone)))
    ensures CacheAgrees(LruBulk.WithoutAll(c.entries, gone), index - gone, m)
  {
    LruBulk.WithoutAllDistinct(c.entries, gone);
    forall x | x in LruBulk.WithoutAll(c.entries, gone)
      ensures x in c.entries && x.0 !in gone
    {
      LruBulk.InWithoutAll(c.entries, gone, x);
    }
  }

  // Reading

  /** Fetching a live key returns its value and keeps the agreement, whether the cache has it or not. */
  lemma FetchStandsOn(s: Engine, fs: seq<Frame>, k: Bytes, nowMs: int64)
    requires StandsOn(s, fs, [], nowMs) && s.isOpen && k in s.index
    ensures k in Meaning(fs)
    ensures Fetch(s, k).1 == Value(Meaning(fs)[k].value)
    ensures StandsOn(Fetch(s, k).0, fs, [], nowMs)
  {
    hide Latest, Meaning, EncodeLog, ParseFrame, ValidLog, ReadValue, IndexAgrees, Lru.Get, Lru.Put,
        Lru.Valid, CacheAgrees;
    IndexedKey(s, fs, nowMs, k);
    CacheGetAgrees(s.cache, s.index, Meaning(fs), k);
    var s' := CacheGet(s, k).0;
    CachePutAgrees(s'.cache, s.index, Meaning(fs), k);
  }

  lemma CacheGetAgrees(c: Cache, index: Index, m: Bindings, k: Bytes)
    requires Lru.Valid(c) && CacheAgrees(c.entries, index, m)
    ensures Lru.Valid(Lru.Get(c, k).0) && CacheAgrees(Lru.Get(c, k).0.entries, index, m)
    ensures Lru.Get(c, k).1.Some? ==> k in index && k in m && Lru.Get(c, k).1.value == m[k].value
  {
    hide Lru.Valid;
    Lru.GetValid(c, k);
    forall x | x in Lru.Get(c, k).0.entries
      ensures x in c.entries
    {
      Lru.GetMembers(c, k, x);
    }
    if Lru.Has(c.entries, k) {
      assert (k, Lru.Lookup(c.entries, k)) in c.entries;
    }
  }

  lemma CachePutAgrees(c: Cache, index: Index, m: Bindings, k: Bytes)
    requires Lru.Valid(c) && CacheAgrees(c.entries, index, m) && k in index && k in m
    ensures Lru.Valid(Lru.Put(c, k, m[k].value)) && CacheAgrees(Lru.Put(c, k, m[k].value).entries, index, m)
  {
    hide CacheAgrees, Lru.Put, Lru.Valid;
    Lru.PutValid(c, k, m[k].value);
    PutCacheAgrees(c, index, m, k, index[k], m[k].value, m[k].expiresAtMs);
    assert index[k := index[k]] == index && m[k := Binding(m[k].value, m[k].expiresAtMs)] == m;
  }

  lemma CountStandsOn(s: Engine, fs: seq<Frame>, nowMs: int64)
    requires StandsOn(s, fs, [], nowMs)
    ensures StandsOn(CountGet(s), fs, [], nowMs)
  {
    hide Latest, Meaning, EncodeLog, ParseFrame, ValidLog, CacheAgrees, IndexAgrees, Lru.Valid;
  }

  lemma GetRefines(s: Engine, fs: seq<Frame>, p: Spec, k: Bytes, nowMs: int64)
    requires StandsOn(s, fs, [], nowMs) && SameView(fs, p, nowMs) && SameStatus(s, p)
    requires s.isOpen && ValidKey(k)
    ensures Get(s, k, nowMs).1 == if k in Live(p.m, nowMs) then Value(p.m[k].value) else Failed(NotFound)
    ensures Refines(Get(s, k, nowMs).0, p, nowMs)
  {
    hide Meaning, StandsOn, ReadValue, Fetch, DropExpired;
    CountStandsOn(s, fs, nowMs);
    var s' := CountGet(s);
    IndexedKey(s', fs, nowMs, k);
    VisibleIsLive(Meaning(fs), k, nowMs);
    if k in s'.index {
      if IsExpired(s'.index[k].expiresAtMs, nowMs) {
        DropExpiredStandsOn(s', fs, k, nowMs);
        StatusOfDrop(s', k);
      } else {
        FetchStandsOn(s', fs, k, nowMs);
        StatusOfFetch(s', k);
        assert Live(Meaning(fs), nowMs)[k] == Live(p.m, nowMs)[k];
      }
    }
    assert StandsOn(Get(s, k, nowMs).0, fs, [], nowMs);
  }

  lemma StatusOfDrop(s: Engine, k: Bytes)
    ensures DropExpired(s, k).isOpen == s.isOpen && DropExpired(s, k).cleanupIntervalMs == s.cleanupIntervalMs
  {}

  lemma StatusOfFetch(s: Engine, k: Bytes)
    requires k in s.index
    ensures Fetch(s, k).0.isOpen == s.isOpen && Fetch(s, k).0.cleanupIntervalMs == s.cleanupIntervalMs
  {}

  lemma RemoveRefines(s: Engine, fs: seq<Frame>, p: Spec, k: Bytes, nowMs: int64)
    requires StandsOn(s, fs, [], nowMs) && SameView(fs, p, nowMs) && SameStatus(s, p)
    requires s.isOpen && ValidKey(k)
    ensures Remove(s, k, nowMs).1 == if k in Live(p.m, nowMs) then Done else Failed(NotFound)
    ensures Refines(Remove(s, k, nowMs).0, SpecRemove(p, k, nowMs), nowMs)
  {
    hide Meaning, StandsOn, DropExpired, EncodeFrame, Lru.Erase;
    IndexedKey(s, fs, nowMs, k);
    VisibleIsLive(Meaning(fs), k, nowMs);
    VisibleIsLive(p.m, k, nowMs);
    if k in s.index {
      if IsExpired(s.index[k].expiresAtMs, nowMs) {
        DropExpiredStandsOn(s, fs, k, nowMs);
        StatusOfDrop(s, k);
        assert StandsOn(Remove(s, k, nowMs).0, fs, [], nowMs);
      } else {
        RemoveLive(s, fs, k, nowMs);
        ViewAfterRemove(Meaning(fs), p.m, k, nowMs);
        assert StandsOn(Remove(s, k, nowMs).0, fs + [DeleteFrame(k)], [], nowMs);
      }
    } else {
      assert StandsOn(Remove(s, k, nowMs).0, fs, [], nowMs);
    }
  }

  // Compacting

  /** What compaction gathers from file and index are exactly the live bindings. */
  lemma GatheredIsLive(s: Engine, fs: seq<Frame>, nowMs: int64)
    requires StandsOn(s, fs, [], nowMs) && s.isOpen && s.index == LiveIndex(Latest(fs), nowMs)
    ensures Readable(s.disk.data, s.index)
    ensures Gathered(s.disk.data, s.index) == Live(Meaning(fs), nowMs)
  {
    hide Latest, Meaning, StandsOn, ReadValue;
    forall k
      ensures k in s.index <==> k in Live(Meaning(fs), nowMs)
      ensures k in s.index ==> ReadValue(s.disk.data, s.index[k]) == Ok(Meaning(fs)[k].value)
      ensures k in s.index ==> s.index[k].expiresAtMs == Meaning(fs)[k].expiresAtMs
    {
      IndexedKey(s, fs, nowMs, k);
    }
  }

  lemma CompactDoes(s: Engine, fs: seq<Frame>, nowMs: int64)
    requires StandsOn(s, fs, [], nowMs) && s.isOpen
    ensures var (s', r) := Compact(s, nowMs);
            var gs := Compacted(fs, nowMs);
            && r == Summary(|Live(Meaning(fs), nowMs)|, |s.disk.data|, LogSize(gs))
            && StandsOn(s', gs, [], nowMs)
            && s'.isOpen && s'.cleanupIntervalMs == s.cleanupIntervalMs
            && s'.disk == Disk(EncodeLog(gs), None)
            && s'.index == Latest(gs)
            && ValidLog(gs)
            && Live(Meaning(gs), nowMs) == Live(Meaning(fs), nowMs)
  {
    hide Latest, Meaning, EncodeLog, ParseFrame, ValidLog, Gathered, Readable, CompactFrames, LogSize, Recover;
    SweepStandsOn(s, fs, nowMs);
    var s1 := Sweep(s, nowMs);
    GatheredIsLive(s1, fs, nowMs);
    var m := Live(Meaning(fs), nowMs);
    MeaningValid(fs);
    LiveValid(Meaning(fs), nowMs);
    CompactionPreservesMeaning(fs, nowMs, nowMs);
    var gs := Compacted(fs, nowMs);
    assert EncodeLog(gs) + [] == EncodeLog(gs);
    NothingIsTorn();
    ClearedAgrees(s1.cache, gs, nowMs);
  }

  lemma ClearedAgrees(c: Cache, gs: seq<Frame>, nowMs: int64)
    ensures Lru.Valid(Lru.Clear(c))
    ensures CacheAgrees(Lru.Clear(c).entries, Latest(gs), Meaning(gs))
    ensures IndexAgrees(Latest(gs), gs, nowMs)
  {
    hide Latest, Meaning;
  }

  lemma CompactRefines(s: Engine, fs: seq<Frame>, p: Spec, nowMs: int64)
    requires StandsOn(s, fs, [], nowMs) && SameView(fs, p, nowMs) && SameStatus(s, p) && s.isOpen
    ensures Answers(p, Timed(CallCompact, nowMs), Compact(s, nowMs).1)
    ensures Refines(Compact(s, nowMs).0, p, nowMs)
  {
    hide Latest, Meaning, StandsOn, Compact, LogSize, Compacted;
    CompactDoes(s, fs, nowMs);
    CompactionNeverGrows(fs, nowMs);
    SizeOfData(s, fs, nowMs);
    assert StandsOn(Compact(s, nowMs).0, Compacted(fs, nowMs), [], nowMs);
  }

  lemma SizeOfData(s: Engine, fs: seq<Frame>, nowMs: int64)
    requires StandsOn(s, fs, [], nowMs) && s.isOpen
    ensures |s.disk.data| == LogSize(fs)
  {}

  lemma KeysRefines(s: Engine, fs: seq<Frame>, p: Spec, prefix: Bytes, nowMs: int64)
    requires StandsOn(s, fs, [], nowMs) && SameView(fs, p, nowMs) && SameStatus(s, p) && s.isOpen
    ensures Keys(s, prefix, nowMs).1 == KeyList(SortedKeys(Matching(Live(p.m, nowMs).Keys, prefix)))
    ensures Refines(Keys(s, prefix, nowMs).0, p, nowMs)
    ensures Refines(Sweep(s, nowMs), p, nowMs)
  {
    hide Latest, Meaning, StandsOn, SortedKeys;
    SweepStandsOn(s, fs, nowMs);
    assert StandsOn(Sweep(s, nowMs), fs, [], nowMs);
  }

  // Crashing

  /** An append that is cut anywhere leaves the records before it and a torn tail, or, when its last
      byte was written, the records after it. */
  lemma CrashInAppendStandsOn(s: Engine, fs: seq<Frame>, f: Frame, cut: nat, nowMs: int64)
    requires StandsOn(s, fs, [], nowMs) && s.isOpen && ValidFrame(f)
    ensures var s' := CrashInAppend(s, f, cut);
            if cut < FrameSize(f) then StandsOn(s', fs, EncodeFrame(f)[..cut], nowMs)
            else StandsOn(s', fs + [f], [], nowMs)
  {
    hide Latest, Meaning, EncodeLog, ParseFrame, EncodeFrame, ValidLog, CacheAgrees, IndexAgrees, Lru.Valid,
        ValidFrame, FrameSize;
    var disk := CrashInAppend(s, f, cut).disk;
    if cut < FrameSize(f) {
      CutFrameIsTorn(f, cut);
      RestartStandsOn(s, disk, fs, EncodeFrame(f)[..cut], nowMs);
    } else {
      AppendAgrees(s, fs, f, nowMs);
      NothingIsTorn();
      assert EncodeLog(fs + [f]) + [] == EncodeLog(fs + [f]);
      RestartStandsOn(s, disk, fs + [f], [], nowMs);
    }
  }

  lemma PlainCrash(s: Engine, fs: seq<Frame>, tail: Bytes, p: Spec, temporary: Option<Bytes>, nowMs: int64)
    requires StandsOn(s, fs, tail, nowMs) && SameView(fs, p, nowMs) && SameStatus(s, p)
    ensures Refines(Restart(s, Disk(s.disk.data, temporary)), p.(isOpen := false), nowMs)
  {
    hide Latest, Meaning, EncodeLog, ParseFrame, ValidLog, CacheAgrees, IndexAgrees, Lru.Valid;
    RestartStandsOn(s, Disk(s.disk.data, temporary), fs, tail, nowMs);
    assert StandsOn(Restart(s, Disk(s.disk.data, temporary)), fs, tail, nowMs);
  }

  lemma CrashSetRefines(s: Engine, fs: seq<Frame>, p: Spec, k: Bytes, v: Bytes, ttlMs: Option<int>, cut: nat,
      nowMs: int64)
    requires StandsOn(s, fs, [], nowMs) && SameView(fs, p, nowMs) && SameStatus(s, p)
    requires s.isOpen && ValidSet(k, v, ttlMs) && TtlFits(ttlMs, nowMs)
    ensures Refines(CrashInSet(s, k, v, ttlMs, cut, nowMs),
                    SpecStep(p, Timed(CrashSet(k, v, ttlMs, cut), nowMs)), nowMs)
  {
    hide Meaning, StandsOn, Live, ValidFrame, EncodeFrame, CrashInAppend;
    var e := ExpiryOf(ttlMs, nowMs);
    var f := SetFrame(k, v, e);
    SetFrameValid(k, v, e);
    CrashInAppendStandsOn(s, fs, f, cut, nowMs);
    CrashStatus(s, f, cut);
    MeaningSnoc(fs, f);
    ViewAfterSet(Meaning(fs), p.m, k, Binding(v, e), nowMs);
    if cut < FrameSize(f) {
      assert StandsOn(CrashInAppend(s, f, cut), fs, EncodeFrame(f)[..cut], nowMs);
    } else {
      assert StandsOn(CrashInAppend(s, f, cut), fs + [f], [], nowMs);
    }
  }

  lemma CrashStatus(s: Engine, f: Frame, cut: nat)
    ensures !CrashInAppend(s, f, cut).isOpen && CrashInAppend(s, f, cut).cleanupIntervalMs == s.cleanupIntervalMs
  {}

  lemma CrashRemoveRefines(s: Engine, fs: seq<Frame>, p: Spec, k: Bytes, cut: nat, nowMs: int64)
    requires StandsOn(s, fs, [], nowMs) && SameView(fs, p, nowMs) && SameStatus(s, p)
    requires s.isOpen && ValidKey(k)
    ensures Refines(CrashInRemove(s, k, cut, nowMs), SpecStep(p, Timed(CrashRemove(k, cut), nowMs)), nowMs)
  {
    hide Meaning, StandsOn, ValidFrame, EncodeFrame, CrashInAppend;
    IndexedKey(s, fs, nowMs, k);
    VisibleIsLive(Meaning(fs), k, nowMs);
    VisibleIsLive(p.m, k, nowMs);
    if WouldDelete(s, k, nowMs) {
      var f := DeleteFrame(k);
      DeleteFrameValid(k);
      CrashInAppendStandsOn(s, fs, f, cut, nowMs);
      CrashStatus(s, f, cut);
      MeaningSnoc(fs, f);
      ViewAfterRemove(Meaning(fs), p.m, k, nowMs);
      if cut < FrameSize(f) {
        assert StandsOn(CrashInAppend(s, f, cut), fs, EncodeFrame(f)[..cut], nowMs);
      } else {
        assert StandsOn(CrashInAppend(s, f, cut), fs + [f], [], nowMs);
      }
    } else {
      PlainCrash(s, fs, [], p, s.disk.temporary, nowMs);
    }
  }

  lemma CrashCompactRefines(s: Engine, fs: seq<Frame>, p: Spec, point: CompactPoint, nowMs: int64)
    requires StandsOn(s, fs, [], nowMs) && SameView(fs, p, nowMs) && SameStatus(s, p) && s.isOpen
    ensures Refines(CrashInCompact(s, point, nowMs), p.(isOpen := false), nowMs)
  {
    hide Latest, Meaning, StandsOn, Compact, Compacted, EncodeLog, ParseFrame, ValidLog;
    CompactDoes(s, fs, nowMs);
    match point
    case TemporaryRemoved => PlainCrash(s, fs, [], p, None, nowMs);
    case Writing(cut) => PlainCrash(s, fs, [], p, Some(Cut(Compact(s, nowMs).0.disk.data, cut)), nowMs);
    case Renamed =>
      var gs := Compacted(fs, nowMs);
      assert EncodeLog(gs) + [] == EncodeLog(gs);
      NothingIsTorn();
      RestartStandsOn(s, Compact(s, nowMs).0.disk, gs, [], nowMs);
      assert StandsOn(Restart(s, Compact(s, nowMs).0.disk), gs, [], nowMs);
  }

  // Every call

  lemma CloseRefines(s: Engine, fs: seq<Frame>, tail: Bytes, p: Spec, nowMs: int64)
    requires StandsOn(s, fs, tail, nowMs) && SameView(fs, p, nowMs) && SameStatus(s, p)
    ensures Refines(Close(s).0, p.(isOpen := false), nowMs)
  {
    hide Latest, Meaning, EncodeLog, ParseFrame, ValidLog, CacheAgrees, IndexAgrees, Lru.Valid;
    assert StandsOn(Close(s).0, fs, tail, nowMs);
  }

  lemma OpenTail(s: Engine, fs: seq<Frame>, tail: Bytes, nowMs: int64)
    requires StandsOn(s, fs, tail, nowMs) && s.isOpen
    ensures tail == []
  {}

  lemma OpenCallRefines(s: Engine, fs: seq<Frame>, p: Spec, c: Timed)
    requires StandsOn(s, fs, [], c.nowMs) && SameView(fs, p, c.nowMs) && SameStatus(s, p)
    requires s.isOpen && Admissible(c) && !c.call.CallOpen? && !c.call.CallClose?
    ensures Answers(p, c, Perform(s, c).1)
    ensures Refines(Perform(s, c).0, SpecStep(p, c), c.nowMs)
  {
    hide StandsOn, SameView, Compact, Keys, Get, Remove, CrashInCompact, CrashInSet, CrashInRemove,
        SetLocked, Sweep, SortedKeys, Live;
    var now := c.nowMs;
    assert Refines(s, p, now) by { assert StandsOn(s, fs, [], now); }
    match c.call
    case CallSet(k, v, ttlMs) =>
      if ValidSet(k, v, ttlMs) { SetRefines(s, fs, p, k, v, ttlMs, now); }
    case CallGet(k) =>
      GetUnfolded(s, k, now);
      if ValidKey(k) { GetRefines(s, fs, p, k, now); LiveValue(p.m, k, now); }
    case CallExists(k) =>
      GetUnfolded(s, k, now);
      if ValidKey(k) { GetRefines(s, fs, p, k, now); }
    case CallRemove(k) =>
      RemoveUnfolded(s, k, now);
      if ValidKey(k) { RemoveRefines(s, fs, p, k, now); }
    case CallKeys(prefix) => KeysRefines(s, fs, p, prefix, now);
    case CallCleanup => KeysRefines(s, fs, p, [], now);
    case CallCompact => CompactRefines(s, fs, p, now);
    case Crash => PlainCrash(s, fs, [], p, s.disk.temporary, now);
    case CrashSet(k, v, ttlMs, cut) =>
      if ValidSet(k, v, ttlMs) {
        CrashSetRefines(s, fs, p, k, v, ttlMs, cut, now);
      } else {
        PlainCrash(s, fs, [], p, s.disk.temporary, now);
        CrashUnfolded(s, k, v, ttlMs, cut, now);
      }
    case CrashRemove(k, cut) =>
      if ValidKey(k) {
        CrashRemoveRefines(s, fs, p, k, cut, now);
      } else {
        PlainCrash(s, fs, [], p, s.disk.temporary, now);
        CrashUnfolded(s, k, [], None, cut, now);
      }
    case CrashCompact(point) => CrashCompactRefines(s, fs, p, point, now);
  }

  lemma LiveValue(m: Bindings, k: Bytes, nowMs: int64)
    ensures k in Live(m, nowMs) ==> k in m && Live(m, nowMs)[k] == m[k]
  {}

  lemma GetUnfolded(s: Engine, k: Bytes, nowMs: int64)
    ensures !s.isOpen ==> Get(s, k, nowMs) == (s, Failed(Closed))
    ensures s.isOpen && !ValidKey(k) ==> Get(s, k, nowMs) == (s, Failed(InvalidArgument))
  {}

  lemma RemoveUnfolded(s: Engine, k: Bytes, nowMs: int64)
    ensures !s.isOpen ==> Remove(s, k, nowMs) == (s, Failed(Closed))
    ensures s.isOpen && !ValidKey(k) ==> Remove(s, k, nowMs) == (s, Failed(InvalidArgument))
  {}

  lemma CrashUnfolded(s: Engine, k: Bytes, v: Bytes, ttlMs: Option<int>, cut: nat, nowMs: int64)
    requires TtlFits(ttlMs, nowMs)
    ensures !s.isOpen || !ValidSet(k, v, ttlMs) ==> CrashInSet(s, k, v, ttlMs, cut, nowMs) == Restart(s, s.disk)
    ensures !s.isOpen || !ValidKey(k) ==> CrashInRemove(s, k, cut, nowMs) == Restart(s, s.disk)
  {}

  lemma ClosedCallRefines(s: Engine, fs: seq<Frame>, tail: Bytes, p: Spec, c: Timed)
    requires StandsOn(s, fs, tail, c.nowMs) && SameView(fs, p, c.nowMs) && SameStatus(s, p)
    requires !s.isOpen && Admissible(c) && !c.call.CallOpen? && !c.call.CallClose?
    ensures Answers(p, c, Perform(s, c).1)
    ensures Refines(Perform(s, c).0, SpecStep(p, c), c.nowMs)
  {
    hide StandsOn, SameView, SetLocked, Sweep, SortedKeys, Live;
    var now := c.nowMs;
    assert Refines(s, p, now) by { assert StandsOn(s, fs, tail, now); }
    PlainCrash(s, fs, tail, p, s.disk.temporary, now);
  }

  /** One call, at a time not before the last one: the engine answers as the timed map does and the
      relation holds again. */
  lemma CallRefines(s: Engine, p: Spec, c: Timed, before: int64)
    requires Refines(s, p, before) && before <= c.nowMs && Admissible(c)
    ensures Answers(p, c, Perform(s, c).1)
    ensures Refines(Perform(s, c).0, SpecStep(p, c), c.nowMs)
  {
    hide StandsOn, SameView, Answers;
    var fs, tail :| StandsOn(s, fs, tail, before) && SameView(fs, p, before);
    TimePasses(s, fs, tail, p, before, c.nowMs);
    if c.call.CallOpen? {
      OpenRefines(s, fs, tail, p, c.nowMs);
    } else if c.call.CallClose? {
      CloseRefines(s, fs, tail, p, c.nowMs);
      CloseAnswer(p, c.nowMs);
    } else if s.isOpen {
      OpenTail(s, fs, tail, c.nowMs);
      OpenCallRefines(s, fs, p, c);
    } else {
      ClosedCallRefines(s, fs, tail, p, c);
    }
  }

  lemma CloseAnswer(p: Spec, nowMs: int64)
    ensures Answers(p, Timed(CallClose, nowMs), Done)
  {}

  // Every run

  ghost predicate ClockMonotone(calls: seq<Timed>, start: int64) {
    calls == [] || (start <= calls[0].nowMs && ClockMonotone(calls[1..], calls[0].nowMs))
  }

  ghost predicate AllAdmissible(calls: seq<Timed>) {
    forall i :: 0 <= i < |calls| ==> Admissible(calls[i])
  }

  /** Along the whole run the engine gives only answers that the timed map gives. */
  ghost predicate AnswersThroughout(s: Engine, p: Spec, calls: seq<Timed>)
    requires AllAdmissible(calls)
    decreases calls
  {
    calls == [] ||
    (&& Answers(p, calls[0], Perform(s, calls[0]).1)
     && AnswersThroughout(Perform(s, calls[0]).0, SpecStep(p, calls[0]), calls[1..]))
  }

  ghost function After(s: Engine, calls: seq<Timed>): Engine
    requires AllAdmissible(calls)
    decreases calls
  {
    if calls == [] then s else After(Perform(s, calls[0]).0, calls[1..])
  }

  ghost function SpecAfter(p: Spec, calls: seq<Timed>): Spec
    requires AllAdmissible(calls)
    decreases calls
  {
    if calls == [] then p else SpecAfter(SpecStep(p, calls[0]), calls[1..])
  }

  ghost function LastTime(calls: seq<Timed>, start: int64): int64 {
    if calls == [] then start else calls[|calls| - 1].nowMs
  }

  lemma {:induction false} RunRefines(s: Engine, p: Spec, calls: seq<Timed>, start: int64)
    requires Refines(s, p, start) && AllAdmissible(calls) && ClockMonotone(calls, start)
    ensures AnswersThroughout(s, p, calls)
    ensures Refines(After(s, calls), SpecAfter(p, calls), LastTime(calls, start))
    decreases calls
  {
    hide Refines, Answers, Perform, SpecStep, Admissible;
    if calls != [] {
      CallRefines(s, p, calls[0], start);
      RunRefines(Perform(s, calls[0]).0, SpecStep(p, calls[0]), calls[1..], calls[0].nowMs);
    }
  }

  /** A process that starts on a data file. */
  function Boot(disk: Disk, cleanupIntervalMs: int, capacity: nat): Engine {
    Engine(disk, cleanupIntervalMs, false, map[], Lru.Empty(capacity), NO_COUNTS)
  }

  /** End-to-end refinement. Start the store on any file that recovery does not refuse, let any calls,
      restarts and crashes follow with a clock that does not go back: every answer is the answer of
      the timed map that the file described at the start. */
  lemma EndToEnd(disk: Disk, cleanupIntervalMs: int, capacity: nat, calls: seq<Timed>, start: int64)
    requires !Refused(disk.data) && AllAdmissible(calls) && ClockMonotone(calls, start)
    ensures AnswersThroughout(Boot(disk, cleanupIntervalMs, capacity),
                              Spec(cleanupIntervalMs > 0, false, Meaning(Split(disk.data).frames)), calls)
  {
    hide Latest, Meaning, EncodeLog, ParseFrame, ValidLog, Split, AnswersThroughout, ClockMonotone, AllAdmissible;
    SplitSound(disk.data);
    var scan := Split(disk.data);
    var s := Boot(disk, cleanupIntervalMs, capacity);
    var p := Spec(cleanupIntervalMs > 0, false, Meaning(scan.frames));
    assert StandsOn(s, scan.frames, scan.tail, start);
    assert SameView(scan.frames, p, start);
    RunRefines(s, p, calls, start);
  }

  /** The same from an empty file, which is what the store creates when there is none: the timed map
      starts empty. */
  lemma FromEmptyFile(cleanupIntervalMs: int, capacity: nat, calls: seq<Timed>, start: int64)
    requires AllAdmissible(calls) && ClockMonotone(calls, start)
    ensures AnswersThroughout(Boot(Disk([], None), cleanupIntervalMs, capacity),
                              Spec(cleanupIntervalMs > 0, false, map[]), calls)
  {
    hide AnswersThroughout, ClockMonotone, AllAdmissible, ParseFrame;
    NothingIsTorn();
    assert Split([]) == Scan([], []);
    EndToEnd(Disk([], None), cleanupIntervalMs, capacity, calls, start);
  }

  /** After every run that leaves the store open, and at that or any later time, a fresh recovery of
      the current file would succeed, cut nothing and build exactly the index that is in memory,
      metadata included, once its expired keys are left aside. */
  lemma IndexIsRecoveryThroughout(s: Engine, p: Spec, calls: seq<Timed>, start: int64, t: int64)
    requires Refines(s, p, start) && AllAdmissible(calls) && ClockMonotone(calls, start)
    requires LastTime(calls, start) <= t
    ensures var s' := After(s, calls);
            s'.isOpen ==>
              && Recover(s'.disk.data, t).Ok?
              && Recover(s'.disk.data, t).value.index == LiveIndex(s'.index, t)
              && Recover(s'.disk.data, t).value.truncatedBytes == 0
              && RecoveredBytes(s'.disk.data) == s'.disk.data
  {
    hide StandsOn, SameView, Recover, RecoveredBytes, After, LastTime;
    RunRefines(s, p, calls, start);
    var s' := After(s, calls);
    var now := LastTime(calls, start);
    var fs, tail :| StandsOn(s', fs, tail, now) && SameView(fs, SpecAfter(p, calls), now);
    if s'.isOpen {
      OpenTail(s', fs, tail, now);
      IndexIsRecovery(s', fs, now, t);
    }
  }

  /** What a store that cannot be opened answers. */
  function ClosedAnswer(s: Engine, c: Call): Outcome {
    match c
    case CallOpen => Failed(if s.cleanupIntervalMs > 0 then Corruption else InvalidArgument)
    case CallCleanup => Removed(0)
    case CallSet(_, _, _) => Failed(Closed)
    case CallGet(_) => Failed(Closed)
    case CallRemove(_) => Failed(Closed)
    case CallExists(_) => Failed(Closed)
    case CallKeys(_) => Failed(Closed)
    case CallCompact => Failed(Closed)
    case _ => Done
  }

  ghost predicate ClosedThroughout(s: Engine, calls: seq<Timed>)
    requires AllAdmissible(calls)
    decreases calls
  {
    calls == [] ||
    (&& Perform(s, calls[0]).1 == ClosedAnswer(s, calls[0].call)
     && ClosedThroughout(Perform(s, calls[0]).0, calls[1..]))
  }

  lemma RefusedCall(s: Engine, c: Timed)
    requires Refused(s.disk.data) && !s.isOpen && Admissible(c)
    ensures Perform(s, c).1 == ClosedAnswer(s, c.call)
    ensures var s' := Perform(s, c).0;
            s'.disk == s.disk && !s'.isOpen && s'.cleanupIntervalMs == s.cleanupIntervalMs
  {
    hide ParseFrame, Split, Replay, SetLocked, Sweep, CompactSwept, CrashInAppend;
  }

  /** And a file that recovery refuses is never opened and never touched: whatever calls, restarts and
      crashes follow, every attempt to open reports the corruption, every operation on the contents
      reports that the store is closed, and disk and status stay as they were. */
  lemma {:induction false} RefusedStaysClosed(s: Engine, calls: seq<Timed>)
    requires Refused(s.disk.data) && !s.isOpen && AllAdmissible(calls)
    ensures ClosedThroughout(s, calls)
    ensures After(s, calls).disk == s.disk && !After(s, calls).isOpen
    decreases calls
  {
    hide Refused, Perform, Admissible, ClosedAnswer;
    if calls != [] {
      RefusedCall(s, calls[0]);
      RefusedStaysClosed(Perform(s, calls[0]).0, calls[1..]);
    }
  }
}
