/** What the operations mean to their caller, in terms of times, sizes and counts alone. */
module UserView {
  import opened Types
  import opened Codec
  import opened Log
  import opened Recovery
  import opened Compaction
  import opened Ordering
  import opened Engine
  import opened TimedMap
  import opened Refinement
  import opened ClockGoingBack
  import Lru

  /** What GET answers at any time, earlier ones included. */
  lemma AnswerOfGet(s: Engine, fs: seq<Frame>, nowMs: int64, k: Bytes, t: int64)
    requires StandsOn(s, fs, [], nowMs) && s.isOpen && ValidKey(k)
    ensures Get(s, k, t).1 ==
            if k in s.index && Visible(Meaning(fs), k, t) then Value(Meaning(fs)[k].value) else Failed(NotFound)
  {
    hide StandsOn, Meaning, Fetch, EraseIfExpired;
    CountStandsOn(s, fs, nowMs);
    IndexedKey(CountGet(s), fs, nowMs, k);
    if k in s.index {
      FetchStandsOn(CountGet(s), fs, k, nowMs);
    }
  }

  // How long a binding is visible

  lemma AfterSet(s: Engine, fs: seq<Frame>, k: Bytes, v: Bytes, e: int64, nowMs: int64, t: int64)
    requires StandsOn(s, fs, [], nowMs) && s.isOpen && ValidKey(k) && |v| <= MAX_VALUE_SIZE
    ensures Get(SetLocked(s, k, v, e), k, t).1 == if e <= 0 || t < e then Value(v) else Failed(NotFound)
    ensures forall j :: ValidKey(j) && j != k ==> Get(SetLocked(s, k, v, e), j, t).1 == Get(s, j, t).1
  {
    hide StandsOn, Meaning, Get, EncodeFrame, Lru.Put, MetaAt;
    SetFrameValid(k, v, e);
    SetLockedStandsOn(s, fs, k, v, e, nowMs);
    var s' := SetLocked(s, k, v, e);
    var gs := fs + [SetFrame(k, v, e)];
    AnswerOfGet(s', gs, nowMs, k, t);
    forall j | ValidKey(j) && j != k
      ensures Get(s', j, t).1 == Get(s, j, t).1
    {
      AnswerOfGet(s, fs, nowMs, j, t);
      AnswerOfGet(s', gs, nowMs, j, t);
    }
  }

  /** A SET without a TTL is visible at every time; other keys answer as before. */
  lemma SetWithoutTtl(s: Engine, fs: seq<Frame>, k: Bytes, v: Bytes, nowMs: int64, t: int64)
    requires StandsOn(s, fs, [], nowMs) && s.isOpen && 0 < |k| <= MAX_KEY_SIZE && |v| <= MAX_VALUE_SIZE
    ensures Get(Set(s, k, v, None, nowMs).0, k, t).1 == Value(v)
    ensures forall j :: ValidKey(j) && j != k ==> Get(Set(s, k, v, None, nowMs).0, j, t).1 == Get(s, j, t).1
  {
    hide StandsOn, Meaning, Get, SetLocked;
    AfterSet(s, fs, k, v, 0, nowMs, t);
  }

  /** A SET with a TTL is visible until clock plus TTL, and not at that time or later. A sum that is
      not positive, which takes a clock before 1970, would mean no expiry at all. */
  lemma SetWithTtl(s: Engine, fs: seq<Frame>, k: Bytes, v: Bytes, d: int, nowMs: int64, t: int64)
    requires StandsOn(s, fs, [], nowMs) && s.isOpen && 0 < |k| <= MAX_KEY_SIZE && |v| <= MAX_VALUE_SIZE
    requires 0 < d && nowMs + d <= INT64_MAX
    ensures Get(Set(s, k, v, Some(d), nowMs).0, k, t).1 ==
            if t < nowMs + d || nowMs + d <= 0 then Value(v) else Failed(NotFound)
    ensures forall j :: ValidKey(j) && j != k ==> Get(Set(s, k, v, Some(d), nowMs).0, j, t).1 == Get(s, j, t).1
  {
    hide StandsOn, Meaning, Get, SetLocked;
    AfterSet(s, fs, k, v, nowMs + d, nowMs, t);
  }

  /** After a DEL the key is found at no time; other keys answer as before. */
  lemma AfterRemove(s: Engine, fs: seq<Frame>, k: Bytes, nowMs: int64, t: int64)
    requires StandsOn(s, fs, [], nowMs) && s.isOpen && ValidKey(k)
    ensures Get(Remove(s, k, nowMs).0, k, t).1 == Failed(NotFound)
    ensures forall j :: ValidKey(j) && j != k ==> Get(Remove(s, k, nowMs).0, j, t).1 == Get(s, j, t).1
  {
    hide StandsOn, Meaning, Get, EncodeFrame, Lru.Erase, IsExpired;
    var s' := Remove(s, k, nowMs).0;
    var gs := fs;
    if k in s.index {
      if IsExpired(s.index[k].expiresAtMs, nowMs) {
        DropExpiredStandsOn(s, fs, k, nowMs);
      } else {
        RemoveLive(s, fs, k, nowMs);
        gs := fs + [DeleteFrame(k)];
      }
    }
    AnswerOfGet(s', gs, nowMs, k, t);
    forall j | ValidKey(j) && j != k
      ensures Get(s', j, t).1 == Get(s, j, t).1
    {
      AnswerOfGet(s, fs, nowMs, j, t);
      AnswerOfGet(s', gs, nowMs, j, t);
    }
  }

  // What restarts, cleaning and compaction leave alone

  lemma SeenAnswers(s: Engine, s': Engine, fs: seq<Frame>, gs: seq<Frame>, nowMs: int64, u: int64, k: Bytes, t: int64)
    requires StandsOn(s, fs, [], nowMs) && s.isOpen && HasSeen(s', fs, gs, u) && nowMs <= u <= t && ValidKey(k)
    ensures Get(s', k, t).1 == Get(s, k, t).1
  {
    hide StandsOn, Meaning, Get, Remove, HasSeen;
    TimePasses(s, fs, [], Spec(true, true, Meaning(fs)), nowMs, t);
    AnswerOfGet(s, fs, t, k, t);
    IndexedKey(s, fs, t, k);
    EarlierCall(s', fs, gs, u, k, t);
  }

  /** A key answers the same at every later time after a cleanup, after a compaction, after closing and
      reopening, and after the process has died between two calls and the store is opened again. */
  lemma NothingElseChanges(s: Engine, fs: seq<Frame>, nowMs: int64, u: int64, k: Bytes, t: int64)
    requires StandsOn(s, fs, [], nowMs) && s.isOpen && nowMs <= u <= t && ValidKey(k)
    ensures Get(Cleanup(s, u).0, k, t).1 == Get(s, k, t).1
    ensures Get(Compact(s, u).0, k, t).1 == Get(s, k, t).1
    ensures Get(Open(Close(s).0, u).0, k, t).1 == Get(s, k, t).1
    ensures Get(Open(Restart(s, s.disk), u).0, k, t).1 == Get(s, k, t).1
  {
    hide StandsOn, Meaning, Get, Compact, Open, Sweep, HasSeen;
    TimePasses(s, fs, [], Spec(true, true, Meaning(fs)), nowMs, u);
    SweepSees(s, fs, u);
    SeenAnswers(s, Sweep(s, u), fs, fs, nowMs, u, k, t);
    CompactSees(s, fs, u);
    SeenAnswers(s, Compact(s, u).0, fs, Compacted(fs, u), nowMs, u, k, t);
    RestartsOn(s, fs, u, u);
    OpenSees(Restart(s, s.disk), fs, [], u);
    SeenAnswers(s, Open(Restart(s, s.disk), u).0, fs, fs, nowMs, u, k, t);
    CloseStandsOn(s, fs, u);
    OpenSees(Close(s).0, fs, [], u);
    SeenAnswers(s, Open(Close(s).0, u).0, fs, fs, nowMs, u, k, t);
  }

  lemma CloseStandsOn(s: Engine, fs: seq<Frame>, u: int64)
    requires StandsOn(s, fs, [], u)
    ensures StandsOn(Close(s).0, fs, [], u)
  {
    hide Meaning, EncodeLog, ParseFrame, ValidLog, IndexAgrees, CacheAgrees;
  }

  /** Once closed, the store refuses every operation on its contents and keeps its file. */
  lemma ClosedRefuses(s: Engine, c: Timed)
    requires Admissible(c)
    requires c.call.CallSet? || c.call.CallGet? || c.call.CallRemove? || c.call.CallExists? || c.call.CallKeys?
             || c.call.CallCompact?
    ensures Close(s).1 == Done && Close(s).0.disk == s.disk
    ensures Perform(Close(s).0, c) == (Close(s).0, Failed(Closed))
  {}

  // What is refused

  /** Keys of 1 to 4096 bytes, values of up to 16 MiB and positive TTLs are accepted, and no others. */
  lemma Refusals(s: Engine, k: Bytes, v: Bytes, ttlMs: Option<int>, nowMs: int64)
    requires s.isOpen && TtlFits(ttlMs, nowMs)
    ensures var badKey := k == [] || |k| > 4096;
            var badValue := |v| > 16777216 || (ttlMs.Some? && ttlMs.value <= 0);
            && Set(s, k, v, ttlMs, nowMs).1 == (if badKey || badValue then Failed(InvalidArgument) else Done)
            && (badKey || badValue ==> Set(s, k, v, ttlMs, nowMs).0 == s)
            && (Get(s, k, nowMs) == (s, Failed(InvalidArgument)) <==> badKey)
            && (Remove(s, k, nowMs) == (s, Failed(InvalidArgument)) <==> badKey)
            && (Exists(s, k, nowMs) == (s, Failed(InvalidArgument)) <==> badKey)
  {
    hide Lru.Get, Lru.Put, Lru.Erase, EncodeFrame;
  }

  // Listing keys

  /** The smaller key is a proper prefix, or has the smaller byte where the two first differ. */
  ghost predicate Precedes(a: Bytes, b: Bytes) {
    exists n: nat ::
      && n <= |a| && n < |b| && a[..n] == b[..n]
      && (n == |a| || a[n] < b[n])
  }

  lemma {:induction false} LessIsPrecedes(a: Bytes, b: Bytes)
    ensures KeyLess(a, b) <==> Precedes(a, b)
  {
    if a == [] {
      assert b != [] ==> a[..0] == b[..0];
    } else if b != [] {
      LessIsPrecedes(a[1..], b[1..]);
      if a[0] == b[0] {
        SameFirst(a, b);
      } else {
        assert a[..0] == b[..0];
        assert forall n: nat :: 0 < n <= |a| && n < |b| && a[..n] == b[..n] ==> a[..n][0] == b[..n][0];
      }
    }
  }

  lemma SameFirst(a: Bytes, b: Bytes)
    requires a != [] && b != [] && a[0] == b[0]
    ensures Precedes(a[1..], b[1..]) <==> Precedes(a, b)
  {
    if Precedes(a[1..], b[1..]) {
      var n: nat :| n <= |a[1..]| && n < |b[1..]| && a[1..][..n] == b[1..][..n]
        && (n == |a[1..]| || a[1..][n] < b[1..][n]);
      assert a[..n + 1] == [a[0]] + a[1..][..n] == b[..n + 1];
    }
    if Precedes(a, b) {
      var n: nat :| n <= |a| && n < |b| && a[..n] == b[..n] && (n == |a| || a[n] < b[n]);
      assert n > 0;
      assert a[1..][..n - 1] == a[..n][1..] && b[1..][..n - 1] == b[..n][1..];
    }
  }

  /** KEYS lists exactly the live keys that begin with the prefix, each once, in byte order. */
  lemma KeysSelects(s: Engine, p: Spec, prefix: Bytes, nowMs: int64)
    requires Refines(s, p, nowMs) && s.isOpen
    ensures var r := Keys(s, prefix, nowMs).1;
            && r.KeyList?
            && (forall k :: k in r.keys <==>
                  && k in Live(p.m, nowMs)
                  && |prefix| <= |k| && forall i :: 0 <= i < |prefix| ==> k[i] == prefix[i])
            && (forall i, j :: 0 <= i < j < |r.keys| ==> Precedes(r.keys[i], r.keys[j]) && r.keys[i] != r.keys[j])
  {
    hide StandsOn, SameView, Live, Keys, KeyLess, Precedes;
    var fs, tail :| StandsOn(s, fs, tail, nowMs) && SameView(fs, p, nowMs);
    OpenTail(s, fs, tail, nowMs);
    KeysRefines(s, fs, p, prefix, nowMs);
    var ks := Keys(s, prefix, nowMs).1.keys;
    forall i, j | 0 <= i < j < |ks|
      ensures Precedes(ks[i], ks[j]) && ks[i] != ks[j]
    {
      LessIsPrecedes(ks[i], ks[j]);
      LessIrreflexive(ks[i]);
    }
  }

  /** Without a prefix KEYS lists every live key. */
  lemma KeysListsAll(s: Engine, p: Spec, nowMs: int64)
    requires Refines(s, p, nowMs) && s.isOpen
    ensures var r := Keys(s, [], nowMs).1;
            r.KeyList? && |r.keys| == |Live(p.m, nowMs)| && forall k :: k in r.keys <==> k in Live(p.m, nowMs)
  {
    hide Refines, Keys, Live, Precedes;
    KeysSelects(s, p, [], nowMs);
    var ks := Keys(s, [], nowMs).1.keys;
    DistinctCount(ks, Live(p.m, nowMs).Keys);
  }

  lemma {:induction false} DistinctCount(ks: seq<Bytes>, s: set<Bytes>)
    requires forall i, j :: 0 <= i < j < |ks| ==> ks[i] != ks[j]
    requires forall k :: k in ks <==> k in s
    ensures |ks| == |s|
  {
    if ks == [] {
      assert s == {};
    } else {
      var n := |ks| - 1;
      assert ks == ks[..n] + [ks[n]];
      assert ks[n] in ks && ks[n] !in ks[..n];
      DistinctCount(ks[..n], s - {ks[n]});
    }
  }

  // Cleaning and opening

  /** Cleaning an open store drops exactly the keys whose expiry has been reached, and answers and
      counts how many they were. */
  lemma CleanupCounts(s: Engine, nowMs: int64)
    requires s.isOpen
    ensures var (s', r) := Cleanup(s, nowMs);
            && r == Removed(|s.index| - |s'.index|)
            && r.count == s'.counters.expired - s.counters.expired
            && (forall k :: k in s'.index <==>
                  k in s.index && (s.index[k].expiresAtMs <= 0 || nowMs < s.index[k].expiresAtMs))
            && (forall k :: k in s'.index ==> s'.index[k] == s.index[k])
  {
    var gone := ExpiredKeys(s.index, nowMs);
    assert (s.index - gone).Keys == s.index.Keys - gone;
    assert gone <= s.index.Keys;
  }

  /** Opening reports the number of whole records in the file and the bytes by which it shrank. */
  lemma OpenCounts(s: Engine, nowMs: int64)
    requires !s.isOpen && s.cleanupIntervalMs > 0 && !Refused(s.disk.data)
    ensures var (s', r) := Open(s, nowMs);
            && r == Done
            && (exists fs: seq<Frame> ::
                  && ValidLog(fs) && s'.disk.data == EncodeLog(fs) <= s.disk.data
                  && s'.counters.recovered == |fs|)
            && s'.counters.truncated == |s.disk.data| - |s'.disk.data|
            && s'.counters.(recovered := 0, truncated := 0) == s.counters.(recovered := 0, truncated := 0)
  {
    hide ParseFrame, EncodeLog, ValidLog, Replay, Split;
    SplitSound(s.disk.data);
    var fs := Split(s.disk.data).frames;
    assert EncodeLog(fs) <= EncodeLog(fs) + Split(s.disk.data).tail;
  }

  // The cache behind the answers

  predicate Cached(s: Engine, k: Bytes) {
    Lru.Has(s.cache.entries, k)
  }

  predicate AtFront(s: Engine, k: Bytes, v: Bytes) {
    s.cache.entries != [] && s.cache.entries[0] == (k, v)
  }

  /** A GET that finds its key counts one hit if the key was cached and one miss if it was not, and
      leaves the key in front; a GET that does not find its key leaves the cache's counters alone. */
  lemma GetAndCache(s: Engine, fs: seq<Frame>, k: Bytes, nowMs: int64)
    requires StandsOn(s, fs, [], nowMs) && s.isOpen && ValidKey(k)
    ensures var (s', r) := Get(s, k, nowMs);
            var hit, miss := s'.cache.hits - s.cache.hits, s'.cache.misses - s.cache.misses;
            match r
            case Value(v) =>
              && hit + miss == 1 && (hit == 1 <==> Cached(s, k))
              && (s.cache.capacity > 0 ==> AtFront(s', k, v))
            case _ => hit == 0 && miss == 0 && !Cached(s', k)
  {
    hide StandsOn, Meaning, ReadValue, Lru.Lookup, Lru.Without, IsExpired;
    CountStandsOn(s, fs, nowMs);
    var s1 := CountGet(s);
    IndexedKey(s1, fs, nowMs, k);
    CachedIsIndexed(s, fs, nowMs, k);
    if k in s.index {
      if IsExpired(s.index[k].expiresAtMs, nowMs) {
        DropExpiredStandsOn(s1, fs, k, nowMs);
        CachedIsIndexed(DropExpired(s1, k), fs, nowMs, k);
      } else {
        FetchStandsOn(s1, fs, k, nowMs);
      }
    }
  }

  lemma CachedIsIndexed(s: Engine, fs: seq<Frame>, nowMs: int64, k: Bytes)
    requires StandsOn(s, fs, [], nowMs) && s.isOpen
    ensures Cached(s, k) ==> k in s.index
  {
    hide Meaning, EncodeLog, ParseFrame, ValidLog, IndexAgrees, Lru.Valid;
    if Cached(s, k) {
      var i :| 0 <= i < |s.cache.entries| && s.cache.entries[i].0 == k;
      assert s.cache.entries[i] in s.cache.entries;
    }
  }

  /** A SET leaves its binding in front of the cache, a DEL takes its key out; neither counts a hit or
      a miss. */
  lemma WriteAndCache(s: Engine, fs: seq<Frame>, k: Bytes, v: Bytes, ttlMs: Option<int>, nowMs: int64)
    requires StandsOn(s, fs, [], nowMs) && s.isOpen && ValidSet(k, v, ttlMs) && TtlFits(ttlMs, nowMs)
    ensures var s' := Set(s, k, v, ttlMs, nowMs).0;
            && (s.cache.capacity > 0 ==> AtFront(s', k, v))
            && s'.cache.hits == s.cache.hits && s'.cache.misses == s.cache.misses
    ensures var s' := Remove(s, k, nowMs).0;
            && !Cached(s', k)
            && s'.cache.hits == s.cache.hits && s'.cache.misses == s.cache.misses
  {
    hide StandsOn, Meaning, EncodeFrame, Lru.Without, MetaAt, IsExpired;
    CachedIsIndexed(s, fs, nowMs, k);
    var s' := Remove(s, k, nowMs).0;
    if k in s.index {
      if IsExpired(s.index[k].expiresAtMs, nowMs) {
        DropExpiredStandsOn(s, fs, k, nowMs);
        CachedIsIndexed(s', fs, nowMs, k);
      } else {
        RemoveLive(s, fs, k, nowMs);
        CachedIsIndexed(s', fs + [DeleteFrame(k)], nowMs, k);
      }
    }
  }
}
