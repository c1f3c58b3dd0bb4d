/** Many threads on one open store. A reader moves through the separate steps of `get` under the
    shared lock; a writer's critical section is one step, taken while no reader holds the lock; the
    clock reading before a SET and the second phase of an expiry happen outside any lock. */
module Concurrency {
  import opened Types
  import opened Codec
  import opened Log
  import opened Compaction
  import opened Engine
  import opened TimedMap
  import opened Refinement
  import Lru

  /** Operations as they take effect, with the expiry of a SET already fixed. */
  datatype LinOp = LinGet(key: Bytes) | LinSet(key: Bytes, value: Bytes, expiresAtMs: int64)
                 | LinRemove(key: Bytes) | LinCleanup | LinCompact

  /** One entry of the history: the thread that acted, its operation, the clock at which the operation
      took effect, and its response. */
  datatype Event = Event(thread: nat, op: LinOp, nowMs: int64, response: Outcome)

  /** Where a thread is. `since` is the length of the history when the call began, `at` the position
      of the call's own entry. */
  datatype Thread =
    | Idle
    | GetEntered(key: Bytes, since: nat)
    | GetLocked(key: Bytes, since: nat)
    | GetFound(key: Bytes, meta: RecordMetadata, since: nat)
    | GetChecked(key: Bytes, meta: RecordMetadata, at: nat, since: nat)
    | GetMissed(key: Bytes, meta: RecordMetadata, at: nat, since: nat)
    | GetRead(key: Bytes, value: Bytes, at: nat, since: nat)
    | GetExpired(key: Bytes, seenMs: int64, at: nat, since: nat)
    | Waiting(op: LinOp, since: nat)
    | Responded(op: LinOp, response: Outcome, at: nat, since: nat)

  /** A call that has returned. `until` is the length of the history when it did. */
  datatype Finished = Finished(thread: nat, op: LinOp, response: Outcome, at: nat, since: nat, until: nat)

  /** The store, the clock and the threads, with three history variables: the timed map, the list of
      operations that have taken effect on it, and the calls that have returned. */
  datatype System = System(
    engine: Engine, nowMs: int64, threads: map<nat, Thread>, m: Bindings, history: seq<Event>,
    finished: seq<Finished>)

  predicate HoldsShared(t: Thread) {
    t.GetLocked? || t.GetFound? || t.GetChecked? || t.GetMissed? || t.GetRead?
  }

  ghost predicate NoReader(c: System) {
    forall i :: i in c.threads ==> !HoldsShared(c.threads[i])
  }

  datatype Action =
    | Tick(nowMs: int64)
    | InvokeGet(key: Bytes)
    | InvokeSet(key: Bytes, value: Bytes, ttlMs: Option<int>)
    | InvokeRemove(key: Bytes)
    | InvokeCleanup
    | InvokeCompact
    | LockShared
    | LookUp
    | ReadClock
    | AskCache
    | ReadFile
    | FillCache
    | EraseExpired
    | RunExclusive
    | Return

  // The timed map and its legal histories

  function MapStep(m: Bindings, e: Event): Bindings {
    match e.op
    case LinSet(k, v, expiresAtMs) => m[k := Binding(v, expiresAtMs)]
    case LinRemove(k) => if Visible(m, k, e.nowMs) then m - {k} else m
    case _ => m
  }

  function MapAfter(m: Bindings, history: seq<Event>): Bindings {
    if history == [] then m
    else MapStep(MapAfter(m, history[..|history| - 1]), history[|history| - 1])
  }

  function GetResponse(m: Bindings, k: Bytes, nowMs: int64): Outcome {
    if Visible(m, k, nowMs) then Value(m[k].value) else Failed(NotFound)
  }

  /** The responses that the timed map allows. */
  predicate Allows(m: Bindings, e: Event) {
    match e.op
    case LinGet(k) => e.response == GetResponse(m, k, e.nowMs)
    case LinSet(_, _, _) => e.response == Done
    case LinRemove(k) => e.response == if Visible(m, k, e.nowMs) then Done else Failed(NotFound)
    case LinCleanup => e.response.Removed?
    case LinCompact => e.response.Summary? && e.response.liveKeys == |Live(m, e.nowMs)|
  }

  /** A sequential run of the timed map, with a clock that does not go back. */
  ghost predicate Legal(m: Bindings, history: seq<Event>, nowMs: int64)
    decreases |history|
  {
    history == [] ||
    (var e := history[|history| - 1];
     && e.nowMs <= nowMs
     && Allows(MapAfter(m, history[..|history| - 1]), e)
     && Legal(m, history[..|history| - 1], e.nowMs))
  }

  // Steps

  predicate ValidWrite(op: LinOp) {
    match op
    case LinSet(k, v, _) => ValidKey(k) && |v| <= MAX_VALUE_SIZE
    case LinRemove(k) => ValidKey(k)
    case LinGet(_) => false
    case _ => true
  }

  /** The critical section of a writer. */
  ghost function Exclusive(s: Engine, op: LinOp, nowMs: int64): (Engine, Outcome)
    requires ValidWrite(op)
  {
    match op
    case LinSet(k, v, e) => (SetLocked(s, k, v, e), Done)
    case LinRemove(k) => Remove(s, k, nowMs)
    case LinCleanup => Cleanup(s, nowMs)
    case LinCompact => Compact(s, nowMs)
  }

  ghost predicate Enabled(c: System, i: nat, a: Action) {
    if a.Tick? then c.nowMs <= a.nowMs
    else
      && i in c.threads
      && var t := c.threads[i];
         match a
         case InvokeGet(k) => t.Idle? && ValidKey(k)
         case InvokeSet(k, v, ttlMs) => t.Idle? && ValidSet(k, v, ttlMs) && TtlFits(ttlMs, c.nowMs)
         case InvokeRemove(k) => t.Idle? && ValidKey(k)
         case InvokeCleanup => t.Idle?
         case InvokeCompact => t.Idle?
         case LockShared => t.GetEntered?
         case LookUp => t.GetLocked?
         case ReadClock => t.GetFound?
         case AskCache => t.GetChecked?
         case ReadFile => t.GetMissed?
         case FillCache => t.GetRead?
         case EraseExpired => t.GetExpired? && NoReader(c)
         case RunExclusive => t.Waiting? && ValidWrite(t.op) && NoReader(c)
         case Return => t.Responded?
         case Tick(_) => false
  }

  function SetThread(c: System, i: nat, t: Thread): System {
    c.(threads := c.threads[i := t])
  }

  function RecordEvent(c: System, i: nat, op: LinOp, r: Outcome): System {
    var e := Event(i, op, c.nowMs, r);
    c.(m := MapStep(c.m, e), history := c.history + [e])
  }

  ghost function Next(c: System, i: nat, a: Action): System
    requires Enabled(c, i, a)
  {
    var n := |c.history|;
    match a
    case Tick(t) => c.(nowMs := t)
    case InvokeGet(k) => SetThread(c.(engine := CountGet(c.engine)), i, GetEntered(k, n))
    case InvokeSet(k, v, ttlMs) => SetThread(c, i, Waiting(LinSet(k, v, ExpiryOf(ttlMs, c.nowMs)), n))
    case InvokeRemove(k) => SetThread(c, i, Waiting(LinRemove(k), n))
    case InvokeCleanup => SetThread(c, i, Waiting(LinCleanup, n))
    case InvokeCompact => SetThread(c, i, Waiting(LinCompact, n))
    case LockShared => SetThread(c, i, GetLocked(c.threads[i].key, c.threads[i].since))
    case LookUp =>
      var GetLocked(k, since) := c.threads[i];
      if k in c.engine.index then SetThread(c, i, GetFound(k, c.engine.index[k], since))
      else SetThread(RecordEvent(c, i, LinGet(k), GetResponse(c.m, k, c.nowMs)), i,
                     Responded(LinGet(k), Failed(NotFound), n, since))
    case ReadClock =>
      var GetFound(k, meta, since) := c.threads[i];
      SetThread(RecordEvent(c, i, LinGet(k), GetResponse(c.m, k, c.nowMs)), i,
                if IsExpired(meta.expiresAtMs, c.nowMs) then GetExpired(k, c.nowMs, n, since)
                else GetChecked(k, meta, n, since))
    case AskCache =>
      var GetChecked(k, meta, at, since) := c.threads[i];
      var (s, cached) := CacheGet(c.engine, k);
      SetThread(c.(engine := s), i,
                match cached
                case Some(v) => Responded(LinGet(k), Value(v), at, since)
                case None => GetMissed(k, meta, at, since))
    case ReadFile =>
      var GetMissed(k, meta, at, since) := c.threads[i];
      SetThread(c, i,
                match ReadValue(c.engine.disk.data, meta)
                case Ok(v) => GetRead(k, v, at, since)
                case Err(code) => Responded(LinGet(k), Failed(code), at, since))
    case FillCache =>
      var GetRead(k, v, at, since) := c.threads[i];
      SetThread(c.(engine := CachePut(c.engine, k, v)), i, Responded(LinGet(k), Value(v), at, since))
    case EraseExpired =>
      var GetExpired(k, seenMs, at, since) := c.threads[i];
      SetThread(c.(engine := EraseIfExpired(c.engine, k, seenMs)), i,
                Responded(LinGet(k), Failed(NotFound), at, since))
    case RunExclusive =>
      var Waiting(op, since) := c.threads[i];
      var (s, r) := Exclusive(c.engine, op, c.nowMs);
      SetThread(RecordEvent(c.(engine := s), i, op, r), i, Responded(op, r, n, since))
    case Return =>
      var Responded(op, r, at, since) := c.threads[i];
      SetThread(c.(finished := c.finished + [Finished(i, op, r, at, since, n)]), i, Idle)
  }

  // The invariant

  ghost predicate Logged(history: seq<Event>, op: LinOp, r: Outcome, at: nat, since: nat) {
    since <= at < |history| && history[at].op == op && history[at].response == r
  }

  /** What a thread relies on where it stands. */
  ghost predicate ThreadOk(t: Thread, index: Index, m: Bindings, history: seq<Event>, nowMs: int64) {
    match t
    case Idle => true
    case GetEntered(_, since) => since <= |history|
    case GetLocked(_, since) => since <= |history|
    case GetFound(k, meta, since) => since <= |history| && k in index && index[k] == meta
    case GetChecked(k, meta, at, since) =>
      k in index && index[k] == meta && k in m && Logged(history, LinGet(k), Value(m[k].value), at, since)
    case GetMissed(k, meta, at, since) =>
      k in index && index[k] == meta && k in m && Logged(history, LinGet(k), Value(m[k].value), at, since)
    case GetRead(k, v, at, since) =>
      k in index && k in m && m[k].value == v && Logged(history, LinGet(k), Value(v), at, since)
    case GetExpired(k, seenMs, at, since) =>
      seenMs <= nowMs && Logged(history, LinGet(k), Failed(NotFound), at, since)
    case Waiting(op, since) => since <= |history| && ValidWrite(op)
    case Responded(op, r, at, since) => Logged(history, op, r, at, since)
  }

  /** File, index and cache agree; the history is a legal run of the timed map that ends in a map
      with the engine's view; and every thread may rely on what it has seen. */
  ghost predicate Good(c: System, start: Bindings, fs: seq<Frame>) {
    && c.engine.isOpen
    && StandsOn(c.engine, fs, [], c.nowMs)
    && Live(Meaning(fs), c.nowMs) == Live(c.m, c.nowMs)
    && Legal(start, c.history, c.nowMs)
    && MapAfter(start, c.history) == c.m
    && forall i :: i in c.threads ==> ThreadOk(c.threads[i], c.engine.index, Meaning(fs), c.history, c.nowMs)
  }

  // History lemmas

  lemma RecordLegal(c: System, start: Bindings, i: nat, op: LinOp, r: Outcome)
    requires Legal(start, c.history, c.nowMs) && MapAfter(start, c.history) == c.m
    requires Allows(c.m, Event(i, op, c.nowMs, r))
    ensures var c' := RecordEvent(c, i, op, r);
            Legal(start, c'.history, c.nowMs) && MapAfter(start, c'.history) == c'.m
  {
    hide Allows, MapStep;
    var h := c.history + [Event(i, op, c.nowMs, r)];
    assert h[..|h| - 1] == c.history;
  }

  lemma LegalLater(start: Bindings, history: seq<Event>, t1: int64, t2: int64)
    requires Legal(start, history, t1) && t1 <= t2
    ensures Legal(start, history, t2)
  {}

  /** A thread's knowledge survives a step that leaves index and file meaning alone. */
  lemma OthersUndisturbed(t: Thread, index: Index, m: Bindings, history: seq<Event>, more: seq<Event>,
      t1: int64, t2: int64)
    requires ThreadOk(t, index, m, history, t1) && t1 <= t2
    ensures ThreadOk(t, index, m, history + more, t2)
  {
    hide ValidWrite;
  }

  /** A thread that does not hold the lock relies on neither. */
  lemma UnlockedUndisturbed(t: Thread, index: Index, index': Index, m: Bindings, m': Bindings,
      history: seq<Event>, more: seq<Event>, nowMs: int64)
    requires ThreadOk(t, index, m, history, nowMs) && !HoldsShared(t)
    ensures ThreadOk(t, index', m', history + more, nowMs)
  {
    hide ValidWrite;
  }

  lemma NothingMore(history: seq<Event>)
    ensures history + [] == history
  {}

  // Steps that touch neither file nor index

  /** A step in which thread `i` moves to `t`, with the same file and index. */
  lemma QuietStep(c: System, c': System, start: Bindings, fs: seq<Frame>, i: nat, t: Thread, more: seq<Event>)
    requires Good(c, start, fs)
    requires c'.threads == c.threads[i := t] && c'.nowMs == c.nowMs && c'.history == c.history + more
    requires c'.engine.isOpen && c'.engine.index == c.engine.index && StandsOn(c'.engine, fs, [], c.nowMs)
    requires Legal(start, c'.history, c.nowMs) && MapAfter(start, c'.history) == c'.m
    requires Live(Meaning(fs), c.nowMs) == Live(c'.m, c.nowMs)
    requires ThreadOk(t, c.engine.index, Meaning(fs), c'.history, c.nowMs)
    ensures Good(c', start, fs)
  {
    hide StandsOn, Live, Meaning, Legal, MapAfter, ThreadOk;
    forall j | j in c'.threads
      ensures ThreadOk(c'.threads[j], c'.engine.index, Meaning(fs), c'.history, c'.nowMs)
    {
      if j != i {
        OthersUndisturbed(c.threads[j], c.engine.index, Meaning(fs), c.history, more, c.nowMs, c.nowMs);
      }
    }
  }

  /** A step that changes nothing but the thread itself. */
  lemma LocalStep(c: System, start: Bindings, fs: seq<Frame>, i: nat, t: Thread)
    requires Good(c, start, fs)
    requires ThreadOk(t, c.engine.index, Meaning(fs), c.history, c.nowMs)
    ensures Good(SetThread(c, i, t), start, fs)
  {
    hide StandsOn, Live, Meaning, Legal, MapAfter, ThreadOk;
    NothingMore(c.history);
    QuietStep(c, SetThread(c, i, t), start, fs, i, t, []);
  }

  lemma TickGood(c: System, start: Bindings, fs: seq<Frame>, t: int64)
    requires Good(c, start, fs) && c.nowMs <= t
    ensures Good(c.(nowMs := t), start, fs)
  {
    hide StandsOn, Live, Meaning, Legal, MapAfter, ThreadOk;
    var p := Spec(true, true, c.m);
    TimePasses(c.engine, fs, [], p, c.nowMs, t);
    LegalLater(start, c.history, c.nowMs, t);
    NothingMore(c.history);
    forall j | j in c.threads
      ensures ThreadOk(c.threads[j], c.engine.index, Meaning(fs), c.history, t)
    {
      OthersUndisturbed(c.threads[j], c.engine.index, Meaning(fs), c.history, [], c.nowMs, t);
    }
  }

  lemma InvokeGetGood(c: System, start: Bindings, fs: seq<Frame>, i: nat, k: Bytes)
    requires Good(c, start, fs) && i in c.threads
    ensures Good(SetThread(c.(engine := CountGet(c.engine)), i, GetEntered(k, |c.history|)), start, fs)
  {
    hide StandsOn, Live, Meaning, Legal, MapAfter;
    CountStandsOn(c.engine, fs, c.nowMs);
    NothingMore(c.history);
    QuietStep(c, SetThread(c.(engine := CountGet(c.engine)), i, GetEntered(k, |c.history|)), start, fs, i,
              GetEntered(k, |c.history|), []);
  }

  /** The linearization point of a read: at this moment the index and the timed map agree on the key. */
  lemma RecordGetGood(c: System, start: Bindings, fs: seq<Frame>, i: nat, k: Bytes, t: Thread)
    requires Good(c, start, fs) && i in c.threads
    requires var c' := RecordEvent(c, i, LinGet(k), GetResponse(c.m, k, c.nowMs));
             ThreadOk(t, c.engine.index, Meaning(fs), c'.history, c.nowMs)
    ensures Good(SetThread(RecordEvent(c, i, LinGet(k), GetResponse(c.m, k, c.nowMs)), i, t), start, fs)
  {
    hide StandsOn, Live, Meaning, Legal, MapAfter, ThreadOk, GetResponse;
    var r := GetResponse(c.m, k, c.nowMs);
    RecordLegal(c, start, i, LinGet(k), r);
    var c' := SetThread(RecordEvent(c, i, LinGet(k), r), i, t);
    QuietStep(c, c', start, fs, i, t, [Event(i, LinGet(k), c.nowMs, r)]);
  }

  lemma ResponseFromFile(c: System, start: Bindings, fs: seq<Frame>, k: Bytes)
    requires Good(c, start, fs)
    ensures GetResponse(c.m, k, c.nowMs) ==
            if k in c.engine.index && !IsExpired(c.engine.index[k].expiresAtMs, c.nowMs) && k in Meaning(fs)
            then Value(Meaning(fs)[k].value) else Failed(NotFound)
    ensures k in c.engine.index ==> k in Meaning(fs)
  {
    hide StandsOn, Meaning, Legal, MapAfter, ThreadOk;
    IndexedKey(c.engine, fs, c.nowMs, k);
    VisibleIsLive(Meaning(fs), k, c.nowMs);
    VisibleIsLive(c.m, k, c.nowMs);
    if k in Live(c.m, c.nowMs) {
      assert Live(c.m, c.nowMs)[k] == Live(Meaning(fs), c.nowMs)[k];
    }
  }

  lemma LookUpGood(c: System, start: Bindings, fs: seq<Frame>, i: nat)
    requires Good(c, start, fs) && Enabled(c, i, LookUp)
    ensures Good(Next(c, i, LookUp), start, fs)
  {
    hide StandsOn, Live, Meaning, Legal, MapAfter, GetResponse;
    var GetLocked(k, since) := c.threads[i];
    assert ThreadOk(c.threads[i], c.engine.index, Meaning(fs), c.history, c.nowMs);
    if k in c.engine.index {
      LocalStep(c, start, fs, i, GetFound(k, c.engine.index[k], since));
    } else {
      ResponseFromFile(c, start, fs, k);
      RecordGetGood(c, start, fs, i, k, Responded(LinGet(k), Failed(NotFound), |c.history|, since));
    }
  }

  lemma ReadClockGood(c: System, start: Bindings, fs: seq<Frame>, i: nat)
    requires Good(c, start, fs) && Enabled(c, i, ReadClock)
    ensures Good(Next(c, i, ReadClock), start, fs)
  {
    hide StandsOn, Live, Meaning, Legal, MapAfter, GetResponse;
    var GetFound(k, meta, since) := c.threads[i];
    assert ThreadOk(c.threads[i], c.engine.index, Meaning(fs), c.history, c.nowMs);
    ResponseFromFile(c, start, fs, k);
    RecordGetGood(c, start, fs, i, k,
                  if IsExpired(meta.expiresAtMs, c.nowMs) then GetExpired(k, c.nowMs, |c.history|, since)
                  else GetChecked(k, meta, |c.history|, since));
  }

  lemma AskCacheGood(c: System, start: Bindings, fs: seq<Frame>, i: nat)
    requires Good(c, start, fs) && Enabled(c, i, AskCache)
    ensures Good(Next(c, i, AskCache), start, fs)
  {
    hide Live, Meaning, Legal, MapAfter, Lru.Get, Lru.Valid, CacheAgrees, IndexAgrees, EncodeLog, ParseFrame,
        ValidLog;
    var GetChecked(k, meta, at, since) := c.threads[i];
    assert ThreadOk(c.threads[i], c.engine.index, Meaning(fs), c.history, c.nowMs);
    CacheGetAgrees(c.engine.cache, c.engine.index, Meaning(fs), k);
    NothingMore(c.history);
    var c' := Next(c, i, AskCache);
    QuietStep(c, c', start, fs, i, c'.threads[i], []);
  }

  lemma ReadFileGood(c: System, start: Bindings, fs: seq<Frame>, i: nat)
    requires Good(c, start, fs) && Enabled(c, i, ReadFile)
    ensures Good(Next(c, i, ReadFile), start, fs)
  {
    hide StandsOn, Live, Meaning, Legal, MapAfter, ReadValue;
    var GetMissed(k, meta, at, since) := c.threads[i];
    assert ThreadOk(c.threads[i], c.engine.index, Meaning(fs), c.history, c.nowMs);
    IndexedKey(c.engine, fs, c.nowMs, k);
    LocalStep(c, start, fs, i, GetRead(k, Meaning(fs)[k].value, at, since));
  }

  lemma FillCacheGood(c: System, start: Bindings, fs: seq<Frame>, i: nat)
    requires Good(c, start, fs) && Enabled(c, i, FillCache)
    ensures Good(Next(c, i, FillCache), start, fs)
  {
    hide Live, Meaning, Legal, MapAfter, Lru.Put, Lru.Valid, CacheAgrees, IndexAgrees, EncodeLog, ParseFrame,
        ValidLog;
    var GetRead(k, v, at, since) := c.threads[i];
    assert ThreadOk(c.threads[i], c.engine.index, Meaning(fs), c.history, c.nowMs);
    CachePutAgrees(c.engine.cache, c.engine.index, Meaning(fs), k);
    NothingMore(c.history);
    var c' := Next(c, i, FillCache);
    QuietStep(c, c', start, fs, i, c'.threads[i], []);
  }

  // Exclusive steps

  /** A step taken while nobody holds the shared lock: file and index may change under the others. */
  lemma ExclusiveStep(c: System, c': System, start: Bindings, fs: seq<Frame>, gs: seq<Frame>, i: nat,
      t: Thread, more: seq<Event>)
    requires Good(c, start, fs) && NoReader(c) && !HoldsShared(t)
    requires c'.threads == c.threads[i := t] && c'.nowMs == c.nowMs && c'.history == c.history + more
    requires c'.engine.isOpen && StandsOn(c'.engine, gs, [], c.nowMs)
    requires Legal(start, c'.history, c.nowMs) && MapAfter(start, c'.history) == c'.m
    requires Live(Meaning(gs), c.nowMs) == Live(c'.m, c.nowMs)
    requires ThreadOk(t, c'.engine.index, Meaning(gs), c'.history, c.nowMs)
    ensures Good(c', start, gs)
  {
    hide StandsOn, Live, Meaning, Legal, MapAfter, ThreadOk;
    forall j | j in c'.threads
      ensures ThreadOk(c'.threads[j], c'.engine.index, Meaning(gs), c'.history, c'.nowMs)
    {
      if j != i {
        UnlockedUndisturbed(c.threads[j], c.engine.index, c'.engine.index, Meaning(fs), Meaning(gs),
            c.history, more, c.nowMs);
      }
    }
  }

  lemma ExpiredLater(e: int64, t1: int64, t2: int64)
    requires t1 <= t2 && IsExpired(e, t1)
    ensures IsExpired(e, t2)
  {}

  lemma EraseStandsOn(c: System, start: Bindings, fs: seq<Frame>, k: Bytes, seenMs: int64)
    requires Good(c, start, fs) && seenMs <= c.nowMs
    ensures StandsOn(EraseIfExpired(c.engine, k, seenMs), fs, [], c.nowMs)
    ensures EraseIfExpired(c.engine, k, seenMs).isOpen
  {
    hide StandsOn, Live, Meaning, Legal, MapAfter, ThreadOk, Lru.Erase, IsExpired;
    if k in c.engine.index && IsExpired(c.engine.index[k].expiresAtMs, seenMs) {
      ExpiredLater(c.engine.index[k].expiresAtMs, seenMs, c.nowMs);
      DropExpiredStandsOn(c.engine, fs, k, c.nowMs);
    }
  }

  lemma EraseExpiredGood(c: System, start: Bindings, fs: seq<Frame>, i: nat)
    requires Good(c, start, fs) && Enabled(c, i, EraseExpired)
    ensures Good(Next(c, i, EraseExpired), start, fs)
  {
    hide StandsOn, Live, Meaning, Legal, MapAfter, Lru.Erase, IsExpired;
    var GetExpired(k, seenMs, at, since) := c.threads[i];
    assert ThreadOk(c.threads[i], c.engine.index, Meaning(fs), c.history, c.nowMs);
    EraseStandsOn(c, start, fs, k, seenMs);
    NothingMore(c.history);
    var c' := Next(c, i, EraseExpired);
    ExclusiveStep(c, c', start, fs, fs, i, c'.threads[i], []);
  }

  /** The critical section of every writer leaves the engine standing on records that mean what the
      timed map means, and its response is one the timed map allows. */
  lemma ExclusiveRefines(c: System, start: Bindings, fs: seq<Frame>, i: nat, op: LinOp) returns (gs: seq<Frame>)
    requires Good(c, start, fs) && ValidWrite(op)
    ensures var (s, r) := Exclusive(c.engine, op, c.nowMs);
            && s.isOpen && StandsOn(s, gs, [], c.nowMs)
            && Allows(c.m, Event(i, op, c.nowMs, r))
            && Live(Meaning(gs), c.nowMs) == Live(MapStep(c.m, Event(i, op, c.nowMs, r)), c.nowMs)
  {
    hide StandsOn, Live, Meaning, Legal, MapAfter, ThreadOk, Compact, Sweep, Compacted, Latest, EncodeLog,
        LogSize, ValidFrame, EncodeFrame;
    var now, m := c.nowMs, c.m;
    gs := fs;
    match op {
      case LinSet(k, v, e) =>
        SetFrameValid(k, v, e);
        SetLockedStandsOn(c.engine, fs, k, v, e, now);
        ViewAfterSet(Meaning(fs), m, k, Binding(v, e), now);
        gs := fs + [SetFrame(k, v, e)];
      case LinRemove(k) =>
        gs := RemoveRefinesExclusive(c, start, fs, k);
      case LinCleanup =>
        SweepStandsOn(c.engine, fs, now);
        SweepStaysOpen(c.engine, now);
      case LinCompact =>
        CompactDoes(c.engine, fs, now);
        gs := Compacted(fs, now);
    }
  }

  lemma SweepStaysOpen(s: Engine, nowMs: int64)
    ensures Sweep(s, nowMs).isOpen == s.isOpen
  {}

  lemma RemoveRefinesExclusive(c: System, start: Bindings, fs: seq<Frame>, k: Bytes) returns (gs: seq<Frame>)
    requires Good(c, start, fs) && ValidKey(k)
    ensures var (s, r) := Remove(c.engine, k, c.nowMs);
            && s.isOpen && StandsOn(s, gs, [], c.nowMs)
            && r == (if Visible(c.m, k, c.nowMs) then Done else Failed(NotFound))
            && Live(Meaning(gs), c.nowMs) == Live(if Visible(c.m, k, c.nowMs) then c.m - {k} else c.m, c.nowMs)
  {
    hide StandsOn, Meaning, Legal, MapAfter, ThreadOk, Lru.Erase, EncodeFrame, Live, IsExpired, Visible;
    var now := c.nowMs;
    gs := fs;
    IndexedKey(c.engine, fs, now, k);
    VisibleIsLive(Meaning(fs), k, now);
    VisibleIsLive(c.m, k, now);
    if k in c.engine.index {
      if IsExpired(c.engine.index[k].expiresAtMs, now) {
        DropExpiredStandsOn(c.engine, fs, k, now);
      } else {
        RemoveLive(c.engine, fs, k, now);
        ViewAfterRemove(Meaning(fs), c.m, k, now);
        gs := fs + [DeleteFrame(k)];
      }
    }
  }

  lemma RunExclusiveGood(c: System, start: Bindings, fs: seq<Frame>, i: nat) returns (gs: seq<Frame>)
    requires Good(c, start, fs) && Enabled(c, i, RunExclusive)
    ensures Good(Next(c, i, RunExclusive), start, gs)
  {
    hide StandsOn, Live, Meaning, Legal, MapAfter, Exclusive, Allows, MapStep, ValidWrite;
    var Waiting(op, since) := c.threads[i];
    assert ThreadOk(c.threads[i], c.engine.index, Meaning(fs), c.history, c.nowMs);
    gs := ExclusiveRefines(c, start, fs, i, op);
    var (s, r) := Exclusive(c.engine, op, c.nowMs);
    RecordLegal(c, start, i, op, r);
    var c' := Next(c, i, RunExclusive);
    ExclusiveStep(c, c', start, fs, gs, i, Responded(op, r, |c.history|, since), [Event(i, op, c.nowMs, r)]);
  }

  // Every step, every run

  lemma StepGood(c: System, start: Bindings, fs: seq<Frame>, i: nat, a: Action) returns (gs: seq<Frame>)
    requires Good(c, start, fs) && Enabled(c, i, a)
    ensures Good(Next(c, i, a), start, gs)
  {
    hide Good, Exclusive, RecordEvent, CacheGet, CachePut, CountGet, EraseIfExpired, ReadValue, NoReader;
    gs := fs;
    match a {
      case Tick(t) => TickGood(c, start, fs, t);
      case InvokeGet(k) => InvokeGetGood(c, start, fs, i, k);
      case InvokeSet(k, v, ttlMs) => InvokeWrite(c, start, fs, i, LinSet(k, v, ExpiryOf(ttlMs, c.nowMs)));
      case InvokeRemove(k) => InvokeWrite(c, start, fs, i, LinRemove(k));
      case InvokeCleanup => InvokeWrite(c, start, fs, i, LinCleanup);
      case InvokeCompact => InvokeWrite(c, start, fs, i, LinCompact);
      case LockShared => LockSharedGood(c, start, fs, i);
      case LookUp => LookUpGood(c, start, fs, i);
      case ReadClock => ReadClockGood(c, start, fs, i);
      case AskCache => AskCacheGood(c, start, fs, i);
      case ReadFile => ReadFileGood(c, start, fs, i);
      case FillCache => FillCacheGood(c, start, fs, i);
      case EraseExpired => EraseExpiredGood(c, start, fs, i);
      case RunExclusive => gs := RunExclusiveGood(c, start, fs, i);
      case Return => ReturnGood(c, start, fs, i);
    }
  }

  lemma InvokeWrite(c: System, start: Bindings, fs: seq<Frame>, i: nat, op: LinOp)
    requires Good(c, start, fs) && ValidWrite(op)
    ensures Good(SetThread(c, i, Waiting(op, |c.history|)), start, fs)
  {
    hide Good, Meaning;
    LocalStep(c, start, fs, i, Waiting(op, |c.history|));
  }

  lemma LockSharedGood(c: System, start: Bindings, fs: seq<Frame>, i: nat)
    requires Good(c, start, fs) && Enabled(c, i, LockShared)
    ensures Good(Next(c, i, LockShared), start, fs)
  {
    hide StandsOn, Live, Meaning, Legal, MapAfter;
    assert ThreadOk(c.threads[i], c.engine.index, Meaning(fs), c.history, c.nowMs);
    LocalStep(c, start, fs, i, GetLocked(c.threads[i].key, c.threads[i].since));
  }

  lemma FinishedApart(c: System, start: Bindings, fs: seq<Frame>, finished: seq<Finished>)
    requires Good(c, start, fs)
    ensures Good(c.(finished := finished), start, fs)
  {
    hide StandsOn, Live, Meaning, Legal, MapAfter, ThreadOk;
  }

  lemma ReturnGood(c: System, start: Bindings, fs: seq<Frame>, i: nat)
    requires Good(c, start, fs) && Enabled(c, i, Return)
    ensures Good(Next(c, i, Return), start, fs)
  {
    hide Good, Meaning;
    var c' := c.(finished := Next(c, i, Return).finished);
    FinishedApart(c, start, fs, c'.finished);
    LocalStep(c', start, fs, i, Idle);
  }

  datatype Choice = Choice(thread: nat, action: Action)

  ghost predicate Runnable(c: System, run: seq<Choice>)
    decreases run
  {
    run == [] || (Enabled(c, run[0].thread, run[0].action)
                  && Runnable(Next(c, run[0].thread, run[0].action), run[1..]))
  }

  ghost function Reached(c: System, run: seq<Choice>): System
    requires Runnable(c, run)
    decreases run
  {
    if run == [] then c else Reached(Next(c, run[0].thread, run[0].action), run[1..])
  }

  // Calls and entries

  /** A thread whose call has taken effect and has not returned. */
  predicate Past(t: Thread) {
    t.GetChecked? || t.GetMissed? || t.GetRead? || t.GetExpired? || t.Responded?
  }

  function OpOf(t: Thread): LinOp
    requires Past(t)
  {
    if t.Responded? then t.op else LinGet(t.key)
  }

  /** A call that has taken effect: the one a thread is in, or one of those that have returned. */
  datatype Call = Pending(thread: nat) | Returned(number: nat)

  predicate Owns(c: System, call: Call, at: nat) {
    match call
    case Pending(i) => i in c.threads && Past(c.threads[i]) && c.threads[i].at == at
    case Returned(n) => n < |c.finished| && c.finished[n].at == at
  }

  /** The entry was made by the call's own thread, for the call's own operation. */
  ghost predicate OwnEntry(c: System, call: Call, at: nat)
    requires Owns(c, call, at)
  {
    && at < |c.history|
    && match call
       case Pending(i) => c.history[at].thread == i && c.history[at].op == OpOf(c.threads[i])
       case Returned(n) => c.history[at].thread == c.finished[n].thread && c.history[at].op == c.finished[n].op
  }

  /** The entry belongs to one call and to no other. */
  ghost predicate ExactlyOneCall(c: System, at: nat) {
    exists call :: Owns(c, call, at) && forall other :: Owns(c, other, at) ==> other == call
  }

  ghost predicate SomeCall(c: System, at: nat) {
    exists call :: Owns(c, call, at)
  }

  /** What a call that has returned got, and when. */
  ghost predicate FinishedOk(history: seq<Event>, f: Finished) {
    Logged(history, f.op, f.response, f.at, f.since) && f.at < f.until <= |history|
  }

  /** Entries and calls are in one-to-one correspondence. */
  ghost predicate Accounted(c: System) {
    && (forall call, at: nat :: Owns(c, call, at) ==> OwnEntry(c, call, at))
    && (forall call, other, at: nat :: Owns(c, call, at) && Owns(c, other, at) ==> call == other)
    && (forall at: nat :: at < |c.history| ==> SomeCall(c, at))
    && (forall n :: 0 <= n < |c.finished| ==> FinishedOk(c.history, c.finished[n]))
  }

  lemma SameOwners(c: System, c': System)
    requires Accounted(c) && c'.history == c.history && c'.finished == c.finished
    requires forall call, at: nat :: Owns(c', call, at) <==> Owns(c, call, at)
    requires forall call, at: nat :: Owns(c', call, at) && OwnEntry(c, call, at) ==> OwnEntry(c', call, at)
    ensures Accounted(c')
  {
    hide FinishedOk, Owns, OwnEntry;
    forall at: nat | at < |c'.history|
      ensures SomeCall(c', at)
    {
      assert SomeCall(c, at);
    }
  }

  /** The thread moves on inside its call, or starts one. */
  lemma MoveAccounted(c: System, c': System, i: nat, t: Thread)
    requires Accounted(c) && i in c.threads
    requires c'.threads == c.threads[i := t] && c'.history == c.history && c'.finished == c.finished
    requires Past(t) == Past(c.threads[i])
    requires Past(t) ==> t.at == c.threads[i].at && OpOf(t) == OpOf(c.threads[i])
    ensures Accounted(c')
  {
    hide Accounted, Past;
    SameOwners(c, c');
  }

  /** The call takes effect. */
  lemma RecordAccounted(c: System, c': System, i: nat, t: Thread, e: Event)
    requires Accounted(c) && i in c.threads && !Past(c.threads[i])
    requires c'.threads == c.threads[i := t] && c'.history == c.history + [e] && c'.finished == c.finished
    requires Past(t) && t.at == |c.history| && e.thread == i && e.op == OpOf(t)
    ensures Accounted(c')
  {
    var n := |c.history|;
    assert forall call, at: nat ::
        Owns(c', call, at) <==> Owns(c, call, at) || (call == Pending(i) && at == n);
    assert Owns(c', Pending(i), n);
    forall at: nat | at < |c'.history|
      ensures SomeCall(c', at)
    {
      if at < n {
        assert SomeCall(c, at);
      }
    }
  }

  /** The call returns. */
  lemma ReturnAccounted(c: System, c': System, i: nat, f: Finished)
    requires Accounted(c) && i in c.threads && c.threads[i].Responded?
    requires c'.threads == c.threads[i := Idle] && c'.history == c.history && c'.finished == c.finished + [f]
    requires f.at == c.threads[i].at && f.thread == i && f.op == c.threads[i].op && FinishedOk(c.history, f)
    ensures Accounted(c')
  {
    hide FinishedOk;
    var n := |c.finished|;
    assert Owns(c, Pending(i), f.at);
    assert forall call, at: nat :: Owns(c', call, at) <==>
        (call == Returned(n) && at == f.at) || (call != Pending(i) && call != Returned(n) && Owns(c, call, at));
    forall at: nat | at < |c'.history|
      ensures SomeCall(c', at)
    {
      assert SomeCall(c, at);
      var call :| Owns(c, call, at);
      assert call == Pending(i) || Owns(c', call, at);
      assert Owns(c', Returned(n), f.at);
    }
  }

  lemma RespondedIsLogged(c: System, start: Bindings, fs: seq<Frame>, i: nat)
    requires Good(c, start, fs) && i in c.threads && c.threads[i].Responded?
    ensures var t := c.threads[i]; Logged(c.history, t.op, t.response, t.at, t.since)
  {
    hide StandsOn, Live, Meaning, Legal, MapAfter;
    assert ThreadOk(c.threads[i], c.engine.index, Meaning(fs), c.history, c.nowMs);
  }

  /** Every cached key is indexed with the value that its metadata locates. */
  lemma CacheIndexed(c: System, start: Bindings, fs: seq<Frame>)
    requires Good(c, start, fs)
    ensures forall e :: e in c.engine.cache.entries ==>
            e.0 in c.engine.index && ReadValue(c.engine.disk.data, c.engine.index[e.0]) == Ok(e.1)
  {
    hide Meaning, EncodeLog, ParseFrame, ValidLog, Lru.Valid, IndexAgrees, ReadValue, Live, Legal, MapAfter, ThreadOk;
    forall e | e in c.engine.cache.entries
      ensures e.0 in c.engine.index && ReadValue(c.engine.disk.data, c.engine.index[e.0]) == Ok(e.1)
    {
      IndexedKey(c.engine, fs, c.nowMs, e.0);
    }
  }

  lemma StepAccounted(c: System, start: Bindings, fs: seq<Frame>, i: nat, a: Action)
    requires Good(c, start, fs) && Accounted(c) && Enabled(c, i, a)
    ensures Accounted(Next(c, i, a))
  {
    hide Accounted, Good, CacheGet, CachePut, ReadValue, Exclusive, ValidWrite, GetResponse, EraseIfExpired, NoReader;
    var c' := Next(c, i, a);
    match a {
      case Tick(_) => SameOwners(c, c');
      case LookUp =>
        if c.threads[i].key in c.engine.index {
          MoveAccounted(c, c', i, c'.threads[i]);
        } else {
          RecordAccounted(c, c', i, c'.threads[i], c'.history[|c.history|]);
        }
      case ReadClock => RecordAccounted(c, c', i, c'.threads[i], c'.history[|c.history|]);
      case RunExclusive => RecordAccounted(c, c', i, c'.threads[i], c'.history[|c.history|]);
      case Return =>
        RespondedIsLogged(c, start, fs, i);
        ReturnAccounted(c, c', i, c'.finished[|c.finished|]);
      case _ => MoveAccounted(c, c', i, c'.threads[i]);
    }
  }

  lemma {:induction false} RunGood(c: System, start: Bindings, fs: seq<Frame>, run: seq<Choice>)
      returns (gs: seq<Frame>)
    requires Good(c, start, fs) && Accounted(c) && Runnable(c, run)
    ensures Good(Reached(c, run), start, gs) && Accounted(Reached(c, run))
    decreases run
  {
    hide Good, Accounted, Enabled, Next;
    if run == [] {
      gs := fs;
    } else {
      gs := StepGood(c, start, fs, run[0].thread, run[0].action);
      StepAccounted(c, start, fs, run[0].thread, run[0].action);
      gs := RunGood(Next(c, run[0].thread, run[0].action), start, gs, run[1..]);
    }
  }

  lemma NothingOwned(c: System)
    requires forall i :: i in c.threads ==> c.threads[i] == Idle
    requires c.history == [] && c.finished == []
    ensures Accounted(c)
  {}

  lemma EveryEntryOwned(c: System)
    requires Accounted(c)
    ensures forall at: nat :: at < |c.history| ==> ExactlyOneCall(c, at)
  {
    hide FinishedOk, Owns;
    forall at: nat | at < |c.history|
      ensures ExactlyOneCall(c, at)
    {
      assert SomeCall(c, at);
    }
  }

  /** Linearizability. From an open store on which no call is in progress, after any interleaving of
      any number of threads: the history is a legal sequential run of the timed map; every entry
      belongs to exactly one call; every call that has its response has the response of its own
      entry, which was made by its own thread after the call's start and before its return, so that
      calls that do not overlap took effect in the order in which they were made; and every cached
      key is indexed with the value that its metadata locates. */
  lemma Linearizable(c: System, fs: seq<Frame>, run: seq<Choice>)
    requires c.engine.isOpen && StandsOn(c.engine, fs, [], c.nowMs)
    requires c.m == Meaning(fs) && c.history == [] && c.finished == []
    requires forall i :: i in c.threads ==> c.threads[i] == Idle
    requires Runnable(c, run)
    ensures var c' := Reached(c, run);
            && Legal(Meaning(fs), c'.history, c'.nowMs)
            && (forall at: nat :: at < |c'.history| ==> ExactlyOneCall(c', at))
            && (forall call, at: nat :: Owns(c', call, at) ==> OwnEntry(c', call, at))
            && (forall i :: i in c'.threads && c'.threads[i].Responded? ==>
                  Logged(c'.history, c'.threads[i].op, c'.threads[i].response, c'.threads[i].at, c'.threads[i].since))
            && (forall f :: f in c'.finished ==> FinishedOk(c'.history, f))
            && (forall f, g :: f in c'.finished && g in c'.finished && f.until <= g.since ==> f.at < g.at)
            && (forall e :: e in c'.engine.cache.entries ==>
                  e.0 in c'.engine.index && ReadValue(c'.engine.disk.data, c'.engine.index[e.0]) == Ok(e.1))
  {
    hide Meaning, StandsOn, ReadValue, Live, Owns;
    assert Good(c, Meaning(fs), fs);
    NothingOwned(c);
    var gs := RunGood(c, Meaning(fs), fs, run);
    var c' := Reached(c, run);
    hide Reached, Runnable, Logged, Legal, ThreadOk;
    EveryEntryOwned(c');
    CacheIndexed(c', Meaning(fs), gs);
    forall i | i in c'.threads && c'.threads[i].Responded?
      ensures Logged(c'.history, c'.threads[i].op, c'.threads[i].response, c'.threads[i].at, c'.threads[i].since)
    {
      RespondedIsLogged(c', Meaning(fs), gs, i);
    }
    assert forall f :: f in c'.finished ==> FinishedOk(c'.history, f);
    InRealOrder(c'.history, c'.finished);
  }

  lemma InRealOrder(history: seq<Event>, finished: seq<Finished>)
    requires forall f :: f in finished ==> FinishedOk(history, f)
    ensures forall f, g :: f in finished && g in finished && f.until <= g.since ==> f.at < g.at
  {}

  /** Two-phase expiry loses nothing. Whatever other threads did since the reader let go of the lock,
      the second phase removes at most its own key, only if the binding now indexed had expired at
      the time the reader saw; it takes the key out of cache and index together, and the live
      bindings stay as they were. */
  lemma TwoPhaseExpiryLosesNothing(c: System, start: Bindings, fs: seq<Frame>, i: nat)
    requires Good(c, start, fs) && Enabled(c, i, EraseExpired)
    ensures var k, seenMs := c.threads[i].key, c.threads[i].seenMs;
            var s, s' := c.engine, Next(c, i, EraseExpired).engine;
            && LiveIndex(s'.index, c.nowMs) == LiveIndex(s.index, c.nowMs)
            && s'.disk == s.disk
            && (s' == s || (k in s.index && IsExpired(s.index[k].expiresAtMs, seenMs) && s'.index == s.index - {k}
                            && s'.counters.expired == s.counters.expired + 1))
            && (k !in s'.index ==> !Lru.Has(s'.cache.entries, k))
  {
    hide Live, Meaning, Legal, MapAfter, EncodeLog, ParseFrame, ValidLog, Lru.Valid, IndexAgrees;
    var GetExpired(k, seenMs, at, since) := c.threads[i];
    assert ThreadOk(c.threads[i], c.engine.index, Meaning(fs), c.history, c.nowMs);
    EraseExpiredGood(c, start, fs, i);
    var s' := Next(c, i, EraseExpired).engine;
    if Lru.Has(s'.cache.entries, k) {
      var j :| 0 <= j < |s'.cache.entries| && s'.cache.entries[j].0 == k;
      assert s'.cache.entries[j] in s'.cache.entries;
    }
  }
}
