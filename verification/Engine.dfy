/** The engine on values: one function per public operation, over the file, the index, the cache
    and the counters, with the clock as an argument. */
module Engine {
  import opened Types
  import opened Codec
  import opened Log
  import opened Recovery
  import opened Compaction
  import opened Ordering
  import Lru
  import LruBulk

  datatype Counters = Counters(
    gets: nat, sets: nat, deletes: nat, expired: nat, compactions: nat, recovered: nat, truncated: nat)

  /** The data file and the leftover, if any, of an unfinished compaction. */
  datatype Disk = Disk(data: Bytes, temporary: Option<Bytes>)

  type Cache = Lru.Cache<Bytes, Bytes>

  datatype Engine = Engine(
    disk: Disk, cleanupIntervalMs: int, isOpen: bool, index: Index, cache: Cache, counters: Counters)

  datatype Outcome =
    | Done
    | Value(value: Bytes)
    | Present(present: bool)
    | KeyList(keys: seq<Bytes>)
    | Removed(count: nat)
    | Summary(liveKeys: nat, oldFileBytes: nat, newFileBytes: nat)
    | Failed(code: StatusCode)

  const NO_COUNTS := Counters(0, 0, 0, 0, 0, 0, 0)

  predicate ValidKey(k: Bytes) {
    0 < |k| <= MAX_KEY_SIZE
  }

  predicate ValidSet(k: Bytes, v: Bytes, ttlMs: Option<int>) {
    ValidKey(k) && |v| <= MAX_VALUE_SIZE && (ttlMs.Some? ==> ttlMs.value > 0)
  }

  /** The sum of clock and TTL is formed without a check; beyond 2^63-1 it is undefined. */
  predicate TtlFits(ttlMs: Option<int>, nowMs: int64) {
    ttlMs.Some? && ttlMs.value > 0 ==> nowMs + ttlMs.value <= INT64_MAX
  }

  function ExpiryOf(ttlMs: Option<int>, nowMs: int64): int64
    requires ttlMs.Some? ==> ttlMs.value > 0
    requires TtlFits(ttlMs, nowMs)
  {
    if ttlMs.Some? then nowMs + ttlMs.value else 0
  }

  function Open(s: Engine, nowMs: int64): (Engine, Outcome) {
    if s.isOpen then (s, Done)
    else if s.cleanupIntervalMs <= 0 then (s, Failed(InvalidArgument))
    else
      match Recover(s.disk.data, nowMs)
      case Err(code) => (s, Failed(code))
      case Ok(state) =>
        (s.(disk := s.disk.(data := RecoveredBytes(s.disk.data)),
            isOpen := true,
            index := state.index,
            cache := Lru.Clear(s.cache),
            counters := s.counters.(recovered := state.validRecords, truncated := state.truncatedBytes)),
         Done)
  }

  function Close(s: Engine): (Engine, Outcome) {
    (s.(isOpen := false), Done)
  }

  function SetFrame(k: Bytes, v: Bytes, expiresAtMs: int64): Frame {
    Frame(Record(OpSet, k, v, expiresAtMs), 0)
  }

  function DeleteFrame(k: Bytes): Frame {
    Frame(Record(OpDelete, k, [], 0), 0)
  }

  /** The part of SET that runs under the exclusive lock. */
  function SetLocked(s: Engine, k: Bytes, v: Bytes, expiresAtMs: int64): Engine {
    var f := SetFrame(k, v, expiresAtMs);
    s.(disk := s.disk.(data := s.disk.data + EncodeFrame(f)),
       index := s.index[k := MetaAt(f, |s.disk.data|)],
       cache := Lru.Put(s.cache, k, v),
       counters := s.counters.(sets := s.counters.sets + 1))
  }

  function Set(s: Engine, k: Bytes, v: Bytes, ttlMs: Option<int>, nowMs: int64): (Engine, Outcome)
    requires TtlFits(ttlMs, nowMs)
  {
    if !s.isOpen then (s, Failed(Closed))
    else if !ValidSet(k, v, ttlMs) then (s, Failed(InvalidArgument))
    else (SetLocked(s, k, v, ExpiryOf(ttlMs, nowMs)), Done)
  }

  function DropExpired(s: Engine, k: Bytes): Engine {
    s.(index := s.index - {k},
       cache := Lru.Erase(s.cache, k),
       counters := s.counters.(expired := s.counters.expired + 1))
  }

  function EraseIfExpired(s: Engine, k: Bytes, nowMs: int64): Engine {
    if k in s.index && IsExpired(s.index[k].expiresAtMs, nowMs) then DropExpired(s, k) else s
  }

  function CacheGet(s: Engine, k: Bytes): (Engine, Option<Bytes>) {
    var (cache, r) := Lru.Get(s.cache, k);
    (s.(cache := cache), r)
  }

  function CachePut(s: Engine, k: Bytes, v: Bytes): Engine {
    s.(cache := Lru.Put(s.cache, k, v))
  }

  function CountGet(s: Engine): Engine {
    s.(counters := s.counters.(gets := s.counters.gets + 1))
  }

  /** Looking a live key up: the cache first, then the file. */
  function Fetch(s: Engine, k: Bytes): (Engine, Outcome)
    requires k in s.index
  {
    var (s', cached) := CacheGet(s, k);
    match cached
    case Some(v) => (s', Value(v))
    case None =>
      match ReadValue(s'.disk.data, s'.index[k])
      case Err(code) => (s', Failed(code))
      case Ok(v) => (CachePut(s', k, v), Value(v))
  }

  function Get(s: Engine, k: Bytes, nowMs: int64): (Engine, Outcome) {
    if !s.isOpen then (s, Failed(Closed))
    else if !ValidKey(k) then (s, Failed(InvalidArgument))
    else
      var s' := CountGet(s);
      if k !in s'.index then (s', Failed(NotFound))
      else if IsExpired(s'.index[k].expiresAtMs, nowMs) then (EraseIfExpired(s', k, nowMs), Failed(NotFound))
      else Fetch(s', k)
  }

  /** Removing a live key: the tombstone first, then index and cache. */
  function RemoveIndexed(s: Engine, k: Bytes): Engine {
    s.(disk := s.disk.(data := s.disk.data + EncodeFrame(DeleteFrame(k))),
       index := s.index - {k},
       cache := Lru.Erase(s.cache, k),
       counters := s.counters.(deletes := s.counters.deletes + 1))
  }

  function Remove(s: Engine, k: Bytes, nowMs: int64): (Engine, Outcome) {
    if !s.isOpen then (s, Failed(Closed))
    else if !ValidKey(k) then (s, Failed(InvalidArgument))
    else if k !in s.index then (s, Failed(NotFound))
    else if IsExpired(s.index[k].expiresAtMs, nowMs) then (DropExpired(s, k), Failed(NotFound))
    else (RemoveIndexed(s, k), Done)
  }

  function Exists(s: Engine, k: Bytes, nowMs: int64): (Engine, Outcome) {
    var (s', r) := Get(s, k, nowMs);
    (s', match r
         case Failed(code) => if code == NotFound then Present(false) else Failed(code)
         case _ => Present(true))
  }

  function ExpiredKeys(index: Index, nowMs: int64): set<Bytes> {
    set k | k in index && IsExpired(index[k].expiresAtMs, nowMs)
  }

  /** Dropping every expired key from index and cache. */
  function Sweep(s: Engine, nowMs: int64): Engine {
    var gone := ExpiredKeys(s.index, nowMs);
    s.(index := s.index - gone,
       cache := s.cache.(entries := LruBulk.WithoutAll(s.cache.entries, gone)),
       counters := s.counters.(expired := s.counters.expired + |gone|))
  }

  function Cleanup(s: Engine, nowMs: int64): (Engine, Outcome) {
    if !s.isOpen then (s, Removed(0))
    else (Sweep(s, nowMs), Removed(|ExpiredKeys(s.index, nowMs)|))
  }

  function Matching(keys: set<Bytes>, prefix: Bytes): set<Bytes> {
    set k | k in keys && prefix <= k
  }

  ghost function Keys(s: Engine, prefix: Bytes, nowMs: int64): (Engine, Outcome) {
    if !s.isOpen then (s, Failed(Closed))
    else
      var s' := Sweep(s, nowMs);
      (s', KeyList(SortedKeys(Matching(s'.index.Keys, prefix))))
  }

  predicate Readable(data: Bytes, index: Index) {
    forall k :: k in index ==> ReadValue(data, index[k]).Ok?
  }

  /** The bindings that the index finds in the file. */
  function Gathered(data: Bytes, index: Index): Bindings
    requires Readable(data, index)
  {
    map k | k in index :: Binding(ReadValue(data, index[k]).value, index[k].expiresAtMs)
  }

  /** Putting the compacted file of some bindings in the place of the log. */
  ghost function Rewrite(s: Engine, m: Bindings): (Engine, Outcome) {
    if !ValidBindings(m) then (s.(disk := s.disk.(temporary := None)), Failed(InvalidArgument))
    else
      (s.(disk := Disk(CompactBytes(m), None),
          index := Latest(CompactFrames(m)),
          cache := Lru.Clear(s.cache),
          counters := s.counters.(compactions := s.counters.compactions + 1)),
       Summary(|m|, |s.disk.data|, LogSize(CompactFrames(m))))
  }

  /** Compaction once expired keys are gone: read every value, then rewrite. */
  ghost function CompactSwept(s: Engine): (Engine, Outcome) {
    if !Readable(s.disk.data, s.index) then (s, Failed(Corruption))
    else Rewrite(s, Gathered(s.disk.data, s.index))
  }

  ghost function Compact(s: Engine, nowMs: int64): (Engine, Outcome) {
    if !s.isOpen then (s, Failed(Closed))
    else
      CompactSwept(Sweep(s, nowMs))
  }

  // Crashes

  /** How far a compaction had come when the process died. */
  datatype CompactPoint = TemporaryRemoved | Writing(cut: nat) | Renamed

  /** A new process on the same disk: nothing in memory survives. */
  function Restart(s: Engine, disk: Disk): Engine {
    Engine(disk, s.cleanupIntervalMs, false, map[], Lru.Empty(s.cache.capacity), NO_COUNTS)
  }

  function Cut(b: Bytes, cut: nat): Bytes {
    if cut < |b| then b[..cut] else b
  }

  function CrashInAppend(s: Engine, f: Frame, cut: nat): Engine {
    Restart(s, s.disk.(data := s.disk.data + Cut(EncodeFrame(f), cut)))
  }

  /** A SET that is cut after `cut` bytes of its record. */
  function CrashInSet(s: Engine, k: Bytes, v: Bytes, ttlMs: Option<int>, cut: nat, nowMs: int64): Engine
    requires TtlFits(ttlMs, nowMs)
  {
    if s.isOpen && ValidSet(k, v, ttlMs) then CrashInAppend(s, SetFrame(k, v, ExpiryOf(ttlMs, nowMs)), cut)
    else Restart(s, s.disk)
  }

  predicate WouldDelete(s: Engine, k: Bytes, nowMs: int64) {
    s.isOpen && ValidKey(k) && k in s.index && !IsExpired(s.index[k].expiresAtMs, nowMs)
  }

  function CrashInRemove(s: Engine, k: Bytes, cut: nat, nowMs: int64): Engine {
    if WouldDelete(s, k, nowMs) then CrashInAppend(s, DeleteFrame(k), cut) else Restart(s, s.disk)
  }

  /** A compaction that is cut between two steps or inside its writing. */
  ghost function CrashInCompact(s: Engine, point: CompactPoint, nowMs: int64): Engine {
    var s' := Compact(s, nowMs).0;
    if !Compact(s, nowMs).1.Summary? then Restart(s, s'.disk)
    else
      match point
      case TemporaryRemoved => Restart(s, Disk(s.disk.data, None))
      case Writing(cut) => Restart(s, Disk(s.disk.data, Some(Cut(s'.disk.data, cut))))
      case Renamed => Restart(s, s'.disk)
  }

  // Calls

  datatype Call =
    | CallOpen
    | CallClose
    | CallSet(key: Bytes, value: Bytes, ttlMs: Option<int>)
    | CallGet(key: Bytes)
    | CallRemove(key: Bytes)
    | CallExists(key: Bytes)
    | CallKeys(prefix: Bytes)
    | CallCleanup
    | CallCompact
    | Crash
    | CrashSet(key: Bytes, value: Bytes, ttlMs: Option<int>, cut: nat)
    | CrashRemove(key: Bytes, cut: nat)
    | CrashCompact(point: CompactPoint)

  datatype Timed = Timed(call: Call, nowMs: int64)

  /** What a call demands of its caller: a TTL that fits on top of the clock. */
  predicate Admissible(c: Timed) {
    match c.call
    case CallSet(_, _, ttlMs) => TtlFits(ttlMs, c.nowMs)
    case CrashSet(_, _, ttlMs, _) => TtlFits(ttlMs, c.nowMs)
    case _ => true
  }

  ghost function Perform(s: Engine, c: Timed): (Engine, Outcome)
    requires Admissible(c)
  {
    match c.call
    case CallOpen => Open(s, c.nowMs)
    case CallClose => Close(s)
    case CallSet(k, v, ttlMs) => Set(s, k, v, ttlMs, c.nowMs)
    case CallGet(k) => Get(s, k, c.nowMs)
    case CallRemove(k) => Remove(s, k, c.nowMs)
    case CallExists(k) => Exists(s, k, c.nowMs)
    case CallKeys(prefix) => Keys(s, prefix, c.nowMs)
    case CallCleanup => Cleanup(s, c.nowMs)
    case CallCompact => Compact(s, c.nowMs)
    case Crash => (Restart(s, s.disk), Done)
    case CrashSet(k, v, ttlMs, cut) => (CrashInSet(s, k, v, ttlMs, cut, c.nowMs), Done)
    case CrashRemove(k, cut) => (CrashInRemove(s, k, cut, c.nowMs), Done)
    case CrashCompact(point) => (CrashInCompact(s, point, c.nowMs), Done)
  }
}

/** The timed map that a user of the store has in mind. */
module TimedMap {
  import opened Types
  import opened Log
  import opened Ordering
  import opened Engine

  /** A plain map from keys to values with expiry times, and whether the store is open. An expired
      binding is invisible; whether it is still in the map makes no difference. */
  datatype Spec = Spec(canOpen: bool, isOpen: bool, m: Bindings)

  predicate Visible(m: Bindings, k: Bytes, nowMs: int64) {
    k in m && !IsExpired(m[k].expiresAtMs, nowMs)
  }

  function SpecSet(p: Spec, k: Bytes, v: Bytes, ttlMs: Option<int>, nowMs: int64): Spec
    requires TtlFits(ttlMs, nowMs)
  {
    if p.isOpen && ValidSet(k, v, ttlMs) then p.(m := p.m[k := Binding(v, ExpiryOf(ttlMs, nowMs))]) else p
  }

  function SpecRemove(p: Spec, k: Bytes, nowMs: int64): Spec {
    if p.isOpen && ValidKey(k) && Visible(p.m, k, nowMs) then p.(m := p.m - {k}) else p
  }

  /** Only SET and DEL change the map. A crash closes the store, and a SET or DEL that it interrupts
      has happened exactly if its record was written to the last byte. */
  function SpecStep(p: Spec, c: Timed): Spec
    requires Admissible(c)
  {
    match c.call
    case CallOpen => p.(isOpen := p.isOpen || p.canOpen)
    case CallClose => p.(isOpen := false)
    case CallSet(k, v, ttlMs) => SpecSet(p, k, v, ttlMs, c.nowMs)
    case CallRemove(k) => SpecRemove(p, k, c.nowMs)
    case Crash => p.(isOpen := false)
    case CrashSet(k, v, ttlMs, cut) =>
      (if cut < HEADER_SIZE + |k| + |v| then p else SpecSet(p, k, v, ttlMs, c.nowMs)).(isOpen := false)
    case CrashRemove(k, cut) =>
      (if cut < HEADER_SIZE + |k| then p else SpecRemove(p, k, c.nowMs)).(isOpen := false)
    case CrashCompact(_) => p.(isOpen := false)
    case _ => p
  }

  /** The answers that the timed map gives. */
  ghost predicate Answers(p: Spec, c: Timed, r: Outcome) {
    var live := Live(p.m, c.nowMs);
    match c.call
    case CallOpen => r == if p.isOpen || p.canOpen then Done else Failed(InvalidArgument)
    case CallSet(k, v, ttlMs) =>
      r == if !p.isOpen then Failed(Closed) else if !ValidSet(k, v, ttlMs) then Failed(InvalidArgument) else Done
    case CallGet(k) =>
      r == if !p.isOpen then Failed(Closed) else if !ValidKey(k) then Failed(InvalidArgument)
           else if k in live then Value(live[k].value) else Failed(NotFound)
    case CallExists(k) =>
      r == if !p.isOpen then Failed(Closed) else if !ValidKey(k) then Failed(InvalidArgument)
           else Present(k in live)
    case CallRemove(k) =>
      r == if !p.isOpen then Failed(Closed) else if !ValidKey(k) then Failed(InvalidArgument)
           else if k in live then Done else Failed(NotFound)
    case CallKeys(prefix) =>
      r == if !p.isOpen then Failed(Closed) else KeyList(SortedKeys(Matching(live.Keys, prefix)))
    case CallCleanup => r.Removed? && (!p.isOpen ==> r.count == 0)
    case CallCompact =>
      if !p.isOpen then r == Failed(Closed)
      else r.Summary? && r.liveKeys == |live| && r.newFileBytes <= r.oldFileBytes
    case _ => r == Done
  }
}
