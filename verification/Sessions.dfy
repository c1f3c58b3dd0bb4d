/** What a process that dies in the middle of a write leaves behind. */
module CrashAtomicity {
  import opened Types
  import opened Codec
  import opened Log
  import opened Compaction
  import opened Ordering
  import opened Recovery
  import opened Engine
  import opened TimedMap
  import opened Refinement
  import Lru

  /** What can be read from an open store at time `t`: every live indexed key with the value that
      the file has for it. */
  function View(s: Engine, t: int64): Bindings
    requires Readable(s.disk.data, LiveIndex(s.index, t))
  {
    Gathered(s.disk.data, LiveIndex(s.index, t))
  }

  lemma ViewIsMeaning(s: Engine, fs: seq<Frame>, nowMs: int64, t: int64)
    requires StandsOn(s, fs, [], nowMs) && s.isOpen && nowMs <= t
    ensures Readable(s.disk.data, LiveIndex(s.index, t))
    ensures View(s, t) == Live(Meaning(fs), t)
  {
    hide Meaning, StandsOn, ReadValue;
    var p := Spec(true, true, Meaning(fs));
    TimePasses(s, fs, [], p, nowMs, t);
    forall k
      ensures k in LiveIndex(s.index, t) <==> k in Live(Meaning(fs), t)
      ensures k in s.index ==> k in Meaning(fs) && ReadValue(s.disk.data, s.index[k]) == Ok(Meaning(fs)[k].value)
                               && s.index[k].expiresAtMs == Meaning(fs)[k].expiresAtMs
    {
      IndexedKey(s, fs, t, k);
    }
  }

  lemma ViewIsSpec(s: Engine, p: Spec, nowMs: int64, t: int64)
    requires Refines(s, p, nowMs) && s.isOpen && nowMs <= t
    ensures Readable(s.disk.data, LiveIndex(s.index, t))
    ensures View(s, t) == Live(p.m, t)
  {
    hide Meaning, StandsOn, View;
    var fs, tail :| StandsOn(s, fs, tail, nowMs) && SameView(fs, p, nowMs);
    OpenTail(s, fs, tail, nowMs);
    ViewIsMeaning(s, fs, nowMs, t);
    ViewLater(Meaning(fs), p.m, nowMs, t);
  }

  predicate InterruptsCall(c: Call) {
    c.CrashSet? || c.CrashRemove? || c.CrashCompact?
  }

  /** The call that the crash interrupted. */
  function Interrupted(c: Call): Call
    requires InterruptsCall(c)
  {
    match c
    case CrashSet(k, v, ttlMs, _) => CallSet(k, v, ttlMs)
    case CrashRemove(k, _) => CallRemove(k)
    case CrashCompact(_) => CallCompact
  }

  /** Whether the interrupted call had already reached the disk completely. */
  predicate ReachedDisk(c: Call)
    requires InterruptsCall(c)
  {
    match c
    case CrashSet(k, v, _, cut) => HEADER_SIZE + |k| + |v| <= cut
    case CrashRemove(k, cut) => HEADER_SIZE + |k| <= cut
    case CrashCompact(_) => true
  }

  /** Crash atomicity. Kill the process at any byte of an append or between any two steps of a
      compaction, and reopen the file at any later time: the store opens, and what can be read is
      what could be read before the call, or, if its last byte had been written, what could have
      been read after it. */
  lemma CrashAtomic(s: Engine, fs: seq<Frame>, c: Timed, t: int64)
    requires StandsOn(s, fs, [], c.nowMs) && s.isOpen && Admissible(c) && InterruptsCall(c.call) && c.nowMs <= t
    ensures Admissible(Timed(Interrupted(c.call), c.nowMs))
    ensures var crashed := Perform(s, c).0;
            var finished := Perform(s, Timed(Interrupted(c.call), c.nowMs)).0;
            var (reopened, r) := Open(crashed, t);
            && r == Done && reopened.isOpen && finished.isOpen
            && Readable(reopened.disk.data, LiveIndex(reopened.index, t))
            && Readable(s.disk.data, LiveIndex(s.index, t))
            && Readable(finished.disk.data, LiveIndex(finished.index, t))
            && View(reopened, t) == if ReachedDisk(c.call) then View(finished, t) else View(s, t)
  {
    hide Meaning, StandsOn, Perform, View, Open, Live;
    var p := Spec(s.cleanupIntervalMs > 0, true, Meaning(fs));
    var done := Timed(Interrupted(c.call), c.nowMs);
    PositiveInterval(s, fs, c.nowMs);
    assert Refines(s, p, c.nowMs) by { assert SameView(fs, p, c.nowMs); }
    ViewIsSpec(s, p, c.nowMs, t);
    CallRefines(s, p, done, c.nowMs);
    ViewIsSpec(Perform(s, done).0, SpecStep(p, done), c.nowMs, t);
    CallRefines(s, p, c, c.nowMs);
    var crashed, p' := Perform(s, c).0, SpecStep(p, c);
    CallRefines(crashed, p', Timed(CallOpen, t), c.nowMs);
    OpenIsPerform(crashed, t);
    ViewIsSpec(Open(crashed, t).0, SpecStep(p', Timed(CallOpen, t)), t, t);
  }

  lemma PositiveInterval(s: Engine, fs: seq<Frame>, nowMs: int64)
    requires StandsOn(s, fs, [], nowMs) && s.isOpen
    ensures s.cleanupIntervalMs > 0
  {}

  lemma OpenIsPerform(s: Engine, t: int64)
    ensures Perform(s, Timed(CallOpen, t)) == Open(s, t)
  {}

  // Leftovers of an unfinished compaction

  function WithLeftover(s: Engine, leftover: Option<Bytes>): Engine {
    s.(disk := s.disk.(temporary := leftover))
  }

  ghost predicate SameButLeftover(s: Engine, s': Engine) {
    s' == WithLeftover(s, s'.disk.temporary)
  }

  lemma LeftoverInGet(s: Engine, leftover: Option<Bytes>, k: Bytes, t: int64)
    ensures var s' := WithLeftover(s, leftover);
            && Get(s', k, t) == (WithLeftover(Get(s, k, t).0, leftover), Get(s, k, t).1)
            && Exists(s', k, t) == (WithLeftover(Exists(s, k, t).0, leftover), Exists(s, k, t).1)
  {
    hide Lru.Get, Lru.Put, Lru.Erase, ReadValue, MetaAt;
  }

  lemma LeftoverInWrite(s: Engine, leftover: Option<Bytes>, k: Bytes, v: Bytes, ttlMs: Option<int>, t: int64)
    requires TtlFits(ttlMs, t)
    ensures var s' := WithLeftover(s, leftover);
            && Set(s', k, v, ttlMs, t) == (WithLeftover(Set(s, k, v, ttlMs, t).0, leftover), Set(s, k, v, ttlMs, t).1)
            && Remove(s', k, t) == (WithLeftover(Remove(s, k, t).0, leftover), Remove(s, k, t).1)
  {
    hide Lru.Put, Lru.Erase, EncodeFrame, MetaAt;
  }

  lemma LeftoverInSweep(s: Engine, leftover: Option<Bytes>, t: int64)
    ensures Sweep(WithLeftover(s, leftover), t) == WithLeftover(Sweep(s, t), leftover)
  {
    hide ExpiredKeys;
  }

  lemma LeftoverInCompact(s: Engine, leftover: Option<Bytes>, t: int64)
    ensures var s' := WithLeftover(s, leftover);
            && Compact(s', t).1 == Compact(s, t).1
            && SameButLeftover(Compact(s, t).0, Compact(s', t).0)
  {
    hide Sweep, Gathered, Readable, CompactBytes, CompactFrames, Latest, LogSize, ValidBindings, Lru.Clear;
    LeftoverInSweep(s, leftover, t);
  }

  lemma LeftoverInCall(s: Engine, s': Engine, c: Timed)
    requires SameButLeftover(s, s') && Admissible(c)
    ensures Perform(s', c).1 == Perform(s, c).1
    ensures SameButLeftover(Perform(s, c).0, Perform(s', c).0)
  {
    hide Recover, RecoveredBytes, EncodeFrame, SortedKeys, Matching, Get, Exists, Set, Remove, Sweep, Compact, Cut;
    var leftover := s'.disk.temporary;
    match c.call
    case CallSet(k, v, ttlMs) => LeftoverInWrite(s, leftover, k, v, ttlMs, c.nowMs);
    case CallGet(k) => LeftoverInGet(s, leftover, k, c.nowMs);
    case CallRemove(k) => LeftoverInWrite(s, leftover, k, [], None, c.nowMs);
    case CallExists(k) => LeftoverInGet(s, leftover, k, c.nowMs);
    case CallKeys(_) => LeftoverInSweep(s, leftover, c.nowMs);
    case CallCleanup => LeftoverInSweep(s, leftover, c.nowMs);
    case CallCompact => LeftoverInCompact(s, leftover, c.nowMs);
    case CrashCompact(_) => LeftoverInCompact(s, leftover, c.nowMs);
    case _ =>
  }

  ghost function Outcomes(s: Engine, calls: seq<Timed>): seq<Outcome>
    requires AllAdmissible(calls)
    decreases calls
  {
    if calls == [] then [] else [Perform(s, calls[0]).1] + Outcomes(Perform(s, calls[0]).0, calls[1..])
  }

  /** A leftover temporary file never influences anything: two stores that differ in their leftovers,
      or of which only one has one, give the same answers to all calls, restarts and crashes, and
      differ at the end in their leftovers at most. */
  lemma {:induction false} LeftoverIgnored(s: Engine, s': Engine, calls: seq<Timed>)
    requires SameButLeftover(s, s') && AllAdmissible(calls)
    ensures Outcomes(s', calls) == Outcomes(s, calls)
    ensures SameButLeftover(After(s, calls), After(s', calls))
    decreases calls
  {
    hide Perform, SameButLeftover, Admissible;
    if calls != [] {
      LeftoverInCall(s, s', calls[0]);
      LeftoverIgnored(Perform(s, calls[0]).0, Perform(s', calls[0]).0, calls[1..]);
    }
  }
}

/** Counting keys within one open session. */
module Conservation {
  import opened Types
  import opened Codec
  import opened Log
  import opened Compaction
  import opened Ordering
  import opened Recovery
  import opened Engine
  import opened TimedMap
  import opened Refinement
  import KV = KeyValueStore

  /** Keys indexed now, plus keys that left by DELETE or by expiry, less SETs. */
  function Balance(s: Engine): int {
    |s.index| + s.counters.deletes + s.counters.expired - s.counters.sets
  }

  predicate InSession(c: Call) {
    c.CallSet? || c.CallGet? || c.CallRemove? || c.CallExists? || c.CallKeys? || c.CallCleanup? || c.CallCompact?
  }

  /** A successful SET of a key that is still in the index, expired or not. */
  predicate Overwrites(s: Engine, c: Call) {
    c.CallSet? && s.isOpen && ValidSet(c.key, c.value, c.ttlMs) && c.key in s.index
  }

  lemma SizeWithout(index: Index, k: Bytes)
    requires k in index
    ensures |index - {k}| == |index| - 1
  {
    assert (index - {k}).Keys == index.Keys - {k};
  }

  lemma SizeWith(index: Index, k: Bytes, meta: RecordMetadata)
    ensures |index[k := meta]| == if k in index then |index| else |index| + 1
  {
    assert index[k := meta].Keys == index.Keys + {k};
  }

  lemma SweepBalance(s: Engine, nowMs: int64)
    ensures Balance(Sweep(s, nowMs)) == Balance(s)
    ensures Sweep(s, nowMs).isOpen == s.isOpen
  {
    var gone := ExpiredKeys(s.index, nowMs);
    assert (s.index - gone).Keys == s.index.Keys - gone;
    assert gone <= s.index.Keys;
  }

  lemma GetBalance(s: Engine, k: Bytes, nowMs: int64)
    ensures Balance(Get(s, k, nowMs).0) == Balance(s)
    ensures Balance(Exists(s, k, nowMs).0) == Balance(s)
  {
    if k in s.index {
      SizeWithout(s.index, k);
    }
  }

  lemma CompactBalance(s: Engine, fs: seq<Frame>, nowMs: int64)
    requires StandsOn(s, fs, [], nowMs) && s.isOpen
    ensures Balance(Compact(s, nowMs).0) == Balance(s)
  {
    hide StandsOn, Latest, Meaning, Sweep, EncodeLog, LogSize, Gathered, Readable, ValidBindings;
    SweepBalance(s, nowMs);
    SweepStandsOn(s, fs, nowMs);
    GatheredIsLive(Sweep(s, nowMs), fs, nowMs);
    SweepStays(s, nowMs);
    var m := Live(Meaning(fs), nowMs);
    KV.CompactIndexSize(m);
    assert |Sweep(s, nowMs).index.Keys| == |m.Keys|;
  }

  lemma SweepStays(s: Engine, nowMs: int64)
    ensures Sweep(s, nowMs).disk == s.disk && Sweep(s, nowMs).isOpen == s.isOpen
  {}

  lemma SetBalance(s: Engine, k: Bytes, v: Bytes, ttlMs: Option<int>, nowMs: int64)
    requires TtlFits(ttlMs, nowMs) && s.isOpen
    ensures Balance(Set(s, k, v, ttlMs, nowMs).0)
            == Balance(s) - (if ValidSet(k, v, ttlMs) && k in s.index then 1 else 0)
  {
    hide EncodeFrame, MetaAt;
    if ValidSet(k, v, ttlMs) {
      SizeWith(s.index, k, MetaAt(SetFrame(k, v, ExpiryOf(ttlMs, nowMs)), |s.disk.data|));
    }
  }

  lemma RemoveBalance(s: Engine, k: Bytes, nowMs: int64)
    ensures Balance(Remove(s, k, nowMs).0) == Balance(s)
  {
    hide EncodeFrame;
    if k in s.index {
      SizeWithout(s.index, k);
    }
  }

  /** Every call keeps the balance, except that overwriting an indexed key costs one. */
  lemma CallBalance(s: Engine, fs: seq<Frame>, c: Timed)
    requires StandsOn(s, fs, [], c.nowMs) && s.isOpen && Admissible(c) && InSession(c.call)
    ensures Balance(Perform(s, c).0) == Balance(s) - (if Overwrites(s, c.call) then 1 else 0)
  {
    hide StandsOn, Compact, Sweep, Get, Exists, Set, Remove, Balance;
    match c.call
    case CallSet(k, v, ttlMs) => SetBalance(s, k, v, ttlMs, c.nowMs);
    case CallGet(k) => GetBalance(s, k, c.nowMs);
    case CallExists(k) => GetBalance(s, k, c.nowMs);
    case CallRemove(k) => RemoveBalance(s, k, c.nowMs);
    case CallKeys(_) => SweepBalance(s, c.nowMs);
    case CallCleanup => SweepBalance(s, c.nowMs);
    case CallCompact => CompactBalance(s, fs, c.nowMs);
  }

  ghost predicate AllInSession(calls: seq<Timed>) {
    forall i :: 0 <= i < |calls| ==> InSession(calls[i].call)
  }

  /** How many SETs of the run hit a key still in the index. */
  ghost function OverwriteCount(s: Engine, calls: seq<Timed>): nat
    requires AllAdmissible(calls)
    decreases calls
  {
    if calls == [] then 0
    else (if Overwrites(s, calls[0].call) then 1 else 0) + OverwriteCount(Perform(s, calls[0]).0, calls[1..])
  }

  lemma StaysOpen(s: Engine, c: Timed)
    requires s.isOpen && InSession(c.call) && Admissible(c)
    ensures Perform(s, c).0.isOpen
  {
    hide CompactBytes, CompactFrames, SortedKeys, Recover;
  }

  lemma {:induction false} RunBalance(s: Engine, p: Spec, calls: seq<Timed>, start: int64)
    requires Refines(s, p, start) && s.isOpen
    requires AllAdmissible(calls) && ClockMonotone(calls, start) && AllInSession(calls)
    ensures Balance(After(s, calls)) + OverwriteCount(s, calls) == Balance(s)
    decreases calls
  {
    hide StandsOn, SameView, Balance, Overwrites, Perform, SpecStep, InSession;
    if calls != [] {
      var c := calls[0];
      var fs, tail :| StandsOn(s, fs, tail, start) && SameView(fs, p, start);
      TimePasses(s, fs, tail, p, start, c.nowMs);
      OpenTail(s, fs, tail, c.nowMs);
      CallBalance(s, fs, c);
      CallRefines(s, p, c, start);
      StaysOpen(s, c);
      RunBalance(Perform(s, c).0, SpecStep(p, c), calls[1..], c.nowMs);
    }
  }

  /** Key-count conservation. Open the store and make any calls of one session: indexed keys plus
      deletes plus expirations are at most the recovered keys plus the successful SETs, and equal to
      them exactly if no SET hit a key that was still in the index. */
  lemma KeyCountConservation(s: Engine, p: Spec, openMs: int64, calls: seq<Timed>)
    requires Refines(s, p, openMs) && !s.isOpen && p.canOpen
    requires AllAdmissible(calls) && ClockMonotone(calls, openMs) && AllInSession(calls)
    ensures var s0 := Open(s, openMs).0;
            var s1 := After(s0, calls);
            var left := |s1.index| + (s1.counters.deletes - s.counters.deletes)
                        + (s1.counters.expired - s.counters.expired);
            var right := |s0.index| + (s1.counters.sets - s.counters.sets);
            left <= right && (left == right <==> OverwriteCount(s0, calls) == 0)
  {
    hide StandsOn, SameView, Perform, SpecStep, Overwrites, After, OverwriteCount, Recover, RecoveredBytes;
    CallRefines(s, p, Timed(CallOpen, openMs), openMs);
    OpenCounters(s, openMs);
    OpensUp(p, openMs);
    PerformOpen(s, openMs);
    RunBalance(Open(s, openMs).0, SpecStep(p, Timed(CallOpen, openMs)), calls, openMs);
  }

  lemma PerformOpen(s: Engine, nowMs: int64)
    ensures Perform(s, Timed(CallOpen, nowMs)) == Open(s, nowMs)
  {}

  lemma OpensUp(p: Spec, nowMs: int64)
    ensures SpecStep(p, Timed(CallOpen, nowMs)).isOpen == (p.isOpen || p.canOpen)
  {}

  lemma OpenCounters(s: Engine, nowMs: int64)
    ensures var s0 := Open(s, nowMs).0;
            && s0.counters.deletes == s.counters.deletes && s0.counters.expired == s.counters.expired
            && s0.counters.sets == s.counters.sets
  {}
}

/** The operation counters against the answers that callers saw. */
module Statistics {
  import opened Types
  import opened Log
  import opened Compaction
  import opened Ordering
  import opened Recovery
  import opened Engine
  import opened Refinement
  import Lru

  datatype Tally = Tally(gets: nat, sets: nat, deletes: nat, compactions: nat)

  const NOTHING := Tally(0, 0, 0, 0)

  function Plus(a: Tally, b: Tally): Tally {
    Tally(a.gets + b.gets, a.sets + b.sets, a.deletes + b.deletes, a.compactions + b.compactions)
  }

  predicate Rejected(r: Outcome) {
    r == Failed(Closed) || r == Failed(InvalidArgument)
  }

  /** What one call contributes, by its answer alone: reads that were not rejected, and writes,
      deletes and compactions that succeeded. */
  function Contribution(c: Call, r: Outcome): Tally {
    match c
    case CallGet(_) => if Rejected(r) then NOTHING else NOTHING.(gets := 1)
    case CallExists(_) => if Rejected(r) then NOTHING else NOTHING.(gets := 1)
    case CallSet(_, _, _) => if r == Done then NOTHING.(sets := 1) else NOTHING
    case CallRemove(_) => if r == Done then NOTHING.(deletes := 1) else NOTHING
    case CallCompact => if r.Summary? then NOTHING.(compactions := 1) else NOTHING
    case _ => NOTHING
  }

  function Counted(s: Engine): Tally {
    Tally(s.counters.gets, s.counters.sets, s.counters.deletes, s.counters.compactions)
  }

  predicate Survives(c: Call) {
    !c.Crash? && !c.CrashSet? && !c.CrashRemove? && !c.CrashCompact?
  }

  lemma GetCounted(s: Engine, k: Bytes, nowMs: int64)
    ensures Counted(Get(s, k, nowMs).0) == Plus(Counted(s), Contribution(CallGet(k), Get(s, k, nowMs).1))
    ensures Counted(Exists(s, k, nowMs).0) == Plus(Counted(s), Contribution(CallExists(k), Exists(s, k, nowMs).1))
  {
    hide Lru.Get, Lru.Put, Lru.Erase;
  }

  lemma CallCounted(s: Engine, c: Timed)
    requires Admissible(c) && Survives(c.call)
    ensures Counted(Perform(s, c).0) == Plus(Counted(s), Contribution(c.call, Perform(s, c).1))
  {
    hide Get, Exists, CompactBytes, CompactFrames, Latest, LogSize, SortedKeys, Recover, RecoveredBytes,
        Lru.Put, Lru.Erase, Gathered, Readable, ValidBindings;
    match c.call
    case CallGet(k) => GetCounted(s, k, c.nowMs);
    case CallExists(k) => GetCounted(s, k, c.nowMs);
    case _ =>
  }

  ghost function Total(s: Engine, calls: seq<Timed>): Tally
    requires AllAdmissible(calls)
    decreases calls
  {
    if calls == [] then NOTHING
    else Plus(Contribution(calls[0].call, Perform(s, calls[0]).1), Total(Perform(s, calls[0]).0, calls[1..]))
  }

  /** Over every run of one process, closing and reopening included, the four operation counters grow
      by exactly the number of answers of their kind. */
  lemma {:induction false} CountersMatchAnswers(s: Engine, calls: seq<Timed>)
    requires AllAdmissible(calls) && forall i :: 0 <= i < |calls| ==> Survives(calls[i].call)
    ensures Counted(After(s, calls)) == Plus(Counted(s), Total(s, calls))
    decreases calls
  {
    hide Perform, Contribution, Survives, Admissible, Counted;
    if calls != [] {
      CallCounted(s, calls[0]);
      CountersMatchAnswers(Perform(s, calls[0]).0, calls[1..]);
    }
  }
}

/** Why the clock must not go back. */
module ClockGoingBack {
  import opened Types
  import opened Codec
  import opened Log
  import opened Recovery
  import opened Compaction
  import opened Engine
  import opened TimedMap
  import opened Refinement
  import Lru

  /** Expired keys leave the index without a tombstone in the log. A read at an earlier time than one
      already observed is therefore right exactly unless its key has been dropped and would still
      be visible at that earlier time. */
  lemma EarlierRead(s: Engine, fs: seq<Frame>, nowMs: int64, k: Bytes, t: int64)
    requires StandsOn(s, fs, [], nowMs) && s.isOpen && ValidKey(k)
    ensures Get(s, k, t).1 == (if Visible(Meaning(fs), k, t) then Value(Meaning(fs)[k].value) else Failed(NotFound))
            <==> !(k !in s.index && Visible(Meaning(fs), k, t))
  {
    hide StandsOn, Meaning, Fetch, EraseIfExpired;
    CountStandsOn(s, fs, nowMs);
    IndexedKey(CountGet(s), fs, nowMs, k);
    if k in s.index {
      FetchStandsOn(CountGet(s), fs, k, nowMs);
    }
  }

  // What a store has forgotten once it has seen a time

  /** The store has dropped from its index what had expired at time `u` of the records `fs`, and now
      stands on the records `gs`. */
  ghost predicate HasSeen(s: Engine, fs: seq<Frame>, gs: seq<Frame>, u: int64) {
    && s.isOpen && StandsOn(s, gs, [], u)
    && Live(Meaning(gs), u) == Live(Meaning(fs), u)
    && s.index.Keys == Live(Meaning(fs), u).Keys
  }

  lemma SweepSees(s: Engine, fs: seq<Frame>, u: int64)
    requires StandsOn(s, fs, [], u) && s.isOpen
    ensures HasSeen(Sweep(s, u), fs, fs, u)
  {
    hide StandsOn, Meaning, Live;
    SweepStandsOn(s, fs, u);
  }

  lemma CompactSees(s: Engine, fs: seq<Frame>, u: int64)
    requires StandsOn(s, fs, [], u) && s.isOpen
    ensures HasSeen(Compact(s, u).0, fs, Compacted(fs, u), u)
  {
    hide StandsOn, Meaning, Latest, Compact, EncodeLog, CompactFrames;
    CompactDoes(s, fs, u);
    CompactMeaning(Live(Meaning(fs), u));
    SameKeys(Compacted(fs, u));
  }

  lemma OpenSees(s: Engine, fs: seq<Frame>, tail: Bytes, u: int64)
    requires StandsOn(s, fs, tail, u) && !s.isOpen && s.cleanupIntervalMs > 0
    ensures HasSeen(Open(s, u).0, fs, fs, u)
  {
    hide Latest, Meaning, EncodeLog, ParseFrame, ValidLog, Replay, Split, Recover, RecoveredBytes;
    RecoverDecomposed(fs, tail, u);
    ReplayIsLiveLatest(fs, u);
    NothingIsTorn();
    assert EncodeLog(fs) + [] == EncodeLog(fs);
    var s' := Open(s, u).0;
    assert StandsOn(s', fs, [], u);
    forall k
      ensures k in s'.index <==> k in Live(Meaning(fs), u)
    {
      IndexedKey(s', fs, u, k);
    }
  }

  /** A binding that had expired at `u` and would be visible at the earlier time `t`. */
  predicate Forgotten(m: Bindings, k: Bytes, t: int64, u: int64) {
    k in m && 0 < m[k].expiresAtMs && t < m[k].expiresAtMs <= u
  }

  /** After a sweep, a compaction or an opening at time `u`, a GET or a DEL at any time `t` answers as
      the records demand exactly unless the key's binding had expired at `u` and is visible at `t`;
      and then the DEL writes no tombstone. */
  lemma EarlierCall(s: Engine, fs: seq<Frame>, gs: seq<Frame>, u: int64, k: Bytes, t: int64)
    requires HasSeen(s, fs, gs, u) && ValidKey(k)
    ensures Get(s, k, t).1 == (if Visible(Meaning(fs), k, t) then Value(Meaning(fs)[k].value) else Failed(NotFound))
            <==> !Forgotten(Meaning(fs), k, t, u)
    ensures Remove(s, k, t).1 == (if Visible(Meaning(fs), k, t) then Done else Failed(NotFound))
            <==> !Forgotten(Meaning(fs), k, t, u)
    ensures Forgotten(Meaning(fs), k, t, u) ==> Remove(s, k, t).0 == s
  {
    hide StandsOn, Meaning, RemoveIndexed, DropExpired, Fetch, EraseIfExpired;
    EarlierRead(s, gs, u, k, t);
    IndexedKey(s, gs, u, k);
    if k in s.index {
      assert Live(Meaning(gs), u)[k] == Live(Meaning(fs), u)[k];
    }
  }

  /** So such a DEL is lost: after a restart at the same earlier time the key is back. */
  lemma DeleteLost(s: Engine, fs: seq<Frame>, u: int64, k: Bytes, t: int64)
    requires HasSeen(s, fs, fs, u) && ValidKey(k) && Forgotten(Meaning(fs), k, t, u)
    ensures var deleted := Remove(s, k, t).0;
            var reopened := Open(Restart(deleted, deleted.disk), t).0;
            Get(reopened, k, t).1 == Value(Meaning(fs)[k].value)
  {
    hide StandsOn, Meaning, Open, Get, Remove, Live;
    EarlierCall(s, fs, fs, u, k, t);
    var r := Restart(s, s.disk);
    assert StandsOn(r, fs, [], t) && r.cleanupIntervalMs > 0 by { RestartsOn(s, fs, u, t); }
    OpenSees(r, fs, [], t);
    EarlierCall(Open(r, t).0, fs, fs, t, k, t);
  }

  lemma RestartsOn(s: Engine, fs: seq<Frame>, u: int64, t: int64)
    requires StandsOn(s, fs, [], u) && s.isOpen
    ensures StandsOn(Restart(s, s.disk), fs, [], t) && s.cleanupIntervalMs > 0
  {
    hide Meaning, EncodeLog, ParseFrame, ValidLog;
  }

  /** An instance: "a" = "x" with a TTL of 10 set at time 100 and swept at time 200. At time 105, were
      the clock to return there, the timed map would show it and the store does not. */
  lemma SweptKeyStaysAway(s: Engine, nowMs: int64)
    requires StandsOn(s, [], [], nowMs) && s.isOpen && nowMs <= 100
    ensures var s1 := Set(s, [97], [120], Some(10), 100).0;
            var s2 := Sweep(s1, 200);
            && Get(s1, [97], 105).1 == Value([120])
            && Get(s2, [97], 105).1 == Failed(NotFound)
  {
    hide StandsOn, Meaning, EncodeFrame, Lru.Put, SetFrame;
    var p := Spec(s.cleanupIntervalMs > 0, true, Meaning([]));
    TimePasses(s, [], [], p, nowMs, 100);
    SetFrameValid([97], [120], 110);
    SetLockedStandsOn(s, [], [97], [120], 110, 100);
    var s1 := SetLocked(s, [97], [120], 110);
    assert Set(s, [97], [120], Some(10), 100).0 == s1;
    var fs := [] + [SetFrame([97], [120], 110)];
    EarlierRead(s1, fs, 100, [97], 105);
    var q := Spec(s.cleanupIntervalMs > 0, true, Meaning(fs));
    TimePasses(s1, fs, [], q, 100, 200);
    SweepStandsOn(s1, fs, 200);
    var s2 := Sweep(s1, 200);
    IndexedKey(s1, fs, 100, [97]);
    assert [97] !in s2.index;
    EarlierRead(s2, fs, 200, [97], 105);
  }
}
