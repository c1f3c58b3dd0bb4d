/** A client that makes one call after another on a store object, as the command loop does. */
module Client {
  import opened Types
  import opened Engine
  import opened TimedMap
  import opened Refinement
  import KV = KeyValueStore

  predicate IsCrash(c: Call) {
    c.Crash? || c.CrashSet? || c.CrashRemove? || c.CrashCompact?
  }

  method Dispatch(store: KV.KeyValueStore, c: Timed) returns (r: Outcome)
    requires store.Valid() && Admissible(c) && !IsCrash(c.call)
    modifies store.Footprint()
    ensures store.Valid() && fresh(store.Footprint() - old(store.Footprint()))
    ensures (store.State(), r) == Perform(old(store.State()), c)
  {
    hide Open, Set, Get, Remove, Exists, Keys, Cleanup, Compact, KV.KeyValueStore.State, KV.KeyValueStore.Valid;
    match c.call {
      case CallOpen => r := store.Open(c.nowMs);
      case CallClose => r := store.Close();
      case CallSet(k, v, ttlMs) => r := store.Set(k, v, ttlMs, c.nowMs);
      case CallGet(k) => r := store.Get(k, c.nowMs);
      case CallRemove(k) => r := store.Remove(k, c.nowMs);
      case CallExists(k) => r := store.Exists(k, c.nowMs);
      case CallKeys(prefix) => r := store.Keys(prefix, c.nowMs);
      case CallCleanup => r := store.CleanupExpired(c.nowMs);
      case CallCompact => r := store.Compact(c.nowMs);
    }
  }

  lemma {:induction false} MonotoneAt(calls: seq<Timed>, start: int64, i: nat)
    requires ClockMonotone(calls, start) && i < |calls|
    ensures LastTime(calls[..i], start) <= calls[i].nowMs
    decreases i
  {
    if i > 0 {
      MonotoneAt(calls[1..], calls[0].nowMs, i - 1);
      assert calls[1..][..i - 1] == calls[1..i];
    }
  }

  lemma {:induction false} SpecAfterSnoc(p: Spec, calls: seq<Timed>, c: Timed)
    requires AllAdmissible(calls) && Admissible(c)
    ensures AllAdmissible(calls + [c])
    ensures SpecAfter(p, calls + [c]) == SpecStep(SpecAfter(p, calls), c)
    decreases calls
  {
    hide SpecStep, Admissible;
    if calls == [] {
      assert ([] + [c])[1..] == [];
    } else {
      assert (calls + [c])[1..] == calls[1..] + [c];
      SpecAfterSnoc(SpecStep(p, calls[0]), calls[1..], c);
    }
  }

  /** One call on the object: its response is one that the timed map gives. */
  method ServeOne(store: KV.KeyValueStore, c: Timed, ghost p: Spec, ghost before: int64) returns (r: Outcome)
    requires store.Valid() && Admissible(c) && !IsCrash(c.call)
    requires Refines(store.State(), p, before) && before <= c.nowMs
    modifies store.Footprint()
    ensures store.Valid() && fresh(store.Footprint() - old(store.Footprint()))
    ensures Answers(p, c, r)
    ensures Refines(store.State(), SpecStep(p, c), c.nowMs)
  {
    hide Refines, Answers, Perform, SpecStep, Admissible, KV.KeyValueStore.State, KV.KeyValueStore.Valid;
    CallRefines(store.State(), p, c, before);
    r := Dispatch(store, c);
  }

  /** The responses given so far are those of the timed map after the calls before each. */
  ghost predicate Answered(p: Spec, calls: seq<Timed>, rs: seq<Outcome>)
    requires AllAdmissible(calls)
  {
    |rs| <= |calls| && forall i :: 0 <= i < |rs| ==> Answers(SpecAfter(p, calls[..i]), calls[i], rs[i])
  }

  /** The specification side of the next call. */
  lemma NextCall(p: Spec, calls: seq<Timed>, start: int64, i: nat)
    requires AllAdmissible(calls) && ClockMonotone(calls, start) && i < |calls|
    ensures Admissible(calls[i])
    ensures LastTime(calls[..i], start) <= calls[i].nowMs == LastTime(calls[..i + 1], start)
    ensures SpecAfter(p, calls[..i + 1]) == SpecStep(SpecAfter(p, calls[..i]), calls[i])
  {
    hide SpecStep, Admissible, SpecAfter;
    MonotoneAt(calls, start, i);
    SpecAfterSnoc(p, calls[..i], calls[i]);
    assert calls[..i + 1] == calls[..i] + [calls[i]];
  }

  lemma OneMoreAnswer(p: Spec, calls: seq<Timed>, rs: seq<Outcome>, r: Outcome)
    requires AllAdmissible(calls) && Answered(p, calls, rs) && |rs| < |calls|
    requires Answers(SpecAfter(p, calls[..|rs|]), calls[|rs|], r)
    ensures Answered(p, calls, rs + [r])
  {
    hide Answers, SpecAfter, Admissible;
  }

  /** The store object as its user sees it: whatever calls are made, every response is the response
      of the timed map after the calls before it. */
  method Serve(store: KV.KeyValueStore, calls: seq<Timed>, ghost p: Spec, ghost start: int64)
      returns (rs: seq<Outcome>)
    requires store.Valid() && Refines(store.State(), p, start)
    requires AllAdmissible(calls) && ClockMonotone(calls, start)
    requires forall i :: 0 <= i < |calls| ==> !IsCrash(calls[i].call)
    modifies store.Footprint()
    ensures store.Valid() && Refines(store.State(), SpecAfter(p, calls), LastTime(calls, start))
    ensures |rs| == |calls| && Answered(p, calls, rs)
  {
    hide Refines, Answers, SpecStep, SpecAfter, Answered, ClockMonotone, LastTime, Admissible,
        KV.KeyValueStore.State, KV.KeyValueStore.Valid;
    rs := [];
    NoCallsYet(p, calls, start);
    for i := 0 to |calls|
      invariant store.Valid() && fresh(store.Footprint() - old(store.Footprint()))
      invariant Refines(store.State(), SpecAfter(p, calls[..i]), LastTime(calls[..i], start))
      invariant |rs| == i && Answered(p, calls, rs)
    {
      NextCall(p, calls, start, i);
      var r := ServeOne(store, calls[i], SpecAfter(p, calls[..i]), LastTime(calls[..i], start));
      OneMoreAnswer(p, calls, rs, r);
      rs := rs + [r];
    }
    assert calls[..|calls|] == calls;
  }

  lemma NoCallsYet(p: Spec, calls: seq<Timed>, start: int64)
    requires AllAdmissible(calls)
    ensures calls[..0] == [] && SpecAfter(p, []) == p && LastTime([], start) == start && Answered(p, calls, [])
  {}
}
