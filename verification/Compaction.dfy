/** Compaction on values: the file it produces from a set of bindings, why that file means the same,
    why it is the only one possible and why it is never larger. */
module Compaction {
  import opened Types
  import opened Codec
  import opened Log
  import opened Ordering
  import opened Recovery

  function RecordOf(k: Bytes, b: Binding): Record {
    Record(OpSet, k, b.value, b.expiresAtMs)
  }

  /** One SET per binding, in key order. */
  ghost function CompactRecords(m: Bindings): (rs: seq<Record>)
    ensures |rs| == |m|
  {
    var ks := SortedKeys(m.Keys);
    seq(|ks|, i requires 0 <= i < |ks| => RecordOf(ks[i], m[ks[i]]))
  }

  ghost function CompactFrames(m: Bindings): seq<Frame> {
    Frames(CompactRecords(m))
  }

  /** The bytes of a compacted log. */
  ghost function CompactBytes(m: Bindings): Bytes {
    EncodeLog(CompactFrames(m))
  }

  ghost predicate ValidBindings(m: Bindings) {
    forall k :: k in m ==> ValidRecord(RecordOf(k, m[k]))
  }

  lemma RecordsIncreasing(m: Bindings)
    ensures IncreasingBy(CompactRecords(m), (r: Record) => r.key)
    ensures AllSets(CompactRecords(m))
  {
    hide ValidRecord, KeyLess;
    var ks := SortedKeys(m.Keys);
    assert forall i, j :: 0 <= i < j < |ks| ==> KeyLess(((k: Bytes) => k)(ks[i]), ((k: Bytes) => k)(ks[j]));
  }

  lemma RecordsMembers(m: Bindings, r: Record)
    ensures r in CompactRecords(m) <==> r.key in m && r == RecordOf(r.key, m[r.key])
  {
    hide ValidRecord, KeyLess, IncreasingBy;
    var ks, rs := SortedKeys(m.Keys), CompactRecords(m);
    if r.key in m && r == RecordOf(r.key, m[r.key]) {
      assert r.key in ks;
      var i :| 0 <= i < |ks| && ks[i] == r.key;
      assert rs[i] == r;
    }
  }

  lemma RecordsOf(m: Bindings)
    ensures IncreasingBy(CompactRecords(m), (r: Record) => r.key)
    ensures forall r :: r in CompactRecords(m) <==> r.key in m && r == RecordOf(r.key, m[r.key])
    ensures ValidBindings(m) <==> AllValid(CompactRecords(m))
    ensures AllSets(CompactRecords(m))
  {
    hide ValidRecord, CompactRecords, IncreasingBy, AllSets;
    RecordsIncreasing(m);
    forall r
      ensures r in CompactRecords(m) <==> r.key in m && r == RecordOf(r.key, m[r.key])
    {
      RecordsMembers(m, r);
    }
    if AllValid(CompactRecords(m)) {
      forall k | k in m
        ensures ValidRecord(RecordOf(k, m[k]))
      {
        assert RecordOf(k, m[k]) in CompactRecords(m);
      }
    }
  }

  /** Any strictly increasing list of exactly these records is the list: the order in which the
      bindings were collected does not show. */
  lemma RecordsUnique(rs: seq<Record>, m: Bindings)
    requires IncreasingBy(rs, (r: Record) => r.key)
    requires forall r :: r in rs <==> r.key in m && r == RecordOf(r.key, m[r.key])
    ensures rs == CompactRecords(m)
  {
    RecordsOf(m);
    IncreasingUnique(rs, CompactRecords(m), (r: Record) => r.key);
  }

  lemma CompactValid(m: Bindings)
    requires ValidBindings(m)
    ensures ValidLog(CompactFrames(m))
  {
    hide ValidRecord;
    RecordsOf(m);
  }

  lemma NoMeaning()
    ensures Meaning([]) == map[]
  {}

  /** Every record is a SET, and no key occurs twice. */
  ghost predicate NoWaste(fs: seq<Frame>) {
    && (forall i :: 0 <= i < |fs| ==> fs[i].record.operation == OpSet)
    && (forall i, j :: 0 <= i < j < |fs| ==> fs[i].record.key != fs[j].record.key)
  }

  lemma NoWasteBound(fs: seq<Frame>, i: nat)
    requires NoWaste(fs) && i < |fs|
    ensures fs[i].record.key in Meaning(fs)
    ensures Meaning(fs)[fs[i].record.key] == Binding(fs[i].record.value, fs[i].record.expiresAtMs)
  {
    hide Meaning, Latest;
    var k := fs[i].record.key;
    var j := LastWriter(fs, k);
    assert IsLastWrite(fs, k, i);
  }

  lemma CompactNoWaste(m: Bindings)
    ensures NoWaste(CompactFrames(m))
  {
    hide CompactRecords;
    var rs := CompactRecords(m);
    RecordsOf(m);
    forall i, j | 0 <= i < j < |rs|
      ensures rs[i].key != rs[j].key
    {
      assert KeyLess(((r: Record) => r.key)(rs[i]), ((r: Record) => r.key)(rs[j]));
      LessIrreflexive(rs[i].key);
    }
  }

  lemma RecordAt(m: Bindings, k: Bytes) returns (i: nat)
    requires k in m
    ensures i < |CompactFrames(m)| && CompactFrames(m)[i] == Frame(RecordOf(k, m[k]), 0)
  {
    hide CompactRecords;
    RecordsOf(m);
    assert RecordOf(k, m[k]) in CompactRecords(m);
    i :| 0 <= i < |CompactRecords(m)| && CompactRecords(m)[i] == RecordOf(k, m[k]);
  }

  lemma FrameIn(m: Bindings, i: nat)
    requires i < |CompactFrames(m)|
    ensures CompactFrames(m)[i].record.key in m
  {
    hide CompactRecords;
    RecordsOf(m);
    assert CompactRecords(m)[i] in CompactRecords(m);
  }

  /** Replaying the compacted file gives back the bindings it was made from. */
  lemma CompactMeaning(m: Bindings)
    ensures Meaning(CompactFrames(m)) == m
  {
    hide Meaning, Latest, CompactFrames, NoWaste;
    var fs := CompactFrames(m);
    CompactNoWaste(m);
    forall k
      ensures k in Meaning(fs) <==> k in m
      ensures k in m ==> Meaning(fs)[k] == m[k]
    {
      if k in m {
        var i := RecordAt(m, k);
        NoWasteBound(fs, i);
      } else {
        var i := LastWriter(fs, k);
        if k in Meaning(fs) {
          FrameIn(m, i);
        }
      }
    }
  }

  lemma MeaningValid(fs: seq<Frame>)
    requires ValidLog(fs)
    ensures ValidBindings(Meaning(fs))
  {
    hide Meaning, Latest;
    forall k | k in Meaning(fs)
      ensures ValidRecord(RecordOf(k, Meaning(fs)[k]))
    {
      var i := LastWriter(fs, k);
      assert ValidFrame(fs[i]);
    }
  }

  lemma LiveValid(m: Bindings, nowMs: int64)
    requires ValidBindings(m)
    ensures ValidBindings(Live(m, nowMs))
  {
    hide ValidRecord;
  }

  lemma LiveLater(m: Bindings, t1: int64, t2: int64)
    requires t1 <= t2
    ensures Live(Live(m, t1), t2) == Live(m, t2)
  {}

  /** The log that compaction at `nowMs` writes in place of `fs`. */
  ghost function Compacted(fs: seq<Frame>, nowMs: int64): seq<Frame> {
    CompactFrames(Live(Meaning(fs), nowMs))
  }

  /** Compaction preserves meaning: at every later time the new log has the same live bindings,
      values and expiries included, as the old one; and the new file is a clean log from which
      recovery computes the index that compaction returns. */
  lemma CompactionPreservesMeaning(fs: seq<Frame>, nowMs: int64, t: int64)
    requires ValidLog(fs) && nowMs <= t
    ensures ValidLog(Compacted(fs, nowMs))
    ensures Live(Meaning(Compacted(fs, nowMs)), t) == Live(Meaning(fs), t)
    ensures Recover(EncodeLog(Compacted(fs, nowMs)), t)
            == Ok(RecoveryState(LiveIndex(Latest(Compacted(fs, nowMs)), t), |Live(Meaning(fs), nowMs)|, 0))
    ensures LiveIndex(Latest(Compacted(fs, nowMs)), nowMs) == Latest(Compacted(fs, nowMs))
  {
    hide Meaning, Latest, EncodeLog, Replay, ParseFrame, LogSize, Split, ValidLog, Frames;
    var m := Live(Meaning(fs), nowMs);
    MeaningValid(fs);
    LiveValid(Meaning(fs), nowMs);
    CompactValid(m);
    CompactMeaning(m);
    LiveLater(Meaning(fs), nowMs, t);
    var gs := Compacted(fs, nowMs);
    NothingIsTorn();
    RecoverDecomposed(gs, [], t);
    assert EncodeLog(gs) + [] == EncodeLog(gs);
    ReplayIsLiveLatest(gs, t);
    forall k | k in Latest(gs)
      ensures !IsExpired(Latest(gs)[k].expiresAtMs, nowMs)
    {
      var _ := LastWriter(gs, k);
    }
    FramesCount(m);
  }

  lemma FramesCount(m: Bindings)
    ensures |CompactFrames(m)| == |m|
  {}

  /** Compaction is canonical: two logs compact to the same bytes exactly when they have the same
      live bindings, whatever their histories. */
  lemma CompactionCanonical(fs: seq<Frame>, gs: seq<Frame>, t1: int64, t2: int64)
    requires ValidLog(fs) && ValidLog(gs)
    ensures EncodeLog(Compacted(fs, t1)) == EncodeLog(Compacted(gs, t2)) <==>
            Live(Meaning(fs), t1) == Live(Meaning(gs), t2)
  {
    hide Meaning, EncodeLog, ValidLog, CompactFrames;
    MeaningValid(fs);
    MeaningValid(gs);
    LiveValid(Meaning(fs), t1);
    LiveValid(Meaning(gs), t2);
    CompactValid(Live(Meaning(fs), t1));
    CompactValid(Live(Meaning(gs), t2));
    CompactMeaning(Live(Meaning(fs), t1));
    CompactMeaning(Live(Meaning(gs), t2));
    if EncodeLog(Compacted(fs, t1)) == EncodeLog(Compacted(gs, t2)) {
      UniqueDecoding(Compacted(fs, t1), Compacted(gs, t2));
    }
  }

  /** Compacting a compacted log changes its bytes exactly when something has expired since. */
  lemma CompactionIdempotent(fs: seq<Frame>, t1: int64, t2: int64)
    requires ValidLog(fs) && t1 <= t2
    ensures EncodeLog(Compacted(Compacted(fs, t1), t2)) == EncodeLog(Compacted(fs, t1)) <==>
            Live(Meaning(fs), t2) == Live(Meaning(fs), t1)
  {
    hide Meaning, EncodeLog, ValidLog, Compacted;
    CompactionPreservesMeaning(fs, t1, t2);
    CompactionCanonical(Compacted(fs, t1), fs, t2, t1);
  }

  // Sizes

  function BindingSize(k: Bytes, b: Binding): nat {
    HEADER_SIZE + |k| + |b.value|
  }

  ghost function TotalSize(m: Bindings): nat
    decreases |m|
  {
    if m == map[] then 0
    else
      var k :| k in m;
      SmallerMap(m, k);
      BindingSize(k, m[k]) + TotalSize(m - {k})
  }

  lemma SmallerMap(m: Bindings, k: Bytes)
    requires k in m
    ensures |m - {k}| == |m| - 1
    ensures (m - {k}).Keys == m.Keys - {k}
  {
    assert (m - {k}).Keys == m.Keys - {k};
  }

  lemma {:induction false} TotalWithout(m: Bindings, k: Bytes)
    requires k in m
    ensures TotalSize(m) == BindingSize(k, m[k]) + TotalSize(m - {k})
    decreases |m|
  {
    var j :| j in m && TotalSize(m) == BindingSize(j, m[j]) + TotalSize(m - {j});
    if j != k {
      SmallerMap(m, j);
      SmallerMap(m, k);
      TotalWithout(m - {j}, k);
      TotalWithout(m - {k}, j);
      assert m - {j} - {k} == m - {k} - {j};
    }
  }

  lemma {:induction false} TotalOfSubmap(a: Bindings, m: Bindings)
    requires a.Keys <= m.Keys && forall k :: k in a ==> a[k] == m[k]
    ensures TotalSize(a) <= TotalSize(m)
    ensures TotalSize(a) == TotalSize(m) <==> a == m
    decreases |m|
  {
    if k :| k in m && k !in a {
      TotalWithout(m, k);
      SmallerMap(m, k);
      TotalOfSubmap(a, m - {k});
    } else {
      assert a == m;
    }
  }

  lemma {:induction false} CompactSize(m: Bindings)
    ensures LogSize(CompactFrames(m)) == TotalSize(m)
    decreases |m|
  {
    hide TotalSize, Least;
    if m == map[] {
      EmptyTotal();
    } else {
      var k := Least(m.Keys);
      SmallerMap(m, k);
      CompactSize(m - {k});
      TotalWithout(m, k);
      FirstFrame(m);
    }
  }

  lemma EmptyTotal()
    ensures TotalSize(map[]) == 0 && LogSize(CompactFrames(map[])) == 0
  {}

  lemma FirstRecord(m: Bindings)
    requires m.Keys != {}
    ensures var k := Least(m.Keys);
            CompactRecords(m) == [RecordOf(k, m[k])] + CompactRecords(m - {k})
  {
    hide *;
    var k := Least(m.Keys);
    var rest := m - {k};
    SmallerMap(m, k);
    FirstKey(m.Keys);
    var rs, rs' := CompactRecords(m), [RecordOf(k, m[k])] + CompactRecords(rest);
    RecordAtIndex(m, 0);
    forall i | 0 <= i < |rs|
      ensures rs[i] == rs'[i]
    {
      RecordAtIndex(m, i);
      if i > 0 {
        RecordAtIndex(rest, i - 1);
      }
    }
  }

  lemma FirstKey(s: set<Bytes>)
    requires s != {}
    ensures SortedKeys(s) == [Least(s)] + SortedKeys(s - {Least(s)})
  {
    hide Least;
  }

  lemma RecordAtIndex(m: Bindings, i: nat)
    requires i < |m|
    ensures SortedKeys(m.Keys)[i] in m
    ensures CompactRecords(m)[i] == RecordOf(SortedKeys(m.Keys)[i], m[SortedKeys(m.Keys)[i]])
  {
    hide SortedKeys, RecordOf;
    assert SortedKeys(m.Keys)[i] in SortedKeys(m.Keys);
  }

  lemma FirstFrame(m: Bindings)
    requires m != map[]
    ensures m.Keys != {}
    ensures var k := Least(m.Keys);
            LogSize(CompactFrames(m)) == BindingSize(k, m[k]) + LogSize(CompactFrames(m - {k}))
  {
    hide CompactRecords, Least;
    assert m.Keys != {};
    var k := Least(m.Keys);
    FirstRecord(m);
    assert CompactFrames(m)[0] == Frame(RecordOf(k, m[k]), 0);
    assert CompactFrames(m)[1..] == CompactFrames(m - {k});
  }

  /** Every logged record is still the last one of its key, is a SET and has not expired. */
  ghost predicate AllLive(fs: seq<Frame>, nowMs: int64) {
    NoWaste(fs) && forall i :: 0 <= i < |fs| ==> !IsExpired(fs[i].record.expiresAtMs, nowMs)
  }

  lemma NoWasteSnoc(fs: seq<Frame>, f: Frame)
    ensures NoWaste(fs + [f]) <==> NoWaste(fs) && f.record.operation == OpSet && f.record.key !in Meaning(fs)
  {
    hide Meaning, Latest;
    var gs := fs + [f];
    if NoWaste(gs) {
      assert forall i :: 0 <= i < |fs| ==> gs[i] == fs[i];
      assert gs[|fs|] == f;
      if f.record.key in Meaning(fs) {
        var i := LastWriter(fs, f.record.key);
      }
    }
    if NoWaste(fs) && f.record.key !in Meaning(fs) {
      forall i | 0 <= i < |fs|
        ensures fs[i].record.key != f.record.key
      {
        NoWasteBound(fs, i);
      }
    }
  }

  lemma {:induction false} MeaningSize(fs: seq<Frame>)
    ensures TotalSize(Meaning(fs)) <= LogSize(fs)
    ensures TotalSize(Meaning(fs)) == LogSize(fs) <==> NoWaste(fs)
  {
    hide Meaning, TotalSize, EncodeLog, LogSize, NoWaste;
    if fs == [] {
      NoMeaning();
      EmptyTotal();
      EmptySize();
    } else {
      var front, f := fs[..|fs| - 1], fs[|fs| - 1];
      assert fs == front + [f];
      MeaningSize(front);
      MeaningSnoc(front, f);
      EncodeSnoc(front, f);
      NoWasteSnoc(front, f);
      var m, k := Meaning(front), f.record.key;
      if k in m {
        TotalWithout(m, k);
      } else {
        assert m - {k} == m;
      }
      if f.record.operation == OpSet {
        var m' := Meaning(fs);
        TotalWithout(m', k);
        assert m' - {k} == m - {k};
      }
    }
  }

  lemma EmptySize()
    ensures LogSize([]) == 0 && NoWaste([])
  {}

  /** Compaction never makes the file larger, and leaves its size alone exactly when every logged
      record was live. */
  lemma CompactionNeverGrows(fs: seq<Frame>, nowMs: int64)
    ensures LogSize(Compacted(fs, nowMs)) <= LogSize(fs)
    ensures LogSize(Compacted(fs, nowMs)) == LogSize(fs) <==> AllLive(fs, nowMs)
  {
    hide Meaning, TotalSize, LogSize, NoWaste, CompactFrames, Latest;
    var m := Meaning(fs);
    CompactSize(Live(m, nowMs));
    TotalOfSubmap(Live(m, nowMs), m);
    MeaningSize(fs);
    if NoWaste(fs) {
      forall i | 0 <= i < |fs|
        ensures fs[i].record.key in m && m[fs[i].record.key].expiresAtMs == fs[i].record.expiresAtMs
      {
        NoWasteBound(fs, i);
      }
      if Live(m, nowMs) == m {
        assert forall i :: 0 <= i < |fs| ==> fs[i].record.key in Live(m, nowMs);
      }
      if AllLive(fs, nowMs) {
        forall k | k in m
          ensures k in Live(m, nowMs)
        {
          var i := LastWriter(fs, k);
        }
        assert Live(m, nowMs) == m;
      }
    }
  }
}
