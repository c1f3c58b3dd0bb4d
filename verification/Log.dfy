/** The log as a whole: how every byte string splits into whole records and a remainder, and what
    index and what bindings the records stand for. */
module Log {
  import opened Types
  import opened Codec

  function LogSize(fs: seq<Frame>): nat {
    if fs == [] then 0 else FrameSize(fs[0]) + LogSize(fs[1..])
  }

  function EncodeLog(fs: seq<Frame>): (b: Bytes)
    ensures |b| == LogSize(fs)
  {
    if fs == [] then [] else EncodeFrame(fs[0]) + EncodeLog(fs[1..])
  }

  ghost predicate ValidLog(fs: seq<Frame>) {
    forall i :: 0 <= i < |fs| ==> ValidFrame(fs[i])
  }

  /** The frames the writer produces for a list of records. */
  function Frames(records: seq<Record>): (fs: seq<Frame>)
    ensures |fs| == |records|
    ensures forall i :: 0 <= i < |records| ==> fs[i] == Frame(records[i], 0)
  {
    seq(|records|, i requires 0 <= i < |records| => Frame(records[i], 0))
  }

  ghost predicate AllSets(records: seq<Record>) {
    forall i :: 0 <= i < |records| ==> records[i].operation == OpSet
  }

  ghost predicate AllValid(records: seq<Record>) {
    forall i :: 0 <= i < |records| ==> ValidRecord(records[i])
  }

  lemma Assoc(a: Bytes, b: Bytes, c: Bytes)
    ensures (a + b) + c == a + (b + c)
  {}

  lemma ConsLog(f: Frame, fs: seq<Frame>)
    ensures EncodeLog([f] + fs) == EncodeFrame(f) + EncodeLog(fs)
    ensures ValidFrame(f) && ValidLog(fs) ==> ValidLog([f] + fs)
  {
    hide EncodeFrame, ValidFrame;
    assert ([f] + fs)[1..] == fs;
  }

  lemma {:induction false} EncodeConcat(a: seq<Frame>, b: seq<Frame>)
    ensures EncodeLog(a + b) == EncodeLog(a) + EncodeLog(b)
    ensures LogSize(a + b) == LogSize(a) + LogSize(b)
  {
    hide EncodeFrame;
    if a == [] {
      assert a + b == b;
    } else {
      assert (a + b)[1..] == a[1..] + b;
      EncodeConcat(a[1..], b);
    }
  }

  lemma EncodeSnoc(fs: seq<Frame>, f: Frame)
    ensures EncodeLog(fs + [f]) == EncodeLog(fs) + EncodeFrame(f)
    ensures LogSize(fs + [f]) == LogSize(fs) + FrameSize(f)
  {
    hide EncodeFrame;
    EncodeConcat(fs, [f]);
    assert EncodeLog([f][1..]) == [];
    assert EncodeLog([f]) == EncodeFrame(f);
  }

  lemma Around<T>(s: seq<T>, i: nat)
    requires i < |s|
    ensures s == s[..i] + [s[i]] + s[i + 1..]
  {}

  /** A log around one of its records. */
  lemma EncodeAround(fs: seq<Frame>, i: nat)
    requires i < |fs|
    ensures EncodeLog(fs) == EncodeLog(fs[..i]) + EncodeFrame(fs[i]) + EncodeLog(fs[i + 1..])
    ensures LogSize(fs) == LogSize(fs[..i]) + FrameSize(fs[i]) + LogSize(fs[i + 1..])
  {
    hide *;
    Around(fs, i);
    EncodeConcat(fs[..i] + [fs[i]], fs[i + 1..]);
    EncodeSnoc(fs[..i], fs[i]);
  }

  // Splitting a byte string

  /** The longest run of whole records at the start of a byte string, and what follows it. */
  datatype Scan = Scan(frames: seq<Frame>, tail: Bytes)

  function Split(b: Bytes): Scan
    decreases |b|
  {
    match ParseFrame(b)
    case Whole(f) =>
      var rest := Split(b[FrameSize(f)..]);
      Scan([f] + rest.frames, rest.tail)
    case _ => Scan([], b)
  }

  /** Every byte string is the encoding of the valid records found in it followed by the tail. */
  lemma {:induction false} SplitSound(b: Bytes)
    ensures ValidLog(Split(b).frames)
    ensures b == EncodeLog(Split(b).frames) + Split(b).tail
    ensures !ParseFrame(Split(b).tail).Whole?
    decreases |b|
  {
    hide ParseFrame, EncodeFrame, ValidFrame;
    if ParseFrame(b).Whole? {
      var f := ParseFrame(b).frame;
      var rest := b[FrameSize(f)..];
      EncodeParsed(b);
      SplitSound(rest);
      assert b == EncodeFrame(f) + rest;
      Assoc(EncodeFrame(f), EncodeLog(Split(rest).frames), Split(rest).tail);
      ConsLog(f, Split(rest).frames);
    } else {
      assert EncodeLog([]) == [];
    }
  }

  lemma SplitWhole(b: Bytes)
    requires ParseFrame(b).Whole?
    ensures var f := ParseFrame(b).frame;
            var rest := Split(b[FrameSize(f)..]);
            Split(b) == Scan([f] + rest.frames, rest.tail)
  {
    hide ParseFrame;
  }

  /** Whole records in front of any byte string only add themselves to what is found in it. */
  lemma {:induction false} SplitAfter(fs: seq<Frame>, rest: Bytes)
    requires ValidLog(fs)
    ensures Split(EncodeLog(fs) + rest) == Scan(fs + Split(rest).frames, Split(rest).tail)
  {
    hide ParseFrame, EncodeFrame, ValidFrame, Split;
    if fs == [] {
      assert EncodeLog(fs) + rest == rest;
    } else {
      var more := EncodeLog(fs[1..]) + rest;
      var b := EncodeLog(fs) + rest;
      assert b == EncodeFrame(fs[0]) + more;
      ParseEncoded(fs[0], more);
      SplitWhole(b);
      assert b[FrameSize(fs[0])..] == more;
      SplitAfter(fs[1..], rest);
      assert [fs[0]] + (fs[1..] + Split(rest).frames) == fs + Split(rest).frames;
    }
  }

  /** And there is only one way to cut it: the split is the only decomposition of that kind. */
  lemma SplitUnique(fs: seq<Frame>, tail: Bytes)
    requires ValidLog(fs) && !ParseFrame(tail).Whole?
    ensures Split(EncodeLog(fs) + tail) == Scan(fs, tail)
  {
    hide ParseFrame, EncodeLog, ValidLog;
    SplitAfter(fs, tail);
  }

  lemma NothingIsTorn()
    ensures ParseFrame([]) == Torn
  {}

  lemma SplitEncoded(fs: seq<Frame>)
    requires ValidLog(fs)
    ensures Split(EncodeLog(fs)) == Scan(fs, [])
  {
    hide ParseFrame, EncodeFrame, ValidFrame;
    NothingIsTorn();
    SplitUnique(fs, []);
    assert EncodeLog(fs) + [] == EncodeLog(fs);
  }

  /** Unique decoding: a concatenation of encodings determines its list of records. */
  lemma UniqueDecoding(fs: seq<Frame>, gs: seq<Frame>)
    requires ValidLog(fs) && ValidLog(gs) && EncodeLog(fs) == EncodeLog(gs)
    ensures fs == gs
  {
    hide *;
    SplitEncoded(fs);
    SplitEncoded(gs);
  }

  // What the records mean

  function MetaAt(f: Frame, offset: nat): RecordMetadata {
    RecordMetadata(offset, offset + HEADER_SIZE + |f.record.key|, |f.record.value|, f.record.expiresAtMs)
  }

  /** A binding of the timed map: a value and the time at which it stops being visible. */
  datatype Binding = Binding(value: Bytes, expiresAtMs: int64)

  type Bindings = map<Bytes, Binding>

  function LiveIndex(index: Index, nowMs: int64): Index {
    map k | k in index && !IsExpired(index[k].expiresAtMs, nowMs) :: index[k]
  }

  function Live(m: Bindings, nowMs: int64): Bindings {
    map k | k in m && !IsExpired(m[k].expiresAtMs, nowMs) :: m[k]
  }

  /** The recovery loop: a DELETE or an expired SET erases the key, any other SET replaces it. */
  function ApplyFrame(index: Index, f: Frame, offset: nat, nowMs: int64): Index {
    if f.record.operation == OpDelete || IsExpired(f.record.expiresAtMs, nowMs) then index - {f.record.key}
    else index[f.record.key := MetaAt(f, offset)]
  }

  function Replay(fs: seq<Frame>, nowMs: int64): Index {
    if fs == [] then map[]
    else
      var front := fs[..|fs| - 1];
      ApplyFrame(Replay(front, nowMs), fs[|fs| - 1], LogSize(front), nowMs)
  }

  /** The last SET of every key that has not been deleted since, whether or not it has expired. */
  function Latest(fs: seq<Frame>): Index {
    if fs == [] then map[]
    else
      var front, f := fs[..|fs| - 1], fs[|fs| - 1];
      if f.record.operation == OpDelete then Latest(front) - {f.record.key}
      else Latest(front)[f.record.key := MetaAt(f, LogSize(front))]
  }

  /** The place of the last record of every key, of either operation. */
  function LastPlaces(fs: seq<Frame>): Index {
    if fs == [] then map[]
    else
      var front, f := fs[..|fs| - 1], fs[|fs| - 1];
      LastPlaces(front)[f.record.key := MetaAt(f, LogSize(front))]
  }

  /** The plain map that the same records describe. */
  function Meaning(fs: seq<Frame>): Bindings {
    if fs == [] then map[]
    else
      var front, f := fs[..|fs| - 1], fs[|fs| - 1];
      if f.record.operation == OpDelete then Meaning(front) - {f.record.key}
      else Meaning(front)[f.record.key := Binding(f.record.value, f.record.expiresAtMs)]
  }

  lemma MeaningSnoc(fs: seq<Frame>, f: Frame)
    ensures Latest(fs + [f]) == if f.record.operation == OpDelete then Latest(fs) - {f.record.key}
                                else Latest(fs)[f.record.key := MetaAt(f, LogSize(fs))]
    ensures Meaning(fs + [f]) == if f.record.operation == OpDelete then Meaning(fs) - {f.record.key}
                                 else Meaning(fs)[f.record.key := Binding(f.record.value, f.record.expiresAtMs)]
    ensures LastPlaces(fs + [f]) == LastPlaces(fs)[f.record.key := MetaAt(f, LogSize(fs))]
  {
    assert (fs + [f])[..|fs|] == fs;
  }

  lemma ReplaySnoc(fs: seq<Frame>, f: Frame, nowMs: int64)
    ensures Replay(fs + [f], nowMs) == ApplyFrame(Replay(fs, nowMs), f, LogSize(fs), nowMs)
  {
    assert (fs + [f])[..|fs|] == fs;
  }

  /** Replaying at a time is the same as replaying without time and dropping what has expired. */
  lemma {:induction false} ReplayIsLiveLatest(fs: seq<Frame>, nowMs: int64)
    ensures Replay(fs, nowMs) == LiveIndex(Latest(fs), nowMs)
  {
    if fs != [] {
      ReplayIsLiveLatest(fs[..|fs| - 1], nowMs);
    }
  }

  /** Expiry commutes with replay: nothing that a later replay drops ever uncovers an older record. */
  lemma {:induction false} ExpiryCommutesWithReplay(fs: seq<Frame>, t1: int64, t2: int64)
    requires t1 <= t2
    ensures Replay(fs, t2) == LiveIndex(Replay(fs, t1), t2)
  {
    ReplayIsLiveLatest(fs, t1);
    ReplayIsLiveLatest(fs, t2);
  }

  // Last writers

  ghost predicate IsLastWrite(fs: seq<Frame>, k: Bytes, i: nat) {
    && i < |fs|
    && fs[i].record.key == k
    && forall j :: i < j < |fs| ==> fs[j].record.key != k
  }

  /** The key is bound exactly when its last record is a SET, and then to that record. */
  lemma {:induction false} LastWriter(fs: seq<Frame>, k: Bytes) returns (i: nat)
    ensures (k in Latest(fs)) == (k in Meaning(fs))
    ensures k in Latest(fs) ==>
              && IsLastWrite(fs, k, i)
              && fs[i].record.operation == OpSet
              && Latest(fs)[k] == MetaAt(fs[i], LogSize(fs[..i]))
              && Meaning(fs)[k] == Binding(fs[i].record.value, fs[i].record.expiresAtMs)
    ensures k !in Latest(fs) ==>
              forall j: nat :: IsLastWrite(fs, k, j) ==> fs[j].record.operation == OpDelete
  {
    i := 0;
    if fs != [] {
      var front, n := fs[..|fs| - 1], |fs| - 1;
      if fs[n].record.key == k {
        i := n;
      } else {
        i := LastWriter(front, k);
        if k in Latest(front) {
          assert front[..i] == fs[..i];
        } else {
          forall j: nat | IsLastWrite(fs, k, j)
            ensures fs[j].record.operation == OpDelete
          {
            assert IsLastWrite(front, k, j);
          }
        }
      }
    }
  }

  /** Every key that occurs is placed at its last record. */
  lemma {:induction false} LastPlace(fs: seq<Frame>, k: Bytes)
    ensures k in LastPlaces(fs) <==> exists i: nat :: IsLastWrite(fs, k, i)
    ensures forall i: nat :: IsLastWrite(fs, k, i) ==> LastPlaces(fs)[k] == MetaAt(fs[i], LogSize(fs[..i]))
  {
    if fs != [] {
      var front, n := fs[..|fs| - 1], |fs| - 1;
      LastPlace(front, k);
      if fs[n].record.key == k {
        assert IsLastWrite(fs, k, n);
      } else {
        forall i: nat
          ensures IsLastWrite(fs, k, i) <==> IsLastWrite(front, k, i)
        {}
        assert forall i: nat :: i < n ==> front[..i] == fs[..i];
      }
    }
  }

  /** Without deletes the last places are the index. */
  lemma {:induction false} LastPlacesOfSets(fs: seq<Frame>)
    requires forall i :: 0 <= i < |fs| ==> fs[i].record.operation == OpSet
    ensures LastPlaces(fs) == Latest(fs)
  {
    if fs != [] {
      LastPlacesOfSets(fs[..|fs| - 1]);
    }
  }

  lemma SameKeys(fs: seq<Frame>)
    ensures Latest(fs).Keys == Meaning(fs).Keys
  {
    forall k
      ensures k in Latest(fs) <==> k in Meaning(fs)
    {
      var _ := LastWriter(fs, k);
    }
  }

  /** Recovery's index, stated without a fold: the key is indexed exactly when some record of it is
      the last one, is a SET and has not expired, and the entry then locates that record. */
  lemma ReplayIsLastWriter(fs: seq<Frame>, nowMs: int64, k: Bytes)
    ensures k in Replay(fs, nowMs) <==>
            exists i: nat :: IsLastWrite(fs, k, i) && fs[i].record.operation == OpSet
                && !IsExpired(fs[i].record.expiresAtMs, nowMs)
    ensures forall i: nat :: k in Replay(fs, nowMs) && IsLastWrite(fs, k, i) ==>
            Replay(fs, nowMs)[k] == MetaAt(fs[i], LogSize(fs[..i]))
  {
    ReplayIsLiveLatest(fs, nowMs);
    var _ := LastWriter(fs, k);
  }

  // Reading values back

  /** A read of `valueSize` bytes at `valueOffset`; reading nothing succeeds at any offset. */
  function ReadValue(data: Bytes, m: RecordMetadata): Result<Bytes> {
    if m.valueSize == 0 then Ok([])
    else if m.valueOffset + m.valueSize <= |data| then Ok(data[m.valueOffset..m.valueOffset + m.valueSize])
    else Err(Corruption)
  }

  lemma ReadFrame(before: Bytes, f: Frame, after: Bytes)
    ensures ReadValue(before + EncodeFrame(f) + after, MetaAt(f, |before|)) == Ok(f.record.value)
  {
    hide HeaderBytes;
    var m := MetaAt(f, |before|);
    var data := before + EncodeFrame(f) + after;
    FrameParts(f, after);
    assert data == before + (EncodeFrame(f) + after);
    assert data[m.valueOffset..m.valueOffset + m.valueSize]
        == (EncodeFrame(f) + after)[HEADER_SIZE + |f.record.key|..FrameSize(f)];
  }

  /** Offset correctness: every entry of the index lies inside the file, and reading through it
      returns the value last written for its key. */
  lemma ReadThroughIndex(fs: seq<Frame>, tail: Bytes, k: Bytes)
    requires k in Latest(fs)
    ensures k in Meaning(fs)
    ensures var m := Latest(fs)[k];
            && m.valueOffset + m.valueSize <= LogSize(fs)
            && ReadValue(EncodeLog(fs) + tail, m) == Ok(Meaning(fs)[k].value)
            && m.expiresAtMs == Meaning(fs)[k].expiresAtMs
  {
    hide EncodeFrame, ReadValue, Latest, Meaning, EncodeLog, LogSize;
    var i := LastWriter(fs, k);
    var before, after := fs[..i], fs[i + 1..];
    EncodeAround(fs, i);
    ReadFrame(EncodeLog(before), fs[i], EncodeLog(after) + tail);
    Assoc(EncodeLog(before) + EncodeFrame(fs[i]), EncodeLog(after), tail);
  }

  /** The record itself stands at the entry's offset: a SET of the key with the value last written,
      and the value begins right after header and key. */
  lemma RecordAtOffset(fs: seq<Frame>, tail: Bytes, k: Bytes) returns (f: Frame)
    requires ValidLog(fs) && k in Latest(fs)
    ensures var m := Latest(fs)[k];
            && m.recordOffset <= LogSize(fs)
            && ParseFrame((EncodeLog(fs) + tail)[m.recordOffset..]) == Whole(f)
            && m.valueOffset == m.recordOffset + 28 + |k| && m.valueSize == |f.record.value|
    ensures k in Meaning(fs) && f.record == Record(OpSet, k, Meaning(fs)[k].value, Meaning(fs)[k].expiresAtMs)
  {
    hide EncodeFrame, ParseFrame, Latest, Meaning, EncodeLog, LogSize;
    var i := LastWriter(fs, k);
    f := fs[i];
    EncodeAround(fs, i);
    var before, after := EncodeLog(fs[..i]), EncodeLog(fs[i + 1..]);
    ParseEncoded(f, after + tail);
    DropFront(before, EncodeFrame(f), after, tail);
  }

  lemma DropFront(before: Bytes, e: Bytes, after: Bytes, tail: Bytes)
    ensures (before + e + after + tail)[|before|..] == e + (after + tail)
  {}

  /** Entries of different keys locate different records. */
  lemma DistinctOffsets(fs: seq<Frame>, j: Bytes, k: Bytes)
    requires j in Latest(fs) && k in Latest(fs) && j != k
    ensures Latest(fs)[j].recordOffset != Latest(fs)[k].recordOffset
  {
    var a := LastWriter(fs, j);
    var b := LastWriter(fs, k);
    if a < b {
      PrefixShorter(fs, a, b);
    } else {
      PrefixShorter(fs, b, a);
    }
  }

  lemma PrefixShorter(fs: seq<Frame>, a: nat, b: nat)
    requires a < b <= |fs|
    ensures LogSize(fs[..a]) < LogSize(fs[..b])
  {
    assert fs[..b] == fs[..a] + fs[a..b];
    EncodeConcat(fs[..a], fs[a..b]);
    assert LogSize(fs[a..b]) >= FrameSize(fs[a..b][0]);
  }
}
