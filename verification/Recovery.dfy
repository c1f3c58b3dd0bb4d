/** What recovery computes from a byte string, and the laws of that computation. */
module Recovery {
  import opened Types
  import opened Codec
  import opened Log

  datatype RecoveryState = RecoveryState(index: Index, validRecords: nat, truncatedBytes: nat)

  /** Recovery refuses a file in which a complete header or record is wrong. */
  predicate Refused(data: Bytes) {
    ParseFrame(Split(data).tail) == Damaged
  }

  function Recover(data: Bytes, nowMs: int64): Result<RecoveryState> {
    var scan := Split(data);
    if Refused(data) then Err(Corruption)
    else Ok(RecoveryState(Replay(scan.frames, nowMs), |scan.frames|, |scan.tail|))
  }

  /** The file after recovery: untouched on failure, cut back to its whole records otherwise. */
  function RecoveredBytes(data: Bytes): Bytes {
    if Refused(data) then data else EncodeLog(Split(data).frames)
  }

  /** Recovery of a file whose decomposition is known. */
  lemma RecoverDecomposed(fs: seq<Frame>, tail: Bytes, nowMs: int64)
    requires ValidLog(fs) && ParseFrame(tail) == Torn
    ensures !Refused(EncodeLog(fs) + tail)
    ensures Recover(EncodeLog(fs) + tail, nowMs) == Ok(RecoveryState(Replay(fs, nowMs), |fs|, |tail|))
    ensures RecoveredBytes(EncodeLog(fs) + tail) == EncodeLog(fs)
  {
    hide ParseFrame, EncodeLog, Replay, ValidLog;
    SplitUnique(fs, tail);
  }

  /** Recovery characterised for every byte string. Either it reports corruption and the file keeps
      every byte, or the file was whole valid records followed by a torn tail of exactly
      `truncatedBytes`, the kept bytes are those records and the index is their replay. */
  lemma RecoveryCharacterised(data: Bytes, nowMs: int64)
    ensures match Recover(data, nowMs)
            case Err(code) => code == Corruption && RecoveredBytes(data) == data
            case Ok(state) =>
              exists fs: seq<Frame>, tail: Bytes ::
                && data == EncodeLog(fs) + tail
                && ValidLog(fs)
                && ParseFrame(tail) == Torn
                && state == RecoveryState(Replay(fs, nowMs), |fs|, |tail|)
                && RecoveredBytes(data) == EncodeLog(fs)
  {
    hide ParseFrame, EncodeLog, Replay, ValidLog, Split;
    SplitSound(data);
    var scan := Split(data);
    if !Refused(data) {
      assert data == EncodeLog(scan.frames) + scan.tail;
    }
  }

  /** Refusal is about one place: a damaged record after zero or more whole ones. */
  lemma RefusedIffDamaged(data: Bytes)
    ensures Refused(data) <==>
            exists fs: seq<Frame>, tail: Bytes ::
              data == EncodeLog(fs) + tail && ValidLog(fs) && ParseFrame(tail) == Damaged
  {
    hide ParseFrame, EncodeLog, ValidLog, Split;
    SplitSound(data);
    var scan := Split(data);
    if Refused(data) {
      assert data == EncodeLog(scan.frames) + scan.tail;
    }
    forall fs: seq<Frame>, tail: Bytes | data == EncodeLog(fs) + tail && ValidLog(fs) && ParseFrame(tail) == Damaged
      ensures Refused(data)
    {
      SplitUnique(fs, tail);
    }
  }

  /** A second recovery at the same time finds the same index and nothing to cut. */
  lemma RecoveryIdempotent(data: Bytes, nowMs: int64)
    requires !Refused(data)
    ensures RecoveredBytes(RecoveredBytes(data)) == RecoveredBytes(data)
    ensures Recover(RecoveredBytes(data), nowMs) ==
            Ok(Recover(data, nowMs).value.(truncatedBytes := 0))
  {
    hide ParseFrame, EncodeLog, Replay, ValidLog, Split;
    SplitSound(data);
    var fs := Split(data).frames;
    NothingIsTorn();
    RecoverDecomposed(fs, [], nowMs);
    assert EncodeLog(fs) + [] == EncodeLog(fs);
  }

  /** A log with one more record of which only the first `cut` bytes were written recovers to the
      index before the write, or after it when nothing is missing; never to anything else. */
  lemma TornAppend(fs: seq<Frame>, f: Frame, cut: nat, nowMs: int64)
    requires ValidLog(fs) && ValidFrame(f) && cut <= FrameSize(f)
    ensures var data := EncodeLog(fs) + EncodeFrame(f)[..cut];
            var kept := if cut < FrameSize(f) then fs else fs + [f];
            && Recover(data, nowMs)
               == Ok(RecoveryState(Replay(kept, nowMs), |kept|, if cut < FrameSize(f) then cut else 0))
            && RecoveredBytes(data) == EncodeLog(kept)
  {
    hide ParseFrame, EncodeFrame, Replay, ValidFrame, Split, EncodeLog, LogSize, Recover, RecoveredBytes;
    var torn := EncodeFrame(f)[..cut];
    if cut < FrameSize(f) {
      CutFrameIsTorn(f, cut);
      RecoverDecomposed(fs, torn, nowMs);
    } else {
      EncodeSnoc(fs, f);
      NothingIsTorn();
      RecoverDecomposed(fs + [f], [], nowMs);
      assert torn == EncodeFrame(f);
      assert EncodeLog(fs + [f]) + [] == EncodeLog(fs) + torn;
    }
  }
}
