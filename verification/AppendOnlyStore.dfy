/** The append-only store as the source runs it: a file that is written, scanned, cut and replaced. */
module AppendOnlyStore {
  import opened Types
  import opened Codec
  import opened Log
  import opened Recovery
  import C = Checksum

  datatype CompactionState = CompactionState(index: Index, oldFileBytes: nat, newFileBytes: nat)

  /** A binary file: a byte sequence that grows at its end and can be cut. */
  class ByteFile {
    var bytes: Bytes

    constructor ()
      ensures bytes == []
    {
      bytes := [];
    }

    method Write(s: Bytes)
      modifies this
      ensures bytes == old(bytes) + s
    {
      bytes := bytes + s;
    }

    method Resize(size: nat)
      requires size <= |bytes|
      modifies this
      ensures bytes == old(bytes)[..size]
    {
      bytes := bytes[..size];
    }

    /** Reads `count` bytes at `offset`, or as many as there are. */
    method Read(offset: nat, count: nat) returns (s: Bytes)
      ensures offset + count <= |bytes| ==> s == bytes[offset..offset + count]
      ensures offset + count > |bytes| ==> |s| < count || count == 0
      ensures count == 0 ==> s == []
    {
      if offset >= |bytes| {
        s := [];
      } else if offset + count <= |bytes| {
        s := bytes[offset..offset + count];
      } else {
        s := bytes[offset..];
      }
    }
  }

  /** Checks a record and writes header, key and value one after the other. */
  method WriteRecord(output: ByteFile, record: Record, recordOffset: nat) returns (r: Result<RecordMetadata>)
    modifies output
    ensures ValidRecord(record) ==>
              && r == Ok(MetaAt(Frame(record, 0), recordOffset))
              && output.bytes == old(output.bytes) + EncodeFrame(Frame(record, 0))
    ensures !ValidRecord(record) ==> r == Err(InvalidArgument) && output.bytes == old(output.bytes)
  {
    hide HeaderBytes, HeaderOf;
    if record.key == [] || |record.key| > MAX_KEY_SIZE {
      return Err(InvalidArgument);
    }
    if |record.value| > MAX_VALUE_SIZE {
      return Err(InvalidArgument);
    }
    if record.operation == OpDelete && record.value != [] {
      return Err(InvalidArgument);
    }
    var header := MakeHeader(record);
    output.Write(header[..]);
    output.Write(record.key);
    output.Write(record.value);
    assert output.bytes == old(output.bytes) + (header[..] + record.key + record.value);
    var valueOffset := recordOffset + HEADER_SIZE + |record.key|;
    return Ok(RecordMetadata(recordOffset, valueOffset, |record.value|, record.expiresAtMs));
  }

  class AppendOnlyStore {
    var file: ByteFile
    var temporary: ByteFile?

    ghost predicate Valid()
      reads this
    {
      file != temporary
    }

    constructor (existing: ByteFile)
      ensures file == existing && temporary == null && Valid()
    {
      file := existing;
      temporary := null;
    }

    /** Reads and checks the record at `position`. */
    method ScanRecord(position: nat) returns (r: Parsed)
      requires position <= |file.bytes|
      ensures r == ParseFrame(file.bytes[position..])
    {
      hide ParseFrame, ParseHeader, C.RecordHash;
      var remaining := |file.bytes| - position;
      ghost var rest := file.bytes[position..];
      if remaining < HEADER_SIZE {
        ShortIsTorn(rest);
        return Torn;
      }
      var headerBytes := file.Read(position, HEADER_SIZE);
      var buffer := new byte[HEADER_SIZE](i requires 0 <= i < HEADER_SIZE => headerBytes[i]);
      assert buffer[..] == headerBytes == rest[..HEADER_SIZE];
      var parsed := ReadHeader(buffer);
      if parsed.Err? {
        BadHeaderIsDamaged(rest);
        return Damaged;
      }
      var header := parsed.value;
      if HEADER_SIZE + header.keySize + header.valueSize > remaining {
        LongIsTorn(rest);
        return Torn;
      }
      var key := file.Read(position + HEADER_SIZE, header.keySize);
      var value := file.Read(position + HEADER_SIZE + header.keySize, header.valueSize);
      var checksum := C.RecordChecksum(header.operation, header.expiresAtMs, key, value);
      PayloadOf(file.bytes, position, header.keySize, header.valueSize);
      if checksum != header.checksum {
        WrongSumIsDamaged(rest);
        return Damaged;
      }
      RightSumIsWhole(rest);
      assert headerBytes[7] == rest[7];
      return Whole(Frame(Record(header.operation, key, value, header.expiresAtMs), headerBytes[7]));
    }

    /** The startup scan: replays whole records, stops at a torn tail and cuts it off, and gives up
        without touching the file when a record is damaged. */
    method RecoverFile(nowMs: int64) returns (r: Result<RecoveryState>)
      modifies file
      ensures r == Recover(old(file.bytes), nowMs)
      ensures file.bytes == RecoveredBytes(old(file.bytes))
    {
      hide ParseFrame, EncodeLog, Replay, LogSize, Split, ScanAt;
      var bytes := file.bytes;
      var totalBytes := |bytes|;
      var index: Index := map[];
      var validRecords, truncatedBytes, position := 0, 0, 0;
      ghost var done: seq<Frame> := [];
      StartScan(bytes, nowMs);
      while position < totalBytes
        invariant file.bytes == bytes && position <= totalBytes == |bytes|
        invariant ScanAt(bytes, done, position) && position == LogSize(done)
        invariant index == Replay(done, nowMs) && validRecords == |done| && truncatedBytes == 0
      {
        var parsed := ScanRecord(position);
        if parsed.Torn? {
          truncatedBytes := totalBytes - position;
          break;
        }
        if parsed.Damaged? {
          StopScan(bytes, done, position);
          return Err(Corruption);
        }
        var record := parsed.frame.record;
        if record.operation == OpDelete {
          index := index - {record.key};
        } else if IsExpired(record.expiresAtMs, nowMs) {
          index := index - {record.key};
        } else {
          var valueOffset := position + HEADER_SIZE + |record.key|;
          index := index[record.key := RecordMetadata(position, valueOffset, |record.value|, record.expiresAtMs)];
        }
        ReplaySnoc(done, parsed.frame, nowMs);
        NextScan(bytes, done, position, parsed.frame);
        validRecords := validRecords + 1;
        position := position + FrameSize(parsed.frame);
        done := done + [parsed.frame];
      }
      if position == totalBytes {
        NothingIsTorn();
        assert bytes[position..] == [];
      }
      StopScan(bytes, done, position);
      if truncatedBytes > 0 {
        file.Resize(position);
      }
      return Ok(RecoveryState(index, validRecords, truncatedBytes));
    }

    method AppendRecord(record: Record) returns (r: Result<RecordMetadata>)
      modifies file
      ensures ValidRecord(record) ==>
                && r == Ok(MetaAt(Frame(record, 0), old(|file.bytes|)))
                && file.bytes == old(file.bytes) + EncodeFrame(Frame(record, 0))
      ensures !ValidRecord(record) ==> r == Err(InvalidArgument) && file.bytes == old(file.bytes)
    {
      var offset := |file.bytes|;
      r := WriteRecord(file, record, offset);
    }

    method ReadValueAt(metadata: RecordMetadata) returns (r: Result<Bytes>)
      ensures r == ReadValue(file.bytes, metadata)
    {
      var value := file.Read(metadata.valueOffset, metadata.valueSize);
      if |value| != metadata.valueSize {
        return Err(Corruption);
      }
      return Ok(value);
    }

    /** Writes the live records to a temporary file and puts that file in the place of the log. */
    method Compact(liveRecords: seq<Record>) returns (r: Result<CompactionState>)
      requires Valid()
      modifies this, file, temporary
      ensures Valid() && temporary == null
      ensures AllValid(liveRecords) ==>
                && fresh(file)
                && file.bytes == EncodeLog(Frames(liveRecords))
                && r.Ok?
                && r.value.oldFileBytes == old(|file.bytes|)
                && r.value.newFileBytes == LogSize(Frames(liveRecords))
                && r.value.index == LastPlaces(Frames(liveRecords))
      ensures !AllValid(liveRecords) ==>
                r == Err(InvalidArgument) && file == old(file) && file.bytes == old(file.bytes)
    {
      hide EncodeFrame, ValidRecord, EncodeLog, LogSize, LastPlaces, MetaAt;
      var oldFileBytes := |file.bytes|;
      temporary := null;
      var output := new ByteFile();
      temporary := output;
      var index: Index := map[];
      var offset := 0;
      EmptyLog();
      for i := 0 to |liveRecords|
        invariant temporary == output && fresh(output) && file == old(file) && file.bytes == old(file.bytes)
        invariant AllValid(liveRecords[..i])
        invariant output.bytes == EncodeLog(Frames(liveRecords[..i]))
        invariant offset == LogSize(Frames(liveRecords[..i]))
        invariant index == LastPlaces(Frames(liveRecords[..i]))
      {
        var record := liveRecords[i];
        FramesSnoc(liveRecords, i);
        var written := WriteRecord(output, record, offset);
        if written.Err? {
          temporary := null;
          assert !AllValid(liveRecords);
          return Err(InvalidArgument);
        }
        EncodeSnoc(Frames(liveRecords[..i]), Frame(record, 0));
        MeaningSnoc(Frames(liveRecords[..i]), Frame(record, 0));
        index := index[record.key := written.value];
        offset := offset + HEADER_SIZE + |record.key| + |record.value|;
      }
      assert liveRecords[..|liveRecords|] == liveRecords;
      file := output;
      temporary := null;
      return Ok(CompactionState(index, oldFileBytes, offset));
    }
  }

  lemma EmptyLog()
    ensures EncodeLog([]) == [] && LogSize([]) == 0 && LastPlaces([]) == map[]
  {}

  lemma FramesSnoc(records: seq<Record>, i: nat)
    requires i < |records|
    ensures Frames(records[..i + 1]) == Frames(records[..i]) + [Frame(records[i], 0)]
    ensures AllValid(records[..i]) && ValidRecord(records[i]) ==> AllValid(records[..i + 1])
  {
    hide ValidRecord;
    assert records[..i + 1] == records[..i] + [records[i]];
  }

  // How far a scan has come

  /** `done` are the records before `position`, and the rest of the split is still ahead. */
  ghost predicate ScanAt(bytes: Bytes, done: seq<Frame>, position: nat) {
    && position <= |bytes|
    && position == LogSize(done)
    && Split(bytes).frames == done + Split(bytes[position..]).frames
    && Split(bytes).tail == Split(bytes[position..]).tail
  }

  lemma StartScan(bytes: Bytes, nowMs: int64)
    ensures ScanAt(bytes, [], 0) && LogSize([]) == 0 && Replay([], nowMs) == map[]
  {
    hide ParseFrame;
    assert bytes[0..] == bytes;
  }

  lemma NextScan(bytes: Bytes, done: seq<Frame>, position: nat, f: Frame)
    requires ScanAt(bytes, done, position) && ParseFrame(bytes[position..]) == Whole(f)
    ensures ScanAt(bytes, done + [f], position + FrameSize(f))
    ensures position + FrameSize(f) == LogSize(done + [f]) <= |bytes|
  {
    hide ParseFrame, EncodeFrame;
    var rest := bytes[position..];
    assert rest[FrameSize(f)..] == bytes[position + FrameSize(f)..];
    EncodeSnoc(done, f);
    assert done + ([f] + Split(rest[FrameSize(f)..]).frames) == (done + [f]) + Split(rest[FrameSize(f)..]).frames;
  }

  lemma StopScan(bytes: Bytes, done: seq<Frame>, position: nat)
    requires ScanAt(bytes, done, position) && !ParseFrame(bytes[position..]).Whole?
    ensures Split(bytes) == Scan(done, bytes[position..])
    ensures bytes[..position] == EncodeLog(done)
    ensures bytes[position..] == [] ==> bytes == EncodeLog(done)
  {
    hide ParseFrame, EncodeFrame, ValidFrame;
    assert done + [] == done;
    SplitSound(bytes);
  }

  lemma PayloadOf(bytes: Bytes, position: nat, keySize: nat, valueSize: nat)
    requires position + HEADER_SIZE + keySize + valueSize <= |bytes|
    ensures var rest := bytes[position..];
            var n := HEADER_SIZE + keySize;
            && rest[HEADER_SIZE..n] == bytes[position + HEADER_SIZE..position + n]
            && rest[n..n + valueSize] == bytes[position + n..position + n + valueSize]
  {}

  // The outcomes of looking at one record

  lemma ShortIsTorn(b: Bytes)
    requires |b| < HEADER_SIZE
    ensures ParseFrame(b) == Torn
  {}

  lemma BadHeaderIsDamaged(b: Bytes)
    requires |b| >= HEADER_SIZE && ParseHeader(b[..HEADER_SIZE]) == None
    ensures ParseFrame(b) == Damaged
  {
    hide ParseHeader;
  }

  lemma LongIsTorn(b: Bytes)
    requires |b| >= HEADER_SIZE && ParseHeader(b[..HEADER_SIZE]).Some?
    requires var p := ParseHeader(b[..HEADER_SIZE]).value; HEADER_SIZE + p.keySize + p.valueSize > |b|
    ensures ParseFrame(b) == Torn
  {
    hide ParseHeader;
  }

  ghost predicate CompleteRecord(b: Bytes) {
    && |b| >= HEADER_SIZE && ParseHeader(b[..HEADER_SIZE]).Some?
    && var p := ParseHeader(b[..HEADER_SIZE]).value; HEADER_SIZE + p.keySize + p.valueSize <= |b|
  }

  ghost function KeyOf(b: Bytes): Bytes
    requires CompleteRecord(b)
  {
    b[HEADER_SIZE..HEADER_SIZE + ParseHeader(b[..HEADER_SIZE]).value.keySize]
  }

  ghost function ValueOf(b: Bytes): Bytes
    requires CompleteRecord(b)
  {
    var p := ParseHeader(b[..HEADER_SIZE]).value;
    b[HEADER_SIZE + p.keySize..HEADER_SIZE + p.keySize + p.valueSize]
  }

  lemma WrongSumIsDamaged(b: Bytes)
    requires CompleteRecord(b)
    requires var p := ParseHeader(b[..HEADER_SIZE]).value;
             C.RecordHash(p.operation, p.expiresAtMs, KeyOf(b), ValueOf(b)) != p.checksum
    ensures ParseFrame(b) == Damaged
  {
    hide ParseHeader, C.RecordHash;
  }

  lemma RightSumIsWhole(b: Bytes)
    requires CompleteRecord(b)
    requires var p := ParseHeader(b[..HEADER_SIZE]).value;
             C.RecordHash(p.operation, p.expiresAtMs, KeyOf(b), ValueOf(b)) == p.checksum
    ensures var p := ParseHeader(b[..HEADER_SIZE]).value;
            ParseFrame(b) == Whole(Frame(Record(p.operation, KeyOf(b), ValueOf(b), p.expiresAtMs), b[7]))
  {
    hide ParseHeader, C.RecordHash;
  }
}
