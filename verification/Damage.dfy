/** Accidental damage: which single-byte changes of a log recovery catches, and which it cannot. */
module Damage {
  import opened Types
  import opened Codec
  import opened Log
  import opened Recovery
  import Collision
  import LE = LittleEndian
  import C = Checksum

  lemma DecodeInjective(s: Bytes, t: Bytes)
    requires |s| == |t| && LE.Decode(s) == LE.Decode(t)
    ensures s == t
  {
    hide *;
    LE.EncodeDecode(s);
    LE.EncodeDecode(t);
  }

  /** The parts of a header after one byte of it has changed. */
  lemma ChangedFields(h: Bytes, j: nat, b: byte)
    requires |h| == HEADER_SIZE && j < HEADER_SIZE
    ensures var g := h[j := b];
            && g[0..4] == (if j < 4 then h[0..4][j := b] else h[0..4])
            && g[4..6] == (if 4 <= j < 6 then h[4..6][j - 4 := b] else h[4..6])
            && g[8..12] == (if 8 <= j < 12 then h[8..12][j - 8 := b] else h[8..12])
            && g[12..16] == (if 12 <= j < 16 then h[12..16][j - 12 := b] else h[12..16])
            && g[16..24] == (if 16 <= j < 24 then h[16..24][j - 16 := b] else h[16..24])
            && g[24..28] == (if 24 <= j then h[24..28][j - 24 := b] else h[24..28])
  {}

  /** Damage to the magic or the version makes the header unreadable. */
  lemma PreambleDamage(h: Bytes, j: nat, b: byte)
    requires |h| == HEADER_SIZE && j < 6 && h[j] != b && ParseHeader(h).Some?
    ensures ParseHeader(h[j := b]) == None
  {
    hide LE.Decode;
    ChangedFields(h, j, b);
    var g := h[j := b];
    if j < 4 {
      assert g[0..4][j] == b && h[0..4][j] != b;
      if Field32(g, 0) == RECORD_MAGIC {
        DecodeInjective(g[0..4], h[0..4]);
      }
    } else {
      assert g[4..6][j - 4] == b && h[4..6][j - 4] != b;
      if Field(g, 4, 2) == RECORD_VERSION {
        DecodeInjective(g[4..6], h[4..6]);
      }
    }
  }

  lemma OperationDamage(h: Bytes, b: byte)
    requires |h| == HEADER_SIZE && h[6] != b && ParseHeader(h).Some?
    ensures var r := ParseHeader(h[6 := b]);
            r == None || (r.value.operation != ParseHeader(h).value.operation
                          && r.value == ParseHeader(h).value.(operation := r.value.operation))
  {
    hide LE.Decode;
    ChangedFields(h, 6, b);
  }

  lemma ExpiryDamage(h: Bytes, j: nat, b: byte)
    requires |h| == HEADER_SIZE && 16 <= j < 24 && ParseHeader(h).Some?
    ensures var r := ParseHeader(h[j := b]);
            && r.Some?
            && r.value == ParseHeader(h).value.(expiresAtMs := r.value.expiresAtMs)
            && LE.Encode(8, LE.Unsigned64(r.value.expiresAtMs))
               == LE.Encode(8, LE.Unsigned64(ParseHeader(h).value.expiresAtMs))[j - 16 := b]
  {
    hide LE.Decode, LE.Encode;
    ChangedFields(h, j, b);
    var g := h[j := b];
    LE.EncodeDecode(h[16..24]);
    LE.EncodeDecode(g[16..24]);
  }

  lemma ChecksumDamage(h: Bytes, j: nat, b: byte)
    requires |h| == HEADER_SIZE && 24 <= j < 28 && h[j] != b && ParseHeader(h).Some?
    ensures var r := ParseHeader(h[j := b]);
            && r.Some?
            && r.value.checksum != ParseHeader(h).value.checksum
            && r.value == ParseHeader(h).value.(checksum := r.value.checksum)
  {
    hide LE.Decode;
    ChangedFields(h, j, b);
    var g := h[j := b];
    assert g[24..28][j - 24] == b && h[24..28][j - 24] != b;
    if Field32(g, 24) == Field32(h, 24) {
      DecodeInjective(g[24..28], h[24..28]);
    }
  }

  // The checksum input after one field or payload byte has changed

  lemma InputWithOperation(r: Record, op: Operation)
    requires op != r.operation
    ensures C.RecordHash(op, r.expiresAtMs, r.key, r.value)
            != C.RecordHash(r.operation, r.expiresAtMs, r.key, r.value)
  {
    hide LE.Encode, C.HashBytes;
    var input := C.ChecksumInput(r.operation, r.expiresAtMs, r.key, r.value);
    assert C.ChecksumInput(op, r.expiresAtMs, r.key, r.value) == input[0 := OperationByte(op)];
    C.HashDetectsOneByte(C.FNV_OFFSET_BASIS, input, 0, OperationByte(op));
  }

  lemma InputWithExpiry(r: Record, expiresAtMs: int64, i: nat, b: byte)
    requires i < 8
    requires LE.Encode(8, LE.Unsigned64(r.expiresAtMs))[i] != b
    requires LE.Encode(8, LE.Unsigned64(expiresAtMs)) == LE.Encode(8, LE.Unsigned64(r.expiresAtMs))[i := b]
    ensures C.RecordHash(r.operation, expiresAtMs, r.key, r.value)
            != C.RecordHash(r.operation, r.expiresAtMs, r.key, r.value)
  {
    hide LE.Encode, C.HashBytes, LE.Unsigned64;
    var input := C.ChecksumInput(r.operation, r.expiresAtMs, r.key, r.value);
    assert C.ChecksumInput(r.operation, expiresAtMs, r.key, r.value) == input[1 + i := b];
    C.HashDetectsOneByte(C.FNV_OFFSET_BASIS, input, 1 + i, b);
  }

  lemma InputWithKey(r: Record, i: nat, b: byte)
    requires i < |r.key| && r.key[i] != b
    ensures C.RecordHash(r.operation, r.expiresAtMs, r.key[i := b], r.value)
            != C.RecordHash(r.operation, r.expiresAtMs, r.key, r.value)
  {
    hide LE.Encode, C.HashBytes, LE.Unsigned64;
    var input := C.ChecksumInput(r.operation, r.expiresAtMs, r.key, r.value);
    assert C.ChecksumInput(r.operation, r.expiresAtMs, r.key[i := b], r.value) == input[25 + i := b];
    C.HashDetectsOneByte(C.FNV_OFFSET_BASIS, input, 25 + i, b);
  }

  lemma InputWithValue(r: Record, i: nat, b: byte)
    requires i < |r.value| && r.value[i] != b
    ensures C.RecordHash(r.operation, r.expiresAtMs, r.key, r.value[i := b])
            != C.RecordHash(r.operation, r.expiresAtMs, r.key, r.value)
  {
    hide LE.Encode, C.HashBytes, LE.Unsigned64;
    var input := C.ChecksumInput(r.operation, r.expiresAtMs, r.key, r.value);
    assert C.ChecksumInput(r.operation, r.expiresAtMs, r.key, r.value[i := b]) == input[25 + |r.key| + i := b];
    C.HashDetectsOneByte(C.FNV_OFFSET_BASIS, input, 25 + |r.key| + i, b);
  }

  // One record

  /** Header bytes 7 and 8 to 15 are the reserved byte and the two sizes. */
  predicate Checked(j: nat) {
    j < 7 || 16 <= j
  }

  /** The parts of an encoded record after one byte of it has changed. */
  lemma ChangedParts(f: Frame, j: nat, b: byte, rest: Bytes)
    requires j < FrameSize(f)
    ensures var d := EncodeFrame(f)[j := b] + rest;
            var h := HeaderBytes(HeaderOf(f.record), f.reserved);
            var n := HEADER_SIZE + |f.record.key|;
            && d[..HEADER_SIZE] == (if j < HEADER_SIZE then h[j := b] else h)
            && d[HEADER_SIZE..n] == (if HEADER_SIZE <= j < n
                then f.record.key[j - HEADER_SIZE := b] else f.record.key)
            && d[n..FrameSize(f)] == (if n <= j then f.record.value[j - n := b] else f.record.value)
            && EncodeFrame(f)[j] == (if j < HEADER_SIZE then h[j]
                                     else if j < n then f.record.key[j - HEADER_SIZE] else f.record.value[j - n])
  {
    hide HeaderBytes, HeaderOf;
  }

  lemma HeaderDamageCaught(f: Frame, j: nat, b: byte, rest: Bytes)
    requires ValidFrame(f) && j < HEADER_SIZE && Checked(j) && EncodeFrame(f)[j] != b
    ensures ParseFrame(EncodeFrame(f)[j := b] + rest) == Damaged
  {
    hide HeaderBytes, ParseHeader, C.RecordHash, EncodeFrame, LE.Encode, LE.Unsigned64;
    var h := HeaderBytes(HeaderOf(f.record), f.reserved);
    ChangedParts(f, j, b, rest);
    ParseHeaderBytes(HeaderOf(f.record), f.reserved);
    if j < 6 {
      PreambleDamage(h, j, b);
    } else if j == 6 {
      OperationDamage(h, b);
      var r := ParseHeader(h[6 := b]);
      if r.Some? {
        InputWithOperation(f.record, r.value.operation);
      }
    } else if j < 24 {
      HeaderLayout(HeaderOf(f.record), f.reserved);
      ExpiryDamage(h, j, b);
      assert h[16..24][j - 16] == h[j];
      InputWithExpiry(f.record, ParseHeader(h[j := b]).value.expiresAtMs, j - 16, b);
    } else {
      ChecksumDamage(h, j, b);
    }
  }

  lemma PayloadDamageCaught(f: Frame, j: nat, b: byte, rest: Bytes)
    requires ValidFrame(f) && HEADER_SIZE <= j < FrameSize(f) && EncodeFrame(f)[j] != b
    ensures ParseFrame(EncodeFrame(f)[j := b] + rest) == Damaged
  {
    hide HeaderBytes, ParseHeader, C.RecordHash, EncodeFrame;
    ChangedParts(f, j, b, rest);
    ParseHeaderBytes(HeaderOf(f.record), f.reserved);
    var n := HEADER_SIZE + |f.record.key|;
    if j < n {
      InputWithKey(f.record, j - HEADER_SIZE, b);
    } else {
      InputWithValue(f.record, j - n, b);
    }
  }

  // The whole log

  /** Byte `j` of record `i` of a log. */
  function Position(fs: seq<Frame>, i: nat, j: nat): (p: nat)
    requires i < |fs| && j < FrameSize(fs[i])
  {
    LogSize(fs[..i]) + j
  }

  lemma ChangedLog(fs: seq<Frame>, tail: Bytes, i: nat, j: nat, b: byte)
    requires i < |fs| && j < FrameSize(fs[i])
    ensures Position(fs, i, j) < LogSize(fs)
    ensures (EncodeLog(fs) + tail)[Position(fs, i, j) := b]
            == EncodeLog(fs[..i]) + (EncodeFrame(fs[i])[j := b] + (EncodeLog(fs[i + 1..]) + tail))
  {
    hide EncodeFrame, EncodeLog, LogSize;
    EncodeAround(fs, i);
    ChangedPart(EncodeLog(fs), EncodeLog(fs[..i]), EncodeFrame(fs[i]), EncodeLog(fs[i + 1..]), tail, j, b);
  }

  lemma ChangedPart(whole: Bytes, before: Bytes, e: Bytes, after: Bytes, tail: Bytes, j: nat, b: byte)
    requires whole == before + e + after && j < |e|
    ensures |before| + j < |whole|
    ensures (whole + tail)[|before| + j := b] == before + (e[j := b] + (after + tail))
  {
    ChangedMiddle(before, e, after, tail, j, b);
  }

  lemma ChangedMiddle(before: Bytes, e: Bytes, after: Bytes, tail: Bytes, j: nat, b: byte)
    requires j < |e|
    ensures var data := before + e + after + tail;
            && data[|before| + j] == e[j]
            && data[|before| + j := b] == before + (e[j := b] + (after + tail))
  {}

  /** The file in which byte `j` of record `i` has become `b`. */
  function WithByte(fs: seq<Frame>, tail: Bytes, i: nat, j: nat, b: byte): (damaged: Bytes)
    requires i < |fs| && j < FrameSize(fs[i])
    ensures |damaged| == LogSize(fs) + |tail|
    ensures LogSize(fs[..i]) <= |damaged|
  {
    ChangedLog(fs, tail, i, j, b);
    (EncodeLog(fs) + tail)[Position(fs, i, j) := b]
  }

  /** Single-byte damage is always caught: change any one byte of any whole record, outside the
      reserved byte and the two size fields, and recovery reports corruption and leaves the file
      as it found it, whatever follows the records. */
  lemma SingleByteDamageCaught(fs: seq<Frame>, tail: Bytes, i: nat, j: nat, b: byte, nowMs: int64)
    requires ValidLog(fs) && i < |fs| && j < FrameSize(fs[i]) && Checked(j)
    requires FrameByte(fs[i], j) != b
    ensures var damaged := WithByte(fs, tail, i, j, b);
            Recover(damaged, nowMs) == Err(Corruption) && RecoveredBytes(damaged) == damaged
  {
    hide FrameByte, ParseFrame, EncodeLog, LogSize, Split;
    assert EncodeFrame(fs[i])[j] == FrameByte(fs[i], j);
    ChangedLog(fs, tail, i, j, b);
    var rest := EncodeLog(fs[i + 1..]) + tail;
    if j < HEADER_SIZE {
      HeaderDamageCaught(fs[i], j, b, rest);
    } else {
      PayloadDamageCaught(fs[i], j, b, rest);
    }
    SplitUnique(fs[..i], EncodeFrame(fs[i])[j := b] + rest);
  }

  // The bytes that are not checked

  /** A change of the reserved byte of any record goes unnoticed and changes nothing that recovery
      reports, whatever follows the records. */
  lemma ReservedByteIgnored(fs: seq<Frame>, tail: Bytes, i: nat, b: byte, nowMs: int64)
    requires ValidLog(fs) && i < |fs|
    ensures Recover(WithByte(fs, tail, i, 7, b), nowMs) == Recover(EncodeLog(fs) + tail, nowMs)
  {
    hide EncodeFrame, ParseFrame, EncodeLog, LogSize, Replay, Split, WithByte;
    var gs := fs[i := fs[i].(reserved := b)];
    ReservedInLog(fs, tail, i, b);
    SplitAfter(fs, tail);
    SplitAfter(gs, tail);
    var rest := Split(tail).frames;
    ReplayIgnoresReserved(fs + rest, gs + rest, nowMs);
  }

  lemma ReservedInLog(fs: seq<Frame>, tail: Bytes, i: nat, b: byte)
    requires i < |fs|
    ensures WithByte(fs, tail, i, 7, b) == EncodeLog(fs[i := fs[i].(reserved := b)]) + tail
  {
    hide EncodeFrame, EncodeLog, LogSize;
    var g := fs[i].(reserved := b);
    var gs := fs[i := g];
    assert gs[..i] == fs[..i] && gs[i + 1..] == fs[i + 1..];
    ChangedLog(fs, tail, i, 7, b);
    EncodeAround(gs, i);
    SetReserved(fs[i], b);
    Flatten(EncodeLog(fs[..i]), EncodeFrame(g), EncodeLog(fs[i + 1..]), tail);
  }

  lemma Flatten(a: Bytes, b: Bytes, c: Bytes, d: Bytes)
    ensures a + b + c + d == a + (b + (c + d))
  {}

  lemma SetReserved(f: Frame, b: byte)
    ensures EncodeFrame(f.(reserved := b)) == EncodeFrame(f)[7 := b]
  {
    hide HeaderFront, HeaderBack, HeaderOf;
    UpdateFirst(HeaderFront(f.record.operation) + [f.reserved], HeaderBack(HeaderOf(f.record)), [], 7, b);
    UpdateFirst(HeaderBytes(HeaderOf(f.record), f.reserved), f.record.key, f.record.value, 7, b);
  }

  lemma {:induction false} ReplayIgnoresReserved(fs: seq<Frame>, gs: seq<Frame>, nowMs: int64)
    requires |fs| == |gs| && forall i :: 0 <= i < |fs| ==> fs[i].record == gs[i].record
    ensures LogSize(fs) == LogSize(gs)
    ensures Replay(fs, nowMs) == Replay(gs, nowMs)
  {
    hide EncodeLog, EncodeFrame, LogSize, Replay;
    if fs != [] {
      var n := |fs| - 1;
      ReplayIgnoresReserved(fs[..n], gs[..n], nowMs);
      assert fs == fs[..n] + [fs[n]] && gs == gs[..n] + [gs[n]];
      EncodeSnoc(fs[..n], fs[n]);
      EncodeSnoc(gs[..n], gs[n]);
      ReplaySnoc(fs[..n], fs[n], nowMs);
      ReplaySnoc(gs[..n], gs[n], nowMs);
    }
  }

  /** What the reader makes of the header of a record after one of its bytes has changed. */
  function DamagedHeader(f: Frame, j: nat, b: byte): Option<ParsedHeader>
    requires j < HEADER_SIZE
  {
    ParseHeader(HeaderBytes(HeaderOf(f.record), f.reserved)[j := b])
  }

  /** The length of the record that a header announces. */
  function Announced(p: ParsedHeader): nat {
    HEADER_SIZE + p.keySize + p.valueSize
  }

  /** The record that a header makes of the bytes after it, and whether the checksum agrees with it. */
  function Reinterpreted(p: ParsedHeader, data: Bytes): Frame
    requires Announced(p) <= |data|
  {
    var value := HEADER_SIZE + p.keySize;
    Frame(Record(p.operation, data[HEADER_SIZE..value], data[value..Announced(p)], p.expiresAtMs), data[7])
  }

  predicate SumMatches(p: ParsedHeader, data: Bytes)
    requires Announced(p) <= |data|
  {
    var r := Reinterpreted(p, data).record;
    C.RecordHash(r.operation, r.expiresAtMs, r.key, r.value) == p.checksum
  }

  /** The four things the bytes at a position can be, told from their header. */
  lemma ParseAtHeader(data: Bytes)
    requires |data| >= HEADER_SIZE
    ensures ParseFrame(data) ==
            match ParseHeader(data[..HEADER_SIZE])
            case None => Damaged
            case Some(p) =>
              if Announced(p) > |data| then Torn
              else if SumMatches(p, data) then Whole(Reinterpreted(p, data))
              else Damaged
  {
    hide ParseHeader, C.RecordHash;
  }

  lemma SplitAtHeader(data: Bytes)
    requires |data| >= HEADER_SIZE
    ensures match ParseHeader(data[..HEADER_SIZE])
            case None => Refused(data)
            case Some(p) =>
              if Announced(p) > |data| then Split(data) == Scan([], data) && !Refused(data)
              else if !SumMatches(p, data) then Refused(data)
              else
                var rest := Split(data[Announced(p)..]);
                Split(data) == Scan([Reinterpreted(p, data)] + rest.frames, rest.tail)
  {
    ParseAtHeader(data);
    hide ParseHeader, SumMatches, ParseFrame;
    if ParseFrame(data).Whole? {
      SplitWhole(data);
      hide Split;
      assert FrameSize(ParseFrame(data).frame) == Announced(ParseHeader(data[..HEADER_SIZE]).value);
    }
  }

  lemma RestOfDamaged(fs: seq<Frame>, tail: Bytes, i: nat, j: nat, b: byte) returns (rest: Bytes)
    requires i < |fs| && j < HEADER_SIZE
    ensures var damaged := WithByte(fs, tail, i, j, b);
            damaged == EncodeLog(fs[..i]) + rest && rest == damaged[LogSize(fs[..i])..]
    ensures |rest| >= HEADER_SIZE
    ensures rest[..HEADER_SIZE] == HeaderBytes(HeaderOf(fs[i].record), fs[i].reserved)[j := b]
  {
    hide EncodeFrame, EncodeLog, LogSize, HeaderBytes, HeaderOf;
    ChangedLog(fs, tail, i, j, b);
    ChangedParts(fs[i], j, b, EncodeLog(fs[i + 1..]) + tail);
    rest := EncodeFrame(fs[i])[j := b] + (EncodeLog(fs[i + 1..]) + tail);
  }

  /** What a changed size byte leads to, in full. Recovery reports corruption exactly when the sizes
      are out of range, or when they fit what is left of the file and either the checksum over the
      announced key and value disagrees or something after them is damaged. Otherwise it succeeds:
      when the sizes announce more than is left, this record and all after it are cut as a torn
      tail, before any checksum is compared; when the checksum happens to agree, another record is
      read in the place of this one and the scan goes on after it. */
  lemma SizeDamageOutcome(fs: seq<Frame>, tail: Bytes, i: nat, j: nat, b: byte, nowMs: int64)
    requires ValidLog(fs) && i < |fs| && 8 <= j < 16
    ensures var damaged := WithByte(fs, tail, i, j, b);
            var rest := damaged[LogSize(fs[..i])..];
            match DamagedHeader(fs[i], j, b)
            case None => Recover(damaged, nowMs) == Err(Corruption)
            case Some(p) =>
              && (Recover(damaged, nowMs) == Err(Corruption) <==>
                  Announced(p) <= |rest| && (!SumMatches(p, rest) || Refused(rest[Announced(p)..])))
              && (Announced(p) > |rest| ==> Split(damaged) == Scan(fs[..i], rest))
              && (Announced(p) <= |rest| && SumMatches(p, rest) ==>
                    var later := Split(rest[Announced(p)..]);
                    Split(damaged) == Scan(fs[..i] + [Reinterpreted(p, rest)] + later.frames, later.tail))
  {
    hide EncodeLog, LogSize, HeaderBytes, ParseHeader, ParseFrame, HeaderOf, SumMatches, Split, Replay, WithByte;
    var rest := RestOfDamaged(fs, tail, i, j, b);
    SplitAfter(fs[..i], rest);
    SplitAtHeader(rest);
  }

  /** In particular it passes for a torn tail when the sizes are in range and announce more bytes
      than the file has left, and only then are the records before it all that is found. */
  lemma SizeDamageLooksTorn(fs: seq<Frame>, tail: Bytes, i: nat, j: nat, b: byte, nowMs: int64)
    requires ValidLog(fs) && i < |fs| && 8 <= j < 16
    ensures var damaged := WithByte(fs, tail, i, j, b);
            var left := |damaged| - LogSize(fs[..i]);
            var header := DamagedHeader(fs[i], j, b);
            (header.Some? && Announced(header.value) > left) <==>
            (Split(damaged).frames == fs[..i] && !Refused(damaged))
    ensures var damaged := WithByte(fs, tail, i, j, b);
            DamagedHeader(fs[i], j, b) == None ==> Recover(damaged, nowMs) == Err(Corruption)
  {
    hide EncodeLog, LogSize, DamagedHeader, ParseFrame, SumMatches, Split, Replay, Reinterpreted, WithByte;
    SizeDamageOutcome(fs, tail, i, j, b, nowMs);
  }

  // Instances

  lemma OneFrame(f: Frame)
    ensures EncodeLog([f]) == EncodeFrame(f)
  {
    hide EncodeFrame;
    assert [f][1..] == [];
  }

  /** One byte of a header is one size, when both sizes are below 256. */
  lemma SizeByte(p: ParsedHeader, j: nat, b: byte)
    requires p.keySize < 256 && p.valueSize < 256 && (j == 8 || j == 12)
    ensures var h := HeaderBytes(p, 0);
            && h[j] == (if j == 8 then p.keySize else p.valueSize)
            && h[j := b] == HeaderBytes(if j == 8 then p.(keySize := b) else p.(valueSize := b), 0)
  {
    hide HeaderBytes, LE.Encode;
    var q := if j == 8 then p.(keySize := b) else p.(valueSize := b);
    var h, g := HeaderBytes(p, 0), HeaderBytes(q, 0);
    HeaderLayout(p, 0);
    HeaderLayout(q, 0);
    var a := if j == 8 then p.keySize else p.valueSize;
    forall i | 0 <= i < 4
      ensures LE.Encode(4, a)[i] == (if i == 0 then a else 0) && LE.Encode(4, b)[i] == (if i == 0 then b else 0)
    {
      LE.EncodeSmall(4, a, i);
      LE.EncodeSmall(4, b, i);
    }
    assert LE.Encode(4, b) == LE.Encode(4, a)[0 := b];
    assert h[j] == h[j..j + 4][0];
    ChangedFields(h, j, b);
    LayoutUnique(h[j := b], g);
  }

  /** The file of one record with short key and value, after one size byte has changed. */
  lemma OneRecordResized(r: Record, j: nat, b: byte)
    requires ValidRecord(r) && |r.key| < 256 && |r.value| < 256 && (j == 8 || j == 12)
    ensures var f := Frame(r, 0);
            var p := HeaderOf(r);
            var q := if j == 8 then p.(keySize := b) else p.(valueSize := b);
            && EncodeLog([f])[j] == (if j == 8 then |r.key| else |r.value|)
            && (ValidHeader(q) ==> DamagedHeader(f, j, b) == Some(q))
            && WithByte([f], [], 0, j, b) == EncodeLog([f])[j := b]
            && LogSize([f][..0]) == 0
            && |EncodeLog([f])| == HEADER_SIZE + |r.key| + |r.value|
            && EncodeLog([f])[j := b][HEADER_SIZE..] == r.key + r.value
  {
    hide HeaderBytes, ParseHeader, C.RecordHash;
    var f := Frame(r, 0);
    var p := HeaderOf(r);
    var q := if j == 8 then p.(keySize := b) else p.(valueSize := b);
    OneFrame(f);
    assert EncodeLog([f]) + [] == EncodeLog([f]);
    EncodeFrameIs(f);
    SizeByte(p, j, b);
    if ValidHeader(q) {
      ParseHeaderBytes(q, 0);
    }
  }

  lemma EmptyReplay(nowMs: int64)
    ensures Replay([], nowMs) == map[]
  {}

  /** A log of one record "a" = "". Turning its key size from 1 into 2 makes recovery succeed with
      an empty index and drop all 29 bytes. */
  lemma SizeDamageLosesRecord(nowMs: int64)
    ensures var f := Frame(Record(OpSet, [97], [], 0), 0);
            && EncodeLog([f])[8] == 1
            && Recover(EncodeLog([f])[8 := 2], nowMs) == Ok(RecoveryState(map[], 0, 29))
  {
    hide EncodeLog, LogSize, DamagedHeader, C.RecordHash, Split, ParseFrame;
    var r := Record(OpSet, [97], [], 0);
    var f := Frame(r, 0);
    OneRecordResized(r, 8, 2);
    SizeDamageOutcome([f], [], 0, 8, 2, nowMs);
    var damaged := EncodeLog([f])[8 := 2];
    assert damaged[0..] == damaged;
    assert [f][..0] == [];
    assert Split(damaged) == Scan([], damaged);
    EmptyReplay(nowMs);
  }

  lemma ShortIsTorn(data: Bytes)
    requires |data| < HEADER_SIZE
    ensures ParseFrame(data) == Torn && Split(data) == Scan([], data)
  {}

  lemma ReplayOne(f: Frame, nowMs: int64)
    requires f.record.operation == OpSet && f.record.expiresAtMs == 0
    ensures Replay([f], nowMs) == map[f.record.key := MetaAt(f, 0)]
  {
    assert [f][..0] == [];
  }

  /** A log of one record with a 22-byte value. Turning its value size into 0 makes recovery succeed
      with the key bound to the empty value and drop the 22 bytes: the checksum agrees. */
  lemma SizeDamageChangesValue(nowMs: int64)
    ensures var f := Frame(Record(OpSet, [0], Collision.COLLIDING_VALUE, 0), 0);
            && EncodeLog([f])[12] == 22
            && Recover(EncodeLog([f])[12 := 0], nowMs)
               == Ok(RecoveryState(map[[0] := RecordMetadata(0, 29, 0, 0)], 1, 22))
  {
    hide EncodeLog, LogSize, DamagedHeader, C.RecordHash, Split, ParseFrame, Collision.COLLIDING_VALUE;
    Collision.SameChecksum();
    var value := Collision.COLLIDING_VALUE;
    var r := Record(OpSet, [0], value, 0);
    var f := Frame(r, 0);
    OneRecordResized(r, 12, 0);
    SizeDamageOutcome([f], [], 0, 12, 0, nowMs);
    var damaged := EncodeLog([f])[12 := 0];
    assert damaged[0..] == damaged && [f][..0] == [];
    var p := DamagedHeader(f, 12, 0).value;
    assert damaged[HEADER_SIZE..] == [0] + value;
    var g := Reinterpreted(p, damaged);
    assert g.record == Record(OpSet, [0], [], 0) && SumMatches(p, damaged);
    assert damaged[29..] == value;
    ShortIsTorn(value);
    assert Split(damaged) == Scan([g], value);
    ReplayOne(g, nowMs);
  }
}
