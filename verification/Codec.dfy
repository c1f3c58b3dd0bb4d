/** The record format: a 28-byte header followed by the key and the value. A frame is a record
    together with the reserved header byte, which the writer sets to zero and the reader never
    looks at; a whole record on disk is exactly the encoding of one frame. */
module Codec {
  import opened Types
  import LE = LittleEndian
  import C = Checksum

  datatype Frame = Frame(record: Record, reserved: byte)

  datatype ParsedHeader = ParsedHeader(
    operation: Operation, keySize: nat, valueSize: nat, expiresAtMs: int64, checksum: uint32)

  /** The size and shape checks that the reader applies to a header. */
  predicate ValidHeader(p: ParsedHeader) {
    && 0 < p.keySize <= MAX_KEY_SIZE
    && p.valueSize <= MAX_VALUE_SIZE
    && (p.operation == OpDelete ==> p.valueSize == 0)
  }

  function HeaderOf(r: Record): ParsedHeader {
    ParsedHeader(r.operation, |r.key|, |r.value|, r.expiresAtMs,
                 C.RecordHash(r.operation, r.expiresAtMs, r.key, r.value))
  }

  /** Magic, version and operation: the bytes before the reserved one. */
  function HeaderFront(op: Operation): (h: Bytes)
    ensures |h| == 7
  {
    LE.Encode(4, RECORD_MAGIC) + LE.Encode(2, RECORD_VERSION) + [OperationByte(op)]
  }

  /** Key size, value size, expiry and checksum: the bytes after the reserved one. */
  function HeaderBack(p: ParsedHeader): (h: Bytes)
    ensures |h| == 20
  {
    LE.Encode(4, p.keySize) + LE.Encode(4, p.valueSize)
    + LE.Encode(8, LE.Unsigned64(p.expiresAtMs)) + LE.Encode(4, p.checksum)
  }

  function HeaderBytes(p: ParsedHeader, reserved: byte): (h: Bytes)
    ensures |h| == HEADER_SIZE
  {
    HeaderFront(p.operation) + [reserved] + HeaderBack(p)
  }

  function Field(h: Bytes, offset: nat, width: nat): nat
    requires offset + width <= |h|
  {
    LE.Decode(h[offset..offset + width])
  }

  function Field32(h: Bytes, offset: nat): (v: uint32)
    requires offset + 4 <= |h|
  {
    LE.Powers();
    Field(h, offset, 4)
  }

  function Field64(h: Bytes, offset: nat): (v: nat)
    requires offset + 8 <= |h|
    ensures v < WORD64
  {
    LE.Powers();
    Field(h, offset, 8)
  }

  /** The header fields, or None when the magic, the version, the operation or a size is wrong. */
  function ParseHeader(h: Bytes): (r: Option<ParsedHeader>)
    requires |h| == HEADER_SIZE
  {
    if Field32(h, 0) != RECORD_MAGIC || Field(h, 4, 2) != RECORD_VERSION then None
    else if h[6] != 1 && h[6] != 2 then None
    else
      var p := ParsedHeader(if h[6] == 1 then OpSet else OpDelete, Field32(h, 8), Field32(h, 12),
                            LE.Signed64(Field64(h, 16)), Field32(h, 24));
      if ValidHeader(p) then Some(p) else None
  }

  lemma HeaderLayout(p: ParsedHeader, reserved: byte)
    ensures var h := HeaderBytes(p, reserved);
            && h[0..4] == LE.Encode(4, RECORD_MAGIC)
            && h[4..6] == LE.Encode(2, RECORD_VERSION)
            && h[6] == OperationByte(p.operation)
            && h[7] == reserved
            && h[8..12] == LE.Encode(4, p.keySize)
            && h[12..16] == LE.Encode(4, p.valueSize)
            && h[16..24] == LE.Encode(8, LE.Unsigned64(p.expiresAtMs))
            && h[24..28] == LE.Encode(4, p.checksum)
  {
    hide LE.Encode;
    var h := HeaderBytes(p, reserved);
    var front, back := HeaderFront(p.operation), HeaderBack(p);
    assert h[0..4] == front[0..4] && h[4..6] == front[4..6];
    assert h[8..12] == back[0..4] && h[12..16] == back[4..8] && h[16..24] == back[8..16] && h[24..28] == back[16..20];
  }

  /** The first eight bytes on disk: "MKV1", version 1 in two bytes, 1 for SET or 2 for DELETE, and
      the reserved byte. */
  lemma HeaderOnDisk(p: ParsedHeader, reserved: byte)
    ensures HeaderBytes(p, reserved)[..8]
            == [77, 75, 86, 49, 1, 0, if p.operation == OpSet then 1 else 2, reserved]
  {
    hide LE.Encode, HeaderBytes;
    var h := HeaderBytes(p, reserved);
    HeaderLayout(p, reserved);
    MagicBytes();
    assert h[..8] == h[0..4] + h[4..6] + [h[6]] + [h[7]];
  }

  lemma MagicBytes()
    ensures LE.Encode(4, RECORD_MAGIC) == [77, 75, 86, 49]
    ensures LE.Encode(2, RECORD_VERSION) == [1, 0]
  {
    hide LE.Encode;
    LE.EncodeHead(4, RECORD_MAGIC);
    LE.EncodeHead(3, 0x31564B);
    LE.EncodeHead(2, 0x3156);
    LE.EncodeHead(1, 0x31);
    LE.EncodeHead(2, RECORD_VERSION);
    LE.EncodeHead(1, 0);
    assert |LE.Encode(0, 0)| == 0;
  }

  /** The headers that the reader accepts, byte by byte and limit by limit. */
  lemma HeaderAcceptedIff(h: Bytes)
    requires |h| == 28
    ensures ParseHeader(h).Some? <==>
            && h[..6] == [77, 75, 86, 49, 1, 0]
            && (h[6] == 1 || h[6] == 2)
            && 1 <= LE.Decode(h[8..12]) <= 4096
            && LE.Decode(h[12..16]) <= 16777216
            && (h[6] == 2 ==> LE.Decode(h[12..16]) == 0)
  {
    hide LE.Decode, LE.Encode;
    MagicBytes();
    assert h[..6] == h[0..4] + h[4..6];
    LE.Powers();
    LE.EncodeDecode(h[0..4]);
    LE.EncodeDecode(h[4..6]);
    LE.DecodeEncode(4, RECORD_MAGIC);
    LE.DecodeEncode(2, RECORD_VERSION);
    if h[..6] == [77, 75, 86, 49, 1, 0] {
      assert h[0..4] == h[..6][..4] == [77, 75, 86, 49] && h[4..6] == h[..6][4..] == [1, 0];
    }
  }

  /** The layout determines the bytes. */
  lemma LayoutUnique(h: Bytes, g: Bytes)
    requires |h| == |g| == HEADER_SIZE
    requires h[0..4] == g[0..4] && h[4..6] == g[4..6] && h[6] == g[6] && h[7] == g[7]
    requires h[8..12] == g[8..12] && h[12..16] == g[12..16]
    requires h[16..24] == g[16..24] && h[24..28] == g[24..28]
    ensures h == g
  {
    Regroup(h);
    Regroup(g);
  }

  lemma Regroup(h: Bytes)
    requires |h| == HEADER_SIZE
    ensures h == h[0..4] + h[4..6] + [h[6]] + [h[7]] + h[8..12] + h[12..16] + h[16..24] + h[24..28]
  {}

  lemma ParseHeaderBytes(p: ParsedHeader, reserved: byte)
    requires ValidHeader(p)
    ensures ParseHeader(HeaderBytes(p, reserved)) == Some(p)
  {
    hide LE.Encode, LE.Decode, HeaderBytes;
    HeaderLayout(p, reserved);
    LE.Powers();
    LE.DecodeEncode(4, RECORD_MAGIC);
    LE.DecodeEncode(2, RECORD_VERSION);
    LE.DecodeEncode(4, p.keySize);
    LE.DecodeEncode(4, p.valueSize);
    LE.DecodeEncode(8, LE.Unsigned64(p.expiresAtMs));
    LE.DecodeEncode(4, p.checksum);
  }

  lemma HeaderBytesOfParsed(h: Bytes)
    requires |h| == HEADER_SIZE && ParseHeader(h).Some?
    ensures h == HeaderBytes(ParseHeader(h).value, h[7])
  {
    var p := ParseHeader(h).value;
    HeaderLayout(p, h[7]);
    LE.EncodeDecode(h[0..4]);
    LE.EncodeDecode(h[4..6]);
    LE.EncodeDecode(h[8..12]);
    LE.EncodeDecode(h[12..16]);
    LE.EncodeDecode(h[16..24]);
    LE.EncodeDecode(h[24..28]);
    LayoutUnique(h, HeaderBytes(p, h[7]));
  }

  // Frames

  function FrameSize(f: Frame): nat {
    HEADER_SIZE + |f.record.key| + |f.record.value|
  }

  predicate ValidFrame(f: Frame) {
    ValidRecord(f.record)
  }

  /** Byte `i` of a written record: header, then key, then value. */
  function FrameByte(f: Frame, i: nat): byte
    requires i < FrameSize(f)
  {
    var n := HEADER_SIZE + |f.record.key|;
    if i < HEADER_SIZE then HeaderBytes(HeaderOf(f.record), f.reserved)[i]
    else if i < n then f.record.key[i - HEADER_SIZE]
    else f.record.value[i - n]
  }

  function EncodeFrame(f: Frame): (b: Bytes)
    ensures |b| == FrameSize(f)
  {
    seq(FrameSize(f), i requires 0 <= i < FrameSize(f) => FrameByte(f, i))
  }

  lemma EncodeFrameIs(f: Frame)
    ensures EncodeFrame(f) == HeaderBytes(HeaderOf(f.record), f.reserved) + f.record.key + f.record.value
  {
    hide HeaderBytes, HeaderOf;
  }

  /** What the bytes at the current position of a recovery scan are. */
  datatype Parsed = Torn | Damaged | Whole(frame: Frame)

  function ParseFrame(b: Bytes): (r: Parsed)
    ensures r.Whole? ==> FrameSize(r.frame) <= |b|
  {
    if |b| < HEADER_SIZE then Torn
    else
      match ParseHeader(b[..HEADER_SIZE])
      case None => Damaged
      case Some(p) =>
        if HEADER_SIZE + p.keySize + p.valueSize > |b| then Torn
        else
          var key := b[HEADER_SIZE..HEADER_SIZE + p.keySize];
          var value := b[HEADER_SIZE + p.keySize..HEADER_SIZE + p.keySize + p.valueSize];
          if C.RecordHash(p.operation, p.expiresAtMs, key, value) != p.checksum then Damaged
          else Whole(Frame(Record(p.operation, key, value, p.expiresAtMs), b[7]))
  }

  lemma FrameParts(f: Frame, rest: Bytes)
    ensures var b := EncodeFrame(f) + rest;
            && b[..HEADER_SIZE] == HeaderBytes(HeaderOf(f.record), f.reserved)
            && b[HEADER_SIZE..HEADER_SIZE + |f.record.key|] == f.record.key
            && b[HEADER_SIZE + |f.record.key|..FrameSize(f)] == f.record.value
            && b[FrameSize(f)..] == rest
            && b[..FrameSize(f)] == EncodeFrame(f)
  {
    hide HeaderBytes, HeaderOf, EncodeFrame;
    EncodeFrameIs(f);
  }

  /** Round trip: an encoded frame parses back to itself whatever follows it. */
  lemma ParseEncoded(f: Frame, rest: Bytes)
    requires ValidFrame(f)
    ensures ParseFrame(EncodeFrame(f) + rest) == Whole(f)
  {
    FrameParts(f, rest);
    ParseHeaderBytes(HeaderOf(f.record), f.reserved);
    HeaderLayout(HeaderOf(f.record), f.reserved);
    var b := EncodeFrame(f) + rest;
    assert b[7] == b[..HEADER_SIZE][7];
  }

  lemma SplitInThree(b: Bytes, i: nat, j: nat, k: nat)
    requires i <= j <= k <= |b|
    ensures b[..i] + b[i..j] + b[j..k] == b[..k] <= b
  {}

  /** The converse: bytes that parse as a whole record start with the encoding of that frame. */
  lemma EncodeParsed(b: Bytes)
    requires ParseFrame(b).Whole?
    ensures ValidFrame(ParseFrame(b).frame)
    ensures EncodeFrame(ParseFrame(b).frame) <= b
  {
    var h := b[..HEADER_SIZE];
    HeaderBytesOfParsed(h);
    var p := ParseHeader(h).value;
    var f := ParseFrame(b).frame;
    SplitInThree(b, HEADER_SIZE, HEADER_SIZE + p.keySize, HEADER_SIZE + p.keySize + p.valueSize);
  }

  /** A record cut short anywhere is seen as a torn tail, never as damage. */
  lemma CutFrameIsTorn(f: Frame, cut: nat)
    requires ValidFrame(f) && cut < FrameSize(f)
    ensures ParseFrame(EncodeFrame(f)[..cut]) == Torn
  {
    if cut >= HEADER_SIZE {
      FrameParts(f, []);
      var b := EncodeFrame(f);
      assert b + [] == b;
      assert b[..cut][..HEADER_SIZE] == b[..HEADER_SIZE];
      ParseHeaderBytes(HeaderOf(f.record), f.reserved);
    }
  }

  /** No encoding is a proper prefix of another, and equal encodings come from equal frames. */
  lemma PrefixFree(f: Frame, g: Frame)
    requires ValidFrame(f) && ValidFrame(g)
    requires EncodeFrame(f) <= EncodeFrame(g)
    ensures f == g
  {
    hide *;
    var rest := EncodeFrame(g)[FrameSize(f)..];
    assert EncodeFrame(g) == EncodeFrame(f) + rest;
    assert EncodeFrame(g) == EncodeFrame(g) + [];
    ParseEncoded(f, rest);
    ParseEncoded(g, []);
  }

  lemma ClearReserved(p: ParsedHeader, reserved: byte)
    ensures HeaderBytes(p, 0) == HeaderBytes(p, reserved)[7 := 0]
  {
    UpdateFirst(HeaderFront(p.operation) + [reserved], HeaderBack(p), [], 7, 0);
  }

  lemma UpdateFirst(a: Bytes, b: Bytes, c: Bytes, i: nat, x: byte)
    requires i < |a|
    ensures a[i := x] + b + c == (a + b + c)[i := x]
  {}

  /** A record lists exactly one way of being written: decoding and encoding again restores every
      byte except that the writer puts zero in the reserved byte. */
  lemma RewriteRestoresBytes(b: Bytes)
    requires ParseFrame(b).Whole?
    ensures var f := ParseFrame(b).frame;
            EncodeFrame(f.(reserved := 0)) == b[..FrameSize(f)][7 := 0]
  {
    EncodeParsed(b);
    var f := ParseFrame(b).frame;
    ClearReserved(HeaderOf(f.record), f.reserved);
    UpdateFirst(HeaderBytes(HeaderOf(f.record), f.reserved), f.record.key, f.record.value, 7, 0);
  }

  // The loops that fill and read the header buffer

  /** Writes `value` at `offset`, one byte per round, least significant first. */
  method PutField(bytes: array<byte>, offset: nat, width: nat, value: nat)
    requires offset + width <= bytes.Length
    modifies bytes
    ensures bytes[..offset + width] == old(bytes[..offset]) + LE.Encode(width, value)
    ensures bytes[offset + width..] == old(bytes[offset + width..])
  {
    var weight: nat := 1;
    ghost var target := LE.Encode(width, value);
    for index := 0 to width
      invariant weight == LE.Pow256(index)
      invariant bytes[offset..offset + index] == target[..index]
      invariant bytes[..offset] == old(bytes[..offset])
      invariant bytes[offset + index..] == old(bytes[offset + index..])
    {
      bytes[offset + index] := value / weight % 256;
      weight := 256 * weight;
      assert bytes[offset..offset + index + 1] == bytes[offset..offset + index] + [bytes[offset + index]];
      assert target[..index + 1] == target[..index] + [target[index]];
      assert bytes[offset + index + 1..] == old(bytes[offset + index..])[1..];
    }
    assert bytes[..offset + width] == bytes[..offset] + bytes[offset..offset + width];
  }

  /** Reads a little-endian field; the bytes occupy disjoint bit ranges, so or-ing them in adds them. */
  method GetField(bytes: array<byte>, offset: nat, width: nat) returns (value: nat)
    requires offset + width <= bytes.Length
    ensures value == Field(bytes[..], offset, width)
  {
    value := 0;
    var weight: nat := 1;
    for index := 0 to width
      invariant weight == LE.Pow256(index)
      invariant value == LE.Decode(bytes[offset..offset + index])
    {
      LE.DecodeSnoc(bytes[offset..offset + index], bytes[offset + index]);
      assert bytes[offset..offset + index + 1] == bytes[offset..offset + index] + [bytes[offset + index]];
      value := value + bytes[offset + index] * weight;
      weight := 256 * weight;
    }
    assert bytes[..][offset..offset + width] == bytes[offset..offset + width];
  }

  method MakeHeader(record: Record) returns (header: array<byte>)
    ensures fresh(header)
    ensures header[..] == HeaderBytes(HeaderOf(record), 0)
  {
    hide LE.Encode;
    header := new byte[HEADER_SIZE](_ => 0);
    PutField(header, 0, 4, RECORD_MAGIC);
    PutField(header, 4, 2, RECORD_VERSION);
    header[6] := OperationByte(record.operation);
    header[7] := 0;
    ghost var front := HeaderFront(record.operation) + [0];
    assert header[..8] == header[..6] + [header[6]] + [header[7]] == front;
    PutField(header, 8, 4, |record.key|);
    PutField(header, 12, 4, |record.value|);
    PutField(header, 16, 8, LE.Unsigned64(record.expiresAtMs));
    var checksum := C.RecordChecksum(record.operation, record.expiresAtMs, record.key, record.value);
    PutField(header, 24, 4, checksum);
    assert header[..] == header[..28];
    Concat5(front, LE.Encode(4, |record.key|), LE.Encode(4, |record.value|),
            LE.Encode(8, LE.Unsigned64(record.expiresAtMs)), LE.Encode(4, checksum));
  }

  lemma Concat5(a: Bytes, b: Bytes, c: Bytes, d: Bytes, e: Bytes)
    ensures a + b + c + d + e == a + (b + c + d + e)
  {}

  /** Checks and decodes a header buffer. */
  method ReadHeader(header: array<byte>) returns (r: Result<ParsedHeader>)
    requires header.Length == HEADER_SIZE
    ensures r == match ParseHeader(header[..]) case None => Err(Corruption) case Some(p) => Ok(p)
  {
    LE.Powers();
    var magic := GetField(header, 0, 4);
    if magic != RECORD_MAGIC {
      return Err(Corruption);
    }
    var version := GetField(header, 4, 2);
    if version != RECORD_VERSION {
      return Err(Corruption);
    }
    var operationByte := header[6];
    if operationByte != 1 && operationByte != 2 {
      return Err(Corruption);
    }
    var keySize := GetField(header, 8, 4);
    var valueSize := GetField(header, 12, 4);
    var expiry := GetField(header, 16, 8);
    var checksum := GetField(header, 24, 4);
    var operation := if operationByte == 1 then OpSet else OpDelete;
    if keySize == 0 || keySize > MAX_KEY_SIZE {
      return Err(Corruption);
    }
    if valueSize > MAX_VALUE_SIZE {
      return Err(Corruption);
    }
    if operation == OpDelete && valueSize != 0 {
      return Err(Corruption);
    }
    return Ok(ParsedHeader(operation, keySize, valueSize, LE.Signed64(expiry), checksum));
  }
}
