/** Values shared by every part of MiniKV: bytes, records, metadata, status codes and the
    constants of the record format. */
module Types {

  type byte = x: int | 0 <= x < 256
  type Bytes = seq<byte>

  const WORD32: int := 0x1_0000_0000
  const WORD64: int := 0x1_0000_0000_0000_0000

  const INT64_MAX: int := 0x7FFF_FFFF_FFFF_FFFF

  type uint32 = x: int | 0 <= x < 0x1_0000_0000
  type int64 = x: int | -0x8000_0000_0000_0000 <= x < 0x8000_0000_0000_0000

  datatype Option<+T> = None | Some(value: T)

  datatype StatusCode = NotFound | InvalidArgument | IoError | Corruption | Closed

  datatype Result<+T> = Ok(value: T) | Err(code: StatusCode)

  datatype Operation = OpSet | OpDelete

  datatype Record = Record(operation: Operation, key: Bytes, value: Bytes, expiresAtMs: int64)

  datatype RecordMetadata = RecordMetadata(recordOffset: nat, valueOffset: nat, valueSize: nat, expiresAtMs: int64)

  type Index = map<Bytes, RecordMetadata>

  const RECORD_MAGIC: uint32 := 0x31564B4D
  const RECORD_VERSION: int := 1
  const HEADER_SIZE: nat := 28
  const MAX_KEY_SIZE: nat := 4 * 1024
  const MAX_VALUE_SIZE: nat := 16 * 1024 * 1024

  /** An expiry of zero or less means that the binding never expires. */
  predicate IsExpired(expiresAtMs: int64, nowMs: int64) {
    expiresAtMs > 0 && expiresAtMs <= nowMs
  }

  /** The byte that stands for an operation in the header and in the checksum. */
  function OperationByte(op: Operation): byte {
    match op
    case OpSet => 1
    case OpDelete => 2
  }

  /** What the writer accepts and the reader insists on. */
  predicate ValidRecord(r: Record) {
    && 0 < |r.key| <= MAX_KEY_SIZE
    && |r.value| <= MAX_VALUE_SIZE
    && (r.operation == OpDelete ==> r.value == [])
  }
}
