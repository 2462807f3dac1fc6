/**
 * The recursive decoder of the MaxMind DB data section, over an immutable byte string.
 *
 * `depth` is the number of nested calls the interpreter still allows; running out of
 * it is an error like the others. Reads behave as in Python: indexing and unpacking
 * past the end raise, slicing past the end yields fewer bytes. A string is kept as the
 * bytes it was decoded from.
 */
module MmdbDecoder {
  import opened Prelude
  import opened ByteNumbers

  datatype Value =
    | VString(bytes: seq<byte>)
    | VDouble(bytes: seq<byte>)
    | VBytes(bytes: seq<byte>)
    | VInt(n: int)
    | VMap(entries: seq<Entry>)
    | VArray(items: seq<Value>)
    | VBool(b: bool)
    | VFloat(bytes: seq<byte>)

  datatype Entry = Entry(key: seq<byte>, value: Value)

  datatype Error =
    | IndexError | StructError | UnicodeError | RecursionError | DeprecatedType | UnknownType
    | NoMarker | BadMetadata | UnsupportedRecordSize | WrongFamily

  type Decoded<T> = Result<(T, nat), Error>

  // ----- Reading bytes -----

  function ByteAt(db: seq<byte>, offset: nat): Result<byte, Error> {
    if offset < |db| then Ok(db[offset]) else Err(IndexError)
  }

  /** `struct.unpack_from` of `n` big-endian bytes */
  function Unpack(db: seq<byte>, offset: nat, n: nat): Result<nat, Error> {
    if offset + n <= |db| then Ok(BigEndian(db[offset..offset + n])) else Err(StructError)
  }

  function Slice(db: seq<byte>, offset: nat, n: nat): seq<byte> {
    if |db| <= offset then [] else if |db| <= offset + n then db[offset..] else db[offset..offset + n]
  }

  // ----- The parts of an encoded value -----

  const TYPE_POINTER := 1
  const STRING := 2
  const DOUBLE := 3
  const BYTES := 4
  const UINT16 := 5
  const UINT32 := 6
  const MAP := 7
  const INT32 := 8
  const UINT64 := 9
  const UINT128 := 10
  const ARRAY := 11
  const BOOLEAN := 14
  const FLOAT := 15

  /** The control byte, the type code it and the extension byte give, and the offset behind them. */
  function DecodeHead(db: seq<byte>, offset: nat): Result<(byte, nat, nat), Error> {
    match ByteAt(db, offset)
    case Err(e) => Err(e)
    case Ok(control) =>
      if control / 32 == 0 then
        match ByteAt(db, offset + 1)
        case Err(e) => Err(e)
        case Ok(ext) => Ok((control, ext + 7, offset + 2))
      else
        Ok((control, control / 32, offset + 1))
  }

  /** The value of a pointer and the offset behind it. */
  function DecodePointer(db: seq<byte>, control: byte, offset: nat): Decoded<nat> {
    var high := control % 8;
    match control / 8 % 4
    case 0 =>
      (match ByteAt(db, offset)
       case Err(e) => Err(e)
       case Ok(b) => Ok((high * 0x100 + b, offset + 1)))
    case 1 =>
      (match Unpack(db, offset, 2)
       case Err(e) => Err(e)
       case Ok(n) => Ok((high * 0x1_0000 + n + 2048, offset + 2)))
    case 2 => Ok((high * 0x100_0000 + BigEndian(Slice(db, offset, 3)) + 526336, offset + 3))
    case _ =>
      (match Unpack(db, offset, 4)
       case Err(e) => Err(e)
       case Ok(n) => Ok((n, offset + 4)))
  }

  /** The payload size and the offset behind its extension bytes. */
  function DecodeSize(db: seq<byte>, sizeBits: nat, offset: nat): Decoded<nat> {
    if sizeBits < 29 then
      Ok((sizeBits, offset))
    else if sizeBits == 29 then
      match ByteAt(db, offset)
      case Err(e) => Err(e)
      case Ok(b) => Ok((29 + b, offset + 1))
    else if sizeBits == 30 then
      match Unpack(db, offset, 2)
      case Err(e) => Err(e)
      case Ok(n) => Ok((285 + n, offset + 2))
    else
      Ok((65821 + BigEndian(Slice(db, offset, 3)), offset + 3))
  }

  function Signed(bytes: seq<byte>): int {
    if bytes == [] || bytes[0] < 128 then BigEndian(bytes) else BigEndian(bytes) - Pow256(|bytes|)
  }

  function Pow256(n: nat): nat {
    if n == 0 then 1 else Pow256(n - 1) * 256
  }

  /** Every type but pointers, maps and arrays; `size` is the payload size. */
  function DecodeScalar(db: seq<byte>, code: nat, sizeBits: nat, size: nat, offset: nat): Decoded<Value> {
    var payload := Slice(db, offset, size);
    if code == STRING then if IsUtf8(payload) then Ok((VString(payload), offset + size)) else Err(UnicodeError)
    else if code == DOUBLE then
      if offset + 8 <= |db| then Ok((VDouble(db[offset..offset + 8]), offset + 8)) else Err(StructError)
    else if code == BYTES then Ok((VBytes(payload), offset + size))
    else if code in {UINT16, UINT32, UINT64, UINT128} then Ok((VInt(BigEndian(payload)), offset + size))
    else if code == INT32 then Ok((VInt(if size < 4 then BigEndian(payload) else Signed(payload)), offset + size))
    else if code == BOOLEAN then Ok((VBool(sizeBits != 0), offset))
    else if code == FLOAT then
      if offset + 4 <= |db| then Ok((VFloat(db[offset..offset + 4]), offset + 4)) else Err(StructError)
    else if code in {12, 13} then Err(DeprecatedType)
    else Err(UnknownType)
  }

  /** `d[key] = value` on an insertion-ordered dictionary. */
  function DictSet(d: seq<Entry>, key: seq<byte>, value: Value): seq<Entry> {
    if d == [] then [Entry(key, value)]
    else if d[0].key == key then [Entry(key, value)] + d[1..]
    else [d[0]] + DictSet(d[1..], key, value)
  }

  /** The dictionary built from decoded pairs; a key that is not a string is dropped. */
  function Dict(pairs: seq<(Value, Value)>): seq<Entry> {
    if pairs == [] then [] else
    var (key, value) := pairs[|pairs| - 1];
    var d := Dict(pairs[..|pairs| - 1]);
    if key.VString? then DictSet(d, key.bytes, value) else d
  }

  // ----- The decoder -----

  /** `_decode` */
  function Decode(db: seq<byte>, offset: nat, base: nat, depth: nat): Decoded<Value>
    decreases depth, 0
  {
    if depth == 0 then Err(RecursionError) else
    match DecodeHead(db, offset)
    case Err(e) => Err(e)
    case Ok((control, code, next)) =>
      if code == TYPE_POINTER then
        match DecodePointer(db, control, next)
        case Err(e) => Err(e)
        case Ok((pointer, end)) =>
          (match Decode(db, base + pointer, base, depth - 1)
           case Err(e) => Err(e)
           case Ok((value, _)) => Ok((value, end)))
      else
        match DecodeSize(db, control % 32, next)
        case Err(e) => Err(e)
        case Ok((size, start)) =>
          if code == MAP then
            match DecodePairs(db, start, base, depth - 1, size)
            case Err(e) => Err(e)
            case Ok((pairs, end)) => Ok((VMap(Dict(pairs)), end))
          else if code == ARRAY then
            match DecodeItems(db, start, base, depth - 1, size)
            case Err(e) => Err(e)
            case Ok((items, end)) => Ok((VArray(items), end))
          else
            DecodeScalar(db, code, control % 32, size, start)
  }

  /** `count` values, one behind the other. */
  function DecodeItems(db: seq<byte>, offset: nat, base: nat, depth: nat, count: nat): Decoded<seq<Value>>
    decreases depth, count + 1
  {
    if count == 0 then Ok(([], offset)) else
    match Decode(db, offset, base, depth)
    case Err(e) => Err(e)
    case Ok((item, next)) =>
      match DecodeItems(db, next, base, depth, count - 1)
      case Err(e) => Err(e)
      case Ok((items, end)) => Ok(([item] + items, end))
  }

  /** `count` keys and values, alternating. */
  function DecodePairs(db: seq<byte>, offset: nat, base: nat, depth: nat, count: nat): Decoded<seq<(Value, Value)>>
    decreases depth, count + 1
  {
    if count == 0 then Ok(([], offset)) else
    match Decode(db, offset, base, depth)
    case Err(e) => Err(e)
    case Ok((key, middle)) =>
      match Decode(db, middle, base, depth)
      case Err(e) => Err(e)
      case Ok((value, next)) =>
        match DecodePairs(db, next, base, depth, count - 1)
        case Err(e) => Err(e)
        case Ok((pairs, end)) => Ok(([(key, value)] + pairs, end))
  }
}
