/**
 * The data section of a MaxMind DB file as its format describes it ("Output Data
 * Section"): trees of values laid out in the file, with pointers to other places,
 * and the theorem that the decoder reads back the value of every such tree.
 */
module MmdbLayout {
  import opened Prelude
  import opened ByteNumbers
  import opened MmdbDecoder

  /** A value as it lies in the file. A map holds its keys and values alternating; a pointer knows the tree it points to. */
  datatype Tree =
    | Scalar(code: nat, payload: seq<byte>)
    | Double(bytes: seq<byte>)
    | Float(bytes: seq<byte>)
    | Boolean(b: bool)
    | Map(entries: seq<Tree>)
    | Array(items: seq<Tree>)
    | Pointer(width: nat, target: nat, to: Tree)

  // ----- The bytes of the format -----

  /** `n` as `k` big-endian bytes */
  function ToBytes(n: nat, k: nat): (r: seq<byte>)
    ensures |r| == k
  {
    if k == 0 then [] else ToBytes(n / 256, k - 1) + [n % 256]
  }

  lemma {:induction false} BigEndianOfToBytes(n: nat, k: nat)
    requires n < Pow256(k)
    ensures BigEndian(ToBytes(n, k)) == n
  {
    if k > 0 {
      BigEndianOfToBytes(n / 256, k - 1);
      assert ToBytes(n, k)[..k - 1] == ToBytes(n / 256, k - 1);
    }
  }

  const MAX_SIZE: nat := 65821 + 0x100_0000

  function SizeBits(size: nat): nat {
    if size < 29 then size else if size < 285 then 29 else if size < 65821 then 30 else 31
  }

  function SizeBytes(size: nat): seq<byte>
    requires size < MAX_SIZE
  {
    if size < 29 then [] else if size < 285 then [size - 29]
    else if size < 65821 then ToBytes(size - 285, 2) else ToBytes(size - 65821, 3)
  }

  function ControlBytes(code: nat, size: nat): seq<byte>
    requires 1 < code < 16
  {
    if code < 8 then [code * 32 + SizeBits(size)] else [SizeBits(size), code - 7]
  }

  /** Control byte, extended type, size extension. */
  function Head(code: nat, size: nat): seq<byte>
    requires 1 < code < 16 && size < MAX_SIZE
  {
    ControlBytes(code, size) + SizeBytes(size)
  }

  /** What each pointer width can express. */
  predicate PointerFits(width: nat, v: int) {
    match width
    case 0 => 0 <= v < 2048
    case 1 => 2048 <= v < 2048 + 0x8_0000
    case 2 => 526336 <= v < 526336 + 0x800_0000
    case 3 => 0 <= v < 0x1_0000_0000
    case _ => false
  }

  function PointerBytes(width: nat, v: nat): seq<byte>
    requires PointerFits(width, v)
  {
    match width
    case 0 => [32 + v / 0x100, v % 0x100]
    case 1 => [40 + (v - 2048) / 0x1_0000] + ToBytes((v - 2048) % 0x1_0000, 2)
    case 2 => [48 + (v - 526336) / 0x100_0000] + ToBytes((v - 526336) % 0x100_0000, 3)
    case _ => [56] + ToBytes(v, 4)
  }

  // ----- Trees in a file -----

  predicate Reads(db: seq<byte>, offset: nat, bytes: seq<byte>) {
    offset + |bytes| <= |db| && db[offset..offset + |bytes|] == bytes
  }

  /** The sizes the format can express. */
  predicate Expressible(t: Tree) {
    match t
    case Scalar(code, payload) => code in {STRING, BYTES, UINT16, UINT32, INT32, UINT64, UINT128} && |payload| < MAX_SIZE && (code == STRING ==> IsUtf8(payload))
    case Double(bytes) => |bytes| == 8
    case Float(bytes) => |bytes| == 4
    case Boolean(_) => true
    case Map(entries) => |entries| % 2 == 0 && |entries| / 2 < MAX_SIZE
    case Array(items) => |items| < MAX_SIZE
    case Pointer(width, _, _) => width <= 3
  }

  /** The bytes of a tree in its own place, up to the elements of a map or an array. */
  function Front(t: Tree): seq<byte>
    requires Expressible(t) && !t.Pointer?
  {
    match t
    case Scalar(code, payload) => Head(code, |payload|) + payload
    case Double(bytes) => Head(DOUBLE, 8) + bytes
    case Float(bytes) => Head(FLOAT, 4) + bytes
    case Boolean(b) => Head(BOOLEAN, if b then 1 else 0)
    case Map(entries) => Head(MAP, |entries| / 2)
    case Array(items) => Head(ARRAY, |items|)
  }

  function Size(t: Tree): nat {
    if !Expressible(t) then 0 else
    match t
    case Pointer(width, _, _) => [2, 3, 4, 5][width]
    case Map(entries) => |Front(t)| + SizeAll(entries)
    case Array(items) => |Front(t)| + SizeAll(items)
    case _ => |Front(t)|
  }

  function SizeAll(ts: seq<Tree>): nat {
    if ts == [] then 0 else Size(ts[0]) + SizeAll(ts[1..])
  }

  /** `t` lies at `offset`, with the trees its pointers refer to at their targets. */
  predicate Laid(db: seq<byte>, base: nat, offset: nat, t: Tree)
    decreases t
  {
    && Expressible(t)
    && match t
       case Pointer(width, target, to) =>
         && PointerFits(width, target - base) && base <= target
         && Reads(db, offset, PointerBytes(width, target - base))
         && Laid(db, base, target, to)
       case Map(entries) => Reads(db, offset, Front(t)) && LaidAll(db, base, offset + |Front(t)|, entries)
       case Array(items) => Reads(db, offset, Front(t)) && LaidAll(db, base, offset + |Front(t)|, items)
       case _ => Reads(db, offset, Front(t))
  }

  predicate LaidAll(db: seq<byte>, base: nat, offset: nat, ts: seq<Tree>)
    decreases ts
  {
    ts == [] || (Laid(db, base, offset, ts[0]) && LaidAll(db, base, offset + Size(ts[0]), ts[1..]))
  }

  /** How many nested calls reading the tree takes. */
  function Height(t: Tree): nat {
    match t
    case Pointer(_, _, to) => 1 + Height(to)
    case Map(entries) => 1 + HeightAll(entries)
    case Array(items) => 1 + HeightAll(items)
    case _ => 1
  }

  function HeightAll(ts: seq<Tree>): nat {
    if ts == [] then 0 else if Height(ts[0]) > HeightAll(ts[1..]) then Height(ts[0]) else HeightAll(ts[1..])
  }

  // ----- What a tree means -----

  function PairUp<T>(xs: seq<T>): seq<(T, T)> {
    if |xs| < 2 then [] else [(xs[0], xs[1])] + PairUp(xs[2..])
  }

  /** A pointer means what it points to. */
  function ValueOf(t: Tree): Value {
    match t
    case Scalar(code, payload) =>
      if code == STRING then VString(payload)
      else if code == BYTES then VBytes(payload)
      else if code == INT32 && |payload| >= 4 then VInt(Signed(payload))
      else VInt(BigEndian(payload))
    case Double(bytes) => VDouble(bytes)
    case Float(bytes) => VFloat(bytes)
    case Boolean(b) => VBool(b)
    case Map(entries) => VMap(Dict(PairUp(ValuesOf(entries))))
    case Array(items) => VArray(ValuesOf(items))
    case Pointer(_, _, to) => ValueOf(to)
  }

  function ValuesOf(ts: seq<Tree>): (r: seq<Value>)
    ensures |r| == |ts|
  {
    if ts == [] then [] else [ValueOf(ts[0])] + ValuesOf(ts[1..])
  }

  // ----- Decoding the parts -----

  lemma ReadsPart(db: seq<byte>, offset: nat, a: seq<byte>, b: seq<byte>)
    requires Reads(db, offset, a + b)
    ensures Reads(db, offset, a) && Reads(db, offset + |a|, b)
  {
    var n := offset + |a| + |b|;
    assert db[offset..n][..|a|] == (a + b)[..|a|] == a;
    assert db[offset..n][|a|..] == (a + b)[|a|..] == b;
  }

  lemma ReadsAt(db: seq<byte>, offset: nat, bytes: seq<byte>, i: nat)
    requires Reads(db, offset, bytes) && i < |bytes|
    ensures offset + i < |db| && db[offset + i] == bytes[i]
  {
    assert db[offset..offset + |bytes|][i] == bytes[i];
  }

  lemma ReadsSlice(db: seq<byte>, offset: nat, bytes: seq<byte>)
    requires Reads(db, offset, bytes)
    ensures Slice(db, offset, |bytes|) == bytes
    ensures Unpack(db, offset, |bytes|) == Ok(BigEndian(bytes))
  {
  }

  lemma DecodeHeadOfControl(db: seq<byte>, offset: nat, code: nat, size: nat)
    requires 1 < code < 16 && size < MAX_SIZE && Reads(db, offset, ControlBytes(code, size))
    ensures var r := DecodeHead(db, offset);
            && r.Ok? && r.value.0 % 32 == SizeBits(size) && r.value.1 == code
            && r.value.2 == offset + |ControlBytes(code, size)|
  {
    ReadsAt(db, offset, ControlBytes(code, size), 0);
    if code >= 8 {
      ReadsAt(db, offset, ControlBytes(code, size), 1);
    }
  }

  lemma DecodeSizeOfBytes(db: seq<byte>, offset: nat, size: nat)
    requires size < MAX_SIZE && Reads(db, offset, SizeBytes(size))
    ensures DecodeSize(db, SizeBits(size), offset) == Ok((size, offset + |SizeBytes(size)|))
  {
    if size < 29 {
    } else if size < 285 {
      ReadsAt(db, offset, SizeBytes(size), 0);
    } else if size < 65821 {
      ReadsSlice(db, offset, SizeBytes(size));
      BigEndianOfToBytes(size - 285, 2);
    } else {
      ReadsSlice(db, offset, SizeBytes(size));
      BigEndianOfToBytes(size - 65821, 3);
    }
  }

  /** The control byte of a pointer, and the low part of its value behind it. */
  lemma PointerControl(db: seq<byte>, offset: nat, width: nat, high: nat, low: seq<byte>)
    requires width < 4 && high < 8 && Reads(db, offset, [32 + width * 8 + high] + low)
    ensures DecodeHead(db, offset) == Ok((32 + width * 8 + high, TYPE_POINTER, offset + 1))
    ensures (32 + width * 8 + high) / 8 % 4 == width && (32 + width * 8 + high) % 8 == high
    ensures Reads(db, offset + 1, low)
  {
    ReadsAt(db, offset, [32 + width * 8 + high] + low, 0);
    ReadsPart(db, offset, [32 + width * 8 + high], low);
  }

  lemma DecodePointerOfBytes(db: seq<byte>, offset: nat, width: nat, v: nat)
    requires PointerFits(width, v) && Reads(db, offset, PointerBytes(width, v))
    ensures var r := DecodeHead(db, offset);
            && r.Ok? && r.value.1 == TYPE_POINTER && r.value.2 == offset + 1
            && DecodePointer(db, r.value.0, offset + 1) == Ok((v, offset + |PointerBytes(width, v)|))
  {
    hide DecodeHead, Reads, ToBytes, BigEndian, Slice, Unpack;
    if width == 0 {
      var low := [v % 0x100];
      assert PointerBytes(width, v) == [32 + v / 0x100] + low;
      PointerControl(db, offset, 0, v / 0x100, low);
      ReadsAt(db, offset + 1, low, 0);
    } else if width == 1 {
      var w := v - 2048;
      PointerControl(db, offset, 1, w / 0x1_0000, ToBytes(w % 0x1_0000, 2));
      ReadsSlice(db, offset + 1, ToBytes(w % 0x1_0000, 2));
      BigEndianOfToBytes(w % 0x1_0000, 2);
    } else if width == 2 {
      var w := v - 526336;
      PointerControl(db, offset, 2, w / 0x100_0000, ToBytes(w % 0x100_0000, 3));
      ReadsSlice(db, offset + 1, ToBytes(w % 0x100_0000, 3));
      BigEndianOfToBytes(w % 0x100_0000, 3);
    } else {
      PointerControl(db, offset, 3, 0, ToBytes(v, 4));
      ReadsSlice(db, offset + 1, ToBytes(v, 4));
      BigEndianOfToBytes(v, 4);
    }
  }

  /** Head and size together. */
  lemma DecodeHeadAndSize(db: seq<byte>, offset: nat, code: nat, size: nat)
    requires 1 < code < 16 && size < MAX_SIZE && Reads(db, offset, Head(code, size))
    ensures var r := DecodeHead(db, offset);
            && r.Ok? && r.value.0 % 32 == SizeBits(size) && r.value.1 == code
            && DecodeSize(db, SizeBits(size), r.value.2) == Ok((size, offset + |Head(code, size)|))
  {
    ReadsPart(db, offset, ControlBytes(code, size), SizeBytes(size));
    DecodeHeadOfControl(db, offset, code, size);
    DecodeSizeOfBytes(db, offset + |ControlBytes(code, size)|, size);
  }

  // ----- The decoder reads what is laid out -----

  /** The decoder, when it has read a head that announces neither a pointer nor a map nor an array. */
  lemma DecodeFront(db: seq<byte>, base: nat, offset: nat, code: nat, size: nat, depth: nat)
    requires 1 < code < 16 && code != MAP && code != ARRAY && size < MAX_SIZE && depth > 0
    requires Reads(db, offset, Head(code, size))
    ensures Decode(db, offset, base, depth) == DecodeScalar(db, code, SizeBits(size), size, offset + |Head(code, size)|)
  {
    hide DecodeHead, DecodeSize, SizeBits, Head, DecodeScalar, DecodePointer, DecodeItems, DecodePairs;
    DecodeHeadAndSize(db, offset, code, size);
  }

  /** The payload of a string, a byte string or a number. */
  lemma DecodePayload(db: seq<byte>, offset: nat, code: nat, payload: seq<byte>)
    requires Expressible(Scalar(code, payload)) && Reads(db, offset, payload)
    ensures DecodeScalar(db, code, SizeBits(|payload|), |payload|, offset) == Ok((ValueOf(Scalar(code, payload)), offset + |payload|))
  {
    ReadsSlice(db, offset, payload);
    hide SizeBits, BigEndian, Signed, IsUtf8, Slice;
  }

  /** The eight or four bytes of a floating-point number. */
  lemma DecodeFloating(db: seq<byte>, offset: nat, t: Tree)
    requires (t.Double? || t.Float?) && Expressible(t) && Reads(db, offset, t.bytes)
    ensures DecodeScalar(db, if t.Double? then DOUBLE else FLOAT, SizeBits(|t.bytes|), |t.bytes|, offset)
            == Ok((ValueOf(t), offset + |t.bytes|))
  {
    hide SizeBits, BigEndian, Signed, IsUtf8, Slice;
  }

  lemma DecodeScalarLaid(db: seq<byte>, base: nat, offset: nat, t: Tree, depth: nat)
    requires Laid(db, base, offset, t) && !t.Pointer? && !t.Map? && !t.Array? && depth > 0
    ensures Decode(db, offset, base, depth) == Ok((ValueOf(t), offset + Size(t)))
  {
    hide Head, Decode, BigEndian, Signed, IsUtf8, Reads, ValueOf;
    match t
    case Scalar(code, payload) =>
      hide DecodeScalar, SizeBits;
      ReadsPart(db, offset, Head(code, |payload|), payload);
      DecodeFront(db, base, offset, code, |payload|, depth);
      DecodePayload(db, offset + |Head(code, |payload|)|, code, payload);
    case Double(bytes) =>
      hide DecodeScalar, SizeBits;
      ReadsPart(db, offset, Head(DOUBLE, 8), bytes);
      DecodeFront(db, base, offset, DOUBLE, 8, depth);
      DecodeFloating(db, offset + |Head(DOUBLE, 8)|, t);
    case Float(bytes) =>
      hide DecodeScalar, SizeBits;
      ReadsPart(db, offset, Head(FLOAT, 4), bytes);
      DecodeFront(db, base, offset, FLOAT, 4, depth);
      DecodeFloating(db, offset + |Head(FLOAT, 4)|, t);
    case Boolean(b) =>
      DecodeFront(db, base, offset, BOOLEAN, if b then 1 else 0, depth);
      DecodeBoolean(db, offset + |Head(BOOLEAN, if b then 1 else 0)|, b);
  }

  lemma DecodeBoolean(db: seq<byte>, offset: nat, b: bool)
    ensures DecodeScalar(db, BOOLEAN, SizeBits(if b then 1 else 0), if b then 1 else 0, offset) == Ok((ValueOf(Boolean(b)), offset))
  {
    hide BigEndian, Signed, IsUtf8, Slice;
  }

  /** A string that is not well-formed UTF-8 raises, whatever its size class. */
  lemma IllFormedString(db: seq<byte>, base: nat, offset: nat, payload: seq<byte>, depth: nat)
    requires |payload| < MAX_SIZE && !IsUtf8(payload) && Reads(db, offset, Head(STRING, |payload|) + payload) && depth > 0
    ensures Decode(db, offset, base, depth) == Err(UnicodeError)
  {
    hide Head, Decode, IsUtf8;
    ReadsPart(db, offset, Head(STRING, |payload|), payload);
    DecodeFront(db, base, offset, STRING, |payload|, depth);
    ReadsSlice(db, offset + |Head(STRING, |payload|)|, payload);
  }

  /** Decoding inverts encoding: a tree laid out in the file, by whatever size classes and pointers, is read back as its
      value, and the offset returned is the one behind its own bytes; no more nested calls are needed than it is high. */
  lemma {:induction false} DecodeLaid(db: seq<byte>, base: nat, offset: nat, t: Tree, depth: nat)
    requires Laid(db, base, offset, t) && depth >= Height(t)
    ensures Decode(db, offset, base, depth) == Ok((ValueOf(t), offset + Size(t)))
    decreases t
  {
    hide Head, DecodeHead, DecodeSize, DecodePointer, PointerFits, Reads, BigEndian, SizeBits, DecodeScalar, LaidAll, HeightAll,
         SizeAll, DecodeItems, DecodePairs, Dict, PairUp;
    match t
    case Pointer(width, target, to) =>
      DecodePointerOfBytes(db, offset, width, target - base);
      DecodeLaid(db, base, target, to, depth - 1);
    case Map(entries) =>
      DecodeHeadAndSize(db, offset, MAP, |entries| / 2);
      DecodePairsLaid(db, base, offset + |Front(t)|, entries, depth - 1);
    case Array(items) =>
      DecodeHeadAndSize(db, offset, ARRAY, |items|);
      DecodeItemsLaid(db, base, offset + |Front(t)|, items, depth - 1);
    case _ =>
      DecodeScalarLaid(db, base, offset, t, depth);
  }

  lemma {:induction false} DecodeItemsLaid(db: seq<byte>, base: nat, offset: nat, ts: seq<Tree>, depth: nat)
    requires LaidAll(db, base, offset, ts) && depth >= HeightAll(ts)
    ensures DecodeItems(db, offset, base, depth, |ts|) == Ok((ValuesOf(ts), offset + SizeAll(ts)))
    decreases ts
  {
    hide Laid, Decode, Size, Height, ValueOf;
    if ts != [] {
      DecodeLaid(db, base, offset, ts[0], depth);
      DecodeItemsLaid(db, base, offset + Size(ts[0]), ts[1..], depth);
    }
  }

  lemma {:induction false} DecodePairsLaid(db: seq<byte>, base: nat, offset: nat, ts: seq<Tree>, depth: nat)
    requires LaidAll(db, base, offset, ts) && depth >= HeightAll(ts) && |ts| % 2 == 0
    ensures DecodePairs(db, offset, base, depth, |ts| / 2) == Ok((PairUp(ValuesOf(ts)), offset + SizeAll(ts)))
    decreases ts
  {
    hide Laid, Decode, Size, Height, ValueOf;
    if ts != [] {
      var rest := ts[1..][1..];
      assert ts[2..] == rest && ts[1..][0] == ts[1];
      DecodeLaid(db, base, offset, ts[0], depth);
      DecodeLaid(db, base, offset + Size(ts[0]), ts[1], depth);
      DecodePairsLaid(db, base, offset + Size(ts[0]) + Size(ts[1]), rest, depth);
      assert ValuesOf(ts) == [ValueOf(ts[0]), ValueOf(ts[1])] + ValuesOf(rest);
    }
  }
}
