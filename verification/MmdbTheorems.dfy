/**
 * What follows from the layout theorem: encoded values round trip, pointers can be
 * followed or copied without a difference, and the recursion limit only matters to
 * values it cuts off.
 */
module MmdbTheorems {
  import opened Prelude
  import opened ByteNumbers
  import opened MmdbDecoder
  import opened MmdbLayout

  // ----- Trees without pointers -----

  /** The tree with every pointer replaced by what it points to. */
  function Inline(t: Tree): Tree {
    match t
    case Pointer(_, _, to) => Inline(to)
    case Map(entries) => Map(InlineAll(entries))
    case Array(items) => Array(InlineAll(items))
    case _ => t
  }

  function InlineAll(ts: seq<Tree>): (r: seq<Tree>)
    ensures |r| == |ts|
  {
    if ts == [] then [] else [Inline(ts[0])] + InlineAll(ts[1..])
  }

  /** A tree that can be written without pointers. */
  predicate Plain(t: Tree) {
    && Expressible(t)
    && match t
       case Pointer(_, _, _) => false
       case Map(entries) => PlainAll(entries)
       case Array(items) => PlainAll(items)
       case _ => true
  }

  predicate PlainAll(ts: seq<Tree>) {
    ts == [] || (Plain(ts[0]) && PlainAll(ts[1..]))
  }

  /** The bytes of a tree without pointers. */
  function Bytes(t: Tree): seq<byte>
    requires Plain(t)
  {
    Front(t) + if t.Map? then BytesAll(t.entries) else if t.Array? then BytesAll(t.items) else []
  }

  function BytesAll(ts: seq<Tree>): seq<byte>
    requires PlainAll(ts)
  {
    if ts == [] then [] else Bytes(ts[0]) + BytesAll(ts[1..])
  }

  lemma {:induction false} BytesAreLaid(db: seq<byte>, base: nat, offset: nat, t: Tree)
    requires Plain(t) && Reads(db, offset, Bytes(t))
    ensures Laid(db, base, offset, t) && |Bytes(t)| == Size(t)
    decreases t
  {
    hide Front, Reads, Laid, Size, Bytes, Expressible;
    BytesOfParts(t);
    if t.Map? || t.Array? {
      var ts := if t.Map? then t.entries else t.items;
      ReadsPart(db, offset, Front(t), BytesAll(ts));
      BytesAllAreLaid(db, base, offset + |Front(t)|, ts);
      ContainerIsLaid(db, base, offset, t);
    } else {
      ScalarIsLaid(db, base, offset, t);
    }
  }

  lemma BytesOfParts(t: Tree)
    requires Plain(t)
    ensures t.Map? || t.Array? ==> Bytes(t) == Front(t) + BytesAll(if t.Map? then t.entries else t.items)
    ensures !t.Map? && !t.Array? ==> Bytes(t) == Front(t) + []
  {
    hide Front;
  }

  lemma ContainerIsLaid(db: seq<byte>, base: nat, offset: nat, t: Tree)
    requires Expressible(t) && (t.Map? || t.Array?) && Reads(db, offset, Front(t))
    requires LaidAll(db, base, offset + |Front(t)|, if t.Map? then t.entries else t.items)
    ensures Laid(db, base, offset, t) && Size(t) == |Front(t)| + SizeAll(if t.Map? then t.entries else t.items)
  {
    hide Front, Reads, LaidAll, SizeAll;
  }

  lemma ScalarIsLaid(db: seq<byte>, base: nat, offset: nat, t: Tree)
    requires Expressible(t) && !t.Pointer? && !t.Map? && !t.Array? && Reads(db, offset, Front(t) + [])
    ensures Laid(db, base, offset, t) && |Front(t) + []| == Size(t)
  {
    hide Front, Reads, Expressible;
    assert Front(t) + [] == Front(t);
  }

  lemma {:induction false} BytesAllAreLaid(db: seq<byte>, base: nat, offset: nat, ts: seq<Tree>)
    requires PlainAll(ts) && Reads(db, offset, BytesAll(ts))
    ensures LaidAll(db, base, offset, ts) && |BytesAll(ts)| == SizeAll(ts)
    decreases ts
  {
    hide Front, Reads, Laid, Size, Bytes, Plain;
    if ts != [] {
      ReadsPart(db, offset, Bytes(ts[0]), BytesAll(ts[1..]));
      BytesAreLaid(db, base, offset, ts[0]);
      BytesAllAreLaid(db, base, offset + Size(ts[0]), ts[1..]);
    }
  }

  lemma {:induction false} InlineMeansTheSame(db: seq<byte>, base: nat, offset: nat, t: Tree)
    requires Laid(db, base, offset, t)
    ensures Plain(Inline(t)) && ValueOf(Inline(t)) == ValueOf(t) && Height(Inline(t)) <= Height(t)
    decreases t
  {
    hide Front, Reads, Dict, PairUp;
    match t
    case Pointer(_, target, to) => InlineMeansTheSame(db, base, target, to);
    case Map(entries) => InlineAllMeansTheSame(db, base, offset + |Front(t)|, entries);
    case Array(items) => InlineAllMeansTheSame(db, base, offset + |Front(t)|, items);
    case _ =>
  }

  lemma {:induction false} InlineAllMeansTheSame(db: seq<byte>, base: nat, offset: nat, ts: seq<Tree>)
    requires LaidAll(db, base, offset, ts)
    ensures PlainAll(InlineAll(ts)) && ValuesOf(InlineAll(ts)) == ValuesOf(ts) && HeightAll(InlineAll(ts)) <= HeightAll(ts)
    decreases ts
  {
    hide Laid, Plain, ValueOf, Height, Inline;
    if ts != [] {
      InlineMeansTheSame(db, base, offset, ts[0]);
      InlineAllMeansTheSame(db, base, offset + Size(ts[0]), ts[1..]);
    }
  }

  /** Replacing subvalues by pointers to them changes nothing: a tree laid out with pointers decodes to the same value
      as its pointer-free copy in a file of its own. */
  lemma PointersAreTransparent(db: seq<byte>, base: nat, offset: nat, t: Tree, depth: nat)
    requires Laid(db, base, offset, t) && depth >= Height(t)
    ensures Plain(Inline(t))
    ensures var here := Decode(db, offset, base, depth);
            var copy := Decode(Bytes(Inline(t)), 0, 0, depth);
            here.Ok? && copy.Ok? && here.value.0 == copy.value.0
  {
    hide Decode, Laid, Inline, Bytes, Plain, Height, Size, ValueOf;
    InlineMeansTheSame(db, base, offset, t);
    DecodeLaid(db, base, offset, t, depth);
    var copy := Bytes(Inline(t));
    BytesAreLaid(copy, 0, 0, Inline(t));
    DecodeLaid(copy, 0, 0, Inline(t), depth);
  }

  // ----- Every value round trips -----

  /** The shortest big-endian bytes of `n` */
  function MinBytes(n: nat): (r: seq<byte>)
    ensures BigEndian(r) == n
  {
    if n == 0 then [] else
    var r := MinBytes(n / 256) + [n % 256];
    assert r[..|r| - 1] == MinBytes(n / 256);
    r
  }

  lemma {:induction false} MinBytesLength(n: nat, k: nat)
    requires n < Pow256(k)
    ensures |MinBytes(n)| <= k
  {
    if n > 0 {
      MinBytesLength(n / 256, k - 1);
    }
  }

  predicate UniqueKeys(entries: seq<Entry>) {
    forall i, j :: 0 <= i < j < |entries| ==> entries[i].key != entries[j].key
  }

  /** Values a file can hold: bounded sizes, well-formed strings, 32-bit negative and 128-bit natural numbers, no key twice. */
  predicate Encodable(v: Value) {
    match v
    case VString(bytes) => |bytes| < MAX_SIZE && IsUtf8(bytes)
    case VBytes(bytes) => |bytes| < MAX_SIZE
    case VDouble(bytes) => |bytes| == 8
    case VFloat(bytes) => |bytes| == 4
    case VInt(n) => -0x8000_0000 <= n < Pow256(16)
    case VBool(_) => true
    case VMap(entries) => |entries| < MAX_SIZE && UniqueKeys(entries) && AllEntriesEncodable(entries)
    case VArray(items) => |items| < MAX_SIZE && AllEncodable(items)
  }

  predicate AllEncodable(vs: seq<Value>) {
    vs == [] || (Encodable(vs[0]) && AllEncodable(vs[1..]))
  }

  predicate AllEntriesEncodable(entries: seq<Entry>) {
    entries == [] || (|entries[0].key| < MAX_SIZE && IsUtf8(entries[0].key) && Encodable(entries[0].value) && AllEntriesEncodable(entries[1..]))
  }

  function IntTree(n: int): Tree
    requires -0x8000_0000 <= n < Pow256(16)
  {
    if n < 0 then Scalar(INT32, ToBytes(n + 0x1_0000_0000, 4)) else
    var bytes := MinBytes(n);
    Scalar(if |bytes| <= 2 then UINT16 else if |bytes| <= 4 then UINT32 else if |bytes| <= 8 then UINT64 else UINT128, bytes)
  }

  /** How a writer without pointers stores a value. */
  function TreeOf(v: Value): Tree
    requires Encodable(v)
  {
    match v
    case VString(bytes) => Scalar(STRING, bytes)
    case VBytes(bytes) => Scalar(BYTES, bytes)
    case VDouble(bytes) => Double(bytes)
    case VFloat(bytes) => Float(bytes)
    case VInt(n) => IntTree(n)
    case VBool(b) => Boolean(b)
    case VMap(entries) => Map(EntryTrees(entries))
    case VArray(items) => Array(TreesOf(items))
  }

  function TreesOf(vs: seq<Value>): (r: seq<Tree>)
    requires AllEncodable(vs)
    ensures |r| == |vs|
  {
    if vs == [] then [] else [TreeOf(vs[0])] + TreesOf(vs[1..])
  }

  function EntryTrees(entries: seq<Entry>): (r: seq<Tree>)
    requires AllEntriesEncodable(entries)
    ensures |r| == 2 * |entries|
  {
    if entries == [] then [] else [Scalar(STRING, entries[0].key), TreeOf(entries[0].value)] + EntryTrees(entries[1..])
  }

  /** The two's complement of a negative 32-bit number reads back as that number. */
  lemma SignedOfToBytes(n: int)
    requires -0x8000_0000 <= n < 0
    ensures Signed(ToBytes(n + 0x1_0000_0000, 4)) == n
  {
    var u := n + 0x1_0000_0000;
    assert Pow256(4) == 0x1_0000_0000;
    BigEndianOfToBytes(u, 4);
    var b := ToBytes(u, 4);
    assert ToBytes(u / 256 / 256 / 256, 1) == [u / 256 / 256 / 256];
    assert b[0] == ToBytes(u / 256, 3)[0] == ToBytes(u / 256 / 256, 2)[0] == ToBytes(u / 256 / 256 / 256, 1)[0];
  }

  lemma IntTreeIsPlain(n: int)
    requires -0x8000_0000 <= n < Pow256(16)
    ensures Plain(IntTree(n)) && ValueOf(IntTree(n)) == VInt(n)
  {
    hide Pow256, Signed, BigEndian, Front;
    if n < 0 {
      SignedOfToBytes(n);
    } else {
      MinBytesLength(n, 16);
    }
  }

  function AsPairs(entries: seq<Entry>): seq<(Value, Value)> {
    seq(|entries|, i requires 0 <= i < |entries| => (VString(entries[i].key), entries[i].value))
  }

  lemma {:induction false} DictSetNew(d: seq<Entry>, key: seq<byte>, v: Value)
    requires forall i :: 0 <= i < |d| ==> d[i].key != key
    ensures DictSet(d, key, v) == d + [Entry(key, v)]
  {
    if d != [] {
      DictSetNew(d[1..], key, v);
    }
  }

  lemma {:induction false} DictOfUnique(entries: seq<Entry>)
    requires UniqueKeys(entries)
    ensures Dict(AsPairs(entries)) == entries
  {
    if entries != [] {
      var n := |entries| - 1;
      assert AsPairs(entries)[..n] == AsPairs(entries[..n]);
      DictOfUnique(entries[..n]);
      DictSetNew(entries[..n], entries[n].key, entries[n].value);
      assert entries == entries[..n] + [entries[n]];
    }
  }

  function LookUp(d: seq<Entry>, key: seq<byte>): Option<Value> {
    if d == [] then None else if d[0].key == key then Some(d[0].value) else LookUp(d[1..], key)
  }

  function LastValue(pairs: seq<(Value, Value)>, key: seq<byte>): Option<Value> {
    if pairs == [] then None else
    var last := pairs[|pairs| - 1];
    if last.0 == VString(key) then Some(last.1) else LastValue(pairs[..|pairs| - 1], key)
  }

  lemma {:induction false} LookUpAfterSet(d: seq<Entry>, k: seq<byte>, v: Value, key: seq<byte>)
    ensures LookUp(DictSet(d, k, v), key) == if k == key then Some(v) else LookUp(d, key)
  {
    if d != [] && d[0].key != k {
      LookUpAfterSet(d[1..], k, v, key);
    }
  }

  /** A decoded dictionary answers with the last value stored under a key that is a string. */
  lemma {:induction false} DictKeepsLast(pairs: seq<(Value, Value)>, key: seq<byte>)
    ensures LookUp(Dict(pairs), key) == LastValue(pairs, key)
  {
    if pairs != [] {
      var (k, v) := pairs[|pairs| - 1];
      var before := pairs[..|pairs| - 1];
      DictKeepsLast(before, key);
      if k.VString? {
        LookUpAfterSet(Dict(before), k.bytes, v, key);
      }
    }
  }

  lemma {:induction false} TreeOfValue(v: Value)
    requires Encodable(v)
    ensures Plain(TreeOf(v)) && ValueOf(TreeOf(v)) == v
    decreases v
  {
    hide Dict, PairUp, UniqueKeys, Pow256;
    match v
    case VInt(n) => IntTreeIsPlain(n);
    case VMap(entries) =>
      EntryTreesOfEntries(entries);
      DictOfUnique(entries);
    case VArray(items) => TreesOfValues(items);
    case _ =>
  }

  lemma {:induction false} TreesOfValues(vs: seq<Value>)
    requires AllEncodable(vs)
    ensures PlainAll(TreesOf(vs)) && ValuesOf(TreesOf(vs)) == vs
    decreases vs
  {
    hide Plain, ValueOf, TreeOf, Encodable;
    if vs != [] {
      TreeOfValue(vs[0]);
      TreesOfValues(vs[1..]);
      assert TreesOf(vs)[1..] == TreesOf(vs[1..]);
    }
  }

  lemma {:induction false} EntryTreesOfEntries(entries: seq<Entry>)
    requires AllEntriesEncodable(entries)
    ensures PlainAll(EntryTrees(entries)) && PairUp(ValuesOf(EntryTrees(entries))) == AsPairs(entries)
    decreases entries
  {
    if entries != [] {
      var Entry(key, v) := entries[0];
      var rest := EntryTrees(entries[1..]);
      TreeOfValue(v);
      EntryTreesOfEntries(entries[1..]);
      EntryStep(key, TreeOf(v), rest);
      assert AsPairs(entries) == [(VString(key), v)] + AsPairs(entries[1..]);
    }
  }

  lemma EntryStep(key: seq<byte>, t: Tree, rest: seq<Tree>)
    requires |key| < MAX_SIZE && IsUtf8(key) && Plain(t) && PlainAll(rest)
    ensures PlainAll([Scalar(STRING, key), t] + rest)
    ensures PairUp(ValuesOf([Scalar(STRING, key), t] + rest)) == [(VString(key), ValueOf(t))] + PairUp(ValuesOf(rest))
  {
    hide IsUtf8;
    var all := [Scalar(STRING, key), t] + rest;
    assert Plain(Scalar(STRING, key));
    assert all[1..] == [t] + rest && all[1..][1..] == rest;
    assert ValuesOf(all) == [VString(key), ValueOf(t)] + ValuesOf(rest);
    assert ValuesOf(all)[2..] == ValuesOf(rest);
  }

  /** Every encodable value, stored anywhere in a file, is decoded to itself together with the offset behind it. */
  lemma RoundTrip(before: seq<byte>, v: Value, after: seq<byte>, base: nat, depth: nat)
    requires Encodable(v) && depth >= Height(TreeOf(v))
    ensures Plain(TreeOf(v))
    ensures var bytes := Bytes(TreeOf(v));
            Decode(before + bytes + after, |before|, base, depth) == Ok((v, |before| + |bytes|))
  {
    hide Decode, Laid, TreeOf, Bytes, Plain, Height, Size, ValueOf, Encodable;
    TreeOfValue(v);
    var bytes := Bytes(TreeOf(v));
    var db := before + bytes + after;
    assert db[|before|..|before| + |bytes|] == bytes;
    BytesAreLaid(db, base, |before|, TreeOf(v));
    DecodeLaid(db, base, |before|, TreeOf(v), depth);
  }

  // ----- The recursion limit -----

  /** A larger limit never changes a result other than the recursion error itself. */
  lemma {:induction false} DepthIrrelevant(db: seq<byte>, offset: nat, base: nat, d: nat, d': nat)
    requires d <= d' && Decode(db, offset, base, d) != Err(RecursionError)
    ensures Decode(db, offset, base, d') == Decode(db, offset, base, d)
    decreases d, 0
  {
    hide DecodeHead, DecodePointer, DecodeSize, DecodeScalar, DecodeItems, DecodePairs, Dict;
    match DecodeHead(db, offset)
    case Err(_) =>
    case Ok((control, code, next)) =>
      if code == TYPE_POINTER {
        match DecodePointer(db, control, next)
        case Err(_) =>
        case Ok((pointer, _)) => DepthIrrelevant(db, base + pointer, base, d - 1, d' - 1);
      } else {
        match DecodeSize(db, control % 32, next)
        case Err(_) =>
        case Ok((size, start)) =>
          if code == MAP {
            DepthIrrelevantPairs(db, start, base, d - 1, d' - 1, size);
          } else if code == ARRAY {
            DepthIrrelevantItems(db, start, base, d - 1, d' - 1, size);
          }
      }
  }

  lemma {:induction false} DepthIrrelevantItems(db: seq<byte>, offset: nat, base: nat, d: nat, d': nat, count: nat)
    requires d <= d' && DecodeItems(db, offset, base, d, count) != Err(RecursionError)
    ensures DecodeItems(db, offset, base, d', count) == DecodeItems(db, offset, base, d, count)
    decreases d, count + 1
  {
    hide Decode;
    if count > 0 {
      DepthIrrelevant(db, offset, base, d, d');
      match Decode(db, offset, base, d)
      case Err(_) =>
      case Ok((_, next)) => DepthIrrelevantItems(db, next, base, d, d', count - 1);
    }
  }

  lemma {:induction false} DepthIrrelevantPairs(db: seq<byte>, offset: nat, base: nat, d: nat, d': nat, count: nat)
    requires d <= d' && DecodePairs(db, offset, base, d, count) != Err(RecursionError)
    ensures DecodePairs(db, offset, base, d', count) == DecodePairs(db, offset, base, d, count)
    decreases d, count + 1
  {
    hide Decode;
    if count > 0 {
      DepthIrrelevant(db, offset, base, d, d');
      match Decode(db, offset, base, d)
      case Err(_) =>
      case Ok((_, middle)) =>
        DepthIrrelevant(db, middle, base, d, d');
        match Decode(db, middle, base, d)
        case Err(_) =>
        case Ok((_, next)) => DepthIrrelevantPairs(db, next, base, d, d', count - 1);
    }
  }
}
