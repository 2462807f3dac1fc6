/**
 * The viewer: a file opened by its metadata, decoded and searched by loops.
 */
module MmdbViewer {
  import opened Prelude
  import opened ByteNumbers
  import opened MmdbDecoder
  import opened MmdbLayout
  import opened MmdbTrie

  // ----- The metadata marker -----

  function Marker(): seq<byte> {
    [0xab, 0xcd, 0xef, 77, 97, 120, 77, 105, 110, 100, 46, 99, 111, 109]
  }

  predicate MarkerAt(db: seq<byte>, i: nat) {
    Reads(db, i, Marker())
  }

  /** An address as `inet_pton` delivers it. */
  datatype Address = IPv4(bytes: seq<byte>) | IPv6(bytes: seq<byte>)

  predicate ValidAddress(a: Address) {
    |a.bytes| == if a.IPv4? then 4 else 16
  }

  /** Bit `i` of the address, counted from the top: `(bytes[i // 8] >> (7 - i % 8)) & 1`. */
  function BitAt(bytes: seq<byte>, i: nat): bool
    requires i < 8 * |bytes|
  {
    bytes[i / 8] / [128, 64, 32, 16, 8, 4, 2, 1][i % 8] % 2 == 1
  }

  function Bits(bytes: seq<byte>): (r: seq<bool>)
    ensures |r| == 8 * |bytes|
  {
    seq(8 * |bytes|, i requires 0 <= i < 8 * |bytes| => BitAt(bytes, i))
  }

  /** The record the walk reaches, reading each node from the file. */
  function WalkFile(db: seq<byte>, recordSize: nat, nodeCount: nat, node: nat, bits: seq<bool>): Result<Option<nat>, Error>
    decreases bits
  {
    if bits == [] then Ok(None) else
    match ReadNode(db, recordSize, node)
    case Err(e) => Err(e)
    case Ok(records) =>
      var record := Child(records, bits[0]);
      if record < nodeCount then WalkFile(db, recordSize, nodeCount, record, bits[1..]) else Ok(Some(record))
  }

  lemma {:induction false} WalkFileIsWalk(db: seq<byte>, recordSize: nat, nodes: seq<(nat, nat)>, node: nat, bits: seq<bool>)
    requires AllFit(recordSize, nodes) && node < |nodes|
    requires Reads(db, 0, PackTree(recordSize, nodes)) && |PackTree(recordSize, nodes)| < |db|
    ensures WalkFile(db, recordSize, |nodes|, node, bits) == Ok(Walk(nodes, node, bits))
    decreases bits
  {
    if bits != [] {
      ReadPackedTree(db, recordSize, nodes, node);
      var record := Child(nodes[node], bits[0]);
      if record < |nodes| {
        WalkFileIsWalk(db, recordSize, nodes, record, bits[1..]);
      }
    }
  }

  class Viewer {
    const db: seq<byte>
    const nodeCount: nat
    const recordSize: nat
    const ipVersion: nat
    const depth: nat  // how many nested calls the interpreter allows

    constructor (db: seq<byte>, nodeCount: nat, recordSize: nat, ipVersion: nat, depth: nat)
      ensures this.db == db && this.nodeCount == nodeCount && this.recordSize == recordSize
      ensures this.ipVersion == ipVersion && this.depth == depth
    {
      this.db, this.nodeCount, this.recordSize, this.ipVersion, this.depth := db, nodeCount, recordSize, ipVersion, depth;
    }

    /** `_find_metadata_marker`: the offset behind the last marker in the file. */
    method FindMetadataMarker() returns (r: Result<nat, Error>)
      ensures r == Err(NoMarker) <==> forall i: nat :: !MarkerAt(db, i)
      ensures r.Ok? ==> r.value >= |Marker()| && MarkerAt(db, r.value - |Marker()|)
                        && forall i: nat :: MarkerAt(db, i) ==> i + |Marker()| <= r.value
      ensures r.Err? ==> r.error == NoMarker
    {
      var pos := |db|;
      while pos > 0
        invariant pos <= |db|
        invariant forall i: nat :: MarkerAt(db, i) ==> i < pos
      {
        pos := pos - 1;
        if MarkerAt(db, pos) {
          return Ok(pos + |Marker()|);
        }
      }
      r := Err(NoMarker);
    }

    /** `_decode`: the loops advance the offset past one element after the other. */
    method Decode(offset: nat, base: nat, depth: nat) returns (r: Decoded<Value>)
      ensures r == MmdbDecoder.Decode(db, offset, base, depth)
      decreases depth, 0
    {
      if depth == 0 {
        return Err(RecursionError);
      }
      var head := DecodeHead(db, offset);
      if head.Err? {
        return Err(head.error);
      }
      var (control, code, next) := head.value;
      if code == TYPE_POINTER {
        var pointer := DecodePointer(db, control, next);
        if pointer.Err? {
          return Err(pointer.error);
        }
        var pointed := Decode(base + pointer.value.0, base, depth - 1);
        return match pointed case Err(e) => Err(e) case Ok((value, _)) => Ok((value, pointer.value.1));
      }
      var size := DecodeSize(db, control % 32, next);
      if size.Err? {
        return Err(size.error);
      }
      var (count, start) := size.value;
      if code == MAP {
        r := DecodeMap(start, base, depth - 1, count);
      } else if code == ARRAY {
        r := DecodeArray(start, base, depth - 1, count);
      } else {
        r := DecodeScalar(db, code, control % 32, count, start);
      }
    }

    /** The branch of `_decode` for maps. */
    method DecodeMap(start: nat, base: nat, depth: nat, count: nat) returns (r: Decoded<Value>)
      ensures r == match DecodePairs(db, start, base, depth, count)
                   case Err(e) => Err(e)
                   case Ok((pairs, end)) => Ok((VMap(Dict(pairs)), end))
      decreases depth, 1
    {
      hide MmdbDecoder.Decode, DictSet;
      var offset := start;
      var dict: seq<Entry> := [];
      ghost var done: seq<(Value, Value)> := [];
      PrependNothing(DecodePairs(db, start, base, depth, count));
      for i := 0 to count
        invariant dict == Dict(done)
        invariant DecodePairs(db, start, base, depth, count) == Prepend(done, DecodePairs(db, offset, base, depth, count - i))
      {
        var key := Decode(offset, base, depth);
        if key.Err? {
          return Err(key.error);
        }
        var value := Decode(key.value.1, base, depth);
        if value.Err? {
          return Err(value.error);
        }
        offset := value.value.1;
        if key.value.0.VString? {
          dict := DictSet(dict, key.value.0.bytes, value.value.0);
        }
        ghost var pair := (key.value.0, value.value.0);
        assert (done + [pair])[..|done|] == done;
        PrependTwice(done, pair, DecodePairs(db, offset, base, depth, count - i - 1));
        done := done + [pair];
      }
      assert done + [] == done;
      r := Ok((VMap(dict), offset));
    }

    /** The branch of `_decode` for arrays. */
    method DecodeArray(start: nat, base: nat, depth: nat, count: nat) returns (r: Decoded<Value>)
      ensures r == match DecodeItems(db, start, base, depth, count)
                   case Err(e) => Err(e)
                   case Ok((items, end)) => Ok((VArray(items), end))
      decreases depth, 1
    {
      hide MmdbDecoder.Decode, DecodeItems;
      var offset := start;
      var items: seq<Value> := [];
      PrependNothing(DecodeItems(db, start, base, depth, count));
      for i := 0 to count
        invariant DecodeItems(db, start, base, depth, count) == Prepend(items, DecodeItems(db, offset, base, depth, count - i))
      {
        ItemsStep(offset, base, depth, count - i);
        var item := Decode(offset, base, depth);
        if item.Err? {
          return Err(item.error);
        }
        offset := item.value.1;
        PrependTwice(items, item.value.0, DecodeItems(db, offset, base, depth, count - i - 1));
        items := items + [item.value.0];
      }
      assert items + [] == items && DecodeItems(db, offset, base, depth, 0) == Ok(([], offset)) by {
        NoItems(offset, base, depth);
      }
      r := Ok((VArray(items), offset));
    }

    lemma NoItems(offset: nat, base: nat, depth: nat)
      ensures DecodeItems(db, offset, base, depth, 0) == Ok(([], offset))
    {
    }

    lemma ItemsStep(offset: nat, base: nat, depth: nat, count: nat)
      requires count > 0
      ensures DecodeItems(db, offset, base, depth, count)
              == match MmdbDecoder.Decode(db, offset, base, depth)
                 case Err(e) => Err(e)
                 case Ok((item, next)) => Prepend([item], DecodeItems(db, next, base, depth, count - 1))
    {
      hide MmdbDecoder.Decode;
    }

    function SearchTreeSize(): nat {
      NodeBytes(recordSize) * nodeCount
    }

    /** The bytes of the address that the search tree expects: an IPv4 address in an IPv6 tree gets 96 zero bits in front. */
    function SearchBytes(address: Address): seq<byte> {
      if address.IPv4? && ipVersion == 6 then [0, 0, 0, 0, 0, 0, 0, 0, 0, 0, 0, 0] + address.bytes else address.bytes
    }

    /** What a record that is not a node stands for: nothing, or a value in the data section. */
    function RecordValue(record: nat): Result<Option<Value>, Error>
      requires record >= nodeCount
    {
      if record == nodeCount then Ok(None) else
      match MmdbDecoder.Decode(db, SearchTreeSize() + (record - nodeCount), SearchTreeSize() + 16, depth)
      case Err(e) => Err(e)
      case Ok((value, _)) => Ok(Some(value))
    }

    /** What `lookup` answers. */
    function LookupSpec(address: Address): Result<Option<Value>, Error> {
      if address.IPv6? && ipVersion == 4 then Err(WrongFamily) else
      match WalkFile(db, recordSize, nodeCount, 0, Bits(SearchBytes(address)))
      case Err(e) => Err(e)
      case Ok(None) => Ok(None)
      case Ok(Some(record)) => if record >= nodeCount then RecordValue(record) else Ok(None)
    }

    /** The value in the data section that a record stands for. */
    method DecodeRecord(record: nat) returns (r: Result<Option<Value>, Error>)
      requires record > nodeCount
      ensures r == RecordValue(record)
    {
      hide MmdbDecoder.Decode;
      var value := Decode(SearchTreeSize() + (record - nodeCount), SearchTreeSize() + 16, depth);
      r := match value case Err(e) => Err(e) case Ok((v, _)) => Ok(Some(v));
    }

    /** `lookup`, for an address that `inet_pton` accepts */
    method Lookup(address: Address) returns (r: Result<Option<Value>, Error>)
      requires ValidAddress(address)
      ensures r == LookupSpec(address)
    {
      if address.IPv6? && ipVersion == 4 {
        return Err(WrongFamily);
      }
      hide ReadNode, BitAt, Bits, WalkFile, MmdbDecoder.Decode, SearchBytes, SearchTreeSize;
      var bytes := SearchBytes(address);
      ghost var bits := Bits(bytes);
      var node: nat := 0;
      assert bits[0..] == bits;
      for i := 0 to 8 * |bytes|
        invariant WalkFile(db, recordSize, nodeCount, 0, bits) == WalkFile(db, recordSize, nodeCount, node, bits[i..])
      {
        WalkStep(bytes, node, i);
        var records := ReadNode(db, recordSize, node);
        if records.Err? {
          return Err(records.error);
        }
        var record := if BitAt(bytes, i) then records.value.1 else records.value.0;
        if record < nodeCount {
          node := record;
        } else if record == nodeCount {
          return Ok(None);
        } else {
          r := DecodeRecord(record);
          return;
        }
      }
      WalkEnds(bytes, node);
      r := Ok(None);
    }

    lemma WalkStep(bytes: seq<byte>, node: nat, i: nat)
      requires i < 8 * |bytes|
      ensures WalkFile(db, recordSize, nodeCount, node, Bits(bytes)[i..])
              == match ReadNode(db, recordSize, node)
                 case Err(e) => Err(e)
                 case Ok(records) =>
                   var record := if BitAt(bytes, i) then records.1 else records.0;
                   if record < nodeCount then WalkFile(db, recordSize, nodeCount, record, Bits(bytes)[i + 1..]) else Ok(Some(record))
    {
      hide ReadNode, BitAt;
      var bits := Bits(bytes);
      assert bits[i..][0] == BitAt(bytes, i) && bits[i..][1..] == bits[i + 1..];
    }

    lemma WalkEnds(bytes: seq<byte>, node: nat)
      ensures WalkFile(db, recordSize, nodeCount, node, Bits(bytes)[8 * |bytes|..]) == Ok(None)
    {
    }

    /** Lookup agrees with a linear scan: in a file that starts with a packed search tree, the answer is the value of the
        one leaf whose prefix starts the address, and nothing if no leaf's does. */
    lemma LookupIsScan(nodes: seq<(nat, nat)>, address: Address)
      requires ValidAddress(address) && (address.IPv6? ==> ipVersion != 4)
      requires AllFit(recordSize, nodes) && nodes != [] && nodeCount == |nodes|
      requires Reads(db, 0, PackTree(recordSize, nodes)) && |PackTree(recordSize, nodes)| < |db|
      ensures var bits := Bits(SearchBytes(address));
              var leaves := Leaves(nodes, 0, |bits|);
              && Disjoint(leaves)
              && (forall i :: 0 <= i < |leaves| && leaves[i].prefix <= bits
                    ==> leaves[i].record >= nodeCount && LookupSpec(address) == RecordValue(leaves[i].record))
              && ((forall i :: 0 <= i < |leaves| ==> !(leaves[i].prefix <= bits)) ==> LookupSpec(address) == Ok(None))
    {
      var bits := Bits(SearchBytes(address));
      var leaves := Leaves(nodes, 0, |bits|);
      WalkFileIsWalk(db, recordSize, nodes, 0, bits);
      LeavesDisjoint(nodes, 0, |bits|);
      WalkIsScan(nodes, 0, bits);
      ScanFinds(leaves, bits);
      WalkLeavesTheTree(nodes, 0, bits);
      forall i | 0 <= i < |leaves| && leaves[i].prefix <= bits
        ensures leaves[i].record >= nodeCount && LookupSpec(address) == RecordValue(leaves[i].record)
      {
        WalkFindsTheLeaf(nodes, bits, i);
      }
    }
  }

  /** A result with elements put in front of its sequence. */
  function Prepend<T>(done: seq<T>, rest: Decoded<seq<T>>): Decoded<seq<T>> {
    match rest
    case Err(e) => Err(e)
    case Ok((more, end)) => Ok((done + more, end))
  }

  lemma PrependNothing<T>(rest: Decoded<seq<T>>)
    ensures Prepend([], rest) == rest
  {
    if rest.Ok? {
      assert [] + rest.value.0 == rest.value.0;
    }
  }

  lemma PrependTwice<T>(done: seq<T>, x: T, rest: Decoded<seq<T>>)
    ensures Prepend(done, Prepend([x], rest)) == Prepend(done + [x], rest)
  {
    if rest.Ok? {
      assert done + ([x] + rest.value.0) == done + [x] + rest.value.0;
    }
  }

  lemma {:induction false} WalkLeavesTheTree(nodes: seq<(nat, nat)>, node: nat, bits: seq<bool>)
    requires node < |nodes|
    ensures Walk(nodes, node, bits).Some? ==> Walk(nodes, node, bits).value >= |nodes|
    decreases bits
  {
    if bits != [] && Child(nodes[node], bits[0]) < |nodes| {
      WalkLeavesTheTree(nodes, Child(nodes[node], bits[0]), bits[1..]);
    }
  }
}
