/**
 * The search tree of a MaxMind DB file: packed pairs of records, walked bit by bit.
 */
module MmdbTrie {
  import opened Prelude
  import opened ByteNumbers
  import opened MmdbDecoder
  import opened MmdbLayout

  // ----- Nodes -----

  function NodeBytes(recordSize: nat): nat {
    recordSize * 2 / 8
  }

  /** `_read_node` */
  function ReadNode(db: seq<byte>, recordSize: nat, node: nat): Result<(nat, nat), Error> {
    var offset := node * NodeBytes(recordSize);
    if recordSize == 24 then
      match Unpack(db, offset, 4)
      case Err(e) => Err(e)
      case Ok(l) =>
        match Unpack(db, offset + 3, 4)
        case Err(e) => Err(e)
        case Ok(r) => Ok((l / 256, r / 256))
    else if recordSize == 32 then
      if offset + 8 <= |db| then
        Ok((BigEndian(db[offset..offset + 4]), BigEndian(db[offset + 4..offset + 8])))
      else
        Err(StructError)
    else if recordSize == 28 then
      match Unpack(db, offset, 4)
      case Err(e) => Err(e)
      case Ok(l) =>
        match Unpack(db, offset + 4, 4)
        case Err(e) => Err(e)
        case Ok(r) =>
          match ByteAt(db, offset + 3)
          case Err(e) => Err(e)
          case Ok(middle) => Ok((middle / 16 * 0x100_0000 + l / 256, middle % 16 * 0x100_0000 + r / 256))
    else
      Err(UnsupportedRecordSize)
  }

  /** The record sizes of the format and the records they can hold. */
  predicate RecordFits(recordSize: nat, record: nat) {
    match recordSize
    case 24 => record < 0x100_0000
    case 28 => record < 0x1000_0000
    case 32 => record < 0x1_0000_0000
    case _ => false
  }

  /** How the format stores a node: for 28 bits, the byte in the middle holds the top halves of both records. */
  function PackNode(recordSize: nat, node: (nat, nat)): (r: seq<byte>)
    requires RecordFits(recordSize, node.0) && RecordFits(recordSize, node.1)
    ensures |r| == NodeBytes(recordSize)
  {
    var (left, right) := node;
    if recordSize == 24 then ToBytes(left, 3) + ToBytes(right, 3)
    else if recordSize == 28 then
      ToBytes(left % 0x100_0000, 3) + [left / 0x100_0000 * 16 + right / 0x100_0000] + ToBytes(right % 0x100_0000, 3)
    else ToBytes(left, 4) + ToBytes(right, 4)
  }

  lemma TopThree(bytes: seq<byte>)
    requires |bytes| == 4
    ensures BigEndian(bytes) / 256 == BigEndian(bytes[..3])
  {
  }

  lemma ReadsThree(db: seq<byte>, offset: nat, n: nat)
    requires n < 0x100_0000 && Reads(db, offset, ToBytes(n, 3)) && offset + 4 <= |db|
    ensures var r := Unpack(db, offset, 4);
            r.Ok? && r.value / 256 == n
  {
    assert Pow256(3) == 0x100_0000;
    BigEndianOfToBytes(n, 3);
    TopThree(db[offset..offset + 4]);
    assert db[offset..offset + 4][..3] == db[offset..offset + 3] == ToBytes(n, 3);
  }

  lemma ReadsFour(db: seq<byte>, offset: nat, n: nat)
    requires n < 0x1_0000_0000 && Reads(db, offset, ToBytes(n, 4))
    ensures BigEndian(db[offset..offset + 4]) == n
  {
    assert Pow256(4) == 0x1_0000_0000;
    BigEndianOfToBytes(n, 4);
  }

  lemma ReadPacked24(db: seq<byte>, node: nat, left: nat, right: nat)
    requires left < 0x100_0000 && right < 0x100_0000
    requires Reads(db, node * 6, ToBytes(left, 3) + ToBytes(right, 3)) && node * 6 + 6 < |db|
    ensures ReadNode(db, 24, node) == Ok((left, right))
  {
    hide ToBytes, BigEndian, Reads;
    ReadsPart(db, node * 6, ToBytes(left, 3), ToBytes(right, 3));
    ReadsThree(db, node * 6, left);
    ReadsThree(db, node * 6 + 3, right);
  }

  lemma ReadPacked28(db: seq<byte>, node: nat, left: nat, right: nat)
    requires left < 0x1000_0000 && right < 0x1000_0000
    requires Reads(db, node * 7, PackNode(28, (left, right))) && node * 7 + 7 < |db|
    ensures ReadNode(db, 28, node) == Ok((left, right))
  {
    hide ToBytes, BigEndian;
    var offset := node * 7;
    var middle := left / 0x100_0000 * 16 + right / 0x100_0000;
    var low, high := ToBytes(left % 0x100_0000, 3), ToBytes(right % 0x100_0000, 3);
    ReadsPart(db, offset, low + [middle], high);
    ReadsPart(db, offset, low, [middle]);
    ReadsAt(db, offset + 3, [middle], 0);
    ReadsThree(db, offset, left % 0x100_0000);
    ReadsThree(db, offset + 4, right % 0x100_0000);
  }

  lemma ReadPacked32(db: seq<byte>, node: nat, left: nat, right: nat)
    requires left < 0x1_0000_0000 && right < 0x1_0000_0000
    requires Reads(db, node * 8, ToBytes(left, 4) + ToBytes(right, 4))
    ensures ReadNode(db, 32, node) == Ok((left, right))
  {
    hide ToBytes, BigEndian;
    ReadsPart(db, node * 8, ToBytes(left, 4), ToBytes(right, 4));
    ReadsFour(db, node * 8, left);
    ReadsFour(db, node * 8 + 4, right);
  }

  /** Reading inverts packing, for each record size; the narrow sizes read one byte past the node. */
  lemma ReadPackedNode(db: seq<byte>, recordSize: nat, node: nat, records: (nat, nat))
    requires RecordFits(recordSize, records.0) && RecordFits(recordSize, records.1)
    requires Reads(db, node * NodeBytes(recordSize), PackNode(recordSize, records))
    requires node * NodeBytes(recordSize) + NodeBytes(recordSize) < |db|
    ensures ReadNode(db, recordSize, node) == Ok(records)
  {
    hide ReadNode, Reads, ToBytes;
    if recordSize == 24 {
      ReadPacked24(db, node, records.0, records.1);
    } else if recordSize == 28 {
      ReadPacked28(db, node, records.0, records.1);
    } else {
      ReadPacked32(db, node, records.0, records.1);
    }
  }

  predicate AllFit(recordSize: nat, nodes: seq<(nat, nat)>) {
    forall i :: 0 <= i < |nodes| ==> RecordFits(recordSize, nodes[i].0) && RecordFits(recordSize, nodes[i].1)
  }

  /** The search tree section. */
  function PackTree(recordSize: nat, nodes: seq<(nat, nat)>): seq<byte>
    requires AllFit(recordSize, nodes)
  {
    if nodes == [] then [] else
    var last := |nodes| - 1;
    PackTree(recordSize, nodes[..last]) + PackNode(recordSize, nodes[last])
  }

  lemma {:induction false} ReadPackedTree(db: seq<byte>, recordSize: nat, nodes: seq<(nat, nat)>, i: nat)
    requires AllFit(recordSize, nodes) && i < |nodes|
    requires Reads(db, 0, PackTree(recordSize, nodes)) && |PackTree(recordSize, nodes)| < |db|
    ensures ReadNode(db, recordSize, i) == Ok(nodes[i])
  {
    var last := |nodes| - 1;
    var front := PackTree(recordSize, nodes[..last]);
    ReadsPart(db, 0, front, PackNode(recordSize, nodes[last]));
    PackTreeLength(recordSize, nodes[..last]);
    if i == last {
      ReadPackedNode(db, recordSize, i, nodes[i]);
    } else {
      ReadPackedTree(db, recordSize, nodes[..last], i);
    }
  }

  lemma {:induction false} PackTreeLength(recordSize: nat, nodes: seq<(nat, nat)>)
    requires AllFit(recordSize, nodes)
    ensures |PackTree(recordSize, nodes)| == |nodes| * NodeBytes(recordSize)
  {
    hide PackNode, NodeBytes;
    if nodes != [] {
      var n, k := |nodes|, NodeBytes(recordSize);
      PackTreeLength(recordSize, nodes[..n - 1]);
      assert n * k == (n - 1) * k + k;
    }
  }

  // ----- The walk and the leaves -----

  function Child(node: (nat, nat), bit: bool): nat {
    if bit then node.1 else node.0
  }

  /** The first record met on the way down that is not a node; None when the bits run out. */
  function Walk(nodes: seq<(nat, nat)>, node: nat, bits: seq<bool>): Option<nat>
    requires node < |nodes|
    decreases bits
  {
    if bits == [] then None else
    var record := Child(nodes[node], bits[0]);
    if record < |nodes| then Walk(nodes, record, bits[1..]) else Some(record)
  }

  datatype Leaf = Leaf(prefix: seq<bool>, record: nat)

  function Under(bit: bool, leaves: seq<Leaf>): (r: seq<Leaf>)
    ensures |r| == |leaves|
    ensures forall i :: 0 <= i < |r| ==> r[i] == Leaf([bit] + leaves[i].prefix, leaves[i].record)
  {
    seq(|leaves|, i requires 0 <= i < |leaves| => Leaf([bit] + leaves[i].prefix, leaves[i].record))
  }

  /** The leaves below one side of a node, no more than `height` levels down. */
  function Side(nodes: seq<(nat, nat)>, node: nat, bit: bool, height: nat): seq<Leaf>
    requires node < |nodes|
    decreases height, 2
  {
    var record := Child(nodes[node], bit);
    Under(bit, if record < |nodes| then Leaves(nodes, record, height) else [Leaf([], record)])
  }

  /** All the leaves below a node, in order of their prefixes. */
  function Leaves(nodes: seq<(nat, nat)>, node: nat, height: nat): seq<Leaf>
    requires node < |nodes|
    decreases height, 1
  {
    if height == 0 then [] else Side(nodes, node, false, height - 1) + Side(nodes, node, true, height - 1)
  }

  /** The linear scan: the record of the first leaf whose prefix starts the address. */
  function Scan(leaves: seq<Leaf>, bits: seq<bool>): Option<nat> {
    if leaves == [] then None
    else if leaves[0].prefix <= bits then Some(leaves[0].record)
    else Scan(leaves[1..], bits)
  }

  lemma {:induction false} ScanOfConcat(a: seq<Leaf>, b: seq<Leaf>, bits: seq<bool>)
    ensures Scan(a + b, bits) == if Scan(a, bits).Some? then Scan(a, bits) else Scan(b, bits)
  {
    if a == [] {
      assert a + b == b;
    } else {
      assert (a + b)[1..] == a[1..] + b;
      ScanOfConcat(a[1..], b, bits);
    }
  }

  lemma {:induction false} ScanUnder(bit: bool, leaves: seq<Leaf>, bits: seq<bool>)
    requires bits != []
    ensures Scan(Under(bit, leaves), bits) == if bits[0] == bit then Scan(leaves, bits[1..]) else None
  {
    if leaves != [] {
      var first := [bit] + leaves[0].prefix;
      assert first <= bits <==> bits[0] == bit && leaves[0].prefix <= bits[1..] by {
        assert bits == [bits[0]] + bits[1..];
      }
      assert Under(bit, leaves)[1..] == Under(bit, leaves[1..]);
      ScanUnder(bit, leaves[1..], bits);
    }
  }

  /** The walk finds what the linear scan over all the leaves finds. */
  lemma {:induction false} WalkIsScan(nodes: seq<(nat, nat)>, node: nat, bits: seq<bool>)
    requires node < |nodes|
    ensures Walk(nodes, node, bits) == Scan(Leaves(nodes, node, |bits|), bits)
    decreases bits, 1
  {
    if bits != [] {
      var h := |bits| - 1;
      ScanOfConcat(Side(nodes, node, false, h), Side(nodes, node, true, h), bits);
      SideIsScan(nodes, node, false, bits);
      SideIsScan(nodes, node, true, bits);
    }
  }

  lemma {:induction false} SideIsScan(nodes: seq<(nat, nat)>, node: nat, bit: bool, bits: seq<bool>)
    requires node < |nodes| && bits != []
    ensures Scan(Side(nodes, node, bit, |bits| - 1), bits) == if bits[0] == bit then Walk(nodes, node, bits) else None
    decreases bits, 0
  {
    hide Leaves, Under;
    var child := Child(nodes[node], bit);
    ScanUnder(bit, if child < |nodes| then Leaves(nodes, child, |bits| - 1) else [Leaf([], child)], bits);
    if child < |nodes| && bits[0] == bit {
      WalkIsScan(nodes, child, bits[1..]);
    }
  }

  /** No address lies under two leaves: of two leaves, neither prefix starts the other. */
  predicate Disjoint(leaves: seq<Leaf>) {
    forall i, j :: 0 <= i < |leaves| && 0 <= j < |leaves| && i != j ==> !(leaves[i].prefix <= leaves[j].prefix)
  }

  lemma PrefixUnder(bit: bool, a: seq<bool>, b: seq<bool>)
    ensures [bit] + a <= [bit] + b <==> a <= b
  {
    assert ([bit] + b)[1..] == b && ([bit] + a)[1..] == a;
  }

  lemma UnderDisjoint(bit: bool, leaves: seq<Leaf>)
    requires Disjoint(leaves)
    ensures Disjoint(Under(bit, leaves))
  {
    var under := Under(bit, leaves);
    forall i, j | 0 <= i < |under| && 0 <= j < |under| && i != j ensures !(under[i].prefix <= under[j].prefix) {
      PrefixUnder(bit, leaves[i].prefix, leaves[j].prefix);
    }
  }

  predicate AllUnder(bit: bool, leaves: seq<Leaf>) {
    forall i :: 0 <= i < |leaves| ==> leaves[i].prefix != [] && leaves[i].prefix[0] == bit
  }

  lemma DisjointSides(a: seq<Leaf>, b: seq<Leaf>)
    requires Disjoint(a) && Disjoint(b) && AllUnder(false, a) && AllUnder(true, b)
    ensures Disjoint(a + b)
  {
    var all := a + b;
    forall i, j | 0 <= i < |all| && 0 <= j < |all| && i != j ensures !(all[i].prefix <= all[j].prefix) {
      assert all[i] == if i < |a| then a[i] else b[i - |a|];
      assert all[j] == if j < |a| then a[j] else b[j - |a|];
    }
  }

  lemma NoneDisjoint()
    ensures Disjoint([])
  {
  }

  lemma {:induction false} SideDisjoint(nodes: seq<(nat, nat)>, node: nat, bit: bool, height: nat)
    requires node < |nodes|
    ensures Disjoint(Side(nodes, node, bit, height))
    ensures AllUnder(bit, Side(nodes, node, bit, height))
    decreases height, 2
  {
    var child := Child(nodes[node], bit);
    if child < |nodes| {
      LeavesDisjoint(nodes, child, height);
      UnderDisjoint(bit, Leaves(nodes, child, height));
    }
  }

  lemma {:induction false} LeavesDisjoint(nodes: seq<(nat, nat)>, node: nat, height: nat)
    requires node < |nodes|
    ensures Disjoint(Leaves(nodes, node, height))
    decreases height, 1
  {
    hide Disjoint, AllUnder, Side;
    if height == 0 {
      NoneDisjoint();
    } else {
      SideDisjoint(nodes, node, false, height - 1);
      SideDisjoint(nodes, node, true, height - 1);
      DisjointSides(Side(nodes, node, false, height - 1), Side(nodes, node, true, height - 1));
    }
  }

  lemma PrefixesCompare(p: seq<bool>, q: seq<bool>, bits: seq<bool>)
    requires p <= bits && q <= bits
    ensures p <= q || q <= p
  {
    assert p == bits[..|p|] && q == bits[..|q|];
    if |p| <= |q| {
      assert q[..|p|] == p;
    } else {
      assert p[..|q|] == q;
    }
  }

  /** An address lies under at most one leaf. */
  lemma UniqueLeaf(leaves: seq<Leaf>, bits: seq<bool>, i: nat, j: nat)
    requires Disjoint(leaves) && i < |leaves| && j < |leaves|
    requires leaves[i].prefix <= bits && leaves[j].prefix <= bits
    ensures i == j
  {
    PrefixesCompare(leaves[i].prefix, leaves[j].prefix, bits);
  }

  lemma {:induction false} ScanFinds(leaves: seq<Leaf>, bits: seq<bool>)
    ensures Scan(leaves, bits) == None <==> forall i :: 0 <= i < |leaves| ==> !(leaves[i].prefix <= bits)
    ensures Scan(leaves, bits).Some?
            ==> exists i :: 0 <= i < |leaves| && leaves[i].prefix <= bits && leaves[i].record == Scan(leaves, bits).value
  {
    if leaves != [] && !(leaves[0].prefix <= bits) {
      ScanFinds(leaves[1..], bits);
      assert forall i :: 1 <= i < |leaves| ==> leaves[i] == leaves[1..][i - 1];
      if i :| 0 <= i < |leaves[1..]| && leaves[1..][i].prefix <= bits && Some(leaves[1..][i].record) == Scan(leaves, bits) {
        assert leaves[i + 1] == leaves[1..][i];
      }
    }
  }

  /** The record the walk returns is that of the one leaf above the address; it returns none when no leaf is. */
  lemma WalkFindsTheLeaf(nodes: seq<(nat, nat)>, bits: seq<bool>, i: nat)
    requires nodes != []
    requires var leaves := Leaves(nodes, 0, |bits|); i < |leaves| && leaves[i].prefix <= bits
    ensures Walk(nodes, 0, bits) == Some(Leaves(nodes, 0, |bits|)[i].record)
  {
    var leaves := Leaves(nodes, 0, |bits|);
    LeavesDisjoint(nodes, 0, |bits|);
    WalkIsScan(nodes, 0, bits);
    ScanFinds(leaves, bits);
    var j :| 0 <= j < |leaves| && leaves[j].prefix <= bits && leaves[j].record == Scan(leaves, bits).value;
    UniqueLeaf(leaves, bits, i, j);
  }
}
