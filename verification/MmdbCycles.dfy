/** Values that contain themselves, through pointers, arrays and maps of any number: they are never decoded. */
module MmdbCycles {
  import opened Prelude
  import opened ByteNumbers
  import opened MmdbDecoder
  import opened MmdbLayout
  import opened MmdbTheorems

  /** The offset of the `k`-th of some values, one behind the other, as far as those before it can be decoded. */
  ghost predicate IsItem(db: seq<byte>, base: nat, start: nat, k: nat, depth: nat, t: nat) {
    var r := DecodeItems(db, start, base, depth, k);
    r.Ok? && r.value.1 == t
  }

  /** The offset of the `k`-th key or of its value. */
  ghost predicate IsKeyOrValue(db: seq<byte>, base: nat, start: nat, k: nat, depth: nat, t: nat) {
    var r := DecodePairs(db, start, base, depth, k);
    && r.Ok?
    && (r.value.1 == t || (var key := Decode(db, r.value.1, base, depth); key.Ok? && key.value.1 == t))
  }

  /** The value at `o` is a pointer to the one at `t`, an array with that item, or a map with that key or value. */
  ghost predicate Contains(db: seq<byte>, base: nat, o: nat, t: nat) {
    var head := DecodeHead(db, o);
    && head.Ok?
    && var (control, code, next) := head.value;
       if code == TYPE_POINTER then
         var p := DecodePointer(db, control, next);
         p.Ok? && t == base + p.value.0
       else
         var size := DecodeSize(db, control % 32, next);
         && size.Ok?
         && var (count, start) := size.value;
            if code == ARRAY then exists k: nat, d: nat :: k < count && IsItem(db, base, start, k, d, t)
            else code == MAP && exists k: nat, d: nat :: k < count && IsKeyOrValue(db, base, start, k, d, t)
  }

  /** Every value of the set contains one of the set. */
  ghost predicate Cyclic(db: seq<byte>, base: nat, offsets: set<nat>) {
    forall o <- offsets :: exists t <- offsets :: Contains(db, base, o, t)
  }

  lemma {:induction false} ItemsPrefix(db: seq<byte>, offset: nat, base: nat, depth: nat, count: nat, k: nat)
    requires k < count && DecodeItems(db, offset, base, depth, count).Ok?
    ensures var front := DecodeItems(db, offset, base, depth, k);
            front.Ok? && Decode(db, front.value.1, base, depth).Ok?
    decreases k
  {
    hide Decode;
    if k > 0 {
      ItemsPrefix(db, Decode(db, offset, base, depth).value.1, base, depth, count - 1, k - 1);
    }
  }

  lemma {:induction false} PairsPrefix(db: seq<byte>, offset: nat, base: nat, depth: nat, count: nat, k: nat)
    requires k < count && DecodePairs(db, offset, base, depth, count).Ok?
    ensures var front := DecodePairs(db, offset, base, depth, k);
            && front.Ok? && Decode(db, front.value.1, base, depth).Ok?
            && Decode(db, Decode(db, front.value.1, base, depth).value.1, base, depth).Ok?
    decreases k
  {
    hide Decode;
    if k > 0 {
      var middle := Decode(db, offset, base, depth).value.1;
      PairsPrefix(db, Decode(db, middle, base, depth).value.1, base, depth, count - 1, k - 1);
    }
  }

  /** Whatever the limit, an item that is reached is at the same place. */
  lemma SameItem(db: seq<byte>, start: nat, base: nat, k: nat, d: nat, d': nat)
    requires DecodeItems(db, start, base, d, k).Ok? && DecodeItems(db, start, base, d', k).Ok?
    ensures DecodeItems(db, start, base, d, k) == DecodeItems(db, start, base, d', k)
  {
    hide DecodeItems;
    if d <= d' {
      DepthIrrelevantItems(db, start, base, d, d', k);
    } else {
      DepthIrrelevantItems(db, start, base, d', d, k);
    }
  }

  lemma SamePair(db: seq<byte>, start: nat, base: nat, k: nat, d: nat, d': nat)
    requires DecodePairs(db, start, base, d, k).Ok? && DecodePairs(db, start, base, d', k).Ok?
    ensures DecodePairs(db, start, base, d, k) == DecodePairs(db, start, base, d', k)
  {
    hide DecodePairs;
    if d <= d' {
      DepthIrrelevantPairs(db, start, base, d, d', k);
    } else {
      DepthIrrelevantPairs(db, start, base, d', d, k);
    }
  }

  lemma SameValue(db: seq<byte>, offset: nat, base: nat, d: nat, d': nat)
    requires Decode(db, offset, base, d).Ok? && Decode(db, offset, base, d').Ok?
    ensures Decode(db, offset, base, d) == Decode(db, offset, base, d')
  {
    hide Decode;
    if d <= d' {
      DepthIrrelevant(db, offset, base, d, d');
    } else {
      DepthIrrelevant(db, offset, base, d', d);
    }
  }

  /** A value can be decoded only after every value it contains. */
  lemma ContainedFirst(db: seq<byte>, base: nat, o: nat, t: nat, depth: nat)
    requires Contains(db, base, o, t) && Decode(db, o, base, depth).Ok?
    ensures depth > 0 && Decode(db, t, base, depth - 1).Ok?
  {
    hide DecodeHead, DecodePointer, DecodeSize, DecodeScalar, Dict, DecodeItems, DecodePairs;
    var (control, code, next) := DecodeHead(db, o).value;
    if code != TYPE_POINTER {
      var (count, start) := DecodeSize(db, control % 32, next).value;
      if code == ARRAY {
        var k: nat, d: nat :| k < count && IsItem(db, base, start, k, d, t);
        hide Decode;
        ItemsPrefix(db, start, base, depth - 1, count, k);
        SameItem(db, start, base, k, d, depth - 1);
      } else {
        var k: nat, d: nat :| k < count && IsKeyOrValue(db, base, start, k, d, t);
        hide Decode;
        PairsPrefix(db, start, base, depth - 1, count, k);
        SamePair(db, start, base, k, d, depth - 1);
        var key := DecodePairs(db, start, base, d, k).value.1;
        if t != key {
          SameValue(db, key, base, d, depth - 1);
        }
      }
    }
  }

  /** No value of a cycle, of any length and through whatever kinds of containers, is ever decoded, whatever the limit. */
  lemma {:induction false} CyclesNeverDecode(db: seq<byte>, base: nat, offsets: set<nat>, o: nat, depth: nat)
    requires Cyclic(db, base, offsets) && o in offsets
    ensures Decode(db, o, base, depth).Err?
    decreases depth
  {
    hide Decode, Contains, Cyclic;
    if Decode(db, o, base, depth).Ok? {
      var t := Onwards(db, base, offsets, o);
      ContainedFirst(db, base, o, t, depth);
      CyclesNeverDecode(db, base, offsets, t, depth - 1);
    }
  }

  ghost function Onwards(db: seq<byte>, base: nat, offsets: set<nat>, o: nat): (t: nat)
    requires Cyclic(db, base, offsets) && o in offsets
    ensures t in offsets && Contains(db, base, o, t)
  {
    hide Contains;
    var t: nat :| t in offsets && Contains(db, base, o, t);
    t
  }

  // ----- Pointers only -----

  /** At `o` there is a pointer of some width to `t`. */
  predicate PointsTo(db: seq<byte>, base: nat, o: nat, t: nat, width: nat) {
    base <= t && PointerFits(width, t - base) && Reads(db, o, PointerBytes(width, t - base))
  }

  function Following(ring: seq<nat>, i: nat): nat
    requires i < |ring|
  {
    if i + 1 < |ring| then ring[i + 1] else ring[0]
  }

  /** Each offset of a ring holds a pointer to the next one. */
  predicate Ring(db: seq<byte>, base: nat, ring: seq<nat>, widths: seq<nat>) {
    && |ring| == |widths| > 0
    && forall i :: 0 <= i < |ring| ==> PointsTo(db, base, ring[i], Following(ring, i), widths[i])
  }

  /** Decoding a ring of pointers of any length ends at the recursion limit. */
  lemma {:induction false} PointerRingsExhaustTheLimit(db: seq<byte>, base: nat, ring: seq<nat>, widths: seq<nat>, i: nat, depth: nat)
    requires Ring(db, base, ring, widths) && i < |ring|
    ensures Decode(db, ring[i], base, depth) == Err(RecursionError)
    decreases depth
  {
    hide PointerFits, Reads, PointerBytes, DecodeHead, DecodePointer, DecodeSize, DecodeScalar;
    if depth > 0 {
      var j := if i + 1 < |ring| then i + 1 else 0;
      assert PointsTo(db, base, ring[i], Following(ring, i), widths[i]) && Following(ring, i) == ring[j];
      DecodePointerOfBytes(db, ring[i], widths[i], ring[j] - base);
      PointerRingsExhaustTheLimit(db, base, ring, widths, j, depth - 1);
    }
  }
}
