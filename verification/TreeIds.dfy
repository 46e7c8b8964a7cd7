/** Packing a tree id and an element id into one 64-bit id. Signed integers are bit vectors in
    two's complement. */
module TreeIds {

  type Id = bv64
  type TreeId = bv32

  const CONT_SPLIT_ID: Id := 0xFFFF_FFFF_FFFF_FFFF       // -1
  const CONT_SPLIT_TREE_ID: TreeId := 0xFFFF_FFFF        // -1
  const MAX_ELEMENT_ID: Id := 0xFF_FFFF_FFFF
  const INVALID_PARENT_ID: Id := 0xFFFF_FFFF_FFDF_F4E0   // -2100000

  predicate Negative(x: Id) {
    x >= 0x8000_0000_0000_0000
  }

  predicate PositiveTree(t: TreeId) {
    0 < t < 0x8000_0000
  }

  /** Conversion of a signed 32-bit integer to an unsigned 64-bit one. */
  function Widen(t: TreeId): Id {
    if t < 0x8000_0000 then t as Id else (t as Id) | 0xFFFF_FFFF_0000_0000
  }

  /** SetSplicElementIdTreeId */
  function Pack(treeId: TreeId, elementId: Id): Id {
    if treeId == CONT_SPLIT_TREE_ID || elementId == CONT_SPLIT_ID then CONT_SPLIT_ID
    else if elementId & MAX_ELEMENT_ID != elementId then elementId
    else (Widen(treeId) << 40) | elementId
  }

  datatype Split = Split(treeId: TreeId, elementId: Id)

  /** GetTreeIdAndElementIdBySplitElementId */
  function Unpack(elementId: Id): Split {
    if Negative(elementId) then Split(CONT_SPLIT_TREE_ID, CONT_SPLIT_ID)
    else Split((elementId >> 40) as TreeId, MAX_ELEMENT_ID & elementId)
  }

  /** Tree ids below 2^23 and element ids below 2^40. */
  predicate InRange(t: TreeId, e: Id) {
    t < 0x80_0000 && e <= 0xFF_FFFF_FFFF
  }

  lemma PackedHigh(w: Id, e: Id)
    requires w < 0x80_0000 && e <= 0xFF_FFFF_FFFF
    ensures ((w << 40) | e) >> 40 == w
  {
  }

  lemma PackedLow(w: Id, e: Id)
    requires w < 0x80_0000 && e <= 0xFF_FFFF_FFFF
    ensures 0xFF_FFFF_FFFF & ((w << 40) | e) == e
  {
  }

  lemma PackedSign(w: Id, e: Id)
    requires w < 0x80_0000 && e <= 0xFF_FFFF_FFFF
    ensures ((w << 40) | e) < 0x8000_0000_0000_0000
  {
  }

  lemma ElementBits(e: Id)
    requires e <= 0xFF_FFFF_FFFF
    ensures e & 0xFF_FFFF_FFFF == e
  {
  }

  lemma WidenSmall(t: TreeId)
    requires t < 0x8000_0000
    ensures Widen(t) == t as Id
  {
  }

  lemma NoSentinel(t: TreeId, e: Id)
    requires InRange(t, e)
    ensures t != CONT_SPLIT_TREE_ID && e != CONT_SPLIT_ID && e & MAX_ELEMENT_ID == e
  {
    ElementBits(e);
  }

  lemma PackBits(t: TreeId, e: Id)
    requires t != CONT_SPLIT_TREE_ID && e != CONT_SPLIT_ID && e & MAX_ELEMENT_ID == e
    ensures Pack(t, e) == (Widen(t) << 40) | e
  {
  }

  lemma PackInRange(t: TreeId, e: Id)
    requires InRange(t, e)
    ensures Pack(t, e) == ((t as Id) << 40) | e
  {
    NoSentinel(t, e);
    PackBits(t, e);
    WidenSmall(t);
  }

  lemma UnpackPacked(t: TreeId, e: Id)
    requires InRange(t, e)
    ensures Unpack(Pack(t, e)) == Split(t, e) && !Negative(Pack(t, e))
  {
    var w := t as Id;
    PackInRange(t, e);
    PackedSign(w, e);
    PackedHigh(w, e);
    PackedLow(w, e);
  }

  lemma UnpackedHigh(x: Id)
    requires x < 0x8000_0000_0000_0000
    ensures x >> 40 < 0x80_0000
  {
  }

  lemma UnpackedLow(x: Id)
    ensures 0xFF_FFFF_FFFF & x <= 0xFF_FFFF_FFFF
  {
  }

  lemma Repacked(x: Id)
    ensures ((x >> 40) << 40) | (0xFF_FFFF_FFFF & x) == x
  {
  }

  lemma PackOutOfRange(t: TreeId, e: Id)
    requires !InRange(t, e) && !(t == CONT_SPLIT_TREE_ID && e == CONT_SPLIT_ID)
    ensures Unpack(Pack(t, e)) != Split(t, e)
  {
  }

  /** Unpacking undoes packing exactly in range, and for the pair of sentinels. */
  lemma UnpackAfterPack(t: TreeId, e: Id)
    ensures Unpack(Pack(t, e)) == Split(t, e)
       <==> InRange(t, e) || (t == CONT_SPLIT_TREE_ID && e == CONT_SPLIT_ID)
  {
    if InRange(t, e) {
      UnpackPacked(t, e);
    } else if !(t == CONT_SPLIT_TREE_ID && e == CONT_SPLIT_ID) {
      PackOutOfRange(t, e);
    }
  }

  lemma UnpackNonNegative(x: Id)
    requires !Negative(x)
    ensures Unpack(x) == Split((x >> 40) as TreeId, MAX_ELEMENT_ID & x)
    ensures InRange(Unpack(x).treeId, Unpack(x).elementId)
  {
    UnpackedHigh(x);
    UnpackedLow(x);
  }

  lemma RepackNonNegative(x: Id)
    requires !Negative(x)
    ensures Pack(Unpack(x).treeId, Unpack(x).elementId) == x
  {
    UnpackNonNegative(x);
    PackInRange(Unpack(x).treeId, Unpack(x).elementId);
    Repacked(x);
  }

  /** Packing undoes unpacking exactly for non-negative ids and the sentinel; every non-negative id
      unpacks to a pair in range. */
  lemma PackAfterUnpack(x: Id)
    ensures Pack(Unpack(x).treeId, Unpack(x).elementId) == x <==> !Negative(x) || x == CONT_SPLIT_ID
    ensures !Negative(x) ==> InRange(Unpack(x).treeId, Unpack(x).elementId)
  {
    if !Negative(x) {
      UnpackNonNegative(x);
      RepackNonNegative(x);
    }
  }

  /** What packing yields: -1 if either id is -1, else an element id from 2^40 on as it is (negative
      ones among them), else the tree id in front of 40 bits of element id. */
  lemma PackCases(t: TreeId, e: Id)
    ensures t == 0xFFFF_FFFF || e == 0xFFFF_FFFF_FFFF_FFFF ==> Pack(t, e) == 0xFFFF_FFFF_FFFF_FFFF
    ensures t != 0xFFFF_FFFF && e > 0xFF_FFFF_FFFF ==> Pack(t, e) == e
    ensures t < 0x80_0000 && e <= 0xFF_FFFF_FFFF ==> Pack(t, e) == ((t as Id) << 40) | e
  {
    if t != 0xFFFF_FFFF && e > 0xFF_FFFF_FFFF {
      AboveRange(e);
    }
    if InRange(t, e) {
      PackInRange(t, e);
    }
  }

  /** In range, packing is injective. */
  lemma PackInjective(t: TreeId, e: Id, t': TreeId, e': Id)
    requires InRange(t, e) && InRange(t', e') && Pack(t, e) == Pack(t', e')
    ensures t == t' && e == e'
  {
    UnpackPacked(t, e);
    UnpackPacked(t', e');
  }

  /** With a positive tree id the packed id is no bare element id and no sentinel. */
  lemma PackedIsNew(t: TreeId, e: Id)
    requires InRange(t, e) && t != 0
    ensures Pack(t, e) > MAX_ELEMENT_ID && !Negative(Pack(t, e))
  {
  }

  /** A packed id keeps its first tree id. */
  lemma PackIsIdempotent(t: TreeId, e: Id, t': TreeId)
    requires InRange(t, e) && t != 0 && t' != CONT_SPLIT_TREE_ID
    ensures Pack(t', Pack(t, e)) == Pack(t, e)
  {
    PackedIsNew(t, e);
    AboveRange(Pack(t, e));
  }

  lemma AboveRange(x: Id)
    requires x > MAX_ELEMENT_ID
    ensures x & MAX_ELEMENT_ID != x
  {
  }
}
