/** Renaming the ids of element infos by a tree id, in place. */
module TreeRename {
  import opened Wrappers
  import opened TreeIds
  import opened ElementInfos

  /** The content of an element info, as far as its ids go. */
  datatype InfoIds = InfoIds(id: Id, parent: Id, belongTreeId: TreeId, childIds: seq<Id>)

  /** An element info; `ifAbsent` tells which of two ways its AddChild behaves. */
  class AccessibilityElementInfo {
    var id: Id
    var parent: Id
    var belongTreeId: TreeId
    var childIds: seq<Id>
    const ifAbsent: bool

    constructor (info: InfoIds, ifAbsent: bool)
      ensures Value() == info && this.ifAbsent == ifAbsent
    {
      id, parent, belongTreeId, childIds := info.id, info.parent, info.belongTreeId, info.childIds;
      this.ifAbsent := ifAbsent;
    }

    function Value(): InfoIds
      reads this
    {
      InfoIds(id, parent, belongTreeId, childIds)
    }

    /** The three steps of a renaming, the last one a loop over a copy of the child ids. */
    method UpdateTreeId(treeId: TreeId)
      modifies this
      ensures Value() == Rename(old(Value()), treeId, ifAbsent)
    {
      if !PositiveTree(belongTreeId) {
        return;
      }
      id := Pack(treeId, id);
      if parent != INVALID_PARENT_ID {
        parent := Pack(treeId, parent);
      }
      var copy := childIds;
      for i := 0 to |copy|
        invariant id == Pack(treeId, old(id)) && belongTreeId == old(belongTreeId)
        invariant parent == PackParent(treeId, old(parent))
        invariant RenameChildren(childIds, copy[i..], treeId, ifAbsent)
               == RenameChildren(copy, copy, treeId, ifAbsent)
      {
        assert copy[i..][1..] == copy[i + 1..];
        childIds := RemoveChild(childIds, copy[i]);
        childIds := AddChild(childIds, Pack(treeId, copy[i]), ifAbsent);
      }
    }
  }

  /** UpdateElementInfosTreeId with the manager's tree id. */
  method UpdateElementInfosTreeId(infos: seq<AccessibilityElementInfo>, treeId: TreeId)
    requires forall i, j :: 0 <= i < j < |infos| ==> infos[i] != infos[j]
    modifies infos
    ensures forall i :: 0 <= i < |infos| ==>
              infos[i].Value() == Rename(old(infos[i].Value()), treeId, infos[i].ifAbsent)
  {
    for i := 0 to |infos|
      invariant forall j :: 0 <= j < i ==>
        infos[j].Value() == Rename(old(infos[j].Value()), treeId, infos[j].ifAbsent)
      invariant forall j :: i <= j < |infos| ==> infos[j].Value() == old(infos[j].Value())
    {
      infos[i].UpdateTreeId(treeId);
    }
  }

  // ----- renaming as a function -----

  function PackParent(treeId: TreeId, parent: Id): Id {
    if parent == INVALID_PARENT_ID then parent else Pack(treeId, parent)
  }

  /** The in-place loop: remove each id of `todo`, add its packed form. */
  function RenameChildren(list: seq<Id>, todo: seq<Id>, treeId: TreeId, ifAbsent: bool): seq<Id>
    decreases |todo|
  {
    if todo == [] then list else
    RenameChildren(
      AddChild(RemoveChild(list, todo[0]), Pack(treeId, todo[0]), ifAbsent), todo[1..], treeId, ifAbsent)
  }

  function Rename(x: InfoIds, treeId: TreeId, ifAbsent: bool): InfoIds {
    if !PositiveTree(x.belongTreeId) then x else
    InfoIds(Pack(treeId, x.id), PackParent(treeId, x.parent), x.belongTreeId,
         RenameChildren(x.childIds, x.childIds, treeId, ifAbsent))
  }

  // ----- the loop packs each child in its place -----

  function PackAll(ids: seq<Id>, treeId: TreeId): seq<Id> {
    seq(|ids|, i requires 0 <= i < |ids| => Pack(treeId, ids[i]))
  }

  /** Packing keeps the ids apart, and makes none equal to one that is still to be packed. */
  predicate PacksApart(ids: seq<Id>, treeId: TreeId) {
    && Distinct(PackAll(ids, treeId))
    && forall i, j :: 0 <= i < j < |ids| ==> Pack(treeId, ids[i]) != ids[j]
  }

  lemma PackAllFirst(ids: seq<Id>, treeId: TreeId)
    requires ids != []
    ensures PackAll(ids, treeId) == [Pack(treeId, ids[0])] + PackAll(ids[1..], treeId)
  {
  }

  lemma PackAllBehind(packed: seq<Id>, ids: seq<Id>, treeId: TreeId)
    requires ids != []
    ensures packed + PackAll(ids, treeId) == packed + [Pack(treeId, ids[0])] + PackAll(ids[1..], treeId)
  {
    PackAllFirst(ids, treeId);
    Associative(packed, [Pack(treeId, ids[0])], PackAll(ids[1..], treeId));
  }

  lemma DistinctFirst(ids: seq<Id>)
    requires ids != []
    ensures Distinct(ids) <==> Distinct(ids[1..]) && ids[0] !in ids[1..]
  {
    var rest := ids[1..];
    assert forall i :: 0 <= i < |rest| ==> rest[i] == ids[i + 1];
    if Distinct(ids) {
      forall i, j | 0 <= i < j < |rest| ensures rest[i] != rest[j] {
        assert ids[i + 1] != ids[j + 1];
      }
    }
    if Distinct(rest) && ids[0] !in rest {
      forall i, j | 0 <= i < j < |ids| ensures ids[i] != ids[j] {
        assert ids[j] == rest[j - 1];
        if i > 0 {
          assert ids[i] == rest[i - 1];
        }
      }
    }
  }

  lemma PacksApartFirst(todo: seq<Id>, treeId: TreeId)
    requires todo != []
    ensures PacksApart(todo, treeId) <==>
            var first, rest := Pack(treeId, todo[0]), todo[1..];
            PacksApart(rest, treeId) && first !in rest && first !in PackAll(rest, treeId)
  {
    var first, rest := Pack(treeId, todo[0]), todo[1..];
    PackAllFirst(todo, treeId);
    DistinctFirst(PackAll(todo, treeId));
    assert PackAll(todo, treeId)[1..] == PackAll(rest, treeId);
    assert forall i :: 0 <= i < |rest| ==> rest[i] == todo[i + 1];
    if PacksApart(rest, treeId) && first !in rest {
      forall i, j | 0 <= i < j < |todo| ensures Pack(treeId, todo[i]) != todo[j] {
        assert todo[j] == rest[j - 1];
        if i > 0 {
          assert todo[i] == rest[i - 1];
        }
      }
    }
    if PacksApart(todo, treeId) {
      forall i, j | 0 <= i < j < |rest| ensures Pack(treeId, rest[i]) != rest[j] {
        assert Pack(treeId, todo[i + 1]) != todo[j + 1];
      }
    }
  }

  /** What stands behind the ids still to be packed after one more turn. */
  function Behind(packed: seq<Id>, todo: seq<Id>, treeId: TreeId, ifAbsent: bool): seq<Id>
    requires todo != []
  {
    var first := Pack(treeId, todo[0]);
    if ifAbsent && (first in todo[1..] || first in packed) then packed else packed + [first]
  }

  /** One turn of the loop: the first id is removed, its packed form goes to the end unless AddChild
      finds it in the list. */
  lemma RotateOne(packed: seq<Id>, todo: seq<Id>, treeId: TreeId, ifAbsent: bool)
    requires todo != []
    ensures AddChild(RemoveChild(todo + packed, todo[0]), Pack(treeId, todo[0]), ifAbsent)
         == todo[1..] + Behind(packed, todo, treeId, ifAbsent)
  {
    assert RemoveChild(todo + packed, todo[0]) == todo[1..] + packed;
    Associative(todo[1..], packed, [Pack(treeId, todo[0])]);
  }

  lemma RenameFirst(packed: seq<Id>, todo: seq<Id>, treeId: TreeId, ifAbsent: bool)
    requires todo != []
    ensures RenameChildren(todo + packed, todo, treeId, ifAbsent)
         == RenameChildren(todo[1..] + Behind(packed, todo, treeId, ifAbsent), todo[1..], treeId, ifAbsent)
  {
    RotateOne(packed, todo, treeId, ifAbsent);
  }

  /** No turn of the loop makes the list longer, so a packed id that was not added leaves the list
      too short for good. */
  lemma {:induction false} NeverLonger(packed: seq<Id>, todo: seq<Id>, treeId: TreeId, ifAbsent: bool)
    ensures |RenameChildren(todo + packed, todo, treeId, ifAbsent)| <= |todo| + |packed|
    decreases |todo|
  {
    if todo != [] {
      RenameFirst(packed, todo, treeId, ifAbsent);
      NeverLonger(Behind(packed, todo, treeId, ifAbsent), todo[1..], treeId, ifAbsent);
    }
  }

  /** The packed forms of `todo` can all be added behind `packed`. */
  predicate Fits(packed: seq<Id>, todo: seq<Id>, treeId: TreeId) {
    PacksApart(todo, treeId) && forall e :: e in packed ==> e !in PackAll(todo, treeId)
  }

  lemma FitsFirst(packed: seq<Id>, todo: seq<Id>, treeId: TreeId)
    requires todo != []
    ensures Fits(packed, todo, treeId) <==>
            var first, rest := Pack(treeId, todo[0]), todo[1..];
            first !in rest && first !in packed && Fits(packed + [first], rest, treeId)
  {
    PacksApartFirst(todo, treeId);
    PackAllFirst(todo, treeId);
  }

  /** Half-way through the loop, the ids still to be packed stand in front of the packed ones. */
  lemma {:induction false} RotateChildren(packed: seq<Id>, todo: seq<Id>, treeId: TreeId, ifAbsent: bool)
    ensures RenameChildren(todo + packed, todo, treeId, ifAbsent) == packed + PackAll(todo, treeId)
       <==> !ifAbsent || Fits(packed, todo, treeId)
    decreases |todo|
  {
    if todo == [] {
      assert todo + packed == packed && packed + PackAll(todo, treeId) == packed;
    } else {
      var first, rest := Pack(treeId, todo[0]), todo[1..];
      RenameFirst(packed, todo, treeId, ifAbsent);
      FitsFirst(packed, todo, treeId);
      if ifAbsent && (first in rest || first in packed) {
        NeverLonger(packed, rest, treeId, ifAbsent);
      } else {
        RotateChildren(packed + [first], rest, treeId, ifAbsent);
        PackAllBehind(packed, todo, treeId);
      }
    }
  }

  /** The loop replaces each child id by its packed form, in the same order, exactly if AddChild
      appends always, or packing keeps the ids apart. */
  lemma ChildrenPackedInPlace(ids: seq<Id>, treeId: TreeId, ifAbsent: bool)
    ensures RenameChildren(ids, ids, treeId, ifAbsent) == PackAll(ids, treeId)
       <==> !ifAbsent || PacksApart(ids, treeId)
  {
    assert ids + [] == ids && [] + PackAll(ids, treeId) == PackAll(ids, treeId);
    RotateChildren([], ids, treeId, ifAbsent);
  }

  /** A positive tree id below 2^23 keeps bare element ids apart exactly if none is repeated. */
  lemma BareIdsPackApart(ids: seq<Id>, treeId: TreeId)
    requires 0 < treeId < 0x80_0000 && forall e :: e in ids ==> e <= MAX_ELEMENT_ID
    ensures PacksApart(ids, treeId) <==> Distinct(ids)
  {
    forall i, j | 0 <= i < j < |ids|
      ensures Pack(treeId, ids[i]) == Pack(treeId, ids[j]) <==> ids[i] == ids[j]
      ensures Pack(treeId, ids[i]) != ids[j]
    {
      assert ids[i] in ids && ids[j] in ids;
      PackedIsNew(treeId, ids[i]);
      if Pack(treeId, ids[i]) == Pack(treeId, ids[j]) {
        PackInjective(treeId, ids[i], treeId, ids[j]);
      }
    }
    assert forall i :: 0 <= i < |ids| ==> PackAll(ids, treeId)[i] == Pack(treeId, ids[i]);
    if PacksApart(ids, treeId) {
      forall i, j | 0 <= i < j < |ids| ensures ids[i] != ids[j] {
        assert PackAll(ids, treeId)[i] != PackAll(ids, treeId)[j];
      }
    }
  }

  // ----- main results -----

  /** An info of the tree before renaming; an AddChild that leaves present ids alone has listed no
      child twice. */
  predicate Bare(x: InfoIds, ifAbsent: bool) {
    && 0 < x.belongTreeId < 0x8000_0000
    && x.id <= MAX_ELEMENT_ID
    && (x.parent == INVALID_PARENT_ID || x.parent <= MAX_ELEMENT_ID)
    && (forall e :: e in x.childIds ==> e <= MAX_ELEMENT_ID)
    && (ifAbsent ==> Distinct(x.childIds))
  }

  lemma BareRename(x: InfoIds, treeId: TreeId, ifAbsent: bool)
    requires 0 < treeId < 0x80_0000 && Bare(x, ifAbsent)
    ensures Rename(x, treeId, ifAbsent)
         == InfoIds(Pack(treeId, x.id), PackParent(treeId, x.parent), x.belongTreeId, PackAll(x.childIds, treeId))
  {
    BareIdsPackApart(x.childIds, treeId);
    ChildrenPackedInPlace(x.childIds, treeId, ifAbsent);
  }

  /** Without a positive tree id of its own an info is left alone; otherwise every id of it, but the
      parent id -2100000, unpacks to the tree id and to what it was before. */
  lemma RenamedIdsUnpack(x: InfoIds, treeId: TreeId, ifAbsent: bool)
    requires 0 < treeId < 0x80_0000
    ensures x.belongTreeId == 0 || x.belongTreeId >= 0x8000_0000 ==> Rename(x, treeId, ifAbsent) == x
    ensures Bare(x, ifAbsent) ==> var y := Rename(x, treeId, ifAbsent);
      && Unpack(y.id) == Split(treeId, x.id) && y.belongTreeId == x.belongTreeId
      && (if x.parent == 0 - 2100000 then y.parent == x.parent else Unpack(y.parent) == Split(treeId, x.parent))
      && |y.childIds| == |x.childIds|
      && forall k :: 0 <= k < |x.childIds| ==> Unpack(y.childIds[k]) == Split(treeId, x.childIds[k])
  {
    if Bare(x, ifAbsent) {
      BareRename(x, treeId, ifAbsent);
      UnpackPacked(treeId, x.id);
      if x.parent != INVALID_PARENT_ID {
        UnpackPacked(treeId, x.parent);
      }
      forall k | 0 <= k < |x.childIds|
        ensures Unpack(PackAll(x.childIds, treeId)[k]) == Split(treeId, x.childIds[k])
      {
        assert x.childIds[k] in x.childIds;
        UnpackPacked(treeId, x.childIds[k]);
      }
    }
  }

  lemma PackSame(treeId: TreeId, a: Id, b: Id)
    requires 0 < treeId < 0x80_0000 && a <= MAX_ELEMENT_ID && b <= MAX_ELEMENT_ID
    ensures Pack(treeId, a) == Pack(treeId, b) <==> a == b
    ensures Pack(treeId, a) != INVALID_PARENT_ID
  {
    if Pack(treeId, a) == Pack(treeId, b) {
      PackInjective(treeId, a, treeId, b);
    }
    PackedIsNew(treeId, a);
  }

  lemma MemberPacked(ids: seq<Id>, treeId: TreeId, e: Id)
    requires 0 < treeId < 0x80_0000 && e <= MAX_ELEMENT_ID && forall d :: d in ids ==> d <= MAX_ELEMENT_ID
    ensures Pack(treeId, e) in PackAll(ids, treeId) <==> e in ids
  {
    var packed := PackAll(ids, treeId);
    forall i | 0 <= i < |ids| ensures packed[i] == Pack(treeId, e) <==> ids[i] == e {
      assert ids[i] in ids;
      PackSame(treeId, ids[i], e);
    }
    SameMember(ids, e, packed, Pack(treeId, e));
  }

  lemma SameMember(a: seq<Id>, x: Id, b: seq<Id>, y: Id)
    requires |a| == |b| && forall i :: 0 <= i < |a| ==> (b[i] == y <==> a[i] == x)
    ensures y in b <==> x in a
  {
    if x in a {
      var i :| 0 <= i < |a| && a[i] == x;
      assert b[i] == y;
    }
  }

  /** Renaming two infos by one positive tree id preserves every link between them: which is the
      parent of which, which lists which as a child and where, and which are the same element. */
  lemma RenamePreservesLinks(x: InfoIds, y: InfoIds, treeId: TreeId, ifAbsent: bool)
    requires 0 < treeId < 0x80_0000 && Bare(x, ifAbsent) && Bare(y, ifAbsent)
    ensures var x', y' := Rename(x, treeId, ifAbsent), Rename(y, treeId, ifAbsent);
      && (x'.id == y'.id <==> x.id == y.id)
      && (y'.parent == x'.id <==> y.parent == x.id)
      && (y'.parent == INVALID_PARENT_ID <==> y.parent == INVALID_PARENT_ID)
      && (y'.id in x'.childIds <==> y.id in x.childIds)
      && |x'.childIds| == |x.childIds|
      && (forall k :: 0 <= k < |x.childIds| ==> (x'.childIds[k] == y'.id <==> x.childIds[k] == y.id))
  {
    BareRename(x, treeId, ifAbsent);
    BareRename(y, treeId, ifAbsent);
    PackSame(treeId, x.id, y.id);
    if y.parent != INVALID_PARENT_ID {
      PackSame(treeId, y.parent, x.id);
    } else {
      PackSame(treeId, x.id, x.id);
    }
    MemberPacked(x.childIds, treeId, y.id);
    forall k | 0 <= k < |x.childIds|
      ensures PackAll(x.childIds, treeId)[k] == Pack(treeId, y.id) <==> x.childIds[k] == y.id
    {
      assert x.childIds[k] in x.childIds;
      PackSame(treeId, x.childIds[k], y.id);
    }
  }

  /** Renaming again, by any tree id but -1, changes nothing. */
  lemma RenameTwice(x: InfoIds, treeId: TreeId, again: TreeId, ifAbsent: bool)
    requires 0 < treeId < 0x80_0000 && Bare(x, ifAbsent) && again != CONT_SPLIT_TREE_ID
    ensures Rename(Rename(x, treeId, ifAbsent), again, ifAbsent) == Rename(x, treeId, ifAbsent)
  {
    BareRename(x, treeId, ifAbsent);
    BareIdsPackApart(x.childIds, treeId);
    PackIsIdempotent(treeId, x.id, again);
    if x.parent != INVALID_PARENT_ID {
      PackIsIdempotent(treeId, x.parent, again);
    }
    var packed := PackAll(x.childIds, treeId);
    forall i | 0 <= i < |packed| ensures Pack(again, packed[i]) == packed[i] {
      assert x.childIds[i] in x.childIds;
      PackIsIdempotent(treeId, x.childIds[i], again);
    }
    assert PackAll(packed, again) == packed;
    ChildrenPackedInPlace(packed, again, ifAbsent);
  }

  /** That no id is repeated is not enough where AddChild leaves present ids alone: an id next to
      its own packed form is lost. */
  lemma ClashingChildIsLost(treeId: TreeId, e: Id)
    requires 0 < treeId < 0x80_0000 && e <= MAX_ELEMENT_ID
    ensures var p := Pack(treeId, e);
      && Distinct([e, p]) && PackAll([e, p], treeId) == [p, p]
      && RenameChildren([e, p], [e, p], treeId, true) == [p]
  {
    var p := Pack(treeId, e);
    PackedIsNew(treeId, e);
    PackIsIdempotent(treeId, e, treeId);
    var ids, last := [e, p], [p];
    assert ids[1..] == last && last[1..] == [];
    assert RemoveChild(ids, e) == last && AddChild(last, p, true) == last;
    assert RemoveChild(last, p) == [];
    assert RenameChildren(last, last, treeId, true) == AddChild([], p, true);
  }
}
