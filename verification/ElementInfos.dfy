/** Accessibility element infos and their lists of child ids. */
module ElementInfos {

  /** What an element info records about a node, apart from its parent. */
  datatype Info = Info(id: int, tag: string, children: seq<int>)

  /** Appends the id; `ifAbsent` says whether an id already present is left alone. */
  function AddChild<Id(==)>(ids: seq<Id>, id: Id, ifAbsent: bool): seq<Id> {
    if ifAbsent && id in ids then ids else ids + [id]
  }

  /** Removes the first occurrence of the id, if there is one. */
  function RemoveChild<Id(==)>(ids: seq<Id>, id: Id): seq<Id> {
    if ids == [] then []
    else if ids[0] == id then ids[1..]
    else [ids[0]] + RemoveChild(ids[1..], id)
  }

  predicate Distinct<Id(==)>(ids: seq<Id>) {
    forall i, j :: 0 <= i < j < |ids| ==> ids[i] != ids[j]
  }

  /** Adding distinct ids one by one records them all, in either way of adding. */
  method AddChildren(children: seq<int>, ifAbsent: bool) returns (childIds: seq<int>)
    requires Distinct(children)
    ensures childIds == children
  {
    childIds := [];
    for i := 0 to |children|
      invariant childIds == children[..i]
    {
      childIds := AddChild(childIds, children[i], ifAbsent);
    }
  }
}
