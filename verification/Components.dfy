/** The two recursive listings of the component tree: one fills nested component records, the
    other a flat list of ids. */
module Components {
  import opened Wrappers
  import opened UiTree
  import opened NodeLookup
  import opened Flattening

  /** A record of a component; the empty kind marks one that was never filled in. */
  datatype ComponentInfo = ComponentInfo(compid: string, kind: string, children: seq<ComponentInfo>)

  const BLANK := ComponentInfo("", "", [])

  /** The listings pass over inactive nodes only when they visit them. */
  function Listing(pageId: int): Policy {
    Policy(
      pageId := pageId, anyPage := false, activeOnly := false,
      skipInactive := true, skipLevelNo := false, groupsStop := false)
  }

  /** Storing a 64-bit id in a vector of 32-bit integers. */
  function ToInt32(x: int): int {
    var m := x % 0x1_0000_0000;
    if m >= 0x8000_0000 then m - 0x1_0000_0000 else m
  }

  predicate Fits(n: Node) {
    forall x :: x in Preorder(n) ==> -0x8000_0000 <= x.id < 0x8000_0000
  }

  function Narrow(ns: seq<Node>): seq<int> {
    seq(|ns|, i requires 0 <= i < |ns| => ToInt32(ns[i].id))
  }

  // ----- what the listings yield -----

  function Component(n: Node, p: Policy): ComponentInfo
    decreases Size(n), 1
  {
    ComponentInfo(n.inspector, n.tag, Slots(Children(n, p), p))
  }

  /** A record for each child, blank for a child that is not visited. */
  function Slots(ns: seq<Node>, p: Policy): (r: seq<ComponentInfo>)
    ensures |r| == |ns|
    decreases Sizes(ns), 2, |ns|
  {
    if ns == [] then []
    else [if Entered(ns[0], p) then Component(ns[0], p) else BLANK] + Slots(ns[1..], p)
  }

  lemma {:induction false} SlotsAppend(a: seq<Node>, b: seq<Node>, p: Policy)
    ensures Slots(a + b, p) == Slots(a, p) + Slots(b, p)
    decreases |a|
  {
    if a == [] {
      assert a + b == b;
    } else {
      assert (a + b)[1..] == a[1..] + b;
      SlotsAppend(a[1..], b, p);
    }
  }

  lemma SlotsOne(n: Node, p: Policy)
    ensures Slots([n], p) == [if Entered(n, p) then Component(n, p) else BLANK]
  {
    assert Slots([n][1..], p) == [];
  }

  /** The measure of the recursions: the tree of the node that is looked up. */
  function FoundSize(parent: Node, id: int): nat {
    match ByDequeue(parent, id)
    case None => 0
    case Some(n) => Size(n)
  }

  /** What a lookup finds below `parent` is a tree of the same kind. */
  lemma FoundFacts(parent: Node, id: int)
    requires UniqueIds(parent) && Fits(parent) && ByDequeue(parent, id).Some?
    ensures ByDequeue(parent, id).value.id == id
    ensures UniqueIds(ByDequeue(parent, id).value) && Fits(ByDequeue(parent, id).value)
  {
    FoundIsBelow(parent, id);
    SubtreeFacts(parent, ByDequeue(parent, id).value);
  }

  /** The number in the 32-bit range that differs by a multiple of 2^32. */
  lemma ToInt32Exactly(x: int, y: int)
    ensures ToInt32(x) == y <==> -0x8000_0000 <= y < 0x8000_0000 && (x - y) % 0x1_0000_0000 == 0
  {
  }

  lemma ToInt32Fits(x: int)
    requires -0x8000_0000 <= x < 0x8000_0000
    ensures ToInt32(x) == x
  {
    ToInt32Exactly(x, x);
  }

  /** Looking up a listed child below its parent finds it. */
  lemma ChildIsFound(n: Node, p: Policy, i: nat)
    requires UniqueIds(n) && Fits(n) && i < |Children(n, p)|
    ensures var c := Children(n, p)[i];
      ToInt32(c.id) == c.id && ByDequeue(n, c.id) == Some(c) && Size(c) < Size(n)
  {
    var c := Children(n, p)[i];
    ChildFacts(n, p, c);
    assert c in Preorder(n);
    ToInt32Fits(c.id);
    DequeueFindsTheNode(n, c);
    SizeOfMember(Children(n, p), i);
  }

  lemma {:induction false} SizeOfMember(ns: seq<Node>, i: nat)
    requires i < |ns|
    ensures Size(ns[i]) <= Sizes(ns)
  {
    if i > 0 {
      SizeOfMember(ns[1..], i - 1);
    }
  }

  lemma FoundIsBelow(parent: Node, id: int)
    requires ByDequeue(parent, id).Some?
    ensures ByDequeue(parent, id).value in Preorder(parent)
    ensures ByDequeue(parent, id).value.id == id
  {
    LevelsBelow(parent);
    InLevels(parent.children, ByDequeue(parent, id).value);
  }

  // ----- the flat list of ids -----

  method GetChildFromNodeId(uiNode: Node, children: ListRef<int>, pageId: int)
    modifies children
    ensures children.items == old(children.items) + Narrow(Flat(uiNode, Listing(pageId)))
    decreases uiNode, 1
  {
    if uiNode.frame {
      if uiNode.tag == "stage" {
      } else if uiNode.tag == "page" {
        if uiNode.pageId != pageId {
          return;
        }
      } else if !uiNode.internal {
        children.items := children.items + [ToInt32(uiNode.id)];
        return;
      }
    }
    GetChildrenFromNodeIds(uiNode.children, children, pageId);
  }

  /** The loop over child nodes, which the source writes out in two places. */
  method GetChildrenFromNodeIds(uiNodes: seq<Node>, children: ListRef<int>, pageId: int)
    modifies children
    ensures children.items == old(children.items) + Narrow(FlatAll(uiNodes, Listing(pageId)))
    decreases uiNodes, 0
  {
    NarrowedEnds(uiNodes, Listing(pageId));
    for i := 0 to |uiNodes|
      invariant children.items == old(children.items) + Narrowed(uiNodes, i, Listing(pageId))
    {
      NarrowedNext(uiNodes, i, Listing(pageId));
      Associative(
        old(children.items), Narrowed(uiNodes, i, Listing(pageId)), Narrow(Flat(uiNodes[i], Listing(pageId))));
      GetChildFromNodeId(uiNodes[i], children, pageId);
    }
  }

  /** What the first `i` nodes of a list contribute to the child ids. */
  function Narrowed(ns: seq<Node>, i: nat, p: Policy): seq<int>
    requires i <= |ns|
  {
    Narrow(FlatAll(ns[..i], p))
  }

  lemma NarrowedEnds(ns: seq<Node>, p: Policy)
    ensures Narrowed(ns, 0, p) == []
    ensures Narrowed(ns, |ns|, p) == Narrow(FlatAll(ns, p))
  {
    assert ns[..|ns|] == ns;
  }

  lemma NarrowedNext(ns: seq<Node>, i: nat, p: Policy)
    requires i < |ns|
    ensures Narrowed(ns, i + 1, p) == Narrowed(ns, i, p) + Narrow(Flat(ns[i], p))
  {
    assert ns[..i + 1] == ns[..i] + [ns[i]];
    FlatAllAppend(ns[..i], [ns[i]], p);
    FlatAllOne(ns[i], p);
  }

  method GetComponentsId(componentids: ListRef<int>, parent: Node, nodeID: int, pageId: int)
    requires UniqueIds(parent) && Fits(parent)
    modifies componentids
    ensures componentids.items == old(componentids.items) + ListedIds(ByDequeue(parent, nodeID), Listing(pageId))
    decreases FoundSize(parent, nodeID), 1
  {
    var found := GetInspectorById(parent, nodeID);
    if found.None? || !found.value.active {
      return;
    }
    var node := found.value;
    FoundFacts(parent, nodeID);
    assert Ids([node]) == [nodeID];
    componentids.items := componentids.items + [nodeID];
    var children := new ListRef<int>([]);
    GetChildrenFromNodeIds(node.children, children, pageId);
    GetEachComponentsId(componentids, node, children.items, pageId);
    ghost var walked := WalkAll(Children(node, Listing(pageId)), Listing(pageId));
    IdsAppend([node], walked);
    Associative(old(componentids.items), [nodeID], Ids(walked));
  }

  /** The second loop of GetComponentsId. */
  method GetEachComponentsId(componentids: ListRef<int>, node: Node, children: seq<int>, pageId: int)
    requires UniqueIds(node) && Fits(node) && children == Narrow(Children(node, Listing(pageId)))
    modifies componentids
    ensures componentids.items
         == old(componentids.items) + Ids(WalkAll(Children(node, Listing(pageId)), Listing(pageId)))
    decreases Size(node), 0
  {
    WalkedIdsEnds(node, Listing(pageId));
    for index := 0 to |children|
      invariant componentids.items == old(componentids.items) + WalkedIds(node, index, Listing(pageId))
    {
      ChildListed(node, pageId, index);
      Associative(old(componentids.items), WalkedIds(node, index, Listing(pageId)),
                  ListedIds(ByDequeue(node, children[index]), Listing(pageId)));
      GetComponentsId(componentids, node, children[index], pageId);
    }
  }

  /** What a lookup adds to the list of ids. */
  function ListedIds(found: Option<Node>, p: Policy): seq<int> {
    if found.Some? && found.value.active then Ids(Walk(found.value, p)) else []
  }

  lemma ChildListed(n: Node, pageId: int, k: nat)
    requires UniqueIds(n) && Fits(n) && k < |Children(n, Listing(pageId))|
    ensures var p := Listing(pageId); var id := Narrow(Children(n, p))[k];
      && WalkedIds(n, k + 1, p) == WalkedIds(n, k, p) + ListedIds(ByDequeue(n, id), p)
      && FoundSize(n, id) < Size(n)
  {
    ChildIsFound(n, Listing(pageId), k);
    WalkedIdsNext(n, k, Listing(pageId));
  }

  /** The ids of the walks of the first `k` children. */
  function WalkedIds(n: Node, k: nat, p: Policy): seq<int>
    requires k <= |Children(n, p)|
  {
    Ids(WalkAll(Children(n, p)[..k], p))
  }

  lemma WalkedIdsEnds(n: Node, p: Policy)
    ensures WalkedIds(n, 0, p) == []
    ensures WalkedIds(n, |Children(n, p)|, p) == Ids(WalkAll(Children(n, p), p))
  {
    assert Children(n, p)[..|Children(n, p)|] == Children(n, p);
  }

  lemma WalkedIdsNext(n: Node, k: nat, p: Policy)
    requires k < |Children(n, p)|
    ensures var c := Children(n, p)[k];
      WalkedIds(n, k + 1, p) == WalkedIds(n, k, p) + if Entered(c, p) then Ids(Walk(c, p)) else []
  {
    var kids := Children(n, p);
    assert kids[..k + 1] == kids[..k] + [kids[k]];
    WalkAllAppend(kids[..k], [kids[k]], p);
    WalkOne(kids[k], p);
    IdsAppend(WalkAll(kids[..k], p), WalkAll([kids[k]], p));
  }

  // ----- the nested records -----

  method GetChildFromNode(uiNode: Node, children: ListRef<int>, pageId: int, slots: ListRef<ComponentInfo>)
    modifies children, slots
    ensures children.items == old(children.items) + Narrow(Flat(uiNode, Listing(pageId)))
    ensures slots.items == old(slots.items) + Blanks(|Flat(uiNode, Listing(pageId))|)
    decreases uiNode, 1
  {
    if uiNode.frame {
      if uiNode.tag == "stage" {
      } else if uiNode.tag == "page" {
        if uiNode.pageId != pageId {
          return;
        }
      } else if !uiNode.internal {
        children.items := children.items + [ToInt32(uiNode.id)];
        slots.items := slots.items + [BLANK];
        assert Blanks(1) == [BLANK];
        return;
      }
    }
    GetChildrenFromNodes(uiNode.children, children, pageId, slots);
  }

  /** The loop over child nodes, which the source writes out in two places. */
  method GetChildrenFromNodes(
      uiNodes: seq<Node>, children: ListRef<int>, pageId: int, slots: ListRef<ComponentInfo>)
    modifies children, slots
    ensures children.items == old(children.items) + Narrow(FlatAll(uiNodes, Listing(pageId)))
    ensures slots.items == old(slots.items) + Blanks(|FlatAll(uiNodes, Listing(pageId))|)
    decreases uiNodes, 0
  {
    NarrowedEnds(uiNodes, Listing(pageId));
    for i := 0 to |uiNodes|
      invariant children.items == old(children.items) + Narrowed(uiNodes, i, Listing(pageId))
      invariant slots.items == old(slots.items) + Blanks(|Narrowed(uiNodes, i, Listing(pageId))|)
    {
      ghost var done, more := Narrowed(uiNodes, i, Listing(pageId)), Flat(uiNodes[i], Listing(pageId));
      NarrowedNext(uiNodes, i, Listing(pageId));
      BlanksAppend(|done|, |more|);
      Associative(old(children.items), done, Narrow(more));
      Associative(old(slots.items), Blanks(|done|), Blanks(|more|));
      GetChildFromNode(uiNodes[i], children, pageId, slots);
    }
  }

  function Blanks(n: nat): seq<ComponentInfo> {
    seq(n, _ => BLANK)
  }

  lemma BlanksAppend(m: nat, n: nat)
    ensures Blanks(m + n) == Blanks(m) + Blanks(n)
  {
  }

  /** The records of the first `n` children, and blanks for the others. */
  function SlotsUpTo(kids: seq<Node>, n: nat, p: Policy): seq<ComponentInfo>
    requires n <= |kids|
  {
    Slots(kids[..n], p) + Blanks(|kids| - n)
  }

  lemma SlotsUpToNext(kids: seq<Node>, n: nat, p: Policy)
    requires n < |kids|
    ensures SlotsUpTo(kids, n, p)[n] == BLANK
    ensures SlotsUpTo(kids, n + 1, p)
         == SlotsUpTo(kids, n, p)[n := if Entered(kids[n], p) then Component(kids[n], p) else BLANK]
  {
    assert kids[..n + 1] == kids[..n] + [kids[n]];
    SlotsAppend(kids[..n], [kids[n]], p);
    SlotsOne(kids[n], p);
  }

  lemma SlotsUpToEnd(kids: seq<Node>, p: Policy)
    ensures SlotsUpTo(kids, |kids|, p) == Slots(kids, p)
    ensures SlotsUpTo(kids, 0, p) == Blanks(|kids|)
  {
    assert kids[..|kids|] == kids;
  }

  /** Returns the new content of the record it is handed. */
  method GetComponents(parentComponent: ComponentInfo, parent: Node, nodeID: int, pageId: int)
    returns (r: ComponentInfo)
    requires UniqueIds(parent) && Fits(parent)
    ensures r == ListedComponent(ByDequeue(parent, nodeID), parentComponent, Listing(pageId))
    decreases FoundSize(parent, nodeID), 1
  {
    var found := GetInspectorById(parent, nodeID);
    if found.None? || !found.value.active {
      return parentComponent;
    }
    var node := found.value;
    FoundFacts(parent, nodeID);
    var children := new ListRef<int>([]);
    var slots := new ListRef<ComponentInfo>([]);
    GetChildrenFromNodes(node.children, children, pageId, slots);
    var filled := GetEachComponents(slots.items, node, children.items, pageId);
    return ComponentInfo(node.inspector, node.tag, filled);
  }

  /** The second loop of GetComponents. */
  method GetEachComponents(blanks: seq<ComponentInfo>, node: Node, children: seq<int>, pageId: int)
    returns (slots: seq<ComponentInfo>)
    requires UniqueIds(node) && Fits(node) && children == Narrow(Children(node, Listing(pageId)))
    requires blanks == Blanks(|children|)
    ensures slots == Slots(Children(node, Listing(pageId)), Listing(pageId))
    decreases Size(node), 0
  {
    ghost var p := Listing(pageId);
    ghost var kids := Children(node, p);
    slots := blanks;
    SlotsUpToEnd(kids, p);
    for index := 0 to |children|
      invariant slots == SlotsUpTo(kids, index, p)
    {
      ChildIsFound(node, p, index);
      SlotsUpToNext(kids, index, p);
      var filled := GetComponents(slots[index], node, children[index], pageId);
      slots := slots[index := filled];
    }
  }

  /** What a lookup leaves in the record it is handed. */
  function ListedComponent(found: Option<Node>, parentComponent: ComponentInfo, p: Policy): ComponentInfo {
    if found.Some? && found.value.active then Component(found.value, p) else parentComponent
  }

  // ----- main results -----

  /** The filled-in records, in preorder. */
  function Filled(c: ComponentInfo): seq<(string, string)> {
    if c.kind == "" then [] else [(c.compid, c.kind)] + FilledAll(c.children)
  }

  function FilledAll(cs: seq<ComponentInfo>): seq<(string, string)> {
    if cs == [] then [] else Filled(cs[0]) + FilledAll(cs[1..])
  }

  function Described(ns: seq<Node>): seq<(string, string)> {
    seq(|ns|, i requires 0 <= i < |ns| => (ns[i].inspector, ns[i].tag))
  }

  predicate Tagged(n: Node) {
    forall x :: x in Preorder(n) && x.frame ==> x.tag != ""
  }

  lemma DescribedAppend(a: seq<Node>, b: seq<Node>)
    ensures Described(a + b) == Described(a) + Described(b)
  {
  }

  /** A tree for which the filled-in records can be told from the blank ones. */
  predicate Listable(n: Node) {
    UniqueIds(n) && Tagged(n) && n.frame
  }

  lemma ChildIsListable(n: Node, p: Policy, c: Node)
    requires Listable(n) && c in Children(n, p)
    ensures Listable(c)
  {
    ChildFacts(n, p, c);
  }

  lemma {:induction false} FilledIsWalk(n: Node, p: Policy)
    requires Listable(n)
    ensures Filled(Component(n, p)) == Described(Walk(n, p))
    decreases Size(n), 1
  {
    assert n in Preorder(n);
    forall c | c in Children(n, p) ensures Listable(c) {
      ChildIsListable(n, p, c);
    }
    FilledAllIsWalk(Children(n, p), p);
    DescribedAppend([n], WalkAll(Children(n, p), p));
  }

  lemma {:induction false} FilledAllIsWalk(ns: seq<Node>, p: Policy)
    requires forall n :: n in ns ==> Listable(n)
    ensures FilledAll(Slots(ns, p)) == Described(WalkAll(ns, p))
    decreases Sizes(ns), 2, |ns|
  {
    if ns != [] {
      if Entered(ns[0], p) {
        FilledIsWalk(ns[0], p);
      }
      FilledAllIsWalk(ns[1..], p);
      SlotsFirst(ns, p);
      DescribedAppend(if Entered(ns[0], p) then Walk(ns[0], p) else [], WalkAll(ns[1..], p));
    }
  }

  lemma SlotsFirst(ns: seq<Node>, p: Policy)
    requires ns != []
    ensures FilledAll(Slots(ns, p))
         == (if Entered(ns[0], p) then Filled(Component(ns[0], p)) else []) + FilledAll(Slots(ns[1..], p))
  {
    assert Slots(ns, p)[1..] == Slots(ns[1..], p);
    assert Filled(BLANK) == [];
  }

  /** Asked about the same page, the two listings agree: the filled-in records in preorder
      describe, one for one, the nodes whose ids are listed; these are the root and the eligible
      nodes in sight below it, in the order of the UI tree. */
  lemma ListingsAgree(root: Node, pageId: int)
    requires Listable(root)
    ensures var ns := [root] + OnlyEligible(SeenAll(root.children, Listing(pageId)));
      Filled(Component(root, Listing(pageId))) == Described(ns) && Ids(Walk(root, Listing(pageId))) == Ids(ns)
  {
    FilledIsWalk(root, Listing(pageId));
    WalkFrom(root, Listing(pageId));
  }

  /** A chain below `n` along which a listing on a page finds the child `c`. */
  predicate ListsAlong(n: Node, pageId: int, above: seq<Node>, c: Node) {
    && Chain(n.children, above, c)
    && c.frame && c.tag != "page" && c.tag != "stage" && !c.internal
    && forall m :: m in above && m.frame ==>
         if m.tag == "page" then m.pageId == pageId else m.tag == "stage" || m.internal
  }

  /** The same for the nodes it visits: it also goes on through active nodes, and only through
      those. */
  predicate GoesAlong(n: Node, pageId: int, above: seq<Node>, x: Node) {
    && Chain(n.children, above, x)
    && x.frame && x.tag != "page" && x.tag != "stage" && !x.internal && x.active
    && forall m :: m in above && m.frame ==>
         if m.tag == "page" then m.pageId == pageId else m.tag == "stage" || m.internal || m.active
  }

  /** Which children a component record has a place for, and which nodes both listings go to: on
      the page asked for, whether or not pages, stages and internal frames are active. */
  lemma ListingExactly(n: Node, pageId: int, x: Node)
    ensures x in Children(n, Listing(pageId)) <==> exists above :: ListsAlong(n, pageId, above, x)
    ensures x in Walk(n, Listing(pageId)) <==> x == n || exists above :: GoesAlong(n, pageId, above, x)
  {
    var p := Listing(pageId);
    ListedExactly(n.children, p, x);
    VisitedExactly(n, p, x);
    assert forall above :: ListedAlong(n.children, p, above, x) <==> ListsAlong(n, pageId, above, x);
    assert forall above :: VisitedAlong(n.children, p, above, x) <==> GoesAlong(n, pageId, above, x);
  }

  lemma RootIsFound(root: Node)
    requires UniqueIds(root) && Fits(root) && root.frame
    ensures ToInt32(root.id) == root.id && ByDequeue(root, root.id) == Some(root)
  {
    assert root in Preorder(root);
    DequeueFindsTheNode(root, root);
  }

  // Both listings of a whole tree, with what the callers' checks let through.

  method GetAllComponentsId(componentids: ListRef<int>, root: Node, page: Option<int>)
    requires UniqueIds(root) && Fits(root) && root.frame
    modifies componentids
    ensures componentids.items == old(componentids.items)
          + if root.active then Ids(Walk(root, Listing(if page.Some? then page.value else -1))) else []
  {
    var pageId := if page.Some? then page.value else -1;
    RootIsFound(root);
    GetComponentsId(componentids, root, ToInt32(root.id), pageId);
  }

  method GetAllComponents(root: Node, page: Option<int>, rootComponent: ComponentInfo)
    returns (ok: bool, r: ComponentInfo)
    requires UniqueIds(root) && Fits(root) && root.frame
    ensures ok == page.Some?
    ensures r == if ok && root.active then Component(root, Listing(page.value)) else rootComponent
  {
    if page.None? {
      return false, rootComponent;
    }
    RootIsFound(root);
    r := GetComponents(rootComponent, root, ToInt32(root.id), page.value);
    return true, r;
  }
}
