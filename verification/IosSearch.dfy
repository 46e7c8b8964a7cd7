/** The recursive search that collects element infos: each step looks its node up again by id,
    from the root. */
module IosSearch {
  import opened Wrappers
  import opened UiTree
  import opened NodeLookup
  import opened Flattening
  import opened ElementInfos
  import opened Components

  const DEFAULT_ELEMENT_ID := -1

  /** The search drops inactive frames, passes over level-no children, and closes groups. */
  function Searching(pageId: int): Policy {
    Policy(
      pageId := pageId, anyPage := false, activeOnly := true,
      skipInactive := false, skipLevelNo := true, groupsStop := true)
  }

  function InfoOf(n: Node, pageId: int): Info {
    Info(n.id, n.tag, Ids(Children(n, Searching(pageId))))
  }

  function InfosOf(ns: seq<Node>, pageId: int): seq<Info> {
    seq(|ns|, i requires 0 <= i < |ns| => InfoOf(ns[i], pageId))
  }

  /** No id is the default element id, which stands for the root. */
  predicate NoDefaultId(n: Node) {
    forall x :: x in Preorder(n) ==> x.id != DEFAULT_ELEMENT_ID
  }

  /** The node a search for the id starts from. */
  function Target(root: Node, elementId: int): Option<Node> {
    ByEnqueue(root, if elementId == DEFAULT_ELEMENT_ID then root.id else elementId)
  }

  /** What a search for the id collects. */
  function Collected(root: Node, elementId: int, pageId: int): seq<Info> {
    match Target(root, elementId)
    case None => []
    case Some(n) => InfosOf(Walk(n, Searching(pageId)), pageId)
  }

  function TargetSize(root: Node, elementId: int): nat {
    match Target(root, elementId)
    case None => 0
    case Some(n) => Size(n)
  }

  // ----- the search -----

  method GetFrameNodeChildren(uiNode: Node, children: ListRef<int>, pageId: int)
    modifies children
    ensures children.items == old(children.items) + Narrow(Flat(uiNode, Searching(pageId)))
    decreases uiNode, 1
  {
    if uiNode.frame {
      if !uiNode.active {
        return;
      }
      if uiNode.tag == "stage" {
      } else if uiNode.tag == "page" {
        if uiNode.pageId != pageId {
          return;
        }
      } else if !uiNode.internal {
        children.items := children.items + [ToInt32(uiNode.id)];
        return;
      }
    }
    GetAllFrameNodeChildren(uiNode.children, children, pageId);
  }

  /** The loop over child nodes, which the source writes out in two places. */
  method GetAllFrameNodeChildren(uiNodes: seq<Node>, children: ListRef<int>, pageId: int)
    modifies children
    ensures children.items == old(children.items) + Narrow(FlatAll(uiNodes, Searching(pageId)))
    decreases uiNodes, 0
  {
    NarrowedEnds(uiNodes, Searching(pageId));
    for i := 0 to |uiNodes|
      invariant children.items == old(children.items) + Narrowed(uiNodes, i, Searching(pageId))
    {
      NarrowedNext(uiNodes, i, Searching(pageId));
      Associative(
        old(children.items), Narrowed(uiNodes, i, Searching(pageId)), Narrow(Flat(uiNodes[i], Searching(pageId))));
      GetFrameNodeChildren(uiNodes[i], children, pageId);
    }
  }

  /** The child ids an element info is given: none for a group other than the root element. */
  method UpdateChildrenOfAccessibilityElementInfo(node: Node, pageId: int, ifAbsent: bool)
    returns (childIds: seq<int>)
    requires UniqueIds(node) && Fits(node)
    ensures childIds == Ids(Children(node, Searching(pageId)))
  {
    childIds := [];
    if !node.group || node.tag == "root" {
      var children := new ListRef<int>([]);
      GetAllFrameNodeChildren(node.children, children, pageId);
      NarrowIsIds(node, Searching(pageId));
      ListedOnce(node, Searching(pageId));
      childIds := AddChildren(children.items, ifAbsent);
    }
  }

  /** Child ids survive the narrowing to 32 bits. */
  lemma NarrowIsIds(n: Node, p: Policy)
    requires UniqueIds(n) && Fits(n)
    ensures Narrow(FlatAll(n.children, p)) == Ids(FlatAll(n.children, p))
  {
    forall c | c in FlatAll(n.children, p) ensures ToInt32(c.id) == c.id {
      ChildFacts(n, p, c);
      assert c in Preorder(c);
    }
  }

  method SearchElementInfoByAccessibilityIdNG(
      elementId: int, infos: ListRef<Info>, root: Node, pageId: int, ifAbsent: bool)
    requires UniqueIds(root) && Fits(root) && NoDefaultId(root) && root.frame
    modifies infos
    ensures infos.items == old(infos.items) + Collected(root, elementId, pageId)
    decreases TargetSize(root, elementId), 1
  {
    var nodeId := elementId;
    if elementId == DEFAULT_ELEMENT_ID {
      nodeId := root.id;
    }
    var found := GetFramenodeByAccessibilityId(root, nodeId);
    if found.None? {
      return;
    }
    var node := found.value;
    TargetFacts(root, elementId);
    var childIds := UpdateChildrenOfAccessibilityElementInfo(node, pageId, ifAbsent);
    infos.items := infos.items + [Info(node.id, node.tag, childIds)];
    SearchEachChild(node, childIds, infos, root, pageId, ifAbsent);
    WalkInfos(node, pageId);
    Associative(old(infos.items), [InfoOf(node, pageId)], ChildInfos(node, pageId));
  }

  /** The infos below a node. */
  function ChildInfos(n: Node, pageId: int): seq<Info> {
    InfosOf(WalkAll(Children(n, Searching(pageId)), Searching(pageId)), pageId)
  }

  lemma WalkInfos(n: Node, pageId: int)
    ensures InfosOf(Walk(n, Searching(pageId)), pageId) == [InfoOf(n, pageId)] + ChildInfos(n, pageId)
  {
    InfosAppend([n], WalkAll(Children(n, Searching(pageId)), Searching(pageId)), pageId);
  }

  /** The loop of the search over the child ids it has just recorded. */
  method SearchEachChild(node: Node, childIds: seq<int>, infos: ListRef<Info>,
      root: Node, pageId: int, ifAbsent: bool)
    requires UniqueIds(root) && Fits(root) && NoDefaultId(root) && root.frame
    requires node in Preorder(root) && childIds == Ids(Children(node, Searching(pageId)))
    modifies infos
    ensures infos.items == old(infos.items) + ChildInfos(node, pageId)
    decreases Size(node), 0
  {
    WalkedEnds(node, pageId);
    for i := 0 to |childIds|
      invariant infos.items == old(infos.items) + Walked(node, i, pageId)
    {
      ChildCollected(root, node, pageId, i);
      Associative(old(infos.items), Walked(node, i, pageId), Collected(root, childIds[i], pageId));
      SearchElementInfoByAccessibilityIdNG(childIds[i], infos, root, pageId, ifAbsent);
    }
  }

  lemma TargetFacts(root: Node, elementId: int)
    requires UniqueIds(root) && Fits(root) && root.frame && Target(root, elementId).Some?
    ensures var n := Target(root, elementId).value; n in Preorder(root) && UniqueIds(n) && Fits(n)
  {
    var n := Target(root, elementId).value;
    InLevels(root.children, n);
    SubtreeFacts(root, n);
  }

  /** Looking up a listed child from the root finds it, unless it is level-no. */
  lemma ChildTarget(root: Node, n: Node, pageId: int, i: nat)
    requires UniqueIds(root) && NoDefaultId(root) && n in Preorder(root)
    requires i < |Children(n, Searching(pageId))|
    ensures var c := Children(n, Searching(pageId))[i];
      Target(root, c.id) == (if Entered(c, Searching(pageId)) then Some(c) else None) && Size(c) < Size(n)
  {
    var c := Children(n, Searching(pageId))[i];
    SubtreeFacts(root, n);
    ChildFacts(n, Searching(pageId), c);
    assert c in Preorder(c);
    SizeOfMember(Children(n, Searching(pageId)), i);
    NotTheRoot(root, n, c);
    EnqueueFindsTheNode(root, c);
  }

  lemma NotTheRoot(root: Node, n: Node, c: Node)
    requires n in Preorder(root) && Size(c) < Size(n)
    ensures c != root
  {
    if n != root {
      var before, after := SubtreeIsPart(root.children, n);
      PartIsSmaller(root.children, n);
    }
  }

  lemma {:induction false} PartIsSmaller(ns: seq<Node>, n: Node)
    requires n in PreorderAll(ns)
    ensures Size(n) <= Sizes(ns)
    decreases ns
  {
    if n in PreorderAll(ns[1..]) {
      PartIsSmaller(ns[1..], n);
    } else if n != ns[0] {
      PartIsSmaller(ns[0].children, n);
    }
  }

  /** The infos of the walks of the first `k` children. */
  function Walked(n: Node, k: nat, pageId: int): seq<Info>
    requires k <= |Children(n, Searching(pageId))|
  {
    InfosOf(WalkAll(Children(n, Searching(pageId))[..k], Searching(pageId)), pageId)
  }

  lemma InfosAppend(a: seq<Node>, b: seq<Node>, pageId: int)
    ensures InfosOf(a + b, pageId) == InfosOf(a, pageId) + InfosOf(b, pageId)
  {
  }

  lemma WalkedEnds(n: Node, pageId: int)
    ensures Walked(n, 0, pageId) == []
    ensures var kids := Children(n, Searching(pageId));
      Walked(n, |kids|, pageId) == ChildInfos(n, pageId)
  {
    var kids := Children(n, Searching(pageId));
    assert kids[..|kids|] == kids;
  }

  lemma WalkedNext(n: Node, k: nat, pageId: int)
    requires k < |Children(n, Searching(pageId))|
    ensures var p := Searching(pageId); var c := Children(n, p)[k];
      Walked(n, k + 1, pageId)
        == Walked(n, k, pageId) + if Entered(c, p) then InfosOf(Walk(c, p), pageId) else []
  {
    var p := Searching(pageId);
    var kids := Children(n, p);
    assert kids[..k + 1] == kids[..k] + [kids[k]];
    WalkAllAppend(kids[..k], [kids[k]], p);
    WalkOne(kids[k], p);
    InfosAppend(WalkAll(kids[..k], p), WalkAll([kids[k]], p), pageId);
  }

  lemma ChildCollected(root: Node, n: Node, pageId: int, k: nat)
    requires UniqueIds(root) && NoDefaultId(root) && n in Preorder(root)
    requires k < |Children(n, Searching(pageId))|
    ensures var id := Ids(Children(n, Searching(pageId)))[k];
      && Walked(n, k + 1, pageId) == Walked(n, k, pageId) + Collected(root, id, pageId)
      && TargetSize(root, id) < Size(n)
  {
    ChildTarget(root, n, pageId, k);
    WalkedNext(n, k, pageId);
  }

  // ----- main result -----

  /** A search from a node collects the infos of the node and of the eligible nodes in sight below
      it, in the order of the UI tree and each once; level-no nodes and closed groups hide what is
      below them. */
  lemma SearchIsPreorder(n: Node, pageId: int)
    requires UniqueIds(n)
    ensures var p := Searching(pageId);
      && Walk(n, p) == [n] + (if Opened(n, p) then OnlyEligible(SeenAll(n.children, p)) else [])
      && DistinctIds(Walk(n, p))
      && (forall x :: x in Walk(n, p) && x != n ==> !x.levelNo && x.active)
  {
    var p := Searching(pageId);
    WalkFrom(n, p);
    WalkIsDistinct(n, p);
    SeenIsShown(n.children, pageId);
  }

  /** A chain below `n` along which the child `c` is recorded: through active frames only, on the
      page asked for. */
  predicate RecordsAlong(n: Node, pageId: int, above: seq<Node>, c: Node) {
    && Chain(n.children, above, c)
    && c.frame && c.tag != "page" && c.tag != "stage" && !c.internal && c.active
    && forall m :: m in above && m.frame ==>
         m.active && if m.tag == "page" then m.pageId == pageId else m.tag == "stage" || m.internal
  }

  /** The same for the nodes the search goes to: it also goes on through nodes that are neither
      level-no nor closed groups. */
  predicate SearchesAlong(n: Node, pageId: int, above: seq<Node>, x: Node) {
    && Chain(n.children, above, x)
    && x.frame && x.tag != "page" && x.tag != "stage" && !x.internal && x.active && !x.levelNo
    && forall m :: m in above && m.frame ==>
         m.active && if m.tag == "page" then m.pageId == pageId
                     else m.tag == "stage" || m.internal || (!m.levelNo && (!m.group || m.tag == "root"))
  }

  /** The node itself, or a node to which such a chain leads, unless the node is a closed group. */
  ghost predicate Searches(n: Node, pageId: int, x: Node) {
    x == n || ((!n.group || n.tag == "root") && exists above :: SearchesAlong(n, pageId, above, x))
  }

  lemma RecordedExactly(n: Node, pageId: int, c: Node)
    ensures c in Children(n, Searching(pageId))
       <==> (!n.group || n.tag == "root") && exists above :: RecordsAlong(n, pageId, above, c)
  {
    ListedExactly(n.children, Searching(pageId), c);
    assert forall above :: ListedAlong(n.children, Searching(pageId), above, c) <==> RecordsAlong(n, pageId, above, c);
  }

  lemma SearchedExactly(n: Node, pageId: int, x: Node)
    ensures x in Walk(n, Searching(pageId)) <==> Searches(n, pageId, x)
  {
    VisitedExactly(n, Searching(pageId), x);
    assert forall above ::
      VisitedAlong(n.children, Searching(pageId), above, x) <==> SearchesAlong(n, pageId, above, x);
  }

  lemma InfoMember(ns: seq<Node>, pageId: int, i: Info)
    ensures i in InfosOf(ns, pageId) <==> exists x :: x in ns && i == InfoOf(x, pageId)
  {
    if i in InfosOf(ns, pageId) {
      var k :| 0 <= k < |ns| && InfosOf(ns, pageId)[k] == i;
      assert ns[k] in ns;
    }
    if x :| x in ns && i == InfoOf(x, pageId) {
      var k :| 0 <= k < |ns| && ns[k] == x;
      assert InfosOf(ns, pageId)[k] == i;
    }
  }

  /** Where a search starts: at the root for its own id and for -1, and else at the first frame node
      below it in level order that has the id and is not level-no. */
  lemma TargetExactly(root: Node, elementId: int, n: Node)
    ensures Target(root, elementId) == Some(n)
       <==> if elementId == -1 || elementId == root.id then n == root
            else IsFirst(Levels(root.children), elementId, true, n)
    ensures Target(root, elementId).None? ==> forall pageId :: Collected(root, elementId, pageId) == []
  {
    LookupsFind(root, elementId, n);
  }

  /** What a search collects: an info for the node it starts from, and for each node a chain leads
      to, and no other. */
  lemma CollectedExactly(root: Node, elementId: int, pageId: int, i: Info)
    requires Target(root, elementId).Some?
    ensures i in Collected(root, elementId, pageId)
       <==> exists x :: Searches(Target(root, elementId).value, pageId, x)
                        && i == Info(x.id, x.tag, Ids(Children(x, Searching(pageId))))
  {
    var n := Target(root, elementId).value;
    InfoMember(Walk(n, Searching(pageId)), pageId, i);
    forall x ensures x in Walk(n, Searching(pageId)) <==> Searches(n, pageId, x) {
      SearchedExactly(n, pageId, x);
    }
  }

  lemma {:induction false} SeenIsShown(ns: seq<Node>, pageId: int)
    ensures forall x :: x in SeenAll(ns, Searching(pageId)) && Eligible(x) ==> !x.levelNo && x.active
    decreases ns
  {
    if ns != [] {
      SeenIsShown(ns[0].children, pageId);
      SeenIsShown(ns[1..], pageId);
    }
  }
}
