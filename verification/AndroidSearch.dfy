/** The Android search: infos collected with a queue of nodes, then sorted by their ids. */
module AndroidSearch {
  import opened Wrappers
  import opened UiTree
  import opened NodeLookup
  import opened Flattening
  import opened ElementInfos
  import opened AccessibilityTree
  import BreadthSort
  import IosSearch

  const DEFAULT_ELEMENT_ID := -1

  /** Which nodes are queued: the page id -1 stands for every page here, but not where child ids
      are recorded. */
  function Gathering(pageId: int): Policy {
    Everything(pageId).(anyPage := pageId == -1)
  }

  function InfoOf(n: Node, pageId: int): Info {
    Info(n.id, n.tag, Ids(Children(n, Everything(pageId))))
  }

  function InfosOf(ns: seq<Node>, pageId: int): seq<Info> {
    seq(|ns|, i requires 0 <= i < |ns| => InfoOf(ns[i], pageId))
  }

  /** The nodes the queue loop goes through. */
  function Gathered(queue: seq<Node>, pageId: int): seq<Node>
    decreases Sizes(queue)
  {
    if queue == [] then [] else
    SizesAppend(queue[1..], Children(queue[0], Gathering(pageId)));
    [queue[0]] + Gathered(queue[1..] + Children(queue[0], Gathering(pageId)), pageId)
  }

  /** The infos the queue loop appends. */
  function GatheredInfos(queue: seq<Node>, pageId: int): seq<Info> {
    InfosOf(Gathered(queue, pageId), pageId)
  }

  lemma GatheredFirst(n: Node, rest: seq<Node>, pageId: int)
    ensures GatheredInfos([n] + rest, pageId)
         == [InfoOf(n, pageId)] + GatheredInfos(rest + Children(n, Gathering(pageId)), pageId)
  {
    assert ([n] + rest)[1..] == rest;
  }

  // ----- the search -----

  method GetFrameNodeChildren(uiNode: Node, children: ListRef<Node>, pageId: int)
    modifies children
    ensures children.items == old(children.items) + Flat(uiNode, Gathering(pageId))
    decreases uiNode, 1
  {
    if uiNode.frame {
      if !uiNode.active {
        return;
      }
      if uiNode.tag == "page" {
        if pageId != -1 && uiNode.pageId != pageId {
          return;
        }
      } else if !uiNode.internal && uiNode.tag != "stage" {
        children.items := children.items + [uiNode];
        return;
      }
    }
    GetChildrenFromFrameNode(uiNode.children, children, pageId);
  }

  /** The loop over child nodes, which the source writes out in two places. */
  method GetChildrenFromFrameNode(uiNodes: seq<Node>, children: ListRef<Node>, pageId: int)
    modifies children
    ensures children.items == old(children.items) + FlatAll(uiNodes, Gathering(pageId))
    decreases uiNodes, 0
  {
    FlatUpToEnds(uiNodes, Gathering(pageId));
    for i := 0 to |uiNodes|
      invariant children.items == old(children.items) + FlatUpTo(uiNodes, i, Gathering(pageId))
    {
      FlatUpToNext(uiNodes, i, Gathering(pageId));
      Associative(old(children.items), FlatUpTo(uiNodes, i, Gathering(pageId)), Flat(uiNodes[i], Gathering(pageId)));
      GetFrameNodeChildren(uiNodes[i], children, pageId);
    }
  }

  method GetFrameNodeChildIds(uiNode: Node, children: ListRef<int>, pageId: int)
    modifies children
    ensures children.items == old(children.items) + Ids(Flat(uiNode, Everything(pageId)))
    decreases uiNode, 1
  {
    if uiNode.frame {
      if !uiNode.active {
        return;
      }
      if uiNode.tag == "stage" {
      } else if uiNode.tag == "page" {
        if uiNode.pageId != pageId {
          return;
        }
      } else if !uiNode.internal {
        children.items := children.items + [uiNode.id];
        return;
      }
    }
    GetAllFrameNodeChildIds(uiNode.children, children, pageId);
  }

  /** The loop over child nodes, which the source writes out in two places. */
  method GetAllFrameNodeChildIds(uiNodes: seq<Node>, children: ListRef<int>, pageId: int)
    modifies children
    ensures children.items == old(children.items) + Ids(FlatAll(uiNodes, Everything(pageId)))
    decreases uiNodes, 0
  {
    ghost var p := Everything(pageId);
    FlatUpToEnds(uiNodes, p);
    for i := 0 to |uiNodes|
      invariant children.items == old(children.items) + Ids(FlatUpTo(uiNodes, i, p))
    {
      FlatUpToNext(uiNodes, i, p);
      IdsAppend(FlatUpTo(uiNodes, i, p), Flat(uiNodes[i], p));
      Associative(old(children.items), Ids(FlatUpTo(uiNodes, i, p)), Ids(Flat(uiNodes[i], p)));
      GetFrameNodeChildIds(uiNodes[i], children, pageId);
    }
  }

  /** The child ids an element info is given. */
  method UpdateChildrenOfAccessibilityElementInfo(node: Node, pageId: int, ifAbsent: bool)
    returns (childIds: seq<int>)
    requires UniqueIds(node)
    ensures childIds == Ids(Children(node, Everything(pageId)))
  {
    var children := new ListRef<int>([]);
    GetAllFrameNodeChildIds(node.children, children, pageId);
    ListedOnce(node, Everything(pageId));
    childIds := AddChildren(children.items, ifAbsent);
  }

  /** What the first `i` nodes contribute. */
  function FlatUpTo(ns: seq<Node>, i: nat, p: Policy): seq<Node>
    requires i <= |ns|
  {
    FlatAll(ns[..i], p)
  }

  lemma FlatUpToEnds(ns: seq<Node>, p: Policy)
    ensures FlatUpTo(ns, 0, p) == [] && FlatUpTo(ns, |ns|, p) == FlatAll(ns, p)
  {
    assert ns[..|ns|] == ns;
  }

  lemma FlatUpToNext(ns: seq<Node>, i: nat, p: Policy)
    requires i < |ns|
    ensures FlatUpTo(ns, i + 1, p) == FlatUpTo(ns, i, p) + Flat(ns[i], p)
  {
    assert ns[..i + 1] == ns[..i] + [ns[i]];
    FlatAllAppend(ns[..i], [ns[i]], p);
    FlatAllOne(ns[i], p);
  }

  method UpdateCacheInfoNG(infos: ListRef<Info>, node: Node, pageId: int, recursive: bool, ifAbsent: bool)
    requires UniqueIds(node)
    modifies infos
    ensures infos.items
         == old(infos.items) + if recursive then GatheredInfos(Children(node, Gathering(pageId)), pageId) else []
  {
    if !recursive {
      return;
    }
    var children := new ListRef<Node>([]);
    GetChildrenFromFrameNode(node.children, children, pageId);
    UniqueBelow(node, pageId);
    assert children.items == Children(node, Gathering(pageId));
    while children.items != []
      invariant forall c :: c in children.items ==> UniqueIds(c)
      invariant infos.items + GatheredInfos(children.items, pageId)
             == old(infos.items) + GatheredInfos(Children(node, Gathering(pageId)), pageId)
      decreases Sizes(children.items)
    {
      var parent := children.items[0];
      ghost var rest := children.items[1..];
      ghost var more := Children(parent, Gathering(pageId));
      UniqueBelow(parent, pageId);
      SizesAppend(rest, more);
      assert children.items == [parent] + rest;
      GatheredFirst(parent, rest, pageId);
      Associative(infos.items, [InfoOf(parent, pageId)], GatheredInfos(rest + more, pageId));
      children.items := children.items[1..];
      var childIds := UpdateChildrenOfAccessibilityElementInfo(parent, pageId, ifAbsent);
      infos.items := infos.items + [Info(parent.id, parent.tag, childIds)];
      GetChildrenFromFrameNode(parent.children, children, pageId);
    }
  }

  lemma UniqueBelow(n: Node, pageId: int)
    requires UniqueIds(n)
    ensures forall c :: c in Children(n, Gathering(pageId)) ==> UniqueIds(c)
  {
    forall c | c in Children(n, Gathering(pageId)) ensures UniqueIds(c) {
      ChildFacts(n, Gathering(pageId), c);
    }
  }

  /** The infos before they are sorted. */
  function Unsorted(n: Node, pageId: int, recursive: bool): seq<Info> {
    [InfoOf(n, pageId)] + if recursive then GatheredInfos(Children(n, Gathering(pageId)), pageId) else []
  }

  function Found(root: Node, elementId: int): Option<Node> {
    ByEnqueue(root, if elementId == DEFAULT_ELEMENT_ID then root.id else elementId)
  }

  method SearchElementInfoByAccessibilityIdNG(
      elementId: int, recursive: bool, infos: ListRef<Info>, root: Node, pageId: int, ifAbsent: bool)
    requires UniqueIds(root)
    modifies infos
    ensures infos.items == match Found(root, elementId) {
      case None => old(infos.items)
      case Some(n) => BreadthSort.Sort(old(infos.items) + Unsorted(n, pageId, recursive), [n.id]).0
    }
  {
    var nodeId := elementId;
    if elementId == DEFAULT_ELEMENT_ID {
      nodeId := root.id;
    }
    var found := GetFramenodeByAccessibilityId(root, nodeId);
    if found.None? {
      return;
    }
    var node := found.value;
    InLevels(root.children, node);
    SubtreeFacts(root, node);
    var childIds := UpdateChildrenOfAccessibilityElementInfo(node, pageId, ifAbsent);
    infos.items := infos.items + [Info(node.id, node.tag, childIds)];
    UpdateCacheInfoNG(infos, node, pageId, recursive, ifAbsent);
    assert infos.items == old(infos.items) + Unsorted(node, pageId, recursive);
    BreadthSort.SortExtensionAccessibilityInfo(infos, node.id);
  }

  // ----- main results -----

  /** The queue loop goes through the nodes of the walks of its nodes. */
  lemma {:induction false} GatheredIsWalk(queue: seq<Node>, pageId: int)
    ensures multiset(Gathered(queue, pageId)) == multiset(WalkAll(queue, Gathering(pageId)))
    decreases Sizes(queue)
  {
    if queue != [] {
      var n, rest := queue[0], queue[1..];
      var kids := Children(n, Gathering(pageId));
      SizesAppend(rest, kids);
      GatheredIsWalk(rest + kids, pageId);
      WalkAllAppend(rest, kids, Gathering(pageId));
    }
  }

  /** The eligible nodes in sight below a list of nodes. */
  function InSight(ns: seq<Node>, p: Policy): seq<Node> {
    OnlyEligible(SeenAll(ns, p))
  }

  lemma InSightFirst(n: Node, p: Policy)
    requires !p.skipInactive && !p.skipLevelNo && !p.groupsStop
    ensures OnlyEligible(Seen(n, p))
         == if Dropped(n, p) then [] else (if Eligible(n) then [n] else []) + InSight(n.children, p)
  {
    EligibleFirst(n, SeenAll(n.children, p));
  }

  lemma InSightSplit(ns: seq<Node>, p: Policy)
    requires ns != []
    ensures InSight(ns, p) == OnlyEligible(Seen(ns[0], p)) + InSight(ns[1..], p)
  {
    OnlyEligibleAppend(Seen(ns[0], p), SeenAll(ns[1..], p));
  }

  /** With child ids recorded for fewer pages, no more is in sight. */
  lemma {:induction false} SeenWithinGathered(ns: seq<Node>, pageId: int)
    ensures multiset(InSight(ns, Everything(pageId))) <= multiset(InSight(ns, Gathering(pageId)))
    decreases ns
  {
    if ns != [] {
      var n, rest, e, g := ns[0], ns[1..], Everything(pageId), Gathering(pageId);
      SeenWithinGathered(rest, pageId);
      FirstWithinGathered(n, pageId);
      InSightSplit(ns, e);
      InSightSplit(ns, g);
      BothWithin(OnlyEligible(Seen(n, e)), OnlyEligible(Seen(n, g)), InSight(rest, e), InSight(rest, g));
    }
  }

  lemma {:induction false} FirstWithinGathered(n: Node, pageId: int)
    ensures multiset(OnlyEligible(Seen(n, Everything(pageId)))) <= multiset(OnlyEligible(Seen(n, Gathering(pageId))))
    decreases n
  {
    var e, g := Everything(pageId), Gathering(pageId);
    var self := if Eligible(n) then [n] else [];
    SeenWithinGathered(n.children, pageId);
    InSightFirst(n, e);
    InSightFirst(n, g);
    BothWithin(self, self, InSight(n.children, e), InSight(n.children, g));
  }

  lemma EligibleFirst(n: Node, rest: seq<Node>)
    ensures OnlyEligible([n] + rest) == (if Eligible(n) then [n] else []) + OnlyEligible(rest)
  {
    assert ([n] + rest)[1..] == rest;
  }

  lemma WalkWithinGathered(n: Node, pageId: int)
    ensures multiset(Walk(n, Everything(pageId))) <= multiset(Walk(n, Gathering(pageId)))
  {
    WalkFrom(n, Everything(pageId));
    WalkFrom(n, Gathering(pageId));
    SeenWithinGathered(n.children, pageId);
    PartOfTail(n, OnlyEligible(SeenAll(n.children, Everything(pageId))),
               OnlyEligible(SeenAll(n.children, Gathering(pageId))));
    BothWithin([n], [n], OnlyEligible(SeenAll(n.children, Everything(pageId))),
               OnlyEligible(SeenAll(n.children, Gathering(pageId))));
  }

  /** With this policy every listed child is visited. */
  lemma {:induction false} AccIds(ns: seq<Node>, pageId: int)
    ensures Ids(AccAll(ns, Everything(pageId))) == Ids(ns)
    decreases |ns|
  {
    if ns != [] {
      AccIds(ns[1..], pageId);
      IdsAppend([Acc(ns[0], Everything(pageId))], AccAll(ns[1..], Everything(pageId)));
      IdsAppend([ns[0]], ns[1..]);
      assert ns == [ns[0]] + ns[1..];
    }
  }

  lemma InfosAppend(a: seq<Node>, b: seq<Node>, pageId: int)
    ensures InfosOf(a + b, pageId) == InfosOf(a, pageId) + InfosOf(b, pageId)
  {
  }

  /** The infos of a walk are those of the accessibility tree in preorder. */
  lemma {:induction false} WalkInfos(n: Node, pageId: int)
    ensures InfosOf(Walk(n, Everything(pageId)), pageId) == TreeInfos(Preorder(Acc(n, Everything(pageId))))
    decreases Size(n), 1
  {
    var p := Everything(pageId);
    var kids := Children(n, p);
    WalkAllInfos(kids, pageId);
    AccIds(kids, pageId);
    InfosAppend([n], WalkAll(kids, p), pageId);
    TreeInfosFirst(Acc(n, p), PreorderAll(AccAll(kids, p)));
  }

  lemma {:induction false} WalkAllInfos(ns: seq<Node>, pageId: int)
    ensures InfosOf(WalkAll(ns, Everything(pageId)), pageId)
         == TreeInfos(PreorderAll(AccAll(ns, Everything(pageId))))
    decreases Sizes(ns), 2, |ns|
  {
    if ns != [] {
      var p := Everything(pageId);
      var rest := AccAll(ns[1..], p);
      WalkInfos(ns[0], pageId);
      WalkAllInfos(ns[1..], pageId);
      InfosAppend(Walk(ns[0], p), WalkAll(ns[1..], p), pageId);
      assert ([Acc(ns[0], p)] + rest)[1..] == rest;
      TreeInfosAppend(Preorder(Acc(ns[0], p)), PreorderAll(rest));
    }
  }

  /** The unsorted infos are those of the walk that gathers nodes. */
  lemma UnsortedIsWalk(n: Node, pageId: int)
    ensures multiset(Unsorted(n, pageId, true)) == multiset(InfosOf(Walk(n, Gathering(pageId)), pageId))
  {
    var kids := Children(n, Gathering(pageId));
    var gathered, walked := Gathered(kids, pageId), WalkAll(kids, Gathering(pageId));
    GatheredIsWalk(kids, pageId);
    SameInfosOf([n] + gathered, [n] + walked, pageId);
    InfosAppend([n], gathered, pageId);
    assert InfosOf([n], pageId) == [InfoOf(n, pageId)];
  }

  lemma InfosOfWithin(a: seq<Node>, b: seq<Node>, pageId: int)
    requires multiset(a) <= multiset(b)
    ensures multiset(InfosOf(a, pageId)) <= multiset(InfosOf(b, pageId))
  {
    var f := (n: Node) => InfoOf(n, pageId);
    ImageWithin(f, a, b);
    assert InfosOf(a, pageId) == Image(f, a) && InfosOf(b, pageId) == Image(f, b);
  }

  lemma SameInfosOf(a: seq<Node>, b: seq<Node>, pageId: int)
    requires multiset(a) == multiset(b)
    ensures multiset(InfosOf(a, pageId)) == multiset(InfosOf(b, pageId))
  {
    InfosOfWithin(a, b, pageId);
    InfosOfWithin(b, a, pageId);
  }

  lemma UnsortedDistinct(n: Node, pageId: int)
    requires UniqueIds(n)
    ensures BreadthSort.DistinctIds(Unsorted(n, pageId, true))
  {
    var walk := Walk(n, Gathering(pageId));
    WalkIsDistinct(n, Gathering(pageId));
    var infos := InfosOf(walk, pageId);
    forall i, j | 0 <= i < j < |infos| ensures infos[i].id != infos[j].id {
      assert walk[i].id != walk[j].id;
    }
    UnsortedIsWalk(n, pageId);
    SameDistinct(infos, Unsorted(n, pageId, true));
  }

  lemma SameDistinct(a: seq<Info>, b: seq<Info>)
    requires BreadthSort.DistinctIds(a) && multiset(a) == multiset(b)
    ensures BreadthSort.DistinctIds(b)
  {
    assert multiset(b) + multiset([]) == multiset(a);
    BreadthSort.DistinctOutput(a, b, []);
  }

  lemma PreorderOfOne(a: Node)
    ensures PreorderAll([a]) == Preorder(a)
  {
    assert PreorderAll([a][1..]) == [];
    assert Preorder(a) + [] == Preorder(a);
  }

  lemma LevelInfosOfTree(n: Node, pageId: int)
    ensures multiset(TreeInfos(Levels([Acc(n, Everything(pageId))])))
         == multiset(InfosOf(Walk(n, Everything(pageId)), pageId))
  {
    LevelInfos([Acc(n, Everything(pageId))]);
    PreorderOfOne(Acc(n, Everything(pageId)));
    WalkInfos(n, pageId);
  }

  /** The recursive search of a tree of unique ids yields the infos of its whole accessibility
      tree in level order, starting with the node searched for. For the page id -1 the sort thereby
      drops what was gathered from other pages; for any other it leaves nothing over. */
  lemma SearchIsLevelOrder(n: Node, pageId: int)
    requires UniqueIds(n)
    ensures var (out, left) := BreadthSort.Sort([] + Unsorted(n, pageId, true), [n.id]);
      && out == TreeInfos(Levels([Acc(n, Everything(pageId))]))
      && (pageId != -1 ==> left == [])
  {
    var a := Acc(n, Everything(pageId));
    var infos := Unsorted(n, pageId, true);
    assert [] + infos == infos && Ids([a]) == [n.id];
    UnsortedIsWalk(n, pageId);
    UnsortedDistinct(n, pageId);
    LevelInfosOfTree(n, pageId);
    WalkWithinGathered(n, pageId);
    InfosOfWithin(Walk(n, Everything(pageId)), Walk(n, Gathering(pageId)), pageId);
    SortRecoversLevelOrder(infos, [a]);
    if pageId != -1 {
      SameLength(infos, TreeInfos(Levels([a])));
    }
  }

  /** A chain below `n` along which the child `c` is recorded: through active frames only, on the
      page asked for. */
  predicate RecordsAlong(n: Node, pageId: int, above: seq<Node>, c: Node) {
    && Chain(n.children, above, c)
    && c.frame && c.tag != "page" && c.tag != "stage" && !c.internal && c.active
    && forall m :: m in above && m.frame ==>
         m.active && if m.tag == "page" then m.pageId == pageId else m.tag == "stage" || m.internal
  }

  lemma RecordedExactly(n: Node, pageId: int, c: Node)
    ensures c in Children(n, Everything(pageId)) <==> exists above :: RecordsAlong(n, pageId, above, c)
  {
    ListedExactly(n.children, Everything(pageId), c);
    assert forall above :: ListedAlong(n.children, Everything(pageId), above, c) <==> RecordsAlong(n, pageId, above, c);
  }

  /** The same for the nodes of the accessibility tree: it also goes on through ordinary nodes. */
  predicate SearchesAlong(n: Node, pageId: int, above: seq<Node>, x: Node) {
    && Chain(n.children, above, x)
    && x.frame && x.tag != "page" && x.tag != "stage" && !x.internal && x.active
    && forall m :: m in above && m.frame ==> m.active && (m.tag == "page" ==> m.pageId == pageId)
  }

  /** The node itself, or a node to which such a chain leads. */
  ghost predicate Searches(n: Node, pageId: int, x: Node) {
    x == n || exists above :: SearchesAlong(n, pageId, above, x)
  }

  lemma SearchedExactly(n: Node, pageId: int, x: Node)
    ensures x in Walk(n, Everything(pageId)) <==> Searches(n, pageId, x)
  {
    VisitedExactly(n, Everything(pageId), x);
    assert forall above ::
      VisitedAlong(n.children, Everything(pageId), above, x) <==> SearchesAlong(n, pageId, above, x);
  }

  /** The same for the nodes gathered before the sort: page id -1 stands for every page. */
  predicate GathersAlong(n: Node, pageId: int, above: seq<Node>, x: Node) {
    && Chain(n.children, above, x)
    && x.frame && x.tag != "page" && x.tag != "stage" && !x.internal && x.active
    && forall m :: m in above && m.frame ==> m.active && (m.tag == "page" ==> pageId == -1 || m.pageId == pageId)
  }

  lemma GatheredExactly(n: Node, pageId: int, x: Node)
    ensures x in Gathered(Children(n, Gathering(pageId)), pageId)
       <==> exists above :: GathersAlong(n, pageId, above, x)
  {
    var g := Gathering(pageId);
    VisitedExactly(n, g, x);
    GatheredIsWalk(Children(n, g), pageId);
    assert x in Gathered(Children(n, g), pageId) <==> x in multiset(WalkAll(Children(n, g), g));
    assert forall above :: VisitedAlong(n.children, g, above, x) <==> GathersAlong(n, pageId, above, x);
  }

  lemma InfoMember(ns: seq<Node>, pageId: int, i: Info)
    ensures i in InfosOf(ns, pageId) <==> exists x :: x in ns && i == InfoOf(x, pageId)
  {
    if i in InfosOf(ns, pageId) {
      var k :| 0 <= k < |ns| && InfosOf(ns, pageId)[k] == i;
      assert ns[k] in ns;
    }
    if x :| x in ns && i == InfoOf(x, pageId) {
      var k :| 0 <= k < |ns| && ns[k] == x;
      assert InfosOf(ns, pageId)[k] == i;
    }
  }

  /** Where a search starts: at the root for its own id and for -1, and else at the first frame node
      below it in level order that has the id and is not level-no. */
  lemma FoundExactly(root: Node, elementId: int, n: Node)
    ensures Found(root, elementId) == Some(n)
       <==> if elementId == -1 || elementId == root.id then n == root
            else IsFirst(Levels(root.children), elementId, true, n)
  {
    LookupsFind(root, elementId, n);
  }

  /** What the recursive search reports: an info for the node it starts from, and for each node a
      chain leads to, and no other. */
  lemma ReportedExactly(n: Node, pageId: int, i: Info)
    requires UniqueIds(n)
    ensures i in BreadthSort.Sort([] + Unsorted(n, pageId, true), [n.id]).0
       <==> exists x :: Searches(n, pageId, x) && i == Info(x.id, x.tag, Ids(Children(x, Everything(pageId))))
  {
    var walk := Walk(n, Everything(pageId));
    SearchIsLevelOrder(n, pageId);
    LevelInfosOfTree(n, pageId);
    SameMembers(TreeInfos(Levels([Acc(n, Everything(pageId))])), InfosOf(walk, pageId), i);
    InfoMember(walk, pageId, i);
    forall x ensures x in walk <==> Searches(n, pageId, x) {
      SearchedExactly(n, pageId, x);
    }
  }

  lemma SameMembers<T>(a: seq<T>, b: seq<T>, x: T)
    requires multiset(a) == multiset(b)
    ensures x in a <==> x in b
  {
    assert x in a <==> x in multiset(a);
  }

  /** No node in the tree is level-no or a group that the iOS search closes. */
  predicate Unrestricted(n: Node) {
    forall x :: x in Preorder(n) ==> !x.levelNo && Opened(x, IosSearch.Searching(0))
  }

  /** On such a tree the two platforms walk the same accessibility tree. */
  lemma {:induction false} SameFlat(ns: seq<Node>, pageId: int)
    ensures FlatAll(ns, IosSearch.Searching(pageId)) == FlatAll(ns, Everything(pageId))
    decreases ns
  {
    if ns != [] {
      SameFlat(ns[0].children, pageId);
      SameFlat(ns[1..], pageId);
    }
  }

  lemma {:induction false} SameTree(n: Node, pageId: int)
    requires UniqueIds(n) && Unrestricted(n)
    ensures Walk(n, IosSearch.Searching(pageId)) == Walk(n, Everything(pageId))
    decreases Size(n), 1
  {
    assert n in Preorder(n);
    SameFlat(n.children, pageId);
    var kids := FlatAll(n.children, Everything(pageId));
    forall c | c in kids ensures UniqueIds(c) && Unrestricted(c) && !c.levelNo {
      ChildFacts(n, Everything(pageId), c);
      assert c in Preorder(c);
    }
    SameTrees(kids, pageId);
  }

  lemma {:induction false} SameTrees(ns: seq<Node>, pageId: int)
    requires forall n :: n in ns ==> UniqueIds(n) && Unrestricted(n) && !n.levelNo
    ensures WalkAll(ns, IosSearch.Searching(pageId)) == WalkAll(ns, Everything(pageId))
    decreases Sizes(ns), 2, |ns|
  {
    if ns != [] {
      SameTree(ns[0], pageId);
      SameTrees(ns[1..], pageId);
    }
  }

  lemma SameInfosEach(ns: seq<Node>, pageId: int)
    requires forall x :: x in ns ==> Opened(x, IosSearch.Searching(0))
    ensures IosSearch.InfosOf(ns, pageId) == InfosOf(ns, pageId)
  {
    forall i | 0 <= i < |ns| ensures IosSearch.InfoOf(ns[i], pageId) == InfoOf(ns[i], pageId) {
      assert ns[i] in ns;
      SameFlat(ns[i].children, pageId);
    }
  }

  lemma WalkedIsBelow(n: Node, p: Policy, x: Node)
    requires x in Walk(n, p)
    ensures x in Preorder(n)
  {
    WalkFrom(n, p);
    SeenAllWithin(n.children, p);
    if x != n {
      assert x in multiset(SeenAll(n.children, p));
    }
  }

  /** There the infos the iOS search collects are those of the accessibility tree in preorder. */
  lemma IosInfos(n: Node, pageId: int)
    requires UniqueIds(n) && Unrestricted(n)
    ensures IosSearch.InfosOf(Walk(n, IosSearch.Searching(pageId)), pageId)
         == TreeInfos(Preorder(Acc(n, Everything(pageId))))
  {
    var walk := Walk(n, Everything(pageId));
    SameTree(n, pageId);
    forall x | x in walk ensures Opened(x, IosSearch.Searching(0)) {
      WalkedIsBelow(n, Everything(pageId), x);
    }
    SameInfosEach(walk, pageId);
    WalkInfos(n, pageId);
  }

  /** What the recursive Android search for an id reports. */
  function Reported(root: Node, elementId: int, pageId: int): seq<Info> {
    match Found(root, elementId)
    case None => []
    case Some(n) => BreadthSort.Sort([] + Unsorted(n, pageId, true), [n.id]).0
  }

  lemma FoundFacts(root: Node, elementId: int)
    requires UniqueIds(root) && Unrestricted(root) && Found(root, elementId).Some?
    ensures UniqueIds(Found(root, elementId).value) && Unrestricted(Found(root, elementId).value)
  {
    var n := Found(root, elementId).value;
    InLevels(root.children, n);
    SubtreeFacts(root, n);
  }

  /** On such a tree the searches of the two platforms report the same infos, each once: the Android
      search in the level order, the iOS search in the preorder of the same accessibility tree. */
  lemma SearchesAgree(root: Node, elementId: int, pageId: int)
    requires UniqueIds(root) && Unrestricted(root)
    ensures var android, ios := Reported(root, elementId, pageId), IosSearch.Collected(root, elementId, pageId);
      && multiset(android) == multiset(ios)
      && BreadthSort.DistinctIds(android) && BreadthSort.DistinctIds(ios)
      && match Found(root, elementId)
         case None => android == []
         case Some(n) =>
           var tree := Acc(n, Everything(pageId));
           android == TreeInfos(Levels([tree])) && ios == TreeInfos(Preorder(tree))
  {
    if Found(root, elementId).Some? {
      var n := Found(root, elementId).value;
      var tree := Acc(n, Everything(pageId));
      FoundFacts(root, elementId);
      SearchIsLevelOrder(n, pageId);
      IosInfos(n, pageId);
      LevelInfos([tree]);
      PreorderOfOne(tree);
      TreeIdsDistinct(n, Everything(pageId));
      SameDistinct(TreeInfos(Preorder(tree)), TreeInfos(Levels([tree])));
    }
  }
}
