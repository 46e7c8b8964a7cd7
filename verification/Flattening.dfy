/** The accessibility tree hidden in a UI tree: which nodes become accessibility children of
    which, and in which order a walk over them visits the UI tree. */
module Flattening {
  import opened UiTree
  import opened ElementInfos

  /** How a walk treats frame nodes. `anyPage`: flattening drops no page; otherwise the pages other
      than the given one. `activeOnly`: flattening drops inactive frames. The others
      are about the listed nodes: inactive or level-no ones are not visited, and the children of a
      group other than the root element are not listed. */
  datatype Policy = Policy(
    pageId: int, anyPage: bool, activeOnly: bool, skipInactive: bool, skipLevelNo: bool, groupsStop: bool)

  /** A node that becomes a child in the accessibility tree. */
  predicate Eligible(n: Node) {
    n.frame && n.tag != "stage" && n.tag != "page" && !n.internal
  }

  /** Flattening stops here and lists nothing. */
  predicate Dropped(n: Node, p: Policy) {
    n.frame && ((p.activeOnly && !n.active) || (n.tag == "page" && !p.anyPage && n.pageId != p.pageId))
  }

  /** A listed child that the walk visits. */
  predicate Entered(n: Node, p: Policy) {
    !(p.skipInactive && !n.active) && !(p.skipLevelNo && n.levelNo)
  }

  /** A visited node whose children are listed. */
  predicate Opened(n: Node, p: Policy) {
    !(p.groupsStop && n.group && n.tag != "root")
  }

  // ----- accessibility children -----

  /** The children an UI node contributes to the nearest node above it. */
  function Flat(n: Node, p: Policy): (r: seq<Node>)
    ensures Sizes(r) <= Size(n)
    decreases n, 1
  {
    if Dropped(n, p) then []
    else if Eligible(n) then [n]
    else FlatAll(n.children, p)
  }

  function FlatAll(ns: seq<Node>, p: Policy): (r: seq<Node>)
    ensures Sizes(r) <= Sizes(ns)
    decreases ns, 0
  {
    if ns == [] then [] else
    SizesAppend(Flat(ns[0], p), FlatAll(ns[1..], p));
    Flat(ns[0], p) + FlatAll(ns[1..], p)
  }

  lemma {:induction false} FlatAllAppend(a: seq<Node>, b: seq<Node>, p: Policy)
    ensures FlatAll(a + b, p) == FlatAll(a, p) + FlatAll(b, p)
  {
    if a == [] {
      assert a + b == b;
    } else {
      assert (a + b)[1..] == a[1..] + b;
      FlatAllAppend(a[1..], b, p);
    }
  }

  lemma FlatAllOne(n: Node, p: Policy)
    ensures FlatAll([n], p) == Flat(n, p)
  {
    assert Flat(n, p) + FlatAll([n][1..], p) == Flat(n, p);
  }

  /** The accessibility children of a node. */
  function Children(n: Node, p: Policy): (r: seq<Node>)
    ensures Sizes(r) < Size(n)
  {
    if Opened(n, p) then FlatAll(n.children, p) else []
  }

  // ----- the walk: a node, then the walks of its accessibility children -----

  function Walk(n: Node, p: Policy): seq<Node>
    decreases Size(n), 1
  {
    [n] + WalkAll(Children(n, p), p)
  }

  function WalkAll(ns: seq<Node>, p: Policy): seq<Node>
    decreases Sizes(ns), 2, |ns|
  {
    if ns == [] then []
    else (if Entered(ns[0], p) then Walk(ns[0], p) else []) + WalkAll(ns[1..], p)
  }

  lemma {:induction false} WalkAllAppend(a: seq<Node>, b: seq<Node>, p: Policy)
    ensures WalkAll(a + b, p) == WalkAll(a, p) + WalkAll(b, p)
    decreases |a|
  {
    if a == [] {
      assert a + b == b;
    } else {
      assert (a + b)[1..] == a[1..] + b;
      WalkAllAppend(a[1..], b, p);
    }
  }

  // ----- the reference: a preorder of the UI tree with some subtrees cut off -----

  /** The preorder of the UI tree without the subtrees the walk cannot see. */
  function Seen(n: Node, p: Policy): seq<Node>
    decreases n, 1
  {
    if Dropped(n, p) || (Eligible(n) && !Entered(n, p)) then []
    else if Eligible(n) && !Opened(n, p) then [n]
    else [n] + SeenAll(n.children, p)
  }

  function SeenAll(ns: seq<Node>, p: Policy): seq<Node>
    decreases ns, 0
  {
    if ns == [] then [] else Seen(ns[0], p) + SeenAll(ns[1..], p)
  }

  function OnlyEligible(ns: seq<Node>): (r: seq<Node>)
    ensures forall n :: n in r <==> n in ns && Eligible(n)
    ensures multiset(r) <= multiset(ns)
  {
    if ns == [] then [] else
    assert ns == [ns[0]] + ns[1..];
    (if Eligible(ns[0]) then [ns[0]] else []) + OnlyEligible(ns[1..])
  }

  lemma {:induction false} OnlyEligibleAppend(a: seq<Node>, b: seq<Node>)
    ensures OnlyEligible(a + b) == OnlyEligible(a) + OnlyEligible(b)
  {
    if a == [] {
      assert a + b == b;
    } else {
      assert (a + b)[1..] == a[1..] + b;
      OnlyEligibleAppend(a[1..], b);
    }
  }

  /** Below any node, the walk visits exactly the eligible nodes in sight, in preorder. */
  lemma {:induction false} WalkIsPreorder(n: Node, p: Policy)
    ensures WalkAll(Flat(n, p), p) == OnlyEligible(Seen(n, p))
    decreases n, 1
  {
    if !Dropped(n, p) {
      WalkAllIsPreorder(n.children, p);
      if Eligible(n) {
        WalkOne(n, p);
      }
      assert ([n] + SeenAll(n.children, p))[1..] == SeenAll(n.children, p);
      assert [n][1..] == [];
    }
  }

  lemma WalkOne(n: Node, p: Policy)
    ensures WalkAll([n], p) == if Entered(n, p) then Walk(n, p) else []
  {
    assert [n][1..] == [] && WalkAll([], p) == [];
  }

  lemma {:induction false} WalkAllIsPreorder(ns: seq<Node>, p: Policy)
    ensures WalkAll(FlatAll(ns, p), p) == OnlyEligible(SeenAll(ns, p))
    decreases ns, 0
  {
    if ns != [] {
      WalkIsPreorder(ns[0], p);
      WalkAllIsPreorder(ns[1..], p);
      WalkAllAppend(Flat(ns[0], p), FlatAll(ns[1..], p), p);
      OnlyEligibleAppend(Seen(ns[0], p), SeenAll(ns[1..], p));
    }
  }

  /** The walk from a node: itself, then the eligible nodes in sight below it, in preorder. */
  lemma WalkFrom(n: Node, p: Policy)
    ensures Walk(n, p) == [n] + (if Opened(n, p) then OnlyEligible(SeenAll(n.children, p)) else [])
  {
    WalkAllIsPreorder(n.children, p);
  }

  // ----- what is listed and what is visited, in the fields of the nodes -----

  /** Child links lead from the nodes `ns` to `c`, through the nodes `above`, topmost first. */
  predicate Chain(ns: seq<Node>, above: seq<Node>, c: Node) {
    if above == [] then c in ns else above[0] in ns && Chain(above[0].children, above[1..], c)
  }

  /** A chain along which `c` is listed: everything it passes through is transparent. */
  predicate ListedAlong(ns: seq<Node>, p: Policy, above: seq<Node>, c: Node) {
    && Chain(ns, above, c)
    && c.frame && c.tag != "page" && c.tag != "stage" && !c.internal && (p.activeOnly ==> c.active)
    && forall m :: m in above && m.frame ==>
         && (m.tag == "page" || m.tag == "stage" || m.internal)
         && (p.activeOnly ==> m.active)
         && (m.tag == "page" ==> p.anyPage || m.pageId == p.pageId)
  }

  lemma {:induction false} ListedHasChain(ns: seq<Node>, p: Policy, c: Node) returns (above: seq<Node>)
    requires c in FlatAll(ns, p)
    ensures ListedAlong(ns, p, above, c)
    decreases ns
  {
    var n := ns[0];
    if c in FlatAll(ns[1..], p) {
      above := ListedHasChain(ns[1..], p, c);
    } else if Eligible(n) {
      above := [];
    } else {
      var below := ListedHasChain(n.children, p, c);
      above := [n] + below;
      assert above[1..] == below;
    }
  }

  lemma {:induction false} FlatMember(ns: seq<Node>, p: Policy, n: Node, c: Node)
    requires n in ns && c in Flat(n, p)
    ensures c in FlatAll(ns, p)
  {
    if n != ns[0] {
      FlatMember(ns[1..], p, n, c);
    }
  }

  lemma {:induction false} ChainIsListed(ns: seq<Node>, p: Policy, above: seq<Node>, c: Node)
    requires ListedAlong(ns, p, above, c)
    ensures c in FlatAll(ns, p)
    decreases |above|
  {
    if above == [] {
      FlatMember(ns, p, c, c);
    } else {
      ChainIsListed(above[0].children, p, above[1..], c);
      FlatMember(ns, p, above[0], c);
    }
  }

  /** The flattening lists exactly the ordinary frame nodes to which child links lead through pages
      asked for, stages, internal frames and nodes that are no frames, all active where that
      matters. */
  lemma ListedExactly(ns: seq<Node>, p: Policy, c: Node)
    ensures c in FlatAll(ns, p) <==> exists above :: ListedAlong(ns, p, above, c)
  {
    if c in FlatAll(ns, p) {
      var above := ListedHasChain(ns, p, c);
    }
    if above :| ListedAlong(ns, p, above, c) {
      ChainIsListed(ns, p, above, c);
    }
  }

  /** A chain along which the walk visits `x`: it also goes through ordinary frame nodes that it
      visits and does not close. */
  predicate VisitedAlong(ns: seq<Node>, p: Policy, above: seq<Node>, x: Node) {
    && Chain(ns, above, x)
    && x.frame && x.tag != "page" && x.tag != "stage" && !x.internal
    && (p.activeOnly || p.skipInactive ==> x.active) && (p.skipLevelNo ==> !x.levelNo)
    && forall m :: m in above && m.frame ==>
         && (p.activeOnly ==> m.active)
         && (m.tag == "page" ==> p.anyPage || m.pageId == p.pageId)
         && (m.tag == "page" || m.tag == "stage" || m.internal ||
             ((p.skipInactive ==> m.active) && (p.skipLevelNo ==> !m.levelNo) &&
              (p.groupsStop ==> !m.group || m.tag == "root")))
  }

  lemma {:induction false} SeenHasChain(ns: seq<Node>, p: Policy, x: Node) returns (above: seq<Node>)
    requires x in SeenAll(ns, p) && Eligible(x)
    ensures VisitedAlong(ns, p, above, x)
    decreases ns
  {
    var n := ns[0];
    if x in SeenAll(ns[1..], p) {
      above := SeenHasChain(ns[1..], p, x);
    } else if x == n {
      above := [];
    } else {
      var below := SeenHasChain(n.children, p, x);
      above := [n] + below;
      assert above[1..] == below;
    }
  }

  lemma {:induction false} SeenMember(ns: seq<Node>, p: Policy, n: Node, x: Node)
    requires n in ns && x in Seen(n, p)
    ensures x in SeenAll(ns, p)
  {
    if n != ns[0] {
      SeenMember(ns[1..], p, n, x);
    }
  }

  lemma {:induction false} ChainIsSeen(ns: seq<Node>, p: Policy, above: seq<Node>, x: Node)
    requires VisitedAlong(ns, p, above, x)
    ensures x in SeenAll(ns, p) && Eligible(x)
    decreases |above|
  {
    if above == [] {
      SeenMember(ns, p, x, x);
    } else {
      ChainIsSeen(above[0].children, p, above[1..], x);
      SeenMember(ns, p, above[0], x);
    }
  }

  /** Below a node the walk visits exactly the nodes to which such a chain leads, unless the node
      is a group that it closes. */
  lemma VisitedExactly(n: Node, p: Policy, x: Node)
    ensures x in WalkAll(Children(n, p), p)
       <==> (p.groupsStop ==> !n.group || n.tag == "root") && exists above :: VisitedAlong(n.children, p, above, x)
  {
    WalkAllIsPreorder(n.children, p);
    if x in SeenAll(n.children, p) && Eligible(x) {
      var above := SeenHasChain(n.children, p, x);
    }
    if above :| VisitedAlong(n.children, p, above, x) {
      ChainIsSeen(n.children, p, above, x);
    }
  }

  // ----- nothing is visited twice -----

  lemma {:induction false} SeenWithin(n: Node, p: Policy)
    ensures multiset(Seen(n, p)) <= multiset(Preorder(n))
    decreases n, 1
  {
    SeenAllWithin(n.children, p);
    PartOfTail(n, [], PreorderAll(n.children));
    BothWithin([n], [n], SeenAll(n.children, p), PreorderAll(n.children));
    BothWithin([n], [n], [], PreorderAll(n.children));
    assert [n] + [] == [n];
  }

  lemma {:induction false} SeenAllWithin(ns: seq<Node>, p: Policy)
    ensures multiset(SeenAll(ns, p)) <= multiset(PreorderAll(ns))
    decreases ns, 0
  {
    if ns != [] {
      SeenWithin(ns[0], p);
      SeenAllWithin(ns[1..], p);
    }
  }

  lemma {:induction false} DistinctWithin(part: seq<Node>, all: seq<Node>)
    requires DistinctIds(all) && multiset(part) <= multiset(all)
    ensures DistinctIds(part)
  {
    forall i, j | 0 <= i < j < |part| ensures part[i].id != part[j].id {
      assert part[i] in multiset(all) && part[j] in multiset(all);
      OnceIn(all, part[i]);
      TwiceIn(part, i, j);
    }
  }

  lemma {:induction false} OnceIn(all: seq<Node>, x: Node)
    requires DistinctIds(all)
    ensures multiset(all)[x] <= 1
  {
    if all != [] {
      assert all == [all[0]] + all[1..];
      OnceIn(all[1..], x);
      assert x == all[0] ==> x !in all[1..];
    }
  }

  lemma TwiceIn(s: seq<Node>, i: nat, j: nat)
    requires i < j < |s|
    ensures s[i] == s[j] ==> multiset(s)[s[i]] >= 2
  {
    assert s == s[..i] + ([s[i]] + (s[i + 1..j] + ([s[j]] + s[j + 1..])));
  }

  /** With unique ids every walk visits each node at most once. */
  lemma WalkIsDistinct(n: Node, p: Policy)
    requires UniqueIds(n)
    ensures DistinctIds(Walk(n, p))
  {
    WalkFrom(n, p);
    SeenAllWithin(n.children, p);
    DistinctWithin(Walk(n, p), Preorder(n));
  }

  // ----- each eligible node is in one child list -----

  /** The child lists of all the nodes a walk visits, one after the other. */
  function ChildLists(n: Node, p: Policy): seq<Node>
    decreases Size(n), 1
  {
    Children(n, p) + ChildListsAll(Children(n, p), p)
  }

  function ChildListsAll(ns: seq<Node>, p: Policy): seq<Node>
    decreases Sizes(ns), 2, |ns|
  {
    if ns == [] then []
    else (if Entered(ns[0], p) then ChildLists(ns[0], p) else []) + ChildListsAll(ns[1..], p)
  }

  /** Drops inactive frames and pages other than the given one, and nothing else. */
  function Everything(pageId: int): Policy {
    Policy(
      pageId := pageId, anyPage := false, activeOnly := true,
      skipInactive := false, skipLevelNo := false, groupsStop := false)
  }

  lemma {:induction false} ListsAreWalk(n: Node, pageId: int)
    ensures multiset([n] + ChildLists(n, Everything(pageId))) == multiset(Walk(n, Everything(pageId)))
    decreases Size(n), 1
  {
    ListsAllAreWalk(Children(n, Everything(pageId)), pageId);
  }

  lemma {:induction false} ListsAllAreWalk(ns: seq<Node>, pageId: int)
    ensures multiset(ns + ChildListsAll(ns, Everything(pageId))) == multiset(WalkAll(ns, Everything(pageId)))
    decreases Sizes(ns), 2, |ns|
  {
    if ns != [] {
      assert ns == [ns[0]] + ns[1..];
      ListsAreWalk(ns[0], pageId);
      ListsAllAreWalk(ns[1..], pageId);
    }
  }

  /** Every frame node is active and every page is the given one. */
  predicate AllShown(n: Node, pageId: int) {
    forall x :: x in PreorderAll(n.children) ==> !Dropped(x, Everything(pageId))
  }

  lemma {:induction false} AllSeen(ns: seq<Node>, pageId: int)
    requires forall x :: x in PreorderAll(ns) ==> !Dropped(x, Everything(pageId))
    ensures SeenAll(ns, Everything(pageId)) == PreorderAll(ns)
    decreases ns
  {
    if ns != [] {
      var n := ns[0];
      assert forall x :: x in PreorderAll(n.children) ==> x in PreorderAll(ns);
      assert forall x :: x in PreorderAll(ns[1..]) ==> x in PreorderAll(ns);
      assert n in Preorder(n) && n in PreorderAll(ns);
      AllSeen(n.children, pageId);
      AllSeen(ns[1..], pageId);
    }
  }

  /** With everything shown, the child lists together hold each eligible node below the root
      exactly as often as the tree does: once, when ids are unique. */
  lemma ChildListsPartition(n: Node, pageId: int)
    requires AllShown(n, pageId)
    ensures multiset(ChildLists(n, Everything(pageId))) == multiset(OnlyEligible(PreorderAll(n.children)))
    ensures UniqueIds(n) ==> DistinctIds(ChildLists(n, Everything(pageId)))
  {
    var p := Everything(pageId);
    var lists, eligible := ChildLists(n, p), OnlyEligible(PreorderAll(n.children));
    ListsAreWalk(n, pageId);
    WalkFrom(n, p);
    AllSeen(n.children, pageId);
    SameTail(n, lists, eligible);
    if UniqueIds(n) {
      PartOfTail(n, eligible, PreorderAll(n.children));
      DistinctWithin(lists, Preorder(n));
    }
  }

  lemma SameTail(n: Node, a: seq<Node>, b: seq<Node>)
    requires multiset([n] + a) == multiset([n] + b)
    ensures multiset(a) == multiset(b)
  {
    assert multiset([n] + a) - multiset{n} == multiset(a);
    assert multiset([n] + b) - multiset{n} == multiset(b);
  }

  lemma PartOfTail(n: Node, a: seq<Node>, b: seq<Node>)
    requires multiset(a) <= multiset(b)
    ensures multiset(a) <= multiset([n] + b)
  {
    assert multiset([n] + b) == multiset{n} + multiset(b);
  }

  // ----- listed children are subtrees -----

  lemma {:induction false} ListedIsSubtree(ns: seq<Node>, p: Policy, c: Node)
    returns (before: seq<Node>, after: seq<Node>)
    requires c in FlatAll(ns, p)
    ensures PreorderAll(ns) == before + Preorder(c) + after && Eligible(c)
    decreases ns
  {
    var n, rest := ns[0], ns[1..];
    if c in FlatAll(rest, p) {
      var b, a := ListedIsSubtree(rest, p, c);
      before, after := Preorder(n) + b, a;
      PartBehind(Preorder(n), b, Preorder(c), a);
    } else if Eligible(n) {
      before, after := [], PreorderAll(rest);
      assert [] + Preorder(c) == Preorder(c);
    } else {
      var b, a := ListedIsSubtree(n.children, p, c);
      before, after := [n] + b, a + PreorderAll(rest);
      PartBehind([n], b, Preorder(c), a);
      PartBefore([n] + b, Preorder(c), a, PreorderAll(rest));
    }
  }

  lemma PartBehind(u: seq<Node>, b: seq<Node>, c: seq<Node>, a: seq<Node>)
    ensures u + (b + c + a) == u + b + c + a
  {
  }

  lemma PartBefore(b: seq<Node>, c: seq<Node>, a: seq<Node>, v: seq<Node>)
    ensures b + c + a + v == b + c + (a + v)
  {
  }

  /** An accessibility child is a frame node below its parent, with a tree of unique ids. */
  lemma ChildFacts(n: Node, p: Policy, c: Node)
    requires UniqueIds(n) && c in FlatAll(n.children, p)
    ensures c.frame && c in PreorderAll(n.children) && c.id != n.id && UniqueIds(c)
    ensures forall x :: x in Preorder(c) ==> x in Preorder(n)
  {
    var before, after := ListedIsSubtree(n.children, p, c);
    assert Preorder(n) == ([n] + before) + Preorder(c) + after;
    DistinctPart([n] + before, Preorder(c), after);
    assert PreorderAll(n.children)[|before|] == c;
    assert Preorder(n)[0] == n && Preorder(n)[|before| + 1] == c;
  }

  /** A node is listed once among the children. */
  lemma ListedOnce(n: Node, p: Policy)
    requires UniqueIds(n)
    ensures Distinct(Ids(FlatAll(n.children, p)))
  {
    FlatWithin(n.children, p);
    PartOfTail(n, FlatAll(n.children, p), PreorderAll(n.children));
    DistinctWithin(FlatAll(n.children, p), Preorder(n));
  }

  lemma {:induction false} FlatWithin(ns: seq<Node>, p: Policy)
    ensures multiset(FlatAll(ns, p)) <= multiset(PreorderAll(ns))
    decreases ns
  {
    if ns != [] {
      var n := ns[0];
      FlatWithin(n.children, p);
      FlatWithin(ns[1..], p);
      PartOfTail(n, FlatAll(n.children, p), PreorderAll(n.children));
      BothWithin(Flat(n, p), Preorder(n), FlatAll(ns[1..], p), PreorderAll(ns[1..]));
    }
  }

  lemma BothWithin(a: seq<Node>, b: seq<Node>, c: seq<Node>, d: seq<Node>)
    requires multiset(a) <= multiset(b) && multiset(c) <= multiset(d)
    ensures multiset(a + c) <= multiset(b + d)
  {
  }
}
