/** The two breadth-first lookups of a node by its accessibility id. */
module NodeLookup {
  import opened Wrappers
  import opened UiTree

  // ----- generations -----

  /** The children of all the nodes, in order. */
  function Kids(ns: seq<Node>): seq<Node> {
    if ns == [] then [] else ns[0].children + Kids(ns[1..])
  }

  lemma {:induction false} KidsAppend(a: seq<Node>, b: seq<Node>)
    ensures Kids(a + b) == Kids(a) + Kids(b)
  {
    if a == [] {
      assert a + b == b;
    } else {
      assert (a + b)[1..] == a[1..] + b;
      KidsAppend(a[1..], b);
    }
  }

  lemma {:induction false} KidsShrink(ns: seq<Node>)
    ensures Sizes(ns) == |ns| + Sizes(Kids(ns))
  {
    if ns != [] {
      KidsShrink(ns[1..]);
      SizesAppend(ns[0].children, Kids(ns[1..]));
    }
  }

  /** Level order: one generation after the other. */
  function Levels(ns: seq<Node>): seq<Node>
    decreases Sizes(ns)
  {
    if ns == [] then [] else
    KidsShrink(ns);
    ns + Levels(Kids(ns))
  }

  lemma LevelsUnfold(ns: seq<Node>)
    ensures Levels(ns) == ns + Levels(Kids(ns))
  {
    if ns == [] {
      assert Levels(Kids(ns)) == [] && ns + [] == ns;
    }
  }

  /** Taking nodes off the front and queueing their children keeps level order. */
  lemma {:induction false} LevelsSplit(a: seq<Node>, b: seq<Node>)
    ensures Levels(a + b) == a + Levels(b + Kids(a))
    decreases Sizes(a + b)
  {
    if a == [] {
      assert a + b == b && b + Kids(a) == b;
      assert [] + Levels(b) == Levels(b);
    } else {
      var a', b' := Kids(a), Kids(b);
      KidsShrink(a + b);
      KidsAppend(a, b);
      KidsAppend(b, a');
      LevelsSplit(a', b');
      LevelsUnfold(a + b);
      LevelsUnfold(b + a');
      Regroup(a, b, a', Levels(b' + Kids(a')));
    }
  }

  lemma Regroup(a: seq<Node>, b: seq<Node>, c: seq<Node>, d: seq<Node>)
    ensures a + b + (c + d) == a + (b + c + d)
  {
  }

  lemma KidsOfOne(n: Node)
    ensures Kids([n]) == n.children
  {
    assert n.children + Kids([n][1..]) == n.children;
  }

  /** One node taken off the front. */
  lemma LevelsPop(n: Node, rest: seq<Node>)
    ensures Levels([n] + rest) == [n] + Levels(rest + n.children)
    ensures Sizes(rest + n.children) < Sizes([n] + rest)
  {
    KidsOfOne(n);
    LevelsSplit([n], rest);
    SizesAppend(rest, n.children);
    SizesAppend([n], rest);
  }

  /** Level order and preorder hold the same nodes. */
  lemma {:induction false} LevelsArePreorder(ns: seq<Node>)
    ensures multiset(Levels(ns)) == multiset(PreorderAll(ns))
    decreases Sizes(ns)
  {
    if ns != [] {
      var n, rest := ns[0], ns[1..];
      assert ns == [n] + rest;
      LevelsPop(n, rest);
      LevelsArePreorder(rest + n.children);
      PreorderAllAppend(rest, n.children);
    }
  }

  // ----- what the lookups find -----

  /** A frame node with the id; the lookup on entry passes over level-no nodes. */
  predicate Matches(n: Node, id: int, skipLevelNo: bool) {
    n.frame && n.id == id && !(skipLevelNo && n.levelNo)
  }

  function First(ns: seq<Node>, id: int, skipLevelNo: bool): (r: Option<Node>)
    ensures r.Some? ==> r.value in ns && Matches(r.value, id, skipLevelNo)
    ensures r.None? ==> forall n :: n in ns ==> !Matches(n, id, skipLevelNo)
  {
    if ns == [] then None
    else if Matches(ns[0], id, skipLevelNo) then Some(ns[0])
    else First(ns[1..], id, skipLevelNo)
  }

  lemma {:induction false} FirstAppend(a: seq<Node>, b: seq<Node>, id: int, skipLevelNo: bool)
    ensures First(a + b, id, skipLevelNo)
         == if First(a, id, skipLevelNo).Some? then First(a, id, skipLevelNo) else First(b, id, skipLevelNo)
  {
    if a == [] {
      assert a + b == b;
    } else {
      assert (a + b)[1..] == a[1..] + b;
      FirstAppend(a[1..], b, id, skipLevelNo);
    }
  }

  /** What a lookup on exit finds from a queue of nodes. */
  function Dequeued(queue: seq<Node>, id: int): Option<Node> {
    First(Levels(queue), id, false)
  }

  /** The first match in level order. */
  function ByDequeue(root: Node, id: int): Option<Node> {
    Dequeued([root], id)
  }

  /** The root whatever it is, or the first match below it that is not level-no. */
  function ByEnqueue(root: Node, id: int): Option<Node> {
    if root.id == id then Some(root) else First(Levels(root.children), id, true)
  }

  // ----- the lookups -----

  /** What is left to search after one node is taken off the queue. */
  lemma DequeueOne(n: Node, rest: seq<Node>, id: int)
    ensures Dequeued([n] + rest, id) == if Matches(n, id, false) then Some(n) else Dequeued(rest + n.children, id)
    ensures Sizes(rest + n.children) < Sizes([n] + rest)
  {
    LevelsPop(n, rest);
    FirstAppend([n], Levels(rest + n.children), id, false);
  }

  method PushAll(nodes: ListRef<Node>, children: seq<Node>)
    modifies nodes
    ensures nodes.items == old(nodes.items) + children
  {
    for i := 0 to |children|
      invariant nodes.items == old(nodes.items) + children[..i]
    {
      nodes.items := nodes.items + [children[i]];
    }
  }

  method GetInspectorById(root: Node, id: int) returns (r: Option<Node>)
    ensures r == ByDequeue(root, id)
  {
    ghost var found := ByDequeue(root, id);
    var nodes := new ListRef([root]);
    while nodes.items != []
      invariant Dequeued(nodes.items, id) == found
      decreases Sizes(nodes.items)
    {
      var current := nodes.items[0];
      ghost var rest := nodes.items[1..];
      assert nodes.items == [current] + rest;
      DequeueOne(current, rest, id);
      nodes.items := nodes.items[1..];
      if current.frame {
        if id == current.id {
          return Some(current);
        }
      }
      PushAll(nodes, current.children);
      assert nodes.items == rest + current.children;
    }
    return None;
  }

  method FindFrameNodeByAccessibilityId(id: int, children: seq<Node>, nodes: ListRef<Node>)
    returns (found: bool, result: Option<Node>)
    modifies nodes
    ensures result == First(children, id, true) && found == result.Some?
    ensures !found ==> nodes.items == old(nodes.items) + children
  {
    for i := 0 to |children|
      invariant First(children, id, true) == First(children[i..], id, true)
      invariant nodes.items == old(nodes.items) + children[..i]
    {
      var child := children[i];
      assert children[i..][1..] == children[i + 1..];
      if child.frame && !child.levelNo {
        if child.id == id {
          return true, Some(child);
        }
      }
      nodes.items := nodes.items + [child];
    }
    return false, None;
  }

  /** What is left to search after the children of one node are checked and queued. */
  lemma EnqueueOne(n: Node, rest: seq<Node>, id: int)
    ensures First(Levels(Kids([n] + rest)), id, true)
         == if First(n.children, id, true).Some? then First(n.children, id, true)
            else First(Levels(Kids(rest + n.children)), id, true)
    ensures Sizes(rest + n.children) < Sizes([n] + rest)
  {
    LevelsPop(n, rest);
    KidsOfOne(n);
    KidsAppend([n], rest);
    LevelsSplit(n.children, Kids(rest));
    KidsAppend(rest, n.children);
    FirstAppend(n.children, Levels(Kids(rest + n.children)), id, true);
  }

  method GetFramenodeByAccessibilityId(root: Node, id: int) returns (r: Option<Node>)
    ensures r == ByEnqueue(root, id)
  {
    if root.id == id {
      return Some(root);
    }
    var nodes := new ListRef([root]);
    KidsOfOne(root);
    while nodes.items != []
      invariant First(Levels(Kids(nodes.items)), id, true) == ByEnqueue(root, id)
      decreases Sizes(nodes.items)
    {
      var current := nodes.items[0];
      ghost var rest := nodes.items[1..];
      assert nodes.items == [current] + rest;
      EnqueueOne(current, rest, id);
      nodes.items := nodes.items[1..];
      var found, result := FindFrameNodeByAccessibilityId(id, current.children, nodes);
      if found {
        return result;
      }
    }
    return None;
  }

  // ----- main results -----

  predicate NoLevelNo(ns: seq<Node>) {
    forall n :: n in ns ==> !n.levelNo
  }

  lemma {:induction false} FirstWithoutLevelNo(ns: seq<Node>, id: int)
    requires NoLevelNo(ns)
    ensures First(ns, id, true) == First(ns, id, false)
  {
    if ns != [] {
      FirstWithoutLevelNo(ns[1..], id);
    }
  }

  lemma LevelsBelow(root: Node)
    ensures Levels([root]) == [root] + Levels(root.children)
  {
    KidsOfOne(root);
    LevelsUnfold([root]);
  }

  /** Without level-no nodes, checking on entry and checking on exit find the same node. */
  lemma LookupsAgree(root: Node, id: int)
    requires root.frame && NoLevelNo(Preorder(root))
    ensures ByEnqueue(root, id) == ByDequeue(root, id)
  {
    LevelsBelow(root);
    forall n | n in Levels(root.children) ensures !n.levelNo {
      InLevels(root.children, n);
    }
    FirstWithoutLevelNo(Levels(root.children), id);
    FirstAppend([root], Levels(root.children), id, false);
  }

  /** `n` is the k-th of the nodes, and the first of them that is a frame node with the id and,
      where those are passed over, not level-no. */
  predicate FirstAt(ns: seq<Node>, id: int, skipLevelNo: bool, n: Node, k: int) {
    && 0 <= k < |ns| && ns[k] == n && n.frame && n.id == id && (skipLevelNo ==> !n.levelNo)
    && forall j :: 0 <= j < k ==> !ns[j].frame || ns[j].id != id || (skipLevelNo && ns[j].levelNo)
  }

  ghost predicate IsFirst(ns: seq<Node>, id: int, skipLevelNo: bool, n: Node) {
    exists k :: FirstAt(ns, id, skipLevelNo, n, k)
  }

  lemma {:induction false} FirstExactly(ns: seq<Node>, id: int, skipLevelNo: bool, n: Node)
    ensures First(ns, id, skipLevelNo) == Some(n) <==> IsFirst(ns, id, skipLevelNo, n)
  {
    if ns != [] {
      var rest := ns[1..];
      FirstExactly(rest, id, skipLevelNo, n);
      if k :| FirstAt(rest, id, skipLevelNo, n, k) && !Matches(ns[0], id, skipLevelNo) {
        assert forall j :: 0 < j <= k + 1 ==> ns[j] == rest[j - 1];
        assert FirstAt(ns, id, skipLevelNo, n, k + 1);
      }
      if k :| FirstAt(ns, id, skipLevelNo, n, k) {
        if k > 0 {
          assert forall j :: 0 <= j < k ==> rest[j] == ns[j + 1];
          assert FirstAt(rest, id, skipLevelNo, n, k - 1);
        }
      }
      if Matches(ns[0], id, skipLevelNo) && n == ns[0] {
        assert FirstAt(ns, id, skipLevelNo, n, 0);
      }
    }
  }

  /** What the two lookups find: the first frame node with the id in level order; or the root if it
      has the id, and else the first one below it that is not level-no. */
  lemma LookupsFind(root: Node, id: int, n: Node)
    ensures ByDequeue(root, id) == Some(n) <==> IsFirst(Levels([root]), id, false, n)
    ensures ByEnqueue(root, id) == Some(n)
       <==> if root.id == id then n == root else IsFirst(Levels(root.children), id, true, n)
  {
    FirstExactly(Levels([root]), id, false, n);
    FirstExactly(Levels(root.children), id, true, n);
  }

  /** In general the lookup on entry finds a node exactly when the root has the id, or a frame
      node below it does that is not level-no. */
  lemma EnqueueFindsExactly(root: Node, id: int)
    ensures ByEnqueue(root, id).Some?
       <==> root.id == id || exists n :: n in PreorderAll(root.children) && n.frame && n.id == id && !n.levelNo
  {
    forall n ensures n in Levels(root.children) <==> n in PreorderAll(root.children) {
      InLevels(root.children, n);
    }
  }

  /** The only match in a list is its first match. */
  lemma FirstIsOnly(ns: seq<Node>, n: Node, skipLevelNo: bool)
    requires n in ns && Matches(n, n.id, skipLevelNo)
    requires forall x :: x in ns && x.id == n.id ==> x == n
    ensures First(ns, n.id, skipLevelNo) == Some(n)
  {
  }

  lemma InLevels(ns: seq<Node>, x: Node)
    ensures x in Levels(ns) <==> x in PreorderAll(ns)
  {
    LevelsArePreorder(ns);
    assert x in Levels(ns) <==> x in multiset(Levels(ns));
    assert x in PreorderAll(ns) <==> x in multiset(PreorderAll(ns));
  }

  lemma OnlyBelow(root: Node, n: Node, x: Node)
    requires UniqueIds(root) && n in Preorder(root)
    requires x in Levels([root]) && x.id == n.id
    ensures x == n
  {
    InLevels([root], x);
    assert PreorderAll([root]) == Preorder(root) + PreorderAll([root][1..]) == Preorder(root);
    SameNode(Preorder(root), x, n);
  }

  /** With unique ids the id of a frame node leads to that node. */
  lemma DequeueFindsTheNode(root: Node, n: Node)
    requires UniqueIds(root) && n in Preorder(root) && n.frame
    ensures ByDequeue(root, n.id) == Some(n)
  {
    InLevels([root], n);
    assert PreorderAll([root]) == Preorder(root) + PreorderAll([root][1..]) == Preorder(root);
    forall x | x in Levels([root]) && x.id == n.id ensures x == n {
      OnlyBelow(root, n, x);
    }
    FirstIsOnly(Levels([root]), n, false);
  }

  /** The lookup on entry finds it too, unless it is a level-no node below the root. */
  lemma EnqueueFindsTheNode(root: Node, n: Node)
    requires UniqueIds(root) && n in Preorder(root) && n.frame
    ensures ByEnqueue(root, n.id) == if n != root && n.levelNo then None else Some(n)
  {
    LevelsBelow(root);
    forall x | x in Levels(root.children) && x.id == n.id ensures x == n {
      OnlyBelow(root, n, x);
    }
    if n != root {
      assert root.id != n.id by {
        if root.id == n.id { SameNode(Preorder(root), root, n); }
      }
      if !n.levelNo {
        InLevels(root.children, n);
        FirstIsOnly(Levels(root.children), n, true);
      }
    }
  }
}
