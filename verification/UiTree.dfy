/** UI nodes as finite trees, and their preorder. */
module UiTree {

  /** A UI node. `frame` says whether it is a frame node; the flags matter for frame nodes only. */
  datatype Node = Node(
    id: int, tag: string, inspector: string, pageId: int, frame: bool,
    active: bool, internal: bool, levelNo: bool, group: bool, children: seq<Node>)

  function Size(n: Node): (s: nat)
    ensures s > 0
    decreases n, 1
  {
    1 + Sizes(n.children)
  }

  function Sizes(ns: seq<Node>): nat
    decreases ns, 0
  {
    if ns == [] then 0 else Size(ns[0]) + Sizes(ns[1..])
  }

  lemma {:induction false} SizesAppend(a: seq<Node>, b: seq<Node>)
    ensures Sizes(a + b) == Sizes(a) + Sizes(b)
  {
    if a == [] {
      assert a + b == b;
    } else {
      assert (a + b)[1..] == a[1..] + b;
      SizesAppend(a[1..], b);
    }
  }

  function Preorder(n: Node): (r: seq<Node>)
    ensures r != [] && r[0] == n
    decreases n, 1
  {
    [n] + PreorderAll(n.children)
  }

  function PreorderAll(ns: seq<Node>): seq<Node>
    decreases ns, 0
  {
    if ns == [] then [] else Preorder(ns[0]) + PreorderAll(ns[1..])
  }

  lemma {:induction false} PreorderAllAppend(a: seq<Node>, b: seq<Node>)
    ensures PreorderAll(a + b) == PreorderAll(a) + PreorderAll(b)
  {
    if a == [] {
      assert a + b == b;
    } else {
      assert (a + b)[1..] == a[1..] + b;
      PreorderAllAppend(a[1..], b);
    }
  }

  predicate DistinctIds(ns: seq<Node>) {
    forall i, j :: 0 <= i < j < |ns| ==> ns[i].id != ns[j].id
  }

  /** No two nodes of the tree share an id. */
  predicate UniqueIds(n: Node) {
    DistinctIds(Preorder(n))
  }

  function Ids(ns: seq<Node>): seq<int> {
    seq(|ns|, i requires 0 <= i < |ns| => ns[i].id)
  }

  lemma IdsFirst(n: Node, rest: seq<Node>)
    ensures Ids([n] + rest) == [n.id] + Ids(rest)
  {
  }

  lemma IdsAppend(a: seq<Node>, b: seq<Node>)
    ensures Ids(a + b) == Ids(a) + Ids(b)
  {
  }

  /** Each node of a tree stands in the preorder in front of its own subtree. */
  lemma {:induction false} SubtreeIsPart(ns: seq<Node>, n: Node) returns (before: seq<Node>, after: seq<Node>)
    requires n in PreorderAll(ns)
    ensures PreorderAll(ns) == before + Preorder(n) + after
    decreases ns
  {
    var first, rest := ns[0], ns[1..];
    if n in PreorderAll(rest) {
      before, after := SubtreeIsPart(rest, n);
      before := Preorder(first) + before;
    } else if n == first {
      before, after := [], PreorderAll(rest);
      assert [] + Preorder(n) + after == Preorder(n) + after;
    } else {
      before, after := SubtreeIsPart(first.children, n);
      before, after := [first] + before, after + PreorderAll(rest);
    }
  }

  lemma SubtreeFacts(root: Node, n: Node)
    requires UniqueIds(root) && n in Preorder(root)
    ensures UniqueIds(n)
    ensures forall x :: x in Preorder(n) ==> x in Preorder(root)
  {
    if n != root {
      var before, after := SubtreeIsPart(root.children, n);
      assert Preorder(root) == ([root] + before) + Preorder(n) + after;
      DistinctPart([root] + before, Preorder(n), after);
    }
  }

  /** A stretch of a sequence of distinct ids has distinct ids. */
  lemma DistinctPart(a: seq<Node>, b: seq<Node>, c: seq<Node>)
    requires DistinctIds(a + b + c)
    ensures DistinctIds(b)
  {
    forall i, j | 0 <= i < j < |b| ensures b[i].id != b[j].id {
      assert (a + b + c)[|a| + i] == b[i] && (a + b + c)[|a| + j] == b[j];
    }
  }

  lemma SameNode(ns: seq<Node>, x: Node, y: Node)
    requires DistinctIds(ns) && x in ns && y in ns && x.id == y.id
    ensures x == y
  {
  }
}
