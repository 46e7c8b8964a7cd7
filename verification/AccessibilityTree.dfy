/** The accessibility tree as a tree of its own, its infos in level order, and the sort that
    recovers that order from any other. */
module AccessibilityTree {
  import opened UiTree
  import opened NodeLookup
  import opened Flattening
  import opened ElementInfos
  import BreadthSort

  /** The tree of the nodes a walk visits. */
  function Acc(n: Node, p: Policy): (a: Node)
    ensures a.id == n.id && a.tag == n.tag
    decreases Size(n), 1
  {
    n.(children := AccAll(Children(n, p), p))
  }

  function AccAll(ns: seq<Node>, p: Policy): seq<Node>
    decreases Sizes(ns), 2, |ns|
  {
    if ns == [] then []
    else (if Entered(ns[0], p) then [Acc(ns[0], p)] else []) + AccAll(ns[1..], p)
  }

  /** The walk visits this tree in preorder. */
  lemma {:induction false} WalkIsTreePreorder(n: Node, p: Policy)
    ensures Ids(Walk(n, p)) == Ids(Preorder(Acc(n, p)))
    decreases Size(n), 1
  {
    WalkAllIsTreePreorder(Children(n, p), p);
    IdsFirst(n, WalkAll(Children(n, p), p));
    IdsFirst(Acc(n, p), PreorderAll(AccAll(Children(n, p), p)));
  }

  lemma {:induction false} WalkAllIsTreePreorder(ns: seq<Node>, p: Policy)
    ensures Ids(WalkAll(ns, p)) == Ids(PreorderAll(AccAll(ns, p)))
    decreases Sizes(ns), 2, |ns|
  {
    if ns != [] {
      WalkAllIsTreePreorder(ns[1..], p);
      var rest := AccAll(ns[1..], p);
      if Entered(ns[0], p) {
        WalkIsTreePreorder(ns[0], p);
        assert ([Acc(ns[0], p)] + rest)[1..] == rest;
        IdsAppend(Walk(ns[0], p), WalkAll(ns[1..], p));
        IdsAppend(Preorder(Acc(ns[0], p)), PreorderAll(rest));
      } else {
        assert [] + rest == rest && [] + WalkAll(ns[1..], p) == WalkAll(ns[1..], p);
      }
    }
  }

  // ----- infos of a tree -----

  function TreeInfo(a: Node): Info {
    Info(a.id, a.tag, Ids(a.children))
  }

  function TreeInfos(ns: seq<Node>): seq<Info> {
    seq(|ns|, i requires 0 <= i < |ns| => TreeInfo(ns[i]))
  }

  lemma TreeInfosFirst(n: Node, rest: seq<Node>)
    ensures TreeInfos([n] + rest) == [TreeInfo(n)] + TreeInfos(rest)
  {
  }

  lemma TreeInfosAppend(a: seq<Node>, b: seq<Node>)
    ensures TreeInfos(a + b) == TreeInfos(a) + TreeInfos(b)
  {
  }

  // ----- the sort recovers level order -----

  /** An info in the list is taken when its id is next, and its children are queued. */
  lemma SortTakes(infos: seq<Info>, x: Info, queue: seq<int>) returns (left: seq<Info>)
    requires x in infos && BreadthSort.DistinctIds(infos)
    ensures multiset(left) + multiset{x} == multiset(infos) && BreadthSort.DistinctIds(left)
    ensures var (out, end) := BreadthSort.Sort(left, queue + x.children);
      BreadthSort.Sort(infos, [x.id] + queue) == ([x] + out, end)
  {
    var k := BreadthSort.Find(infos, x.id);
    var i :| 0 <= i < |infos| && infos[i] == x;
    assert i == k;
    BreadthSort.WithoutOne(infos, k);
    left := BreadthSort.Without(infos, k);
    WithoutDistinct(infos, k);
    assert ([x.id] + queue)[1..] == queue;
  }

  /** From a list that holds the infos of a forest, in any order and among any others, the sort that
      starts from the ids of its roots puts out exactly the forest's infos, in level order. */
  lemma {:induction false} SortRecoversLevelOrder(infos: seq<Info>, q: seq<Node>)
    requires multiset(TreeInfos(Levels(q))) <= multiset(infos) && BreadthSort.DistinctIds(infos)
    ensures BreadthSort.Sort(infos, Ids(q)).0 == TreeInfos(Levels(q))
    decreases Sizes(q)
  {
    if q != [] {
      var n, rest := q[0], q[1..];
      var more := rest + n.children;
      assert q == [n] + rest;
      LevelsPop(n, rest);
      TreeInfosFirst(n, Levels(more));
      assert TreeInfo(n) in multiset(TreeInfos(Levels(q)));
      var left := SortTakes(infos, TreeInfo(n), Ids(rest));
      OneLess(multiset(infos), multiset(left), multiset(TreeInfos(Levels(more))), TreeInfo(n));
      SortRecoversLevelOrder(left, more);
      IdsAppend(rest, n.children);
      IdsAppend([n], rest);
      assert Ids([n]) == [n.id];
    }
  }

  lemma SameLength<T>(a: seq<T>, b: seq<T>)
    requires multiset(a) == multiset(b)
    ensures |a| == |b|
  {
    assert |multiset(a)| == |a| && |multiset(b)| == |b|;
  }

  lemma OneLess<T>(all: multiset<T>, a: multiset<T>, b: multiset<T>, x: T)
    requires a + multiset{x} == all && multiset{x} + b <= all
    ensures b <= a
  {
    forall y ensures b[y] <= a[y] {
      assert (multiset{x} + b)[y] <= (a + multiset{x})[y];
    }
  }

  lemma WithoutDistinct(infos: seq<Info>, k: nat)
    requires k < |infos| && BreadthSort.DistinctIds(infos)
    ensures BreadthSort.DistinctIds(BreadthSort.Without(infos, k))
  {
  }

  /** Level order and preorder hold the same infos. */
  lemma LevelInfos(q: seq<Node>)
    ensures multiset(TreeInfos(Levels(q))) == multiset(TreeInfos(PreorderAll(q)))
  {
    LevelsArePreorder(q);
    SameInfos(Levels(q), PreorderAll(q));
  }

  function Image<B>(f: Node -> B, ns: seq<Node>): seq<B> {
    seq(|ns|, i requires 0 <= i < |ns| => f(ns[i]))
  }

  lemma ImageWithout<B>(f: Node -> B, ns: seq<Node>, i: nat)
    requires i < |ns|
    ensures multiset(Image(f, ns)) == multiset(Image(f, ns[..i] + ns[i + 1..])) + multiset{f(ns[i])}
    ensures multiset(ns) == multiset(ns[..i] + ns[i + 1..]) + multiset{ns[i]}
  {
    var a, b := ns[..i], ns[i + 1..];
    assert ns == a + ([ns[i]] + b);
    assert Image(f, ns) == Image(f, a) + ([f(ns[i])] + Image(f, b));
    assert Image(f, a + b) == Image(f, a) + Image(f, b);
  }

  /** The images of some of the nodes are some of the images. */
  lemma {:induction false} ImageWithin<B>(f: Node -> B, a: seq<Node>, b: seq<Node>)
    requires multiset(a) <= multiset(b)
    ensures multiset(Image(f, a)) <= multiset(Image(f, b))
    decreases |a|
  {
    if a != [] {
      var x := a[0];
      assert x in multiset(a);
      var i :| 0 <= i < |b| && b[i] == x;
      var a', b' := a[..0] + a[1..], b[..i] + b[i + 1..];
      ImageWithout(f, a, 0);
      ImageWithout(f, b, i);
      OneLess(multiset(b), multiset(b'), multiset(a'), x);
      ImageWithin(f, a', b');
    }
  }

  lemma SameImage<B>(f: Node -> B, a: seq<Node>, b: seq<Node>)
    requires multiset(a) == multiset(b)
    ensures multiset(Image(f, a)) == multiset(Image(f, b))
  {
    ImageWithin(f, a, b);
    ImageWithin(f, b, a);
  }

  lemma SameInfos(a: seq<Node>, b: seq<Node>)
    requires multiset(a) == multiset(b)
    ensures multiset(TreeInfos(a)) == multiset(TreeInfos(b))
  {
    SameImage(TreeInfo, a, b);
    InfosAreImage(a);
    InfosAreImage(b);
  }

  lemma InfosAreImage(ns: seq<Node>)
    ensures TreeInfos(ns) == Image(TreeInfo, ns)
  {
    forall i | 0 <= i < |ns| ensures TreeInfos(ns)[i] == Image(TreeInfo, ns)[i] {
      assert TreeInfos(ns)[i] == TreeInfo(ns[i]);
    }
  }

  lemma InfosDistinct(ns: seq<Node>)
    requires forall i, j :: 0 <= i < j < |Ids(ns)| ==> Ids(ns)[i] != Ids(ns)[j]
    ensures BreadthSort.DistinctIds(TreeInfos(ns))
  {
    forall i, j | 0 <= i < j < |ns| ensures TreeInfos(ns)[i].id != TreeInfos(ns)[j].id {
      assert Ids(ns)[i] != Ids(ns)[j];
    }
  }

  /** The infos of the tree of a walk over unique ids have distinct ids. */
  lemma TreeIdsDistinct(n: Node, p: Policy)
    requires UniqueIds(n)
    ensures BreadthSort.DistinctIds(TreeInfos(Preorder(Acc(n, p))))
  {
    WalkIsDistinct(n, p);
    WalkIsTreePreorder(n, p);
    var walk := Walk(n, p);
    forall i, j | 0 <= i < j < |Ids(walk)| ensures Ids(walk)[i] != Ids(walk)[j] {
      assert walk[i].id != walk[j].id;
    }
    InfosDistinct(Preorder(Acc(n, p)));
  }
}
