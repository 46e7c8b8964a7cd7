/** The parent id an element reports, against the child lists of the accessibility tree. */
module ParentLinks {
  import opened UiTree
  import opened Flattening

  const INVALID_PARENT_ID := -2100000

  /** A node that cannot be reported as a parent. */
  predicate Skipped(n: Node) {
    !n.frame || n.tag == "page" || n.tag == "stage" || n.levelNo
  }

  /** The parent id of a node with these ancestors, nearest first. */
  function ParentId(ancestors: seq<Node>): int {
    if ancestors == [] then INVALID_PARENT_ID
    else if Skipped(ancestors[0]) then ParentId(ancestors[1..])
    else ancestors[0].id
  }

  /** Climbs the parent links, which are the given ancestors. */
  method GetParentId(ancestors: seq<Node>) returns (id: int)
    ensures id == ParentId(ancestors)
  {
    var rest := ancestors;
    while rest != []
      invariant ParentId(rest) == ParentId(ancestors)
      decreases |rest|
    {
      var parent := rest[0];
      if parent.frame {
        if parent.tag == "page" || parent.tag == "stage" || parent.levelNo {
          rest := rest[1..];
          continue;
        }
        return parent.id;
      }
      rest := rest[1..];
    }
    return INVALID_PARENT_ID;
  }

  /** The k-th ancestor is the nearest frame node that is no page, no stage and not level-no. */
  predicate NearestAt(ancestors: seq<Node>, k: int) {
    && 0 <= k < |ancestors|
    && ancestors[k].frame && ancestors[k].tag != "page" && ancestors[k].tag != "stage" && !ancestors[k].levelNo
    && forall j :: 0 <= j < k ==>
         !ancestors[j].frame || ancestors[j].tag == "page" || ancestors[j].tag == "stage" || ancestors[j].levelNo
  }

  /** The reported id is that of the nearest such ancestor, or -2100000 if there is none. */
  lemma {:induction false} ParentIsNearest(ancestors: seq<Node>)
    ensures (exists k :: NearestAt(ancestors, k) && ParentId(ancestors) == ancestors[k].id)
         || (ParentId(ancestors) == -2100000 && forall m :: m in ancestors ==>
               !m.frame || m.tag == "page" || m.tag == "stage" || m.levelNo)
  {
    if ancestors == [] {
    } else if Skipped(ancestors[0]) {
      var rest := ancestors[1..];
      ParentIsNearest(rest);
      if k :| NearestAt(rest, k) && ParentId(rest) == rest[k].id {
        assert forall j :: 0 < j <= k + 1 ==> ancestors[j] == rest[j - 1];
        assert NearestAt(ancestors, k + 1);
      }
    } else {
      assert NearestAt(ancestors, 0);
    }
  }

  /** A listed child and its ancestors up to, but without, the node that lists it. */
  datatype Listed = Listed(child: Node, between: seq<Node>)

  /** As Flat, keeping the nodes passed through. */
  function Chains(n: Node, above: seq<Node>, p: Policy): seq<Listed>
    decreases n, 1
  {
    if Dropped(n, p) then []
    else if Eligible(n) then [Listed(n, above)]
    else ChainsAll(n.children, [n] + above, p)
  }

  function ChainsAll(ns: seq<Node>, above: seq<Node>, p: Policy): seq<Listed>
    decreases ns, 0
  {
    if ns == [] then [] else Chains(ns[0], above, p) + ChainsAll(ns[1..], above, p)
  }

  function ChildrenOf(ls: seq<Listed>): seq<Node> {
    seq(|ls|, i requires 0 <= i < |ls| => ls[i].child)
  }

  lemma {:induction false} ChainsAreFlat(n: Node, above: seq<Node>, p: Policy)
    ensures ChildrenOf(Chains(n, above, p)) == Flat(n, p)
    decreases n, 1
  {
    ChainsAllAreFlat(n.children, [n] + above, p);
  }

  /** The chains list exactly the accessibility children, in order. */
  lemma {:induction false} ChainsAllAreFlat(ns: seq<Node>, above: seq<Node>, p: Policy)
    ensures ChildrenOf(ChainsAll(ns, above, p)) == FlatAll(ns, p)
    decreases ns, 0
  {
    if ns != [] {
      ChainsAreFlat(ns[0], above, p);
      ChainsAllAreFlat(ns[1..], above, p);
    }
  }

  /** Each node is a child of the one after it. */
  predicate Linked(chain: seq<Node>) {
    forall i :: 0 <= i < |chain| - 1 ==> chain[i] in chain[i + 1].children
  }

  /** A chain ends right below the node `top` that lists the child: every node of it is passed
      through, lies below `top`, and is the parent of the one before it. */
  predicate Between(l: Listed, top: Node, p: Policy) {
    && Linked([l.child] + l.between + [top])
    && forall m :: m in l.between ==> m in PreorderAll(top.children) && !Dropped(m, p) && !Eligible(m)
  }

  /** What a list of nodes below `top` contributes, given the chain from it up to `top`. */
  lemma {:induction false} ChainsAreBetween(ns: seq<Node>, above: seq<Node>, top: Node, p: Policy)
    requires Linked(above + [top])
    requires forall n :: n in ns ==> n in (above + [top])[0].children
    requires forall n :: n in ns || n in above ==> n in Preorder(top)
    requires forall n :: n in PreorderAll(ns) || n in above ==> n in PreorderAll(top.children)
    requires forall m :: m in above ==> !Dropped(m, p) && !Eligible(m)
    ensures forall l :: l in ChainsAll(ns, above, p) ==> Between(l, top, p)
    decreases ns
  {
    if ns != [] {
      var n, rest := ns[0], ns[1..];
      assert forall x :: x in PreorderAll(rest) ==> x in PreorderAll(ns);
      ChainsAreBetween(rest, above, top, p);
      LinkOne(n, above + [top]);
      assert [n] + (above + [top]) == [n] + above + [top];
      assert n in Preorder(n) && n in PreorderAll(ns);
      if !Dropped(n, p) && !Eligible(n) {
        assert forall x :: x in PreorderAll(n.children) ==> x in Preorder(n) && x in PreorderAll(ns);
        forall c | c in n.children ensures c in PreorderAll(n.children) {
          ChildInPreorder(n.children, c);
        }
        ChainsAreBetween(n.children, [n] + above, top, p);
      }
    }
  }

  lemma LinkOne(n: Node, chain: seq<Node>)
    requires chain != [] && Linked(chain) && n in chain[0].children
    ensures Linked([n] + chain)
  {
  }

  lemma {:induction false} ChildInPreorder(ns: seq<Node>, c: Node)
    requires c in ns
    ensures c in PreorderAll(ns)
  {
    if c != ns[0] {
      ChildInPreorder(ns[1..], c);
    }
  }

  /** An internal frame node that may be reported as a parent, though it is in no child list. */
  predicate Blocks(n: Node) {
    n.frame && n.internal && n.tag != "page" && n.tag != "stage" && !n.levelNo
  }

  lemma {:induction false} ParentIdOfChain(between: seq<Node>, top: Node, above: seq<Node>)
    requires !Skipped(top) && forall m :: m in between ==> !Eligible(m) && m.id != top.id
    ensures ParentId(between + [top] + above) == top.id <==> forall m :: m in between ==> !Blocks(m)
  {
    var chain := between + [top] + above;
    if between == [] {
      assert chain[0] == top;
    } else {
      assert chain[0] == between[0];
      assert chain[1..] == between[1..] + [top] + above;
      ParentIdOfChain(between[1..], top, above);
      assert between == [between[0]] + between[1..];
      assert Skipped(between[0]) <==> !Blocks(between[0]);
    }
  }

  // ----- main result -----

  /** Child lists and parent ids are dual: the i-th accessibility child of `n` has the ancestors
      given by its chain, and reports `n` as its parent exactly when no internal frame node that
      is not level-no was passed through on the way. */
  lemma ChildReportsItsParent(n: Node, above: seq<Node>, p: Policy, i: nat)
    requires UniqueIds(n) && n.frame && n.tag != "page" && n.tag != "stage" && !n.levelNo
    requires i < |FlatAll(n.children, p)|
    ensures var ls := ChainsAll(n.children, [], p);
      && |ls| == |FlatAll(n.children, p)| && ls[i].child == FlatAll(n.children, p)[i]
      && Between(ls[i], n, p)
      && (ParentId(ls[i].between + [n] + above) == n.id <==> forall m :: m in ls[i].between ==> !Blocks(m))
  {
    var ls := ChainsAll(n.children, [], p);
    ChainsAllAreFlat(n.children, [], p);
    assert ChildrenOf(ls)[i] == ls[i].child;
    assert [] + [n] == [n];
    forall c | c in n.children ensures c in PreorderAll(n.children) && c in Preorder(n) {
      ChildInPreorder(n.children, c);
    }
    ChainsAreBetween(n.children, [], n, p);
    assert ls[i] in ls;
    forall m | m in ls[i].between ensures !Eligible(m) && m.id != n.id {
      var k :| 0 <= k < |PreorderAll(n.children)| && PreorderAll(n.children)[k] == m;
      assert Preorder(n)[0] == n && Preorder(n)[k + 1] == m;
    }
    ParentIdOfChain(ls[i].between, n, above);
  }
}
