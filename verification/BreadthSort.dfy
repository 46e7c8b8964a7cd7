/** The breadth-first sort of accessibility element infos: the loop over lists changed in place,
    and what its output is. */
module BreadthSort {
  import opened Wrappers
  import opened ElementInfos

  // ----- what the loop computes -----

  /** The position of the first info with the id, or |infos|. */
  function Find(infos: seq<Info>, id: int): (k: nat)
    ensures k <= |infos|
    ensures k < |infos| ==> infos[k].id == id
    ensures forall i :: 0 <= i < k ==> infos[i].id != id
  {
    if infos == [] || infos[0].id == id then 0 else 1 + Find(infos[1..], id)
  }

  function Without(infos: seq<Info>, k: nat): (r: seq<Info>)
    requires k < |infos|
    ensures |r| == |infos| - 1
  {
    infos[..k] + infos[k + 1..]
  }

  /** A plain queue loop: the infos put out, in order, and the infos left over. */
  function Sort(infos: seq<Info>, queue: seq<int>): (r: (seq<Info>, seq<Info>))
    ensures |r.0| + |r.1| == |infos|
    decreases |infos|, |queue|
  {
    if queue == [] then ([], infos) else
    var k := Find(infos, queue[0]);
    if k == |infos| then Sort(infos, queue[1..]) else
    var (out, left) := Sort(Without(infos, k), queue[1..] + infos[k].children);
    ([infos[k]] + out, left)
  }

  // ----- the loop -----

  /** The source calls itself inside its own loop; the inner call empties the queue. */
  method SortAccessibilityInfosByBreadth(
      infos: ListRef<Info>, queue: ListRef<int>, output: ListRef<Info>)
    requires infos != output
    modifies infos, queue, output
    ensures queue.items == []
    ensures output.items == old(output.items) + Sort(old(infos.items), old(queue.items)).0
    ensures infos.items == Sort(old(infos.items), old(queue.items)).1
    decreases |infos.items|, |queue.items|
  {
    ghost var all := Sort(infos.items, queue.items);
    while queue.items != []
      invariant output.items + Sort(infos.items, queue.items).0 == old(output.items) + all.0
      invariant Sort(infos.items, queue.items).1 == all.1
      invariant queue.items == [] || (infos.items == old(infos.items)
                && queue.items == old(queue.items) && output.items == old(output.items))
      decreases |infos.items|, |queue.items|
    {
      var id := queue.items[0];
      ghost var k := Find(infos.items, id);
      queue.items := queue.items[1..];
      var i := 0;
      while i < |infos.items|
        invariant 0 <= i <= k
        invariant infos.items == old(infos.items) && queue.items == old(queue.items)[1..]
        invariant output.items == old(output.items)
      {
        if infos.items[i].id != id {
          i := i + 1;
          continue;
        }
        assert i == k;
        queue.items := queue.items + infos.items[i].children;
        output.items := output.items + [infos.items[i]];
        infos.items := infos.items[..i] + infos.items[i + 1..];
        break;
      }
      SortAccessibilityInfosByBreadth(infos, queue, output);
    }
  }

  method SortExtensionAccessibilityInfo(infos: ListRef<Info>, rootAccessibilityId: int)
    modifies infos
    ensures infos.items == Sort(old(infos.items), [rootAccessibilityId]).0
  {
    var input := new ListRef(infos.items);
    infos.items := [];
    var queue := new ListRef<int>([]);
    queue.items := queue.items + [rootAccessibilityId];
    SortAccessibilityInfosByBreadth(input, queue, infos);
  }

  // ----- nothing is invented or put out twice -----

  lemma WithoutOne(infos: seq<Info>, k: nat)
    requires k < |infos|
    ensures multiset(Without(infos, k)) + multiset{infos[k]} == multiset(infos)
  {
    assert infos == infos[..k] + ([infos[k]] + infos[k + 1..]);
  }

  /** Conservation, whatever the ids: output and left-over infos together are the input. */
  lemma {:induction false} SortConserves(infos: seq<Info>, queue: seq<int>)
    ensures multiset(Sort(infos, queue).0) + multiset(Sort(infos, queue).1) == multiset(infos)
    decreases |infos|, |queue|
  {
    if queue != [] {
      var k := Find(infos, queue[0]);
      if k == |infos| {
        SortConserves(infos, queue[1..]);
      } else {
        SortConserves(Without(infos, k), queue[1..] + infos[k].children);
        WithoutOne(infos, k);
      }
    }
  }

  // ----- reachability through child ids -----

  predicate DistinctIds(infos: seq<Info>) {
    forall i, j :: 0 <= i < j < |infos| ==> infos[i].id != infos[j].id
  }

  /** An info of `infos` with id `a` lists `b` as a child. */
  ghost predicate Link(infos: seq<Info>, a: int, b: int) {
    exists x :: x in infos && x.id == a && b in x.children
  }

  /** `p` leads from `root` through child ids. */
  ghost predicate Path(infos: seq<Info>, root: int, p: seq<int>) {
    && p != [] && p[0] == root
    && forall i :: 0 <= i < |p| - 1 ==> Link(infos, p[i], p[i + 1])
  }

  ghost predicate PathTo(infos: seq<Info>, root: int, id: int, n: nat, p: seq<int>) {
    Path(infos, root, p) && |p| == n + 1 && p[n] == id
  }

  /** A path of `n` links leads to `id`. */
  ghost predicate At(infos: seq<Info>, root: int, id: int, n: nat) {
    exists p :: PathTo(infos, root, id, n, p)
  }

  lemma AtNext(infos: seq<Info>, root: int, a: int, n: nat, b: int)
    requires At(infos, root, a, n) && Link(infos, a, b)
    ensures At(infos, root, b, n + 1)
  {
    var p :| PathTo(infos, root, a, n, p);
    assert PathTo(infos, root, b, n + 1, p + [b]);
  }

  // ----- a run of the queue loop, with the depth at which each id was queued -----

  datatype Run = Run(out: seq<Info>, depth: seq<nat>, left: seq<Info>, queue: seq<int>, due: seq<nat>)

  predicate Shape(r: Run) {
    |r.out| == |r.depth| && |r.queue| == |r.due|
  }

  function Start(infos: seq<Info>, root: int): Run {
    Run([], [], infos, [root], [0])
  }

  function Step(r: Run): (r': Run)
    requires Shape(r) && r.queue != []
    ensures Shape(r')
  {
    var k := Find(r.left, r.queue[0]);
    if k == |r.left| then r.(queue := r.queue[1..], due := r.due[1..])
    else
      var x := r.left[k];
      Run(r.out + [x], r.depth + [r.due[0]], Without(r.left, k),
          r.queue[1..] + x.children, r.due[1..] + seq(|x.children|, _ => r.due[0] + 1))
  }

  /** Depths never decrease along output and queue, and the queue spans at most two depths. */
  predicate Ordered(r: Run) {
    && Shape(r)
    && (forall i, j :: 0 <= i < j < |r.depth| ==> r.depth[i] <= r.depth[j])
    && (forall i, j :: 0 <= i < |r.depth| && 0 <= j < |r.due| ==> r.depth[i] <= r.due[j])
    && (forall i, j :: 0 <= i < j < |r.due| ==> r.due[i] <= r.due[j] <= r.due[0] + 1)
  }

  lemma StepOrdered(r: Run)
    requires Ordered(r) && r.queue != []
    ensures Ordered(Step(r))
  {
  }

  /** Output and left-over infos make up the input. */
  ghost predicate Split(all: seq<Info>, r: Run) {
    forall x :: x in all <==> x in r.out || x in r.left
  }

  lemma StepSplit(all: seq<Info>, r: Run)
    requires Shape(r) && Split(all, r) && r.queue != []
    ensures Split(all, Step(r))
  {
    var k := Find(r.left, r.queue[0]);
    if k < |r.left| {
      assert r.left == r.left[..k] + [r.left[k]] + r.left[k + 1..];
    }
  }

  /** Every depth is the length of a path. */
  ghost predicate Witnessed(all: seq<Info>, root: int, r: Run) {
    && Shape(r)
    && (forall i :: 0 <= i < |r.out| ==> At(all, root, r.out[i].id, r.depth[i]))
    && (forall i :: 0 <= i < |r.queue| ==> At(all, root, r.queue[i], r.due[i]))
  }

  lemma StepWitnessed(all: seq<Info>, root: int, r: Run)
    requires Split(all, r) && Witnessed(all, root, r) && r.queue != []
    ensures Witnessed(all, root, Step(r))
  {
    var k := Find(r.left, r.queue[0]);
    if k < |r.left| {
      var x := r.left[k];
      assert x in r.left;
      forall i | 0 <= i < |x.children| ensures At(all, root, x.children[i], r.due[0] + 1) {
        AtNext(all, root, x.id, r.due[0], x.children[i]);
      }
    }
  }

  /** `id` was put out, or is queued, at a depth of at most `n`; or it is no info's id. */
  ghost predicate Covered(all: seq<Info>, r: Run, id: int, n: nat)
    requires Shape(r)
  {
    || (exists i :: 0 <= i < |r.out| && r.out[i].id == id && r.depth[i] <= n)
    || (exists i :: 0 <= i < |r.queue| && r.queue[i] == id && r.due[i] <= n)
    || (forall x :: x in all ==> x.id != id)
  }

  ghost predicate Closed(all: seq<Info>, root: int, r: Run) {
    && Shape(r)
    && Covered(all, r, root, 0)
    && forall i, c :: 0 <= i < |r.out| && c in r.out[i].children ==> Covered(all, r, c, r.depth[i] + 1)
  }

  lemma StepCovered(all: seq<Info>, r: Run, id: int, n: nat)
    requires Ordered(r) && Split(all, r) && r.queue != [] && Covered(all, r, id, n)
    ensures Covered(all, Step(r), id, n)
  {
    var s := Step(r);
    var k := Find(r.left, r.queue[0]);
    if i :| 0 <= i < |r.out| && r.out[i].id == id && r.depth[i] <= n {
      assert s.out[i].id == id && s.depth[i] <= n;
    } else if i :| 0 <= i < |r.queue| && r.queue[i] == id && r.due[i] <= n {
      if i > 0 {
        assert s.queue[i - 1] == id && s.due[i - 1] <= n;
      } else if k < |r.left| {
        assert s.out[|r.out|].id == id && s.depth[|r.out|] <= n;
      } else {
        forall x | x in r.out ensures x.id != id {
          var j :| 0 <= j < |r.out| && r.out[j] == x;
          assert r.depth[j] <= r.due[0];
        }
      }
    }
  }

  lemma StepClosed(all: seq<Info>, root: int, r: Run)
    requires Ordered(r) && Split(all, r) && Closed(all, root, r) && r.queue != []
    ensures Closed(all, root, Step(r))
  {
    var s := Step(r);
    var k := Find(r.left, r.queue[0]);
    StepCovered(all, r, root, 0);
    forall i, c | 0 <= i < |s.out| && c in s.out[i].children ensures Covered(all, s, c, s.depth[i] + 1) {
      if i < |r.out| {
        StepCovered(all, r, c, r.depth[i] + 1);
      } else {
        var x := r.left[k];
        var j :| 0 <= j < |x.children| && x.children[j] == c;
        assert s.queue[|r.queue| - 1 + j] == c && s.due[|r.queue| - 1 + j] == r.due[0] + 1;
      }
    }
  }

  /** An info before position `n` of the output lists `id`. */
  predicate ListedBefore(out: seq<Info>, n: nat, id: int)
    requires n <= |out|
  {
    exists j :: 0 <= j < n && id in out[j].children
  }

  /** The first output is the root, and a parent comes before each other output. */
  predicate Rooted(root: int, r: Run) {
    && (r.out == [] ==> forall i :: 0 <= i < |r.queue| ==> r.queue[i] == root)
    && (r.out != [] ==> r.out[0].id == root)
    && (r.out != [] ==> forall i :: 0 <= i < |r.queue| ==> ListedBefore(r.out, |r.out|, r.queue[i]))
    && (forall i :: 0 < i < |r.out| ==> ListedBefore(r.out, i, r.out[i].id))
  }

  lemma ListedStays(out: seq<Info>, x: Info, n: nat, id: int)
    requires n <= |out| && ListedBefore(out, n, id)
    ensures ListedBefore(out + [x], n, id) && ListedBefore(out + [x], n + 1, id)
  {
    var j :| 0 <= j < n && id in out[j].children;
    assert id in (out + [x])[j].children;
  }

  lemma StepRooted(root: int, r: Run)
    requires Shape(r) && Rooted(root, r) && r.queue != [] && (r.out == [] ==> |r.queue| == 1)
    ensures Rooted(root, Step(r)) && (Step(r).out == [] ==> |Step(r).queue| <= 1)
  {
    var s := Step(r);
    var k := Find(r.left, r.queue[0]);
    if k < |r.left| {
      var x := r.left[k];
      forall i | 0 <= i < |s.queue| ensures ListedBefore(s.out, |s.out|, s.queue[i]) {
        if i < |r.queue| - 1 {
          ListedStays(r.out, x, |r.out|, r.queue[i + 1]);
        } else {
          assert s.queue[i] in s.out[|r.out|].children;
        }
      }
      forall i | 0 < i < |s.out| ensures ListedBefore(s.out, i, s.out[i].id) {
        ListedStays(r.out, x, i, s.out[i].id);
      }
    }
  }

  ghost predicate Inv(all: seq<Info>, root: int, r: Run) {
    && Ordered(r) && Split(all, r) && Witnessed(all, root, r) && Closed(all, root, r)
    && Rooted(root, r) && (r.out == [] ==> |r.queue| <= 1)
  }

  lemma StepInv(all: seq<Info>, root: int, r: Run)
    requires Inv(all, root, r) && r.queue != []
    ensures Inv(all, root, Step(r))
  {
    StepOrdered(r);
    StepSplit(all, r);
    StepWitnessed(all, root, r);
    StepClosed(all, root, r);
    StepRooted(root, r);
  }

  lemma StepSorts(r: Run)
    requires Shape(r) && r.queue != []
    ensures Step(r).out + Sort(Step(r).left, Step(r).queue).0 == r.out + Sort(r.left, r.queue).0
    ensures |Step(r).left| < |r.left| || (|Step(r).left| == |r.left| && |Step(r).queue| < |r.queue|)
  {
    var k := Find(r.left, r.queue[0]);
    if k < |r.left| {
      Associative(r.out, [r.left[k]], Sort(Step(r).left, Step(r).queue).0);
    }
  }

  lemma {:induction false} Finish(all: seq<Info>, root: int, r: Run) returns (e: Run)
    requires Inv(all, root, r)
    ensures Inv(all, root, e) && e.queue == []
    ensures e.out == r.out + Sort(r.left, r.queue).0
    decreases |r.left|, |r.queue|
  {
    if r.queue == [] {
      e := r;
      assert r.out + [] == r.out;
    } else {
      StepInv(all, root, r);
      StepSorts(r);
      e := Finish(all, root, Step(r));
    }
  }

  lemma StartInv(infos: seq<Info>, root: int)
    ensures Inv(infos, root, Start(infos, root))
  {
    assert PathTo(infos, root, root, 0, [root]);
  }

  /** With an empty queue, every info on a path was put out, no deeper than the path is long. */
  lemma {:induction false} ClosedReaches(all: seq<Info>, root: int, e: Run, p: seq<int>) returns (i: nat)
    requires Closed(all, root, e) && e.queue == [] && Split(all, e) && DistinctIds(all)
    requires Path(all, root, p) && exists x :: x in all && x.id == p[|p| - 1]
    ensures i < |e.out| && e.out[i].id == p[|p| - 1] && e.depth[i] <= |p| - 1
    decreases |p|
  {
    var n := |p| - 1;
    var id := p[n];
    if n == 0 {
      assert Covered(all, e, root, 0);
    } else {
      var q := p[..n];
      assert Link(all, p[n - 1], p[n]);
      assert forall m :: 0 <= m < |q| - 1 ==> Link(all, p[m], p[m + 1]);
      var j := ClosedReaches(all, root, e, q);
      var x :| x in all && x.id == p[n - 1] && id in x.children;
      assert e.out[j] in all;
      SameInfo(all, x, e.out[j]);
      assert Covered(all, e, id, e.depth[j] + 1);
    }
    i :| 0 <= i < |e.out| && e.out[i].id == id && e.depth[i] <= n;
  }

  lemma SameInfo(all: seq<Info>, x: Info, y: Info)
    requires DistinctIds(all) && x in all && y in all && x.id == y.id
    ensures x == y
  {
  }

  // ----- main results -----

  ghost predicate Reachable(infos: seq<Info>, root: int, id: int) {
    exists n :: At(infos, root, id, n)
  }

  /** No path to `a` needs more links than the shortest path to `b`. */
  ghost predicate NoDeeper(infos: seq<Info>, root: int, a: int, b: int) {
    forall n :: At(infos, root, b, n) ==> exists m :: m <= n && At(infos, root, a, m)
  }

  /** With distinct ids, the sort puts out exactly the infos reachable from the root, each once,
      in level order; the root comes first, and a parent before each other info. */
  lemma SortIsBreadthFirst(infos: seq<Info>, root: int)
    requires DistinctIds(infos)
    ensures var out := Sort(infos, [root]).0;
      && (forall x :: x in out <==> x in infos && Reachable(infos, root, x.id))
      && DistinctIds(out)
      && (forall i, j :: 0 <= i < j < |out| ==> NoDeeper(infos, root, out[i].id, out[j].id))
      && (out != [] ==> out[0].id == root)
      && (forall j :: 0 < j < |out| ==> ListedBefore(out, j, out[j].id))
  {
    var out := Sort(infos, [root]).0;
    SortConserves(infos, [root]);
    DistinctOutput(infos, out, Sort(infos, [root]).1);
    StartInv(infos, root);
    var e := Finish(infos, root, Start(infos, root));
    assert e.out == out;
    forall x ensures x in out <==> x in infos && Reachable(infos, root, x.id) {
      OutputIsReachable(infos, root, e, x);
    }
    forall i, j | 0 <= i < j < |out| ensures NoDeeper(infos, root, out[i].id, out[j].id) {
      OutputIsLevelOrder(infos, root, e, i, j);
    }
  }

  lemma OutputIsReachable(infos: seq<Info>, root: int, e: Run, x: Info)
    requires DistinctIds(infos) && Inv(infos, root, e) && e.queue == []
    ensures x in e.out <==> x in infos && Reachable(infos, root, x.id)
  {
    if x in infos && Reachable(infos, root, x.id) {
      var n :| At(infos, root, x.id, n);
      var p :| PathTo(infos, root, x.id, n, p);
      var i := ClosedReaches(infos, root, e, p);
      SameInfo(infos, x, e.out[i]);
    }
    if x in e.out {
      var i :| 0 <= i < |e.out| && e.out[i] == x;
      assert At(infos, root, x.id, e.depth[i]);
    }
  }

  lemma OutputIsLevelOrder(infos: seq<Info>, root: int, e: Run, i: nat, j: nat)
    requires DistinctIds(infos) && Inv(infos, root, e) && e.queue == []
    requires i < j < |e.out| && DistinctIds(e.out)
    ensures NoDeeper(infos, root, e.out[i].id, e.out[j].id)
  {
    forall n | At(infos, root, e.out[j].id, n)
      ensures exists m :: m <= n && At(infos, root, e.out[i].id, m)
    {
      var p :| PathTo(infos, root, e.out[j].id, n, p);
      assert e.out[j] in infos;
      var k := ClosedReaches(infos, root, e, p);
      assert e.depth[i] <= e.depth[j] && At(infos, root, e.out[i].id, e.depth[i]);
    }
  }

  lemma DistinctOutput(infos: seq<Info>, out: seq<Info>, left: seq<Info>)
    requires DistinctIds(infos) && multiset(out) + multiset(left) == multiset(infos)
    ensures DistinctIds(out)
  {
    forall i, j | 0 <= i < j < |out| ensures out[i].id != out[j].id {
      assert out[i] in multiset(infos) && out[j] in multiset(infos);
      DistinctOnce(infos, out[i]);
      assert multiset(infos)[out[i]] >= multiset(out)[out[i]];
      if out[i].id == out[j].id {
        SameInfo(infos, out[i], out[j]);
        CountTwice(out, i, j);
      }
    }
  }

  lemma CountTwice(s: seq<Info>, i: nat, j: nat)
    requires i < j < |s| && s[i] == s[j]
    ensures multiset(s)[s[i]] >= 2
  {
    assert s == s[..i] + ([s[i]] + (s[i + 1..j] + ([s[j]] + s[j + 1..])));
  }

  lemma {:induction false} DistinctOnce(infos: seq<Info>, x: Info)
    requires DistinctIds(infos)
    ensures multiset(infos)[x] <= 1
  {
    if infos != [] {
      var rest := infos[1..];
      DistinctOnce(rest, x);
      assert infos == [infos[0]] + rest;
      if x == infos[0] {
        assert x !in rest;
      }
    }
  }
}
