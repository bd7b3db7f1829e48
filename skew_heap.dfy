/** Skew heaps kept in one node arena. Every node stores its key with the
    pending subtractions of its ancestors' lazy tags already applied except
    for those still parked in `lazy`; a node's `lazy` is owed to its two
    children. Heaps are named by the index of their root; the arena itself
    holds any number of them. */
module SkewHeap {
  import opened Wrappers

  datatype Node<V> = Node(left: Option<nat>, right: Option<nat>, key: int, lazy: int, val: V)

  function Max(x: nat, y: nat): nat { if x < y then y else x }

  /** `c` is absent or an index of the arena. */
  predicate InArena<V>(n: seq<Node<V>>, c: Option<nat>)
  {
    c.None? || c.value < |n|
  }

  /** The child link from `i` to `c` is matched by `c`'s ghost parent, and `c`
      is a live node of lower rank. */
  ghost predicate Linked<V>(n: seq<Node<V>>, parent: seq<Option<nat>>, rank: seq<nat>, dead: seq<bool>, i: nat, c: Option<nat>)
    requires |parent| == |rank| == |dead| == |n| && i < |n|
  {
    c.None? || (c.value < |n| && parent[c.value] == Some(i) && rank[c.value] < rank[i] && !dead[c.value])
  }

  /** Node `i`'s links point into the arena; a live node's two children are
      distinct live nodes that have `i` as their parent. */
  ghost predicate NodeOk<V>(n: seq<Node<V>>, parent: seq<Option<nat>>, rank: seq<nat>, dead: seq<bool>, i: nat)
    requires |parent| == |rank| == |dead| == |n| && i < |n|
  {
    && InArena(n, n[i].left) && InArena(n, n[i].right)
    && (!dead[i] ==>
          && Linked(n, parent, rank, dead, i, n[i].left)
          && Linked(n, parent, rank, dead, i, n[i].right)
          && (n[i].left.Some? && n[i].right.Some? ==> n[i].left != n[i].right))
  }

  /** A node with a parent is a child of that live parent. */
  ghost predicate ParentOk<V>(n: seq<Node<V>>, parent: seq<Option<nat>>, dead: seq<bool>, i: nat)
    requires |parent| == |dead| == |n| && i < |n|
  {
    parent[i].Some? ==>
      var p := parent[i].value;
      p < |n| && !dead[p] && (n[p].left == Some(i) || n[p].right == Some(i))
  }

  /** The live nodes form a forest, ranked so that children rank below parents. */
  ghost predicate Shape<V>(n: seq<Node<V>>, parent: seq<Option<nat>>, rank: seq<nat>, dead: seq<bool>)
  {
    && |parent| == |rank| == |dead| == |n|
    && forall i :: 0 <= i < |n| ==> NodeOk(n, parent, rank, dead, i) && ParentOk(n, parent, dead, i)
  }

  /** How far the key of child `c` lies above that of its parent `j`, once the
      tag `j` owes its children is paid: the difference of their effective keys. */
  function Slack<V>(n: seq<Node<V>>, j: nat, c: Option<nat>): int
    requires j < |n|
  {
    if c.None? || c.value >= |n| then 0 else n[c.value].key - n[j].lazy - n[j].key
  }

  /** Heap order at every live node. */
  ghost predicate Ordered<V>(n: seq<Node<V>>, dead: seq<bool>)
    requires |dead| == |n|
  {
    forall j :: 0 <= j < |n| && !dead[j] ==> Slack(n, j, n[j].left) >= 0 && Slack(n, j, n[j].right) >= 0
  }

  /** `add`: the key drops by `d` and the drop is owed to the children. */
  function Added<V>(x: Node<V>, d: int): (y: Node<V>)
    ensures y.left == x.left && y.right == x.right && y.val == x.val
    ensures y.key - y.lazy == x.key - x.lazy - 2 * d
  {
    x.(key := x.key - d, lazy := x.lazy + d)
  }

  function AddAt<V>(n: seq<Node<V>>, c: Option<nat>, d: int): seq<Node<V>>
  {
    if c.None? || c.value >= |n| then n else n[c.value := Added(n[c.value], d)]
  }

  /** `push`: node `i`'s tag is cleared and passed to each child with `add`. */
  function Pushed<V>(n: seq<Node<V>>, i: nat): seq<Node<V>>
    requires i < |n|
  {
    var lz := n[i].lazy;
    if lz == 0 then n
    else AddAt(AddAt(n[i := n[i].(lazy := 0)], n[i].left, lz), n[i].right, lz)
  }

  /** The node `j` after a push at `i`, when `i`'s children are distinct
      nodes other than `i`. */
  function PushedNode<V>(n: seq<Node<V>>, i: nat, j: nat): Node<V>
    requires i < |n| && j < |n|
  {
    if n[i].lazy == 0 then n[j]
    else if Some(j) == n[i].left || Some(j) == n[i].right then Added(n[j], n[i].lazy)
    else if j == i then n[i].(lazy := 0)
    else n[j]
  }

  /** Pushing keeps every link and every value. */
  lemma PushedLinks<V>(n: seq<Node<V>>, i: nat)
    requires i < |n|
    ensures var n' := Pushed(n, i);
            && |n'| == |n|
            && forall j :: 0 <= j < |n| ==> n'[j].left == n[j].left && n'[j].right == n[j].right && n'[j].val == n[j].val
  {
  }

  /** Node by node, a push at a live node. */
  lemma PushedAt<V>(n: seq<Node<V>>, parent: seq<Option<nat>>, rank: seq<nat>, dead: seq<bool>, i: nat)
    requires Shape(n, parent, rank, dead) && i < |n| && !dead[i]
    ensures |Pushed(n, i)| == |n| && forall j :: 0 <= j < |n| ==> Pushed(n, i)[j] == PushedNode(n, i, j)
  {
    assert NodeOk(n, parent, rank, dead, i);
  }

  /** Pushing at a live node changes no difference of effective keys between a
      live node and its child, so every effective key stays where it was; the
      node's own key and every node that is not its child keep their keys. */
  lemma PushKeepsSlack<V>(n: seq<Node<V>>, parent: seq<Option<nat>>, rank: seq<nat>, dead: seq<bool>, i: nat)
    requires Shape(n, parent, rank, dead) && i < |n| && !dead[i]
    ensures var n' := Pushed(n, i);
            && |n'| == |n|
            && (forall j :: 0 <= j < |n| && !dead[j] ==>
                  Slack(n', j, n[j].left) == Slack(n, j, n[j].left) && Slack(n', j, n[j].right) == Slack(n, j, n[j].right))
            && (forall j :: 0 <= j < |n| && Some(j) != n[i].left && Some(j) != n[i].right ==> n'[j].key == n[j].key)
  {
    assert NodeOk(n, parent, rank, dead, i);
    var n' := Pushed(n, i);
    PushedAt(n, parent, rank, dead, i);
    forall j | 0 <= j < |n| && !dead[j]
      ensures Slack(n', j, n[j].left) == Slack(n, j, n[j].left) && Slack(n', j, n[j].right) == Slack(n, j, n[j].right)
    {
      assert NodeOk(n, parent, rank, dead, j);
      if n[j].left.Some? {
        assert ParentOk(n, parent, dead, n[j].left.value);
      }
      if n[j].right.Some? {
        assert ParentOk(n, parent, dead, n[j].right.value);
      }
      if Some(j) == n[i].left {
        assert ParentOk(n, parent, dead, j);
      }
      if Some(j) == n[i].right {
        assert ParentOk(n, parent, dead, j);
      }
    }
  }

  /** Consequently pushing at a live node keeps heap order. */
  lemma PushKeepsOrder<V>(n: seq<Node<V>>, parent: seq<Option<nat>>, rank: seq<nat>, dead: seq<bool>, i: nat)
    requires Shape(n, parent, rank, dead) && Ordered(n, dead) && i < |n| && !dead[i]
    ensures Shape(Pushed(n, i), parent, rank, dead) && Ordered(Pushed(n, i), dead)
  {
    var n' := Pushed(n, i);
    PushedLinks(n, i);
    PushKeepsSlack(n, parent, rank, dead, i);
    assert Shape(n', parent, rank, dead) by {
      forall j | 0 <= j < |n'| ensures NodeOk(n', parent, rank, dead, j) && ParentOk(n', parent, dead, j) {
        assert NodeOk(n, parent, rank, dead, j) && ParentOk(n, parent, dead, j);
      }
    }
  }

  /** Links and ranks are all the shape sees: a change of keys, tags and values
      alone keeps it. */
  lemma SameLinks<V>(n: seq<Node<V>>, n': seq<Node<V>>, parent: seq<Option<nat>>, rank: seq<nat>, dead: seq<bool>)
    requires Shape(n, parent, rank, dead) && |n'| == |n|
    requires forall j :: 0 <= j < |n| ==> n'[j].left == n[j].left && n'[j].right == n[j].right
    ensures Shape(n', parent, rank, dead)
  {
    forall j | 0 <= j < |n'| ensures NodeOk(n', parent, rank, dead, j) && ParentOk(n', parent, dead, j) {
      assert NodeOk(n, parent, rank, dead, j) && ParentOk(n, parent, dead, j);
    }
  }

  /** Adding to a root keeps heap order: every child of any live node is
      unchanged relative to it except the root's, which owes the same drop. */
  lemma AddKeepsOrder<V>(n: seq<Node<V>>, parent: seq<Option<nat>>, rank: seq<nat>, dead: seq<bool>, i: nat, d: int)
    requires Shape(n, parent, rank, dead) && Ordered(n, dead) && i < |n| && parent[i].None?
    ensures Ordered(n[i := Added(n[i], d)], dead)
  {
    var n' := n[i := Added(n[i], d)];
    forall j | 0 <= j < |n| && !dead[j] ensures Slack(n', j, n[j].left) >= 0 && Slack(n', j, n[j].right) >= 0 {
      assert NodeOk(n, parent, rank, dead, j);
      assert Slack(n, j, n[j].left) >= 0 && Slack(n, j, n[j].right) >= 0;
    }
  }

  function ClearParent(parent: seq<Option<nat>>, c: Option<nat>): seq<Option<nat>>
  {
    if c.None? || c.value >= |parent| then parent else parent[c.value := None]
  }

  function SetParent(parent: seq<Option<nat>>, c: Option<nat>, p: nat): seq<Option<nat>>
  {
    if c.None? || c.value >= |parent| then parent else parent[c.value := Some(p)]
  }

  /** The arena, parents and ranks once heaps `w` and `l` hang under `u`, in
      that order: `u` ranks above both. */
  function HungNodes<V>(n2: seq<Node<V>>, u: nat, w: Option<nat>, l: Option<nat>): seq<Node<V>>
    requires u < |n2|
  {
    n2[u := n2[u].(left := w, right := l)]
  }

  function HungRank(rk2: seq<nat>, u: nat, w: Option<nat>, l: Option<nat>): seq<nat>
    requires u < |rk2|
  {
    rk2[u := Max(if w.Some? && w.value < |rk2| then rk2[w.value] + 1 else 0, if l.Some? && l.value < |rk2| then rk2[l.value] + 1 else 0)]
  }

  /** A live node without a parent: the root of one heap. */
  ghost predicate RootOf<V>(n: seq<Node<V>>, parent: seq<Option<nat>>, dead: seq<bool>, x: Option<nat>)
    requires |parent| == |dead| == |n|
  {
    x.None? || (x.value < |n| && !dead[x.value] && parent[x.value].None?)
  }

  /** Child `c` of node `i`, as the walk down the heap of `i` follows it: a
      node of lower rank, as every child of a live node is. */
  function Child(rank: seq<nat>, i: nat, c: Option<nat>): (c': Option<nat>)
    requires i < |rank|
    ensures c'.Some? ==> c'.value < |rank| && rank[c'.value] < rank[i]
  {
    if c.Some? && c.value < |rank| && rank[c.value] < rank[i] then c else None
  }

  /** The nodes of the heap rooted at `x`. */
  ghost function Subtree<V>(n: seq<Node<V>>, rank: seq<nat>, x: Option<nat>): set<nat>
    requires |rank| == |n|
    decreases if x.Some? && x.value < |n| then rank[x.value] + 1 else 0
  {
    if x.None? || x.value >= |n| then {}
    else
      var i := x.value;
      {i} + Subtree(n, rank, Child(rank, i, n[i].left)) + Subtree(n, rank, Child(rank, i, n[i].right))
  }

  /** The heap below a live node holds live nodes of lower rank, each but
      the top one with its parent in the heap. */
  lemma {:induction false} SubtreeLive<V>(n: seq<Node<V>>, parent: seq<Option<nat>>, rank: seq<nat>, dead: seq<bool>, x: nat, y: nat)
    requires Shape(n, parent, rank, dead) && x < |n| && !dead[x] && y in Subtree(n, rank, Some(x))
    ensures y < |n| && !dead[y] && rank[y] <= rank[x]
    ensures y != x ==> rank[y] < rank[x] && parent[y].Some? && parent[y].value in Subtree(n, rank, Some(x))
    decreases rank[x]
  {
    if y != x {
      assert NodeOk(n, parent, rank, dead, x);
      var l, r := Child(rank, x, n[x].left), Child(rank, x, n[x].right);
      if y in Subtree(n, rank, l) {
        SubtreeLive(n, parent, rank, dead, l.value, y);
      } else {
        SubtreeLive(n, parent, rank, dead, r.value, y);
      }
    }
  }

  /** At a live node the walk follows both children, which are distinct
      live nodes with that parent. */
  lemma LiveChildren<V>(n: seq<Node<V>>, parent: seq<Option<nat>>, rank: seq<nat>, dead: seq<bool>, i: nat)
    requires Shape(n, parent, rank, dead) && i < |n| && !dead[i]
    ensures Child(rank, i, n[i].left) == n[i].left && Child(rank, i, n[i].right) == n[i].right
    ensures n[i].left.Some? ==> !dead[n[i].left.value] && parent[n[i].left.value] == Some(i)
    ensures n[i].right.Some? ==> !dead[n[i].right.value] && parent[n[i].right.value] == Some(i)
    ensures n[i].left.Some? && n[i].right.Some? ==> n[i].left != n[i].right
  {
    assert NodeOk(n, parent, rank, dead, i);
  }

  /** A node's parent ranks above it. */
  lemma ParentAbove<V>(n: seq<Node<V>>, parent: seq<Option<nat>>, rank: seq<nat>, dead: seq<bool>, y: nat)
    requires Shape(n, parent, rank, dead) && y < |n| && parent[y].Some?
    ensures parent[y].value < |n| && rank[y] < rank[parent[y].value]
  {
    assert ParentOk(n, parent, dead, y);
    assert NodeOk(n, parent, rank, dead, parent[y].value);
  }

  /** Two heaps that share a node are nested: one is part of the other. */
  lemma {:induction false} Nested<V>(n: seq<Node<V>>, parent: seq<Option<nat>>, rank: seq<nat>, dead: seq<bool>, a: nat, b: nat, y: nat)
    requires Shape(n, parent, rank, dead) && a < |n| && !dead[a] && b < |n| && !dead[b]
    requires y in Subtree(n, rank, Some(a)) && y in Subtree(n, rank, Some(b))
    ensures a in Subtree(n, rank, Some(b)) || b in Subtree(n, rank, Some(a))
    decreases rank[a] as int + rank[b] - 2 * (if y < |rank| then rank[y] else 0)
  {
    SubtreeLive(n, parent, rank, dead, a, y);
    SubtreeLive(n, parent, rank, dead, b, y);
    if y != a && y != b {
      ParentAbove(n, parent, rank, dead, y);
      Nested(n, parent, rank, dead, a, b, parent[y].value);
    }
  }

  /** The heaps of two different roots share no node. */
  lemma RootsApart<V>(n: seq<Node<V>>, parent: seq<Option<nat>>, rank: seq<nat>, dead: seq<bool>, a: nat, b: nat)
    requires Shape(n, parent, rank, dead) && RootOf(n, parent, dead, Some(a)) && RootOf(n, parent, dead, Some(b)) && a != b
    ensures Subtree(n, rank, Some(a)) !! Subtree(n, rank, Some(b))
  {
    forall y | y in Subtree(n, rank, Some(a)) && y in Subtree(n, rank, Some(b))
      ensures false
    {
      Nested(n, parent, rank, dead, a, b, y);
      if a in Subtree(n, rank, Some(b)) {
        SubtreeLive(n, parent, rank, dead, b, a);
      } else {
        SubtreeLive(n, parent, rank, dead, a, b);
      }
    }
  }

  /** The heaps of the two children of live node `i` share no node, and
      neither holds `i`. */
  lemma ChildrenApart<V>(n: seq<Node<V>>, parent: seq<Option<nat>>, rank: seq<nat>, dead: seq<bool>, i: nat)
    requires Shape(n, parent, rank, dead) && i < |n| && !dead[i]
    ensures Subtree(n, rank, n[i].left) !! Subtree(n, rank, n[i].right)
    ensures i !in Subtree(n, rank, n[i].left) && i !in Subtree(n, rank, n[i].right)
  {
    LiveChildren(n, parent, rank, dead, i);
    var l, r := n[i].left, n[i].right;
    if l.Some? && i in Subtree(n, rank, l) {
      SubtreeLive(n, parent, rank, dead, l.value, i);
    }
    if r.Some? && i in Subtree(n, rank, r) {
      SubtreeLive(n, parent, rank, dead, r.value, i);
    }
    if l.Some? && r.Some? {
      forall y | y in Subtree(n, rank, l) && y in Subtree(n, rank, r)
        ensures false
      {
        Nested(n, parent, rank, dead, l.value, r.value, y);
        if l.value in Subtree(n, rank, r) {
          SubtreeLive(n, parent, rank, dead, r.value, l.value);
        } else {
          SubtreeLive(n, parent, rank, dead, l.value, r.value);
        }
      }
    }
  }

  /** Every node of the heap rooted at `x` has its children in the heap. */
  ghost predicate Closed<V>(n: seq<Node<V>>, rank: seq<nat>, x: Option<nat>)
    requires |rank| == |n|
  {
    forall y :: 0 <= y < |n| && y in Subtree(n, rank, x) ==>
      Child(rank, y, n[y].left) == n[y].left && Child(rank, y, n[y].right) == n[y].right
  }

  /** The heap of a live node is closed. */
  lemma LiveClosed<V>(n: seq<Node<V>>, parent: seq<Option<nat>>, rank: seq<nat>, dead: seq<bool>, x: Option<nat>)
    requires Shape(n, parent, rank, dead) && (x.None? || (x.value < |n| && !dead[x.value]))
    ensures Closed(n, rank, x)
  {
    forall y | 0 <= y < |n| && y in Subtree(n, rank, x)
      ensures Child(rank, y, n[y].left) == n[y].left && Child(rank, y, n[y].right) == n[y].right
    {
      SubtreeLive(n, parent, rank, dead, x.value, y);
      LiveChildren(n, parent, rank, dead, y);
    }
  }


  /** A node of the heap of live node `x` heads a heap inside it, and its
      children belong to the heap of `x`. */
  lemma {:induction false} SubtreeWithin<V>(n: seq<Node<V>>, parent: seq<Option<nat>>, rank: seq<nat>, dead: seq<bool>, x: nat, j: nat)
    requires Shape(n, parent, rank, dead) && x < |n| && !dead[x] && j in Subtree(n, rank, Some(x))
    ensures Subtree(n, rank, Some(j)) <= Subtree(n, rank, Some(x))
    ensures j < |n| && n[j].left.Some? ==> n[j].left.value in Subtree(n, rank, Some(x))
    ensures j < |n| && n[j].right.Some? ==> n[j].right.value in Subtree(n, rank, Some(x))
    decreases rank[x]
  {
    SubtreeLive(n, parent, rank, dead, x, j);
    LiveChildren(n, parent, rank, dead, j);
    if j != x {
      LiveChildren(n, parent, rank, dead, x);
      var l, r := n[x].left, n[x].right;
      if j in Subtree(n, rank, l) {
        SubtreeWithin(n, parent, rank, dead, l.value, j);
      } else {
        SubtreeWithin(n, parent, rank, dead, r.value, j);
      }
    }
    var l, r := n[j].left, n[j].right;
    assert l.Some? ==> l.value in Subtree(n, rank, l);
    assert r.Some? ==> r.value in Subtree(n, rank, r);
  }

  /** The heap of a live node is the node and the heaps of its two children,
      which share no node. */
  lemma SubtreeSplit<V>(n: seq<Node<V>>, parent: seq<Option<nat>>, rank: seq<nat>, dead: seq<bool>, i: nat)
    requires Shape(n, parent, rank, dead) && i < |n| && !dead[i]
    ensures var l, r := n[i].left, n[i].right;
            && Subtree(n, rank, Some(i)) == {i} + Subtree(n, rank, l) + Subtree(n, rank, r)
            && Subtree(n, rank, l) !! Subtree(n, rank, r) && i !in Subtree(n, rank, l) && i !in Subtree(n, rank, r)
  {
    LiveChildren(n, parent, rank, dead, i);
    ChildrenApart(n, parent, rank, dead, i);
  }

  /** A node of the heap of live node `x` other than `x` has its parent in
      that heap; so a node outside the heap has no child inside it but `x`. */
  lemma ParentInside<V>(n: seq<Node<V>>, parent: seq<Option<nat>>, rank: seq<nat>, dead: seq<bool>, x: nat, j: nat, c: Option<nat>)
    requires Shape(n, parent, rank, dead) && x < |n| && !dead[x] && j < |n| && !dead[j]
    requires c == n[j].left || c == n[j].right
    requires j !in Subtree(n, rank, Some(x))
    ensures c.Some? && c.value in Subtree(n, rank, Some(x)) ==> c.value == x
  {
    LiveChildren(n, parent, rank, dead, j);
    if c.Some? && c.value in Subtree(n, rank, Some(x)) && c.value != x {
      SubtreeLive(n, parent, rank, dead, x, c.value);
    }
  }

  /** Two arenas link and rank the nodes of the heap of `x` alike. */
  ghost predicate Agree<V>(n: seq<Node<V>>, n': seq<Node<V>>, rank: seq<nat>, rank': seq<nat>, x: Option<nat>)
    requires |rank| == |n| && |n'| == |n| && |rank'| == |n|
  {
    forall y :: 0 <= y < |n| && y in Subtree(n, rank, x) ==>
      n'[y].left == n[y].left && n'[y].right == n[y].right && rank'[y] == rank[y]
  }

  /** One step of `SubtreeFrame`: both arenas walk from `i` to the same
      children, and agree on the children's heaps. */
  lemma AgreeBelow<V>(n: seq<Node<V>>, n': seq<Node<V>>, rank: seq<nat>, rank': seq<nat>, i: nat)
    requires |rank| == |n| && |n'| == |n| && |rank'| == |n| && i < |n|
    requires Closed(n, rank, Some(i)) && Agree(n, n', rank, rank', Some(i))
    ensures Child(rank', i, n'[i].left) == n[i].left && Child(rank', i, n'[i].right) == n[i].right
    ensures Child(rank, i, n[i].left) == n[i].left && Child(rank, i, n[i].right) == n[i].right
    ensures Closed(n, rank, n[i].left) && Agree(n, n', rank, rank', n[i].left)
    ensures Closed(n, rank, n[i].right) && Agree(n, n', rank, rank', n[i].right)
  {
    assert i in Subtree(n, rank, Some(i));
    var l, r := n[i].left, n[i].right;
    assert l.Some? ==> l.value in Subtree(n, rank, l);
    assert r.Some? ==> r.value in Subtree(n, rank, r);
  }

  /** A closed heap is made of its own links and ranks: where those agree,
      so do its nodes. */
  lemma {:induction false} SubtreeFrame<V>(n: seq<Node<V>>, n': seq<Node<V>>, rank: seq<nat>, rank': seq<nat>, x: Option<nat>)
    requires |rank| == |n| && |n'| == |n| && |rank'| == |n|
    requires Closed(n, rank, x) && Agree(n, n', rank, rank', x)
    ensures Subtree(n', rank', x) == Subtree(n, rank, x)
    decreases if x.Some? && x.value < |n| then rank[x.value] + 1 else 0
  {
    if x.Some? && x.value < |n| {
      var i := x.value;
      AgreeBelow(n, n', rank, rank', i);
      SubtreeFrame(n, n', rank, rank', n[i].left);
      SubtreeFrame(n, n', rank, rank', n[i].right);
    }
  }

  /** A change that keeps the links and ranks of the nodes of a live heap
      keeps the heap. */
  lemma Untouched<V>(n: seq<Node<V>>, parent: seq<Option<nat>>, rank: seq<nat>, dead: seq<bool>, n': seq<Node<V>>, rank': seq<nat>, x: Option<nat>)
    requires Shape(n, parent, rank, dead) && (x.None? || (x.value < |n| && !dead[x.value])) && |n'| == |n| && |rank'| == |n|
    requires forall y :: 0 <= y < |n| && y in Subtree(n, rank, x) ==> n'[y].left == n[y].left && n'[y].right == n[y].right && rank'[y] == rank[y]
    ensures Subtree(n', rank', x) == Subtree(n, rank, x)
  {
    LiveClosed(n, parent, rank, dead, x);
    SubtreeFrame(n, n', rank, rank', x);
  }

  /** With every link as it was, every heap is as it was. */
  lemma {:induction false} SameLinksSubtree<V>(n: seq<Node<V>>, n': seq<Node<V>>, rank: seq<nat>, x: Option<nat>)
    requires |rank| == |n| && |n'| == |n|
    requires forall j :: 0 <= j < |n| ==> n'[j].left == n[j].left && n'[j].right == n[j].right
    ensures Subtree(n', rank, x) == Subtree(n, rank, x)
    decreases if x.Some? && x.value < |n| then rank[x.value] + 1 else 0
  {
    if x.Some? && x.value < |n| {
      var i := x.value;
      SameLinksSubtree(n, n', rank, Child(rank, i, n[i].left));
      SameLinksSubtree(n, n', rank, Child(rank, i, n[i].right));
    }
  }

  /** A change confined to the heap of root `u` keeps every other heap. */
  lemma OtherHeapsKept<V>(n: seq<Node<V>>, parent: seq<Option<nat>>, rank: seq<nat>, dead: seq<bool>,
                          n': seq<Node<V>>, rank': seq<nat>, u: nat)
    requires Shape(n, parent, rank, dead) && RootOf(n, parent, dead, Some(u)) && |n'| == |n| && |rank'| == |n|
    requires forall y :: 0 <= y < |n| && y !in Subtree(n, rank, Some(u)) ==>
               n'[y].left == n[y].left && n'[y].right == n[y].right && rank'[y] == rank[y]
    ensures forall x: nat :: RootOf(n, parent, dead, Some(x)) && x != u ==> Subtree(n', rank', Some(x)) == Subtree(n, rank, Some(x))
  {
    forall x: nat | RootOf(n, parent, dead, Some(x)) && x != u
      ensures Subtree(n', rank', Some(x)) == Subtree(n, rank, Some(x))
    {
      OtherHeapKept(n, parent, rank, dead, n', rank', u, x);
    }
  }

  /** `OtherHeapsKept` for one root `x`. */
  lemma OtherHeapKept<V>(n: seq<Node<V>>, parent: seq<Option<nat>>, rank: seq<nat>, dead: seq<bool>,
                         n': seq<Node<V>>, rank': seq<nat>, u: nat, x: nat)
    requires Shape(n, parent, rank, dead) && RootOf(n, parent, dead, Some(u)) && |n'| == |n| && |rank'| == |n|
    requires forall y :: 0 <= y < |n| && y !in Subtree(n, rank, Some(u)) ==>
               n'[y].left == n[y].left && n'[y].right == n[y].right && rank'[y] == rank[y]
    requires RootOf(n, parent, dead, Some(x)) && x != u
    ensures Subtree(n', rank', Some(x)) == Subtree(n, rank, Some(x))
  {
    RootsApart(n, parent, rank, dead, u, x);
    Untouched(n, parent, rank, dead, n', rank', Some(x));
  }

  /** The heap of a live node outside the heap of root `x` shares no node
      with it. */
  lemma ApartFrom<V>(n: seq<Node<V>>, parent: seq<Option<nat>>, rank: seq<nat>, dead: seq<bool>, i: nat, x: nat)
    requires Shape(n, parent, rank, dead) && i < |n| && !dead[i] && RootOf(n, parent, dead, Some(x))
    requires i !in Subtree(n, rank, Some(x))
    ensures Subtree(n, rank, Some(i)) !! Subtree(n, rank, Some(x))
  {
    forall y | y in Subtree(n, rank, Some(i)) && y in Subtree(n, rank, Some(x))
      ensures false
    {
      Nested(n, parent, rank, dead, i, x, y);
      SubtreeLive(n, parent, rank, dead, i, x);
    }
  }

  /** The effective keys `eff` gives the nodes of `s`. */
  ghost function KeysOf(eff: seq<int>, s: set<nat>): map<nat, int>
  {
    map y | y in s && y < |eff| :: eff[y]
  }

  /** Every value of `m` lowered by `d`. */
  ghost function Lower(m: map<nat, int>, d: int): map<nat, int>
  {
    map y | y in m :: m[y] - d
  }

  /** `eff` with the entries of `s` lowered by `d`. */
  ghost function LowerOn(eff: seq<int>, s: set<nat>, d: int): (e: seq<int>)
    ensures |e| == |eff|
    ensures forall j :: 0 <= j < |eff| ==> e[j] == if j in s then eff[j] - d else eff[j]
  {
    seq(|eff|, j requires 0 <= j < |eff| => if j in s then eff[j] - d else eff[j])
  }

  lemma KeysOfUnion(eff: seq<int>, a: set<nat>, b: set<nat>)
    ensures KeysOf(eff, a + b) == KeysOf(eff, a) + KeysOf(eff, b)
  {
  }

  lemma KeysOfMinus(eff: seq<int>, a: set<nat>, r: nat)
    ensures KeysOf(eff, a - {r}) == KeysOf(eff, a) - {r}
  {
  }

  lemma KeysOfLowered(eff: seq<int>, s: set<nat>, t: set<nat>, d: int)
    ensures KeysOf(LowerOn(eff, s, d), s) == Lower(KeysOf(eff, s), d)
    ensures s !! t ==> KeysOf(LowerOn(eff, s, d), t) == KeysOf(eff, t)
  {
  }

  /** `eff` gives live node `j` its effective key: a root's is its stored
      key, and each child's lies `Slack` above `j`'s. */
  ghost predicate EffAt<V>(n: seq<Node<V>>, parent: seq<Option<nat>>, eff: seq<int>, j: nat)
    requires |parent| == |eff| == |n| && j < |n|
  {
    && (parent[j].None? ==> eff[j] == n[j].key)
    && (n[j].left.Some? && n[j].left.value < |n| ==> eff[n[j].left.value] == eff[j] + Slack(n, j, n[j].left))
    && (n[j].right.Some? && n[j].right.value < |n| ==> eff[n[j].right.value] == eff[j] + Slack(n, j, n[j].right))
  }

  /** `eff` holds the effective key of every live node: its stored key less
      the tags its ancestors still owe it. */
  ghost predicate EffOk<V>(n: seq<Node<V>>, parent: seq<Option<nat>>, dead: seq<bool>, eff: seq<int>)
    requires |parent| == |dead| == |eff| == |n|
  {
    forall j :: 0 <= j < |n| && !dead[j] ==> EffAt(n, parent, eff, j)
  }

  /** The effective keys are fixed by the arena: two ways of assigning them
      agree on every heap. */
  lemma {:induction false} EffDetermined<V>(n: seq<Node<V>>, parent: seq<Option<nat>>, rank: seq<nat>, dead: seq<bool>,
                                            eff: seq<int>, eff': seq<int>, x: nat, y: nat)
    requires Shape(n, parent, rank, dead) && |eff| == |eff'| == |n|
    requires EffOk(n, parent, dead, eff) && EffOk(n, parent, dead, eff')
    requires x < |n| && !dead[x] && (parent[x].None? || eff[x] == eff'[x]) && y in Subtree(n, rank, Some(x))
    ensures y < |n| && eff[y] == eff'[y]
    decreases rank[x]
  {
    SubtreeLive(n, parent, rank, dead, x, y);
    assert EffAt(n, parent, eff, x) && EffAt(n, parent, eff', x);
    if y != x {
      LiveChildren(n, parent, rank, dead, x);
      var l, r := n[x].left, n[x].right;
      if y in Subtree(n, rank, l) {
        EffDetermined(n, parent, rank, dead, eff, eff', l.value, y);
      } else {
        EffDetermined(n, parent, rank, dead, eff, eff', r.value, y);
      }
    }
  }

  /** In heap order, no node of a heap has an effective key below its
      root's. */
  lemma {:induction false} EffMin<V>(n: seq<Node<V>>, parent: seq<Option<nat>>, rank: seq<nat>, dead: seq<bool>, eff: seq<int>, x: nat, y: nat)
    requires Shape(n, parent, rank, dead) && |eff| == |n| && EffOk(n, parent, dead, eff) && Ordered(n, dead)
    requires x < |n| && !dead[x] && y in Subtree(n, rank, Some(x))
    ensures y < |n| && eff[x] <= eff[y]
    decreases rank[x]
  {
    SubtreeLive(n, parent, rank, dead, x, y);
    assert EffAt(n, parent, eff, x);
    if y != x {
      LiveChildren(n, parent, rank, dead, x);
      var l, r := n[x].left, n[x].right;
      if y in Subtree(n, rank, l) {
        EffMin(n, parent, rank, dead, eff, l.value, y);
      } else {
        EffMin(n, parent, rank, dead, eff, r.value, y);
      }
    }
  }

  /** `EffAdded` at a node `j` of the heap of `i`. */
  lemma EffAddedIn<V>(n: seq<Node<V>>, parent: seq<Option<nat>>, rank: seq<nat>, dead: seq<bool>, eff: seq<int>, i: nat, d: int, j: nat)
    requires Shape(n, parent, rank, dead) && |eff| == |n| && EffOk(n, parent, dead, eff) && i < |n| && !dead[i]
    requires j in Subtree(n, rank, Some(i))
    ensures j < |n| && EffAt(n[i := Added(n[i], d)], parent, LowerOn(eff, Subtree(n, rank, Some(i)), d), j)
  {
    SubtreeWithin(n, parent, rank, dead, i, j);
    SubtreeLive(n, parent, rank, dead, i, j);
    assert EffAt(n, parent, eff, j);
    LiveChildren(n, parent, rank, dead, j);
    assert NodeOk(n, parent, rank, dead, j);
  }

  /** `EffAdded` at a live node `j` outside the heap of `i`. */
  lemma EffAddedOut<V>(n: seq<Node<V>>, parent: seq<Option<nat>>, rank: seq<nat>, dead: seq<bool>, eff: seq<int>, i: nat, d: int, j: nat)
    requires Shape(n, parent, rank, dead) && |eff| == |n| && EffOk(n, parent, dead, eff) && i < |n| && !dead[i]
    requires j < |n| && !dead[j] && j !in Subtree(n, rank, Some(i))
    ensures EffAt(n[i := Added(n[i], d)], parent, LowerOn(eff, Subtree(n, rank, Some(i)), d), j)
  {
    assert i in Subtree(n, rank, Some(i));
    assert EffAt(n, parent, eff, j);
    ParentInside(n, parent, rank, dead, i, j, n[j].left);
    ParentInside(n, parent, rank, dead, i, j, n[j].right);
  }

  /** `add` at a live node lowers the effective key of each node of its heap
      by `d` and of no other node. */
  lemma EffAdded<V>(n: seq<Node<V>>, parent: seq<Option<nat>>, rank: seq<nat>, dead: seq<bool>, eff: seq<int>, i: nat, d: int)
    requires Shape(n, parent, rank, dead) && |eff| == |n| && EffOk(n, parent, dead, eff) && i < |n| && !dead[i]
    ensures EffOk(n[i := Added(n[i], d)], parent, dead, LowerOn(eff, Subtree(n, rank, Some(i)), d))
  {
    forall j | 0 <= j < |n| && !dead[j]
      ensures EffAt(n[i := Added(n[i], d)], parent, LowerOn(eff, Subtree(n, rank, Some(i)), d), j)
    {
      if j in Subtree(n, rank, Some(i)) {
        EffAddedIn(n, parent, rank, dead, eff, i, d, j);
      } else {
        EffAddedOut(n, parent, rank, dead, eff, i, d, j);
      }
    }
  }

  /** Changing a popped node changes no effective key: no live node is its
      child. */
  lemma EffDeadNode<V>(n: seq<Node<V>>, parent: seq<Option<nat>>, rank: seq<nat>, dead: seq<bool>, eff: seq<int>, i: nat, y: Node<V>)
    requires Shape(n, parent, rank, dead) && |eff| == |n| && EffOk(n, parent, dead, eff) && i < |n| && dead[i]
    ensures EffOk(n[i := y], parent, dead, eff)
  {
    forall j | 0 <= j < |n| && !dead[j]
      ensures EffAt(n[i := y], parent, eff, j)
    {
      assert EffAt(n, parent, eff, j);
      assert NodeOk(n, parent, rank, dead, j);
    }
  }

  /** The effective keys after `add(c, d)`: lowered by `d` on the heap below
      `c` when `c` is live, unchanged otherwise. */
  ghost function AddEff<V>(n: seq<Node<V>>, rank: seq<nat>, dead: seq<bool>, eff: seq<int>, c: Option<nat>, d: int): seq<int>
    requires |rank| == |dead| == |n|
  {
    if c.Some? && c.value < |n| && !dead[c.value] then LowerOn(eff, Subtree(n, rank, c), d) else eff
  }

  /** A new node at the end of the arena leaves every older heap as it was. */
  lemma {:induction false} SubtreeAppend<V>(n: seq<Node<V>>, rank: seq<nat>, x: Option<nat>, node: Node<V>, r: nat)
    requires |rank| == |n| && forall j :: 0 <= j < |n| ==> InArena(n, n[j].left) && InArena(n, n[j].right)
    requires x.None? || x.value < |n|
    ensures Subtree(n + [node], rank + [r], x) == Subtree(n, rank, x)
    decreases if x.Some? && x.value < |n| then rank[x.value] + 1 else 0
  {
    if x.Some? {
      var i := x.value;
      assert (n + [node])[i] == n[i] && (rank + [r])[i] == rank[i];
      assert Child(rank + [r], i, n[i].left) == Child(rank, i, n[i].left);
      assert Child(rank + [r], i, n[i].right) == Child(rank, i, n[i].right);
      SubtreeAppend(n, rank, Child(rank, i, n[i].left), node, r);
      SubtreeAppend(n, rank, Child(rank, i, n[i].right), node, r);
    }
  }

  /** Appending a childless root with a clear tag keeps the forest, its
      order and its effective keys, and every older heap. */
  lemma Appended<V>(n: seq<Node<V>>, parent: seq<Option<nat>>, rank: seq<nat>, dead: seq<bool>, eff: seq<int>, key: int, v: V)
    requires Shape(n, parent, rank, dead) && |eff| == |n|
    ensures var n', p', r', d' := n + [Node(None, None, key, 0, v)], parent + [None], rank + [0], dead + [false];
            && Shape(n', p', r', d')
            && (Ordered(n, dead) ==> Ordered(n', d'))
            && (EffOk(n, parent, dead, eff) ==> EffOk(n', p', d', eff + [key]))
            && Subtree(n', r', Some(|n|)) == {|n|}
            && forall x :: 0 <= x < |n| ==> Subtree(n', r', Some(x)) == Subtree(n, rank, Some(x))
  {
    var n', p', r', d' := n + [Node(None, None, key, 0, v)], parent + [None], rank + [0], dead + [false];
    var i := |n|;
    forall j | 0 <= j < |n'| ensures NodeOk(n', p', r', d', j) && ParentOk(n', p', d', j) {
      if j < i {
        assert NodeOk(n, parent, rank, dead, j);
        assert ParentOk(n, parent, dead, j);
      }
    }
    if Ordered(n, dead) {
      forall j | 0 <= j < |n'| && !d'[j] ensures Slack(n', j, n'[j].left) >= 0 && Slack(n', j, n'[j].right) >= 0 {
        if j < i {
          assert NodeOk(n, parent, rank, dead, j);
          assert Slack(n', j, n'[j].left) == Slack(n, j, n[j].left);
          assert Slack(n', j, n'[j].right) == Slack(n, j, n[j].right);
        }
      }
    }
    assert forall j :: 0 <= j < |n| ==> InArena(n, n[j].left) && InArena(n, n[j].right) by {
      forall j | 0 <= j < |n| ensures InArena(n, n[j].left) && InArena(n, n[j].right) {
        assert NodeOk(n, parent, rank, dead, j);
      }
    }
    forall x | 0 <= x < |n|
      ensures Subtree(n', r', Some(x)) == Subtree(n, rank, Some(x))
    {
      SubtreeAppend(n, rank, Some(x), Node(None, None, key, 0, v), 0);
    }
    if EffOk(n, parent, dead, eff) {
      EffAppended(n, parent, rank, dead, eff, key, v);
    }
  }

  /** A new root at the end of the arena, its effective key its key. */
  lemma EffAppended<V>(n: seq<Node<V>>, parent: seq<Option<nat>>, rank: seq<nat>, dead: seq<bool>, eff: seq<int>, key: int, v: V)
    requires Shape(n, parent, rank, dead) && |eff| == |n| && EffOk(n, parent, dead, eff)
    ensures EffOk(n + [Node(None, None, key, 0, v)], parent + [None], dead + [false], eff + [key])
  {
    var n', p', d', e' := n + [Node(None, None, key, 0, v)], parent + [None], dead + [false], eff + [key];
    forall j | 0 <= j < |n'| && !d'[j]
      ensures EffAt(n', p', e', j)
    {
      if j < |n| {
        assert EffAt(n, parent, eff, j);
        assert NodeOk(n, parent, rank, dead, j);
      }
    }
  }

  /** Pushing at a live node keeps every effective key. */
  lemma EffPushed<V>(n: seq<Node<V>>, parent: seq<Option<nat>>, rank: seq<nat>, dead: seq<bool>, eff: seq<int>, i: nat)
    requires Shape(n, parent, rank, dead) && |eff| == |n| && EffOk(n, parent, dead, eff) && i < |n| && !dead[i]
    ensures EffOk(Pushed(n, i), parent, dead, eff)
  {
    var n' := Pushed(n, i);
    PushedLinks(n, i);
    PushKeepsSlack(n, parent, rank, dead, i);
    LiveChildren(n, parent, rank, dead, i);
    forall j | 0 <= j < |n| && !dead[j]
      ensures EffAt(n', parent, eff, j)
    {
      assert EffAt(n, parent, eff, j);
      assert n'[j].left == n[j].left && n'[j].right == n[j].right;
      assert Slack(n', j, n[j].left) == Slack(n, j, n[j].left) && Slack(n', j, n[j].right) == Slack(n, j, n[j].right);
    }
  }

  /** `EffCut` at node `j`. */
  lemma EffCutAt<V>(n: seq<Node<V>>, parent: seq<Option<nat>>, rank: seq<nat>, dead: seq<bool>, eff: seq<int>, u: nat,
                    retire: bool, n': seq<Node<V>>, p': seq<Option<nat>>, dead': seq<bool>, j: nat)
    requires Shape(n, parent, rank, dead) && |eff| == |n| && EffOk(n, parent, dead, eff) && RootOf(n, parent, dead, Some(u)) && n[u].lazy == 0
    requires if retire then n' == n && dead' == dead[u := true] else n' == n[u := n[u].(left := None, right := None)] && dead' == dead
    requires p' == ClearParent(ClearParent(parent, n[u].left), n[u].right)
    requires j < |n| && !dead'[j]
    ensures EffAt(n', p', eff, j)
  {
    assert EffAt(n, parent, eff, j) && EffAt(n, parent, eff, u);
    LiveChildren(n, parent, rank, dead, u);
    assert !dead[j];
    if j != u {
      LiveChildren(n, parent, rank, dead, j);
    }
  }

  /** Cutting both children off a root with a clear tag, or retiring such a
      root, keeps every effective key: each child, now a root, has the
      stored key its effective key was. */
  lemma EffCut<V>(n: seq<Node<V>>, parent: seq<Option<nat>>, rank: seq<nat>, dead: seq<bool>, eff: seq<int>, u: nat)
    requires Shape(n, parent, rank, dead) && |eff| == |n| && EffOk(n, parent, dead, eff) && RootOf(n, parent, dead, Some(u)) && n[u].lazy == 0
    ensures var p' := ClearParent(ClearParent(parent, n[u].left), n[u].right);
            && EffOk(n[u := n[u].(left := None, right := None)], p', dead, eff)
            && EffOk(n, p', dead[u := true], eff)
  {
    var p' := ClearParent(ClearParent(parent, n[u].left), n[u].right);
    var n' := n[u := n[u].(left := None, right := None)];
    forall j | 0 <= j < |n| && !dead[j]
      ensures EffAt(n', p', eff, j)
    {
      EffCutAt(n, parent, rank, dead, eff, u, false, n', p', dead, j);
    }
    forall j | 0 <= j < |n| && !dead[u := true][j]
      ensures EffAt(n, p', eff, j)
    {
      EffCutAt(n, parent, rank, dead, eff, u, true, n, p', dead[u := true], j);
    }
  }

  /** `EffHung` at node `j`. */
  lemma EffHungAt<V>(n: seq<Node<V>>, parent: seq<Option<nat>>, rank: seq<nat>, dead: seq<bool>, eff: seq<int>, u: nat, w: Option<nat>, l: Option<nat>, j: nat)
    requires Shape(n, parent, rank, dead) && |eff| == |n| && EffOk(n, parent, dead, eff) && RootOf(n, parent, dead, Some(u))
    requires n[u].left.None? && n[u].right.None? && n[u].lazy == 0
    requires RootOf(n, parent, dead, w) && RootOf(n, parent, dead, l) && w != Some(u) && l != Some(u)
    requires j < |n| && !dead[j]
    ensures EffAt(HungNodes(n, u, w, l), SetParent(SetParent(parent, w, u), l, u), eff, j)
  {
    assert EffAt(n, parent, eff, j) && EffAt(n, parent, eff, u);
    assert w.Some? ==> EffAt(n, parent, eff, w.value);
    assert l.Some? ==> EffAt(n, parent, eff, l.value);
    LiveChildren(n, parent, rank, dead, j);
  }

  /** Hanging two heaps under a childless root with a clear tag keeps every
      effective key. */
  lemma EffHung<V>(n: seq<Node<V>>, parent: seq<Option<nat>>, rank: seq<nat>, dead: seq<bool>, eff: seq<int>, u: nat, w: Option<nat>, l: Option<nat>)
    requires Shape(n, parent, rank, dead) && |eff| == |n| && EffOk(n, parent, dead, eff) && RootOf(n, parent, dead, Some(u))
    requires n[u].left.None? && n[u].right.None? && n[u].lazy == 0
    requires RootOf(n, parent, dead, w) && RootOf(n, parent, dead, l) && w != Some(u) && l != Some(u)
    ensures EffOk(HungNodes(n, u, w, l), SetParent(SetParent(parent, w, u), l, u), dead, eff)
  {
    forall j | 0 <= j < |n| && !dead[j]
      ensures EffAt(HungNodes(n, u, w, l), SetParent(SetParent(parent, w, u), l, u), eff, j)
    {
      EffHungAt(n, parent, rank, dead, eff, u, w, l, j);
    }
  }

  /** One node of the arena after `DetachOk`'s update. */
  lemma DetachNodeOk<V>(n: seq<Node<V>>, parent: seq<Option<nat>>, rank: seq<nat>, dead: seq<bool>, u: nat,
                        n': seq<Node<V>>, p': seq<Option<nat>>, j: nat)
    requires Shape(n, parent, rank, dead) && RootOf(n, parent, dead, Some(u))
    requires n' == n[u := n[u].(left := None, right := None)]
    requires p' == ClearParent(ClearParent(parent, n[u].left), n[u].right)
    requires j < |n|
    ensures NodeOk(n', p', rank, dead, j) && ParentOk(n', p', dead, j)
  {
    assert NodeOk(n, parent, rank, dead, u);
    assert NodeOk(n, parent, rank, dead, j) && ParentOk(n, parent, dead, j);
    if j != u {
      if n[j].left.Some? {
        assert ParentOk(n, parent, dead, n[j].left.value);
      }
      if n[j].right.Some? {
        assert ParentOk(n, parent, dead, n[j].right.value);
      }
    }
  }

  /** One node of the arena after `RetireOk`'s update. */
  lemma RetireNodeOk<V>(n: seq<Node<V>>, parent: seq<Option<nat>>, rank: seq<nat>, dead: seq<bool>, r: nat,
                        p': seq<Option<nat>>, dead': seq<bool>, j: nat)
    requires Shape(n, parent, rank, dead) && RootOf(n, parent, dead, Some(r))
    requires p' == ClearParent(ClearParent(parent, n[r].left), n[r].right) && dead' == dead[r := true]
    requires j < |n|
    ensures NodeOk(n, p', rank, dead', j) && ParentOk(n, p', dead', j)
  {
    assert NodeOk(n, parent, rank, dead, r);
    assert NodeOk(n, parent, rank, dead, j) && ParentOk(n, parent, dead, j);
    if j != r {
      if n[j].left.Some? {
        assert ParentOk(n, parent, dead, n[j].left.value);
      }
      if n[j].right.Some? {
        assert ParentOk(n, parent, dead, n[j].right.value);
      }
    }
  }

  /** Cutting both children off a root leaves each of them the root of a heap of
      its own, and no other node changes roles. */
  lemma DetachOk<V>(n: seq<Node<V>>, parent: seq<Option<nat>>, rank: seq<nat>, dead: seq<bool>, u: nat)
    requires Shape(n, parent, rank, dead) && RootOf(n, parent, dead, Some(u))
    ensures var l, r := n[u].left, n[u].right;
            var n' := n[u := n[u].(left := None, right := None)];
            var p' := ClearParent(ClearParent(parent, l), r);
            && Shape(n', p', rank, dead)
            && (Ordered(n, dead) ==> Ordered(n', dead))
            && RootOf(n', p', dead, l) && RootOf(n', p', dead, r)
            && (forall x :: 0 <= x < |n| ==>
                  (RootOf(n', p', dead, Some(x)) <==> RootOf(n, parent, dead, Some(x)) || Some(x) == l || Some(x) == r))
  {
    var l, r := n[u].left, n[u].right;
    var n' := n[u := n[u].(left := None, right := None)];
    var p' := ClearParent(ClearParent(parent, l), r);
    assert NodeOk(n, parent, rank, dead, u);
    forall j | 0 <= j < |n'| ensures NodeOk(n', p', rank, dead, j) && ParentOk(n', p', dead, j) {
      DetachNodeOk(n, parent, rank, dead, u, n', p', j);
    }
    if Ordered(n, dead) {
      forall j | 0 <= j < |n'| && !dead[j] ensures Slack(n', j, n'[j].left) >= 0 && Slack(n', j, n'[j].right) >= 0 {
        assert NodeOk(n, parent, rank, dead, j);
      }
    }
    forall x | 0 <= x < |n|
      ensures RootOf(n', p', dead, Some(x)) <==> RootOf(n, parent, dead, Some(x)) || Some(x) == l || Some(x) == r
    {
    }
  }

  /** One node of the arena after `AttachOk`'s update. */
  lemma AttachNodeOk<V>(n: seq<Node<V>>, parent: seq<Option<nat>>, rank: seq<nat>, dead: seq<bool>, u: nat, w: Option<nat>, l: Option<nat>,
                        n': seq<Node<V>>, p': seq<Option<nat>>, rank': seq<nat>, j: nat)
    requires Shape(n, parent, rank, dead) && RootOf(n, parent, dead, Some(u))
    requires n[u].left.None? && n[u].right.None?
    requires RootOf(n, parent, dead, w) && RootOf(n, parent, dead, l)
    requires w != Some(u) && l != Some(u) && (w.Some? && l.Some? ==> w != l)
    requires n' == HungNodes(n, u, w, l) && p' == SetParent(SetParent(parent, w, u), l, u)
    requires rank' == HungRank(rank, u, w, l)
    requires j < |n|
    ensures NodeOk(n', p', rank', dead, j) && ParentOk(n', p', dead, j)
  {
    assert NodeOk(n, parent, rank, dead, j) && ParentOk(n, parent, dead, j);
    if j != u {
      if n[j].left.Some? {
        assert ParentOk(n, parent, dead, n[j].left.value);
      }
      if n[j].right.Some? {
        assert ParentOk(n, parent, dead, n[j].right.value);
      }
    }
  }

  /** Hanging two heaps `w` and `l` under a childless root `u`, whose tag is
      clear and whose key is at most theirs, keeps the forest ranked and
      ordered; `u` stays a root and `w` and `l` stop being roots. */
  lemma AttachOk<V>(n: seq<Node<V>>, parent: seq<Option<nat>>, rank: seq<nat>, dead: seq<bool>, u: nat, w: Option<nat>, l: Option<nat>)
    requires Shape(n, parent, rank, dead) && RootOf(n, parent, dead, Some(u))
    requires n[u].left.None? && n[u].right.None?
    requires RootOf(n, parent, dead, w) && RootOf(n, parent, dead, l)
    requires w != Some(u) && l != Some(u) && (w.Some? && l.Some? ==> w != l)
    ensures var n' := HungNodes(n, u, w, l);
            var p' := SetParent(SetParent(parent, w, u), l, u);
            var rank' := HungRank(rank, u, w, l);
            && Shape(n', p', rank', dead)
            && RootOf(n', p', dead, Some(u))
            && (forall x :: 0 <= x < |n| ==>
                  (RootOf(n', p', dead, Some(x)) <==> RootOf(n, parent, dead, Some(x)) && Some(x) != w && Some(x) != l))
            && (Ordered(n, dead) && n[u].lazy == 0
                && (w.Some? ==> n[w.value].key >= n[u].key) && (l.Some? ==> n[l.value].key >= n[u].key)
                ==> Ordered(n', dead))
  {
    var n' := HungNodes(n, u, w, l);
    var p' := SetParent(SetParent(parent, w, u), l, u);
    var rank' := HungRank(rank, u, w, l);
    forall j | 0 <= j < |n'| ensures NodeOk(n', p', rank', dead, j) && ParentOk(n', p', dead, j) {
      AttachNodeOk(n, parent, rank, dead, u, w, l, n', p', rank', j);
    }
    if Ordered(n, dead) && n[u].lazy == 0
       && (w.Some? ==> n[w.value].key >= n[u].key) && (l.Some? ==> n[l.value].key >= n[u].key)
    {
      forall j | 0 <= j < |n'| && !dead[j] ensures Slack(n', j, n'[j].left) >= 0 && Slack(n', j, n'[j].right) >= 0 {
        assert NodeOk(n, parent, rank, dead, j);
      }
    }
  }

  /** Popping root `r`: it is marked dead, keeps its stale links, and each of
      its children becomes the root of a heap of its own. */
  lemma RetireOk<V>(n: seq<Node<V>>, parent: seq<Option<nat>>, rank: seq<nat>, dead: seq<bool>, r: nat)
    requires Shape(n, parent, rank, dead) && RootOf(n, parent, dead, Some(r))
    ensures var l, rr := n[r].left, n[r].right;
            var p' := ClearParent(ClearParent(parent, l), rr);
            var dead' := dead[r := true];
            && Shape(n, p', rank, dead')
            && (Ordered(n, dead) ==> Ordered(n, dead'))
            && RootOf(n, p', dead', l) && RootOf(n, p', dead', rr)
            && (l.Some? && rr.Some? ==> l != rr)
            && (l.Some? ==> !RootOf(n, parent, dead, l)) && (rr.Some? ==> !RootOf(n, parent, dead, rr))
            && (forall x :: 0 <= x < |n| ==>
                  (RootOf(n, p', dead', Some(x)) <==> (RootOf(n, parent, dead, Some(x)) && x != r) || Some(x) == l || Some(x) == rr))
  {
    var l, rr := n[r].left, n[r].right;
    var p' := ClearParent(ClearParent(parent, l), rr);
    var dead' := dead[r := true];
    assert NodeOk(n, parent, rank, dead, r);
    assert Linked(n, parent, rank, dead, r, l) && Linked(n, parent, rank, dead, r, rr);
    forall j | 0 <= j < |n| ensures NodeOk(n, p', rank, dead', j) && ParentOk(n, p', dead', j) {
      RetireNodeOk(n, parent, rank, dead, r, p', dead', j);
    }
    forall x | 0 <= x < |n|
      ensures RootOf(n, p', dead', Some(x)) <==> (RootOf(n, parent, dead, Some(x)) && x != r) || Some(x) == l || Some(x) == rr
    {
    }
  }

  /** What `add(i, d)` does to the forest: its shape and every heap stay,
      order stays when `i` is a root, and the effective keys move as
      `AddEff` says: those of the heap below a live `i` drop by `d`, those
      of any heap apart from it stay. */
  lemma AddedOk<V>(n: seq<Node<V>>, parent: seq<Option<nat>>, rank: seq<nat>, dead: seq<bool>, eff: seq<int>, i: nat, d: int)
    requires Shape(n, parent, rank, dead) && |eff| == |n| && i < |n|
    ensures var n', e' := n[i := Added(n[i], d)], AddEff(n, rank, dead, eff, Some(i), d);
            var s := Subtree(n, rank, Some(i));
            && Shape(n', parent, rank, dead) && |e'| == |n|
            && (forall x: Option<nat> :: Subtree(n', rank, x) == Subtree(n, rank, x))
            && (Ordered(n, dead) && parent[i].None? ==> Ordered(n', dead))
            && (EffOk(n, parent, dead, eff) ==> EffOk(n', parent, dead, e'))
            && (!dead[i] ==> KeysOf(e', s) == Lower(KeysOf(eff, s), d))
            && (forall x: nat :: RootOf(n, parent, dead, Some(x)) && i !in Subtree(n, rank, Some(x)) ==>
                  KeysOf(e', Subtree(n, rank, Some(x))) == KeysOf(eff, Subtree(n, rank, Some(x))))
  {
    var n', e' := n[i := Added(n[i], d)], AddEff(n, rank, dead, eff, Some(i), d);
    var s := Subtree(n, rank, Some(i));
    SameLinks(n, n', parent, rank, dead);
    forall x: Option<nat> ensures Subtree(n', rank, x) == Subtree(n, rank, x) {
      SameLinksSubtree(n, n', rank, x);
    }
    if Ordered(n, dead) && parent[i].None? {
      AddKeepsOrder(n, parent, rank, dead, i, d);
    }
    if !dead[i] {
      KeysOfLowered(eff, s, {}, d);
      forall x: nat | RootOf(n, parent, dead, Some(x)) && i !in Subtree(n, rank, Some(x))
        ensures KeysOf(e', Subtree(n, rank, Some(x))) == KeysOf(eff, Subtree(n, rank, Some(x)))
      {
        ApartFrom(n, parent, rank, dead, i, x);
        KeysOfLowered(eff, s, Subtree(n, rank, Some(x)), d);
      }
      if EffOk(n, parent, dead, eff) {
        EffAdded(n, parent, rank, dead, eff, i, d);
      }
    } else if EffOk(n, parent, dead, eff) {
      EffDeadNode(n, parent, rank, dead, eff, i, n'[i]);
    }
  }

  /** What a push at a live node does to the forest: shape, every heap and
      every effective key stay, order stays, and nothing outside the node's
      heap changes. */
  lemma PushedOk<V>(n: seq<Node<V>>, parent: seq<Option<nat>>, rank: seq<nat>, dead: seq<bool>, eff: seq<int>, i: nat)
    requires Shape(n, parent, rank, dead) && |eff| == |n| && i < |n| && !dead[i]
    ensures var n' := Pushed(n, i);
            && Shape(n', parent, rank, dead) && |n'| == |n|
            && (forall x: Option<nat> :: Subtree(n', rank, x) == Subtree(n, rank, x))
            && (Ordered(n, dead) ==> Ordered(n', dead))
            && (EffOk(n, parent, dead, eff) ==> EffOk(n', parent, dead, eff))
            && (forall x :: 0 <= x < |n| && x !in Subtree(n, rank, Some(i)) ==> n'[x] == n[x])
  {
    var n' := Pushed(n, i);
    PushedLinks(n, i);
    PushedAt(n, parent, rank, dead, i);
    SameLinks(n, n', parent, rank, dead);
    forall x: Option<nat> ensures Subtree(n', rank, x) == Subtree(n, rank, x) {
      SameLinksSubtree(n, n', rank, x);
    }
    if Ordered(n, dead) {
      PushKeepsOrder(n, parent, rank, dead, i);
    }
    if EffOk(n, parent, dead, eff) {
      EffPushed(n, parent, rank, dead, eff, i);
    }
    SubtreeWithin(n, parent, rank, dead, i, i);
    assert i in Subtree(n, rank, Some(i));
  }

  /** What cutting both children off root `u` does to the heaps: `u` is
      left alone, the heaps of its children and of every other root stay,
      and with a clear tag at `u` so do the effective keys. */
  lemma Detached<V>(n: seq<Node<V>>, parent: seq<Option<nat>>, rank: seq<nat>, dead: seq<bool>, eff: seq<int>, u: nat)
    requires Shape(n, parent, rank, dead) && |eff| == |n| && RootOf(n, parent, dead, Some(u))
    ensures var l, r := n[u].left, n[u].right;
            var n' := n[u := n[u].(left := None, right := None)];
            var p' := ClearParent(ClearParent(parent, l), r);
            && Subtree(n', rank, Some(u)) == {u}
            && Subtree(n, rank, Some(u)) == {u} + Subtree(n, rank, l) + Subtree(n, rank, r)
            && Subtree(n', rank, l) == Subtree(n, rank, l) && Subtree(n', rank, r) == Subtree(n, rank, r)
            && (forall x: nat :: RootOf(n, parent, dead, Some(x)) && x != u ==> Subtree(n', rank, Some(x)) == Subtree(n, rank, Some(x)))
            && (EffOk(n, parent, dead, eff) && n[u].lazy == 0 ==> EffOk(n', p', dead, eff))
  {
    var l, r := n[u].left, n[u].right;
    var n' := n[u := n[u].(left := None, right := None)];
    assert NodeOk(n, parent, rank, dead, u);
    SubtreeSplit(n, parent, rank, dead, u);
    if EffOk(n, parent, dead, eff) && n[u].lazy == 0 {
      EffCut(n, parent, rank, dead, eff, u);
    }
    Untouched(n, parent, rank, dead, n', rank, l);
    Untouched(n, parent, rank, dead, n', rank, r);
    OtherHeapsKept(n, parent, rank, dead, n', rank, u);
  }

  /** What hanging heaps `w` and `l` under a childless root `u` does to the
      heaps: that of `u` gains theirs, every other heap stays, and with a
      clear tag at `u` so do the effective keys. */
  lemma Hanged<V>(n: seq<Node<V>>, parent: seq<Option<nat>>, rank: seq<nat>, dead: seq<bool>, eff: seq<int>, u: nat, w: Option<nat>, l: Option<nat>)
    requires Shape(n, parent, rank, dead) && |eff| == |n| && RootOf(n, parent, dead, Some(u))
    requires n[u].left.None? && n[u].right.None?
    requires RootOf(n, parent, dead, w) && RootOf(n, parent, dead, l)
    requires w != Some(u) && l != Some(u) && (w.Some? && l.Some? ==> w != l)
    ensures var n' := HungNodes(n, u, w, l);
            var p' := SetParent(SetParent(parent, w, u), l, u);
            var rank' := HungRank(rank, u, w, l);
            && Subtree(n', rank', Some(u)) == Subtree(n, rank, Some(u)) + Subtree(n, rank, w) + Subtree(n, rank, l)
            && (forall x: nat :: RootOf(n, parent, dead, Some(x)) && x != u ==> Subtree(n', rank', Some(x)) == Subtree(n, rank, Some(x)))
            && (EffOk(n, parent, dead, eff) && n[u].lazy == 0 ==> EffOk(n', p', dead, eff))
  {
    var n' := HungNodes(n, u, w, l);
    var rank' := HungRank(rank, u, w, l);
    if EffOk(n, parent, dead, eff) && n[u].lazy == 0 {
      EffHung(n, parent, rank, dead, eff, u, w, l);
    }
    assert Subtree(n, rank, Some(u)) == {u};
    OtherHeapsKept(n, parent, rank, dead, n', rank', u);
    assert Child(rank', u, w) == w && Child(rank', u, l) == l;
    if w.Some? {
      assert Subtree(n', rank', w) == Subtree(n, rank, w);
    }
    if l.Some? {
      assert Subtree(n', rank', l) == Subtree(n, rank, l);
    }
  }

  /** The effective keys after `push(i)`: unchanged at a live node or with a
      clear tag; at a popped node, as the two `add`s along its stale links
      leave them. */
  ghost function PushEff<V>(n: seq<Node<V>>, rank: seq<nat>, dead: seq<bool>, eff: seq<int>, i: nat): seq<int>
    requires |rank| == |dead| == |n| && i < |n|
  {
    var lz := n[i].lazy;
    if dead[i] && lz != 0 then AddEff(n, rank, dead, AddEff(n, rank, dead, eff, n[i].left, lz), n[i].right, lz) else eff
  }

  /** What a push at a popped node does to the forest: shape and every heap
      stay, and the effective keys move as `PushEff` says. */
  lemma PushedDead<V>(n: seq<Node<V>>, parent: seq<Option<nat>>, rank: seq<nat>, dead: seq<bool>, eff: seq<int>, i: nat)
    requires Shape(n, parent, rank, dead) && |eff| == |n| && i < |n| && dead[i]
    ensures var n' := Pushed(n, i);
            && Shape(n', parent, rank, dead) && |n'| == |n|
            && (forall x: Option<nat> :: Subtree(n', rank, x) == Subtree(n, rank, x))
            && (EffOk(n, parent, dead, eff) ==> EffOk(n', parent, dead, PushEff(n, rank, dead, eff, i)))
  {
    var lz := n[i].lazy;
    assert NodeOk(n, parent, rank, dead, i);
    if lz != 0 {
      var l, r := n[i].left, n[i].right;
      var n1 := n[i := n[i].(lazy := 0)];
      SameLinks(n, n1, parent, rank, dead);
      forall x: Option<nat> ensures Subtree(n1, rank, x) == Subtree(n, rank, x) {
        SameLinksSubtree(n, n1, rank, x);
      }
      if EffOk(n, parent, dead, eff) {
        EffDeadNode(n, parent, rank, dead, eff, i, n1[i]);
      }
      var n2, e2 := n1, eff;
      if l.Some? {
        AddedOk(n1, parent, rank, dead, eff, l.value, lz);
        n2, e2 := AddAt(n1, l, lz), AddEff(n1, rank, dead, eff, l, lz);
      }
      assert e2 == AddEff(n, rank, dead, eff, l, lz);
      var n3, e3 := n2, e2;
      if r.Some? {
        AddedOk(n2, parent, rank, dead, e2, r.value, lz);
        n3, e3 := AddAt(n2, r, lz), AddEff(n2, rank, dead, e2, r, lz);
      }
      assert e3 == PushEff(n, rank, dead, eff, i);
      assert n3 == Pushed(n, i);
    }
  }

  /** The arena after `push(u)` and both of `u`'s children cut off it. */
  function CutNodes<V>(n: seq<Node<V>>, u: nat): seq<Node<V>>
    requires u < |n|
  {
    var n1 := Pushed(n, u);
    n1[u := n1[u].(left := None, right := None)]
  }

  /** The shape side of `CutOk`. */
  lemma CutShape<V>(n: seq<Node<V>>, parent: seq<Option<nat>>, rank: seq<nat>, dead: seq<bool>, u: nat)
    requires Shape(n, parent, rank, dead) && RootOf(n, parent, dead, Some(u))
    ensures var l, r := n[u].left, n[u].right;
            var n' := CutNodes(n, u);
            var p' := ClearParent(ClearParent(parent, l), r);
            && Shape(n', p', rank, dead) && |n'| == |n|
            && n'[u] == n[u].(left := None, right := None, lazy := 0)
            && (l.Some? ==> l.value < |n| && rank[l.value] < rank[u] && !RootOf(n, parent, dead, l))
            && (r.Some? ==> r.value < |n| && rank[r.value] < rank[u] && !RootOf(n, parent, dead, r))
            && RootOf(n', p', dead, Some(u)) && RootOf(n', p', dead, l) && RootOf(n', p', dead, r)
            && (l.Some? && r.Some? ==> l != r)
            && (forall x :: 0 <= x < |n| ==>
                  (RootOf(n', p', dead, Some(x)) <==> RootOf(n, parent, dead, Some(x)) || Some(x) == l || Some(x) == r))
            && (Ordered(n, dead) ==>
                  && Ordered(n', dead)
                  && (l.Some? ==> n'[l.value].key >= n'[u].key)
                  && (r.Some? ==> n'[r.value].key >= n'[u].key))
  {
    var l, r := n[u].left, n[u].right;
    var n1 := Pushed(n, u);
    assert NodeOk(n, parent, rank, dead, u);
    assert Linked(n, parent, rank, dead, u, l) && Linked(n, parent, rank, dead, u, r);
    PushedLinks(n, u);
    PushedAt(n, parent, rank, dead, u);
    SameLinks(n, n1, parent, rank, dead);
    if Ordered(n, dead) {
      PushKeepsOrder(n, parent, rank, dead, u);
      assert Slack(n1, u, n1[u].left) >= 0 && Slack(n1, u, n1[u].right) >= 0;
    }
    DetachOk(n1, parent, rank, dead, u);
  }

  /** The heaps side of `CutOk`. */
  lemma CutHeaps<V>(n: seq<Node<V>>, parent: seq<Option<nat>>, rank: seq<nat>, dead: seq<bool>, eff: seq<int>, u: nat)
    requires Shape(n, parent, rank, dead) && |eff| == |n| && RootOf(n, parent, dead, Some(u))
    ensures var l, r := n[u].left, n[u].right;
            var n' := CutNodes(n, u);
            var p' := ClearParent(ClearParent(parent, l), r);
            && |n'| == |n|
            && Subtree(n', rank, Some(u)) == {u}
            && Subtree(n, rank, Some(u)) == {u} + Subtree(n', rank, l) + Subtree(n', rank, r)
            && Subtree(n', rank, l) == Subtree(n, rank, l) && Subtree(n', rank, r) == Subtree(n, rank, r)
            && (forall x :: 0 <= x < |n| ==> n'[x].val == n[x].val)
            && (forall x: nat :: RootOf(n, parent, dead, Some(x)) && x != u ==> Subtree(n', rank, Some(x)) == Subtree(n, rank, Some(x)))
  {
    var l, r := n[u].left, n[u].right;
    var n1 := Pushed(n, u);
    assert Shape(n1, parent, rank, dead) && |n1| == |n| && n1[u].left == l && n1[u].right == r
        && (forall x: Option<nat> :: Subtree(n1, rank, x) == Subtree(n, rank, x))
        && (forall x :: 0 <= x < |n| ==> n1[x].val == n[x].val) by {
      PushedLinks(n, u);
      PushedOk(n, parent, rank, dead, eff, u);
    }
    assert RootOf(n1, parent, dead, Some(u));
    Detached(n1, parent, rank, dead, eff, u);
  }

  /** The frame and effective-key side of `CutOk`. */
  lemma CutFrame<V>(n: seq<Node<V>>, parent: seq<Option<nat>>, rank: seq<nat>, dead: seq<bool>, eff: seq<int>, u: nat)
    requires Shape(n, parent, rank, dead) && |eff| == |n| && RootOf(n, parent, dead, Some(u))
    ensures var l, r := n[u].left, n[u].right;
            var n' := CutNodes(n, u);
            var p' := ClearParent(ClearParent(parent, l), r);
            && |n'| == |n|
            && (forall x :: 0 <= x < |n| && x !in Subtree(n, rank, Some(u)) ==> n'[x] == n[x] && p'[x] == parent[x])
  {
    var l, r := n[u].left, n[u].right;
    var n1 := Pushed(n, u);
    var n' := CutNodes(n, u);
    var p' := ClearParent(ClearParent(parent, l), r);
    assert NodeOk(n, parent, rank, dead, u);
    PushedLinks(n, u);
    PushedOk(n, parent, rank, dead, eff, u);
    SubtreeSplit(n, parent, rank, dead, u);
    assert l.Some? ==> l.value in Subtree(n, rank, l);
    assert r.Some? ==> r.value in Subtree(n, rank, r);
    forall x | 0 <= x < |n| && x !in Subtree(n, rank, Some(u))
      ensures n'[x] == n[x] && p'[x] == parent[x]
    {
      assert x != u && Some(x) != l && Some(x) != r;
      assert n'[x] == n1[x];
    }
  }

  /** The effective-key side of `CutOk`: with `u`'s tag paid to its
      children, every effective key stays. */
  lemma CutEff<V>(n: seq<Node<V>>, parent: seq<Option<nat>>, rank: seq<nat>, dead: seq<bool>, eff: seq<int>, u: nat)
    requires Shape(n, parent, rank, dead) && |eff| == |n| && RootOf(n, parent, dead, Some(u)) && EffOk(n, parent, dead, eff)
    ensures EffOk(CutNodes(n, u), ClearParent(ClearParent(parent, n[u].left), n[u].right), dead, eff)
  {
    var n1 := Pushed(n, u);
    PushedLinks(n, u);
    PushedOk(n, parent, rank, dead, eff, u);
    PushedAt(n, parent, rank, dead, u);
    EffCut(n1, parent, rank, dead, eff, u);
  }

  /** What melding the heaps rooted at `a` and `b` into the heap rooted at
      `r` does, from arena `n` to arena `n'`: `r` is one of the two roots
      (the other when one side is empty), heads a heap holding exactly the
      nodes of both and keeps its key; no value changes; nothing outside the
      two heaps changes; `a` and `b` stop being roots except for `r`; every
      other heap stays; heap order and effective keys are kept. */
  ghost predicate Melded<V>(n: seq<Node<V>>, parent: seq<Option<nat>>, rank: seq<nat>, dead: seq<bool>, eff: seq<int>,
                            a: Option<nat>, b: Option<nat>,
                            n': seq<Node<V>>, parent': seq<Option<nat>>, rank': seq<nat>, r: Option<nat>)
    requires |parent| == |rank| == |dead| == |eff| == |n| && |n'| == |parent'| == |rank'| == |n|
  {
    && (a.None? ==> r == b) && (b.None? ==> r == a) && (r == a || r == b)
    && InArena(n', r) && RootOf(n', parent', dead, r)
    && (r.Some? ==> n'[r.value].key == n[r.value].key)
    && Subtree(n', rank', r) == Subtree(n, rank, a) + Subtree(n, rank, b)
    && (forall x :: 0 <= x < |n| ==> n'[x].val == n[x].val)
    && (forall x :: 0 <= x < |n| && x !in Subtree(n, rank, a) && x !in Subtree(n, rank, b) ==>
          n'[x] == n[x] && parent'[x] == parent[x] && rank'[x] == rank[x])
    && (forall x :: 0 <= x < |n| ==>
          (RootOf(n', parent', dead, Some(x)) <==> RootOf(n, parent, dead, Some(x)) && (Some(x) == r || (Some(x) != a && Some(x) != b))))
    && (forall x: nat :: RootOf(n, parent, dead, Some(x)) && Some(x) != a && Some(x) != b ==>
          Subtree(n', rank', Some(x)) == Subtree(n, rank, Some(x)))
    && (Ordered(n, dead) ==> Ordered(n', dead))
    && (EffOk(n, parent, dead, eff) ==> EffOk(n', parent', dead, eff))
  }

  lemma UnionShuffle(u: nat, l: set<nat>, r: set<nat>, v: set<nat>)
    ensures {u} + (r + v) + l == ({u} + l + r) + v
  {
  }

  /** Melding with an empty heap leaves the arena as it is. */
  lemma MeldedEmpty<V>(n: seq<Node<V>>, parent: seq<Option<nat>>, rank: seq<nat>, dead: seq<bool>, eff: seq<int>, a: Option<nat>, b: Option<nat>)
    requires Shape(n, parent, rank, dead) && |eff| == |n| && RootOf(n, parent, dead, a) && RootOf(n, parent, dead, b)
    ensures a.None? ==> Melded(n, parent, rank, dead, eff, a, b, n, parent, rank, b)
    ensures b.None? ==> Melded(n, parent, rank, dead, eff, a, b, n, parent, rank, a)
  {
  }

  /** Melding is symmetric in the two heaps. */
  lemma MeldedSwap<V>(n: seq<Node<V>>, parent: seq<Option<nat>>, rank: seq<nat>, dead: seq<bool>, eff: seq<int>,
                      a: Option<nat>, b: Option<nat>,
                      n': seq<Node<V>>, parent': seq<Option<nat>>, rank': seq<nat>, r: Option<nat>)
    requires |parent| == |rank| == |dead| == |eff| == |n| && |n'| == |parent'| == |rank'| == |n|
    requires Melded(n, parent, rank, dead, eff, a, b, n', parent', rank', r)
    ensures Melded(n, parent, rank, dead, eff, b, a, n', parent', rank', r)
  {
    assert Subtree(n, rank, a) + Subtree(n, rank, b) == Subtree(n, rank, b) + Subtree(n, rank, a);
  }

  lemma MinusTop(r: nat, l: set<nat>, rr: set<nat>)
    requires r !in l && r !in rr
    ensures ({r} + l + rr) - {r} == l + rr
  {
  }

  /** The state in the middle of a merge step at root `u` with root `v`:
      arena `n2` is what the merge of `u`'s right child's heap with the heap
      of `v` into `w` left, after the cut at `u`. */
  ghost predicate MergeStep<V>(n: seq<Node<V>>, parent: seq<Option<nat>>, rank: seq<nat>, dead: seq<bool>, eff: seq<int>, u: nat, v: nat,
                               n2: seq<Node<V>>, p2: seq<Option<nat>>, rk2: seq<nat>, w: Option<nat>)
  {
    && Shape(n, parent, rank, dead) && |eff| == |n|
    && RootOf(n, parent, dead, Some(u)) && RootOf(n, parent, dead, Some(v)) && u != v && n[u].key <= n[v].key
    && Shape(n2, p2, rk2, dead) && |n2| == |n|
    && var n1, p1 := CutNodes(n, u), ClearParent(ClearParent(parent, n[u].left), n[u].right);
       |n1| == |p1| == |n|
       && Melded(n1, p1, rank, dead, eff, n[u].right, Some(v), n2, p2, rk2, w)
  }

  /** After the cut at root `u` and the merge of its right child's heap with
      that of `v` into `w`, the childless `u`, the heap `w` and the heap of
      `u`'s old left child `l` are three distinct roots, and `u` kept the key
      and clear tag the cut left it with, at most the keys of `w` and `l`. */
  lemma MergeStepReady<V>(n: seq<Node<V>>, parent: seq<Option<nat>>, rank: seq<nat>, dead: seq<bool>, eff: seq<int>, u: nat, v: nat,
                          n2: seq<Node<V>>, p2: seq<Option<nat>>, rk2: seq<nat>, w: Option<nat>)
    requires MergeStep(n, parent, rank, dead, eff, u, v, n2, p2, rk2, w)
    ensures var l := n[u].left;
            && InArena(n2, w) && InArena(n2, l)
            && n2[u] == n[u].(left := None, right := None, lazy := 0) && p2[u] == parent[u] && rk2[u] == rank[u]
            && RootOf(n2, p2, dead, Some(u)) && RootOf(n2, p2, dead, w) && RootOf(n2, p2, dead, l)
            && w != Some(u) && l != Some(u) && (w.Some? && l.Some? ==> w != l)
            && (l.Some? ==> n2[l.value] == CutNodes(n, u)[l.value] && p2[l.value] == None && rk2[l.value] == rank[l.value])
            && (Ordered(n, dead) ==>
                  (w.Some? ==> n2[w.value].key >= n2[u].key) && (l.Some? ==> n2[l.value].key >= n2[u].key))
  {
    var l, rr := n[u].left, n[u].right;
    var n1, p1 := CutNodes(n, u), ClearParent(ClearParent(parent, l), rr);
    CutShape(n, parent, rank, dead, u);
    CutHeaps(n, parent, rank, dead, eff, u);
    CutFrame(n, parent, rank, dead, eff, u);
    RootsApart(n1, p1, rank, dead, u, v);
    RootsApart(n, parent, rank, dead, u, v);
    assert u in Subtree(n1, rank, Some(u));
    if rr.Some? {
      RootsApart(n1, p1, rank, dead, u, rr.value);
    }
    assert u !in Subtree(n1, rank, rr) && u !in Subtree(n1, rank, Some(v));
    assert v in Subtree(n, rank, Some(v));
    if l.Some? {
      assert l.value in Subtree(n1, rank, l);
      RootsApart(n1, p1, rank, dead, l.value, v);
      if rr.Some? {
        RootsApart(n1, p1, rank, dead, l.value, rr.value);
      }
      assert l.value !in Subtree(n1, rank, rr) && l.value !in Subtree(n1, rank, Some(v));
    }
  }

  /** The shape side of a merge step: hanging `w` and `l` under `u` leaves a
      forest whose roots are the old ones but `v`, in heap order, with the
      effective keys kept. */
  lemma MergeStepShape<V>(n: seq<Node<V>>, parent: seq<Option<nat>>, rank: seq<nat>, dead: seq<bool>, eff: seq<int>, u: nat, v: nat,
                          n2: seq<Node<V>>, p2: seq<Option<nat>>, rk2: seq<nat>, w: Option<nat>)
    requires MergeStep(n, parent, rank, dead, eff, u, v, n2, p2, rk2, w)
    ensures var l := n[u].left;
            var n3, p3, rk3 := HungNodes(n2, u, w, l), SetParent(SetParent(p2, w, u), l, u), HungRank(rk2, u, w, l);
            && Shape(n3, p3, rk3, dead) && |n3| == |n|
            && RootOf(n3, p3, dead, Some(u)) && n3[u].key == n[u].key
            && (forall x :: 0 <= x < |n| ==> (RootOf(n3, p3, dead, Some(x)) <==> RootOf(n, parent, dead, Some(x)) && x != v))
            && (Ordered(n, dead) ==> Ordered(n3, dead))
  {
    var l, rr := n[u].left, n[u].right;
    var n1, p1 := CutNodes(n, u), ClearParent(ClearParent(parent, l), rr);
    CutShape(n, parent, rank, dead, u);
    MergeStepReady(n, parent, rank, dead, eff, u, v, n2, p2, rk2, w);
    AttachOk(n2, p2, rk2, dead, u, w, l);
    var n3, p3 := HungNodes(n2, u, w, l), SetParent(SetParent(p2, w, u), l, u);
    forall x | 0 <= x < |n|
      ensures RootOf(n3, p3, dead, Some(x)) <==> RootOf(n, parent, dead, Some(x)) && x != v
    {
    }
  }

  /** A merge step keeps the effective keys. */
  lemma MergeStepEff<V>(n: seq<Node<V>>, parent: seq<Option<nat>>, rank: seq<nat>, dead: seq<bool>, eff: seq<int>, u: nat, v: nat,
                        n2: seq<Node<V>>, p2: seq<Option<nat>>, rk2: seq<nat>, w: Option<nat>)
    requires MergeStep(n, parent, rank, dead, eff, u, v, n2, p2, rk2, w) && EffOk(n, parent, dead, eff)
    ensures var l := n[u].left;
            var n3, p3 := HungNodes(n2, u, w, l), SetParent(SetParent(p2, w, u), l, u);
            |n3| == |p3| == |n| && EffOk(n3, p3, dead, eff)
  {
    var l := n[u].left;
    CutShape(n, parent, rank, dead, u);
    CutEff(n, parent, rank, dead, eff, u);
    MergeStepReady(n, parent, rank, dead, eff, u, v, n2, p2, rk2, w);
    Hanged(n2, p2, rk2, dead, eff, u, w, l);
  }

  /** The heaps side of a merge step: the heap of `u` gains that of `v`. */
  lemma MergeStepHeap<V>(n: seq<Node<V>>, parent: seq<Option<nat>>, rank: seq<nat>, dead: seq<bool>, eff: seq<int>, u: nat, v: nat,
                         n2: seq<Node<V>>, p2: seq<Option<nat>>, rk2: seq<nat>, w: Option<nat>)
    requires MergeStep(n, parent, rank, dead, eff, u, v, n2, p2, rk2, w)
    ensures var l := n[u].left;
            var n3, rk3 := HungNodes(n2, u, w, l), HungRank(rk2, u, w, l);
            && |n3| == |rk3| == |n|
            && Subtree(n3, rk3, Some(u)) == Subtree(n, rank, Some(u)) + Subtree(n, rank, Some(v))
  {
    var l, rr := n[u].left, n[u].right;
    var n1, p1 := CutNodes(n, u), ClearParent(ClearParent(parent, l), rr);
    var n3, rk3 := HungNodes(n2, u, w, l), HungRank(rk2, u, w, l);
    assert Subtree(n2, rk2, Some(u)) == {u} && Subtree(n2, rk2, l) == Subtree(n1, rank, l)
           && Subtree(n2, rk2, w) == Subtree(n1, rank, rr) + Subtree(n1, rank, Some(v))
           && Subtree(n, rank, Some(u)) == {u} + Subtree(n1, rank, l) + Subtree(n1, rank, rr)
           && Subtree(n1, rank, Some(v)) == Subtree(n, rank, Some(v))
    by {
      CutShape(n, parent, rank, dead, u);
      CutHeaps(n, parent, rank, dead, eff, u);
      MergeStepReady(n, parent, rank, dead, eff, u, v, n2, p2, rk2, w);
    }
    assert Subtree(n3, rk3, Some(u)) == Subtree(n2, rk2, Some(u)) + Subtree(n2, rk2, w) + Subtree(n2, rk2, l) by {
      CutShape(n, parent, rank, dead, u);
      MergeStepReady(n, parent, rank, dead, eff, u, v, n2, p2, rk2, w);
      Hanged(n2, p2, rk2, dead, eff, u, w, l);
    }
    UnionShuffle(u, Subtree(n1, rank, l), Subtree(n1, rank, rr), Subtree(n1, rank, Some(v)));
  }

  /** The other side: every heap but those of `u` and `v` stays. */
  lemma MergeStepOthers<V>(n: seq<Node<V>>, parent: seq<Option<nat>>, rank: seq<nat>, dead: seq<bool>, eff: seq<int>, u: nat, v: nat,
                           n2: seq<Node<V>>, p2: seq<Option<nat>>, rk2: seq<nat>, w: Option<nat>)
    requires MergeStep(n, parent, rank, dead, eff, u, v, n2, p2, rk2, w)
    ensures var l := n[u].left;
            var n3, rk3 := HungNodes(n2, u, w, l), HungRank(rk2, u, w, l);
            && |n3| == |rk3| == |n|
            && (forall x: nat :: RootOf(n, parent, dead, Some(x)) && x != u && x != v ==> Subtree(n3, rk3, Some(x)) == Subtree(n, rank, Some(x)))
  {
    var l, rr := n[u].left, n[u].right;
    var n1, p1 := CutNodes(n, u), ClearParent(ClearParent(parent, l), rr);
    CutShape(n, parent, rank, dead, u);
    CutHeaps(n, parent, rank, dead, eff, u);
    MergeStepReady(n, parent, rank, dead, eff, u, v, n2, p2, rk2, w);
    Hanged(n2, p2, rk2, dead, eff, u, w, l);
    var n3, rk3 := HungNodes(n2, u, w, l), HungRank(rk2, u, w, l);
    forall x: nat | RootOf(n, parent, dead, Some(x)) && x != u && x != v
      ensures Subtree(n3, rk3, Some(x)) == Subtree(n, rank, Some(x))
    {
      assert RootOf(n1, p1, dead, Some(x)) && Some(x) != rr;
      assert Subtree(n2, rk2, Some(x)) == Subtree(n1, rank, Some(x));
    }
  }

  /** A merge step changes no value. */
  lemma MergeStepValues<V>(n: seq<Node<V>>, parent: seq<Option<nat>>, rank: seq<nat>, dead: seq<bool>, eff: seq<int>, u: nat, v: nat,
                           n2: seq<Node<V>>, p2: seq<Option<nat>>, rk2: seq<nat>, w: Option<nat>)
    requires MergeStep(n, parent, rank, dead, eff, u, v, n2, p2, rk2, w)
    ensures var n3 := HungNodes(n2, u, w, n[u].left);
            |n3| == |n| && forall x :: 0 <= x < |n| ==> n3[x].val == n[x].val
  {
    var n1, n3 := CutNodes(n, u), HungNodes(n2, u, w, n[u].left);
    CutHeaps(n, parent, rank, dead, eff, u);
    forall x | 0 <= x < |n|
      ensures n3[x].val == n[x].val
    {
      assert n3[x].val == n2[x].val == n1[x].val;
    }
  }

  /** A merge step changes no node outside the heaps of `u` and `v`. */
  lemma MergeStepFrame<V>(n: seq<Node<V>>, parent: seq<Option<nat>>, rank: seq<nat>, dead: seq<bool>, eff: seq<int>, u: nat, v: nat,
                          n2: seq<Node<V>>, p2: seq<Option<nat>>, rk2: seq<nat>, w: Option<nat>)
    requires MergeStep(n, parent, rank, dead, eff, u, v, n2, p2, rk2, w)
    ensures var l := n[u].left;
            var n3, p3, rk3 := HungNodes(n2, u, w, l), SetParent(SetParent(p2, w, u), l, u), HungRank(rk2, u, w, l);
            && |n3| == |p3| == |rk3| == |n|
            && (forall x :: 0 <= x < |n| && x !in Subtree(n, rank, Some(u)) && x !in Subtree(n, rank, Some(v)) ==>
                  n3[x] == n[x] && p3[x] == parent[x] && rk3[x] == rank[x])
  {
    var l, rr := n[u].left, n[u].right;
    var n1, p1 := CutNodes(n, u), ClearParent(ClearParent(parent, l), rr);
    var n3, p3, rk3 := HungNodes(n2, u, w, l), SetParent(SetParent(p2, w, u), l, u), HungRank(rk2, u, w, l);
    assert Subtree(n, rank, Some(u)) == {u} + Subtree(n1, rank, l) + Subtree(n1, rank, rr)
           && Subtree(n1, rank, Some(v)) == Subtree(n, rank, Some(v))
    by {
      CutHeaps(n, parent, rank, dead, eff, u);
    }
    assert forall x :: 0 <= x < |n| && x !in Subtree(n, rank, Some(u)) ==> n1[x] == n[x] && p1[x] == parent[x] by {
      CutFrame(n, parent, rank, dead, eff, u);
    }
    assert (rr.Some? ==> rr.value in Subtree(n1, rank, rr)) && (l.Some? ==> l.value in Subtree(n1, rank, l))
           && v in Subtree(n1, rank, Some(v))
    by {
      CutShape(n, parent, rank, dead, u);
    }
    forall x | 0 <= x < |n| && x !in Subtree(n, rank, Some(u)) && x !in Subtree(n, rank, Some(v))
      ensures n3[x] == n[x] && p3[x] == parent[x] && rk3[x] == rank[x]
    {
      assert x != u && Some(x) != l && Some(x) != w;
      assert x !in Subtree(n1, rank, rr) && x !in Subtree(n1, rank, Some(v));
      assert n2[x] == n1[x] && p2[x] == p1[x] && rk2[x] == rank[x];
      assert p3[x] == p2[x];
    }
  }

  /** A whole merge step at root `u` with root `v` is a meld into `u`. */
  lemma MergeStepDone<V>(n: seq<Node<V>>, parent: seq<Option<nat>>, rank: seq<nat>, dead: seq<bool>, eff: seq<int>, u: nat, v: nat,
                         n2: seq<Node<V>>, p2: seq<Option<nat>>, rk2: seq<nat>, w: Option<nat>)
    requires MergeStep(n, parent, rank, dead, eff, u, v, n2, p2, rk2, w)
    ensures var l := n[u].left;
            var n3, p3, rk3 := HungNodes(n2, u, w, l), SetParent(SetParent(p2, w, u), l, u), HungRank(rk2, u, w, l);
            && Shape(n3, p3, rk3, dead) && |n3| == |n|
            && Melded(n, parent, rank, dead, eff, Some(u), Some(v), n3, p3, rk3, Some(u))
  {
    MergeStepShape(n, parent, rank, dead, eff, u, v, n2, p2, rk2, w);
    if EffOk(n, parent, dead, eff) {
      MergeStepEff(n, parent, rank, dead, eff, u, v, n2, p2, rk2, w);
    }
    MergeStepHeap(n, parent, rank, dead, eff, u, v, n2, p2, rk2, w);
    MergeStepOthers(n, parent, rank, dead, eff, u, v, n2, p2, rk2, w);
    MergeStepValues(n, parent, rank, dead, eff, u, v, n2, p2, rk2, w);
    MergeStepFrame(n, parent, rank, dead, eff, u, v, n2, p2, rk2, w);
  }

  /** The shape side of popping root `r`: pushed and retired, `r` keeps its
      stale links; its children head heaps of their own; the roots are the
      old ones but `r`, and the children. */
  lemma PopShape<V>(n: seq<Node<V>>, parent: seq<Option<nat>>, rank: seq<nat>, dead: seq<bool>, r: nat)
    requires Shape(n, parent, rank, dead) && RootOf(n, parent, dead, Some(r))
    ensures var l, rr := n[r].left, n[r].right;
            var n1, p1, d1 := Pushed(n, r), ClearParent(ClearParent(parent, l), rr), dead[r := true];
            && Shape(n1, p1, rank, d1) && |n1| == |n|
            && n1[r] == n[r].(lazy := 0)
            && RootOf(n1, p1, d1, l) && RootOf(n1, p1, d1, rr) && (l.Some? && rr.Some? ==> l != rr)
            && (l.Some? ==> !RootOf(n, parent, dead, l)) && (rr.Some? ==> !RootOf(n, parent, dead, rr))
            && (forall x :: 0 <= x < |n| ==>
                  (RootOf(n1, p1, d1, Some(x)) <==> (RootOf(n, parent, dead, Some(x)) && x != r) || Some(x) == l || Some(x) == rr))
            && (Ordered(n, dead) ==> Ordered(n1, d1))
  {
    var n1 := Pushed(n, r);
    assert NodeOk(n, parent, rank, dead, r);
    PushedLinks(n, r);
    PushedAt(n, parent, rank, dead, r);
    SameLinks(n, n1, parent, rank, dead);
    if Ordered(n, dead) {
      PushKeepsOrder(n, parent, rank, dead, r);
    }
    RetireOk(n1, parent, rank, dead, r);
  }

  /** The heaps side of popping root `r`: its heap is `r` and the heaps of
      its children, every other heap and value stays, and nothing outside the
      heap of `r` changes. */
  lemma PopHeaps<V>(n: seq<Node<V>>, parent: seq<Option<nat>>, rank: seq<nat>, dead: seq<bool>, eff: seq<int>, r: nat)
    requires Shape(n, parent, rank, dead) && |eff| == |n| && RootOf(n, parent, dead, Some(r))
    ensures var l, rr := n[r].left, n[r].right;
            var n1, p1 := Pushed(n, r), ClearParent(ClearParent(parent, l), rr);
            && |n1| == |p1| == |n|
            && Subtree(n, rank, Some(r)) == {r} + Subtree(n1, rank, l) + Subtree(n1, rank, rr)
            && r !in Subtree(n1, rank, l) && r !in Subtree(n1, rank, rr)
            && (forall x: nat :: RootOf(n, parent, dead, Some(x)) && x != r ==> Subtree(n1, rank, Some(x)) == Subtree(n, rank, Some(x)))
            && (forall x :: 0 <= x < |n| ==> n1[x].val == n[x].val)
            && (forall x :: 0 <= x < |n| && x !in Subtree(n, rank, Some(r)) ==> n1[x] == n[x] && p1[x] == parent[x])
  {
    var l, rr := n[r].left, n[r].right;
    var n1, p1 := Pushed(n, r), ClearParent(ClearParent(parent, l), rr);
    assert |n1| == |n| && Subtree(n1, rank, l) == Subtree(n, rank, l) && Subtree(n1, rank, rr) == Subtree(n, rank, rr)
        && (forall x: nat :: RootOf(n, parent, dead, Some(x)) && x != r ==> Subtree(n1, rank, Some(x)) == Subtree(n, rank, Some(x)))
        && (forall x :: 0 <= x < |n| ==> n1[x].val == n[x].val)
        && (forall x :: 0 <= x < |n| && x !in Subtree(n, rank, Some(r)) ==> n1[x] == n[x]) by {
      PushedLinks(n, r);
      PushedOk(n, parent, rank, dead, eff, r);
    }
    SubtreeSplit(n, parent, rank, dead, r);
    assert forall x :: 0 <= x < |n| && x !in Subtree(n, rank, Some(r)) ==> p1[x] == parent[x] by {
      assert NodeOk(n, parent, rank, dead, r);
      assert l.Some? ==> l.value in Subtree(n, rank, l);
      assert rr.Some? ==> rr.value in Subtree(n, rank, rr);
    }
  }

  /** The effective-key side of popping root `r`: with its tag paid to its
      children, every live node keeps its effective key. */
  lemma PopEff<V>(n: seq<Node<V>>, parent: seq<Option<nat>>, rank: seq<nat>, dead: seq<bool>, eff: seq<int>, r: nat)
    requires Shape(n, parent, rank, dead) && |eff| == |n| && RootOf(n, parent, dead, Some(r)) && EffOk(n, parent, dead, eff)
    ensures EffOk(Pushed(n, r), ClearParent(ClearParent(parent, n[r].left), n[r].right), dead[r := true], eff)
  {
    var n1 := Pushed(n, r);
    PushedLinks(n, r);
    PushedOk(n, parent, rank, dead, eff, r);
    PushedAt(n, parent, rank, dead, r);
    EffCut(n1, parent, rank, dead, eff, r);
  }

  /** What popping root `r` does, from arena `n` to arena `n'` whose heap
      `root'` replaces it: `r` is retired with a clear tag and its stale
      links; `root'` is one of its children, absent only when both are, and
      heads a heap of exactly the other nodes of the heap of `r`; no value
      changes; nothing outside the heap of `r` changes; the roots are the old
      ones but `r`, and `root'`; every other heap stays; heap order and
      effective keys are kept. */
  ghost predicate Popped<V>(n: seq<Node<V>>, parent: seq<Option<nat>>, rank: seq<nat>, dead: seq<bool>, eff: seq<int>, r: nat,
                            n': seq<Node<V>>, parent': seq<Option<nat>>, rank': seq<nat>, dead': seq<bool>, root': Option<nat>)
    requires |parent| == |rank| == |dead| == |eff| == |n| && |n'| == |parent'| == |rank'| == |dead'| == |n| && r < |n|
  {
    && dead' == dead[r := true]
    && n'[r] == n[r].(lazy := 0)
    && (root'.None? <==> n[r].left.None? && n[r].right.None?)
    && (root'.Some? ==> root' == n[r].left || root' == n[r].right)
    && InArena(n', root') && RootOf(n', parent', dead', root')
    && Subtree(n', rank', root') == Subtree(n, rank, Some(r)) - {r}
    && (forall x :: 0 <= x < |n| ==> n'[x].val == n[x].val)
    && (forall x :: 0 <= x < |n| && x !in Subtree(n, rank, Some(r)) ==>
          n'[x] == n[x] && parent'[x] == parent[x] && rank'[x] == rank[x] && dead'[x] == dead[x])
    && (forall x :: 0 <= x < |n| ==>
          (RootOf(n', parent', dead', Some(x)) <==> (RootOf(n, parent, dead, Some(x)) && x != r) || Some(x) == root'))
    && (forall x: nat :: RootOf(n, parent, dead, Some(x)) && x != r ==> Subtree(n', rank', Some(x)) == Subtree(n, rank, Some(x)))
    && (Ordered(n, dead) ==> Ordered(n', dead'))
    && (EffOk(n, parent, dead, eff) ==> EffOk(n', parent', dead', eff))
  }

  /** The state once a pop at root `r` has merged the heaps of its children:
      arena `n2` is what that merge into `root'` left. */
  ghost predicate PopStep<V>(n: seq<Node<V>>, parent: seq<Option<nat>>, rank: seq<nat>, dead: seq<bool>, eff: seq<int>, r: nat,
                             n2: seq<Node<V>>, p2: seq<Option<nat>>, rk2: seq<nat>, root': Option<nat>)
  {
    && Shape(n, parent, rank, dead) && |eff| == |n| && RootOf(n, parent, dead, Some(r))
    && Shape(n2, p2, rk2, dead[r := true]) && |n2| == |n|
    && var n1, p1 := Pushed(n, r), ClearParent(ClearParent(parent, n[r].left), n[r].right);
       |n1| == |p1| == |n|
       && Melded(n1, p1, rank, dead[r := true], eff, n[r].left, n[r].right, n2, p2, rk2, root')
  }

  /** The roots and order after a pop. */
  lemma PopDoneShape<V>(n: seq<Node<V>>, parent: seq<Option<nat>>, rank: seq<nat>, dead: seq<bool>, eff: seq<int>, r: nat,
                   n2: seq<Node<V>>, p2: seq<Option<nat>>, rk2: seq<nat>, root': Option<nat>)
    requires PopStep(n, parent, rank, dead, eff, r, n2, p2, rk2, root')
    ensures var d1 := dead[r := true];
            && n2[r] == n[r].(lazy := 0)
            && (root'.None? <==> n[r].left.None? && n[r].right.None?)
            && (forall x :: 0 <= x < |n| ==>
                  (RootOf(n2, p2, d1, Some(x)) <==> (RootOf(n, parent, dead, Some(x)) && x != r) || Some(x) == root'))
            && (Ordered(n, dead) ==> Ordered(n2, d1))
  {
    var l, rr := n[r].left, n[r].right;
    var n1, p1, d1 := Pushed(n, r), ClearParent(ClearParent(parent, l), rr), dead[r := true];
    PopShape(n, parent, rank, dead, r);
    assert r !in Subtree(n1, rank, l) && r !in Subtree(n1, rank, rr) by {
      PopHeaps(n, parent, rank, dead, eff, r);
    }
    assert n2[r] == n1[r];
    forall x | 0 <= x < |n|
      ensures RootOf(n2, p2, d1, Some(x)) <==> (RootOf(n, parent, dead, Some(x)) && x != r) || Some(x) == root'
    {
    }
  }

  /** The heaps after a pop. */
  lemma PopDoneHeaps<V>(n: seq<Node<V>>, parent: seq<Option<nat>>, rank: seq<nat>, dead: seq<bool>, eff: seq<int>, r: nat,
                   n2: seq<Node<V>>, p2: seq<Option<nat>>, rk2: seq<nat>, root': Option<nat>)
    requires PopStep(n, parent, rank, dead, eff, r, n2, p2, rk2, root')
    ensures && Subtree(n2, rk2, root') == Subtree(n, rank, Some(r)) - {r}
            && (forall x: nat :: RootOf(n, parent, dead, Some(x)) && x != r ==> Subtree(n2, rk2, Some(x)) == Subtree(n, rank, Some(x)))
  {
    var l, rr := n[r].left, n[r].right;
    var n1, p1, d1 := Pushed(n, r), ClearParent(ClearParent(parent, l), rr), dead[r := true];
    assert && (forall x :: 0 <= x < |n| ==>
                 (RootOf(n1, p1, d1, Some(x)) <==> (RootOf(n, parent, dead, Some(x)) && x != r) || Some(x) == l || Some(x) == rr))
           && (l.Some? ==> !RootOf(n, parent, dead, l)) && (rr.Some? ==> !RootOf(n, parent, dead, rr))
    by {
      PopShape(n, parent, rank, dead, r);
    }
    PopHeaps(n, parent, rank, dead, eff, r);
    MinusTop(r, Subtree(n1, rank, l), Subtree(n1, rank, rr));
    forall x: nat | RootOf(n, parent, dead, Some(x)) && x != r
      ensures Subtree(n2, rk2, Some(x)) == Subtree(n, rank, Some(x))
    {
      assert RootOf(n1, p1, d1, Some(x));
    }
  }

  /** Values and the frame after a pop. */
  lemma PopDoneFrame<V>(n: seq<Node<V>>, parent: seq<Option<nat>>, rank: seq<nat>, dead: seq<bool>, eff: seq<int>, r: nat,
                   n2: seq<Node<V>>, p2: seq<Option<nat>>, rk2: seq<nat>, root': Option<nat>)
    requires PopStep(n, parent, rank, dead, eff, r, n2, p2, rk2, root')
    ensures && (forall x :: 0 <= x < |n| ==> n2[x].val == n[x].val)
            && (forall x :: 0 <= x < |n| && x !in Subtree(n, rank, Some(r)) ==>
                  n2[x] == n[x] && p2[x] == parent[x] && rk2[x] == rank[x] && dead[r := true][x] == dead[x])
  {
    var l, rr := n[r].left, n[r].right;
    var n1, p1, d1 := Pushed(n, r), ClearParent(ClearParent(parent, l), rr), dead[r := true];
    PopHeaps(n, parent, rank, dead, eff, r);
    forall x | 0 <= x < |n| && x !in Subtree(n, rank, Some(r))
      ensures n2[x] == n[x] && p2[x] == parent[x] && rk2[x] == rank[x] && d1[x] == dead[x]
    {
      assert x != r && x !in Subtree(n1, rank, l) && x !in Subtree(n1, rank, rr);
    }
  }

  /** A whole pop is as `Popped` says. */
  lemma PopDone<V>(n: seq<Node<V>>, parent: seq<Option<nat>>, rank: seq<nat>, dead: seq<bool>, eff: seq<int>, r: nat,
                   n2: seq<Node<V>>, p2: seq<Option<nat>>, rk2: seq<nat>, root': Option<nat>)
    requires PopStep(n, parent, rank, dead, eff, r, n2, p2, rk2, root')
    ensures Popped(n, parent, rank, dead, eff, r, n2, p2, rk2, dead[r := true], root')
  {
    PopDoneShape(n, parent, rank, dead, eff, r, n2, p2, rk2, root');
    PopDoneHeaps(n, parent, rank, dead, eff, r, n2, p2, rk2, root');
    PopDoneFrame(n, parent, rank, dead, eff, r, n2, p2, rk2, root');
    if EffOk(n, parent, dead, eff) {
      PopEff(n, parent, rank, dead, eff, r);
    }
  }

  class SkewHeap<V> {
    var nodes: seq<Node<V>>
    /** The parent of each node in the forest, its rank (above every
        descendant's) and whether it was popped. */
    ghost var parent: seq<Option<nat>>
    ghost var rank: seq<nat>
    ghost var dead: seq<bool>
    /** The effective key of each node: its stored key less every tag its
        ancestors still owe it. */
    ghost var eff: seq<int>

    ghost predicate Valid()
      reads this
    {
      Shape(nodes, parent, rank, dead) && |eff| == |nodes|
    }

    /** `eff` holds the effective keys of the live nodes. */
    ghost predicate Tracked()
      reads this
      requires Valid()
    {
      EffOk(nodes, parent, dead, eff)
    }

    /** `x` is absent or the root of a heap in the arena. */
    ghost predicate IsRoot(x: Option<nat>)
      reads this
      requires Valid()
    {
      RootOf(nodes, parent, dead, x)
    }

    ghost predicate HeapOrdered()
      reads this
      requires Valid()
    {
      Ordered(nodes, dead)
    }

    ghost function Height(x: Option<nat>): nat
      reads this
      requires Valid() && InArena(nodes, x)
    {
      if x.None? then 0 else rank[x.value] + 1
    }

    /** The nodes of the heap rooted at `x`. */
    ghost function Members(x: Option<nat>): set<nat>
      reads this
      requires Valid()
    {
      Subtree(nodes, rank, x)
    }

    /** The heap rooted at `x` as a map from its nodes to their effective keys. */
    ghost function Content(x: Option<nat>): map<nat, int>
      reads this
      requires Valid()
    {
      KeysOf(eff, Members(x))
    }

    /** The root of a heap holds the least effective key of its heap. */
    lemma RootIsMin(x: nat)
      requires Valid() && Tracked() && HeapOrdered() && IsRoot(Some(x))
      ensures x in Content(Some(x)) && Content(Some(x))[x] == nodes[x].key
      ensures forall y :: y in Content(Some(x)) ==> nodes[x].key <= Content(Some(x))[y]
    {
      assert x in Subtree(nodes, rank, Some(x));
      assert EffAt(nodes, parent, eff, x);
      forall y | y in Content(Some(x))
        ensures nodes[x].key <= Content(Some(x))[y]
      {
        EffMin(nodes, parent, rank, dead, eff, x, y);
      }
    }

    /** `new` and `with_capacity` (the capacity is only a reservation). */
    constructor ()
      ensures Valid() && nodes == [] && HeapOrdered() && Tracked()
    {
      nodes := [];
      parent := [];
      rank := [];
      dead := [];
      eff := [];
    }

    /** `add_node`: a childless node with a clear tag, the root of a heap of
        its own, at the next index. */
    method AddNode(key: int, value: V) returns (i: nat)
      requires Valid()
      modifies this
      ensures Valid() && i == |old(nodes)|
      ensures nodes == old(nodes) + [Node(None, None, key, 0, value)]
      ensures parent == old(parent) + [None] && rank == old(rank) + [0] && dead == old(dead) + [false]
      ensures eff == old(eff) + [key]
      ensures IsRoot(Some(i)) && Subtree(nodes, rank, Some(i)) == {i}
      ensures forall x :: 0 <= x < i ==> (IsRoot(Some(x)) <==> old(IsRoot(Some(x))))
      ensures forall x :: 0 <= x < i ==> Subtree(nodes, rank, Some(x)) == Subtree(old(nodes), old(rank), Some(x))
      ensures old(HeapOrdered()) ==> HeapOrdered()
      ensures old(Tracked()) ==> Tracked()
    {
      Appended(nodes, parent, rank, dead, eff, key, value);
      nodes := nodes + [Node(None, None, key, 0, value)];
      parent := parent + [None];
      rank := rank + [0];
      dead := dead + [false];
      eff := eff + [key];
      i := |nodes| - 1;
    }

    /** `add`: node `i`'s key drops by `d`, and so does the effective key of
        every node below it, through its tag. */
    method Add(i: nat, d: int)
      requires Valid() && i < |nodes|
      modifies this
      ensures Valid() && nodes == old(nodes)[i := Added(old(nodes)[i], d)]
      ensures parent == old(parent) && rank == old(rank) && dead == old(dead)
      ensures eff == AddEff(old(nodes), rank, dead, old(eff), Some(i), d)
      ensures forall x: Option<nat> :: Subtree(nodes, rank, x) == Subtree(old(nodes), old(rank), x)
      ensures !dead[i] ==> Content(Some(i)) == Lower(old(Content(Some(i))), d)
      ensures forall x: nat :: IsRoot(Some(x)) && i !in Subtree(old(nodes), old(rank), Some(x)) ==> Content(Some(x)) == old(Content(Some(x)))
      ensures old(HeapOrdered()) && parent[i].None? ==> HeapOrdered()
      ensures old(Tracked()) ==> Tracked()
    {
      AddedOk(nodes, parent, rank, dead, eff, i, d);
      eff := AddEff(nodes, rank, dead, eff, Some(i), d);
      nodes := nodes[i := Added(nodes[i], d)];
    }

    /** `push`: a nonzero tag moves onto both children and is cleared. At a
        live node no effective key changes; at a popped one the two `add`s
        reach whatever heaps its stale links name. */
    method Push(i: nat)
      requires Valid() && i < |nodes|
      modifies this
      ensures Valid() && nodes == Pushed(old(nodes), i)
      ensures parent == old(parent) && rank == old(rank) && dead == old(dead)
      ensures eff == PushEff(old(nodes), rank, dead, old(eff), i)
      ensures forall x: Option<nat> :: Subtree(nodes, rank, x) == Subtree(old(nodes), old(rank), x)
      ensures forall x :: 0 <= x < |nodes| ==> nodes[x].val == old(nodes[x].val)
      ensures !dead[i] ==> nodes[i].lazy == 0 && nodes[i].key == old(nodes[i].key)
      ensures !dead[i] ==> forall j :: 0 <= j < |nodes| ==> nodes[j] == PushedNode(old(nodes), i, j)
      ensures !dead[i] ==> forall x :: 0 <= x < |nodes| && x !in Subtree(old(nodes), old(rank), Some(i)) ==> nodes[x] == old(nodes[x])
      ensures old(HeapOrdered()) && !dead[i] ==> HeapOrdered()
      ensures old(Tracked()) ==> Tracked()
    {
      PushedLinks(nodes, i);
      if dead[i] {
        PushedDead(nodes, parent, rank, dead, eff, i);
      } else {
        PushedAt(nodes, parent, rank, dead, i);
        PushedOk(nodes, parent, rank, dead, eff, i);
      }
      eff := PushEff(nodes, rank, dead, eff, i);
      assert NodeOk(nodes, parent, rank, dead, i);
      var lz := nodes[i].lazy;
      if lz != 0 {
        var l, r := nodes[i].left, nodes[i].right;
        nodes := nodes[i := nodes[i].(lazy := 0)];
        if l.Some? {
          nodes := nodes[l.value := Added(nodes[l.value], lz)];
        }
        if r.Some? {
          nodes := nodes[r.value := Added(nodes[r.value], lz)];
        }
      }
    }

    /** `merge`: melds the heaps rooted at `a` and `b` and returns the new root.
        With one side empty it is the other side; otherwise the root of smaller
        key (`a` on a tie) stays root, keeps its key, and the other heap goes
        down its right spine. The melded heap holds exactly the nodes of both,
        with their effective keys; no value changes, and no other heap. */
    method Merge(a: Option<nat>, b: Option<nat>) returns (r: Option<nat>)
      requires Valid() && InArena(nodes, a) && InArena(nodes, b) && IsRoot(a) && IsRoot(b)
      requires a.Some? && b.Some? ==> a != b
      modifies this
      decreases Height(a) + Height(b), 1
      ensures Valid() && dead == old(dead) && eff == old(eff)
      ensures Melded(old(nodes), old(parent), old(rank), dead, eff, a, b, nodes, parent, rank, r)
      ensures a.Some? && b.Some? ==> r == (if old(nodes[b.value].key < nodes[a.value].key) then b else a)
      ensures a.None? || b.None? ==> nodes == old(nodes) && parent == old(parent) && rank == old(rank)
    {
      ghost var n0, p0, rk0 := nodes, parent, rank;
      MeldedEmpty(nodes, parent, rank, dead, eff, a, b);
      if a.None? {
        return b;
      }
      if b.None? {
        return a;
      }
      if nodes[b.value].key < nodes[a.value].key {
        r := MergeRoots(b.value, a.value);
        MeldedSwap(n0, p0, rk0, dead, eff, b, a, nodes, parent, rank, r);
      } else {
        r := MergeRoots(a.value, b.value);
      }
    }

    /** The case of two heaps, `u` the one with the smaller root key: `u` is
        pushed, its right subtree is merged with `v`, and the result becomes its
        left child while its old left child becomes its right one. */
    method MergeRoots(u: nat, v: nat) returns (r: Option<nat>)
      requires Valid() && u < |nodes| && v < |nodes| && u != v && IsRoot(Some(u)) && IsRoot(Some(v))
      requires nodes[u].key <= nodes[v].key
      modifies this
      decreases Height(Some(u)) + Height(Some(v)), 0
      ensures Valid() && dead == old(dead) && eff == old(eff) && r == Some(u)
      ensures Melded(old(nodes), old(parent), old(rank), dead, eff, Some(u), Some(v), nodes, parent, rank, r)
    {
      ghost var n0, p0, rk0 := nodes, parent, rank;
      var l, rr := nodes[u].left, nodes[u].right;
      assert var n1, p1 := CutNodes(nodes, u), ClearParent(ClearParent(parent, l), rr);
             && Shape(n1, p1, rank, dead) && |n1| == |nodes|
             && RootOf(n1, p1, dead, rr) && RootOf(n1, p1, dead, Some(v)) && rr != Some(v)
             && (rr.Some? ==> rr.value < |nodes| && rank[rr.value] < rank[u])
      by {
        CutShape(nodes, parent, rank, dead, u);
      }
      nodes := CutNodes(nodes, u);
      parent := ClearParent(ClearParent(parent, l), rr);
      var w := Merge(rr, Some(v));
      MergeStepDone(n0, p0, rk0, dead, eff, u, v, nodes, parent, rank, w);
      nodes := HungNodes(nodes, u, w, l);
      parent := SetParent(SetParent(parent, w, u), l, u);
      rank := HungRank(rank, u, w, l);
      r := Some(u);
    }

    /** `pop`: a heap without its root. The root `r` is pushed, keeps its key,
        value and (stale) links, and is retired; its two children are merged
        into the new root, which holds every other node of the heap with its
        effective key. An empty heap is left as it is. */
    method Pop(root: Option<nat>) returns (root': Option<nat>)
      requires Valid() && InArena(nodes, root) && IsRoot(root)
      modifies this
      ensures Valid() && eff == old(eff)
      ensures root.None? ==> root' == None && nodes == old(nodes) && parent == old(parent) && rank == old(rank) && dead == old(dead)
      ensures root.Some? ==> Popped(old(nodes), old(parent), old(rank), old(dead), eff, root.value, nodes, parent, rank, dead, root')
      ensures root.Some? ==> Content(root') == old(Content(root)) - {root.value}
    {
      if root.None? {
        return None;
      }
      var r := root.value;
      ghost var n0, p0, rk0, d0, m0 := nodes, parent, rank, dead, Subtree(nodes, rank, root);
      var l, rr := nodes[r].left, nodes[r].right;
      assert var n1, p1, d1 := Pushed(nodes, r), ClearParent(ClearParent(parent, l), rr), dead[r := true];
             && Shape(n1, p1, rank, d1) && |n1| == |nodes|
             && RootOf(n1, p1, d1, l) && RootOf(n1, p1, d1, rr) && (l.Some? && rr.Some? ==> l != rr)
             && n1[r].left == l && n1[r].right == rr
      by {
        PopShape(nodes, parent, rank, dead, r);
      }
      nodes := Pushed(nodes, r);
      parent := ClearParent(ClearParent(parent, l), rr);
      dead := dead[r := true];
      root' := Merge(l, rr);
      PopDone(n0, p0, rk0, d0, eff, r, nodes, parent, rank, root');
      KeysOfMinus(eff, m0, r);
    }
  }
}
