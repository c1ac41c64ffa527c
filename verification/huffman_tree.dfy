/**
 * The coding tree of lib/huffman.rs and src/huffman.rs. Nodes live in a
 * vector and are named by their index: the root is node 0, the leaves are
 * nodes 1..n (leaf i codes symbol i - 1), and every inner node is appended
 * when two subtrees are tied, except the last tie, which fills in the root.
 * A walk from the root records the depth of every leaf; the depths of a
 * tree in which every inner node has two children satisfy Kraft's equality.
 */
module HuffmanTree {
  import opened Bytes

  datatype TreeNode = TreeNode(id: nat, lchild: Option<nat>, rchild: Option<nat>)

  /** The binary tree a node vector stands for; a leaf carries its node id. */
  datatype Shape = Leaf(id: nat) | Inner(left: Shape, right: Shape)

  /** A child names a node other than the root, below its parent unless the parent is the root. */
  ghost predicate ChildOk(nodes: seq<TreeNode>, i: nat, c: Option<nat>)
  {
    c.Some? ==> 1 <= c.value < |nodes| && (i != 0 ==> c.value < i)
  }

  /** Every node sits at its own id, and its children are ordered as ChildOk says. */
  ghost predicate Ordered(nodes: seq<TreeNode>)
  {
    forall i :: 0 <= i < |nodes| ==>
      nodes[i].id == i && ChildOk(nodes, i, nodes[i].lchild) && ChildOk(nodes, i, nodes[i].rchild)
  }

  /** The subtree at node `i`: a node with two children is inner, any other node is a leaf. */
  ghost function Sub(nodes: seq<TreeNode>, i: nat): Shape
    requires Ordered(nodes) && i < |nodes|
    decreases if i == 0 then |nodes| else i
  {
    var nd := nodes[i];
    if nd.lchild.Some? && nd.rchild.Some? then
      Inner(Sub(nodes, nd.lchild.value), Sub(nodes, nd.rchild.value))
    else
      Leaf(nd.id)
  }

  /** The number of nodes of a shape. */
  function Size(t: Shape): (r: nat)
    ensures r >= 1
  {
    match t
    case Leaf(_) => 1
    case Inner(l, r) => 1 + Size(l) + Size(r)
  }

  /**
   * The leaves of `t`, each with its depth (`t` itself at depth `d`), in
   * the order a stack walk that pushes the left child before the right
   * one meets them: the right subtree first.
   */
  function LeafDepths(t: Shape, d: nat): (r: seq<(nat, nat)>)
    ensures |r| >= 1
    ensures forall k :: 0 <= k < |r| ==> r[k].1 >= d
  {
    match t
    case Leaf(id) => [(id, d)]
    case Inner(l, r) => LeafDepths(r, d + 1) + LeafDepths(l, d + 1)
  }

  /** The deepest depth in `ps`; 0 when there is none. */
  function MaxDepth(ps: seq<(nat, nat)>): (m: nat)
    ensures forall k :: 0 <= k < |ps| ==> ps[k].1 <= m
    ensures ps != [] ==> exists k :: 0 <= k < |ps| && ps[k].1 == m
    ensures ps == [] ==> m == 0
  {
    if ps == [] then 0
    else
      var m := MaxDepth(ps[..|ps| - 1]);
      if ps[|ps| - 1].1 > m then ps[|ps| - 1].1 else m
  }

  /** Every leaf named in `ps` is one of the leaves 1..n. */
  predicate LeavesIn(ps: seq<(nat, nat)>, n: nat)
  {
    forall k :: 0 <= k < |ps| ==> 1 <= ps[k].0 <= n
  }

  /** `ls` after writing, in order, the depth of each leaf of `ps` at the place of its symbol. */
  function Record(ls: seq<nat>, ps: seq<(nat, nat)>): (r: seq<nat>)
    requires LeavesIn(ps, |ls|)
    ensures |r| == |ls|
  {
    if ps == [] then ls
    else
      var p := ps[|ps| - 1];
      Record(ls, ps[..|ps| - 1])[p.0 - 1 := p.1]
  }

  /** No leaf is named twice. */
  predicate DistinctLeaves(ps: seq<(nat, nat)>)
  {
    forall j, k :: 0 <= j < k < |ps| ==> ps[j].0 != ps[k].0
  }

  /** When every leaf is named once, the symbol of each leaf ends up holding the leaf's depth. */
  lemma {:induction false} RecordAt(ls: seq<nat>, ps: seq<(nat, nat)>, k: nat)
    requires LeavesIn(ps, |ls|) && DistinctLeaves(ps) && k < |ps|
    ensures Record(ls, ps)[ps[k].0 - 1] == ps[k].1
  {
    if k < |ps| - 1 {
      RecordAt(ls, ps[..|ps| - 1], k);
    }
  }

  /** A symbol whose leaf is not named keeps its value. */
  lemma {:induction false} RecordElsewhere(ls: seq<nat>, ps: seq<(nat, nat)>, s: nat)
    requires LeavesIn(ps, |ls|) && s < |ls|
    requires forall k :: 0 <= k < |ps| ==> ps[k].0 != s + 1
    ensures Record(ls, ps)[s] == ls[s]
  {
    if ps != [] {
      RecordElsewhere(ls, ps[..|ps| - 1], s);
    }
  }

  /** The leaves still to be met by the walk: those below each stacked node, the top of the stack first. */
  ghost function Pending(nodes: seq<TreeNode>, stack: seq<(nat, nat)>): seq<(nat, nat)>
    requires Ordered(nodes) && forall k :: 0 <= k < |stack| ==> stack[k].0 < |nodes|
  {
    if stack == [] then []
    else
      var top := stack[|stack| - 1];
      LeafDepths(Sub(nodes, top.0), top.1) + Pending(nodes, stack[..|stack| - 1])
  }

  /** The nodes below the stacked ones, counted with multiplicity; the walk makes it smaller at every step. */
  ghost function Weight(nodes: seq<TreeNode>, stack: seq<(nat, nat)>): nat
    requires Ordered(nodes) && forall k :: 0 <= k < |stack| ==> stack[k].0 < |nodes|
  {
    if stack == [] then 0
    else Size(Sub(nodes, stack[|stack| - 1].0)) + Weight(nodes, stack[..|stack| - 1])
  }

  /** No leaf of `ps` is deeper than `D`. */
  predicate AtMost(ps: seq<(nat, nat)>, D: nat)
  {
    forall k :: 0 <= k < |ps| ==> ps[k].1 <= D
  }

  /** The sum of `2^(D - depth)` over the leaves of `ps`. */
  function KraftSum(ps: seq<(nat, nat)>, D: nat): nat
    requires AtMost(ps, D)
  {
    if ps == [] then 0 else Pow2(D - ps[0].1) + KraftSum(ps[1..], D)
  }

  lemma {:induction false} KraftSumAppend(a: seq<(nat, nat)>, b: seq<(nat, nat)>, D: nat)
    requires AtMost(a, D) && AtMost(b, D)
    ensures KraftSum(a + b, D) == KraftSum(a, D) + KraftSum(b, D)
  {
    if a != [] {
      assert (a + b)[0] == a[0];
      assert (a + b)[1..] == a[1..] + b;
      KraftSumAppend(a[1..], b, D);
    } else {
      assert a + b == b;
    }
  }

  /**
   * Kraft's equality: in a tree whose inner nodes all have two children,
   * the leaves below depth `d` weigh `2^(D - depth)` each and together
   * `2^(D - d)`, for any `D` at least the deepest depth.
   */
  lemma {:induction false} Kraft(t: Shape, d: nat, D: nat)
    requires AtMost(LeafDepths(t, d), D)
    ensures d <= D && KraftSum(LeafDepths(t, d), D) == Pow2(D - d)
  {
    match t
    case Leaf(id) =>
      assert LeafDepths(t, d)[0].1 == d;
    case Inner(l, r) =>
      var a, b := LeafDepths(r, d + 1), LeafDepths(l, d + 1);
      assert LeafDepths(t, d) == a + b;
      AtMostSplit(a, b, D);
      Kraft(r, d + 1, D);
      Kraft(l, d + 1, D);
      KraftSumAppend(a, b, D);
  }

  lemma AtMostSplit(a: seq<(nat, nat)>, b: seq<(nat, nat)>, D: nat)
    requires AtMost(a + b, D)
    ensures AtMost(a, D) && AtMost(b, D)
  {
    assert forall k :: 0 <= k < |a| ==> a[k] == (a + b)[k];
    assert forall k :: 0 <= k < |b| ==> b[k] == (a + b)[|a| + k];
  }

  // ----- full trees and their lengths -----

  /** The ids of the leaves of `t`. */
  function LeafSet(t: Shape): set<nat>
  {
    match t
    case Leaf(id) => {id}
    case Inner(l, r) => LeafSet(l) + LeafSet(r)
  }

  /** No leaf id occurs twice in `t`. */
  predicate Distinct(t: Shape)
  {
    match t
    case Leaf(_) => true
    case Inner(l, r) => Distinct(l) && Distinct(r) && LeafSet(l) !! LeafSet(r)
  }

  /** Every leaf LeafDepths lists is in LeafSet. */
  lemma {:induction false} LeafDepthsIn(t: Shape, d: nat)
    ensures forall k :: 0 <= k < |LeafDepths(t, d)| ==> LeafDepths(t, d)[k].0 in LeafSet(t)
  {
    match t
    case Leaf(id) =>
    case Inner(l, r) =>
      LeafDepthsIn(l, d + 1);
      LeafDepthsIn(r, d + 1);
      var a, b := LeafDepths(r, d + 1), LeafDepths(l, d + 1);
      assert LeafDepths(t, d) == a + b;
  }

  /** Leaf `i` is named in `ps`. */
  predicate Lists(ps: seq<(nat, nat)>, i: nat)
  {
    exists k :: 0 <= k < |ps| && ps[k].0 == i
  }

  /** Every leaf of LeafSet is listed by LeafDepths. */
  lemma {:induction false} LeafDepthsCover(t: Shape, d: nat, i: nat)
    requires i in LeafSet(t)
    ensures Lists(LeafDepths(t, d), i)
  {
    match t
    case Leaf(id) =>
      assert LeafDepths(t, d)[0].0 == i;
    case Inner(l, r) =>
      var a, b := LeafDepths(r, d + 1), LeafDepths(l, d + 1);
      var ab := LeafDepths(t, d);
      assert ab == a + b;
      if i in LeafSet(r) {
        LeafDepthsCover(r, d + 1, i);
        var k :| 0 <= k < |a| && a[k].0 == i;
        assert ab[k] == a[k];
      } else {
        LeafDepthsCover(l, d + 1, i);
        var k :| 0 <= k < |b| && b[k].0 == i;
        assert ab[|a| + k] == b[k];
      }
  }

  /** In a Distinct tree LeafDepths lists each leaf once. */
  lemma {:induction false} LeafDepthsDistinct(t: Shape, d: nat)
    requires Distinct(t)
    ensures DistinctLeaves(LeafDepths(t, d))
  {
    match t
    case Leaf(id) =>
    case Inner(l, r) =>
      LeafDepthsDistinct(l, d + 1);
      LeafDepthsDistinct(r, d + 1);
      LeafDepthsIn(l, d + 1);
      LeafDepthsIn(r, d + 1);
      var a, b := LeafDepths(r, d + 1), LeafDepths(l, d + 1);
      var ab := LeafDepths(t, d);
      assert ab == a + b;
      forall j, k | 0 <= j < k < |ab|
        ensures ab[j].0 != ab[k].0
      {
        if k < |a| {
          assert ab[j] == a[j] && ab[k] == a[k];
        } else if j >= |a| {
          assert ab[j] == b[j - |a|] && ab[k] == b[k - |a|];
        } else {
          assert ab[j].0 in LeafSet(r) && ab[k] == b[k - |a|];
        }
      }
  }

  /**
   * The sum of `2^(D - len)` over the lengths of `ls` between 1 and `D`:
   * the share of the code space the codewords of those lengths take, out
   * of `2^D`.
   */
  function CodeSpace(ls: seq<nat>, D: nat): nat
  {
    if ls == [] then 0 else CodeSpace(ls[..|ls| - 1], D) + Share(ls[|ls| - 1], D)
  }

  function Share(len: nat, D: nat): nat
  {
    if 1 <= len <= D then Pow2(D - len) else 0
  }

  /** Overwriting one length trades its share for that of the new one. */
  lemma {:induction false} CodeSpacePut(ls: seq<nat>, i: nat, v: nat, D: nat)
    requires i < |ls|
    ensures CodeSpace(ls[i := v], D) + Share(ls[i], D) == CodeSpace(ls, D) + Share(v, D)
    decreases |ls|
  {
    var ls' := ls[i := v];
    assert ls'[..|ls| - 1] == if i == |ls| - 1 then ls[..|ls| - 1] else ls[..|ls| - 1][i := v];
    if i < |ls| - 1 {
      CodeSpacePut(ls[..|ls| - 1], i, v, D);
    }
  }

  lemma {:induction false} CodeSpaceZeros(n: nat, D: nat)
    ensures CodeSpace(Rep(0, n), D) == 0
  {
    if n > 0 {
      assert Rep(0, n)[..n - 1] == Rep(0, n - 1);
      CodeSpaceZeros(n - 1, D);
    }
  }

  /** Every leaf of `ps` is at depth 1 or more. */
  predicate Below0(ps: seq<(nat, nat)>)
  {
    forall k :: 0 <= k < |ps| ==> ps[k].1 >= 1
  }

  /** Recording distinct leaves, none at depth 0, fills exactly their share of the code space. */
  lemma {:induction false} RecordSpace(n: nat, ps: seq<(nat, nat)>, D: nat)
    requires LeavesIn(ps, n) && DistinctLeaves(ps) && AtMost(ps, D) && Below0(ps)
    ensures CodeSpace(Record(Rep(0, n), ps), D) == KraftSum(ps, D)
  {
    if ps == [] {
      CodeSpaceZeros(n, D);
    } else {
      var init, p := ps[..|ps| - 1], ps[|ps| - 1];
      assert ps == init + [p];
      PrefixLeaves(ps);
      RecordSpace(n, init, D);
      RecordShare(n, init, p, D);
      KraftShare(init, p, D);
    }
  }

  /** What RecordSpace asks of the leaves holds of all but the last, which no other names. */
  lemma PrefixLeaves(ps: seq<(nat, nat)>)
    requires ps != [] && DistinctLeaves(ps)
    ensures var init, p := ps[..|ps| - 1], ps[|ps| - 1];
      DistinctLeaves(init) && forall k :: 0 <= k < |init| ==> init[k] == ps[k] && init[k].0 != p.0
  {
  }

  /** Recording a leaf not named before adds its share. */
  lemma RecordShare(n: nat, init: seq<(nat, nat)>, p: (nat, nat), D: nat)
    requires LeavesIn(init + [p], n)
    requires forall k :: 0 <= k < |init| ==> init[k].0 != p.0
    ensures CodeSpace(Record(Rep(0, n), init + [p]), D) == CodeSpace(Record(Rep(0, n), init), D) + Share(p.1, D)
  {
    var ps := init + [p];
    assert ps[..|init|] == init && ps[|init|] == p;
    assert forall k :: 0 <= k < |init| ==> init[k] == ps[k];
    var before := Record(Rep(0, n), init);
    var after := before[p.0 - 1 := p.1];
    assert Record(Rep(0, n), ps) == after;
    RecordElsewhere(Rep(0, n), init, p.0 - 1);
    assert Share(before[p.0 - 1], D) == 0;
    CodeSpacePut(before, p.0 - 1, p.1, D);
  }

  /** A leaf at the end adds its share to KraftSum. */
  lemma KraftShare(init: seq<(nat, nat)>, p: (nat, nat), D: nat)
    requires AtMost(init + [p], D) && p.1 >= 1
    ensures AtMost(init, D) && KraftSum(init + [p], D) == KraftSum(init, D) + Share(p.1, D)
  {
    AtMostSplit(init, [p], D);
    KraftSumAppend(init, [p], D);
  }

  /**
   * The lengths of a complete code: every symbol has a length between 1
   * and `maxLen`, some symbol has length `maxLen`, and together the lengths
   * fill the code space exactly (Kraft's equality).
   */
  predicate Complete(lengths: seq<nat>, maxLen: nat)
  {
    (forall s :: 0 <= s < |lengths| ==> 1 <= lengths[s] <= maxLen) &&
    (exists s :: 0 <= s < |lengths| && lengths[s] == maxLen) &&
    CodeSpace(lengths, maxLen) == Pow2(maxLen)
  }

  /** The leaves of a tree whose root is inner and whose leaves are 1..n, each once. */
  lemma FullTreeLeaves(t: Shape, n: nat)
    requires t.Inner? && Distinct(t)
    requires forall i :: i in LeafSet(t) <==> 1 <= i <= n
    ensures LeavesIn(LeafDepths(t, 0), n)
    ensures DistinctLeaves(LeafDepths(t, 0))
    ensures Below0(LeafDepths(t, 0))
    ensures forall i :: 1 <= i <= n ==> Lists(LeafDepths(t, 0), i)
  {
    var all := LeafDepths(t, 0);
    LeafDepthsIn(t, 0);
    LeafDepthsDistinct(t, 0);
    var A, B := LeafDepths(t.right, 1), LeafDepths(t.left, 1);
    assert all == A + B;
    forall k | 0 <= k < |all|
      ensures all[k].1 >= 1
    {
      if k < |A| {
        assert all[k] == A[k];
      } else {
        assert all[k] == B[k - |A|];
      }
    }
    forall i | 1 <= i <= n
      ensures Lists(all, i)
    {
      LeafDepthsCover(t, 0, i);
    }
  }

  /** Recording leaves that name every symbol, none at depth 0, gives each symbol a length from 1 to the maximum. */
  lemma RecordBounds(n: nat, all: seq<(nat, nat)>)
    requires LeavesIn(all, n) && DistinctLeaves(all) && Below0(all)
    requires forall i :: 1 <= i <= n ==> Lists(all, i)
    ensures forall s :: 0 <= s < n ==> 1 <= Record(Rep(0, n), all)[s] <= MaxDepth(all)
  {
    forall s | 0 <= s < n
      ensures 1 <= Record(Rep(0, n), all)[s] <= MaxDepth(all)
    {
      assert Lists(all, s + 1);
      var k :| 0 <= k < |all| && all[k].0 == s + 1;
      RecordAt(Rep(0, n), all, k);
    }
  }

  /** The deepest leaf recorded gives its symbol the maximum length. */
  lemma RecordReachesMax(n: nat, all: seq<(nat, nat)>)
    requires LeavesIn(all, n) && DistinctLeaves(all) && all != []
    ensures exists s :: 0 <= s < n && Record(Rep(0, n), all)[s] == MaxDepth(all)
  {
    var k :| 0 <= k < |all| && all[k].1 == MaxDepth(all);
    RecordAt(Rep(0, n), all, k);
    assert Record(Rep(0, n), all)[all[k].0 - 1] == MaxDepth(all);
  }

  /**
   * A tree whose root is inner and whose leaves are exactly 1..n, each
   * once: recording the depths of its leaves gives a complete code.
   */
  lemma FullTreeLengths(t: Shape, n: nat)
    requires n >= 1 && t.Inner? && Distinct(t)
    requires forall i :: i in LeafSet(t) <==> 1 <= i <= n
    ensures LeavesIn(LeafDepths(t, 0), n)
    ensures Complete(Record(Rep(0, n), LeafDepths(t, 0)), MaxDepth(LeafDepths(t, 0)))
  {
    var all := LeafDepths(t, 0);
    FullTreeLeaves(t, n);
    RecordBounds(n, all);
    RecordReachesMax(n, all);
    TreeSpace(t, n);
    var lengths := Record(Rep(0, n), all);
    assert exists s :: 0 <= s < |lengths| && lengths[s] == MaxDepth(all);
  }

  /** The lengths recorded from the leaves of a tree fill the whole code space. */
  lemma TreeSpace(t: Shape, n: nat)
    requires LeavesIn(LeafDepths(t, 0), n) && DistinctLeaves(LeafDepths(t, 0)) && Below0(LeafDepths(t, 0))
    ensures var all := LeafDepths(t, 0);
      CodeSpace(Record(Rep(0, n), all), MaxDepth(all)) == Pow2(MaxDepth(all))
  {
    var all := LeafDepths(t, 0);
    var maxLen := MaxDepth(all);
    KraftRoot(t, maxLen);
    RecordSpace(n, all, maxLen);
  }

  /** Kraft's equality at the root. */
  lemma KraftRoot(t: Shape, D: nat)
    requires AtMost(LeafDepths(t, 0), D)
    ensures KraftSum(LeafDepths(t, 0), D) == Pow2(D)
  {
    Kraft(t, 0, D);
  }

  // ----- growing the node vector -----

  /** Appending a node leaves the subtree of every earlier node as it was. */
  lemma {:induction false} SubAppend(nodes: seq<TreeNode>, nd: TreeNode, i: nat)
    requires Ordered(nodes) && Ordered(nodes + [nd]) && i < |nodes|
    ensures Sub(nodes + [nd], i) == Sub(nodes, i)
    decreases if i == 0 then |nodes| else i
  {
    var nodes' := nodes + [nd];
    assert nodes'[i] == nodes[i];
    var c := nodes[i];
    if c.lchild.Some? && c.rchild.Some? {
      SubAppend(nodes, nd, c.lchild.value);
      SubAppend(nodes, nd, c.rchild.value);
    }
  }

  /** Filling in the root leaves the subtree of every other node as it was. */
  lemma {:induction false} SubRoot(nodes: seq<TreeNode>, root: TreeNode, i: nat)
    requires 1 <= i < |nodes| && Ordered(nodes) && Ordered(nodes[0 := root])
    ensures Sub(nodes[0 := root], i) == Sub(nodes, i)
    decreases i
  {
    var c := nodes[i];
    if c.lchild.Some? && c.rchild.Some? {
      SubRoot(nodes, root, c.lchild.value);
      SubRoot(nodes, root, c.rchild.value);
    }
  }

  class Tree {
    var nodes: seq<TreeNode>
    var numLeaves: nat

    /** The root and `n` leaves, all without children. */
    constructor WithNLeaves(n: nat)
      requires n >= 1
      ensures numLeaves == n && |nodes| == n + 1
      ensures forall i :: 0 <= i < |nodes| ==> nodes[i] == TreeNode(i, None, None)
    {
      var ns := [TreeNode(0, None, None)];
      var l := 1;
      while l <= n
        invariant 1 <= l <= n + 1 && |ns| == l
        invariant forall i :: 0 <= i < |ns| ==> ns[i] == TreeNode(i, None, None)
      {
        ns := ns + [TreeNode(l, None, None)];
        l := l + 1;
      }
      nodes := ns;
      numLeaves := n;
    }

    /**
     * Ties `left` and `right` under a new node: the root when the vector
     * already holds all `2n - 1` nodes, otherwise a node appended with the
     * next id. The id of that node is returned.
     */
    method Tie(left: nat, right: nat) returns (parent: nat)
      requires numLeaves >= 1 && |nodes| >= 1
      modifies this
      ensures numLeaves == old(numLeaves)
      ensures old(|nodes|) == 2 * numLeaves - 1 ==>
        parent == 0 && nodes == old(nodes)[0 := TreeNode(old(nodes)[0].id, Some(left), Some(right))]
      ensures old(|nodes|) != 2 * numLeaves - 1 ==>
        parent == old(|nodes|) && nodes == old(nodes) + [TreeNode(parent, Some(left), Some(right))]
    {
      if |nodes| == numLeaves * 2 - 1 {
        nodes := nodes[0 := nodes[0].(lchild := Some(left), rchild := Some(right))];
        parent := 0;
      } else {
        parent := |nodes|;
        nodes := nodes + [TreeNode(parent, Some(left), Some(right))];
      }
    }

    /**
     * The coding lengths: a stack walk from the root records, for every
     * leaf it meets, the leaf's depth at the place of its symbol, and the
     * deepest depth met. Every leaf below the root must be one of the
     * leaves 1..n.
     */
    method CodingLengths() returns (lengths: seq<nat>, maxLen: nat)
      requires Ordered(nodes) && |nodes| >= 1
      requires LeavesIn(LeafDepths(Sub(nodes, 0), 0), numLeaves)
      ensures lengths == Record(Rep(0, numLeaves), LeafDepths(Sub(nodes, 0), 0))
      ensures maxLen == MaxDepth(LeafDepths(Sub(nodes, 0), 0))
    {
      ghost var all := LeafDepths(Sub(nodes, 0), 0);
      lengths := Rep(0, numLeaves);
      maxLen := 0;
      var stack: seq<(nat, nat)> := [(0, 0)];
      ghost var done: seq<(nat, nat)> := [];
      assert Pending(nodes, stack) == all;
      while stack != []
        invariant Walking(nodes, numLeaves, all, stack, done, lengths, maxLen)
        decreases Weight(nodes, stack)
      {
        stack, lengths, maxLen, done := Visit(nodes, numLeaves, all, stack, done, lengths, maxLen);
      }
      assert done == all;
    }
  }

  /**
   * The state of the walk: the leaves met (`done`) followed by those below
   * the stacked nodes are all the leaves, and `lengths` and `maxLen` hold
   * what the leaves met have recorded.
   */
  ghost predicate Walking(nodes: seq<TreeNode>, n: nat, all: seq<(nat, nat)>, stack: seq<(nat, nat)>,
                          done: seq<(nat, nat)>, lengths: seq<nat>, maxLen: nat)
  {
    Ordered(nodes) && LeavesIn(all, n) &&
    (forall k :: 0 <= k < |stack| ==> stack[k].0 < |nodes|) &&
    done + Pending(nodes, stack) == all &&
    LeavesIn(done, n) &&
    lengths == Record(Rep(0, n), done) && maxLen == MaxDepth(done)
  }

  /** One step of the walk: the top of the stack is popped; an inner node pushes its children, a leaf records its depth. */
  method Visit(nodes: seq<TreeNode>, n: nat, ghost all: seq<(nat, nat)>, stack: seq<(nat, nat)>,
               ghost done: seq<(nat, nat)>, lengths: seq<nat>, maxLen: nat)
    returns (stack': seq<(nat, nat)>, lengths': seq<nat>, maxLen': nat, ghost done': seq<(nat, nat)>)
    requires stack != [] && Walking(nodes, n, all, stack, done, lengths, maxLen)
    ensures Walking(nodes, n, all, stack', done', lengths', maxLen')
    ensures Weight(nodes, stack') < Weight(nodes, stack)
  {
    var top := stack[|stack| - 1];
    var rest := stack[..|stack| - 1];
    assert rest + [top] == stack;
    var cur := nodes[top.0];
    lengths', maxLen', done' := lengths, maxLen, done;
    if cur.lchild.Some? && cur.rchild.Some? {
      stack' := rest + [(cur.lchild.value, top.1 + 1), (cur.rchild.value, top.1 + 1)];
      WalkInner(nodes, rest, top, done, all);
    } else {
      stack' := rest;
      WalkLeaf(nodes, rest, top, done, all);
      var p := (cur.id, top.1);
      done' := done + [p];
      LeavesInSnoc(done, all, n);
      assert done'[..|done|] == done;
      lengths' := lengths[cur.id - 1 := top.1];
      if top.1 > maxLen {
        maxLen' := top.1;
      }
    }
  }

  /** Popping an inner node and pushing its children leaves the pending leaves as they were. */
  lemma WalkInner(nodes: seq<TreeNode>, rest: seq<(nat, nat)>, top: (nat, nat), done: seq<(nat, nat)>,
                  all: seq<(nat, nat)>)
    requires Ordered(nodes) && top.0 < |nodes| && forall k :: 0 <= k < |rest| ==> rest[k].0 < |nodes|
    requires nodes[top.0].lchild.Some? && nodes[top.0].rchild.Some?
    requires done + Pending(nodes, rest + [top]) == all
    ensures var stack := rest + [(nodes[top.0].lchild.value, top.1 + 1), (nodes[top.0].rchild.value, top.1 + 1)];
      (forall k :: 0 <= k < |stack| ==> stack[k].0 < |nodes|) &&
      done + Pending(nodes, stack) == all &&
      Weight(nodes, stack) < Weight(nodes, rest + [top])
  {
    var l, r := nodes[top.0].lchild.value, nodes[top.0].rchild.value;
    var stack := rest + [(l, top.1 + 1), (r, top.1 + 1)];
    assert stack[..|stack| - 1] == rest + [(l, top.1 + 1)];
    assert (rest + [(l, top.1 + 1)])[..|rest|] == rest;
    assert (rest + [top])[..|rest|] == rest;
    var P := Pending(nodes, rest);
    var A, B := LeafDepths(Sub(nodes, r), top.1 + 1), LeafDepths(Sub(nodes, l), top.1 + 1);
    assert Pending(nodes, stack) == A + (B + P);
    assert Pending(nodes, rest + [top]) == (A + B) + P;
  }

  /** Popping a leaf moves it from the pending leaves to the ones met. */
  lemma WalkLeaf(nodes: seq<TreeNode>, rest: seq<(nat, nat)>, top: (nat, nat), done: seq<(nat, nat)>,
                 all: seq<(nat, nat)>)
    requires Ordered(nodes) && top.0 < |nodes| && forall k :: 0 <= k < |rest| ==> rest[k].0 < |nodes|
    requires !(nodes[top.0].lchild.Some? && nodes[top.0].rchild.Some?)
    requires done + Pending(nodes, rest + [top]) == all
    ensures var done' := done + [(nodes[top.0].id, top.1)];
      done' + Pending(nodes, rest) == all && all[|done|] == (nodes[top.0].id, top.1) &&
      Weight(nodes, rest) < Weight(nodes, rest + [top])
  {
    assert (rest + [top])[..|rest|] == rest;
    var p := (nodes[top.0].id, top.1);
    assert Pending(nodes, rest + [top]) == [p] + Pending(nodes, rest);
    assert all[|done|] == p;
    var done' := done + [p];
    assert done' + Pending(nodes, rest) == done + ([p] + Pending(nodes, rest));
  }

  /** The next leaf met is one of the leaves of the tree. */
  lemma LeavesInSnoc(done: seq<(nat, nat)>, all: seq<(nat, nat)>, n: nat)
    requires LeavesIn(done, n) && LeavesIn(all, n) && |done| < |all|
    ensures LeavesIn(done + [all[|done|]], n)
  {
    var done' := done + [all[|done|]];
    assert forall k :: 0 <= k < |done| ==> done'[k] == done[k];
  }
}
