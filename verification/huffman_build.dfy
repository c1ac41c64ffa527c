/**
 * Building a coding table from symbol frequencies (build_table_from_freqs
 * in lib/huffman.rs and src/huffman.rs). An attempt puts every symbol into
 * the frequency queue, then repeatedly takes the two entries of lowest
 * priority out, ties their subtrees under a new node and queues that node
 * with the summed priority, until the root is tied; the leaf depths are
 * the code lengths. Whatever the queue order, every attempt yields a
 * complete code: each symbol gets a length of at least 1 and the lengths
 * satisfy Kraft's equality. The attempt is repeated, with the frequencies
 * scaled down further each time, until no length exceeds 17.
 */
module HuffmanBuild {
  import opened Bytes
  import opened Seqs
  import opened HuffmanTree
  import opened FreqQueue

  /** No codeword may be longer than this. */
  const CodewordMaxLen: nat := 17

  // ----- the forest of an attempt -----

  /** The leaves below node `s`; none when `s` is not a node. */
  ghost function LeavesOf(nodes: seq<TreeNode>, s: nat): set<nat>
  {
    if Ordered(nodes) && s < |nodes| then LeafSet(Sub(nodes, s)) else {}
  }

  /** Node `s` roots a subtree whose leaves are distinct symbols' leaves 1..n. */
  ghost predicate Root(nodes: seq<TreeNode>, n: nat, s: nat)
  {
    Ordered(nodes) && 1 <= s < |nodes| && Distinct(Sub(nodes, s)) &&
    forall i :: i in LeafSet(Sub(nodes, s)) ==> 1 <= i <= n
  }

  /** Every queued entry names the root of a subtree. */
  ghost predicate Rooted(nodes: seq<TreeNode>, n: nat, heap: seq<Entry>)
  {
    forall e {:trigger Count(heap, e)} :: Count(heap, e) > 0 ==> Root(nodes, n, e.sym)
  }

  /** No entry is queued twice. */
  ghost predicate Single(heap: seq<Entry>)
  {
    forall e :: Count(heap, e) <= 1
  }

  /** The subtrees of different queued entries share no leaf. */
  ghost predicate Apart(nodes: seq<TreeNode>, heap: seq<Entry>)
  {
    forall e1, e2 :: Count(heap, e1) > 0 && Count(heap, e2) > 0 && e1 != e2 ==>
      LeavesOf(nodes, e1.sym) !! LeavesOf(nodes, e2.sym)
  }

  /** Leaf `i` is below some queued entry. */
  ghost predicate Covered(nodes: seq<TreeNode>, heap: seq<Entry>, i: nat)
  {
    exists e :: Count(heap, e) > 0 && i in LeavesOf(nodes, e.sym)
  }

  /**
   * The state between two rounds of an attempt: the queued entries root
   * subtrees that share no leaf and together hold every leaf 1..n. Each
   * round takes two entries out, puts one in and adds one node, so the
   * queue holds `2n + 1 - |nodes|` entries.
   */
  ghost predicate Forest(nodes: seq<TreeNode>, n: nat, heap: seq<Entry>)
  {
    n >= 2 && Ordered(nodes) && n + 1 <= |nodes| <= 2 * n - 1 && |heap| + |nodes| == 2 * n + 1 &&
    Rooted(nodes, n, heap) && Single(heap) && Apart(nodes, heap) &&
    forall i :: 1 <= i <= n ==> Covered(nodes, heap, i)
  }

  /** The leaves of a new tree, each its own subtree. */
  lemma LeafNodes(nodes: seq<TreeNode>, n: nat)
    requires |nodes| == n + 1 && forall i :: 0 <= i < |nodes| ==> nodes[i] == TreeNode(i, None, None)
    ensures Ordered(nodes)
    ensures forall i :: 1 <= i <= n ==> Root(nodes, n, i) && LeavesOf(nodes, i) == {i}
  {
    forall i | 1 <= i <= n
      ensures Root(nodes, n, i) && LeavesOf(nodes, i) == {i}
    {
      assert Sub(nodes, i) == Leaf(i);
    }
  }

  /** A queued entry of the initial queue is the entry of some symbol. */
  lemma InitialEntry(freqs: seq<nat>, n: nat, scaling: nat, heap: seq<Entry>, e: Entry)
    requires n <= |freqs| && scaling > 0
    requires Perm(heap, InitialEntries(freqs, n, scaling)) && Count(heap, e) > 0
    ensures 1 <= e.sym <= n && e == InitialEntries(freqs, n, scaling)[e.sym - 1]
  {
    var init := InitialEntries(freqs, n, scaling);
    assert Count(init, e) > 0;
    CountIn(init, e);
    var k :| 0 <= k < |init| && init[k] == e;
    assert e.sym == k + 1;
  }

  /** A new tree and the initial queue form a forest of single leaves. */
  lemma ForestStart(nodes: seq<TreeNode>, n: nat, freqs: seq<nat>, scaling: nat, heap: seq<Entry>)
    requires 2 <= n <= |freqs| && scaling > 0
    requires |nodes| == n + 1 && forall i :: 0 <= i < |nodes| ==> nodes[i] == TreeNode(i, None, None)
    requires |heap| == n && Perm(heap, InitialEntries(freqs, n, scaling))
    ensures Forest(nodes, n, heap)
  {
    var init := InitialEntries(freqs, n, scaling);
    LeafNodes(nodes, n);
    assert Rooted(nodes, n, heap) by {
      forall e | Count(heap, e) > 0
        ensures Root(nodes, n, e.sym)
      {
        InitialEntry(freqs, n, scaling, heap, e);
      }
    }
    assert Single(heap) by {
      forall e
        ensures Count(heap, e) <= 1
      {
        CountDistinct(init, e);
      }
    }
    assert Apart(nodes, heap) by {
      forall e1, e2 | Count(heap, e1) > 0 && Count(heap, e2) > 0 && e1 != e2
        ensures LeavesOf(nodes, e1.sym) !! LeavesOf(nodes, e2.sym)
      {
        InitialEntry(freqs, n, scaling, heap, e1);
        InitialEntry(freqs, n, scaling, heap, e2);
      }
    }
    forall i | 1 <= i <= n
      ensures Covered(nodes, heap, i)
    {
      CountAt(init, i - 1);
      assert Count(heap, init[i - 1]) > 0;
    }
  }

  /**
   * Two entries taken out of a queue without repeats: they are different,
   * and each was queued once.
   */
  lemma TakeTwo(h0: seq<Entry>, e1: Entry, h1: seq<Entry>, e2: Entry, h2: seq<Entry>)
    requires Single(h0)
    requires Perm(h1 + [e1], h0) && Perm(h2 + [e2], h1)
    ensures e1 != e2 && Count(h0, e1) == 1 && Count(h0, e2) == 1
    ensures forall e :: Count(h2, e) + (if e == e1 then 1 else 0) + (if e == e2 then 1 else 0) == Count(h0, e)
  {
    PermSnocCount(h1, e1, h0);
    PermSnocCount(h2, e2, h1);
    assert Count(h1, e1) + 1 == Count(h0, e1) <= 1;
    assert Count(h2, e2) + 1 == Count(h1, e2);
  }

  /** What a permutation of `a + [y]` and `b` says of each count. */
  lemma PermSnocCount(a: seq<Entry>, y: Entry, b: seq<Entry>)
    requires Perm(a + [y], b)
    ensures forall x :: Count(a, x) + (if x == y then 1 else 0) == Count(b, x)
  {
    forall x
      ensures Count(a, x) + (if x == y then 1 else 0) == Count(b, x)
    {
      CountSnoc(a, y, x);
    }
  }

  /** The node a round appends, and what it does to the subtrees of the nodes before it. */
  lemma TieNode(nodes: seq<TreeNode>, n: nat, s1: nat, s2: nat)
    requires Root(nodes, n, s1) && Root(nodes, n, s2) && LeavesOf(nodes, s1) !! LeavesOf(nodes, s2)
    ensures var nodes' := nodes + [TreeNode(|nodes|, Some(s1), Some(s2))];
      Ordered(nodes') &&
      (forall s :: Root(nodes, n, s) ==> Root(nodes', n, s)) &&
      (forall s :: 0 <= s < |nodes| ==> LeavesOf(nodes', s) == LeavesOf(nodes, s) && Sub(nodes', s) == Sub(nodes, s)) &&
      Root(nodes', n, |nodes|) && LeavesOf(nodes', |nodes|) == LeavesOf(nodes, s1) + LeavesOf(nodes, s2) &&
      Sub(nodes', |nodes|) == Inner(Sub(nodes, s1), Sub(nodes, s2))
  {
    var nodes' := nodes + [TreeNode(|nodes|, Some(s1), Some(s2))];
    assert Ordered(nodes') by {
      forall i | 0 <= i < |nodes'|
        ensures nodes'[i].id == i && ChildOk(nodes', i, nodes'[i].lchild) && ChildOk(nodes', i, nodes'[i].rchild)
      {
        if i < |nodes| {
          assert nodes'[i] == nodes[i];
        }
      }
    }
    forall s | 0 <= s < |nodes|
      ensures Sub(nodes', s) == Sub(nodes, s)
    {
      SubAppend(nodes, TreeNode(|nodes|, Some(s1), Some(s2)), s);
    }
    assert Sub(nodes', |nodes|) == Inner(Sub(nodes', s1), Sub(nodes', s2));
  }

  /** A round that ties two subtrees under a new node and queues it keeps the forest. */
  lemma ForestTie(nodes: seq<TreeNode>, n: nat, h0: seq<Entry>, e1: Entry, h1: seq<Entry>, e2: Entry,
                  h2: seq<Entry>, prio: Priority, h3: seq<Entry>)
    requires Forest(nodes, n, h0) && |nodes| != 2 * n - 1
    requires Perm(h1 + [e1], h0) && Perm(h2 + [e2], h1) && |h1| + 1 == |h0| && |h2| + 1 == |h1|
    requires Perm(h3, h2 + [Entry(|nodes|, prio)]) && |h3| == |h2| + 1
    ensures Forest(nodes + [TreeNode(|nodes|, Some(e1.sym), Some(e2.sym))], n, h3)
  {
    var e := Entry(|nodes|, prio);
    var nodes' := nodes + [TreeNode(|nodes|, Some(e1.sym), Some(e2.sym))];
    TakeTwo(h0, e1, h1, e2, h2);
    TieNode(nodes, n, e1.sym, e2.sym);
    assert Count(h0, e) == 0;
    PermCount(h3, h2, e);
    assert Rooted(nodes', n, h3) by {
      forall x | Count(h3, x) > 0
        ensures Root(nodes', n, x.sym)
      {
        if x != e {
          assert Count(h0, x) > 0;
        }
      }
    }
    assert Single(h3);
    TieApart(nodes, n, h0, e1, e2, h3, e, nodes');
    TieCovered(nodes, n, h0, e1, e2, h3, e, nodes');
  }

  /** What a permutation of `a` and `b + [y]` says of each count. */
  lemma PermCount(a: seq<Entry>, b: seq<Entry>, y: Entry)
    requires Perm(a, b + [y])
    ensures forall x :: Count(a, x) == Count(b, x) + (if x == y then 1 else 0)
  {
    forall x
      ensures Count(a, x) == Count(b, x) + (if x == y then 1 else 0)
    {
      CountSnoc(b, y, x);
    }
  }

  /** After a round the subtrees of the queued entries still share no leaf. */
  lemma TieApart(nodes: seq<TreeNode>, n: nat, h0: seq<Entry>, e1: Entry, e2: Entry, h3: seq<Entry>, e: Entry,
                 nodes': seq<TreeNode>)
    requires Rooted(nodes, n, h0) && Apart(nodes, h0)
    requires Count(h0, e1) > 0 && Count(h0, e2) > 0 && Count(h3, e) > 0 && Count(h0, e) == 0
    requires forall x :: Count(h3, x) > 0 && x != e ==> Count(h0, x) > 0 && x != e1 && x != e2
    requires forall s :: 0 <= s < |nodes| ==> LeavesOf(nodes', s) == LeavesOf(nodes, s)
    requires LeavesOf(nodes', e.sym) == LeavesOf(nodes, e1.sym) + LeavesOf(nodes, e2.sym)
    ensures Apart(nodes', h3)
  {
    forall x1, x2 | Count(h3, x1) > 0 && Count(h3, x2) > 0 && x1 != x2
      ensures LeavesOf(nodes', x1.sym) !! LeavesOf(nodes', x2.sym)
    {
      if x1 != e && x2 != e {
        assert Root(nodes, n, x1.sym) && Root(nodes, n, x2.sym);
      } else if x1 == e {
        assert Root(nodes, n, x2.sym);
        assert LeavesOf(nodes, x2.sym) !! LeavesOf(nodes, e1.sym);
        assert LeavesOf(nodes, x2.sym) !! LeavesOf(nodes, e2.sym);
      } else {
        assert Root(nodes, n, x1.sym);
        assert LeavesOf(nodes, x1.sym) !! LeavesOf(nodes, e1.sym);
        assert LeavesOf(nodes, x1.sym) !! LeavesOf(nodes, e2.sym);
      }
    }
  }

  /** After a round every leaf is still below some queued entry. */
  lemma TieCovered(nodes: seq<TreeNode>, n: nat, h0: seq<Entry>, e1: Entry, e2: Entry, h3: seq<Entry>, e: Entry,
                   nodes': seq<TreeNode>)
    requires Rooted(nodes, n, h0) && forall i :: 1 <= i <= n ==> Covered(nodes, h0, i)
    requires Count(h3, e) > 0
    requires forall x :: Count(h0, x) > 0 && x != e1 && x != e2 ==> Count(h3, x) > 0
    requires forall s :: 0 <= s < |nodes| ==> LeavesOf(nodes', s) == LeavesOf(nodes, s)
    requires LeavesOf(nodes', e.sym) == LeavesOf(nodes, e1.sym) + LeavesOf(nodes, e2.sym)
    ensures forall i :: 1 <= i <= n ==> Covered(nodes', h3, i)
  {
    forall i | 1 <= i <= n
      ensures Covered(nodes', h3, i)
    {
      assert Covered(nodes, h0, i);
      var x :| Count(h0, x) > 0 && i in LeavesOf(nodes, x.sym);
      assert Root(nodes, n, x.sym);
      if x == e1 || x == e2 {
        assert i in LeavesOf(nodes', e.sym);
      } else {
        assert i in LeavesOf(nodes', x.sym);
      }
    }
  }

  /**
   * The last round ties the two remaining subtrees under the root: the
   * root is then inner and its leaves are 1..n, each once.
   */
  lemma ForestRoot(nodes: seq<TreeNode>, n: nat, h0: seq<Entry>, e1: Entry, h1: seq<Entry>, e2: Entry,
                   h2: seq<Entry>)
    requires Forest(nodes, n, h0) && |nodes| == 2 * n - 1
    requires Perm(h1 + [e1], h0) && Perm(h2 + [e2], h1) && |h1| + 1 == |h0| && |h2| + 1 == |h1|
    ensures var nodes' := nodes[0 := TreeNode(0, Some(e1.sym), Some(e2.sym))];
      Ordered(nodes') && Root(nodes, n, e1.sym) && Root(nodes, n, e2.sym) && Sub(nodes', 0) == Inner(Sub(nodes, e1.sym), Sub(nodes, e2.sym)) && Distinct(Sub(nodes', 0)) &&
      forall i :: i in LeafSet(Sub(nodes', 0)) <==> 1 <= i <= n
  {
    var nodes' := nodes[0 := TreeNode(0, Some(e1.sym), Some(e2.sym))];
    TakeTwo(h0, e1, h1, e2, h2);
    assert |h2| == 0;
    assert Root(nodes, n, e1.sym) && Root(nodes, n, e2.sym);
    assert Ordered(nodes') by {
      forall i | 0 <= i < |nodes'|
        ensures nodes'[i].id == i && ChildOk(nodes', i, nodes'[i].lchild) && ChildOk(nodes', i, nodes'[i].rchild)
      {
        if i > 0 {
          assert nodes'[i] == nodes[i];
        }
      }
    }
    SubRoot(nodes, nodes'[0], e1.sym);
    SubRoot(nodes, nodes'[0], e2.sym);
    var t := Sub(nodes', 0);
    assert t == Inner(Sub(nodes, e1.sym), Sub(nodes, e2.sym));
    forall i | 1 <= i <= n
      ensures i in LeafSet(t)
    {
      assert Covered(nodes, h0, i);
      var x :| Count(h0, x) > 0 && i in LeavesOf(nodes, x.sym);
      assert Count(h2, x) == 0;
    }
  }

  // ----- how deep an attempt goes -----

  /** The Fibonacci numbers: 0, 1, 1, 2, 3, 5, ... */
  function Fib(k: nat): nat
  {
    if k < 2 then k else Fib(k - 1) + Fib(k - 2)
  }

  lemma {:induction false} FibMono(a: nat, b: nat)
    requires a <= b
    ensures Fib(a) <= Fib(b)
    decreases b
  {
    if a < b {
      FibMono(a, b - 1);
    }
  }

  /** Every second Fibonacci number at least doubles. */
  lemma {:induction false} FibDoubles(j: nat)
    ensures Fib(2 * j + 2) >= Bytes.Pow2(j)
  {
    if j > 0 {
      FibDoubles(j - 1);
      FibMono(2 * j, 2 * j + 1);
    }
  }

  /** A length above CodewordMaxLen needs more weight than an alphabet of 258 symbols of weight 1 has. */
  lemma FibPastMaxLen(len: nat)
    requires len > CodewordMaxLen
    ensures Fib(len + 2) > 258
  {
    var j := len / 2;
    FibDoubles(j);
    FibMono(2 * j + 2, len + 2);
    Bytes.Pow2Monotone(9, j);
    assert Bytes.Pow2(9) == 512;
  }

  /** The longest distance from the root of `t` to a leaf. */
  function Height(t: Shape): nat
  {
    match t
    case Leaf(_) => 0
    case Inner(l, r) => if Height(l) > Height(r) then Height(l) + 1 else Height(r) + 1
  }

  /** No leaf of `t`, placed at depth `d`, lies deeper than `d` plus the height of `t`. */
  lemma {:induction false} DeepestLeaf(t: Shape, d: nat)
    ensures AtMost(LeafDepths(t, d), d + Height(t))
  {
    match t
    case Leaf(_) =>
    case Inner(l, r) =>
      DeepestLeaf(r, d + 1);
      DeepestLeaf(l, d + 1);
      var a: seq<(nat, nat)>, b: seq<(nat, nat)> := LeafDepths(r, d + 1), LeafDepths(l, d + 1);
      assert LeafDepths(t, d) == a + b;
      forall k | 0 <= k < |a + b|
        ensures (a + b)[k].1 <= d + Height(t)
      {
        if k < |a| {
          assert (a + b)[k] == a[k];
        } else {
          assert (a + b)[k] == b[k - |a|];
        }
      }
  }

  /** A set of leaves among 1..n has at most n elements. */
  lemma {:induction false} LeavesAtMost(S: set<nat>, n: nat)
    requires forall i :: i in S ==> 1 <= i <= n
    ensures |S| <= n
  {
    if n > 0 {
      LeavesAtMost(S - {n}, n - 1);
    } else {
      assert S == {};
    }
  }

  /**
   * What Huffman's construction keeps for a queued entry `e`, where `last`
   * is the weight of the second entry the last round took out: its depth
   * is the height of its subtree; a subtree of height h weighs at least
   * Fib(h + 2); an inner subtree of height h has Fib(h + 1) <= `last`;
   * and no queued entry weighs less than `last`. When every symbol enters
   * with weight 1 (`unit`), an entry weighs no more than it has leaves.
   */
  ghost predicate Weighed(nodes: seq<TreeNode>, e: Entry, last: nat, unit: bool)
  {
    Ordered(nodes) && e.sym < |nodes| &&
    e.prio.depth == Height(Sub(nodes, e.sym)) &&
    Fib(e.prio.depth + 2) <= e.prio.freq &&
    (e.prio.depth >= 1 ==> Fib(e.prio.depth + 1) <= last) &&
    last <= e.prio.freq &&
    (unit ==> e.prio.freq <= |LeavesOf(nodes, e.sym)|)
  }

  /** Every queued entry is Weighed. */
  ghost predicate Weights(nodes: seq<TreeNode>, heap: seq<Entry>, last: nat, unit: bool)
  {
    forall e {:trigger Count(heap, e)} :: Count(heap, e) > 0 ==> Weighed(nodes, e, last, unit)
  }

  /** The leaves of a new tree and the initial queue: every entry is a leaf of weight at least 1. */
  lemma WeightsStart(nodes: seq<TreeNode>, n: nat, freqs: seq<nat>, scaling: nat, heap: seq<Entry>)
    requires 2 <= n <= |freqs| && scaling > 0
    requires |nodes| == n + 1 && forall i :: 0 <= i < |nodes| ==> nodes[i] == TreeNode(i, None, None)
    requires Perm(heap, InitialEntries(freqs, n, scaling))
    ensures Weights(nodes, heap, 0, Saturated(freqs, n, scaling))
  {
    LeafNodes(nodes, n);
    forall e | Count(heap, e) > 0
      ensures Weighed(nodes, e, 0, Saturated(freqs, n, scaling))
    {
      InitialEntry(freqs, n, scaling, heap, e);
      assert Sub(nodes, e.sym) == Leaf(e.sym);
      assert Fib(2) == 1;
      if Saturated(freqs, n, scaling) {
        ScalingSaturates(freqs, n, scaling);
        assert |LeavesOf(nodes, e.sym)| == 1;
      }
    }
  }

  /**
   * The step of Huffman's bound: tying the two lightest entries, `p1` taken
   * out before `p2`, gives a subtree of height h that weighs at least
   * Fib(h + 2), and `p2` weighs at least Fib(h + 1).
   */
  lemma TieBound(p1: Priority, p2: Priority, last: nat)
    requires Fib(p1.depth + 2) <= p1.freq && Fib(p2.depth + 2) <= p2.freq
    requires p2.depth >= 1 ==> Fib(p2.depth + 1) <= last
    requires last <= p1.freq <= p2.freq
    ensures Fib(Add(p1, p2).depth + 2) <= Add(p1, p2).freq
    ensures Fib(Add(p1, p2).depth + 1) <= p2.freq
  {
    if p1.depth > p2.depth {
      FibMono(p1.depth + 1, p1.depth + 2);
    } else if p2.depth == 0 {
      assert Fib(3) == 2;
    }
  }

  /** One entry ranks no later than another: it weighs no more. */
  lemma Lighter(h: seq<Entry>, x: Entry, e: Entry)
    requires Count(h, x) > 0 && forall k :: 0 <= k < |h| ==> !Less(h[k].prio, e.prio)
    ensures e.prio.freq <= x.prio.freq
  {
    CountIn(h, x);
    var k :| 0 <= k < |h| && h[k] == x;
  }

  /**
   * The two entries a round takes out, from a queue without repeats and
   * each ranking no later than the rest: both were queued, the first
   * weighs no more than the second, and every entry queued after the round
   * is the new one or an earlier one that weighs no less than the second.
   */
  lemma TakenLightest(h0: seq<Entry>, e1: Entry, h1: seq<Entry>, e2: Entry, h2: seq<Entry>, h3: seq<Entry>, e: Entry)
    requires Single(h0)
    requires Perm(h1 + [e1], h0) && Perm(h2 + [e2], h1) && Perm(h3, h2 + [e])
    requires forall k :: 0 <= k < |h0| ==> !Less(h0[k].prio, e1.prio)
    requires forall k :: 0 <= k < |h1| ==> !Less(h1[k].prio, e2.prio)
    ensures e1 != e2 && Count(h0, e1) > 0 && Count(h0, e2) > 0 && e1.prio.freq <= e2.prio.freq
    ensures forall x :: Count(h3, x) > 0 ==> x == e || (Count(h0, x) > 0 && e2.prio.freq <= x.prio.freq)
  {
    TakeTwo(h0, e1, h1, e2, h2);
    Lighter(h0, e2, e1);
    forall x | Count(h3, x) > 0 && x != e
      ensures Count(h0, x) > 0 && e2.prio.freq <= x.prio.freq
    {
      CountSnoc(h2, e, x);
      CountSnoc(h2, e2, x);
      CountSnoc(h1, e1, x);
      Lighter(h1, x, e2);
    }
  }

  /**
   * A round that takes out the two entries of lowest priority and queues
   * their tie keeps every entry Weighed, with the second entry's weight as
   * the new `last`.
   */
  lemma WeightsTie(nodes: seq<TreeNode>, n: nat, h0: seq<Entry>, e1: Entry, h1: seq<Entry>, e2: Entry,
                   h2: seq<Entry>, h3: seq<Entry>, last: nat, unit: bool)
    requires Forest(nodes, n, h0) && Weights(nodes, h0, last, unit)
    requires Perm(h1 + [e1], h0) && Perm(h2 + [e2], h1)
    requires forall k :: 0 <= k < |h0| ==> !Less(h0[k].prio, e1.prio)
    requires forall k :: 0 <= k < |h1| ==> !Less(h1[k].prio, e2.prio)
    requires Perm(h3, h2 + [Entry(|nodes|, Add(e1.prio, e2.prio))])
    ensures Weights(nodes + [TreeNode(|nodes|, Some(e1.sym), Some(e2.sym))], h3, e2.prio.freq, unit)
  {
    var nodes' := nodes + [TreeNode(|nodes|, Some(e1.sym), Some(e2.sym))];
    var e := Entry(|nodes|, Add(e1.prio, e2.prio));
    TakenLightest(h0, e1, h1, e2, h2, h3, e);
    assert Root(nodes, n, e1.sym) && Root(nodes, n, e2.sym);
    assert LeavesOf(nodes, e1.sym) !! LeavesOf(nodes, e2.sym);
    TieNode(nodes, n, e1.sym, e2.sym);
    assert Weighed(nodes, e1, last, unit) && Weighed(nodes, e2, last, unit);
    WeighedTie(nodes, e1, e2, last, unit, nodes');
    forall x | Count(h3, x) > 0
      ensures Weighed(nodes', x, e2.prio.freq, unit)
    {
      if x != e {
        assert Weighed(nodes, x, last, unit);
      }
    }
  }

  /** The node that ties two Weighed entries, the lighter first, is Weighed with the second's weight as `last`. */
  lemma WeighedTie(nodes: seq<TreeNode>, e1: Entry, e2: Entry, last: nat, unit: bool, nodes': seq<TreeNode>)
    requires Weighed(nodes, e1, last, unit) && Weighed(nodes, e2, last, unit) && e1.prio.freq <= e2.prio.freq
    requires Ordered(nodes') && |nodes'| == |nodes| + 1
    requires Sub(nodes', |nodes|) == Inner(Sub(nodes, e1.sym), Sub(nodes, e2.sym))
    requires LeavesOf(nodes', |nodes|) == LeavesOf(nodes, e1.sym) + LeavesOf(nodes, e2.sym)
    requires LeavesOf(nodes, e1.sym) !! LeavesOf(nodes, e2.sym)
    ensures Weighed(nodes', Entry(|nodes|, Add(e1.prio, e2.prio)), e2.prio.freq, unit)
  {
    TieBound(e1.prio, e2.prio, last);
    if unit {
      DisjointCard(LeavesOf(nodes, e1.sym), LeavesOf(nodes, e2.sym));
    }
  }

  /**
   * The last round ties the two remaining entries under the root: the
   * code's longest length is the root's height, and with every symbol of
   * weight 1 the n leaves weigh at least Fib of that height plus 2.
   */
  lemma WeightsRoot(nodes: seq<TreeNode>, n: nat, h0: seq<Entry>, e1: Entry, h1: seq<Entry>, e2: Entry,
                    h2: seq<Entry>, last: nat, unit: bool, nodes': seq<TreeNode>)
    requires Forest(nodes, n, h0) && |nodes| == 2 * n - 1 && Weights(nodes, h0, last, unit)
    requires nodes' == nodes[0 := TreeNode(0, Some(e1.sym), Some(e2.sym))]
    requires Perm(h1 + [e1], h0) && Perm(h2 + [e2], h1) && |h1| + 1 == |h0| && |h2| + 1 == |h1|
    requires forall k :: 0 <= k < |h0| ==> !Less(h0[k].prio, e1.prio)
    ensures Ordered(nodes') && (unit ==> Fib(MaxDepth(LeafDepths(Sub(nodes', 0), 0)) + 2) <= n)
  {
    ForestRoot(nodes, n, h0, e1, h1, e2, h2);
    TakeTwo(h0, e1, h1, e2, h2);
    Lighter(h0, e2, e1);
    assert Weighed(nodes, e1, last, unit) && Weighed(nodes, e2, last, unit);
    if unit {
      assert LeavesOf(nodes, e1.sym) !! LeavesOf(nodes, e2.sym);
      TreeBound(Sub(nodes', 0), e1.prio, e2.prio, last, n);
    }
  }

  /**
   * A tree tied from two subtrees Weighed with weight at most their leaf
   * counts, the lighter first, over leaves 1..n: its longest length `l`
   * has Fib(l + 2) <= n.
   */
  lemma TreeBound(t: Shape, p1: Priority, p2: Priority, last: nat, n: nat)
    requires t.Inner? && Height(t.left) == p1.depth && Height(t.right) == p2.depth
    requires LeafSet(t.left) !! LeafSet(t.right) && forall i :: i in LeafSet(t) ==> 1 <= i <= n
    requires Fib(p1.depth + 2) <= p1.freq <= |LeafSet(t.left)| && Fib(p2.depth + 2) <= p2.freq <= |LeafSet(t.right)|
    requires p2.depth >= 1 ==> Fib(p2.depth + 1) <= last
    requires last <= p1.freq <= p2.freq
    ensures Fib(MaxDepth(LeafDepths(t, 0)) + 2) <= n
  {
    TieBound(p1, p2, last);
    assert Height(t) == Add(p1, p2).depth;
    TreeWeight(t, p1.freq, p2.freq, n);
    LongestBound(t, n);
  }

  /** The longest length is at most the height, so a bound on the height bounds it. */
  lemma LongestBound(t: Shape, n: nat)
    requires Fib(Height(t) + 2) <= n
    ensures Fib(MaxDepth(LeafDepths(t, 0)) + 2) <= n
  {
    MaxDepthHeight(t);
    FibMono(MaxDepth(LeafDepths(t, 0)) + 2, Height(t) + 2);
  }

  /** Two subtrees weighing at most their leaf counts, over leaves 1..n, weigh at most n together. */
  lemma TreeWeight(t: Shape, w1: nat, w2: nat, n: nat)
    requires t.Inner? && LeafSet(t.left) !! LeafSet(t.right) && forall i :: i in LeafSet(t) ==> 1 <= i <= n
    requires w1 <= |LeafSet(t.left)| && w2 <= |LeafSet(t.right)|
    ensures w1 + w2 <= n
  {
    assert LeafSet(t) == LeafSet(t.left) + LeafSet(t.right);
    DisjointCard(LeafSet(t.left), LeafSet(t.right));
    LeavesAtMost(LeafSet(t), n);
  }

  /** Two sets without a common element: the union has as many elements as both together. */
  lemma DisjointCard(A: set<nat>, B: set<nat>)
    requires A !! B
    ensures |A + B| == |A| + |B|
  {
    assert A * B == {};
  }

  /** The code's longest length is at most the height of the tree. */
  lemma MaxDepthHeight(t: Shape)
    ensures MaxDepth(LeafDepths(t, 0)) <= Height(t)
  {
    DeepestLeaf(t, 0);
    var ps := LeafDepths(t, 0);
    var k :| 0 <= k < |ps| && ps[k].1 == MaxDepth(ps);
  }

  // ----- an attempt -----

  /**
   * One attempt at a table, as the inner loop of build_table_from_freqs:
   * symbol `s` enters the queue with frequency `freqs[s] / scaling + 1`;
   * `larger` selects the extraction of src/huffman.rs, which descends into
   * the larger child. The lengths form a complete code either way. With
   * the extraction of lib/huffman.rs and every symbol entering with
   * frequency 1, the longest length `l` has Fib(l + 2) <= numSyms.
   */
  method Attempt(numSyms: nat, freqs: seq<nat>, scaling: nat, larger: bool) returns (lengths: seq<nat>, maxLen: nat)
    requires 2 <= numSyms <= |freqs| && scaling > 0
    ensures |lengths| == numSyms && Complete(lengths, maxLen)
    ensures !larger && Saturated(freqs, numSyms, scaling) ==> Fib(maxLen + 2) <= numSyms
  {
    var tree := new Tree.WithNLeaves(numSyms);
    var queue := new FrequencyQueue.New(numSyms, freqs, scaling);
    ForestStart(tree.nodes, numSyms, freqs, scaling, queue.heap);
    WeightsStart(tree.nodes, numSyms, freqs, scaling, queue.heap);
    ghost var unit := Saturated(freqs, numSyms, scaling);
    ghost var last := 0;
    while true
      invariant Between(tree, queue, numSyms, larger, last, unit)
      decreases |queue.heap|
    {
      var parent;
      parent, last := Round(tree, queue, numSyms, larger, last, unit);
      if parent == 0 {
        break;
      }
    }
    FullTreeLengths(Sub(tree.nodes, 0), numSyms);
    lengths, maxLen := tree.CodingLengths();
  }

  /** The state between two rounds of an attempt: a forest, and, with Extract, a heap of Weighed entries. */
  ghost predicate Between(tree: Tree, queue: FrequencyQueue, n: nat, larger: bool, last: nat, unit: bool)
    reads tree, queue
  {
    Forest(tree.nodes, n, queue.heap) && tree.numLeaves == n &&
    (!larger ==> IsHeap(queue.heap) && Weights(tree.nodes, queue.heap, last, unit))
  }

  /**
   * One round of an attempt: the two entries of lowest priority are taken
   * out and tied. When that fills in the root (`parent` 0), the root holds
   * every leaf 1..n once, and, with Extract and every symbol of weight 1,
   * the longest length `l` has Fib(l + 2) <= n; otherwise the new node is
   * queued and the state is kept, with `last'` the weight of the second
   * entry taken out.
   */
  method Round(tree: Tree, queue: FrequencyQueue, n: nat, larger: bool, ghost last: nat, ghost unit: bool)
    returns (parent: nat, ghost last': nat)
    requires Between(tree, queue, n, larger, last, unit)
    modifies tree, queue
    ensures parent != 0 ==> Between(tree, queue, n, larger, last', unit) && |queue.heap| < old(|queue.heap|)
    ensures parent == 0 ==>
      tree.numLeaves == n && Ordered(tree.nodes) && |tree.nodes| >= 1 && Sub(tree.nodes, 0).Inner? &&
      Distinct(Sub(tree.nodes, 0)) && (forall i :: i in LeafSet(Sub(tree.nodes, 0)) <==> 1 <= i <= n) &&
      (!larger && unit ==> Fib(MaxDepth(LeafDepths(Sub(tree.nodes, 0), 0)) + 2) <= n)
  {
    ghost var nodes0, h0 := tree.nodes, queue.heap;
    var one := TakeOut(queue, larger);
    ghost var h1 := queue.heap;
    var two := TakeOut(queue, larger);
    ghost var h2 := queue.heap;
    parent := tree.Tie(one.sym, two.sym);
    last' := two.prio.freq;
    if parent == 0 {
      ForestRoot(nodes0, n, h0, one, h1, two, h2);
      assert tree.nodes == nodes0[0 := TreeNode(0, Some(one.sym), Some(two.sym))];
      if !larger {
        WeightsRoot(nodes0, n, h0, one, h1, two, h2, last, unit, tree.nodes);
      }
      return;
    }
    var prio := Add(one.prio, two.prio);
    queue.Insert(parent, prio);
    ForestTie(nodes0, n, h0, one, h1, two, h2, prio, queue.heap);
    if !larger {
      WeightsTie(nodes0, n, h0, one, h1, two, h2, queue.heap, last, unit);
    }
  }

  /**
   * The entry of lowest priority is taken out, by Extract, or by
   * ExtractAsWritten when `larger`; Extract keeps a heap a heap and takes
   * out an entry that ranks no later than any other.
   */
  method TakeOut(queue: FrequencyQueue, larger: bool) returns (e: Entry)
    requires |queue.heap| >= 1
    modifies queue
    ensures |queue.heap| + 1 == |old(queue.heap)| && Perm(queue.heap + [e], old(queue.heap))
    ensures !larger && IsHeap(old(queue.heap)) ==>
      IsHeap(queue.heap) && forall k :: 0 <= k < |old(queue.heap)| ==> !Less(old(queue.heap)[k].prio, e.prio)
  {
    if larger {
      e := queue.ExtractAsWritten();
    } else {
      e := queue.Extract();
    }
  }

  // ----- the table -----

  /** A table the encoder can use: a complete code with no length above CodewordMaxLen. */
  ghost predicate Usable(lengths: seq<nat>)
  {
    exists maxLen: nat :: maxLen <= CodewordMaxLen && Complete(lengths, maxLen)
  }

  /** Every frequency of the first `n` is below `scaling`: scaling further changes no queue. */
  predicate Saturated(freqs: seq<nat>, n: nat, scaling: nat)
    requires n <= |freqs|
  {
    forall s :: 0 <= s < n ==> freqs[s] < scaling
  }

  /** The largest of the first `n` frequencies. */
  function MaxFreq(freqs: seq<nat>, n: nat): (m: nat)
    requires n <= |freqs|
    ensures forall s :: 0 <= s < n ==> freqs[s] <= m
    ensures n > 0 ==> exists s :: 0 <= s < n && freqs[s] == m
  {
    if n == 0 then 0
    else if freqs[n - 1] >= MaxFreq(freqs, n - 1) then freqs[n - 1]
    else MaxFreq(freqs, n - 1)
  }

  /**
   * build_table_from_freqs of lib/huffman.rs: attempts with `scaling` 1, 2,
   * 4, ... until the longest code length is at most CodewordMaxLen. Once
   * every frequency is below `scaling`, every symbol enters the queue with
   * frequency 1 and every later attempt starts from that same queue
   * (FreqQueue.ScalingSaturates). That attempt succeeds for every alphabet
   * of at most 258 symbols, the most an MTF/RLE2 block has (Attempt,
   * FibPastMaxLen), so a table is always found there. For a larger
   * alphabet the source could retry the same queue for ever; the model
   * returns None if the attempt at the first such `scaling` (the ghost
   * `last`) fails.
   */
  method BuildTable(numSyms: nat, freqs: seq<nat>) returns (table: Option<seq<nat>>, ghost last: nat)
    requires 2 <= numSyms <= |freqs|
    ensures table.Some? ==> |table.value| == numSyms && Usable(table.value)
    ensures numSyms <= 258 ==> table.Some?
    ensures last > 0 && Pow2(last)
    ensures table.None? ==> Saturated(freqs, numSyms, last) && (last > 1 ==> !Saturated(freqs, numSyms, last / 2))
  {
    var scaling := 1;
    var bound := MaxFreq(freqs, numSyms);
    while true
      invariant scaling > 0 && Pow2(scaling)
      invariant scaling > 1 ==> !Saturated(freqs, numSyms, scaling / 2)
      decreases if scaling <= bound then bound + 1 - scaling else 0
    {
      var lengths, maxLen := Attempt(numSyms, freqs, scaling, false);
      if maxLen <= CodewordMaxLen {
        return Some(lengths), scaling;
      }
      if Saturated(freqs, numSyms, scaling) {
        FibPastMaxLen(maxLen);
        return None, scaling;
      }
      scaling := 2 * scaling;
    }
  }

  /** `x` is a power of two. */
  predicate Pow2(x: nat)
    decreases x
  {
    x == 1 || (x >= 2 && x % 2 == 0 && Pow2(x / 2))
  }

  /**
   * build_table_from_freqs of src/huffman.rs: the queue is built with
   * scaling 1 on every attempt, and the extraction is the one that descends
   * into the larger child. Every retry therefore starts from the same queue
   * as the first attempt (`ScalingIgnored` shows that the retries of
   * lib/huffman.rs do not); the model makes that one attempt, whose code
   * lengths are `attempted` and whose longest length is `longest`, and
   * returns None exactly when `longest` is above CodewordMaxLen, where the
   * source would retry for ever.
   */
  method BuildTableAsWritten(numSyms: nat, freqs: seq<nat>)
    returns (table: Option<seq<nat>>, ghost attempted: seq<nat>, ghost longest: nat)
    requires 2 <= numSyms <= |freqs|
    ensures |attempted| == numSyms && Complete(attempted, longest)
    ensures table.None? <==> longest > CodewordMaxLen
    ensures table.Some? ==> table.value == attempted && Usable(table.value)
  {
    var lengths, maxLen := Attempt(numSyms, freqs, 1, true);
    attempted, longest := lengths, maxLen;
    if maxLen <= CodewordMaxLen {
      table := Some(lengths);
    } else {
      table := None;
    }
  }

  /**
   * The retries of src/huffman.rs ignore `scaling`: each starts from the
   * queue of scaling 1, while the retry of lib/huffman.rs with the same
   * `scaling` (at least 2) starts from a queue in which every frequency of
   * at least 2 is divided, so the two differ as soon as one frequency is at
   * least 2.
   */
  lemma ScalingIgnored(freqs: seq<nat>, n: nat, scaling: nat, s: nat)
    requires s < n <= |freqs| && freqs[s] >= 2 && scaling >= 2
    ensures InitialEntries(freqs, n, scaling) != InitialEntries(freqs, n, 1)
  {
    var f := freqs[s];
    assert f / scaling < f by {
      assert f / scaling * scaling <= f;
    }
    assert InitialEntries(freqs, n, scaling)[s].prio.freq != InitialEntries(freqs, n, 1)[s].prio.freq;
  }
}
