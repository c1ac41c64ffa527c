/**
 * The frequency queue of lib/huffman.rs and src/huffman.rs: a binary
 * min-heap of (symbol, priority) pairs kept in a vector and addressed from
 * 1, so that the node at `i` has its parent at `i / 2` and its children at
 * `2i` and `2i + 1`. A priority is the frequency sum of a subtree and its
 * longest distance to a leaf, compared frequency first.
 *
 * Insertion and extraction are loops over the vector; each is proved equal
 * to a recursive function (SiftUp, SiftDown), and the heap properties are
 * proved about those functions. The two sources differ in which child
 * extraction descends into; only the smaller one keeps the heap ordered.
 */
module FreqQueue {
  import opened Bytes
  import opened Seqs

  /** A subtree's frequency sum and its longest distance to a leaf. */
  datatype Priority = Priority(freq: nat, depth: nat)

  /** The derived ordering of the pair: by frequency, then by depth. */
  predicate Less(a: Priority, b: Priority)
  {
    a.freq < b.freq || (a.freq == b.freq && a.depth < b.depth)
  }

  /**
   * The priority of two subtrees tied together: the frequencies add up and
   * the new subtree is one level deeper than the deeper of the two.
   */
  function Add(a: Priority, b: Priority): (r: Priority)
    ensures r.freq == a.freq + b.freq
    ensures r.depth > a.depth && r.depth > b.depth
    ensures r.depth == a.depth + 1 || r.depth == b.depth + 1
    ensures Less(a, r) && Less(b, r)
  {
    Priority(a.freq + b.freq, if a.depth > b.depth then a.depth + 1 else b.depth + 1)
  }

  /** Tying is symmetric: the order of the two subtrees does not change the priority. */
  lemma AddComm(a: Priority, b: Priority)
    ensures Add(a, b) == Add(b, a)
  {
  }

  /** A queue element: the id of a tree node and its priority. */
  datatype Entry = Entry(sym: nat, prio: Priority)

  /** Heap order: no entry ranks before its parent (`h[k]` is the node at `k + 1`). */
  ghost predicate IsHeap(h: seq<Entry>)
  {
    forall k {:trigger h[k]} :: 0 < k < |h| ==> !Less(h[k].prio, h[(k - 1) / 2].prio)
  }

  /** The root of a heap ranks no later than any entry. */
  lemma {:induction false} RootMin(h: seq<Entry>, k: nat)
    requires IsHeap(h) && k < |h|
    ensures !Less(h[k].prio, h[0].prio)
    decreases k
  {
    if k > 0 {
      RootMin(h, (k - 1) / 2);
    }
  }

  // ----- insertion -----

  /**
   * Moving `x` up from the hole at `idx`: while `x` ranks strictly before
   * the parent, the parent moves down into the hole.
   */
  function SiftUp(h: seq<Entry>, idx: nat, x: Entry): (r: seq<Entry>)
    requires 1 <= idx <= |h|
    ensures |r| == |h|
    decreases idx
  {
    if idx == 1 then h[0 := x]
    else
      var above := idx / 2;
      if Less(x.prio, h[above - 1].prio) then SiftUp(h[idx - 1 := h[above - 1]], above, x)
      else h[idx - 1 := x]
  }

  /**
   * A heap with a hole at `j` waiting for `x`: order holds away from the
   * hole, the hole's children rank no earlier than `x` nor than the
   * hole's parent.
   */
  ghost predicate UpHole(h: seq<Entry>, j: nat, x: Entry)
  {
    j < |h| &&
    (forall k {:trigger h[k]} :: 0 < k < |h| && k != j && (k - 1) / 2 != j ==> !Less(h[k].prio, h[(k - 1) / 2].prio)) &&
    (forall k {:trigger h[k]} :: 0 < k < |h| && (k - 1) / 2 == j ==> !Less(h[k].prio, x.prio)) &&
    (j > 0 ==> forall k {:trigger h[k]} :: 0 < k < |h| && (k - 1) / 2 == j ==> !Less(h[k].prio, h[(j - 1) / 2].prio))
  }

  /** Sifting up only moves entries: the result holds the hole's filler and everything else. */
  lemma {:induction false} SiftUpPerm(h: seq<Entry>, idx: nat, x: Entry)
    requires 1 <= idx <= |h|
    ensures Perm(SiftUp(h, idx, x), h[idx - 1 := x])
    decreases idx
  {
    if idx > 1 && Less(x.prio, h[idx / 2 - 1].prio) {
      var above := idx / 2;
      var h' := h[idx - 1 := h[above - 1]];
      SiftUpPerm(h', above, x);
      Move(h, idx - 1, above - 1, x, SiftUp(h', above, x));
    }
  }

  /** One step up keeps the hole invariant. */
  lemma UpStep(h: seq<Entry>, idx: nat, x: Entry)
    requires 1 < idx <= |h| && UpHole(h, idx - 1, x) && Less(x.prio, h[idx / 2 - 1].prio)
    ensures UpHole(h[idx - 1 := h[idx / 2 - 1]], idx / 2 - 1, x)
  {
    var j, p := idx - 1, idx / 2 - 1;
    assert p == (j - 1) / 2;
    var h' := h[j := h[p]];
    forall k {:trigger h'[k]} | 0 < k < |h'| && k != p && (k - 1) / 2 != p
      ensures !Less(h'[k].prio, h'[(k - 1) / 2].prio)
    {
      if (k - 1) / 2 == j {
        assert h'[(k - 1) / 2] == h[p];
      }
    }
    forall k | 0 < k < |h'| && (k - 1) / 2 == p
      ensures !Less(h'[k].prio, x.prio)
    {
      if k != j {
        assert !Less(h[k].prio, h[p].prio);
      }
    }
    if p > 0 {
      var g := (p - 1) / 2;
      assert !Less(h[p].prio, h[g].prio);
      forall k | 0 < k < |h'| && (k - 1) / 2 == p
        ensures !Less(h'[k].prio, h'[g].prio)
      {
        if k != j {
          assert !Less(h[k].prio, h[p].prio);
        }
      }
    }
  }

  /** Sifting up from a hole restores heap order. */
  lemma {:induction false} SiftUpHeap(h: seq<Entry>, idx: nat, x: Entry)
    requires 1 <= idx <= |h| && UpHole(h, idx - 1, x)
    ensures IsHeap(SiftUp(h, idx, x))
    decreases idx
  {
    if idx > 1 && Less(x.prio, h[idx / 2 - 1].prio) {
      UpStep(h, idx, x);
      SiftUpHeap(h[idx - 1 := h[idx / 2 - 1]], idx / 2, x);
    } else {
      var r := h[idx - 1 := x];
      assert SiftUp(h, idx, x) == r;
      forall k {:trigger r[k]} | 0 < k < |r|
        ensures !Less(r[k].prio, r[(k - 1) / 2].prio)
      {
        if k == idx - 1 {
          assert (k - 1) / 2 == idx / 2 - 1;
        }
      }
    }
  }

  /** Appending to a heap leaves a hole at the new last place with nothing below it. */
  lemma InsertStart(h: seq<Entry>, x: Entry)
    requires IsHeap(h)
    ensures UpHole(h + [x], |h|, x)
  {
    var h' := h + [x];
    forall k {:trigger h'[k]} | 0 < k < |h'|
      ensures (k - 1) / 2 != |h|
    {
    }
  }

  // ----- extraction -----

  /**
   * The child of `idx` that extraction descends into: the one of smaller
   * priority (right only when it ranks strictly before the left), or, with
   * `larger`, the one of larger priority (right when the left ranks
   * strictly before it).
   */
  function Below(h: seq<Entry>, idx: nat, larger: bool): (c: nat)
    requires 1 <= idx && 2 * idx <= |h|
    ensures c == 2 * idx || c == 2 * idx + 1
    ensures c <= |h|
  {
    var left, right := 2 * idx, 2 * idx + 1;
    if right <= |h| &&
       (if larger then Less(h[left - 1].prio, h[right - 1].prio) else Less(h[right - 1].prio, h[left - 1].prio))
    then right
    else left
  }

  /**
   * Moving `x` down from the hole at `idx`: while the chosen child does
   * not rank after `x`, the child moves up into the hole.
   */
  function SiftDown(h: seq<Entry>, idx: nat, x: Entry, larger: bool): (r: seq<Entry>)
    requires 1 <= idx <= |h|
    ensures |r| == |h|
    decreases |h| - idx
  {
    if 2 * idx > |h| then h[idx - 1 := x]
    else
      var below := Below(h, idx, larger);
      if Less(x.prio, h[below - 1].prio) then h[idx - 1 := x]
      else SiftDown(h[idx - 1 := h[below - 1]], below, x, larger)
  }

  /** The vector after extraction: the last entry is removed and sifted down from the root. */
  function AfterExtract(h: seq<Entry>, larger: bool): (r: seq<Entry>)
    requires h != []
    ensures |r| == |h| - 1
  {
    if |h| == 1 then []
    else
      var last := h[|h| - 1];
      SiftDown(h[..|h| - 1][0 := last], 1, last, larger)
  }

  /** Sifting down only moves entries. */
  lemma {:induction false} SiftDownPerm(h: seq<Entry>, idx: nat, x: Entry, larger: bool)
    requires 1 <= idx <= |h|
    ensures Perm(SiftDown(h, idx, x, larger), h[idx - 1 := x])
    decreases |h| - idx
  {
    if 2 * idx <= |h| && !Less(x.prio, h[Below(h, idx, larger) - 1].prio) {
      var below := Below(h, idx, larger);
      var h' := h[idx - 1 := h[below - 1]];
      SiftDownPerm(h', below, x, larger);
      Move(h, idx - 1, below - 1, x, SiftDown(h', below, x, larger));
    }
  }

  /** Extraction removes exactly the root: the rest and the root are the entries before. */
  lemma AfterExtractPerm(h: seq<Entry>, larger: bool)
    requires h != []
    ensures Perm(AfterExtract(h, larger) + [h[0]], h)
  {
    var r := AfterExtract(h, larger);
    if |h| == 1 {
      assert r + [h[0]] == h;
    } else {
      var last := h[|h| - 1];
      var init := h[..|h| - 1];
      var start := init[0 := last];
      assert start[0 := last] == start;
      SiftDownPerm(start, 1, last, larger);
      assert h == init + [last];
      forall y
        ensures Count(r + [h[0]], y) == Count(h, y)
      {
        CountSnoc(r, h[0], y);
        CountPut(init, 0, last, y);
        CountSnoc(init, last, y);
      }
    }
  }

  /**
   * A heap with a hole at `j` waiting for `x`: order holds away from the
   * hole, and `x` and the hole's children all rank no earlier than the
   * hole's parent.
   */
  ghost predicate DownHole(h: seq<Entry>, j: nat, x: Entry)
  {
    j < |h| &&
    (forall k {:trigger h[k]} :: 0 < k < |h| && k != j && (k - 1) / 2 != j ==> !Less(h[k].prio, h[(k - 1) / 2].prio)) &&
    (j > 0 ==> !Less(x.prio, h[(j - 1) / 2].prio)) &&
    (j > 0 ==> forall k {:trigger h[k]} :: 0 < k < |h| && (k - 1) / 2 == j ==> !Less(h[k].prio, h[(j - 1) / 2].prio))
  }

  /** The smaller child ranks no later than its sibling. */
  lemma BelowMin(h: seq<Entry>, idx: nat, k: nat)
    requires 1 <= idx && 2 * idx <= |h| && k < |h| && (k - 1) / 2 == idx - 1 && 0 < k
    ensures !Less(h[k].prio, h[Below(h, idx, false) - 1].prio)
  {
  }

  /** One step down, into the smaller child, keeps the hole invariant. */
  lemma DownStep(h: seq<Entry>, idx: nat, x: Entry)
    requires 1 <= idx && 2 * idx <= |h| && DownHole(h, idx - 1, x)
    requires !Less(x.prio, h[Below(h, idx, false) - 1].prio)
    ensures var c := Below(h, idx, false); DownHole(h[idx - 1 := h[c - 1]], c - 1, x)
  {
    var j, c := idx - 1, Below(h, idx, false) - 1;
    assert (c - 1) / 2 == j;
    var h' := h[j := h[c]];
    forall k {:trigger h'[k]} | 0 < k < |h'| && k != c && (k - 1) / 2 != c
      ensures !Less(h'[k].prio, h'[(k - 1) / 2].prio)
    {
      if (k - 1) / 2 == j {
        BelowMin(h, idx, k);
      }
    }
    forall k | 0 < k < |h'| && (k - 1) / 2 == c
      ensures !Less(h'[k].prio, h'[j].prio)
    {
      assert k != j;
    }
  }

  /** Sifting down into the smaller child from a hole restores heap order. */
  lemma {:induction false} SiftDownHeap(h: seq<Entry>, idx: nat, x: Entry)
    requires 1 <= idx <= |h| && DownHole(h, idx - 1, x)
    ensures IsHeap(SiftDown(h, idx, x, false))
    decreases |h| - idx
  {
    if 2 * idx <= |h| && !Less(x.prio, h[Below(h, idx, false) - 1].prio) {
      DownStep(h, idx, x);
      SiftDownHeap(h[idx - 1 := h[Below(h, idx, false) - 1]], Below(h, idx, false), x);
    } else {
      var r := h[idx - 1 := x];
      assert SiftDown(h, idx, x, false) == r;
      forall k {:trigger r[k]} | 0 < k < |r|
        ensures !Less(r[k].prio, r[(k - 1) / 2].prio)
      {
        if (k - 1) / 2 == idx - 1 && k != idx - 1 {
          BelowMin(h, idx, k);
        }
      }
    }
  }

  /** Extraction with descent into the smaller child keeps a heap a heap. */
  lemma AfterExtractHeap(h: seq<Entry>)
    requires h != [] && IsHeap(h)
    ensures IsHeap(AfterExtract(h, false))
  {
    if |h| > 1 {
      var last := h[|h| - 1];
      var h' := h[..|h| - 1][0 := last];
      assert DownHole(h', 0, last);
      SiftDownHeap(h', 1, last);
    }
  }

  /** What Extract promises about the vector before and after. */
  lemma ExtractFacts(h: seq<Entry>)
    requires h != []
    ensures Perm(AfterExtract(h, false) + [h[0]], h)
    ensures IsHeap(h) ==> IsHeap(AfterExtract(h, false)) && forall k :: 0 <= k < |h| ==> !Less(h[k].prio, h[0].prio)
  {
    AfterExtractPerm(h, false);
    if IsHeap(h) {
      AfterExtractHeap(h);
      forall k | 0 <= k < |h|
        ensures !Less(h[k].prio, h[0].prio)
      {
        RootMin(h, k);
      }
    }
  }

  /**
   * The vector [1, 2, 3, 4] (frequencies, depth 0) is a heap; extraction
   * that descends into the larger child leaves [3, 2, 4], which is not, so
   * the following extraction yields 3 while 2 is still queued.
   */
  lemma LargerChildBreaksHeap()
    ensures var h := [Entry(1, Priority(1, 0)), Entry(2, Priority(2, 0)), Entry(3, Priority(3, 0)), Entry(4, Priority(4, 0))];
      IsHeap(h) &&
      AfterExtract(h, true) == [Entry(3, Priority(3, 0)), Entry(2, Priority(2, 0)), Entry(4, Priority(4, 0))] &&
      !IsHeap(AfterExtract(h, true)) &&
      AfterExtract(h, false) == [Entry(2, Priority(2, 0)), Entry(4, Priority(4, 0)), Entry(3, Priority(3, 0))]
  {
    var h := [Entry(1, Priority(1, 0)), Entry(2, Priority(2, 0)), Entry(3, Priority(3, 0)), Entry(4, Priority(4, 0))];
    var h3 := h[..3][0 := h[3]];
    assert Below(h3, 1, true) == 3;
    assert SiftDown(h3, 1, h[3], true) == SiftDown(h3[0 := h3[2]], 3, h[3], true);
    assert Below(h3, 1, false) == 2;
    assert SiftDown(h3, 1, h[3], false) == SiftDown(h3[0 := h3[1]], 2, h[3], false);
    var r := AfterExtract(h, true);
    assert !Less(r[1].prio, r[0].prio) == false;
  }

  // ----- initial entries -----

  /** Symbol `s` enters the queue as node `s + 1` with frequency `freqs[s] / scaling + 1` and depth 0. */
  function InitialEntries(freqs: seq<nat>, n: nat, scaling: nat): (r: seq<Entry>)
    requires n <= |freqs| && scaling > 0
    ensures |r| == n
    ensures forall s :: 0 <= s < n ==> r[s] == Entry(s + 1, Priority(freqs[s] / scaling + 1, 0))
  {
    if n == 0 then [] else InitialEntries(freqs, n - 1, scaling) + [Entry(n, Priority(freqs[n - 1] / scaling + 1, 0))]
  }

  /**
   * Once `scaling` exceeds every frequency, every symbol enters with
   * frequency 1, so doubling `scaling` again gives the same queue.
   */
  lemma ScalingSaturates(freqs: seq<nat>, n: nat, scaling: nat)
    requires n <= |freqs| && scaling > 0
    requires forall s :: 0 <= s < n ==> freqs[s] < scaling
    ensures InitialEntries(freqs, n, scaling) == InitialEntries(freqs, n, 2 * scaling)
    ensures forall s :: 0 <= s < n ==> InitialEntries(freqs, n, scaling)[s].prio == Priority(1, 0)
  {
    forall s | 0 <= s < n
      ensures freqs[s] / scaling == 0 && freqs[s] / (2 * scaling) == 0
    {
      DivBelow0(freqs[s], scaling);
      DivBelow0(freqs[s], 2 * scaling);
    }
  }

  lemma DivBelow0(a: nat, b: nat)
    requires a < b
    ensures a / b == 0
  {
  }

  /** Appending the same entry to both sides keeps a permutation. */
  lemma PermSnoc(a: seq<Entry>, b: seq<Entry>, e: Entry)
    requires Perm(a, b)
    ensures Perm(a + [e], b + [e])
  {
    forall y
      ensures Count(a + [e], y) == Count(b + [e], y)
    {
      CountSnoc(a, e, y);
      CountSnoc(b, e, y);
    }
  }

  class FrequencyQueue {
    var heap: seq<Entry>

    /** The queue of every symbol `s < numSyms`, with the priority InitialEntries gives it. */
    constructor New(numSyms: nat, freqs: seq<nat>, scaling: nat)
      requires numSyms <= |freqs| && scaling > 0
      ensures |heap| == numSyms && IsHeap(heap) && Perm(heap, InitialEntries(freqs, numSyms, scaling))
    {
      heap := [];
      new;
      InsertSymbols(numSyms, freqs, scaling);
    }

    /** The loop of New: the symbols below `numSyms` are inserted in order. */
    method InsertSymbols(numSyms: nat, freqs: seq<nat>, scaling: nat)
      requires numSyms <= |freqs| && scaling > 0 && heap == []
      modifies this
      ensures |heap| == numSyms && IsHeap(heap) && Perm(heap, InitialEntries(freqs, numSyms, scaling))
    {
      var s := 0;
      while s < numSyms
        invariant s <= numSyms && |heap| == s
        invariant IsHeap(heap) && Perm(heap, InitialEntries(freqs, s, scaling))
      {
        InsertSymbol(freqs, s, scaling);
        s := s + 1;
      }
    }

    /** One round of New: symbol `s` enters as node `s + 1`, with its frequency scaled down. */
    method InsertSymbol(freqs: seq<nat>, s: nat, scaling: nat)
      requires s < |freqs| && scaling > 0
      requires IsHeap(heap) && Perm(heap, InitialEntries(freqs, s, scaling))
      modifies this
      ensures |heap| == |old(heap)| + 1
      ensures IsHeap(heap) && Perm(heap, InitialEntries(freqs, s + 1, scaling))
    {
      var q := freqs[s] / scaling + 1;
      ghost var e := Entry(s + 1, Priority(q, 0));
      PermSnoc(heap, InitialEntries(freqs, s, scaling), e);
      assert InitialEntries(freqs, s + 1, scaling) == InitialEntries(freqs, s, scaling) + [e];
      Insert(s + 1, Priority(q, 0));
    }

    /** The number of queued entries. */
    function Len(): (r: nat)
      reads this
      ensures r == |heap|
    {
      |heap|
    }

    /** `sym` is appended and sifted up; a heap stays a heap, and the entries are the old ones plus the new one. */
    method Insert(sym: nat, priority: Priority)
      modifies this
      ensures heap == SiftUp(old(heap) + [Entry(sym, priority)], |old(heap)| + 1, Entry(sym, priority))
      ensures Perm(heap, old(heap) + [Entry(sym, priority)])
      ensures IsHeap(old(heap)) ==> IsHeap(heap)
    {
      var x := Entry(sym, priority);
      ghost var h0 := heap + [x];
      ghost var n := |heap|;
      SiftUpPerm(h0, n + 1, x);
      assert h0[n := x] == h0;
      if IsHeap(heap) {
        InsertStart(heap, x);
        SiftUpHeap(h0, n + 1, x);
      }
      heap := heap + [x];
      SiftUpFromLast(x);
    }

    /** The last entry, `x`, is sifted up as Insert does after appending it. */
    method SiftUpFromLast(x: Entry)
      requires heap != [] && heap[|heap| - 1] == x
      modifies this
      ensures heap == SiftUp(old(heap), |old(heap)|, x)
    {
      var initIdx := |heap|;
      if initIdx == 1 {
        assert heap[0 := x] == heap;
        return;
      }
      var thisIdx := initIdx;
      while true
        invariant 2 <= thisIdx <= initIdx == |heap|
        invariant SiftUp(heap, thisIdx, x) == SiftUp(old(heap), initIdx, x)
        invariant thisIdx == initIdx ==> heap == old(heap)
        decreases thisIdx
      {
        var aboveIdx := thisIdx / 2;
        var above := heap[aboveIdx - 1];
        if Less(x.prio, above.prio) {
          heap := heap[thisIdx - 1 := above];
          thisIdx := aboveIdx;
          if thisIdx == 1 {
            break;
          }
        } else {
          break;
        }
      }
      if thisIdx != initIdx {
        heap := heap[thisIdx - 1 := x];
      } else {
        assert heap[thisIdx - 1 := x] == heap;
      }
    }

    /** The hole at the root is filled by sifting `x` down, into the smaller child or, with `larger`, the larger one. */
    method SiftDownFromRoot(x: Entry, larger: bool)
      requires |heap| >= 1
      modifies this
      ensures heap == SiftDown(old(heap), 1, x, larger)
    {
      var heapSize := |heap|;
      var thisIdx := 1;
      while true
        invariant 1 <= thisIdx <= heapSize == |heap|
        invariant SiftDown(heap, thisIdx, x, larger) == SiftDown(old(heap), 1, x, larger)
        decreases heapSize - thisIdx
      {
        var leftIdx := 2 * thisIdx;
        if leftIdx > heapSize {
          break;
        }
        var rightIdx := leftIdx + 1;
        var belowIdx := leftIdx;
        if rightIdx <= heapSize &&
           (if larger then Less(heap[leftIdx - 1].prio, heap[rightIdx - 1].prio)
            else Less(heap[rightIdx - 1].prio, heap[leftIdx - 1].prio)) {
          belowIdx := rightIdx;
        }
        assert belowIdx == Below(heap, thisIdx, larger);
        var below := heap[belowIdx - 1];
        if Less(x.prio, below.prio) {
          break;
        }
        heap := heap[thisIdx - 1 := below];
        thisIdx := belowIdx;
      }
      heap := heap[thisIdx - 1 := x];
    }

    /**
     * The root is removed and returned; the last entry takes its place and
     * is sifted down into the smaller child. A heap stays a heap and the
     * root ranks no later than any entry.
     */
    method Extract() returns (e: Entry)
      requires |heap| >= 1
      modifies this
      ensures e == old(heap)[0] && heap == AfterExtract(old(heap), false)
      ensures Perm(heap + [e], old(heap))
      ensures IsHeap(old(heap)) ==>
        IsHeap(heap) && forall k :: 0 <= k < |old(heap)| ==> !Less(old(heap)[k].prio, e.prio)
    {
      ExtractFacts(heap);
      var last := heap[|heap| - 1];
      heap := heap[..|heap| - 1];
      if heap == [] {
        return last;
      }
      e := heap[0];
      heap := heap[0 := last];
      SiftDownFromRoot(last, false);
    }

    /**
     * Extraction as src/huffman.rs writes it: the same, except that the
     * last entry is sifted down into the larger child, so heap order is
     * not kept (LargerChildBreaksHeap).
     */
    method ExtractAsWritten() returns (e: Entry)
      requires |heap| >= 1
      modifies this
      ensures e == old(heap)[0] && heap == AfterExtract(old(heap), true)
      ensures Perm(heap + [e], old(heap))
    {
      ghost var h := heap;
      AfterExtractPerm(h, true);
      if |heap| == 1 {
        e := heap[0];
        heap := [];
        return;
      }
      e := heap[0];
      var last := heap[|heap| - 1];
      heap := heap[..|heap| - 1];
      heap := heap[0 := last];
      SiftDownFromRoot(last, true);
    }
  }
}
