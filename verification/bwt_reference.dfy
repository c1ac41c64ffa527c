/**
 * The reference Burrows-Wheeler transform of bzip2 (debug/bwt.py).
 *
 * The block is doubled; every suffix of the doubled block is listed with its
 * offset and the list is sorted by suffix. Walking the sorted list, every
 * offset below the block length emits the byte cyclically before it, and the
 * position at which offset 0 is met is the pointer.
 *
 * The sort of the source is a library sort, stated here only as "some
 * sorted permutation" (an insertion sort serves as one). The suffixes all
 * have different lengths, so the sorted order is strict; in particular two
 * offsets whose rotations are equal come out larger offset first.
 *
 * The script reads its line as a string of code points; the model takes
 * it as bytes, as the Rust coder does, which agree for one-byte
 * characters.
 */
module BwtReference {
  import opened Bytes
  import opened Seqs

  // ---------------------------------------------------------------------
  // The order of strings.

  /** String order: the first difference decides, and a proper prefix comes first. */
  predicate LexLe(a: seq<byte>, b: seq<byte>)
    decreases |a|
  {
    a == [] || (b != [] && (a[0] < b[0] || (a[0] == b[0] && LexLe(a[1..], b[1..]))))
  }

  lemma {:induction false} LexTotal(a: seq<byte>, b: seq<byte>)
    ensures LexLe(a, b) || LexLe(b, a)
    decreases |a|
  {
    if a != [] && b != [] && a[0] == b[0] {
      LexTotal(a[1..], b[1..]);
    }
  }

  lemma {:induction false} LexTrans(a: seq<byte>, b: seq<byte>, c: seq<byte>)
    requires LexLe(a, b) && LexLe(b, c)
    ensures LexLe(a, c)
    decreases |a|
  {
    if a != [] && a[0] == b[0] && b[0] == c[0] {
      LexTrans(a[1..], b[1..], c[1..]);
    }
  }

  lemma {:induction false} LexAntisymmetric(a: seq<byte>, b: seq<byte>)
    requires LexLe(a, b) && LexLe(b, a)
    ensures a == b
    decreases |a|
  {
    if a != [] {
      LexAntisymmetric(a[1..], b[1..]);
      assert a == [a[0]] + a[1..] && b == [b[0]] + b[1..];
    }
  }

  lemma {:induction false} LexReflexive(a: seq<byte>)
    ensures LexLe(a, a)
    decreases |a|
  {
    if a != [] {
      LexReflexive(a[1..]);
    }
  }

  /** A common prefix does not change the order. */
  lemma {:induction false} LexCommonPrefix(p: seq<byte>, a: seq<byte>, b: seq<byte>)
    ensures LexLe(p + a, p + b) <==> LexLe(a, b)
    decreases |p|
  {
    if p != [] {
      assert (p + a)[1..] == p[1..] + a;
      assert (p + b)[1..] == p[1..] + b;
      LexCommonPrefix(p[1..], a, b);
    } else {
      assert p + a == a && p + b == b;
    }
  }

  /** A prefix comes no later than the string it starts. */
  lemma {:induction false} LexPrefix(a: seq<byte>, b: seq<byte>)
    requires a <= b
    ensures LexLe(a, b)
    decreases |a|
  {
    if a != [] {
      LexPrefix(a[1..], b[1..]);
    }
  }

  /** Of two strings, the order of their first `|x| == |y|` bytes agrees with the order of the whole. */
  lemma {:induction false} LexHeads(x: seq<byte>, s: seq<byte>, y: seq<byte>, t: seq<byte>)
    requires |x| == |y| && LexLe(x + s, y + t)
    ensures LexLe(x, y)
    decreases |x|
  {
    if x != [] {
      assert (x + s)[1..] == x[1..] + s;
      assert (y + t)[1..] == y[1..] + t;
      if x[0] == y[0] {
        LexHeads(x[1..], s, y[1..], t);
      }
    }
  }

  // ---------------------------------------------------------------------
  // Sorting entries by suffix.

  /** An entry of the suffix list: an offset and the suffix starting there. */
  type Entry = (nat, seq<byte>)

  predicate Sorted(s: seq<Entry>)
  {
    forall j, k :: 0 <= j < k < |s| ==> LexLe(s[j].1, s[k].1)
  }

  /** Inserts `e` after the entries whose suffix is no greater. */
  method Insert(s: seq<Entry>, e: Entry) returns (r: seq<Entry>)
    requires Sorted(s)
    ensures Sorted(r) && multiset(r) == multiset(s) + multiset{e}
  {
    var k := 0;
    while k < |s| && LexLe(s[k].1, e.1)
      invariant k <= |s|
      invariant forall j :: 0 <= j < k ==> LexLe(s[j].1, e.1)
    {
      k := k + 1;
    }
    if k < |s| {
      LexTotal(s[k].1, e.1);
      forall j | k <= j < |s|
        ensures LexLe(e.1, s[j].1)
      {
        if j > k {
          LexTrans(e.1, s[k].1, s[j].1);
        }
      }
    }
    r := s[..k] + [e] + s[k..];
    assert s == s[..k] + s[k..];
    forall j, m | 0 <= j < m < |r|
      ensures LexLe(r[j].1, r[m].1)
    {
      if m == k {
      } else if j == k {
      } else if j < k && m > k {
        LexTrans(r[j].1, e.1, r[m].1);
      }
    }
  }

  /** The library sort: some sorted permutation of its input. */
  method Sort(s: seq<Entry>) returns (r: seq<Entry>)
    ensures Sorted(r) && multiset(r) == multiset(s)
  {
    r := [];
    for i := 0 to |s|
      invariant Sorted(r) && multiset(r) == multiset(s[..i])
    {
      r := Insert(r, s[i]);
      assert s[..i + 1] == s[..i] + [s[i]];
    }
    assert s[..|s|] == s;
  }

  // ---------------------------------------------------------------------
  // Rotations and the transform.

  /** The block followed by itself: its suffixes from offsets below the block length start with the rotations. */
  function Doubled(line: seq<byte>): seq<byte>
  {
    line + line
  }

  /** The rotation of the block that starts at offset `i`. */
  function Rot(line: seq<byte>, i: nat): seq<byte>
    requires i <= |line|
  {
    line[i..] + line[..i]
  }

  /** The byte cyclically before offset `i`. */
  function Pred(line: seq<byte>, i: nat): byte
    requires i < |line|
  {
    if i == 0 then line[|line| - 1] else line[i - 1]
  }

  function Range(n: nat): (r: seq<nat>)
    ensures |r| == n && forall k :: 0 <= k < n ==> r[k] == k
  {
    if n == 0 then [] else Range(n - 1) + [n - 1]
  }

  /**
   * `order` lists the offsets of the block, each once, sorted by the suffix
   * of the doubled block that starts there.
   */
  ghost predicate IsOrder(line: seq<byte>, order: seq<nat>)
  {
    (forall k :: 0 <= k < |order| ==> order[k] < |line|) &&
    multiset(order) == multiset(Range(|line|)) &&
    forall j, k :: 0 <= j < k < |order| ==> LexLe(Doubled(line)[order[j]..], Doubled(line)[order[k]..])
  }

  /**
   * The transform: the byte before each rotation, in sorted order, and the
   * position of the rotation at offset 0 (-1 for an empty block). `order`
   * is the sorted order of the offsets.
   */
  method Bwt(line: seq<byte>) returns (outs: seq<byte>, ptr: int, ghost order: seq<nat>)
    ensures IsOrder(line, order) && |outs| == |order| == |line|
    ensures forall k :: 0 <= k < |outs| ==> outs[k] == Pred(line, order[k])
    ensures |line| == 0 ==> ptr == -1
    ensures |line| > 0 ==> 0 <= ptr < |line| && order[ptr] == 0
    ensures multiset(outs) == multiset(line)
  {
    var n := |line|;
    var l2 := line + line;
    var sa := Suffixes(l2);
    var sorted := Sort(sa);
    EntriesKept(sa, sorted, l2);
    outs, ptr, order := Walk(line, l2, sorted);
    OrderCount(order, n);
    assert |order| == |multiset(order)| == |multiset(Range(n))| == n;
    if n > 0 {
      assert multiset(order)[0] == 1;
    }
    PredPerm(line, order, outs);
  }

  /** The suffix list: every offset of `l2` with the suffix starting there. */
  method Suffixes(l2: seq<byte>) returns (sa: seq<Entry>)
    ensures |sa| == |l2| && forall k :: 0 <= k < |sa| ==> sa[k] == (k, l2[k..])
    ensures forall x :: 0 <= x <= |l2| ==> multiset(sa)[(x, l2[x..])] == if x < |l2| then 1 else 0
  {
    sa := [];
    for i := 0 to |l2|
      invariant |sa| == i && forall k :: 0 <= k < i ==> sa[k] == (k, l2[k..])
      invariant forall x :: 0 <= x <= |l2| ==> multiset(sa)[(x, l2[x..])] == if x < i then 1 else 0
    {
      sa := sa + [(i, l2[i..])];
    }
  }

  /**
   * The walk over the sorted list: each offset below the block length emits
   * the byte before it, and offset 0 records the pointer.
   */
  method Walk(line: seq<byte>, l2: seq<byte>, sorted: seq<Entry>) returns (outs: seq<byte>, ptr: int, ghost order: seq<nat>)
    requires l2 == Doubled(line) && Sorted(sorted)
    requires forall j :: 0 <= j < |sorted| ==> sorted[j].0 < |l2| && sorted[j].1 == l2[sorted[j].0..]
    requires forall x :: 0 <= x < |l2| ==> multiset(sorted)[(x, l2[x..])] == 1
    ensures |outs| == |order| && forall t :: 0 <= t < |order| ==> order[t] < |line| && outs[t] == Pred(line, order[t])
    ensures (ptr == -1 && 0 !in order) || (0 <= ptr < |order| && order[ptr] == 0)
    ensures forall t, u :: 0 <= t < u < |order| ==> LexLe(l2[order[t]..], l2[order[u]..])
    ensures forall x :: 0 <= x < |line| ==> multiset(order)[x] == 1
    ensures forall x :: x >= |line| ==> multiset(order)[x] == 0
  {
    var n := |line|;
    outs, ptr, order := [], -1, [];
    for k := 0 to |sorted|
      invariant |outs| == |order| && forall t :: 0 <= t < |order| ==> order[t] < n && outs[t] == Pred(line, order[t])
      invariant (ptr == -1 && 0 !in order) || (0 <= ptr < |order| && order[ptr] == 0)
      invariant forall t, u :: 0 <= t < u < |order| ==> LexLe(l2[order[t]..], l2[order[u]..])
      invariant forall t, j :: 0 <= t < |order| && k <= j < |sorted| ==> LexLe(l2[order[t]..], sorted[j].1)
      invariant forall x :: 0 <= x < n ==> multiset(order)[x] == multiset(sorted[..k])[(x, l2[x..])]
      invariant forall x :: x >= n ==> multiset(order)[x] == 0
    {
      outs, ptr, order := WalkStep(line, l2, sorted, k, outs, ptr, order);
    }
    assert sorted[..|sorted|] == sorted;
  }

  /** One entry of the walk. */
  method WalkStep(line: seq<byte>, l2: seq<byte>, sorted: seq<Entry>, k: nat, outs: seq<byte>, ptr: int, ghost order: seq<nat>)
    returns (outs': seq<byte>, ptr': int, ghost order': seq<nat>)
    requires l2 == Doubled(line) && Sorted(sorted) && k < |sorted|
    requires forall j :: 0 <= j < |sorted| ==> sorted[j].0 < |l2| && sorted[j].1 == l2[sorted[j].0..]
    requires |outs| == |order| && forall t :: 0 <= t < |order| ==> order[t] < |line| && outs[t] == Pred(line, order[t])
    requires (ptr == -1 && 0 !in order) || (0 <= ptr < |order| && order[ptr] == 0)
    requires forall t, u :: 0 <= t < u < |order| ==> LexLe(l2[order[t]..], l2[order[u]..])
    requires forall t, j :: 0 <= t < |order| && k <= j < |sorted| ==> LexLe(l2[order[t]..], sorted[j].1)
    requires forall x :: 0 <= x < |line| ==> multiset(order)[x] == multiset(sorted[..k])[(x, l2[x..])]
    requires forall x :: x >= |line| ==> multiset(order)[x] == 0
    ensures |outs'| == |order'| && forall t :: 0 <= t < |order'| ==> order'[t] < |line| && outs'[t] == Pred(line, order'[t])
    ensures (ptr' == -1 && 0 !in order') || (0 <= ptr' < |order'| && order'[ptr'] == 0)
    ensures forall t, u :: 0 <= t < u < |order'| ==> LexLe(l2[order'[t]..], l2[order'[u]..])
    ensures forall t, j :: 0 <= t < |order'| && k + 1 <= j < |sorted| ==> LexLe(l2[order'[t]..], sorted[j].1)
    ensures forall x :: 0 <= x < |line| ==> multiset(order')[x] == multiset(sorted[..k + 1])[(x, l2[x..])]
    ensures forall x :: x >= |line| ==> multiset(order')[x] == 0
  {
    var n := |line|;
    var i := sorted[k].0;
    outs', ptr', order' := outs, ptr, order;
    if i < n {
      if i == 0 {
        ptr' := |outs|;
      }
      outs' := outs + [Pred(line, i)];
      order' := order + [i];
      SortedStep(l2, sorted, order, k);
    }
    CountStep(l2, n, sorted, order, order', k);
  }

  /** Appending the next sorted offset keeps the walked offsets sorted, and below every later entry. */
  lemma SortedStep(l2: seq<byte>, sorted: seq<Entry>, order: seq<nat>, k: nat)
    requires Sorted(sorted) && k < |sorted|
    requires forall j :: 0 <= j < |sorted| ==> sorted[j].0 < |l2| && sorted[j].1 == l2[sorted[j].0..]
    requires forall t :: 0 <= t < |order| ==> order[t] < |l2|
    requires forall t, u :: 0 <= t < u < |order| ==> LexLe(l2[order[t]..], l2[order[u]..])
    requires forall t, j :: 0 <= t < |order| && k <= j < |sorted| ==> LexLe(l2[order[t]..], sorted[j].1)
    ensures var o := order + [sorted[k].0];
      (forall t, u :: 0 <= t < u < |o| ==> LexLe(l2[o[t]..], l2[o[u]..])) &&
      forall t, j :: 0 <= t < |o| && k + 1 <= j < |sorted| ==> LexLe(l2[o[t]..], sorted[j].1)
  {
  }

  /** The count of each offset follows the prefix of the sorted list walked so far. */
  lemma CountStep(l2: seq<byte>, n: nat, sorted: seq<Entry>, order: seq<nat>, order': seq<nat>, k: nat)
    requires k < |sorted| && sorted[k].0 < |l2| && sorted[k].1 == l2[sorted[k].0..]
    requires order' == if sorted[k].0 < n then order + [sorted[k].0] else order
    requires forall x :: 0 <= x < n ==> multiset(order)[x] == multiset(sorted[..k])[(x, l2[x..])]
    requires forall x :: x >= n ==> multiset(order)[x] == 0
    ensures forall x :: 0 <= x < n ==> multiset(order')[x] == multiset(sorted[..k + 1])[(x, l2[x..])]
    ensures forall x :: x >= n ==> multiset(order')[x] == 0
  {
    assert sorted[..k + 1] == sorted[..k] + [sorted[k]];
  }

  /** After sorting, every entry still holds its offset and suffix, and every offset occurs once. */
  lemma EntriesKept(sa: seq<Entry>, sorted: seq<Entry>, l2: seq<byte>)
    requires multiset(sorted) == multiset(sa)
    requires |sa| == |l2|
    requires forall k :: 0 <= k < |sa| ==> sa[k] == (k, l2[k..])
    requires forall x :: 0 <= x <= |l2| ==> multiset(sa)[(x, l2[x..])] == if x < |sa| then 1 else 0
    ensures forall j :: 0 <= j < |sorted| ==> sorted[j].0 < |l2| && sorted[j].1 == l2[sorted[j].0..]
    ensures forall x :: 0 <= x < |l2| ==> multiset(sorted)[(x, l2[x..])] == 1
  {
    forall j | 0 <= j < |sorted|
      ensures sorted[j].0 < |l2| && sorted[j].1 == l2[sorted[j].0..]
    {
      assert sorted[j] in multiset(sa);
    }
  }

  /** Offsets counted once each below `n` and never above make up the range below `n`. */
  lemma OrderCount(order: seq<nat>, n: nat)
    requires forall x: nat :: x < n ==> multiset(order)[x] == 1
    requires forall x: nat :: x >= n ==> multiset(order)[x] == 0
    ensures multiset(order) == multiset(Range(n))
  {
    RangeCount(n);
    assert forall x: nat :: multiset(order)[x] == multiset(Range(n))[x];
  }

  lemma {:induction false} RangeCount(n: nat)
    ensures forall x: nat :: multiset(Range(n))[x] == if x < n then 1 else 0
  {
    if n > 0 {
      var last: nat := n - 1;
      RangeCount(last);
      assert Range(n) == Range(last) + [last];
      assert multiset(Range(n)) == multiset(Range(last)) + multiset{last};
    }
  }

  /** The byte before each offset, as a total function (offsets past the block give 0). */
  function PredAt(line: seq<byte>): (nat -> byte)
  {
    (i: nat) => if i < |line| then Pred(line, i) else 0
  }

  /** The bytes before the offsets 0, 1, ..., in order, are the block rotated right by one. */
  lemma IdentityPred(line: seq<byte>, r: seq<nat>)
    requires |line| > 0 && |r| == |line| && forall k :: 0 <= k < |r| ==> r[k] == k
    ensures Map(PredAt(line), r) == [line[|line| - 1]] + line[..|line| - 1]
  {
    var n := |line|;
    var p := Map(PredAt(line), r);
    var q := [line[n - 1]] + line[..n - 1];
    forall k | 0 <= k < n
      ensures p[k] == q[k]
    {
      assert r[k] == k;
    }
  }

  /** The bytes before every offset are the block's bytes. */
  lemma RangePred(line: seq<byte>)
    requires |line| > 0
    ensures multiset(Map(PredAt(line), Range(|line|))) == multiset(line)
  {
    IdentityPred(line, Range(|line|));
    RotateRight(line);
  }

  lemma RotateRight(line: seq<byte>)
    requires |line| > 0
    ensures multiset([line[|line| - 1]] + line[..|line| - 1]) == multiset(line)
  {
    var n := |line|;
    assert line == line[..n - 1] + [line[n - 1]];
  }

  /** The transform's output is a permutation of the block. */
  lemma PredPerm(line: seq<byte>, order: seq<nat>, outs: seq<byte>)
    requires forall k :: 0 <= k < |order| ==> order[k] < |line|
    requires multiset(order) == multiset(Range(|line|))
    requires |outs| == |order| && forall k :: 0 <= k < |outs| ==> outs[k] == Pred(line, order[k])
    ensures multiset(outs) == multiset(line)
  {
    assert outs == Map(PredAt(line), order);
    if |line| > 0 {
      MapPerm(PredAt(line), order, Range(|line|));
      RangePred(line);
    } else {
      assert |multiset(order)| == 0;
    }
  }

  // ---------------------------------------------------------------------
  // The order of rotations.

  /** Below the block length, the suffix of the doubled block is the rotation followed by the rest of the block. */
  lemma SuffixSplit(line: seq<byte>, i: nat)
    requires i < |line|
    ensures Doubled(line)[i..] == Rot(line, i) + line[i..]
  {
    assert Doubled(line)[i..] == line[i..] + line;
    assert line == line[..i] + line[i..];
  }

  /** The byte before an offset is the last byte of the rotation there: the output is the last column. */
  lemma PredIsLast(line: seq<byte>, i: nat)
    requires i < |line|
    ensures Pred(line, i) == Rot(line, i)[|line| - 1]
  {
    if i > 0 {
      assert Rot(line, i)[|line| - 1] == line[..i][i - 1];
    }
  }

  /** The rotations are visited in non-decreasing order. */
  lemma RotationsSorted(line: seq<byte>, order: seq<nat>)
    requires IsOrder(line, order)
    ensures forall j, k :: 0 <= j < k < |order| ==> LexLe(Rot(line, order[j]), Rot(line, order[k]))
  {
    forall j, k | 0 <= j < k < |order|
      ensures LexLe(Rot(line, order[j]), Rot(line, order[k]))
    {
      var a, b := order[j], order[k];
      SuffixSplit(line, a);
      SuffixSplit(line, b);
      LexHeads(Rot(line, a), line[a..], Rot(line, b), line[b..]);
    }
  }

  /** Every offset occurs at one position of the order only. */
  lemma OrderDistinct(line: seq<byte>, order: seq<nat>, j: nat, k: nat)
    requires IsOrder(line, order) && j < k < |order|
    ensures order[j] != order[k]
  {
    var x := order[k];
    if order[j] == x {
      RangeCount(|line|);
      Repeated(order, j, k);
      assert false;
    }
  }

  /** Of two offsets with equal rotations, the larger comes first. */
  lemma EqualRotationsLargerFirst(line: seq<byte>, order: seq<nat>, j: nat, k: nat)
    requires IsOrder(line, order) && j < k < |order|
    requires Rot(line, order[j]) == Rot(line, order[k])
    ensures order[j] > order[k]
  {
    var a, b := order[j], order[k];
    OrderDistinct(line, order, j, k);
    if a < b {
      var d := Doubled(line);
      SuffixSplit(line, a);
      SuffixSplit(line, b);
      forall t | 0 <= t < |line| - b
        ensures line[b..][t] == line[a..][t]
      {
        assert Rot(line, a)[t] == line[a + t];
        assert Rot(line, b)[t] == line[b + t];
      }
      assert d[b..] <= d[a..];
      LexPrefix(d[b..], d[a..]);
      LexAntisymmetric(d[a..], d[b..]);
      assert false;
    }
  }

  /** In a block of one repeated byte, every rotation is the block itself. */
  lemma SameByteRotation(line: seq<byte>, i: nat)
    requires i < |line| && forall t :: 0 <= t < |line| ==> line[t] == line[0]
    ensures Rot(line, i) == line
  {
  }

  /** A block of one repeated byte lists its offsets from the largest down, so the pointer is the last position. */
  lemma SameBytePointer(line: seq<byte>, order: seq<nat>, ptr: int)
    requires IsOrder(line, order) && |order| == |line| > 0
    requires forall t :: 0 <= t < |line| ==> line[t] == line[0]
    requires 0 <= ptr < |order| && order[ptr] == 0
    ensures ptr == |line| - 1
  {
    forall j, k | 0 <= j < k < |order|
      ensures order[j] > order[k]
    {
      SameByteRotation(line, order[j]);
      SameByteRotation(line, order[k]);
      EqualRotationsLargerFirst(line, order, j, k);
    }
    DecreasingFloor(order, |line|, ptr);
  }

  /** In a strictly decreasing list of `|s|` numbers, the one at position `k` is at least `|s| - 1 - k`. */
  lemma {:induction false} DecreasingFloor(s: seq<nat>, n: nat, k: nat)
    requires |s| == n && k < n
    requires forall j, m :: 0 <= j < m < n ==> s[j] > s[m]
    ensures s[k] >= n - 1 - k
    decreases n - k
  {
    if k < n - 1 {
      DecreasingFloor(s, n, k + 1);
    }
  }
}
