/**
 * The bucket bookkeeping and the first step of the suffix-array induced
 * sort (SA-IS) Burrows-Wheeler transform of src/bwt.rs.
 *
 * The transform itself stops after the first step (the source ends in an
 * unimplemented call), so what is modelled is: the byte buckets (which
 * bytes occur, how often, and where each byte's bucket starts and ends in
 * the suffix array), the pushes at a bucket's head or tail, the early
 * returns of the transform, and the right-to-left scan that classifies
 * every position of the doubled block as S or L and pushes each
 * leftmost-S position at the tail of its bucket.
 */
module BwtBuckets {
  import opened Bytes
  import BwtReference

  // ---------------------------------------------------------------------
  // Counting.

  /** How often `c` occurs in `d`. */
  function Occ(d: seq<byte>, c: int): (r: nat)
    ensures r <= |d|
  {
    if d == [] then 0 else Occ(d[..|d| - 1], c) + (if d[|d| - 1] == c then 1 else 0)
  }

  /** How many bytes of `d` are smaller than `w`: where the bucket of `w` starts in the suffix array. */
  function Below(d: seq<byte>, w: int): (r: nat)
    ensures r <= |d|
  {
    if d == [] then 0 else Below(d[..|d| - 1], w) + (if d[|d| - 1] < w then 1 else 0)
  }

  /** How many bytes of `d` occur in `s`. */
  function Within(d: seq<byte>, s: seq<byte>): (r: nat)
    ensures r <= |d|
  {
    if d == [] then 0 else Within(d[..|d| - 1], s) + (if d[|d| - 1] in s then 1 else 0)
  }

  /** The bucket sizes of the symbols of `s`, summed. */
  function SumSizes(sizes: seq<nat>, s: seq<byte>): nat
    requires forall k :: 0 <= k < |s| ==> s[k] < |sizes|
  {
    if s == [] then 0 else SumSizes(sizes, s[..|s| - 1]) + sizes[s[|s| - 1]]
  }

  predicate Increasing(s: seq<byte>)
  {
    forall j, k :: 0 <= j < k < |s| ==> s[j] < s[k]
  }

  predicate NonDecreasing(s: seq<byte>)
  {
    forall j, k :: 0 <= j < k < |s| ==> s[j] <= s[k]
  }

  /** No value occurs twice in `s`. */
  predicate Distinct(s: seq<byte>)
  {
    forall j, k :: 0 <= j < k < |s| ==> s[j] != s[k]
  }

  // ---------------------------------------------------------------------
  // The buckets.

  /** The symbols present, how often each occurs, and a moving pointer into each symbol's bucket. */
  class Buckets {
    var sigma: seq<byte>
    var sizes: seq<nat>
    var bptrs: seq<nat>

    /**
     * The state after a layout: the symbols present are listed once each
     * in increasing order, each with a positive size, and sizes and
     * pointers cover the same symbols.
     */
    ghost predicate Valid()
      reads this
    {
      |sizes| == |bptrs| && LaidOut()
    }

    /** The symbols present are listed once each in increasing order, each with a positive size. */
    ghost predicate LaidOut()
      reads this
    {
      Increasing(sigma) && forall k :: 0 <= k < |sigma| ==> sigma[k] < |sizes| && sizes[sigma[k]] > 0
    }

    /** The buckets count the bytes of `data`. */
    ghost predicate Counts(data: seq<byte>)
      reads this
    {
      (forall c :: 0 <= c < |sizes| ==> sizes[c] == Occ(data, c)) &&
      (forall c: byte :: c in sigma <==> c in data)
    }

    /** A fresh set of buckets laid out over `data`. */
    constructor Build(data: seq<byte>, maxSigma: nat)
      requires |data| > 0 && forall k :: 0 <= k < |data| ==> data[k] < maxSigma
      ensures Valid() && Counts(data) && |sizes| == maxSigma
      ensures forall c :: 0 <= c < maxSigma ==> bptrs[c] == 0
    {
      sigma := [];
      sizes := Rep(0, maxSigma);
      bptrs := Rep(0, maxSigma);
      new;
      Layout(data);
    }

    /** Counts every byte of `data` and lists the symbols present in increasing order. */
    method Layout(data: seq<byte>)
      modifies this
      requires sigma == [] && forall c :: 0 <= c < |sizes| ==> sizes[c] == 0
      requires forall k :: 0 <= k < |data| ==> data[k] < |sizes|
      ensures LaidOut() && Counts(data) && |sizes| == old(|sizes|) && bptrs == old(bptrs)
    {
      for i := 0 to |data|
        invariant |sizes| == old(|sizes|) && bptrs == old(bptrs)
        invariant forall c :: 0 <= c < |sizes| ==> sizes[c] == Occ(data[..i], c)
        invariant forall c: byte :: c in sigma <==> c in data[..i]
        invariant Distinct(sigma)
      {
        var c := data[i];
        assert data[..i + 1] == data[..i] + [c];
        OccSnoc(data[..i], c);
        sizes := sizes[c := sizes[c] + 1];
        if sizes[c] == 1 {
          OccPresent(data[..i], c);
          sigma := sigma + [c];
        } else {
          OccPresent(data[..i], c);
        }
      }
      assert data[..|data|] == data;
      var present := sigma;
      sigma := SortUnstable(present);
      forall c: byte
        ensures c in sigma <==> c in data
      {
        assert c in sigma <==> c in multiset(sigma);
        assert c in present <==> c in multiset(present);
      }
      forall k | 0 <= k < |sigma|
        ensures sigma[k] < |sizes| && sizes[sigma[k]] > 0
      {
        assert sigma[k] in data;
        OccPresent(data, sigma[k]);
      }
    }

    /** Lays the buckets out afresh over `data`, as src/bwt.rs writes it: the pointer list is left empty. */
    method RebuildAsWritten(data: seq<byte>, maxSigma: nat)
      modifies this
      requires |data| > 0 && forall k :: 0 <= k < |data| ==> data[k] < maxSigma
      ensures Counts(data) && |sizes| == maxSigma && bptrs == []
      ensures |data| > 0 ==> !Valid()
    {
      sigma := [];
      sizes := Rep(0, maxSigma);
      bptrs := [];
      sizes := sizes + Rep(0, maxSigma - |sizes|);
      Layout(data);
      assert data[0] in sigma;
    }

    /** Lays the buckets out afresh over `data`, clearing all three lists and sizing the pointers like the sizes. */
    method Rebuild(data: seq<byte>, maxSigma: nat)
      modifies this
      requires |data| > 0 && forall k :: 0 <= k < |data| ==> data[k] < maxSigma
      ensures Valid() && Counts(data) && |sizes| == maxSigma
      ensures forall c :: 0 <= c < maxSigma ==> bptrs[c] == 0
    {
      sigma := [];
      sizes := Rep(0, maxSigma);
      bptrs := Rep(0, maxSigma);
      Layout(data);
    }

    /** Points every present symbol's pointer at the head of its bucket. */
    method SetPtrsToBucketHeads()
      modifies this
      requires Valid()
      ensures Valid() && sigma == old(sigma) && sizes == old(sizes) && |bptrs| == |old(bptrs)|
      ensures forall k {:trigger bptrs[sigma[k]]} :: 0 <= k < |sigma| ==> bptrs[sigma[k]] == SumSizes(sizes, sigma[..k])
      ensures forall c :: 0 <= c < |bptrs| && c !in sigma ==> bptrs[c] == old(bptrs[c])
    {
      var sg, sz := sigma, sizes;
      ghost var target := seq(|sg|, k requires 0 <= k < |sg| => SumSizes(sz, sg[..k]));
      var acc := 0;
      for j := 0 to |sigma|
        invariant sigma == sg && sizes == sz && |bptrs| == |old(bptrs)|
        invariant acc == SumSizes(sizes, sigma[..j])
        invariant forall k {:trigger bptrs[sigma[k]]} :: 0 <= k < j ==> bptrs[sigma[k]] == target[k]
        invariant forall c :: 0 <= c < |bptrs| && c !in sigma[..j] ==> bptrs[c] == old(bptrs[c])
      {
        var w := sigma[j];
        Assign(sigma, bptrs, old(bptrs), target, j);
        bptrs := bptrs[w := acc];
        acc := acc + sizes[w];
        assert sigma[..j + 1][..j] == sigma[..j];
      }
      assert sigma[..|sigma|] == sigma;
    }

    /** Points every present symbol's pointer at the last slot of its bucket. */
    method SetPtrsToBucketTails()
      modifies this
      requires Valid()
      ensures Valid() && sigma == old(sigma) && sizes == old(sizes) && |bptrs| == |old(bptrs)|
      ensures forall k {:trigger bptrs[sigma[k]]} :: 0 <= k < |sigma| ==> bptrs[sigma[k]] == SumSizes(sizes, sigma[..k]) + sizes[sigma[k]] - 1
      ensures forall c :: 0 <= c < |bptrs| && c !in sigma ==> bptrs[c] == old(bptrs[c])
    {
      var sg, sz := sigma, sizes;
      ghost var target := seq(|sg|, k requires 0 <= k < |sg| => SumSizes(sz, sg[..k]) + sz[sg[k]] - 1);
      var acc := 0;
      for j := 0 to |sigma|
        invariant sigma == sg && sizes == sz && |bptrs| == |old(bptrs)|
        invariant acc == SumSizes(sizes, sigma[..j])
        invariant forall k {:trigger bptrs[sigma[k]]} :: 0 <= k < j ==> bptrs[sigma[k]] == target[k]
        invariant forall c :: 0 <= c < |bptrs| && c !in sigma[..j] ==> bptrs[c] == old(bptrs[c])
      {
        var w := sigma[j];
        Assign(sigma, bptrs, old(bptrs), target, j);
        assert sigma[..j + 1][..j] == sigma[..j];
        acc := acc + sizes[w];
        bptrs := bptrs[w := acc - 1];
      }
      assert sigma[..|sigma|] == sigma;
    }
  }

  /**
   * Setting the pointer of symbol `j` to its target keeps the pointers of
   * the earlier symbols at theirs and every pointer of a later or absent
   * symbol unchanged.
   */
  lemma Assign(sigma: seq<byte>, b: seq<nat>, b0: seq<nat>, target: seq<int>, j: nat)
    requires Increasing(sigma) && |target| == |sigma| && j < |sigma| && |b| == |b0|
    requires forall k :: 0 <= k < |sigma| ==> sigma[k] < |b|
    requires target[j] >= 0
    requires forall k {:trigger b[sigma[k]]} :: 0 <= k < j ==> b[sigma[k]] == target[k]
    requires forall c :: 0 <= c < |b| && c !in sigma[..j] ==> b[c] == b0[c]
    ensures var b' := b[sigma[j] := target[j]];
      (forall k {:trigger b'[sigma[k]]} :: 0 <= k < j + 1 ==> b'[sigma[k]] == target[k]) &&
      forall c :: 0 <= c < |b'| && c !in sigma[..j + 1] ==> b'[c] == b0[c]
  {
    assert sigma[..j + 1] == sigma[..j] + [sigma[j]];
  }

  /** Writes `i` at the pointer of `w`'s bucket and moves the pointer one slot left, stopping at 0. */
  method TailPush(sa: array<int>, buckets: Buckets, w: byte, i: int)
    modifies sa, buckets
    requires w < |buckets.bptrs| && buckets.bptrs[w] < sa.Length
    ensures sa[..] == old(sa[..])[old(buckets.bptrs[w]) := i]
    ensures buckets.sigma == old(buckets.sigma) && buckets.sizes == old(buckets.sizes)
    ensures buckets.bptrs == old(buckets.bptrs)[w := if old(buckets.bptrs[w]) > 0 then old(buckets.bptrs[w]) - 1 else 0]
  {
    var bptr := buckets.bptrs[w];
    sa[bptr] := i;
    if bptr > 0 {
      buckets.bptrs := buckets.bptrs[w := bptr - 1];
    }
  }

  /** Writes `i` at the pointer of `w`'s bucket and moves the pointer one slot right. */
  method HeadPush(sa: array<int>, buckets: Buckets, w: byte, i: int)
    modifies sa, buckets
    requires w < |buckets.bptrs| && buckets.bptrs[w] < sa.Length
    ensures sa[..] == old(sa[..])[old(buckets.bptrs[w]) := i]
    ensures buckets.sigma == old(buckets.sigma) && buckets.sizes == old(buckets.sizes)
    ensures buckets.bptrs == old(buckets.bptrs)[w := old(buckets.bptrs[w]) + 1]
  {
    var bptr := buckets.bptrs[w];
    sa[bptr] := i;
    buckets.bptrs := buckets.bptrs[w := bptr + 1];
  }

  // ---------------------------------------------------------------------
  // Sorting the symbols.

  /** The library's unstable sort: some non-decreasing permutation of its input. */
  method SortUnstable(s: seq<byte>) returns (r: seq<byte>)
    ensures NonDecreasing(r) && multiset(r) == multiset(s)
    ensures Distinct(s) ==> Increasing(r)
  {
    r := [];
    for i := 0 to |s|
      invariant NonDecreasing(r) && multiset(r) == multiset(s[..i])
    {
      r := InsertByte(r, s[i]);
      assert s[..i + 1] == s[..i] + [s[i]];
    }
    assert s[..|s|] == s;
    if Distinct(s) {
      DistinctSorted(s, r);
    }
  }

  method InsertByte(s: seq<byte>, x: byte) returns (r: seq<byte>)
    requires NonDecreasing(s)
    ensures NonDecreasing(r) && multiset(r) == multiset(s) + multiset{x}
  {
    var k := 0;
    while k < |s| && s[k] <= x
      invariant k <= |s| && forall j :: 0 <= j < k ==> s[j] <= x
    {
      k := k + 1;
    }
    r := s[..k] + [x] + s[k..];
    assert s == s[..k] + s[k..];
  }

  /** A non-decreasing permutation of a list without repeats is increasing. */
  lemma DistinctSorted(s: seq<byte>, r: seq<byte>)
    requires Distinct(s) && NonDecreasing(r) && multiset(r) == multiset(s)
    ensures Increasing(r)
  {
    forall j, k | 0 <= j < k < |r|
      ensures r[j] < r[k]
    {
      if r[j] == r[k] {
        RepeatedCount(r, j, k);
        DistinctCount(s, r[k]);
        assert false;
      }
    }
  }

  lemma RepeatedCount(s: seq<byte>, j: nat, k: nat)
    requires j < k < |s| && s[j] == s[k]
    ensures multiset(s)[s[k]] >= 2
  {
    assert s == s[..k] + [s[k]] + s[k + 1..];
    assert s[..k][j] == s[k];
    assert multiset(s) == multiset(s[..k]) + multiset{s[k]} + multiset(s[k + 1..]);
  }

  /** A list without repeats holds every value at most once. */
  lemma {:induction false} DistinctCount(s: seq<byte>, x: byte)
    requires Distinct(s)
    ensures multiset(s)[x] <= 1
  {
    if s != [] {
      var t := s[..|s| - 1];
      assert s == t + [s[|s| - 1]];
      DistinctCount(t, x);
      if s[|s| - 1] == x {
        assert x !in t;
      }
    }
  }

  // ---------------------------------------------------------------------
  // Counting lemmas.

  lemma OccSnoc(d: seq<byte>, c: byte)
    ensures forall x :: Occ(d + [c], x) == Occ(d, x) + (if x == c then 1 else 0)
  {
    assert (d + [c])[..|d|] == d;
  }

  /** A byte occurs exactly when it is counted. */
  lemma {:induction false} OccPresent(d: seq<byte>, c: byte)
    ensures Occ(d, c) > 0 <==> c in d
  {
    if d != [] {
      var t := d[..|d| - 1];
      OccPresent(t, c);
      assert d == t + [d[|d| - 1]];
    }
  }

  /** The sizes of distinct symbols add up to the number of bytes among them. */
  lemma {:induction false} SumIsWithin(d: seq<byte>, sizes: seq<nat>, s: seq<byte>)
    requires Distinct(s) && forall k :: 0 <= k < |s| ==> s[k] < |sizes|
    requires forall c :: 0 <= c < |sizes| ==> sizes[c] == Occ(d, c)
    ensures SumSizes(sizes, s) == Within(d, s)
    decreases |s|
  {
    if s != [] {
      var t, x := s[..|s| - 1], s[|s| - 1];
      assert s == t + [x];
      assert x !in t;
      SumIsWithin(d, sizes, t);
      WithinSnoc(d, t, x);
      assert SumSizes(sizes, s) == SumSizes(sizes, t) + sizes[x];
    } else {
      WithinNothing(d);
    }
  }

  lemma {:induction false} WithinNothing(d: seq<byte>)
    ensures Within(d, []) == 0
  {
    if d != [] {
      WithinNothing(d[..|d| - 1]);
    }
  }

  /** Adding a symbol not yet listed adds its occurrences. */
  lemma {:induction false} WithinSnoc(d: seq<byte>, t: seq<byte>, x: byte)
    requires x !in t
    ensures Within(d, t + [x]) == Within(d, t) + Occ(d, x)
  {
    if d != [] {
      WithinSnoc(d[..|d| - 1], t, x);
    }
  }

  /** With every byte listed in increasing order, the bytes among the first `k` symbols are those below symbol `k`. */
  lemma {:induction false} WithinIsBelow(d: seq<byte>, sigma: seq<byte>, k: nat)
    requires Increasing(sigma) && k < |sigma| && forall j :: 0 <= j < |d| ==> d[j] in sigma
    ensures Within(d, sigma[..k]) == Below(d, sigma[k])
  {
    if d != [] {
      var t, x := d[..|d| - 1], d[|d| - 1];
      forall j | 0 <= j < |t|
        ensures t[j] in sigma
      {
        assert t[j] == d[j];
      }
      WithinIsBelow(t, sigma, k);
      assert x in sigma;
      var m :| 0 <= m < |sigma| && sigma[m] == x;
      if m < k {
        assert sigma[..k][m] == x;
      } else {
        assert x !in sigma[..k];
      }
    }
  }

  /** With every byte listed, the bytes among all symbols are all the bytes. */
  lemma {:induction false} WithinAll(d: seq<byte>, sigma: seq<byte>)
    requires forall j :: 0 <= j < |d| ==> d[j] in sigma
    ensures Within(d, sigma) == |d|
  {
    if d != [] {
      var t := d[..|d| - 1];
      forall j | 0 <= j < |t|
        ensures t[j] in sigma
      {
        assert t[j] == d[j];
      }
      WithinAll(t, sigma);
    }
  }

  /** The head of a bucket is the number of bytes smaller than its symbol. */
  lemma HeadIsBelow(b: Buckets, data: seq<byte>, k: nat)
    requires b.Valid() && b.Counts(data) && k < |b.sigma|
    ensures SumSizes(b.sizes, b.sigma[..k]) == Below(data, b.sigma[k])
  {
    IncreasingDistinct(b.sigma[..k]);
    SumIsWithin(data, b.sizes, b.sigma[..k]);
    forall j | 0 <= j < |data|
      ensures data[j] in b.sigma
    {
      assert data[j] in data;
    }
    WithinIsBelow(data, b.sigma, k);
  }

  /** The tail of a bucket is the last slot before the bytes larger than its symbol. */
  lemma TailIsBelowPlusSize(b: Buckets, data: seq<byte>, k: nat)
    requires b.Valid() && b.Counts(data) && k < |b.sigma|
    ensures SumSizes(b.sizes, b.sigma[..k + 1]) == Below(data, b.sigma[k]) + Occ(data, b.sigma[k])
  {
    HeadIsBelow(b, data, k);
    assert b.sigma[..k + 1][..k] == b.sigma[..k];
  }

  /** The buckets together span the whole block. */
  lemma BucketsSpan(b: Buckets, data: seq<byte>)
    requires b.Valid() && b.Counts(data)
    ensures SumSizes(b.sizes, b.sigma) == |data|
  {
    IncreasingDistinct(b.sigma);
    SumIsWithin(data, b.sizes, b.sigma);
    forall j | 0 <= j < |data|
      ensures data[j] in b.sigma
    {
      assert data[j] in data;
    }
    WithinAll(data, b.sigma);
  }

  lemma IncreasingDistinct(s: seq<byte>)
    requires Increasing(s)
    ensures Distinct(s)
  {
  }

  // ---------------------------------------------------------------------
  // Suffix types and the first step of the transform.

  /** The type of a suffix: S when it is smaller than the suffix after it, L when larger. */
  datatype Kind = S | L

  /**
   * The type of position `i`, computed from the right: the last position is
   * L (an implicit sentinel smaller than every byte follows it), a byte
   * below its successor is S, above it L, and equal to it the successor's type.
   */
  function KindAt(d: seq<byte>, i: nat): Kind
    requires i < |d|
    decreases |d| - i
  {
    if i == |d| - 1 then L
    else if d[i] < d[i + 1] then S
    else if d[i] > d[i + 1] then L
    else KindAt(d, i + 1)
  }

  /** A leftmost-S position: type S with an L position just before it. */
  predicate IsLms(d: seq<byte>, i: nat)
  {
    0 < i < |d| && KindAt(d, i) == S && KindAt(d, i - 1) == L
  }

  /** The leftmost-S positions from `p` on, from the right. */
  function LmsFrom(d: seq<byte>, p: nat): seq<nat>
    decreases |d| - p
  {
    if p >= |d| then [] else LmsFrom(d, p + 1) + (if IsLms(d, p) then [p] else [])
  }

  /** The type of a position is S exactly when its suffix is smaller than the next one, a proper prefix counting as smaller. */
  lemma {:induction false} KindIsSuffixOrder(d: seq<byte>, i: nat)
    requires i < |d|
    ensures KindAt(d, i) == S <==> !BwtReference.LexLe(d[i + 1..], d[i..])
    decreases |d| - i
  {
    if i < |d| - 1 && d[i] == d[i + 1] {
      KindIsSuffixOrder(d, i + 1);
      assert d[i + 1..][1..] == d[i + 2..];
      assert d[i..][1..] == d[i + 1..];
    }
  }

  /** The list holds exactly the leftmost-S positions from `p` on, largest first. */
  lemma {:induction false} LmsFromExactly(d: seq<byte>, p: nat)
    ensures forall q :: q in LmsFrom(d, p) <==> p <= q && IsLms(d, q)
    ensures forall j, k :: 0 <= j < k < |LmsFrom(d, p)| ==> LmsFrom(d, p)[j] > LmsFrom(d, p)[k]
    decreases |d| - p
  {
    if p < |d| {
      LmsFromExactly(d, p + 1);
      var t := LmsFrom(d, p + 1);
      if IsLms(d, p) {
        forall j, k | 0 <= j < k < |t| + 1
          ensures (t + [p])[j] > (t + [p])[k]
        {
          if k == |t| {
            assert t[j] in t;
          }
        }
      }
    }
  }

  /** The positions of `ps` whose byte in `d` is `c`. */
  function CountByte(d: seq<byte>, ps: seq<nat>, c: nat): nat
  {
    if ps == [] then 0
    else CountByte(d, ps[..|ps| - 1], c) + (if ps[|ps| - 1] < |d| && d[ps[|ps| - 1]] == c then 1 else 0)
  }

  /** A tail pointer at `p` after `k` pushes: each moves it one slot left, and it stays at slot 0. */
  function Lowered(p: nat, k: nat): nat
  {
    if k <= p then p - k else 0
  }

  /**
   * Slot `j` holds the pushed position `v`, and lies in the part of the
   * bucket of `v`'s byte the pushes have passed over: between that
   * bucket's pointer `now` and where it started, `start`.
   */
  ghost predicate InTail(d: seq<byte>, v: int, pushed: seq<nat>, j: nat, now: seq<nat>, start: seq<nat>)
  {
    0 <= v < |d| && v as nat in pushed && d[v] as nat < |now| && d[v] as nat < |start| &&
    now[d[v]] <= j <= start[d[v]]
  }

  /**
   * The right-to-left scan: every position's type is derived from the one
   * after it, and each leftmost-S position is pushed at the tail of its
   * byte's bucket. The positions pushed are returned in push order; each
   * pointer has moved left once per push into its bucket, every slot
   * written holds a pushed position within the part of its byte's bucket
   * the pointer has passed over, and every slot outside those parts is as
   * it was.
   */
  method InsertLms(d: seq<byte>, sa: array<int>, buckets: Buckets) returns (pushed: seq<nat>)
    modifies sa, buckets
    requires |d| > 0 && |buckets.bptrs| == 0x100
    requires forall c :: 0 <= c < 0x100 ==> buckets.bptrs[c] < sa.Length
    ensures pushed == LmsFrom(d, 1)
    ensures buckets.sigma == old(buckets.sigma) && buckets.sizes == old(buckets.sizes)
    ensures |buckets.bptrs| == 0x100 &&
      forall c :: 0 <= c < 0x100 ==> buckets.bptrs[c] == Lowered(old(buckets.bptrs[c]), CountByte(d, pushed, c))
    ensures forall j :: 0 <= j < sa.Length && sa[j] != old(sa[j]) ==> InTail(d, sa[j], pushed, j, buckets.bptrs, old(buckets.bptrs))
    ensures forall j :: 0 <= j < sa.Length && (forall c :: 0 <= c < 0x100 ==> j < buckets.bptrs[c] || old(buckets.bptrs[c]) < j) ==>
      sa[j] == old(sa[j])
  {
    var iAdj := |d|;
    var ty := L;
    var wAdj := d[|d| - 1];
    var k := |d| - 1;
    pushed := [];
    while k > 0
      invariant 0 <= k < |d| && iAdj == k + 1 && wAdj == d[k] && ty == KindAt(d, k)
      invariant pushed == LmsFrom(d, k + 1)
      invariant buckets.sigma == old(buckets.sigma) && buckets.sizes == old(buckets.sizes) && |buckets.bptrs| == 0x100
      invariant forall c :: 0 <= c < 0x100 ==> buckets.bptrs[c] == Lowered(old(buckets.bptrs[c]), CountByte(d, pushed, c))
      invariant forall c :: 0 <= c < 0x100 ==> buckets.bptrs[c] < sa.Length
      invariant forall j :: 0 <= j < sa.Length && sa[j] != old(sa[j]) ==> InTail(d, sa[j], pushed, j, buckets.bptrs, old(buckets.bptrs))
    {
      var w := d[k - 1];
      iAdj := iAdj - 1;
      match ty {
        case L =>
          if w < wAdj {
            ty := S;
          }
        case S =>
          if w > wAdj {
            TailPush(sa, buckets, wAdj, iAdj);
            assert (pushed + [iAdj])[..|pushed|] == pushed;
            pushed := pushed + [iAdj];
            ty := L;
          }
      }
      wAdj := w;
      k := k - 1;
    }
  }

  /** The largest signed 32-bit index. */
  const IdxMax: int := 0x7fff_ffff

  /** What the transform returns, or that it reached the unimplemented rest of the sort. */
  datatype Outcome = Done(out: seq<byte>, ptr: int) | Unfinished(sa: seq<int>, lms: seq<nat>)

  /**
   * The transform up to where src/bwt.rs stops: blocks of length 0 and
   * 1 and blocks too long for 32-bit indices into the doubled block return
   * at once; otherwise the doubled block is bucketed and its leftmost-S
   * positions are pushed, after which the source panics. Every slot of
   * the suffix array then holds 0, where nothing was pushed, or one of the
   * positions pushed.
   */
  method Bwt(data: seq<byte>) returns (r: Outcome)
    ensures |data| == 0 ==> r == Done([], -1)
    ensures |data| == 1 ==> r == Done(data, 0)
    ensures |data| >= IdxMax / 2 - 1 ==> r == Done([], -1)
    ensures 2 <= |data| < IdxMax / 2 - 1 ==> r.Unfinished? && |r.sa| == 2 * |data| && r.lms == LmsFrom(data + data, 1)
    ensures r.Unfinished? ==> forall j :: 0 <= j < |r.sa| && r.sa[j] != 0 ==> 0 <= r.sa[j] < |r.sa| && r.sa[j] as nat in r.lms
  {
    var n := |data|;
    if n == 0 {
      return Done([], -1);
    } else if n == 1 {
      return Done(data, 0);
    }
    if n >= IdxMax / 2 - 1 {
      return Done([], -1);
    }
    var d := data + data;
    var sa := new int[2 * n](_ => 0);
    var buckets := new Buckets.Build(d, 0x100);
    buckets.SetPtrsToBucketTails();
    TailsInside(buckets, d);
    var lms := InsertLms(d, sa, buckets);
    r := Unfinished(sa[..], lms);
  }

  /** After pointing at the bucket tails, every pointer is a slot of the suffix array. */
  lemma TailsInside(b: Buckets, d: seq<byte>)
    requires b.Valid() && b.Counts(d) && |b.bptrs| == 0x100 && |d| > 0
    requires forall k {:trigger b.bptrs[b.sigma[k]]} :: 0 <= k < |b.sigma| ==> b.bptrs[b.sigma[k]] == SumSizes(b.sizes, b.sigma[..k]) + b.sizes[b.sigma[k]] - 1
    requires forall c :: 0 <= c < 0x100 && c !in b.sigma ==> b.bptrs[c] == 0
    ensures forall c :: 0 <= c < 0x100 ==> b.bptrs[c] < |d|
  {
    forall c | 0 <= c < 0x100
      ensures b.bptrs[c] < |d|
    {
      if c in b.sigma {
        var k :| 0 <= k < |b.sigma| && b.sigma[k] == c;
        TailIsBelowPlusSize(b, d, k);
        assert b.bptrs[b.sigma[k]] == SumSizes(b.sizes, b.sigma[..k]) + b.sizes[b.sigma[k]] - 1;
        assert b.sigma[..k + 1][..k] == b.sigma[..k];
        assert b.bptrs[c] + 1 == SumSizes(b.sizes, b.sigma[..k + 1]);
        SumPrefix(b, k + 1);
        BucketsSpan(b, d);
      }
    }
  }

  /** A prefix of the symbols has no more bytes than all of them. */
  lemma {:induction false} SumPrefix(b: Buckets, m: nat)
    requires b.Valid() && m <= |b.sigma|
    ensures SumSizes(b.sizes, b.sigma[..m]) <= SumSizes(b.sizes, b.sigma)
    decreases |b.sigma| - m
  {
    if m < |b.sigma| {
      SumPrefix(b, m + 1);
      assert b.sigma[..m + 1][..m] == b.sigma[..m];
    } else {
      assert b.sigma[..m] == b.sigma;
    }
  }
}
