/**
 * Choosing the coding tables of a block and a table for every segment of
 * 50 symbols (the first half of encode in lib/huffman.rs and
 * src/huffman.rs). Between 2 and 6 tables are started, each with short
 * lengths on one contiguous chunk of the symbols. Then, four times over,
 * every segment picks the table under which it is cheapest, the symbols
 * of each segment are credited to the table it picked, and each table is
 * rebuilt from its credited frequencies. The picks of the last round are
 * the selectors.
 */
module HuffmanSelect {
  import opened Bytes
  import opened Seqs
  import opened HuffmanBuild
  import HuffmanTree

  /** The initial length of the symbols of a table's own chunk, and of the others. */
  const InitLenHigh: nat := 15
  const InitLenLow: nat := 0
  const NumRefinements: nat := 4
  /** A table is selected for every segment of this many symbols. */
  const SegmentWidth: nat := 50
  /** usize::MAX, the cost every table is compared with first. */
  const UsizeMax: nat := 0xFFFF_FFFF_FFFF_FFFF

  /** The number of tables for `numSyms` symbols; fewer than 3 symbols is a panic. */
  function NumTables(numSyms: nat): (r: nat)
    requires numSyms > 2
    ensures 2 <= r <= 6
    ensures numSyms <= 258 ==> r <= 3
  {
    if numSyms <= 199 then 2
    else if numSyms <= 599 then 3
    else if numSyms <= 1199 then 4
    else if numSyms <= 2399 then 5
    else 6
  }

  // ----- the initial tables -----

  /** The summed frequency of the symbols `lo .. hi - 1`. */
  function SumRange(freqs: seq<nat>, lo: nat, hi: nat): nat
    requires lo <= hi <= |freqs|
    decreases hi - lo
  {
    if lo == hi then 0 else SumRange(freqs, lo, hi - 1) + freqs[hi - 1]
  }

  /** Symbol `s` ends the chunk that starts at `left`: the frequency reaches `target`, or `s` is the last symbol. */
  predicate Stops(freqs: seq<nat>, numSyms: nat, left: nat, target: nat, s: nat)
    requires left <= s < |freqs|
  {
    SumRange(freqs, left, s + 1) >= target || s + 1 == numSyms
  }

  /**
   * The chunk that starts at `left`, scanned on from `right`: the first
   * symbol from `right` on that Stops it, with the chunk's summed
   * frequency; None when the scan runs off the frequency table.
   */
  function ScanFrom(freqs: seq<nat>, numSyms: nat, left: nat, target: nat, right: nat): (r: Option<(nat, nat)>)
    requires left <= right
    ensures r.Some? ==> right <= r.value.0 < |freqs| && r.value.1 == SumRange(freqs, left, r.value.0 + 1)
    decreases |freqs| - right
  {
    if right >= |freqs| then None
    else if Stops(freqs, numSyms, left, target, right) then Some((right, SumRange(freqs, left, right + 1)))
    else ScanFrom(freqs, numSyms, left, target, right + 1)
  }

  /** A symbol from `right` on that Stops the chunk bounds where its scan ends. */
  lemma {:induction false} ScanStopsBy(freqs: seq<nat>, numSyms: nat, left: nat, target: nat, right: nat, s: nat)
    requires left <= right <= s < |freqs| && Stops(freqs, numSyms, left, target, s)
    ensures ScanFrom(freqs, numSyms, left, target, right).Some?
    ensures ScanFrom(freqs, numSyms, left, target, right).value.0 <= s
    decreases s - right
  {
    if !Stops(freqs, numSyms, left, target, right) {
      ScanStopsBy(freqs, numSyms, left, target, right + 1, s);
    }
  }

  /**
   * The chunk of one table: symbols are taken from `left` on until one
   * Stops it; the summed frequency of the chunk comes with it. The source
   * indexes the frequency table without a bound, so the scan fails (None)
   * exactly when no symbol before the end of the table stops it.
   */
  method Scan(freqs: seq<nat>, numSyms: nat, left: nat, target: nat) returns (r: Option<(nat, nat)>)
    ensures r == ScanFrom(freqs, numSyms, left, target, left)
    ensures r.Some? ==> var (right, acc) := r.value;
      left <= right < |freqs| && acc == SumRange(freqs, left, right + 1) &&
      Stops(freqs, numSyms, left, target, right) &&
      forall s :: left <= s < right ==> !Stops(freqs, numSyms, left, target, s)
    ensures r.None? ==> forall s :: left <= s < |freqs| ==> !Stops(freqs, numSyms, left, target, s)
  {
    if left >= |freqs| {
      return None;
    }
    var acc := 0;
    var right := left;
    while true
      invariant left <= right <= |freqs| && acc == SumRange(freqs, left, right)
      invariant forall s :: left <= s < right ==> !Stops(freqs, numSyms, left, target, s)
      invariant ScanFrom(freqs, numSyms, left, target, left) == ScanFrom(freqs, numSyms, left, target, right)
      decreases |freqs| - right
    {
      if right >= |freqs| {
        return None;
      }
      acc := acc + freqs[right];
      if acc >= target || right + 1 == numSyms {
        return Some((right, acc));
      }
      right := right + 1;
    }
  }

  /** The initial lengths of one table: InitLenHigh on `lo..hi`, InitLenLow elsewhere. */
  method ChunkTable(numSyms: nat, lo: nat, hi: nat) returns (table: seq<nat>)
    ensures |table| == numSyms
    ensures forall s :: 0 <= s < numSyms ==> table[s] == if lo <= s <= hi then InitLenHigh else InitLenLow
  {
    table := [];
    for s := 0 to numSyms
      invariant |table| == s
      invariant forall u :: 0 <= u < s ==> table[u] == if lo <= u <= hi then InitLenHigh else InitLenLow
    {
      table := table + [if s >= lo && s <= hi then InitLenHigh else InitLenLow];
    }
  }

  /**
   * The tables `t` splits as a chunk: the first and last tables and the
   * even ones keep their chunk; an odd internal table of more than one
   * symbol gives its last symbol back.
   */
  predicate GivesBack(t: nat, numTables: nat)
  {
    t != 0 && t + 1 != numTables && t % 2 == 1
  }

  /** The chunks follow each other from symbol 0 on without gap or overlap, none is empty, and each ends below `bound`. */
  ghost predicate ChunkBounds(lo: seq<nat>, hi: seq<nat>, bound: nat)
  {
    |lo| == |hi| &&
    (|lo| > 0 ==> lo[0] == 0) &&
    (forall t :: 0 < t < |lo| ==> lo[t] == hi[t - 1] + 1) &&
    (forall t :: 0 <= t < |lo| ==> lo[t] <= hi[t] < bound)
  }

  /** Table `t` has the short length exactly on its chunk `lo[t]..hi[t]`. */
  ghost predicate ChunkLengths(tables: seq<seq<nat>>, numSyms: nat, lo: seq<nat>, hi: seq<nat>)
  {
    |lo| == |tables| && |hi| == |tables| &&
    forall t :: 0 <= t < |tables| ==>
      |tables[t]| == numSyms &&
      forall s :: 0 <= s < numSyms ==> tables[t][s] == if lo[t] <= s <= hi[t] then InitLenHigh else InitLenLow
  }

  /** The initial tables: each has the short length on its own chunk, the chunks splitting the symbols in order. */
  ghost predicate Chunked(tables: seq<seq<nat>>, numSyms: nat, lo: seq<nat>, hi: seq<nat>, bound: nat)
  {
    ChunkBounds(lo, hi, bound) && ChunkLengths(tables, numSyms, lo, hi)
  }

  /** The chunk after the last one keeps the bounds in order. */
  lemma ChunkBoundsSnoc(lo: seq<nat>, hi: seq<nat>, bound: nat, l: nat, h: nat)
    requires ChunkBounds(lo, hi, bound)
    requires l == (if |lo| == 0 then 0 else hi[|lo| - 1] + 1) && l <= h < bound
    ensures ChunkBounds(lo + [l], hi + [h], bound)
  {
    var lo', hi' := lo + [l], hi + [h];
    forall t | 0 < t < |lo'|
      ensures lo'[t] == hi'[t - 1] + 1
    {
      if t < |lo| {
        assert lo'[t] == lo[t] && hi'[t - 1] == hi[t - 1];
      }
    }
  }

  /** A table for the chunk after the last one keeps the lengths on their chunks. */
  lemma ChunkLengthsSnoc(tables: seq<seq<nat>>, numSyms: nat, lo: seq<nat>, hi: seq<nat>,
                         table: seq<nat>, l: nat, h: nat)
    requires ChunkLengths(tables, numSyms, lo, hi)
    requires |table| == numSyms
    requires forall s :: 0 <= s < numSyms ==> table[s] == if l <= s <= h then InitLenHigh else InitLenLow
    ensures ChunkLengths(tables + [table], numSyms, lo + [l], hi + [h])
  {
    var tables', lo', hi' := tables + [table], lo + [l], hi + [h];
    forall t | 0 <= t < |tables'|
      ensures |tables'[t]| == numSyms
      ensures forall s :: 0 <= s < numSyms ==> tables'[t][s] == if lo'[t] <= s <= hi'[t] then InitLenHigh else InitLenLow
    {
      if t < |tables| {
        assert tables'[t] == tables[t] && lo'[t] == lo[t] && hi'[t] == hi[t];
      }
    }
  }

  /**
   * The chunk of table `t`, starting at `symLeft` with `freqRemaining` left
   * to share among the tables from `t` on: the symbols up to the one that
   * Stops the scan, less one when the table GivesBack.
   */
  function Chunk(freqs: seq<nat>, numSyms: nat, numTables: nat, t: nat, symLeft: nat, freqRemaining: nat)
    : (r: Option<(nat, nat)>)
    requires t < numTables
    ensures r.Some? ==> symLeft <= r.value.0 < |freqs| && r.value.1 == SumRange(freqs, symLeft, r.value.0 + 1)
  {
    match ScanFrom(freqs, numSyms, symLeft, freqRemaining / (numTables - t), symLeft)
    case None => None
    case Some((right, acc)) =>
      if right > symLeft && GivesBack(t, numTables) then Some((right - 1, acc - freqs[right]))
      else Some((right, acc))
  }

  /** The chunk of table `t`: the symbols up to the one that Stops the scan, less one when the table GivesBack. */
  method NextChunk(freqs: seq<nat>, numSyms: nat, numTables: nat, t: nat, symLeft: nat, freqRemaining: nat)
    returns (r: Option<(nat, nat)>)
    requires t < numTables
    ensures r == Chunk(freqs, numSyms, numTables, t, symLeft, freqRemaining)
    ensures r.Some? ==> var (symRight, freqAcc) := r.value;
      symLeft <= symRight < |freqs| && freqAcc == SumRange(freqs, symLeft, symRight + 1)
  {
    var tablesRemaining: nat := numTables - t;
    var target := freqRemaining / tablesRemaining;
    r := Scan(freqs, numSyms, symLeft, target);
    if r.Some? {
      var (symRight, freqAcc) := r.value;
      if symRight > symLeft && GivesBack(t, numTables) {
        freqAcc := freqAcc - freqs[symRight];
        symRight := symRight - 1;
        r := Some((symRight, freqAcc));
      }
    }
  }

  /**
   * The chunks of the tables from `t` on, as first and last symbols, the
   * next one starting at `symLeft` with `freqRemaining` left to share.
   * None where the source panics: a chunk scan runs off the frequency
   * table, or a chunk takes more frequency than is left.
   */
  function Layout(freqs: seq<nat>, numSyms: nat, numTables: nat, t: nat, symLeft: nat, freqRemaining: nat)
    : (r: Option<(seq<nat>, seq<nat>)>)
    requires t <= numTables
    ensures r.Some? ==> |r.value.0| == |r.value.1| == numTables - t
    decreases numTables - t
  {
    if t == numTables then Some(([], []))
    else match Chunk(freqs, numSyms, numTables, t, symLeft, freqRemaining)
      case None => None
      case Some((right, acc)) =>
        if acc > freqRemaining then None
        else match Layout(freqs, numSyms, numTables, t + 1, right + 1, freqRemaining - acc)
          case None => None
          case Some((lo, hi)) => Some(([symLeft] + lo, [right] + hi))
  }

  /** The initial tables of `numTables` tables over the frequencies of `inputSize` symbols can be laid out. */
  predicate InitialOk(freqs: seq<nat>, numSyms: nat, numTables: nat, inputSize: nat)
  {
    Layout(freqs, numSyms, numTables, 0, 0, inputSize).Some?
  }

  /** The chunks `lo`, `hi` laid out so far, in front of those the later tables lay out. */
  function Behind(lo: seq<nat>, hi: seq<nat>, r: Option<(seq<nat>, seq<nat>)>): Option<(seq<nat>, seq<nat>)>
  {
    match r
    case None => None
    case Some((lo', hi')) => Some((lo + lo', hi + hi'))
  }

  /** Nothing behind leaves the later tables' chunks as they are. */
  lemma BehindNothing(r: Option<(seq<nat>, seq<nat>)>)
    ensures Behind([], [], r) == r
  {
    if r.Some? {
      assert [] + r.value.0 == r.value.0 && [] + r.value.1 == r.value.1;
    }
  }

  /** One more chunk laid out moves from the later tables to those behind. */
  lemma BehindSnoc(lo: seq<nat>, hi: seq<nat>, l: nat, h: nat, r: Option<(seq<nat>, seq<nat>)>)
    ensures Behind(lo, hi, Behind([l], [h], r)) == Behind(lo + [l], hi + [h], r)
  {
    if r.Some? {
      assert lo + ([l] + r.value.0) == (lo + [l]) + r.value.0;
      assert hi + ([h] + r.value.1) == (hi + [h]) + r.value.1;
    }
  }

  /** A chunk that fits what is left is laid out in front of the later tables' chunks; otherwise nothing is. */
  lemma LayoutStep(freqs: seq<nat>, numSyms: nat, numTables: nat, t: nat, symLeft: nat, freqRemaining: nat,
                   right: nat, acc: nat)
    requires t < numTables && Chunk(freqs, numSyms, numTables, t, symLeft, freqRemaining) == Some((right, acc))
    ensures acc > freqRemaining ==> Layout(freqs, numSyms, numTables, t, symLeft, freqRemaining).None?
    ensures acc <= freqRemaining ==>
      Layout(freqs, numSyms, numTables, t, symLeft, freqRemaining) ==
      Behind([symLeft], [right], Layout(freqs, numSyms, numTables, t + 1, right + 1, freqRemaining - acc))
  {
  }

  /**
   * The first `t` chunks `lo`, `hi` are laid out, the next starting at
   * `symLeft` with `freqRemaining` left: the whole layout is theirs
   * followed by that of the later tables.
   */
  ghost predicate LaidOut(freqs: seq<nat>, numSyms: nat, numTables: nat, inputSize: nat,
                          t: nat, lo: seq<nat>, hi: seq<nat>, symLeft: nat, freqRemaining: nat)
  {
    t <= numTables && |hi| == t &&
    symLeft == (if t == 0 then 0 else hi[t - 1] + 1) &&
    Layout(freqs, numSyms, numTables, 0, 0, inputSize) ==
      Behind(lo, hi, Layout(freqs, numSyms, numTables, t, symLeft, freqRemaining))
  }

  /** Before the first table nothing is laid out. */
  lemma LaidOutStart(freqs: seq<nat>, numSyms: nat, numTables: nat, inputSize: nat)
    ensures LaidOut(freqs, numSyms, numTables, inputSize, 0, [], [], 0, inputSize)
  {
    BehindNothing(Layout(freqs, numSyms, numTables, 0, 0, inputSize));
  }

  /** A chunk that fails fails the layout. */
  lemma LaidOutFails(freqs: seq<nat>, numSyms: nat, numTables: nat, inputSize: nat,
                     t: nat, lo: seq<nat>, hi: seq<nat>, symLeft: nat, freqRemaining: nat)
    requires t < numTables && LaidOut(freqs, numSyms, numTables, inputSize, t, lo, hi, symLeft, freqRemaining)
    requires Chunk(freqs, numSyms, numTables, t, symLeft, freqRemaining).None?
    ensures !InitialOk(freqs, numSyms, numTables, inputSize)
  {
  }

  /** The chunk of table `t` is laid out next, unless it takes more than is left. */
  lemma LaidOutNext(freqs: seq<nat>, numSyms: nat, numTables: nat, inputSize: nat,
                    t: nat, lo: seq<nat>, hi: seq<nat>, symLeft: nat, freqRemaining: nat, right: nat, acc: nat)
    requires t < numTables && LaidOut(freqs, numSyms, numTables, inputSize, t, lo, hi, symLeft, freqRemaining)
    requires Chunk(freqs, numSyms, numTables, t, symLeft, freqRemaining) == Some((right, acc))
    ensures acc > freqRemaining ==> !InitialOk(freqs, numSyms, numTables, inputSize)
    ensures acc <= freqRemaining ==>
      LaidOut(freqs, numSyms, numTables, inputSize, t + 1, lo + [symLeft], hi + [right], right + 1, freqRemaining - acc)
  {
    LayoutStep(freqs, numSyms, numTables, t, symLeft, freqRemaining, right, acc);
    if acc <= freqRemaining {
      BehindSnoc(lo, hi, symLeft, right, Layout(freqs, numSyms, numTables, t + 1, right + 1, freqRemaining - acc));
    }
  }

  /** Once every table is laid out, the layout is the chunks laid out. */
  lemma LaidOutEnd(freqs: seq<nat>, numSyms: nat, numTables: nat, inputSize: nat,
                   lo: seq<nat>, hi: seq<nat>, symLeft: nat, freqRemaining: nat)
    requires LaidOut(freqs, numSyms, numTables, inputSize, numTables, lo, hi, symLeft, freqRemaining)
    ensures Layout(freqs, numSyms, numTables, 0, 0, inputSize) == Some((lo, hi))
  {
    assert lo + [] == lo && hi + [] == hi;
  }

  /**
   * The initial tables: each table's chunk is the one Layout gives, and
   * the tables are Chunked, the chunks splitting the symbols in order.
   * None exactly where the source panics (not InitialOk).
   */
  method InitialTables(numSyms: nat, numTables: nat, freqs: seq<nat>, inputSize: nat)
    returns (r: Option<seq<seq<nat>>>, ghost lo: seq<nat>, ghost hi: seq<nat>)
    ensures r.Some? <==> InitialOk(freqs, numSyms, numTables, inputSize)
    ensures r.Some? ==> Layout(freqs, numSyms, numTables, 0, 0, inputSize) == Some((lo, hi))
    ensures r.Some? ==> |r.value| == numTables && Chunked(r.value, numSyms, lo, hi, |freqs|)
  {
    var tables: seq<seq<nat>> := [];
    lo, hi := [], [];
    var freqRemaining: nat := inputSize;
    var symLeft := 0;
    LaidOutStart(freqs, numSyms, numTables, inputSize);
    for t := 0 to numTables
      invariant |tables| == t && Chunked(tables, numSyms, lo, hi, |freqs|)
      invariant LaidOut(freqs, numSyms, numTables, inputSize, t, lo, hi, symLeft, freqRemaining)
    {
      var chunk := NextChunk(freqs, numSyms, numTables, t, symLeft, freqRemaining);
      if chunk.None? {
        LaidOutFails(freqs, numSyms, numTables, inputSize, t, lo, hi, symLeft, freqRemaining);
        return None, lo, hi;
      }
      var (symRight, freqAcc) := chunk.value;
      LaidOutNext(freqs, numSyms, numTables, inputSize, t, lo, hi, symLeft, freqRemaining, symRight, freqAcc);
      var table := ChunkTable(numSyms, symLeft, symRight);
      ChunkBoundsSnoc(lo, hi, |freqs|, symLeft, symRight);
      ChunkLengthsSnoc(tables, numSyms, lo, hi, table, symLeft, symRight);
      if freqAcc > freqRemaining {
        return None, lo + [symLeft], hi + [symRight];
      }
      tables := tables + [table];
      lo, hi := lo + [symLeft], hi + [symRight];
      symLeft := symRight + 1;
      freqRemaining := freqRemaining - freqAcc;
    }
    LaidOutEnd(freqs, numSyms, numTables, inputSize, lo, hi, symLeft, freqRemaining);
    r := Some(tables);
  }

  /** The summed frequency of a range splits at any symbol inside it. */
  lemma {:induction false} SumSplit(freqs: seq<nat>, a: nat, b: nat, c: nat)
    requires a <= b <= c <= |freqs|
    ensures SumRange(freqs, a, c) == SumRange(freqs, a, b) + SumRange(freqs, b, c)
    decreases c - b
  {
    if b < c {
      SumSplit(freqs, a, b, c - 1);
    }
  }

  /**
   * Two tables can always be laid out over frequencies that sum to the
   * input size and give the last symbol (EOB) frequency 1: the first chunk
   * reaches half the input by the second-last symbol, the second chunk
   * stops by the last symbol, and neither takes more than is left.
   */
  lemma TwoTablesLaidOut(freqs: seq<nat>, numSyms: nat, inputSize: nat)
    requires 2 <= numSyms <= |freqs|
    requires SumRange(freqs, 0, numSyms) == inputSize && freqs[numSyms - 1] == 1
    ensures InitialOk(freqs, numSyms, 2, inputSize)
  {
    SumSplit(freqs, 0, numSyms - 1, numSyms);
    assert SumRange(freqs, numSyms - 1, numSyms) == 1;
    ScanStopsBy(freqs, numSyms, 0, inputSize / 2, 0, numSyms - 2);
    assert !GivesBack(0, 2) && !GivesBack(1, 2);
    var (r0, a0) := ScanFrom(freqs, numSyms, 0, inputSize / 2, 0).value;
    assert Chunk(freqs, numSyms, 2, 0, 0, inputSize) == Some((r0, a0));
    SumSplit(freqs, 0, r0 + 1, numSyms);
    var rest: nat := inputSize - a0;
    assert rest == SumRange(freqs, r0 + 1, numSyms);
    ScanStopsBy(freqs, numSyms, r0 + 1, rest / 1, r0 + 1, numSyms - 1);
    var (r1, a1) := ScanFrom(freqs, numSyms, r0 + 1, rest / 1, r0 + 1).value;
    assert Chunk(freqs, numSyms, 2, 1, r0 + 1, rest) == Some((r1, a1));
    SumSplit(freqs, r0 + 1, r1 + 1, numSyms);
    assert a1 <= rest;
    assert Layout(freqs, numSyms, 2, 2, r1 + 1, rest - a1).Some?;
    LayoutStep(freqs, numSyms, 2, 1, r0 + 1, rest, r1, a1);
    LayoutStep(freqs, numSyms, 2, 0, 0, inputSize, r0, a0);
  }

  /** The number of symbols of `xs` below `n`. */
  function CountBelow(xs: seq<nat>, n: nat): (c: nat)
    ensures c <= |xs|
  {
    if xs == [] then 0 else CountBelow(xs[..|xs| - 1], n) + (if xs[|xs| - 1] < n then 1 else 0)
  }

  /** The symbols below n + 1 are those below n and the occurrences of n. */
  lemma {:induction false} CountBelowNext(xs: seq<nat>, n: nat)
    ensures CountBelow(xs, n + 1) == CountBelow(xs, n) + Count(xs, n)
  {
    if xs != [] {
      CountBelowNext(xs[..|xs| - 1], n);
    }
  }

  /** No symbol is below 0. */
  lemma {:induction false} CountBelowZero(xs: seq<nat>)
    ensures CountBelow(xs, 0) == 0
  {
    if xs != [] {
      CountBelowZero(xs[..|xs| - 1]);
    }
  }

  /** Symbols all below `n` are all counted. */
  lemma {:induction false} CountBelowAll(xs: seq<nat>, n: nat)
    requires forall k :: 0 <= k < |xs| ==> xs[k] < n
    ensures CountBelow(xs, n) == |xs|
  {
    if xs != [] {
      CountBelowAll(xs[..|xs| - 1], n);
    }
  }

  /** Frequencies that count the symbols of `xs` sum, over the first `n`, to the symbols below `n`. */
  lemma {:induction false} SumCounts(freqs: seq<nat>, xs: seq<nat>, n: nat)
    requires n <= |freqs| && forall s: nat :: s < n ==> freqs[s] == Count(xs, s)
    ensures SumRange(freqs, 0, n) == CountBelow(xs, n)
  {
    if n == 0 {
      CountBelowZero(xs);
    } else {
      SumCounts(freqs, xs, n - 1);
      CountBelowNext(xs, n - 1);
    }
  }

  /**
   * The frequencies of a block's symbols, which end in EOB (the last
   * symbol) and have it nowhere else, always lay out two initial tables.
   */
  lemma BlockLaidOut(freqs: seq<nat>, numSyms: nat, input: seq<nat>)
    requires 2 <= numSyms <= |freqs| && |input| > 0
    requires forall s: nat :: s < numSyms ==> freqs[s] == multiset(input)[s]
    requires input[|input| - 1] == numSyms - 1 && forall k :: 0 <= k < |input| - 1 ==> input[k] < numSyms - 1
    ensures InitialOk(freqs, numSyms, 2, |input|)
  {
    forall s: nat | s < numSyms
      ensures freqs[s] == Count(input, s)
    {
      CountMultiset(input, s);
    }
    SumCounts(freqs, input, numSyms);
    CountBelowAll(input, numSyms);
    var init, eob: nat := input[..|input| - 1], numSyms - 1;
    assert eob !in init by {
      forall k | 0 <= k < |init|
        ensures init[k] != eob
      {
        assert init[k] == input[k];
      }
    }
    CountAbsent(init, eob);
    assert input == init + [eob];
    TwoTablesLaidOut(freqs, numSyms, |input|);
  }

  // ----- segments and their costs -----

  /** The number of segments of a block of `n` symbols, the last one possibly short. */
  function NumSegments(n: nat): nat
  {
    (n + SegmentWidth - 1) / SegmentWidth
  }

  /** Segment `k`: the symbols `50k .. 50k + 49`, cut at the end of the block. */
  function Segment(input: seq<nat>, k: nat): (seg: seq<nat>)
    requires SegmentWidth * k < |input|
    ensures 0 < |seg| <= SegmentWidth
  {
    var left := SegmentWidth * k;
    var right := if left + SegmentWidth - 1 >= |input| then |input| - 1 else left + SegmentWidth - 1;
    input[left..right + 1]
  }

  /** Every symbol has a length in every table. */
  predicate Covers(tables: seq<seq<nat>>, numSyms: nat, input: seq<nat>)
  {
    (forall t :: 0 <= t < |tables| ==> |tables[t]| == numSyms) &&
    forall k :: 0 <= k < |input| ==> input[k] < numSyms
  }

  /** Every length of every table fits a u8. */
  predicate Small(tables: seq<seq<nat>>)
  {
    forall t, s :: 0 <= t < |tables| && 0 <= s < |tables[t]| ==> tables[t][s] < 0x100
  }

  /** The bits `seg` takes under `table`: the sum of its symbols' lengths. */
  function Cost(table: seq<nat>, seg: seq<nat>): nat
    requires forall k :: 0 <= k < |seg| ==> seg[k] < |table|
  {
    if seg == [] then 0 else Cost(table, seg[..|seg| - 1]) + table[seg[|seg| - 1]]
  }

  /** A segment of at most 50 symbols costs less than usize::MAX under a table of u8 lengths. */
  lemma {:induction false} CostBound(table: seq<nat>, seg: seq<nat>)
    requires forall k :: 0 <= k < |seg| ==> seg[k] < |table|
    requires forall s :: 0 <= s < |table| ==> table[s] < 0x100
    ensures Cost(table, seg) <= 0xFF * |seg|
  {
    if seg != [] {
      CostBound(table, seg[..|seg| - 1]);
    }
  }

  /** Table `b` is the cheapest for `seg`, and the first of the cheapest. */
  ghost predicate IsBest(tables: seq<seq<nat>>, numSyms: nat, seg: seq<nat>, b: nat)
    requires Covers(tables, numSyms, seg)
  {
    b < |tables| &&
    (forall t :: 0 <= t < |tables| ==> Cost(tables[b], seg) <= Cost(tables[t], seg)) &&
    forall t :: 0 <= t < b ==> Cost(tables[b], seg) < Cost(tables[t], seg)
  }

  /** There is only one first cheapest table. */
  lemma BestUnique(tables: seq<seq<nat>>, numSyms: nat, seg: seq<nat>, b1: nat, b2: nat)
    requires Covers(tables, numSyms, seg)
    requires IsBest(tables, numSyms, seg, b1) && IsBest(tables, numSyms, seg, b2)
    ensures b1 == b2
  {
    assert Cost(tables[b1], seg) <= Cost(tables[b2], seg);
    assert Cost(tables[b2], seg) <= Cost(tables[b1], seg);
  }

  /** The cost of a segment under one table, summed symbol by symbol. */
  method SegmentCost(table: seq<nat>, seg: seq<nat>) returns (cost: nat)
    requires forall k :: 0 <= k < |seg| ==> seg[k] < |table|
    ensures cost == Cost(table, seg)
  {
    cost := 0;
    for i := 0 to |seg|
      invariant cost == Cost(table, seg[..i])
    {
      assert seg[..i + 1][..i] == seg[..i];
      cost := cost + table[seg[i]];
    }
    assert seg[..|seg|] == seg;
  }

  /**
   * The table for a segment, as in lib/huffman.rs: each table's cost is
   * summed in turn and replaces the best so far only when strictly lower,
   * starting from usize::MAX, so the first of the cheapest wins.
   */
  method BestTable(tables: seq<seq<nat>>, numSyms: nat, seg: seq<nat>) returns (best: nat)
    requires |tables| > 0 && Covers(tables, numSyms, seg) && Small(tables) && |seg| <= SegmentWidth
    ensures IsBest(tables, numSyms, seg, best)
  {
    best := 0;
    var bestCost := UsizeMax;
    for t := 0 to |tables|
      invariant t == 0 ==> best == 0 && bestCost == UsizeMax
      invariant t > 0 ==> best < t && bestCost == Cost(tables[best], seg)
      invariant forall u :: 0 <= u < t ==> bestCost <= Cost(tables[u], seg)
      invariant forall u :: 0 <= u < best ==> bestCost < Cost(tables[u], seg)
    {
      var cost := SegmentCost(tables[t], seg);
      CostBound(tables[t], seg);
      if cost < bestCost {
        best := t;
        bestCost := cost;
      }
    }
  }

  /**
   * The costs of a segment under every table, as src/huffman.rs sums them:
   * symbol by symbol, each symbol's length added to every table's total.
   */
  method SumLens(tables: seq<seq<nat>>, numSyms: nat, seg: seq<nat>) returns (lens: seq<nat>)
    requires Covers(tables, numSyms, seg)
    ensures |lens| == |tables| && forall t :: 0 <= t < |tables| ==> lens[t] == Cost(tables[t], seg)
  {
    lens := Rep(0, |tables|);
    for i := 0 to |seg|
      invariant |lens| == |tables| && forall t :: 0 <= t < |tables| ==> lens[t] == Cost(tables[t], seg[..i])
    {
      assert seg[..i + 1][..i] == seg[..i];
      for t := 0 to |tables|
        invariant |lens| == |tables|
        invariant forall u :: 0 <= u < t ==> lens[u] == Cost(tables[u], seg[..i + 1])
        invariant forall u :: t <= u < |tables| ==> lens[u] == Cost(tables[u], seg[..i])
      {
        lens := lens[t := lens[t] + tables[t][seg[i]]];
      }
    }
    assert seg[..|seg|] == seg;
  }

  /**
   * The table for a segment, as in src/huffman.rs: the totals of SumLens,
   * then the first strictly lowest, starting from usize::MAX. It picks the
   * same table as BestTable.
   */
  method BestTableSrc(tables: seq<seq<nat>>, numSyms: nat, seg: seq<nat>) returns (best: nat)
    requires |tables| > 0 && Covers(tables, numSyms, seg) && Small(tables) && |seg| <= SegmentWidth
    ensures IsBest(tables, numSyms, seg, best)
  {
    var lens := SumLens(tables, numSyms, seg);
    best := 0;
    var bestLen := UsizeMax;
    for t := 0 to |tables|
      invariant t == 0 ==> best == 0 && bestLen == UsizeMax
      invariant t > 0 ==> best < t && bestLen == Cost(tables[best], seg)
      invariant forall u :: 0 <= u < t ==> bestLen <= Cost(tables[u], seg)
      invariant forall u :: 0 <= u < best ==> bestLen < Cost(tables[u], seg)
    {
      CostBound(tables[t], seg);
      if lens[t] < bestLen {
        best := t;
        bestLen := lens[t];
      }
    }
  }

  // ----- a round of selection -----

  /**
   * The frequencies segments `0 .. k - 1` credit to table `t` for symbol
   * `s`: the occurrences of `s` in each segment whose choice is `t`.
   */
  function Tally(input: seq<nat>, choices: seq<nat>, t: nat, s: nat, k: nat): nat
    requires k <= |choices| && (k == 0 || SegmentWidth * (k - 1) < |input|)
  {
    if k == 0 then 0
    else Tally(input, choices, t, s, k - 1) + (if choices[k - 1] == t then Count(Segment(input, k - 1), s) else 0)
  }

  /** Only the choices of the segments counted matter. */
  lemma {:induction false} TallyPrefix(input: seq<nat>, choices: seq<nat>, b: nat, t: nat, s: nat, k: nat)
    requires k <= |choices| && (k == 0 || SegmentWidth * (k - 1) < |input|)
    ensures Tally(input, choices + [b], t, s, k) == Tally(input, choices, t, s, k)
  {
    if k > 0 {
      TallyPrefix(input, choices, b, t, s, k - 1);
      assert (choices + [b])[k - 1] == choices[k - 1];
    }
  }

  /** `tf'` is `tf` with the symbols of every segment so far credited to the table chosen for it. */
  ghost predicate Credited(tf': seq<seq<nat>>, tf: seq<seq<nat>>, input: seq<nat>, choices: seq<nat>)
  {
    (|choices| == 0 || SegmentWidth * (|choices| - 1) < |input|) &&
    |tf'| == |tf| &&
    forall t :: 0 <= t < |tf| ==>
      |tf'[t]| == |tf[t]| &&
      forall s: nat :: 0 <= s < |tf[t]| ==> tf'[t][s] == tf[t][s] + Tally(input, choices, t, s, |choices|)
  }

  /**
   * `tf'` is `tf` with the symbols of `part` credited to table `b`, every
   * other table left as it was.
   */
  ghost predicate CreditedTo(tf': seq<seq<nat>>, tf: seq<seq<nat>>, b: nat, part: seq<nat>, numSyms: nat)
  {
    |tf'| == |tf| && b < |tf| &&
    (forall t :: 0 <= t < |tf| && t != b ==> tf'[t] == tf[t]) &&
    |tf'[b]| == numSyms && |tf[b]| == numSyms &&
    forall s: nat :: s < numSyms ==> tf'[b][s] == tf[b][s] + Count(part, s)
  }

  /** Crediting the next segment to the table chosen for it keeps the frequencies Credited. */
  lemma CreditedSnoc(tf2: seq<seq<nat>>, tf1: seq<seq<nat>>, tf: seq<seq<nat>>, input: seq<nat>,
                     choices: seq<nat>, b: nat, numSyms: nat)
    requires Credited(tf1, tf, input, choices) && SegmentWidth * |choices| < |input|
    requires forall t :: 0 <= t < |tf1| ==> |tf1[t]| == numSyms
    requires CreditedTo(tf2, tf1, b, Segment(input, |choices|), numSyms)
    ensures Credited(tf2, tf, input, choices + [b])
  {
    var k := |choices|;
    var choices' := choices + [b];
    assert choices'[k] == b;
    forall t | 0 <= t < |tf|
      ensures |tf2[t]| == |tf[t]|
      ensures forall s: nat :: 0 <= s < |tf[t]| ==> tf2[t][s] == tf[t][s] + Tally(input, choices', t, s, k + 1)
    {
      forall s: nat | 0 <= s < |tf[t]|
        ensures tf2[t][s] == tf[t][s] + Tally(input, choices', t, s, k + 1)
      {
        TallyPrefix(input, choices, b, t, s, k);
        assert Tally(input, choices', t, s, k + 1) ==
          Tally(input, choices', t, s, k) + (if b == t then Count(Segment(input, k), s) else 0);
      }
    }
  }

  /** The symbols of `seg` are credited to table `b`, one at a time. */
  method Credit(tf: seq<seq<nat>>, b: nat, seg: seq<nat>, numSyms: nat) returns (tf': seq<seq<nat>>)
    requires b < |tf| && (forall t :: 0 <= t < |tf| ==> |tf[t]| == numSyms)
    requires forall k :: 0 <= k < |seg| ==> seg[k] < numSyms
    ensures CreditedTo(tf', tf, b, seg, numSyms)
  {
    tf' := tf;
    assert forall s: nat :: Count(seg[..0], s) == 0;
    var i := 0;
    while i < |seg|
      invariant i <= |seg|
      invariant CreditedTo(tf', tf, b, seg[..i], numSyms)
    {
      var x := seg[i];
      assert seg[..i + 1] == seg[..i] + [x];
      tf' := tf'[b := tf'[b][x := tf'[b][x] + 1]];
      i := i + 1;
    }
    assert seg[..i] == seg;
  }

  /** The number of segments is the `k` with `50(k - 1) < n <= 50k`. */
  lemma SegmentsEnd(n: nat, k: nat)
    requires k > 0 && SegmentWidth * (k - 1) < n <= SegmentWidth * k
    ensures NumSegments(n) == k
  {
    DivUnique(n + SegmentWidth - 1, SegmentWidth, k, n + SegmentWidth - 1 - SegmentWidth * k);
  }

  /**
   * The table for segment `k`, with the sums of src/huffman.rs when
   * `sumLens` and of lib/huffman.rs otherwise, and the segment's symbols
   * credited to it.
   */
  method ChooseAndCredit(input: seq<nat>, tables: seq<seq<nat>>, numSyms: nat, tf: seq<seq<nat>>, ghost k: nat,
                         left: nat, sumLens: bool)
    returns (tf': seq<seq<nat>>, best: nat, right: nat)
    requires |tables| > 0 && Covers(tables, numSyms, input) && Small(tables)
    requires |tf| == |tables| && forall t :: 0 <= t < |tf| ==> |tf[t]| == numSyms
    requires left == SegmentWidth * k < |input|
    ensures IsBest(tables, numSyms, Segment(input, k), best)
    ensures right + 1 == left + |Segment(input, k)|
    ensures CreditedTo(tf', tf, best, Segment(input, k), numSyms)
  {
    right := left + SegmentWidth - 1;
    if right >= |input| {
      right := |input| - 1;
    }
    var seg := input[left..right + 1];
    assert seg == Segment(input, k);
    if sumLens {
      best := BestTableSrc(tables, numSyms, seg);
    } else {
      best := BestTable(tables, numSyms, seg);
    }
    tf' := Credit(tf, best, seg, numSyms);
  }

  /**
   * One round over the segments: each picks the first cheapest table
   * and credits its symbols to it; the picks are pushed to the selectors
   * only in the `final` round.
   */
  method Pass(input: seq<nat>, tables: seq<seq<nat>>, numSyms: nat, tf: seq<seq<nat>>, final: bool, sumLens: bool)
    returns (tf': seq<seq<nat>>, selectors: seq<nat>, ghost choices: seq<nat>)
    requires |input| > 0 && |tables| > 0 && Covers(tables, numSyms, input) && Small(tables)
    requires |tf| == |tables| && forall t :: 0 <= t < |tf| ==> |tf[t]| == numSyms
    ensures |choices| == NumSegments(|input|)
    ensures forall k :: 0 <= k < |choices| ==> IsBest(tables, numSyms, Segment(input, k), choices[k])
    ensures Credited(tf', tf, input, choices)
    ensures forall t :: 0 <= t < |tf'| ==> |tf'[t]| == numSyms
    ensures selectors == if final then choices else []
  {
    tf' := tf;
    selectors, choices := [], [];
    var left := 0;
    while true
      invariant left == SegmentWidth * |choices| < |input|
      invariant forall k :: 0 <= k < |choices| ==> IsBest(tables, numSyms, Segment(input, k), choices[k])
      invariant Credited(tf', tf, input, choices)
      invariant |tf'| == |tf| && forall t :: 0 <= t < |tf'| ==> |tf'[t]| == numSyms
      invariant selectors == if final then choices else []
      decreases |input| - left
    {
      var tf2, best, right := ChooseAndCredit(input, tables, numSyms, tf', |choices|, left, sumLens);
      CreditedSnoc(tf2, tf', tf, input, choices, best, numSyms);
      tf' := tf2;
      if final {
        selectors := selectors + [best];
      }
      choices := choices + [best];
      left := right + 1;
      if left >= |input| {
        SegmentsEnd(|input|, |choices|);
        break;
      }
    }
  }

  // ----- the refinement rounds -----

  /** Every entry of every row set to zero, one at a time. */
  method ZeroRows(rows: seq<seq<nat>>, numSyms: nat) returns (r: seq<seq<nat>>)
    requires forall t :: 0 <= t < |rows| ==> |rows[t]| == numSyms
    ensures |r| == |rows| && forall t :: 0 <= t < |r| ==> r[t] == Rep(0, numSyms)
  {
    r := rows;
    for t := 0 to |r|
      invariant |r| == |rows|
      invariant forall u :: 0 <= u < t ==> r[u] == Rep(0, numSyms)
      invariant forall u :: t <= u < |r| ==> |r[u]| == numSyms
    {
      ghost var before := r;
      for s := 0 to numSyms
        invariant |r| == |rows| && |r[t]| == numSyms
        invariant forall x :: 0 <= x < s ==> r[t][x] == 0
        invariant forall u :: 0 <= u < |r| && u != t ==> r[u] == before[u]
      {
        r := r[t := r[t][s := 0]];
      }
      assert r[t] == Rep(0, numSyms);
    }
  }

  /**
   * Every table rebuilt from its credited frequencies; None when one of
   * them cannot be, which takes an alphabet of more than 258 symbols.
   */
  method Rebuild(numSyms: nat, tf: seq<seq<nat>>) returns (r: Option<seq<seq<nat>>>)
    requires numSyms >= 2 && forall t :: 0 <= t < |tf| ==> |tf[t]| == numSyms
    ensures r.Some? ==>
      |r.value| == |tf| && forall t :: 0 <= t < |tf| ==> |r.value[t]| == numSyms && Usable(r.value[t])
    ensures numSyms <= 258 ==> r.Some?
  {
    var tables := [];
    for t := 0 to |tf|
      invariant |tables| == t
      invariant forall u :: 0 <= u < t ==> |tables[u]| == numSyms && Usable(tables[u])
    {
      var table;
      ghost var scaling;
      table, scaling := BuildTable(numSyms, tf[t]);
      if table.None? {
        return None;
      }
      tables := tables + [table.value];
    }
    r := Some(tables);
  }

  /** A usable table has every length between 1 and 17, so it fits a u8. */
  lemma UsableSmall(tables: seq<seq<nat>>)
    requires forall t :: 0 <= t < |tables| ==> Usable(tables[t])
    ensures Small(tables)
    ensures forall t, s :: 0 <= t < |tables| && 0 <= s < |tables[t]| ==> 1 <= tables[t][s] <= CodewordMaxLen
  {
    forall t, s | 0 <= t < |tables| && 0 <= s < |tables[t]|
      ensures 1 <= tables[t][s] <= CodewordMaxLen
    {
      var maxLen: nat :| maxLen <= CodewordMaxLen && HuffmanTree.Complete(tables[t], maxLen);
    }
  }

  /** `selectors` names, for every segment, the first cheapest of `tables`. */
  ghost predicate Picked(selectors: seq<nat>, tables: seq<seq<nat>>, numSyms: nat, input: seq<nat>)
  {
    Covers(tables, numSyms, input) &&
    |selectors| == NumSegments(|input|) &&
    forall k :: 0 <= k < |selectors| ==>
      SegmentWidth * k < |input| && IsBest(tables, numSyms, Segment(input, k), selectors[k])
  }

  /**
   * The four rounds as src/huffman.rs runs them: before each round the
   * frequencies are reset, every segment picks its table and credits it,
   * and every table is rebuilt from its frequencies. The selectors are the
   * picks of the last round, made with the tables `last` it started from;
   * the tables are those rebuilt after it. None when a table cannot be
   * rebuilt, which never happens for up to 258 symbols.
   */
  method Refine(input: seq<nat>, numSyms: nat, tables0: seq<seq<nat>>, sumLens: bool)
    returns (r: Option<(seq<seq<nat>>, seq<nat>)>, ghost last: seq<seq<nat>>)
    requires |input| > 0 && |tables0| > 0 && numSyms >= 2
    requires Covers(tables0, numSyms, input) && Small(tables0)
    ensures r.Some? ==>
      |r.value.0| == |tables0| && (forall t :: 0 <= t < |tables0| ==> |r.value.0[t]| == numSyms && Usable(r.value.0[t]))
    ensures r.Some? ==> |last| == |tables0| && Picked(r.value.1, last, numSyms, input)
    ensures numSyms <= 258 ==> r.Some?
  {
    var tables := tables0;
    var tf := Rep(Rep(0, numSyms), |tables|);
    var selectors := [];
    last := tables;
    for it := 0 to NumRefinements
      invariant |tables| == |tables0| && Covers(tables, numSyms, input) && Small(tables)
      invariant |tf| == |tables| && forall t :: 0 <= t < |tf| ==> |tf[t]| == numSyms
      invariant it > 0 ==> forall t :: 0 <= t < |tables| ==> Usable(tables[t])
      invariant it == NumRefinements ==> |last| == |tables0| && Picked(selectors, last, numSyms, input)
    {
      var final := it == NumRefinements - 1;
      tf := ZeroRows(tf, numSyms);
      var picks;
      ghost var choices;
      tf, picks, choices := Pass(input, tables, numSyms, tf, final, sumLens);
      if final {
        selectors, last := picks, tables;
      }
      var rebuilt := Rebuild(numSyms, tf);
      if rebuilt.None? {
        return None, last;
      }
      tables := rebuilt.value;
      UsableSmall(tables);
    }
    r := Some((tables, selectors));
  }

  /** Under a table of zero lengths every segment costs nothing. */
  lemma {:induction false} CostZero(table: seq<nat>, seg: seq<nat>)
    requires forall k :: 0 <= k < |seg| ==> seg[k] < |table|
    requires forall s :: 0 <= s < |table| ==> table[s] == 0
    ensures Cost(table, seg) == 0
  {
    if seg != [] {
      CostZero(table, seg[..|seg| - 1]);
    }
  }

  /** When every table has zero lengths, the first cheapest table is always table 0. */
  lemma ZeroBest(tables: seq<seq<nat>>, numSyms: nat, seg: seq<nat>, b: nat)
    requires Covers(tables, numSyms, seg) && forall t :: 0 <= t < |tables| ==> tables[t] == Rep(0, numSyms)
    requires IsBest(tables, numSyms, seg, b)
    ensures b == 0
  {
    CostZero(tables[b], seg);
    CostZero(tables[0], seg);
  }

  /**
   * The four rounds as lib/huffman.rs runs them. The frequencies are set
   * to zero once, before the first round, and from the second round on it
   * is the tables' lengths that are set to zero. Every segment of those
   * rounds then costs nothing under every table and picks table 0, so the
   * selectors are all 0.
   */
  method RefineAsWritten(input: seq<nat>, numSyms: nat, tables0: seq<seq<nat>>)
    returns (r: Option<(seq<seq<nat>>, seq<nat>)>)
    requires |input| > 0 && |tables0| > 0 && numSyms >= 2
    requires Covers(tables0, numSyms, input) && Small(tables0)
    ensures r.Some? ==>
      |r.value.0| == |tables0| && (forall t :: 0 <= t < |tables0| ==> |r.value.0[t]| == numSyms && Usable(r.value.0[t]))
    ensures r.Some? ==> |r.value.1| == NumSegments(|input|) && forall k :: 0 <= k < |r.value.1| ==> r.value.1[k] == 0
    ensures numSyms <= 258 ==> r.Some?
  {
    var tables := tables0;
    var tf := Rep(Rep(0, numSyms), |tables|);
    var selectors := [];
    for it := 0 to NumRefinements
      invariant |tables| == |tables0| && Covers(tables, numSyms, input) && Small(tables)
      invariant |tf| == |tables| && forall t :: 0 <= t < |tf| ==> |tf[t]| == numSyms
      invariant it > 0 ==> forall t :: 0 <= t < |tables| ==> Usable(tables[t])
      invariant it == NumRefinements ==>
        |selectors| == NumSegments(|input|) && forall k :: 0 <= k < |selectors| ==> selectors[k] == 0
    {
      var final := it == NumRefinements - 1;
      if it != 0 {
        tables := ZeroRows(tables, numSyms);
      }
      var picks;
      ghost var choices;
      tf, picks, choices := Pass(input, tables, numSyms, tf, final, false);
      if final {
        forall k | 0 <= k < |picks|
          ensures picks[k] == 0
        {
          ZeroBest(tables, numSyms, Segment(input, k), picks[k]);
        }
        selectors := picks;
      }
      var rebuilt := Rebuild(numSyms, tf);
      if rebuilt.None? {
        return None;
      }
      tables := rebuilt.value;
      UsableSmall(tables);
    }
    r := Some((tables, selectors));
  }
}
