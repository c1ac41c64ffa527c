/**
 * The Huffman stage of a block as encode in lib/huffman.rs and
 * src/huffman.rs runs it: the tables are set up and refined, then the
 * number of tables, the number of selectors, the selectors, the tables'
 * lengths and the coded symbols are written one after the other. A decoder
 * that reads the five fields back is given with the round trip: decoding
 * what encode wrote gives back the selectors, the tables and the symbols.
 */
module HuffmanEncode {
  import opened Bytes
  import opened BitWriter
  import Seqs
  import MtfSpec
  import HuffmanBuild
  import HuffmanCodes
  import HuffmanSelect
  import HuffmanSelectors
  import HuffmanLengths
  import HuffmanSymbols

  /** The coded lengths of the tables from `k` on. */
  function TablesFrom(tables: seq<seq<nat>>, k: nat): seq<bool>
    requires k <= |tables| && forall t :: 0 <= t < |tables| ==> |tables[t]| > 0
    decreases |tables| - k
  {
    if k == |tables| then [] else HuffmanLengths.TableBits(tables[k]) + TablesFrom(tables, k + 1)
  }

  /** `n` tables of `numSyms` lengths each read back. */
  function DecodeTables(bits: seq<bool>, n: nat, numSyms: nat): Option<(seq<seq<nat>>, seq<bool>)>
    decreases n
  {
    if n == 0 then Some(([], bits))
    else match HuffmanLengths.DecodeTable(bits, numSyms)
      case None => None
      case Some((table, tail)) =>
        match DecodeTables(tail, n - 1, numSyms)
          case None => None
          case Some((ts, rest)) => Some(([table] + ts, rest))
  }

  /** Every table has `numSyms` lengths, the first of which fits 5 bits. */
  predicate Shaped(tables: seq<seq<nat>>, numSyms: nat)
  {
    numSyms > 0 && forall t :: 0 <= t < |tables| ==> |tables[t]| == numSyms && tables[t][0] < 32
  }

  /** Decoding the coded lengths of the tables from `k` on gives those tables back, and the bits after them. */
  lemma {:induction false} TablesRoundTrip(tables: seq<seq<nat>>, numSyms: nat, k: nat, rest: seq<bool>)
    requires k <= |tables| && Shaped(tables, numSyms)
    ensures DecodeTables(TablesFrom(tables, k) + rest, |tables| - k, numSyms) == Some((tables[k..], rest))
    decreases |tables| - k
  {
    if k == |tables| {
      assert TablesFrom(tables, k) + rest == rest;
    } else {
      var tail := TablesFrom(tables, k + 1) + rest;
      Seqs.Assoc(HuffmanLengths.TableBits(tables[k]), TablesFrom(tables, k + 1), rest);
      HuffmanLengths.TableRoundTrip(tables[k], tail);
      TablesRoundTrip(tables, numSyms, k + 1, rest);
      assert [tables[k]] + tables[k + 1..] == tables[k..];
    }
  }

  /** Usable tables have their lengths between 1 and 17. */
  lemma UsableShaped(tables: seq<seq<nat>>, numSyms: nat)
    requires numSyms > 0 && HuffmanSymbols.AllUsable(tables)
    requires forall t :: 0 <= t < |tables| ==> |tables[t]| == numSyms
    ensures Shaped(tables, numSyms)
    ensures forall t, s :: 0 <= t < |tables| && 0 <= s < |tables[t]| ==> 1 <= tables[t][s] <= HuffmanBuild.CodewordMaxLen
  {
    HuffmanSelect.UsableSmall(tables);
  }

  /** The codings of the first `k` tables are in place. */
  lemma CodedSnoc(codings: seq<seq<(nat, nat)>>, tables: seq<seq<nat>>, k: nat, coding: seq<(nat, nat)>)
    requires k < |tables| && HuffmanSymbols.Coded(codings, tables[..k])
    requires |coding| == |tables[k]|
    requires forall s :: 0 <= s < |tables[k]| ==> coding[s] == (tables[k][s], HuffmanCodes.Code(tables[k], s))
    ensures HuffmanSymbols.Coded(codings + [coding], tables[..k + 1])
  {
    assert tables[..k + 1] == tables[..k] + [tables[k]];
  }

  /** Table `k`'s lengths are written, and its codewords made from its smallest and largest length. */
  method WriteTableAt(out: OutputStream, tables: seq<seq<nat>>, numSyms: nat, k: nat, codings: seq<seq<(nat, nat)>>)
    returns (codings': seq<seq<(nat, nat)>>)
    requires out.Valid() && k < |tables| && Shaped(tables, numSyms)
    requires forall t, s :: 0 <= t < |tables| && 0 <= s < |tables[t]| ==> tables[t][s] < 0x100
    requires HuffmanSymbols.Coded(codings, tables[..k])
    modifies out
    ensures out.Valid() && HuffmanSymbols.Coded(codings', tables[..k + 1])
    ensures out.Bits() + TablesFrom(tables, k + 1) == old(out.Bits()) + TablesFrom(tables, k)
  {
    var minLen, maxLen := HuffmanLengths.WriteTable(out, tables[k]);
    var coding := HuffmanCodes.Codewords(tables[k], minLen, maxLen);
    CodedSnoc(codings, tables, k, coding);
    codings' := codings + [coding];
    Seqs.Assoc(old(out.Bits()), HuffmanLengths.TableBits(tables[k]), TablesFrom(tables, k + 1));
  }

  /** The coded lengths of every table, in order; the codings of all tables are returned. */
  method WriteTables(out: OutputStream, tables: seq<seq<nat>>, numSyms: nat) returns (codings: seq<seq<(nat, nat)>>)
    requires out.Valid() && numSyms > 0 && HuffmanSymbols.AllUsable(tables)
    requires forall t :: 0 <= t < |tables| ==> |tables[t]| == numSyms
    modifies out
    ensures out.Valid() && out.Bits() == old(out.Bits()) + TablesFrom(tables, 0)
    ensures HuffmanSymbols.Coded(codings, tables)
  {
    UsableShaped(tables, numSyms);
    ghost var start := out.Bits();
    codings := [];
    for k := 0 to |tables|
      invariant out.Valid() && HuffmanSymbols.Coded(codings, tables[..k])
      invariant out.Bits() + TablesFrom(tables, k) == start + TablesFrom(tables, 0)
    {
      codings := WriteTableAt(out, tables, numSyms, k, codings);
    }
    assert tables[..|tables|] == tables;
  }

  /** The selectors, tables and symbols of a block's Huffman stage. */
  datatype Stage = Stage(selectors: seq<nat>, tables: seq<seq<nat>>, symbols: seq<nat>)

  /** Every selector names a table, and every symbol has a length in the table of its segment. */
  predicate Framed(selectors: seq<nat>, tables: seq<seq<nat>>, input: seq<nat>)
  {
    |tables| < 8 && (forall t :: 0 <= t < |tables| ==> |tables[t]| > 0) &&
    (forall k :: 0 <= k < |selectors| ==> selectors[k] < |tables|) &&
    HuffmanSymbols.Selects(input, selectors, tables)
  }

  /**
   * The Huffman stage of a block: the number of tables on 3 bits, the
   * number of selectors on 15, the selector field, the coded lengths of the
   * tables, then the coded symbols.
   */
  function BlockBits(selectors: seq<nat>, tables: seq<seq<nat>>, input: seq<nat>): seq<bool>
    requires Framed(selectors, tables, input)
  {
    BitsOf(|tables|, 3) +
    (BitsOf(|selectors|, 15) +
     (HuffmanSelectors.SelectorField(|tables|, selectors) +
      (TablesFrom(tables, 0) + HuffmanSymbols.SymbolsFrom(input, selectors, tables, 0))))
  }

  /** The Huffman stage of a block of `n` symbols over `numSyms` read back. */
  function DecodeBlock(bits: seq<bool>, numSyms: nat, n: nat): Option<(Stage, seq<bool>)>
  {
    if |bits| < 18 then None
    else
      var numTables := ValueOf(bits[..3]);
      var numSelectors := ValueOf(bits[3..18]);
      match HuffmanSelectors.DecodeSelectors(MtfSpec.Iota(numTables), bits[18..], numSelectors)
      case None => None
      case Some((sels, b1)) =>
        match DecodeTables(b1, numTables, numSyms)
        case None => None
        case Some((tables, b2)) =>
          match HuffmanSymbols.DecodeSymbols(b2, sels, tables, 0, n)
          case None => None
          case Some((syms, rest)) => Some((Stage(sels, tables, syms), rest))
  }

  /** A number below 2^k is read back from its `k` bits. */
  lemma ValueOfSmall(v: nat, k: nat)
    requires v < Pow2(k)
    ensures ValueOf(BitsOf(v, k)) == v
  {
    ValueOfBitsOf(v, k);
    ModUnique(v, Pow2(k), 0, v);
  }

  /** A block's tables are all usable, have `numSyms` lengths, and there are fewer than 2^15 selectors. */
  ghost predicate Built(selectors: seq<nat>, tables: seq<seq<nat>>, input: seq<nat>, numSyms: nat)
  {
    Framed(selectors, tables, input) && numSyms > 0 && |selectors| < Pow2(15) &&
    HuffmanSymbols.AllUsable(tables) && forall t :: 0 <= t < |tables| ==> |tables[t]| == numSyms
  }

  /** The coded tables and the coded symbols are read back in turn. */
  lemma PayloadRoundTrip(selectors: seq<nat>, tables: seq<seq<nat>>, input: seq<nat>, numSyms: nat, rest: seq<bool>,
                         s3: seq<bool>, s4: seq<bool>)
    requires Built(selectors, tables, input, numSyms)
    requires s4 == HuffmanSymbols.SymbolsFrom(input, selectors, tables, 0) + rest
    requires s3 == TablesFrom(tables, 0) + s4
    ensures DecodeTables(s3, |tables|, numSyms) == Some((tables, s4))
    ensures HuffmanSymbols.DecodeSymbols(s4, selectors, tables, 0, |input|) == Some((input, rest))
  {
    HuffmanSymbols.SymbolsRoundTrip(input, selectors, tables, 0, rest);
    assert input[0..] == input;
    UsableShaped(tables, numSyms);
    TablesRoundTrip(tables, numSyms, 0, s4);
    assert tables[0..] == tables;
  }

  /** The whole of a block's bits followed by `rest`, as its two counts followed by the rest of its fields. */
  lemma BlockSplit(selectors: seq<nat>, tables: seq<seq<nat>>, input: seq<nat>, rest: seq<bool>)
    requires Framed(selectors, tables, input)
    ensures var s2 := HuffmanSelectors.SelectorField(|tables|, selectors) +
      (TablesFrom(tables, 0) + (HuffmanSymbols.SymbolsFrom(input, selectors, tables, 0) + rest));
      var bits := BlockBits(selectors, tables, input) + rest;
      |bits| >= 18 && bits[..3] == BitsOf(|tables|, 3) && bits[3..18] == BitsOf(|selectors|, 15) && bits[18..] == s2
  {
    var f1 := BitsOf(|tables|, 3);
    var f2 := BitsOf(|selectors|, 15);
    var f3 := HuffmanSelectors.SelectorField(|tables|, selectors);
    var f4 := TablesFrom(tables, 0);
    var f5 := HuffmanSymbols.SymbolsFrom(input, selectors, tables, 0);
    Seqs.Assoc(f4, f5, rest);
    Seqs.Assoc(f3, f4 + f5, rest);
    Seqs.Assoc(f2, f3 + (f4 + f5), rest);
    Seqs.Assoc(f1, f2 + (f3 + (f4 + f5)), rest);
    var s0 := f1 + (f2 + (f3 + (f4 + (f5 + rest))));
    assert s0[..3] == f1 && s0[3..18] == f2;
  }

  /** Decoding the Huffman stage of a block gives back its selectors, tables and symbols, and the bits after it. */
  lemma BlockRoundTrip(selectors: seq<nat>, tables: seq<seq<nat>>, input: seq<nat>, numSyms: nat, rest: seq<bool>)
    requires Built(selectors, tables, input, numSyms)
    ensures DecodeBlock(BlockBits(selectors, tables, input) + rest, numSyms, |input|)
      == Some((Stage(selectors, tables, input), rest))
  {
    BlockSplit(selectors, tables, input, rest);
    var s4 := HuffmanSymbols.SymbolsFrom(input, selectors, tables, 0) + rest;
    var s3 := TablesFrom(tables, 0) + s4;
    PayloadRoundTrip(selectors, tables, input, numSyms, rest, s3, s4);
    HuffmanSelectors.SelectorFieldRoundTrip(|tables|, selectors, s3);
    assert ValueOf(BitsOf(|tables|, 3)) == |tables| by {
      Pow2Eight();
      assert Pow2(3) == 8;
      ValueOfSmall(|tables|, 3);
    }
    ValueOfSmall(|selectors|, 15);
  }

  /** Every symbol's segment has a selector naming a table, when the selectors are the picks of every segment. */
  lemma PickedSelects(selectors: seq<nat>, last: seq<seq<nat>>, tables: seq<seq<nat>>, numSyms: nat,
                      input: seq<nat>)
    requires HuffmanSelect.Picked(selectors, last, numSyms, input) && |last| == |tables|
    requires forall t :: 0 <= t < |tables| ==> |tables[t]| == numSyms
    ensures forall k :: 0 <= k < |selectors| ==> selectors[k] < |tables|
    ensures HuffmanSymbols.Selects(input, selectors, tables)
  {
    forall i | 0 <= i < |input|
      ensures i / HuffmanSelect.SegmentWidth < |selectors|
    {
      SegmentOf(|input|, i);
    }
  }

  /** Symbol `i` of a block of `n` falls in one of its segments. */
  lemma SegmentOf(n: nat, i: nat)
    requires i < n
    ensures i / HuffmanSelect.SegmentWidth < HuffmanSelect.NumSegments(n)
  {
  }

  /** The initial tables have a length for every symbol, each fitting a u8. */
  lemma ChunkedCovers(tables: seq<seq<nat>>, numSyms: nat, lo: seq<nat>, hi: seq<nat>, bound: nat, input: seq<nat>)
    requires HuffmanSelect.Chunked(tables, numSyms, lo, hi, bound)
    requires forall k :: 0 <= k < |input| ==> input[k] < numSyms
    ensures HuffmanSelect.Covers(tables, numSyms, input) && HuffmanSelect.Small(tables)
  {
  }

  /** The fields after the first are appended in order: the whole is the block's bits. */
  lemma Fields(o: seq<bool>, a: seq<bool>, b: seq<bool>, c: seq<bool>, d: seq<bool>, e: seq<bool>)
    ensures o + a + b + c + d + e == o + (a + (b + (c + (d + e))))
  {
    Seqs.Assoc(d, e, []);
    Seqs.Assoc(o + a + b + c, d, e);
    Seqs.Assoc(o + a + b, c, d + e);
    Seqs.Assoc(o + a, b, c + (d + e));
    Seqs.Assoc(o, a, b + (c + (d + e)));
  }

  /**
   * Every field of a block's Huffman stage, in order. With `src` the
   * selector count is written as a 7-bit and an 8-bit part, otherwise at
   * once.
   */
  method WriteBlock(out: OutputStream, input: seq<nat>, numSyms: nat, selectors: seq<nat>, tables: seq<seq<nat>>,
                    src: bool)
    requires out.Valid() && |input| > 0 && |tables| > 0 && Built(selectors, tables, input, numSyms)
    modifies out
    ensures out.Valid() && out.Bits() == old(out.Bits()) + BlockBits(selectors, tables, input)
  {
    HuffmanSelectors.WriteNumTables(out, |tables|);
    if src {
      HuffmanSelectors.WriteSelectorCountSrc(out, |selectors|);
    } else {
      HuffmanSelectors.WriteSelectorCount(out, |selectors|);
    }
    HuffmanSelectors.WriteSelectors(out, selectors, |tables|);
    var codings := WriteTables(out, tables, numSyms);
    HuffmanSymbols.WriteSymbols(out, input, selectors, codings, tables);
    Fields(old(out.Bits()), BitsOf(|tables|, 3), BitsOf(|selectors|, 15),
           HuffmanSelectors.SelectorField(|tables|, selectors),
           TablesFrom(tables, 0), HuffmanSymbols.SymbolsFrom(input, selectors, tables, 0));
  }

  /**
   * The Huffman stage of a block of symbols below `numSyms`, with the
   * symbol frequencies `freqs`. The tables are set up from the frequencies
   * and refined; then every field is written. With `src` the selector
   * costs are summed per table and the selector count is written as a
   * 7-bit and an 8-bit part, as src/huffman.rs does; without it the costs
   * are compared table by table and the count is written at once, as
   * lib/huffman.rs does. Both refine with the corrected rounds of
   * `HuffmanSelect.Refine` (frequencies reset before every round, tables
   * rebuilt by the rescaling `HuffmanBuild.BuildTable` over the heap that
   * stays a heap), not with the rounds either file has as written
   * (`HuffmanSelect.RefineAsWritten`, `HuffmanBuild.BuildTableAsWritten`,
   * `FreqQueue.FrequencyQueue.ExtractAsWritten`). For up to 258 symbols,
   * ok exactly when the initial tables can be laid out (where they cannot,
   * the source panics); every later table is then rebuilt. When
   * ok, the selectors are the first cheapest tables of every segment under
   * the tables of the last round, and the bits written decode back to the
   * selectors, the tables and the symbols.
   */
  method Encode(out: OutputStream, input: seq<nat>, numSyms: nat, freqs: seq<nat>, src: bool)
    returns (ok: bool, ghost selectors: seq<nat>, ghost tables: seq<seq<nat>>, ghost last: seq<seq<nat>>)
    requires out.Valid() && numSyms > 2 && |input| > 0
    requires forall k :: 0 <= k < |input| ==> input[k] < numSyms
    requires HuffmanSelect.NumSegments(|input|) < 0x8000
    modifies out
    ensures out.Valid()
    ensures numSyms <= 258 ==>
      (ok <==> HuffmanSelect.InitialOk(freqs, numSyms, HuffmanSelect.NumTables(numSyms), |input|))
    ensures ok ==> |tables| == HuffmanSelect.NumTables(numSyms) && Built(selectors, tables, input, numSyms)
    ensures ok ==> |last| == |tables| && HuffmanSelect.Picked(selectors, last, numSyms, input)
    ensures ok ==> out.Bits() == old(out.Bits()) + BlockBits(selectors, tables, input)
    ensures ok ==> (|out.Bits()| >= |old(out.Bits())| &&
      DecodeBlock(out.Bits()[|old(out.Bits())|..], numSyms, |input|) == Some((Stage(selectors, tables, input), [])))
  {
    var numTables := HuffmanSelect.NumTables(numSyms);
    var initial;
    ghost var lo, hi;
    initial, lo, hi := HuffmanSelect.InitialTables(numSyms, numTables, freqs, |input|);
    if initial.None? {
      return false, [], [], [];
    }
    ChunkedCovers(initial.value, numSyms, lo, hi, |freqs|, input);
    var refined;
    refined, last := HuffmanSelect.Refine(input, numSyms, initial.value, src);
    if refined.None? {
      return false, [], [], [];
    }
    var (ts, sels) := refined.value;
    PickedSelects(sels, last, ts, numSyms, input);
    assert Pow2(15) == 0x8000 by {
      Pow2Eight();
      Pow2Sum(8, 7, 15);
      assert Pow2(7) == 128;
    }
    ok, selectors, tables := true, sels, ts;
    ghost var start := out.Bits();
    WriteBlock(out, input, numSyms, sels, ts, src);
    BlockRoundTrip(selectors, tables, input, numSyms, []);
    assert BlockBits(selectors, tables, input) + [] == BlockBits(selectors, tables, input);
    assert out.Bits()[|start|..] == BlockBits(selectors, tables, input);
  }
}
