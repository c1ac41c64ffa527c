/**
 * The coded symbols of a block (the last loop of encode in lib/huffman.rs
 * and src/huffman.rs): every symbol is written with its canonical codeword
 * under the table its 50-symbol segment selected. A decoder that matches
 * codewords against the bits is given with the round trip: since no
 * codeword is a prefix of another, it finds each symbol back.
 */
module HuffmanSymbols {
  import opened Bytes
  import opened BitWriter
  import Seqs
  import HuffmanTree
  import HuffmanBuild
  import HuffmanCodes
  import HuffmanSelect

  /** The codeword of symbol `s` under `table`: its canonical code on its length's bits. */
  function Word(table: seq<nat>, s: nat): (w: seq<bool>)
    requires s < |table|
    ensures |w| == table[s]
  {
    BitsOf(HuffmanCodes.Code(table, s), table[s])
  }

  /** Every symbol's segment has a selector, naming a table in which the symbol has a length. */
  predicate Selects(input: seq<nat>, selectors: seq<nat>, tables: seq<seq<nat>>)
  {
    forall i :: 0 <= i < |input| ==>
      i / HuffmanSelect.SegmentWidth < |selectors| &&
      selectors[i / HuffmanSelect.SegmentWidth] < |tables| &&
      input[i] < |tables[selectors[i / HuffmanSelect.SegmentWidth]]|
  }

  /** The table symbol `i` is coded with: the one its segment selected. */
  function TableAt(input: seq<nat>, selectors: seq<nat>, tables: seq<seq<nat>>, i: nat): (t: seq<nat>)
    requires i < |input| && Selects(input, selectors, tables)
    ensures input[i] < |t|
  {
    tables[selectors[i / HuffmanSelect.SegmentWidth]]
  }

  /** The codewords of the symbols from `i` on, each under its segment's table. */
  function SymbolsFrom(input: seq<nat>, selectors: seq<nat>, tables: seq<seq<nat>>, i: nat): seq<bool>
    requires i <= |input| && Selects(input, selectors, tables)
    decreases |input| - i
  {
    if i == |input| then []
    else Word(TableAt(input, selectors, tables, i), input[i]) + SymbolsFrom(input, selectors, tables, i + 1)
  }

  /** The first symbol from `s` on whose codeword starts `bits`. */
  function FindWord(table: seq<nat>, bits: seq<bool>, s: nat): (r: Option<nat>)
    requires s <= |table|
    ensures r.Some? ==> s <= r.value < |table| && table[r.value] <= |bits|
    decreases |table| - s
  {
    if s == |table| then None
    else if table[s] <= |bits| && bits[..table[s]] == Word(table, s) then Some(s)
    else FindWord(table, bits, s + 1)
  }

  /** One symbol read back under `table`, and the bits after its codeword; None when no codeword fits. */
  function DecodeSymbol(table: seq<nat>, bits: seq<bool>): Option<(nat, seq<bool>)>
  {
    match FindWord(table, bits, 0)
    case None => None
    case Some(s) => Some((s, bits[table[s]..]))
  }

  /** The symbols `i .. n - 1` read back, each under the table its segment selected. */
  function DecodeSymbols(bits: seq<bool>, selectors: seq<nat>, tables: seq<seq<nat>>, i: nat, n: nat)
    : Option<(seq<nat>, seq<bool>)>
    decreases n - i
  {
    if i >= n then Some(([], bits))
    else if i / HuffmanSelect.SegmentWidth >= |selectors| then None
    else if selectors[i / HuffmanSelect.SegmentWidth] >= |tables| then None
    else match DecodeSymbol(tables[selectors[i / HuffmanSelect.SegmentWidth]], bits)
      case None => None
      case Some((s, tail)) =>
        match DecodeSymbols(tail, selectors, tables, i + 1, n)
          case None => None
          case Some((ss, rest)) => Some(([s] + ss, rest))
  }

  /** No other symbol's codeword starts the bits that begin with the codeword of `s`. */
  lemma NoOtherWord(table: seq<nat>, M: nat, s: nat, u: nat, rest: seq<bool>)
    requires HuffmanTree.Complete(table, M) && s < |table| && u < |table| && u != s
    ensures var bits := Word(table, s) + rest;
      !(table[u] <= |bits| && bits[..table[u]] == Word(table, u))
  {
    var bits := Word(table, s) + rest;
    if table[u] <= table[s] {
      assert bits[..table[u]] == Word(table, s)[..table[u]];
      HuffmanCodes.PrefixFree(table, M, u, s);
    } else if table[u] <= |bits| && bits[..table[u]] == Word(table, u) {
      assert Word(table, u)[..table[s]] == bits[..table[s]] == Word(table, s);
      HuffmanCodes.PrefixFree(table, M, s, u);
      assert false;
    }
  }

  /** The search from `u <= s` stops at `s`, whose codeword starts the bits. */
  lemma {:induction false} FindWordOf(table: seq<nat>, M: nat, s: nat, u: nat, rest: seq<bool>)
    requires HuffmanTree.Complete(table, M) && u <= s < |table|
    ensures FindWord(table, Word(table, s) + rest, u) == Some(s)
    decreases s - u
  {
    var bits := Word(table, s) + rest;
    if u == s {
      assert bits[..table[s]] == Word(table, s);
    } else {
      NoOtherWord(table, M, s, u, rest);
      FindWordOf(table, M, s, u + 1, rest);
    }
  }

  /** Under a complete table, a codeword is read back as its symbol. */
  lemma WordRoundTrip(table: seq<nat>, M: nat, s: nat, rest: seq<bool>)
    requires HuffmanTree.Complete(table, M) && s < |table|
    ensures DecodeSymbol(table, Word(table, s) + rest) == Some((s, rest))
  {
    FindWordOf(table, M, s, 0, rest);
    assert (Word(table, s) + rest)[table[s]..] == rest;
  }

  /** Under a usable table, a codeword is read back as its symbol. */
  lemma UsableRoundTrip(table: seq<nat>, s: nat, rest: seq<bool>)
    requires HuffmanBuild.Usable(table) && s < |table|
    ensures DecodeSymbol(table, Word(table, s) + rest) == Some((s, rest))
  {
    var M: nat :| M <= HuffmanBuild.CodewordMaxLen && HuffmanTree.Complete(table, M);
    WordRoundTrip(table, M, s, rest);
  }

  /** Every table is usable: a complete code of lengths at most 17. */
  ghost predicate AllUsable(tables: seq<seq<nat>>)
  {
    forall t :: 0 <= t < |tables| ==> HuffmanBuild.Usable(tables[t])
  }

  /** Decoding the codewords of the symbols from `i` on gives those symbols back, and the bits after them. */
  lemma {:induction false} SymbolsRoundTrip(input: seq<nat>, selectors: seq<nat>, tables: seq<seq<nat>>, i: nat,
                                            rest: seq<bool>)
    requires i <= |input| && Selects(input, selectors, tables) && AllUsable(tables)
    ensures DecodeSymbols(SymbolsFrom(input, selectors, tables, i) + rest, selectors, tables, i, |input|)
      == Some((input[i..], rest))
    decreases |input| - i
  {
    if i == |input| {
      assert SymbolsFrom(input, selectors, tables, i) + rest == rest;
    } else {
      var table := TableAt(input, selectors, tables, i);
      var tail := SymbolsFrom(input, selectors, tables, i + 1) + rest;
      Seqs.Assoc(Word(table, input[i]), SymbolsFrom(input, selectors, tables, i + 1), rest);
      assert HuffmanBuild.Usable(table);
      UsableRoundTrip(table, input[i], tail);
      SymbolsRoundTrip(input, selectors, tables, i + 1, rest);
      assert [input[i]] + input[i + 1..] == input[i..];
    }
  }

  /** `codings[t][s]` is the length and the canonical codeword of symbol `s` in table `t`. */
  ghost predicate Coded(codings: seq<seq<(nat, nat)>>, tables: seq<seq<nat>>)
  {
    |codings| == |tables| &&
    forall t :: 0 <= t < |tables| ==>
      |codings[t]| == |tables[t]| &&
      forall s :: 0 <= s < |tables[t]| ==> codings[t][s] == (tables[t][s], HuffmanCodes.Code(tables[t], s))
  }

  /** A codeword of a usable table is at most 17 bits long and fits them, so it fits a u32. */
  lemma WordFits(table: seq<nat>, s: nat)
    requires HuffmanBuild.Usable(table) && s < |table|
    ensures 1 <= table[s] <= HuffmanBuild.CodewordMaxLen
    ensures HuffmanCodes.Code(table, s) < Pow2(table[s]) <= 0x1_0000_0000
  {
    var M: nat :| M <= HuffmanBuild.CodewordMaxLen && HuffmanTree.Complete(table, M);
    HuffmanCodes.CodeFits(table, M, s);
    Pow2Eight();
    Pow2Sum(8, 8, 16);
    Pow2Sum(16, 16, 32);
    Pow2Monotone(table[s], 32);
  }

  /** Symbols `i - 1` and `i` are in the same segment unless `i` starts one. */
  lemma SameSegment(i: nat)
    requires i > 0 && i % HuffmanSelect.SegmentWidth != 0
    ensures (i - 1) / HuffmanSelect.SegmentWidth == i / HuffmanSelect.SegmentWidth
  {
  }

  /** The entry of symbol `s` in the codings of table `t`. */
  lemma CodedAt(codings: seq<seq<(nat, nat)>>, tables: seq<seq<nat>>, t: nat, s: nat)
    requires Coded(codings, tables) && t < |tables| && s < |tables[t]|
    ensures |codings[t]| == |tables[t]| && codings[t][s] == (tables[t][s], HuffmanCodes.Code(tables[t], s))
  {
  }

  /** The codeword of `s` is written from its entry in `coding`. */
  method WriteWord(out: OutputStream, coding: seq<(nat, nat)>, ghost table: seq<nat>, s: nat)
    requires out.Valid() && s < |table| && HuffmanBuild.Usable(table)
    requires |coding| == |table| && coding[s] == (table[s], HuffmanCodes.Code(table, s))
    modifies out
    ensures out.Valid() && out.Bits() == old(out.Bits()) + Word(table, s)
  {
    var (wordLen, word) := coding[s];
    WordFits(table, s);
    out.WriteBitsU32(word, wordLen);
  }

  /** The selector of symbol `i`'s segment, and the facts the writer needs about its table. */
  lemma SelectorAt(input: seq<nat>, selectors: seq<nat>, tables: seq<seq<nat>>, codings: seq<seq<(nat, nat)>>, i: nat)
    requires i < |input| && Selects(input, selectors, tables) && Coded(codings, tables) && AllUsable(tables)
    ensures var b := i / HuffmanSelect.SegmentWidth;
      b < |selectors| && selectors[b] < |tables| && input[i] < |tables[selectors[b]]| &&
      TableAt(input, selectors, tables, i) == tables[selectors[b]] &&
      HuffmanBuild.Usable(tables[selectors[b]]) &&
      |codings[selectors[b]]| == |tables[selectors[b]]| &&
      codings[selectors[b]][input[i]] == (tables[selectors[b]][input[i]], HuffmanCodes.Code(tables[selectors[b]], input[i]))
    ensures SymbolsFrom(input, selectors, tables, i)
      == Word(TableAt(input, selectors, tables, i), input[i]) + SymbolsFrom(input, selectors, tables, i + 1)
  {
    var b := i / HuffmanSelect.SegmentWidth;
    CodedAt(codings, tables, selectors[b], input[i]);
  }

  /**
   * Symbol `i` is written: at the start of a segment its selector is looked
   * up, otherwise the one of symbol `i - 1` is kept.
   */
  method WriteSymbolAt(out: OutputStream, input: seq<nat>, selectors: seq<nat>, codings: seq<seq<(nat, nat)>>,
                       ghost tables: seq<seq<nat>>, i: nat, sel: nat) returns (sel': nat)
    requires out.Valid() && i < |input| && Selects(input, selectors, tables)
    requires Coded(codings, tables) && AllUsable(tables)
    requires i > 0 ==> sel == selectors[(i - 1) / HuffmanSelect.SegmentWidth]
    modifies out
    ensures out.Valid() && sel' == selectors[i / HuffmanSelect.SegmentWidth]
    ensures out.Bits() + SymbolsFrom(input, selectors, tables, i + 1)
      == old(out.Bits()) + SymbolsFrom(input, selectors, tables, i)
  {
    SelectorAt(input, selectors, tables, codings, i);
    sel' := sel;
    if i % HuffmanSelect.SegmentWidth == 0 {
      sel' := selectors[i / HuffmanSelect.SegmentWidth];
    } else {
      SameSegment(i);
    }
    WriteWord(out, codings[sel'], tables[sel'], input[i]);
    Seqs.Assoc(old(out.Bits()), Word(tables[sel'], input[i]), SymbolsFrom(input, selectors, tables, i + 1));
  }

  /**
   * Every symbol is written with its codeword under its segment's table,
   * the selector being looked up again at the start of each segment.
   */
  method WriteSymbols(out: OutputStream, input: seq<nat>, selectors: seq<nat>, codings: seq<seq<(nat, nat)>>,
                      ghost tables: seq<seq<nat>>)
    requires out.Valid() && |input| > 0 && Selects(input, selectors, tables)
    requires Coded(codings, tables) && AllUsable(tables)
    modifies out
    ensures out.Valid() && out.Bits() == old(out.Bits()) + SymbolsFrom(input, selectors, tables, 0)
  {
    ghost var start := out.Bits();
    SelectorAt(input, selectors, tables, codings, 0);
    var sel := selectors[0];
    for i := 0 to |input|
      invariant out.Valid()
      invariant out.Bits() + SymbolsFrom(input, selectors, tables, i) == start + SymbolsFrom(input, selectors, tables, 0)
      invariant i > 0 ==> sel == selectors[(i - 1) / HuffmanSelect.SegmentWidth]
    {
      sel := WriteSymbolAt(out, input, selectors, codings, tables, i, sel);
    }
  }
}
