/**
 * The selector part of a block's Huffman section (encode in lib/huffman.rs
 * and src/huffman.rs): the number of tables, the number of selectors, and
 * the selectors themselves, move-to-front coded over the table numbers and
 * written in unary. The decoder of the selector bits is given with the
 * round trip.
 */
module HuffmanSelectors {
  import opened Bytes
  import opened MtfSpec
  import opened BitWriter
  import Seqs

  /** Recency index `i` is written as `i` one bits and a zero bit. */
  function Unary(i: nat): (r: seq<bool>)
    ensures |r| == i + 1
  {
    Rep(true, i) + [false]
  }

  /** `i` ones: the low `i` bits of 2^i - 1. */
  lemma {:induction false} AllOnes(i: nat)
    ensures BitsOf(Pow2(i) - 1, i) == Rep(true, i)
  {
    if i > 0 {
      AllOnes(i - 1);
      assert (Pow2(i) - 1) / 2 == Pow2(i - 1) - 1;
    }
  }

  /** The code kept for index `i`, `(1 << (i + 1)) - 2` on `i + 1` bits, is Unary(i). */
  lemma IdxCodeBits(i: nat)
    ensures Pow2(i + 1) >= 2 && BitsOf(Pow2(i + 1) - 2, i + 1) == Unary(i)
  {
    AllOnes(i);
    assert (Pow2(i + 1) - 2) / 2 == Pow2(i) - 1;
  }

  /** The codes of the recency indices, `idx_codes`: 0 for index 0, `(1 << (i + 1)) - 2` after. */
  predicate IdxCodes(codes: seq<nat>, numTables: nat)
  {
    |codes| == numTables > 0 && codes[0] == 0 &&
    forall i :: 1 <= i < numTables ==> codes[i] == Pow2(i + 1) - 2
  }

  /** Moving an entry to the front keeps every entry on the list. */
  lemma MoveToFrontKeeps(r: seq<nat>, i: nat, x: nat)
    requires i < |r| && x in r
    ensures x in MoveToFront(r, i)
  {
    MoveToFrontPerm(r, i);
    assert x in multiset(r);
  }

  /** Moving an entry to the front keeps every entry of `xs` on the list. */
  lemma MoveToFrontKeepsAll(r: seq<nat>, i: nat, xs: seq<nat>)
    requires i < |r| && forall k :: 0 <= k < |xs| ==> xs[k] in r
    ensures forall k :: 0 <= k < |xs| ==> xs[k] in MoveToFront(r, i)
  {
    forall k | 0 <= k < |xs| {
      MoveToFrontKeeps(r, i, xs[k]);
    }
  }

  /** The selector bits: each selector's index on the recency list, in unary, the list moved to front after each. */
  function SelectorBits(r: seq<nat>, sels: seq<nat>): seq<bool>
    requires forall k :: 0 <= k < |sels| ==> sels[k] in r
    decreases |sels|
  {
    if sels == [] then []
    else
      var i := IndexOf(r, sels[0]);
      MoveToFrontKeepsAll(r, i, sels[1..]);
      Unary(i) + SelectorBits(MoveToFront(r, i), sels[1..])
  }

  /** The leading run of one bits up to the first zero, and the bits after it; None when no zero comes. */
  function ReadUnary(bits: seq<bool>): (r: Option<(nat, seq<bool>)>)
    ensures r.Some? ==> |r.value.1| < |bits|
  {
    if bits == [] then None
    else if !bits[0] then Some((0, bits[1..]))
    else match ReadUnary(bits[1..])
      case None => None
      case Some((i, rest)) => Some((i + 1, rest))
  }

  /** `n` selectors read back: an index past the recency list is an error. */
  function DecodeSelectors(r: seq<nat>, bits: seq<bool>, n: nat): Option<(seq<nat>, seq<bool>)>
    decreases n
  {
    if n == 0 then Some(([], bits))
    else match ReadUnary(bits)
      case None => None
      case Some((i, rest)) =>
        if i >= |r| then None
        else match DecodeSelectors(MoveToFront(r, i), rest, n - 1)
          case None => None
          case Some((sels, tail)) => Some(([r[i]] + sels, tail))
  }

  lemma {:induction false} ReadUnaryBits(i: nat, rest: seq<bool>)
    ensures ReadUnary(Unary(i) + rest) == Some((i, rest))
  {
    if i > 0 {
      ReadUnaryBits(i - 1, rest);
      assert (Unary(i) + rest)[1..] == Unary(i - 1) + rest;
    } else {
      assert (Unary(0) + rest)[1..] == rest;
    }
  }

  /** One selector read: its unary index, then the rest with the list moved. */
  lemma DecodeStep(r: seq<nat>, bits: seq<bool>, n: nat, i: nat, tail: seq<bool>, sels: seq<nat>, rest: seq<bool>)
    requires n > 0 && ReadUnary(bits) == Some((i, tail)) && i < |r|
    requires DecodeSelectors(MoveToFront(r, i), tail, n - 1) == Some((sels, rest))
    ensures DecodeSelectors(r, bits, n) == Some(([r[i]] + sels, rest))
  {
  }

  /** The selector bits of a non-empty list: the first index, then the rest over the moved list. */
  lemma SelectorBitsCons(r: seq<nat>, sels: seq<nat>)
    requires sels != [] && forall k :: 0 <= k < |sels| ==> sels[k] in r
    ensures var i := IndexOf(r, sels[0]);
      (forall k :: 0 <= k < |sels[1..]| ==> sels[1..][k] in MoveToFront(r, i)) &&
      SelectorBits(r, sels) == Unary(i) + SelectorBits(MoveToFront(r, i), sels[1..])
  {
    MoveToFrontKeepsAll(r, IndexOf(r, sels[0]), sels[1..]);
  }

  /** The round trip for a non-empty list, given the round trip for its tail. */
  lemma RoundTripStep(r: seq<nat>, sels: seq<nat>, rest: seq<bool>)
    requires sels != [] && forall k :: 0 <= k < |sels| ==> sels[k] in r
    requires var m := MoveToFront(r, IndexOf(r, sels[0]));
      (forall k :: 0 <= k < |sels[1..]| ==> sels[1..][k] in m) &&
      DecodeSelectors(m, SelectorBits(m, sels[1..]) + rest, |sels| - 1) == Some((sels[1..], rest))
    ensures DecodeSelectors(r, SelectorBits(r, sels) + rest, |sels|) == Some((sels, rest))
  {
    var i := IndexOf(r, sels[0]);
    var m := MoveToFront(r, i);
    var tail := SelectorBits(m, sels[1..]) + rest;
    SelectorBitsCons(r, sels);
    Seqs.Assoc(Unary(i), SelectorBits(m, sels[1..]), rest);
    ReadUnaryBits(i, tail);
    DecodeStep(r, SelectorBits(r, sels) + rest, |sels|, i, tail, sels[1..], rest);
    assert [r[i]] + sels[1..] == sels;
  }

  /** Decoding the selector bits gives the selectors back, and the bits after them. */
  lemma {:induction false} SelectorsRoundTrip(r: seq<nat>, sels: seq<nat>, rest: seq<bool>)
    requires forall k :: 0 <= k < |sels| ==> sels[k] in r
    ensures DecodeSelectors(r, SelectorBits(r, sels) + rest, |sels|) == Some((sels, rest))
    decreases |sels|
  {
    if sels != [] {
      var m := MoveToFront(r, IndexOf(r, sels[0]));
      SelectorBitsCons(r, sels);
      SelectorsRoundTrip(m, sels[1..], rest);
      RoundTripStep(r, sels, rest);
    } else {
      assert SelectorBits(r, sels) + rest == rest;
    }
  }

  /** The number of tables, on 3 bits. */
  method WriteNumTables(out: OutputStream, numTables: nat)
    requires out.Valid() && numTables < 8
    modifies out
    ensures out.Valid() && out.Bits() == old(out.Bits()) + BitsOf(numTables, 3)
  {
    out.WriteBits(numTables, 3);
  }

  /** The number of selectors as lib/huffman.rs writes it: one 15-bit field. */
  method WriteSelectorCount(out: OutputStream, numSelectors: nat)
    requires out.Valid() && numSelectors < Pow2(15)
    modifies out
    ensures out.Valid() && out.Bits() == old(out.Bits()) + BitsOf(numSelectors, 15)
  {
    assert Pow2(15) == 0x8000;
    out.WriteBitsU32(numSelectors, 15);
  }

  /** The high 7 bits and the low byte of a 15-bit number are its 15 bits. */
  lemma SelectorCountBits(n: nat)
    requires n < Pow2(15)
    ensures n / 256 < 128 && n % 256 < 256
    ensures BitsOf(n / 256, 7) + BitsOf(n % 256, 8) == BitsOf(n, 15)
  {
    Pow2Eight();
    Pow2Sum(7, 8, 15);
    BitsOfSplit(n, 7, 8, n / 256);
  }

  /** The big-endian bytes of a number below 2^15. */
  lemma TwoBytes(n: nat)
    requires n < 0x8000
    ensures BigEndian(n, 2) == [n / 256, n % 256]
  {
    assert BigEndian(n / 256, 1) == [n / 256 % 256];
  }

  /**
   * The number of selectors as src/huffman.rs writes it: the u16's high
   * byte on 7 bits, then its low byte. It gives the same bits as the
   * 15-bit field.
   */
  method WriteSelectorCountSrc(out: OutputStream, numSelectors: nat)
    requires out.Valid() && numSelectors < Pow2(15)
    modifies out
    ensures out.Valid() && out.Bits() == old(out.Bits()) + BitsOf(numSelectors, 15)
  {
    var bytes := BigEndian(numSelectors, 2);
    SelectorCountBits(numSelectors);
    TwoBytes(numSelectors);
    ghost var start := out.Bits();
    out.WriteBits(bytes[0], 7);
    out.WriteByte(bytes[1]);
    Seqs.Assoc(start, BitsOf(bytes[0], 7), BitsOf(bytes[1], 8));
  }

  /** The codes of the recency indices, built as the source builds them. */
  method MakeIdxCodes(numTables: nat) returns (codes: seq<nat>)
    requires numTables > 0
    ensures IdxCodes(codes, numTables)
  {
    codes := [];
    for i := 0 to numTables
      invariant |codes| == i && (i > 0 ==> codes[0] == 0)
      invariant forall j :: 1 <= j < i ==> codes[j] == Pow2(j + 1) - 2
    {
      if i == 0 {
        codes := codes + [0];
      } else {
        codes := codes + [Pow2(i + 1) - 2];
      }
    }
  }

  /**
   * The shifting loop of a selector not at the front: each entry from
   * index 1 on takes the one before it, until the selector is met; its
   * index is returned. The front entry is left to the caller.
   */
  method ShiftBack(sel: nat, recency: array<nat>) returns (idx: nat)
    requires sel in recency[..] && recency[0] != sel
    modifies recency
    ensures idx == IndexOf(old(recency[..]), sel) && recency[0] == old(recency[0])
    ensures forall k :: 0 < k <= idx ==> recency[k] == old(recency[k - 1])
    ensures forall k :: idx < k < recency.Length ==> recency[k] == old(recency[k])
  {
    ghost var r := recency[..];
    ghost var i := IndexOf(r, sel);
    var bump := recency[0];
    idx := 1;
    while true
      invariant 1 <= idx <= i && bump == r[idx - 1] && recency[0] == r[0]
      invariant forall k :: 0 < k < idx ==> recency[k] == r[k - 1]
      invariant forall k :: idx <= k < recency.Length ==> recency[k] == r[k]
      decreases recency.Length - idx
    {
      var stackSel := recency[idx];
      recency[idx] := bump;
      if stackSel == sel {
        return;
      }
      bump := stackSel;
      idx := idx + 1;
    }
  }

  /**
   * One selector: at the front of the recency list it is a single zero
   * bit; otherwise it is shifted to the front from index `i`, and the
   * code of `i` is written.
   */
  method PushSelector(out: OutputStream, sel: nat, recency: array<nat>, codes: seq<nat>)
    requires out.Valid() && sel in recency[..] && recency.Length <= 7
    requires IdxCodes(codes, recency.Length)
    modifies out, recency
    ensures var i := IndexOf(old(recency[..]), sel);
      recency[..] == MoveToFront(old(recency[..]), i) &&
      out.Valid() && out.Bits() == old(out.Bits()) + Unary(i)
  {
    ghost var r := recency[..];
    var bump := recency[0];
    if bump == sel {
      IdxCodeBits(0);
      out.WriteBits(0, 1);
      assert recency[..] == MoveToFront(r, 0);
    } else {
      var idx := ShiftBack(sel, recency);
      IdxCodeBits(idx);
      Pow2Monotone(idx + 1, 8);
      Pow2Eight();
      out.WriteBits(codes[idx], idx + 1);
      recency[0] := sel;
      assert recency[..] == MoveToFront(r, idx);
    }
  }

  /** The selector field of a block: the selectors coded over the recency list of table numbers. */
  function SelectorField(numTables: nat, sels: seq<nat>): seq<bool>
    requires forall k :: 0 <= k < |sels| ==> sels[k] < numTables
  {
    assert forall k :: 0 <= k < |sels| ==> sels[k] in Iota(numTables) by {
      forall k | 0 <= k < |sels|
        ensures sels[k] in Iota(numTables)
      {
        assert Iota(numTables)[sels[k]] == sels[k];
      }
    }
    SelectorBits(Iota(numTables), sels)
  }

  /** Decoding the selector field over the table numbers gives the selectors back, and the bits after it. */
  lemma SelectorFieldRoundTrip(numTables: nat, sels: seq<nat>, rest: seq<bool>)
    requires forall k :: 0 <= k < |sels| ==> sels[k] < numTables
    ensures DecodeSelectors(Iota(numTables), SelectorField(numTables, sels) + rest, |sels|) == Some((sels, rest))
  {
    forall k | 0 <= k < |sels|
      ensures sels[k] in Iota(numTables)
    {
      assert Iota(numTables)[sels[k]] == sels[k];
    }
    SelectorsRoundTrip(Iota(numTables), sels, rest);
  }

  /** The bits of selectors `k..` over `r`: the unary index of selector `k`, then the rest over the moved list. */
  lemma PushStep(before: seq<bool>, r: seq<nat>, sels: seq<nat>, k: nat, numTables: nat)
    requires k < |sels| && forall x :: 0 <= x < numTables ==> x in r
    requires forall j :: 0 <= j < |sels| ==> sels[j] < numTables
    ensures var i := IndexOf(r, sels[k]);
      (forall x :: 0 <= x < numTables ==> x in MoveToFront(r, i)) &&
      before + SelectorBits(r, sels[k..]) == before + Unary(i) + SelectorBits(MoveToFront(r, i), sels[k + 1..])
  {
    var i := IndexOf(r, sels[k]);
    forall x | 0 <= x < numTables
      ensures x in MoveToFront(r, i)
    {
      MoveToFrontKeeps(r, i, x);
    }
    SelectorBitsCons(r, sels[k..]);
    assert sels[k..][1..] == sels[k + 1..];
    Seqs.Assoc(before, Unary(i), SelectorBits(MoveToFront(r, i), sels[k + 1..]));
  }

  /** Every selector, move-to-front coded over the table numbers and written in unary. */
  method WriteSelectors(out: OutputStream, selectors: seq<nat>, numTables: nat)
    requires out.Valid() && 0 < numTables <= 7
    requires forall k :: 0 <= k < |selectors| ==> selectors[k] < numTables
    modifies out
    ensures out.Valid() && out.Bits() == old(out.Bits()) + SelectorField(numTables, selectors)
  {
    var recency := new nat[numTables](i => i);
    var codes := MakeIdxCodes(numTables);
    assert recency[..] == Iota(numTables);
    forall x | 0 <= x < numTables
      ensures x in recency[..]
    {
      assert recency[..][x] == x;
    }
    ghost var start := out.Bits();
    ghost var all := SelectorField(numTables, selectors);
    assert selectors[0..] == selectors;
    for k := 0 to |selectors|
      invariant out.Valid() && recency.Length == numTables
      invariant forall x :: 0 <= x < numTables ==> x in recency[..]
      invariant out.Bits() + SelectorBits(recency[..], selectors[k..]) == start + all
    {
      ghost var before := out.Bits();
      ghost var r := recency[..];
      PushSelector(out, selectors[k], recency, codes);
      PushStep(before, r, selectors, k, numTables);
    }
    assert selectors[|selectors|..] == [];
  }
}
