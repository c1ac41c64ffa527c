/**
 * The coded lengths of a table (encode in lib/huffman.rs and
 * src/huffman.rs): the first length on 5 bits, then for every symbol the
 * steps from the previous length to its own, `10` up and `11` down, closed
 * by a `0`. The smallest and largest lengths are found on the way. The
 * decoder that reads the lengths back is given with the round trip.
 */
module HuffmanLengths {
  import opened Bytes
  import opened BitWriter
  import Seqs

  /** The steps from length `acc` to length `l`: `10` per increment, `11` per decrement, then `0`. */
  function Delta(acc: nat, l: nat): (r: seq<bool>)
    decreases if acc < l then l - acc else acc - l
  {
    if acc == l then [false]
    else if acc < l then [true, false] + Delta(acc + 1, l)
    else [true, true] + Delta(acc - 1, l)
  }

  /** The steps through every length of `ls`, starting from `acc`. */
  function Deltas(acc: nat, ls: seq<nat>): seq<bool>
    decreases |ls|
  {
    if ls == [] then [] else Delta(acc, ls[0]) + Deltas(ls[0], ls[1..])
  }

  /** The coded lengths of a table: its first length on 5 bits, then the steps through all of its lengths. */
  function TableBits(table: seq<nat>): seq<bool>
    requires |table| > 0
  {
    BitsOf(table[0], 5) + Deltas(table[0], table)
  }

  /** One length read back from `acc`; None on a truncated step or a step below zero. */
  function ReadDelta(acc: nat, bits: seq<bool>): (r: Option<(nat, seq<bool>)>)
    ensures r.Some? ==> |r.value.1| < |bits|
    decreases |bits|
  {
    if bits == [] then None
    else if !bits[0] then Some((acc, bits[1..]))
    else if |bits| < 2 then None
    else if !bits[1] then ReadDelta(acc + 1, bits[2..])
    else if acc == 0 then None
    else ReadDelta(acc - 1, bits[2..])
  }

  /** `n` lengths read back, each from the one before. */
  function ReadLengths(acc: nat, bits: seq<bool>, n: nat): Option<(seq<nat>, seq<bool>)>
    decreases n
  {
    if n == 0 then Some(([], bits))
    else match ReadDelta(acc, bits)
      case None => None
      case Some((l, rest)) =>
        match ReadLengths(l, rest, n - 1)
          case None => None
          case Some((ls, tail)) => Some(([l] + ls, tail))
  }

  /** A table of `n` lengths read back: the 5-bit first length, then the steps. */
  function DecodeTable(bits: seq<bool>, n: nat): Option<(seq<nat>, seq<bool>)>
  {
    if |bits| < 5 then None else ReadLengths(ValueOf(bits[..5]), bits[5..], n)
  }

  lemma {:induction false} ReadDeltaBits(acc: nat, l: nat, rest: seq<bool>)
    ensures ReadDelta(acc, Delta(acc, l) + rest) == Some((l, rest))
    decreases if acc < l then l - acc else acc - l
  {
    var bits := Delta(acc, l) + rest;
    if acc == l {
      assert !bits[0] && bits[1..] == rest;
    } else if acc < l {
      assert bits == [true, false] + (Delta(acc + 1, l) + rest);
      assert bits[0] && !bits[1] && bits[2..] == Delta(acc + 1, l) + rest;
      ReadDeltaBits(acc + 1, l, rest);
    } else {
      assert bits == [true, true] + (Delta(acc - 1, l) + rest);
      assert bits[0] && bits[1] && bits[2..] == Delta(acc - 1, l) + rest;
      ReadDeltaBits(acc - 1, l, rest);
    }
  }

  /** Reading the steps through `ls` gives `ls` back, and the bits after them. */
  lemma {:induction false} ReadLengthsBits(acc: nat, ls: seq<nat>, rest: seq<bool>)
    ensures ReadLengths(acc, Deltas(acc, ls) + rest, |ls|) == Some((ls, rest))
    decreases |ls|
  {
    if ls == [] {
      assert Deltas(acc, ls) + rest == rest;
    } else {
      var tail := Deltas(ls[0], ls[1..]) + rest;
      Seqs.Assoc(Delta(acc, ls[0]), Deltas(ls[0], ls[1..]), rest);
      ReadDeltaBits(acc, ls[0], tail);
      ReadLengthsBits(ls[0], ls[1..], rest);
      assert [ls[0]] + ls[1..] == ls;
    }
  }

  /** Decoding the coded lengths of a table gives the table back, and the bits after it. */
  lemma TableRoundTrip(table: seq<nat>, rest: seq<bool>)
    requires |table| > 0 && table[0] < 32
    ensures DecodeTable(TableBits(table) + rest, |table|) == Some((table, rest))
  {
    var head := BitsOf(table[0], 5);
    var tail := Deltas(table[0], table) + rest;
    var bits := TableBits(table) + rest;
    assert bits == head + tail by {
      Seqs.Assoc(head, Deltas(table[0], table), rest);
    }
    assert bits[..5] == head && bits[5..] == tail;
    assert ValueOf(head) == table[0] by {
      ValueOfBitsOf(table[0], 5);
      assert Pow2(5) == 32;
    }
    ReadLengthsBits(table[0], table, rest);
  }

  /**
   * The steps from `acc` to `l`, one at a time: `10` and up while below,
   * `11` and down while above, then `0`.
   */
  method WriteDelta(out: OutputStream, acc: nat, l: nat)
    requires out.Valid() && l < 0x100
    modifies out
    ensures out.Valid() && out.Bits() == old(out.Bits()) + Delta(acc, l)
  {
    ghost var start := out.Bits();
    var a: nat := acc;
    while a != l
      invariant out.Valid() && out.Bits() + Delta(a, l) == start + Delta(acc, l)
      decreases if a < l then l - a else a - l
    {
      ghost var before := out.Bits();
      if l > a {
        assert BitsOf(2, 2) == [true, false];
        out.WriteBits(2, 2);
        Seqs.Assoc(before, [true, false], Delta(a + 1, l));
        a := a + 1;
      } else {
        assert BitsOf(3, 2) == [true, true];
        out.WriteBits(3, 2);
        Seqs.Assoc(before, [true, true], Delta(a - 1, l));
        a := a - 1;
      }
    }
    assert BitsOf(0, 1) == [false];
    out.WriteBits(0, 1);
  }

  /** The steps through `ls[i..]`: those to `ls[i]`, then the rest from it. */
  lemma DeltasAt(acc: nat, ls: seq<nat>, i: nat)
    requires i < |ls|
    ensures Deltas(acc, ls[i..]) == Delta(acc, ls[i]) + Deltas(ls[i], ls[i + 1..])
  {
    assert ls[i..][1..] == ls[i + 1..];
  }

  /** `m` is the smallest of `ls`, and `n` the largest. */
  predicate Extremes(ls: seq<nat>, m: nat, n: nat)
  {
    m in ls && n in ls && forall k :: 0 <= k < |ls| ==> m <= ls[k] <= n
  }

  /** The extremes of one more length: the first one is both, then each widens them. */
  lemma ExtremesSnoc(ls: seq<nat>, i: nat, m0: nat, n0: nat, m: nat, n: nat)
    requires i < |ls| && ls[i] < 0x100
    requires i == 0 ==> m0 == 0xFF && n0 == 0
    requires i > 0 ==> Extremes(ls[..i], m0, n0)
    requires m == (if ls[i] < m0 then ls[i] else m0) && n == (if ls[i] > n0 then ls[i] else n0)
    ensures Extremes(ls[..i + 1], m, n)
  {
    assert ls[..i + 1] == ls[..i] + [ls[i]];
  }

  /**
   * The coded lengths of a table are written, and its smallest and largest
   * lengths are returned, starting from u8::MAX and 0.
   */
  method WriteTable(out: OutputStream, table: seq<nat>) returns (minLen: nat, maxLen: nat)
    requires out.Valid() && |table| > 0 && table[0] < 32
    requires forall s :: 0 <= s < |table| ==> table[s] < 0x100
    modifies out
    ensures out.Valid() && out.Bits() == old(out.Bits()) + TableBits(table)
    ensures Extremes(table, minLen, maxLen)
  {
    ghost var start := out.Bits();
    minLen, maxLen := 0xFF, 0;
    out.WriteBits(table[0], 5);
    var acc := table[0];
    assert table[0..] == table;
    for i := 0 to |table|
      invariant out.Valid() && acc == table[if i == 0 then 0 else i - 1]
      invariant out.Bits() + Deltas(acc, table[i..]) == start + TableBits(table)
      invariant i == 0 ==> minLen == 0xFF && maxLen == 0
      invariant i > 0 ==> Extremes(table[..i], minLen, maxLen)
    {
      ghost var before := out.Bits();
      var l := table[i];
      WriteDelta(out, acc, l);
      DeltasAt(acc, table, i);
      Seqs.Assoc(before, Delta(acc, l), Deltas(l, table[i + 1..]));
      acc := l;
      ghost var m0, n0 := minLen, maxLen;
      if l < minLen {
        minLen := l;
      }
      if l > maxLen {
        maxLen := l;
      }
      ExtremesSnoc(table, i, m0, n0, minLen, maxLen);
    }
    assert table[..|table|] == table;
    assert table[|table|..] == [];
  }
}
