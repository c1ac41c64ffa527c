/**
 * The move-to-front and RLE2 pass of src/mtf.rs. It differs from
 * lib/mtf.rs in its storage, not its output: the recency list has exactly
 * one entry per name, and the front entry is overwritten before the scan
 * rather than after it. The method is proved to produce the code of
 * MtfSpec, as the lib version is.
 */
module MtfSrc {
  import opened Bytes
  import opened Seqs
  import opened MtfSpec
  import MtfLib

  /**
   * A name other than the front one: it is written to the front, then each
   * entry moves one place back until the name is met, and the index at
   * which it was met, plus one, is appended to the output and counted.
   */
  method Shift(name: nat, recency: array<nat>, freqs: array<nat>, output: seq<nat>) returns (out: seq<nat>)
    requires freqs.Length == 258 && 0 < recency.Length <= 256
    requires name in recency[..] && name != recency[0]
    requires forall s :: 0 <= s < 258 ==> freqs[s] == multiset(output)[s]
    modifies recency, freqs
    ensures var i := IndexOf(old(recency[..]), name);
      recency[..] == MoveToFront(old(recency[..]), i) && out == output + [i + 1]
    ensures forall s :: 0 <= s < 258 ==> freqs[s] == multiset(out)[s]
  {
    ghost var r := recency[..];
    ghost var idx := IndexOf(r, name);
    var n0 := recency[0];
    recency[0] := name;
    var ri := 1;
    while ri < recency.Length
      invariant 1 <= ri <= idx
      invariant n0 == r[ri - 1] && recency[0] == name
      invariant forall k :: 0 < k < ri ==> recency[k] == r[k - 1]
      invariant forall k :: ri <= k < recency.Length ==> recency[k] == r[k]
      invariant freqs[..] == old(freqs[..])
    {
      var n1 := recency[ri];
      recency[ri] := n0;
      n0 := n1;
      if name == n0 {
        if ri < idx {
          assert false;
        }
        out := output + [ri + 1];
        freqs[ri + 1] := freqs[ri + 1] + 1;
        assert recency[..] == MoveToFront(r, ri);
        return;
      }
      ri := ri + 1;
    }
    assert false;
  }

  /** A name other than the front one: the pending run is flushed, then the name is shifted to the front. */
  method MoveName(name: nat, recency: array<nat>, freqs: array<nat>, output: seq<nat>, zeroCount: nat)
    returns (out: seq<nat>)
    requires freqs.Length == 258 && 0 < recency.Length <= 256 && recency != freqs
    requires name in recency[..] && name != recency[0]
    requires forall s :: 0 <= s < 258 ==> freqs[s] == multiset(output)[s]
    modifies recency, freqs
    ensures var i := IndexOf(old(recency[..]), name);
      recency[..] == MoveToFront(old(recency[..]), i) &&
      out == output + Zeros(zeroCount) + [i + 1]
    ensures forall s :: 0 <= s < 258 ==> freqs[s] == multiset(out)[s]
  {
    out := MtfLib.FlushRun(output, freqs, zeroCount);
    out := Shift(name, recency, freqs, out);
  }

  /** One byte of the main loop, as in MtfLib.Advance, over a recency list of exactly the names. */
  method Advance(name: nat, recency: array<nat>, freqs: array<nat>, output: seq<nat>, zeroCount: nat,
                 ghost ys: seq<nat>)
    returns (out: seq<nat>, zc: nat)
    requires freqs.Length == 258 && 0 < recency.Length <= 256 && recency != freqs
    requires ys != [] && ys[0] == name
    requires forall k :: 0 <= k < |ys| ==> ys[k] in recency[..]
    requires forall s :: 0 <= s < 258 ==> freqs[s] == multiset(output)[s]
    modifies recency, freqs
    ensures forall k :: 0 <= k < |ys[1..]| ==> ys[1..][k] in recency[..]
    ensures multiset(recency[..]) == multiset(old(recency[..]))
    ensures output + Body(old(recency[..]), zeroCount, ys) == out + Body(recency[..], zc, ys[1..])
    ensures forall s :: 0 <= s < 258 ==> freqs[s] == multiset(out)[s]
  {
    var primary := recency[0];
    ghost var r := recency[..];
    if name == primary {
      zc := zeroCount + 1;
      out := output;
      BodyRepeat(r, zeroCount, ys);
    } else {
      out := MoveName(name, recency, freqs, output, zeroCount);
      zc := 0;
      ghost var i := IndexOf(r, name);
      MoveToFrontPerm(r, i);
      BodyMove(r, zeroCount, ys, i);
      ghost var rest := Body(recency[..], 0, ys[1..]);
      Assoc(output, Zeros(zeroCount), [i + 1] + rest);
      Assoc(output + Zeros(zeroCount), [i + 1], rest);
    }
  }

  /** The main loop: every byte of the block through Advance, the run pending at the end left to the caller. */
  method EncodeNames(buf: seq<byte>, names: array<nat>, recency: array<nat>, freqs: array<nat>, ghost xs: seq<nat>)
    returns (output: seq<nat>, zeroCount: nat)
    requires names.Length == 256 && freqs.Length == 258 && 0 < recency.Length <= 256
    requires names != recency && names != freqs && recency != freqs
    requires |xs| == |buf| && forall k :: 0 <= k < |buf| ==> names[buf[k]] == xs[k]
    requires recency[..] == Iota(recency.Length) && forall k :: 0 <= k < |xs| ==> xs[k] in Iota(recency.Length)
    requires forall s :: 0 <= s < 258 ==> freqs[s] == 0
    modifies recency, freqs
    ensures Body(Iota(recency.Length), 0, xs) == output + Zeros(zeroCount)
    ensures forall s :: 0 <= s < 258 ==> freqs[s] == multiset(output)[s]
  {
    output := [];
    zeroCount := 0;
    assert xs[0..] == xs;
    var i := 0;
    while i < |buf|
      invariant i <= |buf|
      invariant forall k :: 0 <= k < |xs[i..]| ==> xs[i..][k] in recency[..]
      invariant Body(Iota(recency.Length), 0, xs) == output + Body(recency[..], zeroCount, xs[i..])
      invariant forall s :: 0 <= s < 258 ==> freqs[s] == multiset(output)[s]
    {
      output, zeroCount := Advance(names[buf[i]], recency, freqs, output, zeroCount, xs[i..]);
      assert xs[i..][1..] == xs[i + 1..];
      i := i + 1;
    }
    assert xs[|buf|..] == [];
  }

  /** The recency list at the start: one entry per name, entry k holding name k. */
  method InitialRecency(numNames: nat) returns (recency: array<nat>)
    requires 0 < numNames <= 256
    ensures fresh(recency) && recency[..] == Iota(numNames)
  {
    recency := new nat[numNames](s => s);
  }

  /** Move-to-front and RLE2 over a block, with `has` marking the bytes it uses. */
  method MtfAndRle(buf: seq<byte>, has: seq<bool>) returns (m: MtfLib.Mtf)
    requires forall b :: 256 <= b < |has| ==> !has[b]
    requires NumNames(has) > 0
    ensures m.output == BlockCode(has, buf)
    ensures m.numSyms == NumNames(has) + 2
    ensures |m.freqs| == 258 && forall s :: 0 <= s < 258 ==> m.freqs[s] == multiset(m.output)[s]
  {
    var names, numNames := MtfLib.NameBytes(has);
    var eob := numNames + 1;

    var freqs := new nat[258](_ => 0);
    var output: seq<nat> := [];
    var recency := InitialRecency(numNames);

    ghost var xs := NamesOf(has, buf);
    NamesOnIota(has, buf);
    var zeroCount;
    output, zeroCount := EncodeNames(buf, names, recency, freqs, xs);
    BodyBounds(Iota(numNames), 0, xs);
    output := MtfLib.CloseBlock(output, freqs, zeroCount, eob, Body(Iota(numNames), 0, xs));
    m := MtfLib.Mtf(output, numNames + 2, freqs[..]);
  }
}
