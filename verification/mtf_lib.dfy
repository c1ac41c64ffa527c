/**
 * The move-to-front and RLE2 pass of lib/mtf.rs: names in a 256-entry
 * table, the recency list in a 256-entry array, symbol counts in a
 * 258-entry array. The method is proved to produce the code of MtfSpec.
 */
module MtfLib {
  import opened Bytes
  import opened Seqs
  import opened MtfSpec

  /** What the Huffman stage needs: the symbols, how many symbols there are, and how often each occurs. */
  datatype Mtf = Mtf(output: seq<nat>, numSyms: nat, freqs: seq<nat>)

  /** A run of `zeroCount` repeats is appended as RUNA/RUNB digits, each counted in `freqs`. */
  method EmitRun(output: seq<nat>, freqs: array<nat>, zeroCount: nat) returns (out: seq<nat>)
    requires freqs.Length == 258
    requires forall s :: 0 <= s < 258 ==> freqs[s] == multiset(output)[s]
    modifies freqs
    ensures out == output + Zeros(zeroCount)
    ensures forall s :: 0 <= s < 258 ==> freqs[s] == multiset(out)[s]
  {
    var code := zeroCount + 1;
    out := output;
    while true
      invariant code >= 1
      invariant out + RunDigits(code) == output + Zeros(zeroCount)
      invariant forall s :: 0 <= s < 258 ==> freqs[s] == multiset(out)[s]
      decreases code
    {
      var bit := code % 2;
      ghost var before := code;
      code := code / 2;
      if code == 0 {
        break;
      }
      assert RunDigits(before) == [bit] + RunDigits(code);
      Assoc(out, [bit], RunDigits(code));
      if bit == 0 {
        out := out + [RunA];
        freqs[RunA] := freqs[RunA] + 1;
      } else {
        out := out + [RunB];
        freqs[RunB] := freqs[RunB] + 1;
      }
    }
    assert RunDigits(code * 2 + 1) == [];
  }

  /** A pending run, if there is one, is written out. */
  method FlushRun(output: seq<nat>, freqs: array<nat>, zeroCount: nat) returns (out: seq<nat>)
    requires freqs.Length == 258
    requires forall s :: 0 <= s < 258 ==> freqs[s] == multiset(output)[s]
    modifies freqs
    ensures out == output + Zeros(zeroCount)
    ensures forall s :: 0 <= s < 258 ==> freqs[s] == multiset(out)[s]
  {
    out := output;
    if zeroCount != 0 {
      out := EmitRun(out, freqs, zeroCount);
    } else {
      assert Zeros(0) == [];
    }
  }

  /**
   * The scan for `name` down the recency list: each entry moves one place
   * back until `name` is met; its index is returned. The front is left
   * for the caller to overwrite.
   */
  method ShiftBack(recency: array<nat>, name: nat, ghost n: nat) returns (ri: nat)
    requires recency.Length == 256 && n <= 256
    requires name in recency[..n] && name != recency[0]
    modifies recency
    ensures ri == IndexOf(old(recency[..n]), name) && 0 < ri < n
    ensures recency[0] == old(recency[0])
    ensures forall k :: 0 < k <= ri ==> recency[k] == old(recency[k - 1])
    ensures forall k :: ri < k < 256 ==> recency[k] == old(recency[k])
  {
    ghost var r := recency[..n];
    ghost var idx := IndexOf(r, name);
    var n0 := recency[0];
    ri := 1;
    while ri < 256
      invariant 1 <= ri <= idx
      invariant n0 == old(recency[ri - 1])
      invariant recency[0] == old(recency[0])
      invariant forall k :: 0 < k < ri ==> recency[k] == old(recency[k - 1])
      invariant forall k :: ri <= k < 256 ==> recency[k] == old(recency[k])
    {
      recency[ri], n0 := n0, recency[ri];
      if name == n0 {
        assert r[ri] == name;
        if ri < idx {
          assert false;
        }
        return;
      }
      assert r[ri] != name;
      ri := ri + 1;
    }
    assert false;
  }

  /** A name other than the front one: the pending run is flushed, the name coded by its index and moved to the front. */
  method MoveName(name: nat, recency: array<nat>, freqs: array<nat>, output: seq<nat>, zeroCount: nat, ghost n: nat)
    returns (out: seq<nat>)
    requires recency.Length == 256 && freqs.Length == 258 && 0 < n <= 256
    requires name in recency[..n] && name != recency[0]
    requires forall s :: 0 <= s < 258 ==> freqs[s] == multiset(output)[s]
    modifies recency, freqs
    ensures var i := IndexOf(old(recency[..n]), name);
      recency[..n] == MoveToFront(old(recency[..n]), i) &&
      out == output + Zeros(zeroCount) + [i + 1]
    ensures forall s :: 0 <= s < 258 ==> freqs[s] == multiset(out)[s]
  {
    ghost var r := recency[..n];
    out := FlushRun(output, freqs, zeroCount);
    var ri := ShiftBack(recency, name, n);
    out := out + [ri + 1];
    freqs[ri + 1] := freqs[ri + 1] + 1;
    recency[0] := name;
    assert recency[..n] == MoveToFront(r, ri);
  }

  /**
   * One byte of the main loop, its name being `name`: a repeat of the front
   * name lengthens the pending run; another name ends the run, is coded by
   * its index in the recency list and moves to the front.
   */
  method Advance(name: nat, recency: array<nat>, freqs: array<nat>, output: seq<nat>, zeroCount: nat,
                 ghost ys: seq<nat>, ghost n: nat)
    returns (out: seq<nat>, zc: nat)
    requires recency.Length == 256 && freqs.Length == 258 && 0 < n <= 256
    requires ys != [] && ys[0] == name
    requires forall k :: 0 <= k < |ys| ==> ys[k] in recency[..n]
    requires forall s :: 0 <= s < 258 ==> freqs[s] == multiset(output)[s]
    modifies recency, freqs
    ensures forall k :: 0 <= k < |ys[1..]| ==> ys[1..][k] in recency[..n]
    ensures multiset(recency[..n]) == multiset(old(recency[..n]))
    ensures output + Body(old(recency[..n]), zeroCount, ys) == out + Body(recency[..n], zc, ys[1..])
    ensures forall s :: 0 <= s < 258 ==> freqs[s] == multiset(out)[s]
  {
    var primary := recency[0];
    ghost var r := recency[..n];
    if name == primary {
      zc := zeroCount + 1;
      out := output;
      BodyRepeat(r, zeroCount, ys);
    } else {
      out := MoveName(name, recency, freqs, output, zeroCount, n);
      zc := 0;
      ghost var i := IndexOf(r, name);
      MoveToFrontPerm(r, i);
      BodyMove(r, zeroCount, ys, i);
      ghost var rest := Body(recency[..n], 0, ys[1..]);
      Assoc(output, Zeros(zeroCount), [i + 1] + rest);
      Assoc(output + Zeros(zeroCount), [i + 1], rest);
    }
  }

  /** The main loop: every byte of the block through Advance, the run pending at the end left to the caller. */
  method EncodeNames(buf: seq<byte>, names: array<nat>, recency: array<nat>, freqs: array<nat>,
                     ghost xs: seq<nat>, ghost n: nat)
    returns (output: seq<nat>, zeroCount: nat)
    requires names.Length == 256 && recency.Length == 256 && freqs.Length == 258 && 0 < n <= 256
    requires names != recency && names != freqs && recency != freqs
    requires |xs| == |buf| && forall k :: 0 <= k < |buf| ==> names[buf[k]] == xs[k]
    requires recency[..n] == Iota(n) && forall k :: 0 <= k < |xs| ==> xs[k] in Iota(n)
    requires forall s :: 0 <= s < 258 ==> freqs[s] == 0
    modifies recency, freqs
    ensures Body(Iota(n), 0, xs) == output + Zeros(zeroCount)
    ensures forall s :: 0 <= s < 258 ==> freqs[s] == multiset(output)[s]
  {
    output := [];
    zeroCount := 0;
    assert xs[0..] == xs;
    var i := 0;
    while i < |buf|
      invariant i <= |buf|
      invariant forall k :: 0 <= k < |xs[i..]| ==> xs[i..][k] in recency[..n]
      invariant Body(Iota(n), 0, xs) == output + Body(recency[..n], zeroCount, xs[i..])
      invariant forall s :: 0 <= s < 258 ==> freqs[s] == multiset(output)[s]
    {
      output, zeroCount := Advance(names[buf[i]], recency, freqs, output, zeroCount, xs[i..], n);
      assert xs[i..][1..] == xs[i + 1..];
      i := i + 1;
    }
    assert xs[|buf|..] == [];
  }

  /** The end of a block: the trailing run, then EOB, which is counted once. */
  method CloseBlock(output: seq<nat>, freqs: array<nat>, zeroCount: nat, eob: nat, ghost body: seq<nat>)
    returns (out: seq<nat>)
    requires freqs.Length == 258 && eob < 258
    requires forall s :: 0 <= s < 258 ==> freqs[s] == multiset(output)[s]
    requires body == output + Zeros(zeroCount)
    requires forall k :: 0 <= k < |body| ==> body[k] < eob
    modifies freqs
    ensures out == body + [eob]
    ensures forall s :: 0 <= s < 258 ==> freqs[s] == multiset(out)[s]
  {
    out := FlushRun(output, freqs, zeroCount);
    assert eob !in multiset(out);
    out := out + [eob];
    freqs[eob] := 1;
  }

  /** The name table: each byte marked present gets the next name in byte order; the rest keep 0. */
  method NameBytes(has: seq<bool>) returns (names: array<nat>, numNames: nat)
    requires forall b :: 256 <= b < |has| ==> !has[b]
    ensures fresh(names) && names.Length == 256
    ensures numNames == NumNames(has) <= 256
    ensures forall c :: 0 <= c < 256 ==> names[c] == NameOf(has, c)
  {
    names := new nat[256](_ => 0);
    numNames := 0;
    for b := 0 to |has|
      invariant numNames == |Present(has[..b])|
      invariant forall c :: 0 <= c < 256 ==> names[c] == if c < b then NameOf(has, c) else 0
    {
      assert has[..b + 1][..b] == has[..b];
      if has[b] {
        names[b] := numNames;
        numNames := numNames + 1;
      }
    }
    assert has[..|has|] == has;
    PresentBound(has);
  }

  /** The recency list at the start: entry k holds name k. */
  method InitialRecency(numNames: nat) returns (recency: array<nat>)
    requires numNames <= 256
    ensures fresh(recency) && recency.Length == 256 && recency[..numNames] == Iota(numNames)
  {
    recency := new nat[256](_ => 0);
    for k := 0 to numNames
      invariant forall j :: 0 <= j < k ==> recency[j] == j
    {
      recency[k] := k;
    }
  }

  /** Move-to-front and RLE2 over a block, with `has` marking the bytes it uses. */
  method MtfAndRle(buf: seq<byte>, has: seq<bool>) returns (m: Mtf)
    requires forall b :: 256 <= b < |has| ==> !has[b]
    requires NumNames(has) > 0
    ensures m.output == BlockCode(has, buf)
    ensures m.numSyms == NumNames(has) + 2
    ensures |m.freqs| == 258 && forall s :: 0 <= s < 258 ==> m.freqs[s] == multiset(m.output)[s]
  {
    var names, numNames := NameBytes(has);
    ghost var n := numNames;
    var eob := numNames + 1;

    var freqs := new nat[258](_ => 0);
    var output: seq<nat> := [];
    var recency := InitialRecency(numNames);

    ghost var xs := NamesOf(has, buf);
    NamesOnIota(has, buf);
    var zeroCount;
    output, zeroCount := EncodeNames(buf, names, recency, freqs, xs, n);
    BodyBounds(Iota(n), 0, xs);
    output := CloseBlock(output, freqs, zeroCount, eob, Body(Iota(n), 0, xs));
    m := Mtf(output, numNames + 2, freqs[..]);
  }
}
