/**
 * The move-to-front and second run-length (RLE2) code of bzip2, stated as
 * functions, with the decoder that undoes it.
 *
 * The bytes present in a block are named 0, 1, ... in increasing byte
 * order. A recency list of the names starts as 0, 1, ..., N-1. Each name
 * of the block is coded by its index in the recency list and moved to the
 * front. Index 0 (a repeat of the front name) is not written directly:
 * a run of z such repeats is written as the digits of z in bijective base
 * 2, least significant first, RUNA (symbol 0) standing for 1 and RUNB
 * (symbol 1) for 2. Index r >= 1 is written as symbol r + 1, and the block
 * ends with EOB, symbol N + 1. There are N + 2 symbols in all.
 */
module MtfSpec {
  import opened Bytes
  import opened Seqs

  const RunA: nat := 0
  const RunB: nat := 1

  // ---------------------------------------------------------------------
  // Names.

  /** The bytes marked present, in increasing order. */
  function Present(has: seq<bool>): (r: seq<nat>)
    ensures |r| <= |has|
    ensures forall k :: 0 <= k < |r| ==> r[k] < |has|
  {
    if has == [] then []
    else Present(has[..|has| - 1]) + (if has[|has| - 1] then [|has| - 1] else [])
  }

  /** The number of names: how many bytes are present. */
  function NumNames(has: seq<bool>): nat
  {
    |Present(has)|
  }

  /** The name of byte `b`: how many present bytes are smaller, or 0 for a byte not marked present. */
  function NameOf(has: seq<bool>, b: nat): nat
  {
    if b < |has| && has[b] then |Present(has[..b])| else 0
  }

  /** The names of the bytes of `buf`. */
  function NamesOf(has: seq<bool>, buf: seq<byte>): (r: seq<nat>)
    ensures |r| == |buf| && forall k :: 0 <= k < |buf| ==> r[k] == NameOf(has, buf[k])
  {
    Map((b: byte) => NameOf(has, b), buf)
  }

  /** The byte with a given name. */
  function ByteOf(has: seq<bool>, n: nat): nat
  {
    if n < |Present(has)| then Present(has)[n] else 0
  }

  /** The present bytes of a prefix are a prefix of the present bytes. */
  lemma {:induction false} PresentPrefix(has: seq<bool>, m: nat)
    requires m <= |has|
    ensures Present(has[..m]) <= Present(has)
    decreases |has| - m
  {
    if m < |has| {
      PresentPrefix(has, m + 1);
      assert has[..m + 1][..m] == has[..m];
    } else {
      assert has[..m] == has;
    }
  }

  /** The present bytes are listed in strictly increasing order. */
  lemma {:induction false} PresentIncreasing(has: seq<bool>)
    ensures forall j, k :: 0 <= j < k < |Present(has)| ==> Present(has)[j] < Present(has)[k]
  {
    if has != [] {
      PresentIncreasing(has[..|has| - 1]);
    }
  }

  /** A byte marked present is named by its position among the present bytes. */
  lemma NameRoundTrip(has: seq<bool>, b: nat)
    requires b < |has| && has[b]
    ensures NameOf(has, b) < NumNames(has) && ByteOf(has, NameOf(has, b)) == b
  {
    assert has[..b + 1][..b] == has[..b];
    assert Present(has[..b + 1]) == Present(has[..b]) + [b];
    PresentPrefix(has, b + 1);
  }

  /** Names follow byte order: of two present bytes, the smaller has the smaller name. */
  lemma NamesOrdered(has: seq<bool>, a: nat, b: nat)
    requires a < b < |has| && has[a] && has[b]
    ensures NameOf(has, a) < NameOf(has, b)
  {
    NameRoundTrip(has, a);
    NameRoundTrip(has, b);
    PresentIncreasing(has);
  }

  /** Every name below the number of names belongs to a present byte: the names are contiguous from 0. */
  lemma NamesContiguous(has: seq<bool>, n: nat)
    requires n < NumNames(has)
    ensures ByteOf(has, n) < |has| && has[ByteOf(has, n)] && NameOf(has, ByteOf(has, n)) == n
  {
    var b := ByteOf(has, n);
    PresentMarked(has, n);
    NameRoundTrip(has, b);
    PresentIncreasing(has);
  }

  /** Every byte listed as present is marked present. */
  lemma {:induction false} PresentMarked(has: seq<bool>, n: nat)
    requires n < |Present(has)|
    ensures has[Present(has)[n]]
  {
    var t := has[..|has| - 1];
    if n < |Present(t)| {
      PresentMarked(t, n);
      assert t[Present(t)[n]] == has[Present(t)[n]];
    }
  }

  // ---------------------------------------------------------------------
  // The recency list.

  /** The recency list at the start: the names in order. */
  function Iota(n: nat): (r: seq<nat>)
    ensures |r| == n && forall k :: 0 <= k < n ==> r[k] == k
  {
    if n == 0 then [] else Iota(n - 1) + [n - 1]
  }

  /** The first index holding `x`. */
  function IndexOf(r: seq<nat>, x: nat): (i: nat)
    requires x in r
    ensures i < |r| && r[i] == x && x !in r[..i]
  {
    if r[0] == x then 0 else 1 + IndexOf(r[1..], x)
  }

  /** Entry `i` moved to the front, the entries before it shifted one place back. */
  function MoveToFront(r: seq<nat>, i: nat): (m: seq<nat>)
    requires i < |r|
    ensures |m| == |r| && m[0] == r[i]
  {
    [r[i]] + r[..i] + r[i + 1..]
  }

  /** Moving an entry to the front only reorders the list. */
  lemma MoveToFrontPerm(r: seq<nat>, i: nat)
    requires i < |r|
    ensures multiset(MoveToFront(r, i)) == multiset(r)
  {
    assert r == r[..i] + [r[i]] + r[i + 1..];
  }

  // ---------------------------------------------------------------------
  // The code.

  /** The digits RUNA/RUNB for the bits of `code` below its leading 1, least significant first. */
  function RunDigits(code: nat): (r: seq<nat>)
    decreases code
  {
    if code <= 1 then [] else [code % 2] + RunDigits(code / 2)
  }

  /** A run of `z` repeats of the front name. */
  function Zeros(z: nat): seq<nat>
  {
    RunDigits(z + 1)
  }

  /** The symbols for the names `xs` with the recency list `r`, `z` repeats of the front being pending; EOB not included. */
  function Body(r: seq<nat>, z: nat, xs: seq<nat>): seq<nat>
    requires |r| > 0 && forall k :: 0 <= k < |xs| ==> xs[k] in r
    decreases |xs|
  {
    if xs == [] then Zeros(z)
    else if xs[0] == r[0] then Body(r, z + 1, xs[1..])
    else
      var i := IndexOf(r, xs[0]);
      Zeros(z) + ([i + 1] + Body(MoveToFront(r, i), 0, xs[1..]))
  }

  /** The whole code of a block: its symbols followed by EOB. */
  function Encode(r: seq<nat>, xs: seq<nat>): seq<nat>
    requires |r| > 0 && forall k :: 0 <= k < |xs| ==> xs[k] in r
  {
    Body(r, 0, xs) + [|r| + 1]
  }

  /**
   * The decoder: digits accumulate the pending run, RUNA adding the
   * current weight `w` and RUNB twice it, the weight doubling each digit; a
   * symbol s from 2 to N emits the pending run of the front name, then the
   * name at index s - 1, which moves to the front; EOB, as the last
   * symbol, emits the pending run and ends the block.
   */
  function Decode(r: seq<nat>, acc: nat, w: nat, syms: seq<nat>): Option<seq<nat>>
    requires |r| > 0
    decreases |syms|
  {
    if syms == [] then None
    else
      var s := syms[0];
      if s <= RunB then Decode(r, if s == RunA then acc + w else acc + 2 * w, 2 * w, syms[1..])
      else if s == |r| + 1 then
        if |syms| == 1 then Some(Rep(r[0], acc)) else None
      else if s - 1 < |r| then
        match Decode(MoveToFront(r, s - 1), 0, 1, syms[1..])
        case None => None
        case Some(rest) => Some(Rep(r[0], acc) + [r[s - 1]] + rest)
      else None
  }

  // ---------------------------------------------------------------------
  // Properties of the code.

  /** The bijective base-2 value of the digits of `code` is `code - 1`. */
  function DigitsValue(ds: seq<nat>): int
  {
    if ds == [] then 0 else (ds[0] + 1) + 2 * DigitsValue(ds[1..])
  }

  lemma {:induction false} RunDigitsValue(code: nat)
    requires code >= 1
    ensures DigitsValue(RunDigits(code)) == code - 1
    ensures forall k :: 0 <= k < |RunDigits(code)| ==> RunDigits(code)[k] <= RunB
    ensures |RunDigits(code)| <= code - 1
    decreases code
  {
    if code > 1 {
      RunDigitsValue(code / 2);
      var ds := RunDigits(code);
      assert ds[1..] == RunDigits(code / 2);
    }
  }

  /** A run of `z` repeats is written with digits whose bijective base-2 value is `z`. */
  lemma ZerosValue(z: nat)
    ensures DigitsValue(Zeros(z)) == z && |Zeros(z)| <= z
    ensures forall k :: 0 <= k < |Zeros(z)| ==> Zeros(z)[k] <= RunB
    ensures z > 0 ==> |Zeros(z)| > 0
  {
    RunDigitsValue(z + 1);
  }

  /** What the decoder adds to the pending run for the digits of `code`, the first at weight `w`. */
  function RunValue(w: nat, code: nat): nat
    decreases code
  {
    if code <= 1 then 0 else (if code % 2 == RunA then w else 2 * w) + RunValue(2 * w, code / 2)
  }

  /** The decoder's weight after the digits of `code`, the first at weight `w`. */
  function RunWeight(w: nat, code: nat): nat
    decreases code
  {
    if code <= 1 then w else RunWeight(2 * w, code / 2)
  }

  /** The digits of `code` are worth `code - 1` times the weight of the first. */
  lemma {:induction false} RunValueIs(w: nat, code: nat)
    requires code >= 1
    ensures RunValue(w, code) == w * (code - 1)
    decreases code
  {
    if code > 1 {
      RunValueIs(2 * w, code / 2);
      DigitArith(w, code % 2, code / 2, code);
    }
  }

  lemma DigitArith(w: nat, b: nat, q: nat, code: nat)
    requires b <= 1 && q >= 1 && code == 2 * q + b
    ensures (if b == 0 then w else 2 * w) + (2 * w) * (q - 1) == w * (code - 1)
  {
    var t := q - 1;
    assert code - 1 == 2 * t + (b + 1);
    Distrib(w, 2, t, b + 1);
    if b == 0 {
      assert w * (b + 1) == w;
    } else {
      assert w * (b + 1) == 2 * w;
    }
  }

  /** One digit adds its weight to the pending run. */
  lemma DecodeDigit(r: seq<nat>, acc: nat, w: nat, s: nat, t: seq<nat>)
    requires |r| > 0 && s <= RunB
    ensures Decode(r, acc, w, [s] + t) == Decode(r, acc + (if s == RunA then w else 2 * w), 2 * w, t)
  {
    assert ([s] + t)[1..] == t;
  }

  /** An index symbol emits the pending run and the name it indexes, whatever the weight. */
  lemma DecodeIndex(r: seq<nat>, acc: nat, w: nat, i: nat, t: seq<nat>, rest: seq<nat>)
    requires i < |r| && 0 < i
    requires Decode(MoveToFront(r, i), 0, 1, t) == Some(rest)
    ensures Decode(r, acc, w, [i + 1] + t) == Some(Rep(r[0], acc) + [r[i]] + rest)
  {
    assert ([i + 1] + t)[1..] == t;
  }

  /** EOB as the last symbol emits the pending run. */
  lemma DecodeEob(r: seq<nat>, acc: nat, w: nat)
    requires |r| > 0
    ensures Decode(r, acc, w, [|r| + 1]) == Some(Rep(r[0], acc))
  {
  }

  /** Reading the digits of `code` adds their value to the pending run. */
  lemma {:induction false} DecodeDigits(r: seq<nat>, acc: nat, w: nat, code: nat, t: seq<nat>)
    requires |r| > 0 && code >= 1
    ensures Decode(r, acc, w, RunDigits(code) + t) == Decode(r, acc + RunValue(w, code), RunWeight(w, code), t)
    decreases code
  {
    if code > 1 {
      var b, q := code % 2, code / 2;
      var qs := RunDigits(q);
      assert RunDigits(code) + t == [b] + (qs + t);
      DecodeDigit(r, acc, w, b, qs + t);
      var acc' := acc + (if b == RunA then w else 2 * w);
      DecodeDigits(r, acc', 2 * w, q, t);
      assert acc' + RunValue(2 * w, q) == acc + RunValue(w, code);
      assert RunWeight(2 * w, q) == RunWeight(w, code);
    } else {
      assert RunDigits(code) + t == t;
    }
  }

  /** Reading a run of `z` repeats from scratch leaves `z` pending. */
  lemma DecodeZeros(r: seq<nat>, z: nat, t: seq<nat>)
    requires |r| > 0
    ensures Decode(r, 0, 1, Zeros(z) + t) == Decode(r, z, RunWeight(1, z + 1), t)
  {
    DecodeDigits(r, 0, 1, z + 1, t);
    RunValueIs(1, z + 1);
    assert RunValue(1, z + 1) == z;
  }

  /** The names after the first are on the recency list once the first has moved to the front. */
  lemma OnListAfterMove(r: seq<nat>, i: nat, xs: seq<nat>)
    requires i < |r| && forall k :: 0 <= k < |xs| ==> xs[k] in r
    ensures forall k :: 0 <= k < |xs| ==> xs[k] in MoveToFront(r, i)
  {
    var m := MoveToFront(r, i);
    MoveToFrontPerm(r, i);
    forall k | 0 <= k < |xs|
      ensures xs[k] in m
    {
      assert xs[k] in multiset(r);
    }
  }

  /** A repeat of the front name adds to the pending run. */
  lemma BodyRepeat(r: seq<nat>, z: nat, ys: seq<nat>)
    requires |r| > 0 && ys != [] && ys[0] == r[0] && forall k :: 0 <= k < |ys| ==> ys[k] in r
    ensures Body(r, z, ys) == Body(r, z + 1, ys[1..])
  {
  }

  /** Another name flushes the pending run and is written as its index plus one. */
  lemma BodyMove(r: seq<nat>, z: nat, ys: seq<nat>, i: nat)
    requires |r| > 0 && ys != [] && ys[0] != r[0] && forall k :: 0 <= k < |ys| ==> ys[k] in r
    requires i == IndexOf(r, ys[0])
    ensures 0 < i < |r| && r[i] == ys[0]
    ensures forall k :: 0 <= k < |ys[1..]| ==> ys[1..][k] in MoveToFront(r, i)
    ensures Body(r, z, ys) == Zeros(z) + ([i + 1] + Body(MoveToFront(r, i), 0, ys[1..]))
  {
    OnListAfterMove(r, i, ys[1..]);
  }

  /** The last step of the induction: a block ends with a run of repeats of the front name. */
  lemma DecodeRunEnd(r: seq<nat>, z: nat)
    requires |r| > 0
    ensures Decode(r, 0, 1, Zeros(z) + [|r| + 1]) == Some(Rep(r[0], z))
  {
    DecodeZeros(r, z, [|r| + 1]);
    DecodeEob(r, z, RunWeight(1, z + 1));
  }

  /** Another name ends the pending run and is coded by its index. */
  lemma DecodeMove(r: seq<nat>, z: nat, i: nat, m: seq<nat>, b: seq<nat>, rest: seq<nat>)
    requires 0 < i < |r| && m == MoveToFront(r, i)
    requires Decode(m, 0, 1, b + [|m| + 1]) == Some(Rep(m[0], 0) + rest)
    ensures Decode(r, 0, 1, Zeros(z) + ([i + 1] + b) + [|r| + 1]) == Some(Rep(r[0], z) + [r[i]] + rest)
  {
    assert Rep(m[0], 0) + rest == rest;
    var tail := b + [|r| + 1];
    Assoc(Zeros(z), [i + 1] + b, [|r| + 1]);
    Assoc([i + 1], b, [|r| + 1]);
    DecodeZeros(r, z, [i + 1] + tail);
    DecodeIndex(r, z, RunWeight(1, z + 1), i, tail, rest);
  }

  /** Decoding a block's code gives back its names, after any pending repeats of the front name. */
  lemma {:induction false} DecodeBody(r: seq<nat>, z: nat, xs: seq<nat>)
    requires |r| > 0 && forall k :: 0 <= k < |xs| ==> xs[k] in r
    ensures Decode(r, 0, 1, Body(r, z, xs) + [|r| + 1]) == Some(Rep(r[0], z) + xs)
    decreases |xs|
  {
    if xs == [] {
      DecodeRunEnd(r, z);
      assert Rep(r[0], z) + xs == Rep(r[0], z);
    } else if xs[0] == r[0] {
      BodyRepeat(r, z, xs);
      DecodeBody(r, z + 1, xs[1..]);
      assert Rep(r[0], z + 1) == Rep(r[0], z) + [xs[0]];
      HeadBack(Rep(r[0], z), xs);
    } else {
      var i := IndexOf(r, xs[0]);
      var m := MoveToFront(r, i);
      BodyMove(r, z, xs, i);
      DecodeBody(m, 0, xs[1..]);
      DecodeMove(r, z, i, m, Body(m, 0, xs[1..]), xs[1..]);
      HeadBack(Rep(r[0], z), xs);
    }
  }

  /** The decoder undoes the code. */
  lemma DecodeEncode(r: seq<nat>, xs: seq<nat>)
    requires |r| > 0 && forall k :: 0 <= k < |xs| ==> xs[k] in r
    ensures Decode(r, 0, 1, Encode(r, xs)) == Some(xs)
  {
    DecodeBody(r, 0, xs);
    assert Rep(r[0], 0) + xs == xs;
  }

  /** The symbols before EOB are RUNA, RUNB or an index symbol 2..N: all below EOB; there are at most |xs| + z of them. */
  lemma {:induction false} BodyBounds(r: seq<nat>, z: nat, xs: seq<nat>)
    requires |r| > 0 && forall k :: 0 <= k < |xs| ==> xs[k] in r
    ensures forall k :: 0 <= k < |Body(r, z, xs)| ==> Body(r, z, xs)[k] <= |r|
    ensures |Body(r, z, xs)| <= z + |xs|
    decreases |xs|
  {
    ZerosValue(z);
    if xs != [] {
      if xs[0] == r[0] {
        BodyBounds(r, z + 1, xs[1..]);
        assert Body(r, z, xs) == Body(r, z + 1, xs[1..]);
      } else {
        var i := IndexOf(r, xs[0]);
        var m := MoveToFront(r, i);
        OnListAfterMove(r, i, xs[1..]);
        BodyBounds(m, 0, xs[1..]);
        assert Body(r, z, xs) == Zeros(z) + ([i + 1] + Body(m, 0, xs[1..]));
      }
    }
  }

  /** Every symbol is below N + 2, EOB is last and only last, and the code is at most one longer than the block. */
  lemma EncodeShape(r: seq<nat>, xs: seq<nat>)
    requires |r| > 0 && forall k :: 0 <= k < |xs| ==> xs[k] in r
    ensures var e := Encode(r, xs);
      |e| <= |xs| + 1 && e[|e| - 1] == |r| + 1 &&
      forall k :: 0 <= k < |e| - 1 ==> e[k] < |r| + 1
  {
    BodyBounds(r, 0, xs);
  }

  /** Every name is below the number of names; a byte not marked present is given name 0. */
  lemma NameBound(has: seq<bool>, b: nat)
    requires NumNames(has) > 0
    ensures NameOf(has, b) < NumNames(has)
  {
    if b < |has| && has[b] {
      NameRoundTrip(has, b);
    }
  }

  /** Every name of a block is on the initial recency list. */
  lemma NamesOnIota(has: seq<bool>, buf: seq<byte>)
    requires NumNames(has) > 0
    ensures forall k :: 0 <= k < |buf| ==> NamesOf(has, buf)[k] in Iota(NumNames(has))
  {
    forall k | 0 <= k < |buf|
      ensures NamesOf(has, buf)[k] in Iota(NumNames(has))
    {
      NameBound(has, buf[k]);
      assert Iota(NumNames(has))[NameOf(has, buf[k])] == NameOf(has, buf[k]);
    }
  }

  /** The code of a block of bytes, the recency list starting as the names in order. */
  function BlockCode(has: seq<bool>, buf: seq<byte>): seq<nat>
    requires NumNames(has) > 0
  {
    NamesOnIota(has, buf);
    Encode(Iota(NumNames(has)), NamesOf(has, buf))
  }

  /** At most 256 bytes can be present when none from 256 up is marked. */
  lemma {:induction false} PresentBound(has: seq<bool>)
    requires forall b :: 256 <= b < |has| ==> !has[b]
    ensures NumNames(has) <= 256
  {
    if |has| > 256 {
      var t := has[..|has| - 1];
      assert Present(has) == Present(t);
      PresentBound(t);
    }
  }

  /**
   * The code of a block: every symbol is below N + 2, EOB (N + 1) is last
   * and only last, there is at most one symbol more than bytes, and when
   * every byte of the block is marked present, decoding the code and
   * mapping the names back to bytes gives back the block.
   */
  lemma BlockRoundTrip(has: seq<bool>, buf: seq<byte>)
    requires NumNames(has) > 0
    ensures var e, n := BlockCode(has, buf), NumNames(has);
      |e| <= |buf| + 1 && e[|e| - 1] == n + 1 &&
      forall k :: 0 <= k < |e| - 1 ==> e[k] < n + 1
    ensures Decode(Iota(NumNames(has)), 0, 1, BlockCode(has, buf)) == Some(NamesOf(has, buf))
    ensures (forall k :: 0 <= k < |buf| ==> buf[k] < |has| && has[buf[k]]) ==>
      forall k :: 0 <= k < |buf| ==> ByteOf(has, NamesOf(has, buf)[k]) == buf[k]
  {
    NamesOnIota(has, buf);
    EncodeShape(Iota(NumNames(has)), NamesOf(has, buf));
    DecodeEncode(Iota(NumNames(has)), NamesOf(has, buf));
    if forall k :: 0 <= k < |buf| ==> buf[k] < |has| && has[buf[k]] {
      forall k | 0 <= k < |buf|
        ensures ByteOf(has, NamesOf(has, buf)[k]) == buf[k]
      {
        NameRoundTrip(has, buf[k]);
      }
    }
  }

  lemma VectorNames(has: seq<bool>)
    requires has == [false, true, false, true]
    ensures NumNames(has) == 2 && NamesOf(has, [3, 3, 1, 3]) == [1, 1, 0, 1]
  {
    assert has[..1] == [false] && has[..2] == [false, true] && has[..3] == [false, true, false];
    assert [false, true, false][..2] == [false, true] && [false, true][..1] == [false];
    assert Present(has[..3]) == [1];
    assert Present(has[..1]) == [];
    assert Present(has) == [1, 3];
    assert NameOf(has, 3) == 1 && NameOf(has, 1) == 0;
  }

  lemma VectorTail()
    ensures Body([1, 0], 0, [1, 0, 1]) == [RunA, 2, 2]
  {
    assert [1, 0, 1][1..] == [0, 1] && [0, 1][1..] == [1] && [1][1..] == [];
    assert Zeros(1) == [RunA];
    assert Body([0, 1], 0, [1]) == [2] + Body([1, 0], 0, []);
    assert Body([1, 0], 1, [0, 1]) == [RunA] + ([2] + Body([0, 1], 0, [1]));
  }

  lemma VectorBody()
    ensures Body([0, 1], 0, [1, 1, 0, 1]) == [2, RunA, 2, 2]
  {
    assert [1, 1, 0, 1][1..] == [1, 0, 1];
    VectorTail();
    assert Body([0, 1], 0, [1, 1, 0, 1]) == [] + ([2] + Body([1, 0], 0, [1, 0, 1]));
  }

  /** A small block: bytes 1 and 3 are named 0 and 1, and 3, 3, 1, 3 is coded 2, RUNA, 2, 2, EOB. */
  lemma CodeVector()
    ensures BlockCode([false, true, false, true], [3, 3, 1, 3]) == [2, RunA, 2, 2, 3]
  {
    VectorNames([false, true, false, true]);
    assert Iota(2) == [0, 1];
    VectorBody();
  }
}
