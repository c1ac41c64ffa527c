/**
 * The block-bounded first-pass run-length coder over an in-memory slice
 * (src/rle.rs).
 *
 * The coder walks the input two bytes at a time. At every stop it checks
 * whether the byte is the start of a run of four, either starting one byte
 * back (when that byte lies above the floor, the end of the last coded run)
 * or here; a run found is coded as four literals and a count of up to 251
 * further copies. Every byte it emits goes through a buffer that refuses to
 * grow past one byte less than the block size.
 *
 * The proof ties the coder to the reference coding `Rle1Spec`: the coder's
 * output is the reference coding of the prefix it consumed, it stops only
 * when the block is full to within one byte, and therefore on any input
 * whose coding fits it consumes everything and agrees with the reference.
 */
module RleSlice {
  import opened Bytes
  import opened Rle1Reference

  /** Four equal bytes start at `j`. */
  predicate Quad(buf: seq<byte>, j: nat)
    requires j + 3 < |buf|
  {
    buf[j] == buf[j + 1] && buf[j + 1] == buf[j + 2] && buf[j + 2] == buf[j + 3]
  }

  /** No four equal bytes start at or above `lo` and end below `hi`. */
  predicate NoQuad(buf: seq<byte>, lo: nat, hi: nat)
  {
    forall j :: lo <= j && j + 3 < hi && j + 3 < |buf| ==> !Quad(buf, j)
  }

  /**
   * The prefix below `floor` ends with a closed run: its open run has four
   * or more bytes and the next byte cannot lengthen it.
   */
  predicate Clean(buf: seq<byte>, floor: nat)
    requires floor <= |buf|
  {
    floor == 0 ||
    (Scan(buf[..floor]).count >= 4 &&
     (floor == |buf| || buf[floor] != Scan(buf[..floor]).cur || Scan(buf[..floor]).count == 255))
  }

  /** The reference code of the prefix below `floor`. */
  function Below(buf: seq<byte>, floor: nat): seq<byte>
    requires floor <= |buf|
  {
    Flush(Scan(buf[..floor]))
  }

  /** The loop state after one more byte. */
  lemma ScanSnoc(buf: seq<byte>, j: nat)
    requires j < |buf|
    ensures Scan(buf[..j + 1]) == Step(Scan(buf[..j]), buf[j])
  {
    assert buf[..j + 1][..j] == buf[..j];
  }

  lemma SliceSnoc(buf: seq<byte>, a: nat, b: nat)
    requires a <= b < |buf|
    ensures buf[a..b + 1] == buf[a..b] + [buf[b]]
  {
  }

  /** The first byte above a clean floor opens a new run of length one. */
  lemma FloorStep(buf: seq<byte>, floor: nat)
    requires floor < |buf| && Clean(buf, floor)
    ensures Scan(buf[..floor + 1]) == Tracker(Below(buf, floor) + [buf[floor]], 1, buf[floor])
  {
    ScanSnoc(buf, floor);
  }

  /**
   * The loop state `t` after the literals from `floor` up to `j`: they are
   * all in the output, and the open run is shorter than four.
   */
  ghost predicate Literals(buf: seq<byte>, floor: nat, j: nat, t: Tracker)
    requires floor < j <= |buf|
  {
    t.out == Below(buf, floor) + buf[floor..j] &&
    1 <= t.count <= 3 && t.count <= j - floor && t.cur == buf[j - 1] &&
    forall m :: j - t.count <= m < j ==> buf[m] == buf[j - 1]
  }

  /** One more byte that does not complete four equal ones is coded as itself. */
  lemma LiteralStep(buf: seq<byte>, floor: nat, j: nat)
    requires floor < j < |buf|
    requires !(j >= floor + 3 && Quad(buf, j - 3))
    requires Literals(buf, floor, j, Scan(buf[..j]))
    ensures Literals(buf, floor, j + 1, Scan(buf[..j + 1]))
  {
    ScanSnoc(buf, j);
    SliceSnoc(buf, floor, j);
    var k := Scan(buf[..j]).count;
    assert k == 3 ==> buf[j] != buf[j - 1] by {
      if k == 3 {
        assert buf[j - 3] == buf[j - 2] == buf[j - 1];
      }
    }
  }

  /** The first byte above a clean floor is a literal. */
  lemma LiteralFirst(buf: seq<byte>, floor: nat)
    requires floor < |buf| && Clean(buf, floor)
    ensures Literals(buf, floor, floor + 1, Scan(buf[..floor + 1]))
  {
    FloorStep(buf, floor);
    assert buf[floor..floor + 1] == [buf[floor]];
  }

  /**
   * Above a clean floor, bytes that hold no four equal in a row are coded
   * as themselves, and the open run they end with is shorter than four.
   */
  lemma {:induction false} LiteralSpan(buf: seq<byte>, floor: nat, j: nat)
    requires floor < j <= |buf| && Clean(buf, floor)
    requires NoQuad(buf, floor, j)
    ensures Literals(buf, floor, j, Scan(buf[..j]))
    decreases j - floor
  {
    if j - 1 == floor {
      LiteralFirst(buf, floor);
    } else {
      LiteralSpan(buf, floor, j - 1);
      if j - 1 >= floor + 3 {
        assert !Quad(buf, j - 4);
      }
      LiteralStep(buf, floor, j - 1);
    }
  }

  /** The literals above a clean floor, flushed, end the code. */
  lemma LiteralCode(buf: seq<byte>, floor: nat, j: nat)
    requires floor <= j <= |buf| && Clean(buf, floor)
    requires NoQuad(buf, floor, j)
    ensures Flush(Scan(buf[..j])) == Below(buf, floor) + buf[floor..j]
  {
    if j == floor {
      assert buf[floor..j] == [];
    } else {
      LiteralSpan(buf, floor, j);
    }
  }

  /** A run that starts above a clean floor, after the literals below it. */
  lemma {:induction false} RunPiece(buf: seq<byte>, floor: nat, r: nat, k: nat)
    requires 1 <= k <= 255 && r + k <= |buf|
    requires floor <= r && Clean(buf, floor) && NoQuad(buf, floor, r)
    requires r == floor || buf[r - 1] != buf[r]
    requires forall m :: r <= m < r + k ==> buf[m] == buf[r]
    ensures Scan(buf[..r + k]) == Tracker(Below(buf, floor) + buf[floor..r] + Rep(buf[r], Min(k, 4)), k, buf[r])
    decreases k
  {
    if k == 1 {
      RunStart(buf, floor, r);
    } else {
      RunPiece(buf, floor, r, k - 1);
      RunGrow(buf, r, k, Below(buf, floor) + buf[floor..r]);
    }
  }

  lemma RunStart(buf: seq<byte>, floor: nat, r: nat)
    requires r < |buf|
    requires floor <= r && Clean(buf, floor) && NoQuad(buf, floor, r)
    requires r == floor || buf[r - 1] != buf[r]
    ensures Scan(buf[..r + 1]) == Tracker(Below(buf, floor) + buf[floor..r] + Rep(buf[r], 1), 1, buf[r])
  {
    var x := buf[r];
    assert Rep(x, 1) == [x];
    if r == floor {
      assert buf[floor..r] == [];
      FloorStep(buf, floor);
    } else {
      LiteralSpan(buf, floor, r);
      ScanSnoc(buf, r);
    }
  }

  lemma RunGrow(buf: seq<byte>, r: nat, k: nat, prefix: seq<byte>)
    requires 2 <= k <= 255 && r + k <= |buf|
    requires buf[r + k - 1] == buf[r]
    requires Scan(buf[..r + k - 1]) == Tracker(prefix + Rep(buf[r], Min(k - 1, 4)), k - 1, buf[r])
    ensures Scan(buf[..r + k]) == Tracker(prefix + Rep(buf[r], Min(k, 4)), k, buf[r])
  {
    var x := buf[r];
    var t := Scan(buf[..r + k - 1]);
    ScanSnoc(buf, r + k - 1);
    assert t.cur == x && t.count + 1 == k;
    if k <= 4 {
      assert Rep(x, k) == Rep(x, k - 1) + [x];
      AppendAssoc(prefix, Rep(x, k - 1), [x]);
      assert Step(t, x).out == prefix + Rep(x, k);
    } else {
      assert Step(t, x).out == prefix + Rep(x, 4);
    }
  }

  /** A run of four or more, once closed, is four literals and its count, and leaves a clean floor. */
  lemma RunClosed(buf: seq<byte>, floor: nat, r: nat, k: nat)
    requires 4 <= k <= 255 && r + k <= |buf|
    requires floor <= r && Clean(buf, floor) && NoQuad(buf, floor, r)
    requires r == floor || buf[r - 1] != buf[r]
    requires forall m :: r <= m < r + k ==> buf[m] == buf[r]
    requires r + k == |buf| || buf[r + k] != buf[r] || k == 255
    ensures Below(buf, r + k) == Below(buf, floor) + buf[floor..r] + Rep(buf[r], 4) + [k - 4]
    ensures Clean(buf, r + k)
  {
    RunPiece(buf, floor, r, k);
  }

  /** After a hop with no run: neither window through the two new bytes holds four equal bytes. */
  lemma NoQuadAfterHop(buf: seq<byte>, floor: nat, i: nat)
    requires NoQuad(buf, floor, i + 2) && i + 2 < |buf|
    requires i >= floor + 1 ==> !Quad(buf, i - 1)
    requires i + 3 < |buf| ==> !Quad(buf, i)
    ensures NoQuad(buf, floor, i + 4)
  {
  }

  /** After a step check that found no run starting one byte back. */
  lemma NoQuadAfterStep(buf: seq<byte>, floor: nat, i: nat)
    requires floor <= i && i + 2 < |buf| && NoQuad(buf, floor, i + 2)
    requires i == floor || buf[i - 1] != buf[i]
    ensures NoQuad(buf, floor, i + 3)
  {
  }

  /** The coded prefix `base` followed by the bytes from `floor` up to `i`, one push at a time. */
  ghost function Pushed(base: seq<byte>, buf: seq<byte>, floor: nat, i: nat): (r: seq<byte>)
    requires floor <= i <= |buf|
    ensures |r| == |base| + i - floor
    decreases i - floor
  {
    if i == floor then base else Pushed(base, buf, floor, i - 1) + [buf[i - 1]]
  }

  lemma {:induction false} PushedIs(base: seq<byte>, buf: seq<byte>, floor: nat, i: nat)
    requires floor <= i <= |buf|
    ensures Pushed(base, buf, floor, i) == base + buf[floor..i]
    decreases i - floor
  {
    if i == floor {
      assert buf[floor..i] == [];
    } else {
      PushedIs(base, buf, floor, i - 1);
      assert buf[floor..i] == buf[floor..i - 1] + [buf[i - 1]];
    }
  }

  /** The span through the first four bytes of a run. */
  lemma RunOpen(buf: seq<byte>, floor: nat, r: nat)
    requires floor <= r && r + 4 <= |buf|
    requires forall m :: r <= m < r + 4 ==> buf[m] == buf[r]
    ensures buf[floor..r + 4] == buf[floor..r] + Rep(buf[r], 4)
  {
    assert buf[floor..r + 4] == buf[floor..r] + buf[r..r + 4];
    assert buf[r..r + 4] == Rep(buf[r], 4);
  }

  /** Literals above a clean floor end the reference code of the prefix. */
  lemma CodedPrefix(buf: seq<byte>, floor: nat, j: nat)
    requires floor <= j <= |buf| && Clean(buf, floor) && NoQuad(buf, floor, j)
    ensures Rle1Spec(buf[..j]) == Below(buf, floor) + buf[floor..j]
  {
    LiteralCode(buf, floor, j);
    ScanSpec(buf[..j]);
  }

  /** The code of a prefix is no longer than the code of the whole. */
  lemma PrefixShorter(buf: seq<byte>, j: nat)
    requires j <= |buf|
    ensures |Rle1Spec(buf[..j])| <= |Rle1Spec(buf)|
  {
    var p, q := buf[..j], buf[j..];
    assert p + q == buf;
    LengthMonotone(p, q);
  }

  /**
   * Pushes the byte at `i` and the one after it, as long as the block has
   * room for them and more; stops at the end of the input or of the block.
   */
  method PushPair(out: BoundedBuffer, buf: seq<byte>, floor: nat, i: nat, b: byte, ghost base: seq<byte>, ghost maxLen: int)
    returns (next: nat, stop: bool)
    requires floor <= i < |buf| && b == buf[i] && NoQuad(buf, floor, i + 2)
    requires out.buffer == Pushed(base, buf, floor, i) && |out.buffer| + out.bound == maxLen
    modifies out
    ensures |out.buffer| + out.bound == maxLen && i <= next
    ensures stop ==> Stopped(buf, floor, next, base, out.buffer, out.bound, maxLen)
    ensures !stop ==> next == i && i + 2 < |buf| && out.buffer == Pushed(base, buf, floor, i + 2)
  {
    next, stop := i, true;
    if out.bound == 0 {
      return;
    } else if out.bound == 1 {
      out.Push(b);
      next := i + 1;
      return;
    }
    out.Push(b);
    if i + 2 >= |buf| {
      if i + 1 < |buf| {
        out.Push(buf[i + 1]);
        next := i + 2;
      } else {
        next := i + 1;
      }
      return;
    }
    out.Push(buf[i + 1]);
    stop := false;
  }

  /**
   * At three equal bytes from `i`, whose first two are in `out`: looks for
   * a run of four starting one byte back (above the floor) or here, and
   * pushes the rest of its four literals. Stops when the block has no room
   * for the literals and the count.
   *
   * The coder reads `buf`, a prefix of the input `whole` that is either all
   * of it or reaches 256 bytes past `i`, far enough for any run from here.
   */
  method StartRun(out: BoundedBuffer, buf: seq<byte>, ghost whole: seq<byte>, floor: nat, i: nat, b: byte,
                  ghost base: seq<byte>, ghost maxLen: int)
    returns (next: nat, run: bool, stop: bool, ghost r: nat)
    requires buf <= whole && (buf == whole || i + 256 <= |buf|)
    requires floor <= i && i + 2 < |buf| && b == buf[i] == buf[i + 1] == buf[i + 2]
    requires NoQuad(whole, floor, i + 2) && out.buffer == Pushed(base, whole, floor, i + 2)
    requires |out.buffer| + out.bound == maxLen
    modifies out
    ensures |out.buffer| + out.bound == maxLen && i <= next <= |buf| && (run ==> i + 3 <= next <= i + 4)
    ensures stop ==> Stopped(whole, floor, next, base, out.buffer, out.bound, maxLen)
    ensures !stop && run ==>
      RunFound(whole, floor, r, next, b) && out.buffer == Pushed(base, whole, floor, next) && out.bound >= 1
    ensures !stop && !run ==> next == i && out.buffer == old(out.buffer) && NoQuad(whole, floor, i + 4)
  {
    run, stop := false, false;
    next, r := i, i;
    if i > floor {
      if b == buf[i - 1] {
        if out.bound < 2 {
          next, stop := i + 2, true;
          return;
        }
        out.Push(b);
        r := i - 1;
        if i - 2 >= floor {
          assert !Quad(whole, i - 2);
        }
        next := i + 3;
        run := true;
        return;
      }
    }
    if i + 3 < |buf| {
      var step := buf[i + 3];
      if b == step {
        if out.bound == 0 {
          next, stop := i + 2, true;
          return;
        }
        out.Push(b);
        if out.bound < 2 {
          next, stop := i + 3, true;
          NoQuadAfterStep(whole, floor, i);
          return;
        }
        out.Push(step);
        next := i + 4;
        run := true;
        return;
      }
    }
    NoQuadAfterHop(whole, floor, i);
  }

  /**
   * Codes up to 251 further copies of the run of `b` found at `r`, whose
   * four literals are already in `out`, as one count byte; returns the index
   * past the run, the new floor. As for `StartRun`, `buf` is all of `whole`
   * or reaches far enough past `i`.
   */
  method CloseRun(out: BoundedBuffer, buf: seq<byte>, ghost whole: seq<byte>, floor: nat, ghost r: nat, i: nat, b: byte)
    returns (next: nat)
    requires buf <= whole && (buf == whole || i + 252 <= |buf|)
    requires RunFound(whole, floor, r, i, b) && Clean(whole, floor)
    requires out.buffer == Pushed(Below(whole, floor), whole, floor, i) && out.bound > 0
    modifies out
    ensures i <= next <= |whole| && Clean(whole, next) && next < i + 252
    ensures |out.buffer| == |old(out.buffer)| + 1 && out.bound == old(out.bound) - 1
    ensures out.buffer == Pushed(Below(whole, next), whole, next, next)
  {
    var repCount := 0;
    next := i;
    while repCount < 251
      invariant repCount <= 251 && next == i + repCount <= |buf|
      invariant forall m :: r <= m < next ==> whole[m] == b
      decreases 251 - repCount
    {
      if next < |buf| && buf[next] == b {
        repCount := repCount + 1;
        next := next + 1;
        continue;
      }
      break;
    }
    ghost var prefix := out.buffer;
    PushedIs(Below(whole, floor), whole, floor, i);
    RunCoded(whole, floor, r, 4 + repCount, prefix);
    out.Push(repCount);
    assert out.buffer == prefix + [repCount];
  }

  /** What the coder knows when it stops at `i`. */
  ghost predicate Stopped(buf: seq<byte>, floor: nat, i: nat, base: seq<byte>, buffer: seq<byte>, bound: nat, maxLen: int)
  {
    floor <= i <= |buf| && NoQuad(buf, floor, i) && buffer == Pushed(base, buf, floor, i) &&
    |buffer| + bound == maxLen && (i == |buf| || bound <= 1)
  }

  /** Where the coder stops, its output is the reference code of the prefix it read. */
  lemma StoppedCode(buf: seq<byte>, floor: nat, i: nat, base: seq<byte>, buffer: seq<byte>, bound: nat, level: nat)
    requires level >= 1 && Stopped(buf, floor, i, base, buffer, bound, MaxLen(level))
    requires Clean(buf, floor) && base == Below(buf, floor)
    ensures i <= |buf| && buffer == Rle1Spec(buf[..i])
    ensures |buffer| <= MaxLen(level)
    ensures i < |buf| ==> |buffer| >= MaxLen(level) - 1
    ensures |buf| > 0 ==> i > 0
    ensures |Rle1Spec(buf)| < MaxLen(level) - 1 ==> i == |buf| && buffer == Rle1Spec(buf)
  {
    PushedIs(base, buf, floor, i);
    CodedPrefix(buf, floor, i);
    PrefixShorter(buf, i);
    if i == |buf| {
      assert buf[..i] == buf;
    }
    if i == 0 {
      assert buf[..0] == [];
    }
  }

  /** Four copies of `b` start at `r`, the first run above the floor, and end at `i`. */
  ghost predicate RunFound(buf: seq<byte>, floor: nat, r: nat, i: nat, b: byte)
  {
    floor <= r && r + 4 == i <= |buf| && buf[r] == b && NoQuad(buf, floor, r) &&
    (r == floor || buf[r - 1] != b) &&
    forall m :: r <= m < i ==> buf[m] == b
  }

  /** The code so far, once a run of `k` found at `r` is closed by its count. */
  lemma RunCoded(buf: seq<byte>, floor: nat, r: nat, k: nat, prefix: seq<byte>)
    requires 4 <= k <= 255 && r + k <= |buf|
    requires floor <= r && Clean(buf, floor) && NoQuad(buf, floor, r)
    requires r == floor || buf[r - 1] != buf[r]
    requires forall m :: r <= m < r + k ==> buf[m] == buf[r]
    requires r + k == |buf| || buf[r + k] != buf[r] || k == 255
    requires prefix == Below(buf, floor) + buf[floor..r + 4]
    ensures prefix + [k - 4] == Below(buf, r + k) && Clean(buf, r + k)
  {
    RunOpen(buf, floor, r);
    RunClosed(buf, floor, r, k);
  }

  /** The output bound of a block: one less than the block size, leaving room for the end-of-block symbol. */
  function MaxLen(level: nat): int
  {
    100000 * level - 1
  }

  /** An output buffer that refuses to grow past its bound. */
  class BoundedBuffer {
    var bound: nat
    var buffer: seq<byte>

    constructor (bound: nat)
      ensures this.bound == bound && buffer == []
    {
      this.bound := bound;
      buffer := [];
    }

    /** Appends one byte; the caller must have room for it. */
    method Push(b: byte)
      requires bound > 0
      modifies this
      ensures buffer == old(buffer) + [b] && bound == old(bound) - 1
    {
      buffer := buffer + [b];
      bound := bound - 1;
    }
  }

  /**
   * One pass of the coder's loop from `i`: pushes the pair at `i`, and at
   * three equal bytes looks for a run and closes it. Returns where the next
   * pass starts, with the floor moved past a closed run, or that the coder
   * has stopped.
   */
  method Round(out: BoundedBuffer, buf: seq<byte>, floor: nat, i: nat, b: byte, ghost base: seq<byte>, ghost maxLen: int)
    returns (nextFloor: nat, next: nat, nextByte: byte, ghost nextBase: seq<byte>, done: bool)
    requires floor <= i < |buf| && b == buf[i]
    requires Clean(buf, floor) && NoQuad(buf, floor, i + 2) && base == Below(buf, floor)
    requires out.buffer == Pushed(base, buf, floor, i) && |out.buffer| + out.bound == maxLen
    modifies out
    ensures nextFloor <= next <= |buf| && i <= next && Clean(buf, nextFloor) && nextBase == Below(buf, nextFloor)
    ensures |out.buffer| + out.bound == maxLen
    ensures done ==> Stopped(buf, nextFloor, next, nextBase, out.buffer, out.bound, maxLen)
    ensures !done ==>
      i < next < |buf| && nextByte == buf[next] && NoQuad(buf, nextFloor, next + 2) &&
      out.buffer == Pushed(nextBase, buf, nextFloor, next)
  {
    nextFloor, nextByte, nextBase := floor, b, base;
    next, done := PushPair(out, buf, floor, i, b, base, maxLen);
    if done {
      return;
    }
    nextFloor, next, nextByte, nextBase, done := RunOrHop(out, buf, buf, floor, i, b, base, maxLen);
  }

  /**
   * The rest of a pass, once the pair at `i` is in `out`: at three equal
   * bytes looks for a run and closes it, otherwise hops two bytes on. As
   * for `StartRun`, `buf` is all of `whole` or reaches 256 bytes past `i`.
   */
  method RunOrHop(out: BoundedBuffer, buf: seq<byte>, ghost whole: seq<byte>, floor: nat, i: nat, b: byte,
                  ghost base: seq<byte>, ghost maxLen: int)
    returns (nextFloor: nat, next: nat, nextByte: byte, ghost nextBase: seq<byte>, done: bool)
    requires buf <= whole && (buf == whole || i + 256 <= |buf|)
    requires floor <= i && i + 2 < |buf| && b == buf[i]
    requires Clean(whole, floor) && NoQuad(whole, floor, i + 2) && base == Below(whole, floor)
    requires out.buffer == Pushed(base, whole, floor, i + 2) && |out.buffer| + out.bound == maxLen
    modifies out
    ensures nextFloor <= next <= |buf| && i <= next && Clean(whole, nextFloor) && nextBase == Below(whole, nextFloor)
    ensures |out.buffer| + out.bound == maxLen
    ensures done ==> Stopped(whole, nextFloor, next, nextBase, out.buffer, out.bound, maxLen)
    ensures !done ==>
      i < next < |buf| && nextByte == buf[next] && NoQuad(whole, nextFloor, next + 2) &&
      out.buffer == Pushed(nextBase, whole, nextFloor, next)
  {
    nextFloor, nextByte, nextBase := floor, b, base;
    done := false;
    var hop := buf[i + 2];
    if b == hop && b == buf[i + 1] {
      var run;
      ghost var r;
      next, run, done, r := StartRun(out, buf, whole, floor, i, b, base, maxLen);
      if done {
        return;
      }
      if run {
        next := CloseRun(out, buf, whole, floor, r, next, b);
        nextFloor, nextBase := next, Below(whole, next);
        if next >= |buf| {
          done := true;
        } else {
          nextByte := buf[next];
        }
        return;
      }
    } else {
      NoQuadAfterHop(whole, floor, i);
    }
    next, nextByte := i + 2, hop;
  }

  /**
   * Codes as much of `buf` as fits in a block of `level` hundred thousand
   * bytes; returns the code and the number of input bytes consumed.
   */
  method RleOne(buf: seq<byte>, level: nat) returns (output: seq<byte>, consumed: nat)
    requires level >= 1
    ensures consumed <= |buf| && output == Rle1Spec(buf[..consumed])
    ensures |output| <= MaxLen(level)
    ensures consumed < |buf| ==> |output| >= MaxLen(level) - 1
    ensures |buf| > 0 ==> consumed > 0
    ensures |Rle1Spec(buf)| < MaxLen(level) - 1 ==> consumed == |buf| && output == Rle1Spec(buf)
  {
    var n := |buf|;
    if n == 0 {
      return [], 0;
    }
    var maxLen := 100000 * level - 1;
    var out := new BoundedBuffer(maxLen);
    var floor: nat := 0;
    var i: nat := 0;
    var b := buf[i];
    ghost var base: seq<byte> := [];
    var done := false;
    assert buf[..0] == [];
    while !done
      invariant floor <= i <= n && Clean(buf, floor) && base == Below(buf, floor)
      invariant |out.buffer| + out.bound == maxLen
      invariant !done ==> i < n && b == buf[i] && NoQuad(buf, floor, i + 2) && out.buffer == Pushed(base, buf, floor, i)
      invariant done ==> Stopped(buf, floor, i, base, out.buffer, out.bound, maxLen)
      decreases n - i, !done
    {
      floor, i, b, base, done := Round(out, buf, floor, i, b, base, maxLen);
    }
    StoppedCode(buf, floor, i, base, out.buffer, out.bound, level);
    output, consumed := out.buffer, i;
  }
}
