/**
 * The streaming first-pass run-length coder (lib/rle.rs).
 *
 * The coder is the one of `RleSlice`, but its input arrives from a reader in
 * chunks. Bytes read and not yet coded are kept in `raw`; before each pair
 * the coder makes a margin call, which reads more chunks until `raw` holds
 * 256 bytes past the current index or the reader is exhausted. A run never
 * reaches that far, so the coder decides exactly as it would on the whole
 * input, which the proof states by reasoning about the whole input `whole`
 * while the code reads only `raw`.
 */
module RleStream {
  import opened Bytes
  import opened Rle1Reference
  import opened RleSlice

  /** A buffered reader over known contents: each read hands out the next chunk of at most `chunk` bytes. */
  class Reader {
    const data: seq<byte>
    const chunk: nat
    var pos: nat

    ghost predicate Valid()
      reads this
    {
      pos <= |data| && chunk > 0
    }

    /** The bytes not yet read. */
    ghost function Rest(): seq<byte>
      reads this
      requires Valid()
    {
      data[pos..]
    }

    constructor (data: seq<byte>, chunk: nat)
      requires chunk > 0
      ensures Valid() && this.data == data && this.chunk == chunk && pos == 0
    {
      this.data := data;
      this.chunk := chunk;
      pos := 0;
    }

    /** `fill_buf` followed by `consume` of everything it returned: empty exactly at the end of the data. */
    method Take() returns (buf: seq<byte>)
      requires Valid()
      modifies this
      ensures Valid() && old(Rest()) == buf + Rest()
      ensures buf == [] <==> old(pos) == |data|
    {
      var end := if pos + chunk <= |data| then pos + chunk else |data|;
      buf := data[pos..end];
      assert data[pos..] == buf + data[end..];
      pos := end;
    }
  }

  /** The input side of the coder: the reader and whether it has reported its end. */
  class InputStream {
    const reader: Reader
    var seenEof: bool

    ghost predicate Valid()
      reads this, reader
    {
      reader.Valid() && (seenEof ==> reader.pos == |reader.data|)
    }

    constructor (reader: Reader)
      requires reader.Valid()
      ensures Valid() && this.reader == reader && !seenEof
    {
      this.reader := reader;
      seenEof := false;
    }

    /**
     * Reads one chunk onto `raw`, or notes the end of the input; returns the
     * bytes now held and their number.
     */
    method Init(raw: seq<byte>) returns (held: seq<byte>, n: nat)
      requires Valid()
      modifies this, reader
      ensures Valid() && held + reader.Rest() == raw + old(reader.Rest())
      ensures raw <= held && n == |held|
      ensures n == |raw| ==> reader.Rest() == []
    {
      var buf := reader.Take();
      if buf == [] {
        seenEof := true;
        return raw, |raw|;
      }
      held := raw + buf;
      n := |held|;
    }

    /**
     * Makes sure `held` reaches 256 bytes past `i` if the input allows, and
     * returns how many bytes from `i` on may be looked at: 256, or all
     * that are left when the input ends sooner.
     */
    method MarginCall(raw: seq<byte>, i: nat, n: nat) returns (held: seq<byte>, m: nat, d: nat)
      requires Valid() && n == |raw| && i <= n
      modifies this, reader
      ensures Valid() && held + reader.Rest() == raw + old(reader.Rest())
      ensures raw <= held && m == |held|
      ensures n - i >= 256 ==> d == 256 && held == raw
      ensures n - i < 256 ==> d == m - i
      ensures d < 256 ==> reader.Rest() == []
      ensures d >= 256 ==> i + 256 <= m
    {
      held, m := raw, n;
      if n - i < 256 {
        if seenEof {
          d := n - i;
        } else {
          while m < i + 256
            invariant Valid() && held + reader.Rest() == raw + old(reader.Rest())
            invariant raw <= held && m == |held|
            invariant seenEof ==> m < i + 256
            decreases |reader.data| - reader.pos, !seenEof
          {
            var buf := reader.Take();
            if buf == [] {
              seenEof := true;
              break;
            }
            held := held + buf;
            m := m + |buf|;
          }
          d := m - i;
        }
      } else {
        d := 256;
      }
    }
  }

  /** What one call returns: the code, the checksum of the bytes coded, the bytes read but not coded, and their count. */
  datatype Rle = Rle(output: seq<byte>, chk: u32, raw: Option<seq<byte>>, consumed: nat)

  /**
   * Pushes the byte at `i`, makes the margin call and pushes the byte after
   * it, as long as the block has room for them and more; stops at the end of
   * the input or of the block.
   */
  method PushPair(out: BoundedBuffer, stream: InputStream, raw: seq<byte>, n: nat, ghost whole: seq<byte>,
                  floor: nat, i: nat, b: byte, ghost base: seq<byte>, ghost maxLen: int)
    returns (held: seq<byte>, m: nat, next: nat, stop: bool)
    requires stream.Valid() && raw + stream.reader.Rest() == whole && n == |raw|
    requires stream.seenEof ==> raw == whole
    requires floor <= i < n && b == raw[i] && NoQuad(whole, floor, i + 2)
    requires out.buffer == Pushed(base, whole, floor, i) && |out.buffer| + out.bound == maxLen
    modifies out, stream, stream.reader
    ensures stream.Valid() && held + stream.reader.Rest() == whole && m == |held|
    ensures stream.seenEof ==> held == whole
    ensures |out.buffer| + out.bound == maxLen && i <= next <= m
    ensures stop ==> Stopped(whole, floor, next, base, out.buffer, out.bound, maxLen)
    ensures !stop ==>
      next == i && i + 2 < m && held <= whole && (held == whole || i + 256 <= m) &&
      out.buffer == Pushed(base, whole, floor, i + 2)
    ensures old(out.bound) == 1 ==>
      stop && next == i + 1 && held == raw && stream.reader.Rest() == old(stream.reader.Rest())
  {
    assert raw <= whole;
    held, m := raw, n;
    next, stop := i, true;
    if out.bound == 0 {
      return;
    } else if out.bound == 1 {
      out.Push(b);
      next := i + 1;
      return;
    }
    out.Push(b);
    var d;
    held, m, d := stream.MarginCall(raw, i, n);
    assert held <= whole;
    if d == 1 {
      next := i + 1;
      return;
    } else if d == 2 {
      out.Push(held[i + 1]);
      next := i + 2;
      return;
    }
    out.Push(held[i + 1]);
    stop := false;
  }

  /** One pass of the coder's loop from `i`, as `RleSlice.Round`, with the margin call in place of the end check. */
  method Round(out: BoundedBuffer, stream: InputStream, raw: seq<byte>, n: nat, ghost whole: seq<byte>,
               floor: nat, i: nat, b: byte, ghost base: seq<byte>, ghost maxLen: int)
    returns (held: seq<byte>, m: nat, nextFloor: nat, next: nat, nextByte: byte, ghost nextBase: seq<byte>, done: bool)
    requires stream.Valid() && raw + stream.reader.Rest() == whole && n == |raw|
    requires stream.seenEof ==> raw == whole
    requires floor <= i < n && b == raw[i]
    requires Clean(whole, floor) && NoQuad(whole, floor, i + 2) && base == Below(whole, floor)
    requires out.buffer == Pushed(base, whole, floor, i) && |out.buffer| + out.bound == maxLen
    modifies out, stream, stream.reader
    ensures stream.Valid() && held + stream.reader.Rest() == whole && m == |held|
    ensures stream.seenEof ==> held == whole
    ensures nextFloor <= next <= m && i <= next && Clean(whole, nextFloor) && nextBase == Below(whole, nextFloor)
    ensures |out.buffer| + out.bound == maxLen
    ensures done ==> Stopped(whole, nextFloor, next, nextBase, out.buffer, out.bound, maxLen)
    ensures !done ==>
      i < next < m && nextByte == held[next] && NoQuad(whole, nextFloor, next + 2) &&
      out.buffer == Pushed(nextBase, whole, nextFloor, next)
  {
    nextFloor, nextByte, nextBase := floor, b, base;
    held, m, next, done := PushPair(out, stream, raw, n, whole, floor, i, b, base, maxLen);
    if done {
      return;
    }
    nextFloor, next, nextByte, nextBase, done := RunOrHop(out, held, whole, floor, i, b, base, maxLen);
  }

  /**
   * Codes as much of the input as fits in a block of `level` hundred
   * thousand bytes. The input is `raw`, the bytes read for the previous
   * block and not coded there, followed by what the reader still holds.
   * Returns the code, the checksum of the bytes coded, the bytes read but
   * not coded (`None` when there are none), and the number of bytes coded.
   */
  method RleOne(reader: Reader, raw: seq<byte>, level: nat, checksum: seq<byte> -> u32) returns (rle: Rle)
    requires level >= 1 && reader.Valid()
    modifies reader
    ensures reader.Valid()
    ensures var whole := raw + old(reader.Rest());
      rle.consumed <= |whole| && rle.output == Rle1Spec(whole[..rle.consumed]) &&
      (rle.consumed > 0 ==> rle.chk == checksum(whole[..rle.consumed])) &&
      whole == whole[..rle.consumed] + (if rle.raw.Some? then rle.raw.value else []) + reader.Rest() &&
      (rle.raw.Some? ==> rle.raw.value != []) &&
      (whole == [] ==> rle == Rle([], 0, None, 0)) &&
      |rle.output| <= MaxLen(level) &&
      (rle.consumed < |whole| ==> |rle.output| >= MaxLen(level) - 1) &&
      (|whole| > 0 ==> rle.consumed > 0) &&
      (|Rle1Spec(whole)| < MaxLen(level) - 1 ==>
         rle.consumed == |whole| && rle.output == Rle1Spec(whole) && rle.raw == None && reader.Rest() == [])
  {
    ghost var whole := raw + reader.Rest();
    var stream := new InputStream(reader);
    var held, n := stream.Init(raw);
    if n == 0 {
      return Rle([], 0, None, 0);
    }
    var out := new BoundedBuffer(100000 * level - 1);
    var floor, i;
    ghost var base;
    held, n, floor, i, base := Fill(out, stream, held, n, whole, MaxLen(level));
    var remainder := if i < n then Some(held[i..]) else None;
    rle := Rle(out.buffer, checksum(held[..i]), remainder, i);
    Finish(whole, held, reader.Rest(), floor, base, out.bound, level, checksum, rle);
  }

  /** The coder's loop: runs passes until one stops. */
  method Fill(out: BoundedBuffer, stream: InputStream, raw: seq<byte>, n: nat, ghost whole: seq<byte>, ghost maxLen: int)
    returns (held: seq<byte>, m: nat, floor: nat, i: nat, ghost base: seq<byte>)
    requires stream.Valid() && raw + stream.reader.Rest() == whole && n == |raw| && n > 0
    requires stream.seenEof ==> raw == whole
    requires out.buffer == [] && out.bound == maxLen
    modifies out, stream, stream.reader
    ensures stream.Valid() && held + stream.reader.Rest() == whole && m == |held| && floor <= i <= m
    ensures Clean(whole, floor) && base == Below(whole, floor)
    ensures Stopped(whole, floor, i, base, out.buffer, out.bound, maxLen)
  {
    held, m := raw, n;
    floor, i := 0, 0;
    var b := held[i];
    base := [];
    var done := false;
    assert whole[..0] == [];
    while !done
      invariant stream.Valid() && held + stream.reader.Rest() == whole && m == |held|
      invariant stream.seenEof ==> held == whole
      invariant floor <= i <= m && Clean(whole, floor) && base == Below(whole, floor)
      invariant |out.buffer| + out.bound == maxLen
      invariant !done ==> i < m && b == held[i] && NoQuad(whole, floor, i + 2) && out.buffer == Pushed(base, whole, floor, i)
      invariant done ==> Stopped(whole, floor, i, base, out.buffer, out.bound, maxLen)
      decreases |whole| - i, !done
    {
      held, m, floor, i, b, base, done := Round(out, stream, held, m, whole, floor, i, b, base, maxLen);
    }
  }

  /** Where the coder stops, what it returns is the reference code of the bytes it consumed, and nothing is lost. */
  lemma Finish(whole: seq<byte>, held: seq<byte>, rest: seq<byte>, floor: nat, base: seq<byte>, bound: nat,
               level: nat, checksum: seq<byte> -> u32, rle: Rle)
    requires level >= 1 && held + rest == whole && held != []
    requires rle.consumed <= |held| && Stopped(whole, floor, rle.consumed, base, rle.output, bound, MaxLen(level))
    requires Clean(whole, floor) && base == Below(whole, floor)
    requires rle.chk == checksum(held[..rle.consumed])
    requires rle.raw == if rle.consumed < |held| then Some(held[rle.consumed..]) else None
    ensures rle.consumed <= |whole| && rle.output == Rle1Spec(whole[..rle.consumed]) &&
      (rle.consumed > 0 ==> rle.chk == checksum(whole[..rle.consumed])) &&
      whole == whole[..rle.consumed] + (if rle.raw.Some? then rle.raw.value else []) + rest &&
      (rle.raw.Some? ==> rle.raw.value != []) &&
      |rle.output| <= MaxLen(level) &&
      (rle.consumed < |whole| ==> |rle.output| >= MaxLen(level) - 1) &&
      (|whole| > 0 ==> rle.consumed > 0) &&
      (|Rle1Spec(whole)| < MaxLen(level) - 1 ==>
         rle.consumed == |whole| && rle.output == Rle1Spec(whole) && rle.raw == None && rest == [])
  {
    var i := rle.consumed;
    StoppedCode(whole, floor, i, base, rle.output, bound, level);
    HeldSplit(whole, held, rest, i);
  }

  /** The bytes held split at the consumed count, followed by the reader's rest, are the whole input. */
  lemma HeldSplit(whole: seq<byte>, held: seq<byte>, rest: seq<byte>, i: nat)
    requires held + rest == whole && i <= |held|
    ensures held[..i] == whole[..i]
    ensures whole == whole[..i] + (if i < |held| then held[i..] else []) + rest
  {
    assert held == held[..i] + held[i..];
    if i == |held| {
      assert held[i..] == [];
    }
  }
  /**
   * The stop at a block with room for one byte reads nothing: when that byte
   * is the last one held, the coder has consumed every byte it holds, so
   * its remainder is `None`, although the reader still has bytes. Here the
   * byte 7 is held, the reader still holds the byte 1, and the block has
   * room for one byte.
   */
  method BoundStop() returns (held: seq<byte>, next: nat, rest: seq<byte>)
    ensures next == |held| && rest == [1]
  {
    var reader := new Reader([7, 1], 1);
    reader.pos := 1;
    var stream := new InputStream(reader);
    var out := new BoundedBuffer(1);
    assert [7] + reader.Rest() == [7, 1];
    var m, stop;
    held, m, next, stop := PushPair(out, stream, [7], 1, [7, 1], 0, 0, 7, [], 1);
    rest := reader.data[reader.pos..];
  }
}
