/**
 * The encoder of lib/lib.rs: the input arrives from a reader, and each
 * pass of its loop hands the bytes read for the previous block and not
 * coded there to the streaming `rle_one`, which reads on as it needs.
 * A pass that codes nothing ends the stream; otherwise the block's
 * checksum is folded into the stream CRC and its frame is written, with
 * the move-to-front coder of lib/mtf.rs.
 *
 * The loop as written also stops when `rle_one` hands back no remainder,
 * taking that to mean the reader is exhausted. `EncodeAsWritten` keeps
 * that exit and states what it then leaves: the bytes the reader still
 * holds are never coded. `Encode` stops only on a pass that codes nothing
 * and codes the whole input.
 */
module EncodeLib {
  import opened Bytes
  import opened BitWriter
  import Seqs
  import Rle1Reference
  import RleSlice
  import RleStream
  import StreamFormat
  import opened BlockFrame
  import opened BzipStream

  /** The bytes read and not coded that a pass of `rle_one` hands back. */
  function Unread(raw: Option<seq<byte>>): seq<byte>
  {
    if raw.Some? then raw.value else []
  }

  /**
   * The account the loop keeps with `rest` the bytes of `input` not yet
   * coded: the frames cover the `consumed` bytes before them in order, are
   * coded and shaped, each but one that ends the input is full,
   * `streamCrc` is their stream CRC, and `bits` is the stream header
   * followed by their bits.
   */
  ghost predicate Account(bits: seq<bool>, input: seq<byte>, consumed: nat, frames: seq<Frame>, rest: seq<byte>,
                          streamCrc: bv32, level: nat, checksum: seq<byte> -> u32)
  {
    1 <= level <= 9 && Blocks(frames) + rest == input && consumed == |Blocks(frames)| &&
    Coded(frames, level, checksum) && AllShaped(frames) &&
    (frames != [] && rest != [] ==> Full(frames[|frames| - 1], level)) &&
    streamCrc == StreamFormat.StreamCrc(Crcs(frames)) &&
    bits == BytesToBits(StreamFormat.StreamHeader(level)) + FramesBits(frames)
  }

  /**
   * The streaming `rle_one` on the bytes `raw` read earlier and the reader:
   * it codes the next block of those bytes, and what it neither codes nor
   * leaves in the reader it hands back. It codes nothing only when there is
   * nothing left, and every block but one that ends the input fills its
   * RLE1 buffer to within one byte.
   */
  method Cut(reader: RleStream.Reader, raw: seq<byte>, level: nat, checksum: seq<byte> -> u32)
    returns (rle: RleStream.Rle, ghost block: seq<byte>)
    requires reader.Valid() && 1 <= level <= 9
    modifies reader
    ensures reader.Valid() && raw + old(reader.Rest()) == block + (Unread(rle.raw) + reader.Rest())
    ensures rle.consumed == |block| && (rle.consumed == 0 <==> raw + old(reader.Rest()) == [])
    ensures rle.consumed == 0 ==> reader.Rest() == []
    ensures rle.consumed > 0 ==>
      rle.output == Rle1Reference.Rle1Spec(block) && |rle.output| <= RleSlice.MaxLen(level) && rle.chk == checksum(block)
    ensures Unread(rle.raw) + reader.Rest() != [] ==> |rle.output| >= RleSlice.MaxLen(level) - 1
  {
    ghost var whole := raw + reader.Rest();
    rle := RleStream.RleOne(reader, raw, level, checksum);
    block := whole[..rle.consumed];
    Seqs.Assoc(block, Unread(rle.raw), reader.Rest());
  }

  /**
   * The frame of the block `block`, coded as `code` with checksum `crc`,
   * written after the coded frames `frames`.
   */
  method Write(out: OutputStream, ghost block: seq<byte>, code: seq<byte>, crc: u32, level: nat,
               checksum: seq<byte> -> u32, ghost frames: seq<Frame>)
    returns (ok: bool, ghost f: Frame)
    requires out.Valid() && 1 <= level <= 9 && block != [] && crc == checksum(block)
    requires code == Rle1Reference.Rle1Spec(block) && |code| <= RleSlice.MaxLen(level)
    requires Coded(frames, level, checksum) && (frames != [] ==> Full(frames[|frames| - 1], level))
    modifies out
    ensures out.Valid()
    ensures ok ==> Shaped(f) && f.block == block && f.crc == crc && Coded(frames + [f], level, checksum)
    ensures ok ==> out.Bits() == old(out.Bits()) + FrameBits(f)
  {
    ok, f := WriteFrame(out, block, code, crc, level, false);
    if ok {
      CodedSnoc(frames, f, level, checksum);
    }
  }

  /** The account after one more frame, of the block `f.block` that `rest` follows. */
  lemma AccountSnoc(bits: seq<bool>, input: seq<byte>, consumed: nat, frames: seq<Frame>, rest: seq<byte>,
                    streamCrc: bv32, level: nat, checksum: seq<byte> -> u32, f: Frame, bits': seq<bool>)
    requires Account(bits, input, consumed, frames, f.block + rest, streamCrc, level, checksum)
    requires Shaped(f) && Coded(frames + [f], level, checksum) && bits' == bits + FrameBits(f)
    requires rest != [] ==> Full(f, level)
    ensures Account(bits', input, consumed + |f.block|, frames + [f], rest,
                    StreamFormat.CombineCrc(streamCrc, Word(f.crc)), level, checksum)
  {
    BlocksSnoc(frames, f);
    Seqs.Assoc(Blocks(frames), f.block, rest);
    CrcSnoc(frames, f);
    BitsAdvance(level, frames, f, bits, bits');
  }

  /**
   * The frame of the block `block`, which `rle` codes, written after the
   * coded frames `frames`, with the account the loop keeps; `rest` is what
   * follows the block.
   */
  method Advance(out: OutputStream, ghost input: seq<byte>, consumed: nat, rle: RleStream.Rle, ghost block: seq<byte>,
                 ghost rest: seq<byte>, ghost frames: seq<Frame>, streamCrc: bv32, level: nat, checksum: seq<byte> -> u32)
    returns (ok: bool, consumed': nat, ghost frames': seq<Frame>, streamCrc': bv32)
    requires out.Valid() && 0 < rle.consumed == |block|
    requires rle.output == Rle1Reference.Rle1Spec(block) && |rle.output| <= RleSlice.MaxLen(level)
    requires rle.chk == checksum(block) && (rest != [] ==> |rle.output| >= RleSlice.MaxLen(level) - 1)
    requires Account(out.Bits(), input, consumed, frames, block + rest, streamCrc, level, checksum)
    modifies out
    ensures out.Valid()
    ensures ok ==> Account(out.Bits(), input, consumed', frames', rest, streamCrc', level, checksum)
  {
    ghost var before := out.Bits();
    ghost var f;
    ok, f := Write(out, block, rle.output, rle.chk, level, checksum, frames);
    consumed' := consumed + rle.consumed;
    streamCrc' := StreamFormat.CombineCrc(streamCrc, Word(rle.chk));
    frames' := frames + [f];
    if ok {
      AccountSnoc(before, input, consumed, frames, rest, streamCrc, level, checksum, f, out.Bits());
    }
  }

  /** The bytes before the first `n`, and those after, of a sequence that is `b`, `n` long, and then `r`. */
  lemma Split(input: seq<byte>, b: seq<byte>, r: seq<byte>, n: nat)
    requires b + r == input && n == |b|
    ensures n <= |input| && input[..n] == b && input[n..] == r
  {
  }

  /**
   * One pass of the loop of `encode`: the streaming `rle_one` cuts the next
   * block, and, when it codes anything, the block's frame is written and
   * the account the loop keeps moves past it. `raw'` is what the pass hands
   * on to the next one, nothing when `rle_one` hands back no remainder; a
   * pass that codes nothing finds no bytes left.
   */
  method Pass(out: OutputStream, reader: RleStream.Reader, ghost input: seq<byte>, consumed: nat, raw: seq<byte>,
              ghost frames: seq<Frame>, streamCrc: bv32, level: nat, checksum: seq<byte> -> u32)
    returns (ok: bool, rle: RleStream.Rle, consumed': nat, raw': seq<byte>, ghost frames': seq<Frame>, streamCrc': bv32)
    requires out.Valid() && reader.Valid()
    requires Account(out.Bits(), input, consumed, frames, raw + reader.Rest(), streamCrc, level, checksum)
    modifies out, reader
    ensures out.Valid() && reader.Valid() && raw' == Unread(rle.raw)
    ensures rle.consumed == 0 ==> ok && raw' + reader.Rest() == []
    ensures rle.consumed > 0 ==> |raw' + reader.Rest()| < |raw + old(reader.Rest())|
    ensures ok ==> Account(out.Bits(), input, consumed', frames', raw' + reader.Rest(), streamCrc', level, checksum)
  {
    ghost var block;
    rle, block := Cut(reader, raw, level, checksum);
    raw' := Unread(rle.raw);
    if rle.consumed == 0 {
      return true, rle, consumed, raw', frames, streamCrc;
    }
    ok, consumed', frames', streamCrc' :=
      Advance(out, input, consumed, rle, block, raw' + reader.Rest(), frames, streamCrc, level, checksum);
  }

  /**
   * The loop of `encode` as written, after the stream header: it ends on a
   * pass that codes nothing or that hands back no remainder. The frames
   * then cover the input up to what the reader still holds.
   */
  method LoopAsWritten(out: OutputStream, reader: RleStream.Reader, ghost input: seq<byte>, level: nat,
                       checksum: seq<byte> -> u32)
    returns (ok: bool, consumed: nat, ghost frames: seq<Frame>, streamCrc: bv32)
    requires 1 <= level <= 9 && out.Valid() && reader.Valid() && input == reader.Rest()
    requires out.Bits() == BytesToBits(StreamFormat.StreamHeader(level))
    modifies out, reader
    ensures out.Valid() && reader.Valid()
    ensures ok ==> Account(out.Bits(), input, consumed, frames, reader.Rest(), streamCrc, level, checksum)
  {
    streamCrc := 0;
    var raw: seq<byte> := [];
    consumed := 0;
    frames := [];
    ok := true;
    assert out.Bits() == BytesToBits(StreamFormat.StreamHeader(level)) + FramesBits(frames);
    assert Blocks(frames) + (raw + reader.Rest()) == input;
    while true
      invariant out.Valid() && reader.Valid() && ok
      invariant Account(out.Bits(), input, consumed, frames, raw + reader.Rest(), streamCrc, level, checksum)
      decreases |raw + reader.Rest()|
    {
      var rle;
      ok, rle, consumed, raw, frames, streamCrc := Pass(out, reader, input, consumed, raw, frames, streamCrc, level, checksum);
      if !ok {
        return;
      }
      if rle.consumed == 0 || rle.raw.None? {
        assert raw + reader.Rest() == reader.Rest();
        break;
      }
    }
  }

  /**
   * `encode` of lib/lib.rs as written, on the bytes the reader holds, at
   * `level`, with `checksum` for the CRC32 of a block. The frames cover the
   * first `consumed` bytes in order, each is coded from its block and
   * carries its checksum, and the output is the stream of those frames
   * padded to a whole byte; the bytes not coded are exactly those the
   * reader still holds, which are not all gone when a pass ends on its
   * last byte held (`RleStream.BoundStop`). `ok` is false only where the
   * initial Huffman tables of a block cannot be laid out, which takes a
   * block of more than 197 byte values (`BlockFrame.WriteFrame`).
   */
  method EncodeAsWritten(reader: RleStream.Reader, level: nat, checksum: seq<byte> -> u32)
    returns (ok: bool, output: seq<byte>, consumed: nat, ghost frames: seq<Frame>, ghost pad: nat)
    requires 1 <= level <= 9 && reader.Valid()
    modifies reader
    ensures reader.Valid()
    ensures ok ==> (consumed <= |old(reader.Rest())| && old(reader.Rest())[consumed..] == reader.Rest())
    ensures ok ==> Blocks(frames) == old(reader.Rest())[..consumed] && Coded(frames, level, checksum)
    ensures ok ==> (AllShaped(frames) && pad < 8 &&
                    BytesToBits(output) == StreamOf(level, frames) + Rep(false, pad))
  {
    ghost var input := reader.Rest();
    var out := new OutputStream();
    StreamFormat.WriteStreamHeader(out, level);
    var streamCrc;
    ok, consumed, frames, streamCrc := LoopAsWritten(out, reader, input, level, checksum);
    if !ok {
      return false, [], consumed, frames, 0;
    }
    Split(input, Blocks(frames), reader.Rest(), consumed);
    output, pad := Finish(out, level, frames, streamCrc);
  }

  /**
   * The loop of `encode` ending only on a pass that codes nothing, a pass
   * without remainder handing on no bytes: the frames then cover the whole
   * input and the reader is empty.
   */
  method Loop(out: OutputStream, reader: RleStream.Reader, ghost input: seq<byte>, level: nat,
              checksum: seq<byte> -> u32)
    returns (ok: bool, consumed: nat, ghost frames: seq<Frame>, streamCrc: bv32)
    requires 1 <= level <= 9 && out.Valid() && reader.Valid() && input == reader.Rest()
    requires out.Bits() == BytesToBits(StreamFormat.StreamHeader(level))
    modifies out, reader
    ensures out.Valid() && reader.Valid()
    ensures ok ==> reader.Rest() == [] && Account(out.Bits(), input, consumed, frames, [], streamCrc, level, checksum)
  {
    streamCrc := 0;
    var raw: seq<byte> := [];
    consumed := 0;
    frames := [];
    ok := true;
    assert out.Bits() == BytesToBits(StreamFormat.StreamHeader(level)) + FramesBits(frames);
    assert Blocks(frames) + (raw + reader.Rest()) == input;
    while true
      invariant out.Valid() && reader.Valid() && ok
      invariant Account(out.Bits(), input, consumed, frames, raw + reader.Rest(), streamCrc, level, checksum)
      decreases |raw + reader.Rest()|
    {
      var rle;
      ok, rle, consumed, raw, frames, streamCrc := Pass(out, reader, input, consumed, raw, frames, streamCrc, level, checksum);
      if !ok {
        return;
      }
      if rle.consumed == 0 {
        assert reader.Rest() == [];
        break;
      }
    }
  }

  /**
   * `encode` of lib/lib.rs with the loop of `Loop`: the frames cover the
   * whole input and the reader is left empty.
   */
  method Encode(reader: RleStream.Reader, level: nat, checksum: seq<byte> -> u32)
    returns (ok: bool, output: seq<byte>, consumed: nat, ghost frames: seq<Frame>, ghost pad: nat)
    requires 1 <= level <= 9 && reader.Valid()
    modifies reader
    ensures reader.Valid()
    ensures ok ==> consumed == |old(reader.Rest())| && reader.Rest() == []
    ensures ok ==> Blocks(frames) == old(reader.Rest()) && Coded(frames, level, checksum)
    ensures ok ==> (AllShaped(frames) && pad < 8 &&
                    BytesToBits(output) == StreamOf(level, frames) + Rep(false, pad))
  {
    ghost var input := reader.Rest();
    var out := new OutputStream();
    StreamFormat.WriteStreamHeader(out, level);
    var streamCrc;
    ok, consumed, frames, streamCrc := Loop(out, reader, input, level, checksum);
    if !ok {
      return false, [], consumed, frames, 0;
    }
    assert Blocks(frames) + [] == Blocks(frames);
    output, pad := Finish(out, level, frames, streamCrc);
  }
}
