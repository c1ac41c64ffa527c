/**
 * The encoder of src/lib.rs: the whole input is in memory, and each pass
 * of its loop cuts the next block with the slice form of `rle_one`,
 * checksums the bytes it covers, folds that checksum into the stream CRC
 * and writes the block's frame; the footer and the padding of the last
 * byte close the stream.
 */
module EncodeSrc {
  import opened Bytes
  import opened BitWriter
  import Seqs
  import Rle1Reference
  import RleSlice
  import StreamFormat
  import opened BlockFrame
  import opened BzipStream

  /**
   * One pass of the loop: the next block of `rest` is cut, checksummed and
   * written. Every block but the one that ends the input fills its RLE1
   * buffer to within one byte, so the new frame extends the coded frames
   * `frames` written before it.
   */
  method Block(out: OutputStream, rest: seq<byte>, level: nat, checksum: seq<byte> -> u32, ghost frames: seq<Frame>)
    returns (ok: bool, blockConsumed: nat, blockCrc: u32, ghost f: Frame)
    requires out.Valid() && 1 <= level <= 9 && rest != []
    requires Coded(frames, level, checksum) && (frames != [] ==> Full(frames[|frames| - 1], level))
    modifies out
    ensures out.Valid() && 0 < blockConsumed <= |rest| && blockCrc == checksum(rest[..blockConsumed])
    ensures ok ==> Shaped(f) && f.block == rest[..blockConsumed] && f.crc == blockCrc
    ensures ok ==> Coded(frames + [f], level, checksum)
    ensures ok ==> out.Bits() == old(out.Bits()) + FrameBits(f)
    ensures ok && blockConsumed < |rest| ==> Full(f, level)
  {
    var rleBuf;
    rleBuf, blockConsumed := RleSlice.RleOne(rest, level);
    blockCrc := checksum(rest[..blockConsumed]);
    ok, f := WriteFrame(out, rest[..blockConsumed], rleBuf, blockCrc, level, true);
    if ok {
      CodedSnoc(frames, f, level, checksum);
    }
  }

  /**
   * `encode` of src/lib.rs on the bytes `input` at `level`, with
   * `checksum` for the CRC32 of a block: the frames cover the whole input
   * in order, each is coded from its block and carries its checksum, and
   * the output is the stream of those frames padded to a whole byte.
   * `ok` is false only where the initial Huffman tables of a block cannot
   * be laid out, which takes a block of more than 197 byte values
   * (`BlockFrame.WriteFrame`).
   */
  method Encode(input: seq<byte>, level: nat, checksum: seq<byte> -> u32)
    returns (ok: bool, output: seq<byte>, consumed: nat, ghost frames: seq<Frame>, ghost pad: nat)
    requires 1 <= level <= 9
    ensures ok ==> consumed == |input| && Blocks(frames) == input && Coded(frames, level, checksum)
    ensures ok ==> (AllShaped(frames) && pad < 8 &&
                    BytesToBits(output) == StreamOf(level, frames) + Rep(false, pad))
  {
    var out := new OutputStream();
    StreamFormat.WriteStreamHeader(out, level);
    var streamCrc: bv32 := 0;
    consumed := 0;
    frames := [];
    assert out.Bits() == BytesToBits(StreamFormat.StreamHeader(level)) + FramesBits(frames);
    while consumed < |input|
      invariant out.Valid() && consumed <= |input| && Blocks(frames) == input[..consumed]
      invariant Coded(frames, level, checksum) && AllShaped(frames)
      invariant frames != [] && consumed < |input| ==> Full(frames[|frames| - 1], level)
      invariant streamCrc == StreamFormat.StreamCrc(Crcs(frames))
      invariant out.Bits() == BytesToBits(StreamFormat.StreamHeader(level)) + FramesBits(frames)
      decreases |input| - consumed
    {
      ok, consumed, frames, streamCrc := Step(out, input, consumed, frames, streamCrc, level, checksum);
      if !ok {
        return false, [], consumed, frames, 0;
      }
    }
    output, pad := Finish(out, level, frames, streamCrc);
    ok := true;
    Seqs.TakeAll(input);
  }

  /** One pass of the loop of `encode`, with the account the loop keeps. */
  method Step(out: OutputStream, input: seq<byte>, consumed: nat, ghost frames: seq<Frame>, streamCrc: bv32,
              level: nat, checksum: seq<byte> -> u32)
    returns (ok: bool, consumed': nat, ghost frames': seq<Frame>, streamCrc': bv32)
    requires 1 <= level <= 9 && out.Valid() && consumed < |input|
    requires Blocks(frames) == input[..consumed] && Coded(frames, level, checksum) && AllShaped(frames)
    requires frames != [] ==> Full(frames[|frames| - 1], level)
    requires streamCrc == StreamFormat.StreamCrc(Crcs(frames))
    requires out.Bits() == BytesToBits(StreamFormat.StreamHeader(level)) + FramesBits(frames)
    modifies out
    ensures out.Valid() && consumed < consumed' <= |input|
    ensures ok ==> Blocks(frames') == input[..consumed']
    ensures ok ==> Coded(frames', level, checksum)
    ensures ok ==> AllShaped(frames')
    ensures ok && consumed' < |input| ==> frames' != [] && Full(frames'[|frames'| - 1], level)
    ensures ok ==> streamCrc' == StreamFormat.StreamCrc(Crcs(frames'))
    ensures ok ==> out.Bits() == BytesToBits(StreamFormat.StreamHeader(level)) + FramesBits(frames')
  {
    ghost var before := out.Bits();
    var blockConsumed, blockCrc;
    ghost var f;
    ok, blockConsumed, blockCrc, f := Block(out, input[consumed..], level, checksum, frames);
    consumed' := consumed + blockConsumed;
    streamCrc' := StreamFormat.CombineCrc(streamCrc, Word(blockCrc));
    frames' := frames + [f];
    if ok {
      BlocksAdvance(input, consumed, blockConsumed, frames, f, consumed', frames');
      CrcAdvance(frames, f, streamCrc, blockCrc, streamCrc');
      BitsAdvance(level, frames, f, before, out.Bits());
    }
  }
}
