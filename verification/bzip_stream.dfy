/**
 * The whole stream the encoders of lib/lib.rs and src/lib.rs write: the
 * stream header, one frame per block, and the footer with the combined
 * CRC of the blocks; then the padding of the last byte. A decoder reads
 * frames until it meets the footer magic, which no frame starts with.
 */
module BzipStream {
  import opened Bytes
  import opened BitWriter
  import Seqs
  import StreamFormat
  import opened BlockFrame
  import HuffmanEncode
  import Rle1Reference
  import RleSlice
  import MtfSpec

  /** The input bytes the frames cover, in order. */
  function Blocks(frames: seq<Frame>): seq<byte>
  {
    if frames == [] then [] else Blocks(frames[..|frames| - 1]) + frames[|frames| - 1].block
  }

  /** The block CRCs of the frames, as the 32-bit words the stream CRC combines. */
  function Crcs(frames: seq<Frame>): seq<bv32>
  {
    Seqs.Map(CrcWord, frames)
  }

  /** The block CRC of `f` as a 32-bit word. */
  function CrcWord(f: Frame): bv32
  {
    Word(f.crc)
  }

  /** A block CRC as the 32-bit word the stream CRC combines. */
  function Word(crc: u32): bv32
  {
    crc as bv32
  }

  /** The symbol count of every frame, which a decoder of this model is told. */
  function Counts(frames: seq<Frame>): seq<nat>
  {
    Seqs.Map(SymbolCount, frames)
  }

  function SymbolCount(f: Frame): nat
  {
    |f.symbols|
  }

  /** What a decoder reads from a frame. */
  function ReadOf(f: Frame): Read
  {
    Read(f.crc, f.ptr, f.has, HuffmanEncode.Stage(f.selectors, f.tables, f.symbols))
  }

  function Reads(frames: seq<Frame>): seq<Read>
  {
    Seqs.Map(ReadOf, frames)
  }

  /** Every frame has the shape its bits need. */
  predicate AllShaped(frames: seq<Frame>)
  {
    frames == [] || (Shaped(frames[0]) && AllShaped(frames[1..]))
  }

  /** The frames' bits one after the other. */
  function FramesBits(frames: seq<Frame>): seq<bool>
    requires AllShaped(frames)
  {
    if frames == [] then [] else FrameBits(frames[0]) + FramesBits(frames[1..])
  }

  /** The bits of a whole stream of `level` made of `frames`, before the padding of its last byte. */
  function StreamOf(level: nat, frames: seq<Frame>): seq<bool>
    requires 1 <= level <= 9 && AllShaped(frames)
  {
    BytesToBits(StreamFormat.StreamHeader(level)) + FramesBits(frames) +
    StreamFormat.FooterBits(StreamFormat.StreamCrc(Crcs(frames)) as int)
  }

  /** The block of `f` filled its RLE1 buffer of `level` to within one byte. */
  ghost predicate Full(f: Frame, level: nat)
  {
    |Rle1Reference.Rle1Spec(f.block)| >= RleSlice.MaxLen(level) - 1
  }

  /**
   * The frames an encoder writes for `level`, built up one frame at a
   * time: each follows from its block and carries the checksum of its
   * block, and each one after the first follows a full block.
   */
  ghost predicate Coded(frames: seq<Frame>, level: nat, checksum: seq<byte> -> u32)
    decreases |frames|
  {
    frames == [] ||
    (var init := frames[..|frames| - 1];
     var f := frames[|frames| - 1];
     Coded(init, level, checksum) && FrameOf(f, level) && f.crc == checksum(f.block) &&
     (init != [] ==> Full(init[|init| - 1], level)))
  }

  // ---------------------------------------------------------------- decoding

  /** The stream as a decoder reads it: level, frames and combined CRC. */
  datatype Decoded = Decoded(level: nat, frames: seq<Read>, crc: nat)

  /** Frames up to the footer magic, the i-th of `counts[i]` symbols. */
  function ReadFrames(bits: seq<bool>, counts: seq<nat>): Option<(seq<Read>, seq<bool>)>
    decreases |counts|
  {
    if |bits| >= 48 && bits[..48] == BytesToBits(StreamFormat.FooterMagic) then Some(([], bits))
    else if counts == [] then None
    else
      match ReadFrame(bits, counts[0])
      case None => None
      case Some((r, b)) =>
        match ReadFrames(b, counts[1..])
        case None => None
        case Some((rs, b2)) => Some(([r] + rs, b2))
  }

  /** A whole stream read back: header, frames, footer. */
  function ReadStream(bits: seq<bool>, counts: seq<nat>): Option<(Decoded, seq<bool>)>
  {
    match StreamFormat.ReadStreamHeader(bits)
    case None => None
    case Some((level, b1)) =>
      match ReadFrames(b1, counts)
      case None => None
      case Some((frames, b2)) =>
        match StreamFormat.ReadFooter(b2)
        case None => None
        case Some((crc, rest)) => Some((Decoded(level, frames, crc), rest))
  }

  /** Every frame starts with the block magic, which is not the footer magic. */
  lemma NotFooter(f: Frame, rest: seq<bool>)
    requires Shaped(f)
    ensures |FrameBits(f) + rest| >= 48
    ensures (FrameBits(f) + rest)[..48] != BytesToBits(StreamFormat.FooterMagic)
  {
    var m := BytesToBits(StreamFormat.BlockMagic);
    var h := StreamFormat.BlockHeaderBits(f.crc, f.ptr);
    var t := StreamFormat.SymMapBits(f.has) + HuffmanEncode.BlockBits(f.selectors, f.tables, f.symbols);
    Seqs.Assoc(m, BitsOf(f.crc, 32) + [false] + BitsOf(f.ptr, 24), t + rest);
    Seqs.Assoc(m + BitsOf(f.crc, 32), [false], BitsOf(f.ptr, 24));
    Seqs.Assoc(m, BitsOf(f.crc, 32), [false]);
    Seqs.Assoc(m, BitsOf(f.crc, 32) + [false], BitsOf(f.ptr, 24));
    Seqs.Assoc(h, t, rest);
    assert (FrameBits(f) + rest)[..48] == m;
    StreamFormat.MagicsDiffer();
  }

  /** The footer starts with the footer magic. */
  lemma AtFooter(crc: u32, rest: seq<bool>)
    ensures |StreamFormat.FooterBits(crc) + rest| >= 48
    ensures (StreamFormat.FooterBits(crc) + rest)[..48] == BytesToBits(StreamFormat.FooterMagic)
  {
    Seqs.Assoc(BytesToBits(StreamFormat.FooterMagic), BitsOf(crc, 32), rest);
  }

  /** A frame that is not at the footer is read, then the frames after it. */
  lemma ReadFramesCons(bits: seq<bool>, counts: seq<nat>, r: Read, b: seq<bool>, rs: seq<Read>, b2: seq<bool>)
    requires |bits| >= 48 && bits[..48] != BytesToBits(StreamFormat.FooterMagic) && counts != []
    requires ReadFrame(bits, counts[0]) == Some((r, b))
    requires ReadFrames(b, counts[1..]) == Some((rs, b2))
    ensures ReadFrames(bits, counts) == Some(([r] + rs, b2))
  {
  }

  /** Frames written one after the other read back one after the other, up to the footer. */
  lemma FramesRoundTrip(frames: seq<Frame>, level: nat, rest: seq<bool>)
    requires forall k :: 0 <= k < |frames| ==> FrameOf(frames[k], level)
    requires |rest| >= 48 && rest[..48] == BytesToBits(StreamFormat.FooterMagic)
    ensures AllShaped(frames)
    ensures ReadFrames(FramesBits(frames) + rest, Counts(frames)) == Some((Reads(frames), rest))
  {
    AllFramesReadable(frames, level);
    ReadablesRoundTrip(frames, rest);
  }

  /** The parts of a frame a decoder needs. */
  ghost predicate Readable(f: Frame)
  {
    f.ptr < Pow2(24) && |f.has| == 256 &&
    HuffmanEncode.Built(f.selectors, f.tables, f.symbols, MtfSpec.NumNames(f.has) + 2)
  }

  ghost predicate AllReadable(frames: seq<Frame>)
  {
    frames == [] || (Readable(frames[0]) && AllReadable(frames[1..]))
  }

  lemma {:induction false} AllFramesReadable(frames: seq<Frame>, level: nat)
    requires forall k :: 0 <= k < |frames| ==> FrameOf(frames[k], level)
    ensures AllReadable(frames)
    decreases |frames|
  {
    if frames != [] {
      PtrFits(frames[0], level);
      var tail := frames[1..];
      assert forall k :: 0 <= k < |tail| ==> tail[k] == frames[k + 1];
      AllFramesReadable(tail, level);
    }
  }

  lemma {:induction false} ReadablesRoundTrip(frames: seq<Frame>, rest: seq<bool>)
    requires AllReadable(frames)
    requires |rest| >= 48 && rest[..48] == BytesToBits(StreamFormat.FooterMagic)
    ensures AllShaped(frames)
    ensures ReadFrames(FramesBits(frames) + rest, Counts(frames)) == Some((Reads(frames), rest))
    decreases |frames|
  {
    if frames == [] {
      assert FramesBits(frames) + rest == rest;
      assert Reads(frames) == [] && Counts(frames) == [];
    } else {
      var f := frames[0];
      var tail := frames[1..];
      ReadablesRoundTrip(tail, rest);
      var later := FramesBits(tail) + rest;
      ReadsBack(f, MtfSpec.NumNames(f.has) + 2, later);
      NotFooter(f, later);
      Seqs.Assoc(FrameBits(f), FramesBits(tail), rest);
      Seqs.MapCons(SymbolCount, frames);
      Seqs.MapCons(ReadOf, frames);
      ReadFramesCons(FramesBits(frames) + rest, Counts(frames), ReadOf(f), later, Reads(tail), rest);
    }
  }

  /**
   * A whole stream reads back as its level, what each frame holds, and the
   * combined CRC of its blocks, leaving the padding.
   */
  lemma StreamRoundTrip(level: nat, frames: seq<Frame>, rest: seq<bool>)
    requires 1 <= level <= 9
    requires forall k :: 0 <= k < |frames| ==> FrameOf(frames[k], level)
    ensures AllShaped(frames)
    ensures ReadStream(StreamOf(level, frames) + rest, Counts(frames)) ==
      Some((Decoded(level, Reads(frames), StreamFormat.StreamCrc(Crcs(frames)) as int), rest))
  {
    AllFramesReadable(frames, level);
    ReadablesStream(level, frames, rest);
  }

  lemma ReadablesStream(level: nat, frames: seq<Frame>, rest: seq<bool>)
    requires 1 <= level <= 9 && AllReadable(frames)
    ensures AllShaped(frames)
    ensures ReadStream(StreamOf(level, frames) + rest, Counts(frames)) ==
      Some((Decoded(level, Reads(frames), StreamFormat.StreamCrc(Crcs(frames)) as int), rest))
  {
    var crc: u32 := StreamFormat.StreamCrc(Crcs(frames)) as int;
    var h := BytesToBits(StreamFormat.StreamHeader(level));
    var footer := StreamFormat.FooterBits(crc);
    AtFooter(crc, rest);
    ReadablesRoundTrip(frames, footer + rest);
    var fb := FramesBits(frames);
    Seqs.Assoc(h + fb, footer, rest);
    Seqs.Assoc(h, fb, footer + rest);
    StreamFormat.StreamHeaderRoundTrip(level, fb + (footer + rest));
    StreamFormat.FooterRoundTrip(crc, rest);
    ReadStreamChain(StreamOf(level, frames) + rest, Counts(frames), level, fb + (footer + rest),
                    Reads(frames), footer + rest, crc, rest);
  }

  /** A stream reads as its header, its frames and its footer read in turn. */
  lemma ReadStreamChain(bits: seq<bool>, counts: seq<nat>, level: nat, b1: seq<bool>, frames: seq<Read>,
                        b2: seq<bool>, crc: nat, rest: seq<bool>)
    requires StreamFormat.ReadStreamHeader(bits) == Some((level, b1))
    requires ReadFrames(b1, counts) == Some((frames, b2))
    requires StreamFormat.ReadFooter(b2) == Some((crc, rest))
    ensures ReadStream(bits, counts) == Some((Decoded(level, frames, crc), rest))
  {
  }

  // ---------------------------------------------------------------- growing the stream

  /** A frame appended to the frames appends its bits. */
  lemma {:induction false} FramesBitsSnoc(frames: seq<Frame>, f: Frame)
    requires AllShaped(frames) && Shaped(f)
    ensures AllShaped(frames + [f])
    ensures FramesBits(frames + [f]) == FramesBits(frames) + FrameBits(f)
    decreases |frames|
  {
    var all := frames + [f];
    if frames == [] {
      assert all == [f] && all[1..] == [];
    } else {
      assert all[0] == frames[0] && all[1..] == frames[1..] + [f];
      FramesBitsSnoc(frames[1..], f);
      Seqs.Assoc(FrameBits(frames[0]), FramesBits(frames[1..]), FrameBits(f));
    }
  }

  /** A frame appended to the frames appends its block and its CRC. */
  lemma BlocksSnoc(frames: seq<Frame>, f: Frame)
    ensures Blocks(frames + [f]) == Blocks(frames) + f.block
    ensures Crcs(frames + [f]) == Crcs(frames) + [CrcWord(f)]
  {
    assert (frames + [f])[..|frames|] == frames;
    Seqs.MapAppend(CrcWord, frames, [f]);
  }

  /** A frame of `level` that carries its block's checksum extends coded frames whose last block was full. */
  lemma CodedSnoc(frames: seq<Frame>, f: Frame, level: nat, checksum: seq<byte> -> u32)
    requires Coded(frames, level, checksum)
    requires frames != [] ==> Full(frames[|frames| - 1], level)
    requires FrameOf(f, level) && f.crc == checksum(f.block)
    ensures Coded(frames + [f], level, checksum)
  {
    Seqs.Snoc(frames, f);
  }
  /** One more frame whose block is the next `n` bytes of `input` extends the covered prefix by `n`. */
  lemma BlocksAdvance(input: seq<byte>, consumed: nat, n: nat, frames: seq<Frame>, f: Frame,
                      consumed': nat, frames': seq<Frame>)
    requires consumed + n <= |input| && Blocks(frames) == input[..consumed] && f.block == input[consumed..][..n]
    requires consumed' == consumed + n && frames' == frames + [f]
    ensures Blocks(frames') == input[..consumed']
  {
    BlocksSnoc(frames, f);
    Seqs.TakeMore(input, consumed, n);
  }

  /** The stream CRC of one more frame folds that frame's CRC into the stream CRC so far. */
  lemma CrcSnoc(frames: seq<Frame>, f: Frame)
    ensures StreamFormat.StreamCrc(Crcs(frames + [f])) ==
            StreamFormat.CombineCrc(StreamFormat.StreamCrc(Crcs(frames)), CrcWord(f))
  {
    BlocksSnoc(frames, f);
    Seqs.Snoc(Crcs(frames), CrcWord(f));
  }

  /** The stream CRC `streamCrc'` after one more frame, of CRC `crc`, in the terms of an encoder's loop. */
  lemma CrcAdvance(frames: seq<Frame>, f: Frame, streamCrc: bv32, crc: u32, streamCrc': bv32)
    requires streamCrc == StreamFormat.StreamCrc(Crcs(frames)) && f.crc == crc
    requires streamCrc' == StreamFormat.CombineCrc(streamCrc, Word(crc))
    ensures streamCrc' == StreamFormat.StreamCrc(Crcs(frames + [f]))
  {
    CrcSnoc(frames, f);
  }

  /** The bits written after the stream header and the frames so far, then one more frame. */
  lemma BitsAdvance(level: nat, frames: seq<Frame>, f: Frame, before: seq<bool>, after: seq<bool>)
    requires 1 <= level <= 9 && AllShaped(frames) && Shaped(f)
    requires before == BytesToBits(StreamFormat.StreamHeader(level)) + FramesBits(frames)
    requires after == before + FrameBits(f)
    ensures AllShaped(frames + [f])
    ensures after == BytesToBits(StreamFormat.StreamHeader(level)) + FramesBits(frames + [f])
  {
    FramesBitsSnoc(frames, f);
    Seqs.Assoc(BytesToBits(StreamFormat.StreamHeader(level)), FramesBits(frames), FrameBits(f));
  }

  /**
   * The end of `encode`, after the stream header and the frames: the
   * footer with the stream CRC of the frames, then the last byte padded
   * with `pad` zero bits.
   */
  method Finish(out: OutputStream, level: nat, ghost frames: seq<Frame>, streamCrc: bv32)
    returns (output: seq<byte>, ghost pad: nat)
    requires out.Valid() && 1 <= level <= 9 && AllShaped(frames)
    requires streamCrc == StreamFormat.StreamCrc(Crcs(frames))
    requires out.Bits() == BytesToBits(StreamFormat.StreamHeader(level)) + FramesBits(frames)
    modifies out
    ensures pad < 8 && BytesToBits(output) == StreamOf(level, frames) + Rep(false, pad)
  {
    StreamFormat.WriteStreamFooter(out, streamCrc as int);
    pad := (8 - out.strandBits) % 8;
    out.Close();
    output := out.written;
  }
}
