/**
 * One block of the stream, as the encode loops of lib/lib.rs and
 * src/lib.rs write it: the block header with the block CRC and the origin
 * pointer, the symbol map of the sorted block, then the Huffman stage of
 * its move-to-front code. A `Frame` records every intermediate value of a
 * block; `FrameOf` says how they follow from the block's bytes, and
 * `FrameBits` is what the block contributes to the stream.
 */
module BlockFrame {
  import opened Bytes
  import opened BitWriter
  import Seqs
  import opened Rle1Reference
  import RleSlice
  import BwtReference
  import MtfSpec
  import MtfLib
  import MtfSrc
  import HuffmanSelect
  import HuffmanEncode
  import StreamFormat

  /**
   * A coded block: the input bytes it covers, their CRC, the sorted block
   * with its origin pointer and the sort order behind it, the byte values
   * present, the move-to-front symbols, and the Huffman selectors and
   * tables.
   */
  datatype Frame = Frame(block: seq<byte>, crc: u32, sorted: seq<byte>, ptr: nat, order: seq<nat>,
                         has: seq<bool>, symbols: seq<nat>, selectors: seq<nat>, tables: seq<seq<nat>>)

  /** `has` marks exactly the byte values that occur in `line`. */
  predicate Marks(has: seq<bool>, line: seq<byte>)
  {
    |has| == 256 && forall b :: 0 <= b < 256 ==> (has[b] <==> b in line)
  }

  /**
   * `sorted` is the Burrows-Wheeler transform of `line` under the rotation
   * order `order`, and `ptr` is where the unrotated line went.
   */
  ghost predicate Sorts(line: seq<byte>, sorted: seq<byte>, ptr: nat, order: seq<nat>)
  {
    BwtReference.IsOrder(line, order) && |sorted| == |order| == |line| &&
    (forall k :: 0 <= k < |sorted| ==> sorted[k] == BwtReference.Pred(line, order[k])) &&
    ptr < |line| && order[ptr] == 0
  }

  /** The frame's parts have the shapes its bits need. */
  predicate Shaped(f: Frame)
  {
    |f.has| == 256 && HuffmanEncode.Framed(f.selectors, f.tables, f.symbols)
  }

  /**
   * How the parts of a frame follow from its block: the RLE1 code of the
   * block fits the block size of `level`, is sorted, its bytes are marked,
   * the sorted bytes are move-to-front coded, and the Huffman stage codes
   * those symbols with tables of the right size.
   */
  ghost predicate FrameOf(f: Frame, level: nat)
  {
    1 <= level <= 9 && f.block != [] && |Rle1Spec(f.block)| <= RleSlice.MaxLen(level) &&
    Sorts(Rle1Spec(f.block), f.sorted, f.ptr, f.order) &&
    Marks(f.has, f.sorted) && MtfSpec.NumNames(f.has) > 0 &&
    f.symbols == MtfSpec.BlockCode(f.has, f.sorted) &&
    |f.tables| == HuffmanSelect.NumTables(MtfSpec.NumNames(f.has) + 2) &&
    HuffmanEncode.Built(f.selectors, f.tables, f.symbols, MtfSpec.NumNames(f.has) + 2)
  }

  /** What a block contributes to the stream: its header, its symbol map, its Huffman stage. */
  function FrameBits(f: Frame): seq<bool>
    requires Shaped(f)
  {
    StreamFormat.BlockHeaderBits(f.crc, f.ptr) +
    (StreamFormat.SymMapBits(f.has) + HuffmanEncode.BlockBits(f.selectors, f.tables, f.symbols))
  }

  /** What a decoder reads from a frame of `n` symbols: CRC, pointer, presence marks and the Huffman stage. */
  datatype Read = Read(crc: nat, ptr: nat, has: seq<bool>, stage: HuffmanEncode.Stage)

  /** A frame of `n` symbols read back; None where any of its parts does not read. */
  function ReadFrame(bits: seq<bool>, n: nat): Option<(Read, seq<bool>)>
  {
    match StreamFormat.ReadBlockHeader(bits)
    case None => None
    case Some((crc, ptr, b1)) =>
      match StreamFormat.ReadSymMap(b1)
      case None => None
      case Some((has, b2)) =>
        match HuffmanEncode.DecodeBlock(b2, MtfSpec.NumNames(has) + 2, n)
        case None => None
        case Some((stage, rest)) => Some((Read(crc, ptr, has, stage), rest))
  }

  /** A frame reads back as its CRC, its pointer (below 2^24), its presence marks and its Huffman stage. */
  lemma FrameRoundTrip(f: Frame, level: nat, rest: seq<bool>)
    requires FrameOf(f, level)
    ensures Shaped(f)
    ensures ReadFrame(FrameBits(f) + rest, |f.symbols|) ==
      Some((Read(f.crc, f.ptr, f.has, HuffmanEncode.Stage(f.selectors, f.tables, f.symbols)), rest))
  {
    PtrFits(f, level);
    ReadsBack(f, MtfSpec.NumNames(f.has) + 2, rest);
  }

  lemma ReadsBack(f: Frame, numSyms: nat, rest: seq<bool>)
    requires f.ptr < Pow2(24) && |f.has| == 256 && numSyms == MtfSpec.NumNames(f.has) + 2
    requires HuffmanEncode.Built(f.selectors, f.tables, f.symbols, numSyms)
    ensures Shaped(f)
    ensures ReadFrame(FrameBits(f) + rest, |f.symbols|) ==
      Some((Read(f.crc, f.ptr, f.has, HuffmanEncode.Stage(f.selectors, f.tables, f.symbols)), rest))
  {
    var h := StreamFormat.BlockHeaderBits(f.crc, f.ptr);
    var m := StreamFormat.SymMapBits(f.has);
    var c := HuffmanEncode.BlockBits(f.selectors, f.tables, f.symbols);
    Seqs.Assoc(h, m + c, rest);
    Seqs.Assoc(m, c, rest);
    StreamFormat.BlockHeaderRoundTrip(f.crc, f.ptr, m + c + rest);
    ModUnique(f.ptr, Pow2(24), 0, f.ptr);
    StreamFormat.SymMapRoundTrip(f.has, c + rest);
    HuffmanEncode.BlockRoundTrip(f.selectors, f.tables, f.symbols, numSyms, rest);
    ReadChain(FrameBits(f) + rest, f.crc, f.ptr, f.has, m + c + rest, c + rest,
              HuffmanEncode.Stage(f.selectors, f.tables, f.symbols), rest, |f.symbols|);
  }

  /** A frame reads as its three parts read in turn. */
  lemma ReadChain(bits: seq<bool>, crc: nat, ptr: nat, has: seq<bool>, b1: seq<bool>, b2: seq<bool>,
                  stage: HuffmanEncode.Stage, rest: seq<bool>, n: nat)
    requires StreamFormat.ReadBlockHeader(bits) == Some((crc, ptr, b1))
    requires StreamFormat.ReadSymMap(b1) == Some((has, b2))
    requires HuffmanEncode.DecodeBlock(b2, MtfSpec.NumNames(has) + 2, n) == Some((stage, rest))
    ensures ReadFrame(bits, n) == Some((Read(crc, ptr, has, stage), rest))
  {
  }

  /** The origin pointer of a block of any level fits the 24 bits the header gives it. */
  lemma PtrFits(f: Frame, level: nat)
    requires FrameOf(f, level)
    ensures f.ptr < Pow2(24)
  {
    Pow2Words();
  }

  /**
   * What the symbols of a frame give back: move-to-front decoding yields
   * the names of the sorted bytes, each name maps back to its byte, the
   * sorted bytes are a permutation of the block's RLE1 code, and RLE1
   * decoding gives the block back.
   */
  lemma FrameRecovers(f: Frame, level: nat)
    requires FrameOf(f, level)
    ensures MtfSpec.Decode(MtfSpec.Iota(MtfSpec.NumNames(f.has)), 0, 1, f.symbols) == Some(MtfSpec.NamesOf(f.has, f.sorted))
    ensures forall k :: 0 <= k < |f.sorted| ==> MtfSpec.ByteOf(f.has, MtfSpec.NamesOf(f.has, f.sorted)[k]) == f.sorted[k]
    ensures multiset(f.sorted) == multiset(Rle1Spec(f.block))
    ensures Decode(Rle1Spec(f.block)) == f.block
  {
    forall k | 0 <= k < |f.sorted| ensures f.sorted[k] < |f.has| && f.has[f.sorted[k]] {
      assert f.sorted[k] in f.sorted;
    }
    MtfSpec.BlockRoundTrip(f.has, f.sorted);
    BwtReference.PredPerm(Rle1Spec(f.block), f.order, f.sorted);
    RoundTrip(f.block);
  }

  // ---------------------------------------------------------------- writing one block

  /** The RLE1 code of a non-empty block is not empty. */
  lemma CodeNonEmpty(block: seq<byte>)
    requires block != []
    ensures Rle1Spec(block) != []
  {
    RoundTrip(block);
  }

  /** The byte values that occur in `line`, as the transform reports them. */
  method Presence(line: seq<byte>) returns (has: seq<bool>)
    ensures Marks(has, line)
  {
    var marks := new bool[256](_ => false);
    for k := 0 to |line|
      invariant forall b :: 0 <= b < 256 ==> (marks[b] <==> b in line[..k])
    {
      Seqs.TakeSnoc(line, k);
      marks[line[k]] := true;
    }
    Seqs.TakeAll(line);
    has := marks[..];
  }

  /** A block that has a byte has a name for it. */
  lemma SomeName(has: seq<bool>, line: seq<byte>)
    requires Marks(has, line) && line != []
    ensures true in has && MtfSpec.NumNames(has) > 0
    ensures forall b :: 256 <= b < |has| ==> !has[b]
  {
    assert line[0] in line && has[line[0]];
    MtfSpec.NameRoundTrip(has, line[0]);
  }

  /** A block of at most 900000 symbols has fewer than 2^15 segments of 50. */
  lemma FewSegments(n: nat)
    requires n <= 900000
    ensures HuffmanSelect.NumSegments(n) < 0x8000
  {
  }

  /** The symbols of a sorted block of `level` size: all below the symbol count, at most one more than the bytes. */
  lemma SymbolsFit(has: seq<bool>, sorted: seq<byte>, level: nat)
    requires MtfSpec.NumNames(has) > 0 && 1 <= level <= 9 && |sorted| <= RleSlice.MaxLen(level)
    ensures var e := MtfSpec.BlockCode(has, sorted);
      |e| > 0 && HuffmanSelect.NumSegments(|e|) < 0x8000 &&
      forall k :: 0 <= k < |e| ==> e[k] < MtfSpec.NumNames(has) + 2
  {
    MtfSpec.BlockRoundTrip(has, sorted);
    FewSegments(|MtfSpec.BlockCode(has, sorted)|);
  }

  /** A block of at most 197 byte values, with its symbols counted, lays out its initial tables. */
  lemma FewNamesLaidOut(has: seq<bool>, sorted: seq<byte>, freqs: seq<nat>)
    requires 0 < MtfSpec.NumNames(has) <= 197
    requires |freqs| == 258 &&
      forall s :: 0 <= s < 258 ==> freqs[s] == multiset(MtfSpec.BlockCode(has, sorted))[s]
    ensures var n := MtfSpec.NumNames(has) + 2;
      HuffmanSelect.InitialOk(freqs, n, HuffmanSelect.NumTables(n), |MtfSpec.BlockCode(has, sorted)|)
  {
    MtfSpec.BlockRoundTrip(has, sorted);
    HuffmanSelect.BlockLaidOut(freqs, MtfSpec.NumNames(has) + 2, MtfSpec.BlockCode(has, sorted));
  }

  /**
   * The front of a block, as the encode loops write it: the block is
   * sorted, its bytes are marked, and the block header and the symbol map
   * are written.
   */
  method WriteFront(out: OutputStream, ghost block: seq<byte>, code: seq<byte>, crc: u32, level: nat)
    returns (sorted: seq<byte>, ptr: nat, ghost order: seq<nat>, has: seq<bool>)
    requires out.Valid() && block != [] && code == Rle1Spec(block)
    modifies out
    ensures Sorts(code, sorted, ptr, order) && Marks(has, sorted) && MtfSpec.NumNames(has) > 0
    ensures forall b :: 256 <= b < |has| ==> !has[b]
    ensures out.Valid() &&
      out.Bits() == old(out.Bits()) + StreamFormat.BlockHeaderBits(crc, ptr) + StreamFormat.SymMapBits(has)
  {
    CodeNonEmpty(block);
    var p;
    sorted, p, order := BwtReference.Bwt(code);
    ptr := p;
    has := Presence(sorted);
    SomeName(has, sorted);
    StreamFormat.WriteBlockHeader(out, crc, ptr);
    StreamFormat.WriteSymMap(out, has);
  }

  /**
   * The back of a block: the sorted block's move-to-front code
   * (lib/mtf.rs or src/mtf.rs, as `src` says) and its Huffman stage.
   * `ok` is false only where the Huffman stage has no tables to offer,
   * which never happens for a block of at most 197 byte values (two
   * tables).
   */
  method WriteBack(out: OutputStream, sorted: seq<byte>, has: seq<bool>, level: nat, src: bool)
    returns (ok: bool, symbols: seq<nat>, ghost selectors: seq<nat>, ghost tables: seq<seq<nat>>)
    requires out.Valid() && 1 <= level <= 9 && |sorted| <= RleSlice.MaxLen(level)
    requires MtfSpec.NumNames(has) > 0 && forall b :: 256 <= b < |has| ==> !has[b]
    modifies out
    ensures out.Valid() && symbols == MtfSpec.BlockCode(has, sorted)
    ensures MtfSpec.NumNames(has) <= 197 ==> ok
    ensures ok ==> (|tables| == HuffmanSelect.NumTables(MtfSpec.NumNames(has) + 2) &&
                    HuffmanEncode.Built(selectors, tables, symbols, MtfSpec.NumNames(has) + 2))
    ensures ok ==> out.Bits() == old(out.Bits()) + HuffmanEncode.BlockBits(selectors, tables, symbols)
  {
    var m;
    if src {
      m := MtfSrc.MtfAndRle(sorted, has);
    } else {
      m := MtfLib.MtfAndRle(sorted, has);
    }
    SymbolsFit(has, sorted, level);
    symbols := m.output;
    if MtfSpec.NumNames(has) <= 197 {
      FewNamesLaidOut(has, sorted, m.freqs);
    }
    ghost var last;
    ok, selectors, tables, last := HuffmanEncode.Encode(out, symbols, m.numSyms, m.freqs, src);
  }

  /**
   * One block, as the loop body of either encode writes it: front, then
   * back. `ok` is false only where the Huffman stage has no tables to
   * offer, which never happens when the sorted block holds at most 197
   * byte values.
   */
  method WriteFrame(out: OutputStream, ghost block: seq<byte>, code: seq<byte>, crc: u32, level: nat, src: bool)
    returns (ok: bool, ghost f: Frame)
    requires out.Valid() && 1 <= level <= 9 && block != []
    requires code == Rle1Spec(block) && |code| <= RleSlice.MaxLen(level)
    modifies out
    ensures out.Valid()
    ensures Marks(f.has, f.sorted) && (MtfSpec.NumNames(f.has) <= 197 ==> ok)
    ensures ok ==> FrameOf(f, level) && Shaped(f) && f.block == block && f.crc == crc
    ensures ok ==> out.Bits() == old(out.Bits()) + FrameBits(f)
  {
    ghost var start := out.Bits();
    var sorted, ptr, order, has := WriteFront(out, block, code, crc, level);
    ghost var mid := out.Bits();
    var symbols;
    ghost var selectors, tables;
    ok, symbols, selectors, tables := WriteBack(out, sorted, has, level, src);
    f := Frame(block, crc, sorted, ptr, order, has, symbols, selectors, tables);
    if ok {
      FrameAssoc(start, mid, out.Bits(), f);
    }
  }

  lemma FrameAssoc(start: seq<bool>, mid: seq<bool>, end: seq<bool>, f: Frame)
    requires Shaped(f)
    requires mid == start + StreamFormat.BlockHeaderBits(f.crc, f.ptr) + StreamFormat.SymMapBits(f.has)
    requires end == mid + HuffmanEncode.BlockBits(f.selectors, f.tables, f.symbols)
    ensures end == start + FrameBits(f)
  {
    var h := StreamFormat.BlockHeaderBits(f.crc, f.ptr);
    var m := StreamFormat.SymMapBits(f.has);
    var c := HuffmanEncode.BlockBits(f.selectors, f.tables, f.symbols);
    Seqs.Assoc(start + h, m, c);
    Seqs.Assoc(start, h, m + c);
  }
}
