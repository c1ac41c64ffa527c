/**
 * The framing of a bzip2 stream (lib/lib.rs and src/lib.rs): the stream
 * header with the block-size digit, the block header with the block CRC
 * and the BWT origin pointer, the two-level symbol map, the stream footer
 * with the combined CRC, and the way block CRCs are folded into it. Each
 * piece is specified as a bit string, written by a method proved to emit
 * exactly that string, and read back by a decoder with a round trip.
 */
module StreamFormat {
  import opened Bytes
  import opened BitWriter
  import Seqs

  /** "BZh": the stream magic before the block-size digit. */
  const StreamMagic: seq<byte> := [0x42, 0x5A, 0x68]
  /** The 48-bit block magic, the BCD digits of pi. */
  const BlockMagic: seq<byte> := [0x31, 0x41, 0x59, 0x26, 0x53, 0x59]
  /** The 48-bit end-of-stream magic, the BCD digits of the square root of pi. */
  const FooterMagic: seq<byte> := [0x17, 0x72, 0x45, 0x38, 0x50, 0x90]

  // ---------------------------------------------------------------- stream header

  /** The stream header: the magic, then the level as an ASCII digit. */
  function StreamHeader(level: nat): (r: seq<byte>)
    requires 1 <= level <= 9
  {
    StreamMagic + [0x30 + level]
  }

  /** The level read back from a stream header; None on a wrong magic or a byte that is not a digit 1..9. */
  function ReadStreamHeader(bits: seq<bool>): Option<(nat, seq<bool>)>
  {
    if |bits| < 32 || bits[..24] != BytesToBits(StreamMagic) then None
    else
      var d := ValueOf(bits[24..32]);
      if 0x31 <= d <= 0x39 then Some((d - 0x30, bits[32..])) else None
  }

  /** The three parts of `a + b + c` are found again at their offsets. */
  lemma Split3(a: seq<bool>, b: seq<bool>, c: seq<bool>)
    ensures (a + b + c)[..|a|] == a && (a + b + c)[|a|..|a| + |b|] == b && (a + b + c)[|a| + |b|..] == c
  {
  }

  /** The bits of a byte string with one more byte. */
  lemma BytesToBitsSnoc(bs: seq<byte>, b: byte)
    ensures BytesToBits(bs + [b]) == BytesToBits(bs) + BitsOf(b, 8)
  {
    assert (bs + [b])[..|bs|] == bs;
  }

  /** A stream header reads back as its level. */
  lemma StreamHeaderRoundTrip(level: nat, rest: seq<bool>)
    requires 1 <= level <= 9
    ensures |BytesToBits(StreamHeader(level))| == 32
    ensures ReadStreamHeader(BytesToBits(StreamHeader(level)) + rest) == Some((level, rest))
  {
    var m := BytesToBits(StreamMagic);
    var d := BitsOf(0x30 + level, 8);
    BytesToBitsSnoc(StreamMagic, 0x30 + level);
    Split3(m, d, rest);
    Pow2Words();
    ValueOfField(0x30 + level, 8);
  }

  /** write_stream_header: the level must be 1..9; the four header bytes are written. */
  method WriteStreamHeader(out: OutputStream, level: nat)
    requires out.Valid() && 1 <= level <= 9
    modifies out
    ensures out.Valid() && out.Bits() == old(out.Bits()) + BytesToBits(StreamHeader(level))
  {
    var levelByte := 0x30 + level;
    assert [0x42, 0x5A, 0x68, levelByte] == StreamHeader(level);
    out.WriteBytes([0x42, 0x5A, 0x68, levelByte]);
  }

  // ---------------------------------------------------------------- block header

  /** The block header: the magic, the block CRC on 32 bits, a zero randomised bit, the origin pointer on 24 bits. */
  function BlockHeaderBits(crc: u32, ptr: nat): (r: seq<bool>)
  {
    BytesToBits(BlockMagic) + BitsOf(crc, 32) + [false] + BitsOf(ptr, 24)
  }

  /** The CRC and pointer read back from a block header; None on a wrong magic or a set randomised bit. */
  function ReadBlockHeader(bits: seq<bool>): Option<(nat, nat, seq<bool>)>
  {
    if |bits| < 105 || bits[..48] != BytesToBits(BlockMagic) || bits[80] then None
    else Some((ValueOf(bits[48..80]), ValueOf(bits[81..105]), bits[105..]))
  }

  /** A block header reads back as its CRC and the low 24 bits of its pointer. */
  lemma BlockHeaderRoundTrip(crc: u32, ptr: nat, rest: seq<bool>)
    ensures |BlockHeaderBits(crc, ptr)| == 105
    ensures ReadBlockHeader(BlockHeaderBits(crc, ptr) + rest) == Some((crc, ptr % Pow2(24), rest))
  {
    var m := BytesToBits(BlockMagic);
    var c := BitsOf(crc, 32);
    var p := BitsOf(ptr, 24);
    var head := m + c + [false];
    var bits := BlockHeaderBits(crc, ptr) + rest;
    Split3(head, p, rest);
    Split3(m, c, [false]);
    assert bits[..48] == head[..48] && bits[48..80] == head[48..80] && bits[80] == head[80];
    Pow2Words();
    ValueOfField(crc, 32);
    ValueOfBitsOf(ptr, 24);
  }

  /** The last `j` of the `k` big-endian bytes of `v` are its `j` big-endian bytes. */
  lemma {:induction false} BigEndianSuffix(v: nat, k: nat, j: nat)
    requires j <= k
    ensures BigEndian(v, k)[k - j..] == BigEndian(v, j)
  {
    if j > 0 {
      BigEndianSuffix(v / 256, k - 1, j - 1);
      assert BigEndian(v, k)[k - j..] == BigEndian(v / 256, k - 1)[k - j..] + [v % 256];
    }
  }

  /**
   * write_block_header: the magic, the CRC as four big-endian bytes, the
   * randomised bit, then the last three of the pointer's eight big-endian
   * bytes.
   */
  method WriteBlockHeader(out: OutputStream, crc: u32, ptr: nat)
    requires out.Valid()
    modifies out
    ensures out.Valid() && out.Bits() == old(out.Bits()) + BlockHeaderBits(crc, ptr)
  {
    ghost var start := out.Bits();
    out.WriteBytes(BlockMagic);
    WriteWord32(out, crc);
    ghost var mid := out.Bits();
    WriteOrigin(out, ptr);
    HeaderAssoc(start, mid, crc, ptr);
  }

  lemma HeaderAssoc(start: seq<bool>, mid: seq<bool>, crc: u32, ptr: nat)
    requires mid == start + BytesToBits(BlockMagic) + BitsOf(crc, 32)
    ensures mid + ([false] + BitsOf(ptr, 24)) == start + BlockHeaderBits(crc, ptr)
  {
    Assoc5(start, BytesToBits(BlockMagic), BitsOf(crc, 32), [false], BitsOf(ptr, 24));
  }

  lemma Assoc5(s: seq<bool>, a: seq<bool>, b: seq<bool>, c: seq<bool>, d: seq<bool>)
    ensures s + a + b + (c + d) == s + (a + b + c + d)
  {
  }

  /** The randomised bit, clear, then the pointer. */
  method WriteOrigin(out: OutputStream, ptr: nat)
    requires out.Valid()
    modifies out
    ensures out.Valid() && out.Bits() == old(out.Bits()) + ([false] + BitsOf(ptr, 24))
  {
    ghost var start := out.Bits();
    out.WriteBits(0, 1);
    assert BitsOf(0, 1) == [false];
    WritePtr(out, ptr);
    Seqs.Assoc(start, [false], BitsOf(ptr, 24));
  }

  /** A 32-bit word as its four big-endian bytes. */
  method WriteWord32(out: OutputStream, crc: u32)
    requires out.Valid()
    modifies out
    ensures out.Valid() && out.Bits() == old(out.Bits()) + BitsOf(crc, 32)
  {
    BigEndianBits(crc, 4);
    out.WriteBytes(BigEndian(crc, 4));
  }

  /** The pointer as the last three of its eight big-endian bytes. */
  method WritePtr(out: OutputStream, ptr: nat)
    requires out.Valid()
    modifies out
    ensures out.Valid() && out.Bits() == old(out.Bits()) + BitsOf(ptr, 24)
  {
    var ptrBytes := BigEndian(ptr, 8);
    var sliceLeft := |ptrBytes| - 3;
    BigEndianSuffix(ptr, 8, 3);
    BigEndianBits(ptr, 3);
    out.WriteBytes(ptrBytes[sliceLeft..]);
  }

  // ---------------------------------------------------------------- symbol map

  /** The presence flags of the 16 byte values `16a .. 16a + 15`. */
  function Sector(has: seq<bool>, a: nat): (r: seq<bool>)
    requires |has| == 256 && a < 16
    ensures |r| == 16
  {
    has[16 * a..16 * a + 16]
  }

  /** Some byte value of sector `a` is present. */
  predicate Used(has: seq<bool>, a: nat)
    requires |has| == 256 && a < 16
  {
    true in Sector(has, a)
  }

  /** The first level of the map: one flag per sector, set when the sector is used. */
  function SectorFlags(has: seq<bool>): (r: seq<bool>)
    requires |has| == 256
    ensures |r| == 16 && forall a :: 0 <= a < 16 ==> (r[a] <==> Used(has, a))
  {
    seq(16, a requires 0 <= a < 16 => Used(has, a))
  }

  /** The second level from sector `a` on: the 16 flags of every used sector. */
  function SectorsFrom(has: seq<bool>, a: nat): seq<bool>
    requires |has| == 256 && a <= 16
    decreases 16 - a
  {
    if a == 16 then []
    else (if Used(has, a) then Sector(has, a) else []) + SectorsFrom(has, a + 1)
  }

  /** The whole symbol map. */
  function SymMapBits(has: seq<bool>): seq<bool>
    requires |has| == 256
  {
    SectorFlags(has) + SectorsFrom(has, 0)
  }

  /** The presence flags of sectors `a` on, read back under the first-level flags; an unflagged sector is all absent. */
  function ReadSectors(flags: seq<bool>, bits: seq<bool>, a: nat): (r: Option<(seq<bool>, seq<bool>)>)
    requires |flags| == 16 && a <= 16
    ensures r.Some? ==> |r.value.0| == 16 * (16 - a)
    decreases 16 - a
  {
    if a == 16 then Some(([], bits))
    else if flags[a] then
      if |bits| < 16 then None
      else match ReadSectors(flags, bits[16..], a + 1)
        case None => None
        case Some((tail, rest)) => Some((bits[..16] + tail, rest))
    else match ReadSectors(flags, bits, a + 1)
      case None => None
      case Some((tail, rest)) => Some((Rep(false, 16) + tail, rest))
  }

  /** The 256 presence flags read back from a symbol map. */
  function ReadSymMap(bits: seq<bool>): Option<(seq<bool>, seq<bool>)>
  {
    if |bits| < 16 then None else ReadSectors(bits[..16], bits[16..], 0)
  }

  /** A sector no byte of which is present is all absent. */
  lemma UnusedSector(has: seq<bool>, a: nat)
    requires |has| == 256 && a < 16 && !Used(has, a)
    ensures Sector(has, a) == Rep(false, 16)
  {
    var s := Sector(has, a);
    assert forall k :: 0 <= k < 16 ==> !s[k];
  }

  lemma {:induction false} ReadSectorsRoundTrip(has: seq<bool>, a: nat, rest: seq<bool>)
    requires |has| == 256 && a <= 16
    ensures ReadSectors(SectorFlags(has), SectorsFrom(has, a) + rest, a) == Some((has[16 * a..], rest))
    decreases 16 - a
  {
    if a == 16 {
      assert SectorsFrom(has, a) + rest == rest;
    } else {
      var flags := SectorFlags(has);
      var tail := SectorsFrom(has, a + 1) + rest;
      ReadSectorsRoundTrip(has, a + 1, rest);
      assert has[16 * a..] == Sector(has, a) + has[16 * (a + 1)..];
      if Used(has, a) {
        var bits := SectorsFrom(has, a) + rest;
        Seqs.Assoc(Sector(has, a), SectorsFrom(has, a + 1), rest);
        assert bits[..16] == Sector(has, a) && bits[16..] == tail;
      } else {
        UnusedSector(has, a);
        assert SectorsFrom(has, a) == SectorsFrom(has, a + 1);
      }
    }
  }

  /** A symbol map reads back as the 256 presence flags it was made from. */
  lemma SymMapRoundTrip(has: seq<bool>, rest: seq<bool>)
    requires |has| == 256
    ensures ReadSymMap(SymMapBits(has) + rest) == Some((has, rest))
  {
    var bits := SymMapBits(has) + rest;
    Seqs.Assoc(SectorFlags(has), SectorsFrom(has, 0), rest);
    assert bits[..16] == SectorFlags(has) && bits[16..] == SectorsFrom(has, 0) + rest;
    ReadSectorsRoundTrip(has, 0, rest);
    assert has[0..] == has;
  }

  /** A bit string denotes zero exactly when none of its bits is set. */
  lemma {:induction false} ValueOfZero(bits: seq<bool>)
    ensures ValueOf(bits) == 0 <==> true !in bits
  {
    if bits != [] {
      var init := bits[..|bits| - 1];
      ValueOfZero(init);
      assert bits == init + [bits[|bits| - 1]];
    }
  }

  /** The 16-bit words of `ws`, one after the other. */
  function Words(ws: seq<nat>): (r: seq<bool>)
    ensures |r| == 16 * |ws|
  {
    if ws == [] then [] else Words(ws[..|ws| - 1]) + BitsOf(ws[|ws| - 1], 16)
  }

  lemma WordsSnoc(ws: seq<nat>, w: nat)
    ensures Words(ws + [w]) == Words(ws) + BitsOf(w, 16)
  {
    assert (ws + [w])[..|ws|] == ws;
  }

  /**
   * One presence flag more of a sector word: the word shifts left and takes
   * the flag as its low bit.
   */
  lemma ShiftIn(bits: seq<bool>, b: bool, v: nat)
    requires v == ValueOf(bits)
    ensures 2 * v + (if b then 1 else 0) == ValueOf(bits + [b])
  {
    assert (bits + [b])[..|bits|] == bits;
  }

  /** The word of sector `a`: its 16 presence flags, one per shift. */
  method SectorWord(has: seq<bool>, a: nat) returns (sector: nat)
    requires |has| == 256 && a < 16
    ensures sector == ValueOf(Sector(has, a)) && sector < 0x1_0000
    ensures sector != 0 <==> Used(has, a)
  {
    ghost var flags := Sector(has, a);
    sector := 0;
    for b := 0 to 16
      invariant sector == ValueOf(flags[..b])
    {
      var byte := 16 * a + b;
      assert has[byte] == flags[b];
      Seqs.TakeSnoc(flags, b);
      ShiftIn(flags[..b], flags[b], sector);
      if has[byte] {
        sector := 2 * sector + 1;
      } else {
        sector := 2 * sector;
      }
    }
    assert flags[..16] == flags;
    ValueOfZero(flags);
    Pow2Words();
  }

  /** A used sector `a` makes the second level from any earlier sector non-empty. */
  lemma {:induction false} SectorsNonEmpty(has: seq<bool>, c: nat, a: nat)
    requires |has| == 256 && c <= a < 16 && Used(has, a)
    ensures SectorsFrom(has, c) != []
    decreases a - c
  {
    if c < a {
      SectorsNonEmpty(has, c + 1, a);
    }
  }

  /**
   * The words of the symbol map, as write_sym_map builds them: the
   * first-level word takes one flag per sector, and the word of each used
   * sector is kept.
   */
  method SymMapWords(has: seq<bool>) returns (sectorMap: nat, sectors: seq<nat>)
    requires |has| == 256
    ensures sectorMap == ValueOf(SectorFlags(has))
    ensures Words(sectors) == SectorsFrom(has, 0)
  {
    sectorMap, sectors := 0, [];
    MapStart(has);
    for a := 0 to 16
      invariant MapSoFar(has, a, sectorMap, sectors)
    {
      sectorMap, sectors := SectorStep(has, a, sectorMap, sectors);
    }
    MapEnd(has, sectorMap, sectors);
  }

  lemma MapStart(has: seq<bool>)
    requires |has| == 256
    ensures MapSoFar(has, 0, 0, [])
  {
    assert SectorFlags(has)[..0] == [];
    assert Words([]) + SectorsFrom(has, 0) == SectorsFrom(has, 0);
  }

  lemma MapEnd(has: seq<bool>, sectorMap: nat, sectors: seq<nat>)
    requires |has| == 256 && MapSoFar(has, 16, sectorMap, sectors)
    ensures sectorMap == ValueOf(SectorFlags(has))
    ensures Words(sectors) == SectorsFrom(has, 0)
  {
    Seqs.TakeAll(SectorFlags(has));
    assert Words(sectors) + [] == Words(sectors);
  }

  /** The words built from the first `a` sectors. */
  ghost predicate MapSoFar(has: seq<bool>, a: nat, sectorMap: nat, sectors: seq<nat>)
    requires |has| == 256 && a <= 16
  {
    && sectorMap == ValueOf(SectorFlags(has)[..a])
    && Words(sectors) + SectorsFrom(has, a) == SectorsFrom(has, 0)
  }

  /** One sector: the first-level word shifts in its flag, and a used sector's word is kept. */
  method SectorStep(has: seq<bool>, a: nat, sectorMap: nat, sectors: seq<nat>) returns (sectorMap': nat, sectors': seq<nat>)
    requires |has| == 256 && a < 16 && MapSoFar(has, a, sectorMap, sectors)
    ensures MapSoFar(has, a + 1, sectorMap', sectors')
  {
    var sector := SectorWord(has, a);
    ghost var flags := SectorFlags(has);
    Seqs.TakeSnoc(flags, a);
    ShiftIn(flags[..a], flags[a], sectorMap);
    sectorMap' := 2 * sectorMap;
    if sector != 0 {
      sectorMap' := sectorMap' + 1;
      KeepSector(has, a, sectors, sector);
      sectors' := sectors + [sector];
    } else {
      SkipSector(has, a, sectors);
      sectors' := sectors;
    }
  }

  /** An unused sector adds nothing to the second level. */
  lemma SkipSector(has: seq<bool>, a: nat, sectors: seq<nat>)
    requires |has| == 256 && a < 16 && !Used(has, a)
    ensures Words(sectors) + SectorsFrom(has, a + 1) == Words(sectors) + SectorsFrom(has, a)
  {
    assert SectorsFrom(has, a) == [] + SectorsFrom(has, a + 1);
  }

  /** Keeping the word of used sector `a` moves its flags from the rest of the map to the kept words. */
  lemma KeepSector(has: seq<bool>, a: nat, sectors: seq<nat>, sector: nat)
    requires |has| == 256 && a < 16 && Used(has, a) && sector == ValueOf(Sector(has, a))
    ensures Words(sectors + [sector]) + SectorsFrom(has, a + 1) == Words(sectors) + SectorsFrom(has, a)
  {
    WordsSnoc(sectors, sector);
    BitsOfValueOf(Sector(has, a));
    Seqs.Assoc(Words(sectors), Sector(has, a), SectorsFrom(has, a + 1));
  }

  /** A word as its two big-endian bytes. */
  method WriteWord16(out: OutputStream, w: nat)
    requires out.Valid()
    modifies out
    ensures out.Valid() && out.Bits() == old(out.Bits()) + BitsOf(w, 16)
  {
    BigEndianBits(w, 2);
    out.WriteBytes(BigEndian(w, 2));
  }

  /** Each word as two big-endian bytes. */
  method WriteWords(out: OutputStream, sectors: seq<nat>)
    requires out.Valid()
    modifies out
    ensures out.Valid() && out.Bits() == old(out.Bits()) + Words(sectors)
  {
    ghost var start := out.Bits();
    for k := 0 to |sectors|
      invariant out.Valid() && out.Bits() == start + Words(sectors[..k])
    {
      WordsSnoc(sectors[..k], sectors[k]);
      Seqs.TakeSnoc(sectors, k);
      WriteWord16(out, sectors[k]);
      Seqs.Assoc(start, Words(sectors[..k]), BitsOf(sectors[k], 16));
    }
    Seqs.TakeAll(sectors);
  }

  /** With some byte value present, the second level is not empty. */
  lemma SomeSector(has: seq<bool>)
    requires |has| == 256 && true in has
    ensures SectorsFrom(has, 0) != []
  {
    var i :| 0 <= i < 256 && has[i];
    assert Sector(has, i / 16)[i % 16] == has[i];
    SectorsNonEmpty(has, 0, i / 16);
  }

  /**
   * write_sym_map: at least one byte value must be present; the first-level
   * word is written as two big-endian bytes, then each kept sector word.
   */
  method WriteSymMap(out: OutputStream, has: seq<bool>)
    requires out.Valid() && |has| == 256 && true in has
    modifies out
    ensures out.Valid() && out.Bits() == old(out.Bits()) + SymMapBits(has)
  {
    ghost var start := out.Bits();
    var sectorMap, sectors := SymMapWords(has);
    SomeSector(has);
    assert sectors != [];
    BitsOfValueOf(SectorFlags(has));
    WriteWord16(out, sectorMap);
    WriteWords(out, sectors);
    Seqs.Assoc(start, SectorFlags(has), SectorsFrom(has, 0));
  }

  // ---------------------------------------------------------------- stream footer

  /** The stream footer: the magic, then the combined CRC on 32 bits. */
  function FooterBits(crc: u32): (r: seq<bool>)
  {
    BytesToBits(FooterMagic) + BitsOf(crc, 32)
  }

  /** The combined CRC read back from a stream footer; None on a wrong magic. */
  function ReadFooter(bits: seq<bool>): Option<(nat, seq<bool>)>
  {
    if |bits| < 80 || bits[..48] != BytesToBits(FooterMagic) then None
    else Some((ValueOf(bits[48..80]), bits[80..]))
  }

  /** A footer reads back as its CRC. */
  lemma FooterRoundTrip(crc: u32, rest: seq<bool>)
    ensures |FooterBits(crc)| == 80
    ensures ReadFooter(FooterBits(crc) + rest) == Some((crc, rest))
  {
    Split3(BytesToBits(FooterMagic), BitsOf(crc, 32), rest);
    Pow2Words();
    ValueOfField(crc, 32);
  }

  /** The first eight bits of a byte string are those of its first byte. */
  lemma FirstByteBits(bs: seq<byte>)
    requires |bs| > 0
    ensures BytesToBits(bs)[..8] == BitsOf(bs[0], 8)
  {
    assert bs == [bs[0]] + bs[1..];
    BytesToBitsAppend([bs[0]], bs[1..]);
    assert [bs[0]][..0] == [];
  }

  /** The block magic and the footer magic differ in their first byte, so a reader can tell a block from the end. */
  lemma MagicsDiffer()
    ensures BytesToBits(BlockMagic) != BytesToBits(FooterMagic)
  {
    FirstByteBits(BlockMagic);
    FirstByteBits(FooterMagic);
    Pow2Words();
    ValueOfField(0x31, 8);
    ValueOfField(0x17, 8);
  }

  /** write_stream_footer: the magic, then the CRC as four big-endian bytes. */
  method WriteStreamFooter(out: OutputStream, crc: u32)
    requires out.Valid()
    modifies out
    ensures out.Valid() && out.Bits() == old(out.Bits()) + FooterBits(crc)
  {
    ghost var start := out.Bits();
    out.WriteBytes(FooterMagic);
    WriteWord32(out, crc);
    Seqs.Assoc(start, BytesToBits(FooterMagic), BitsOf(crc, 32));
  }

  // ---------------------------------------------------------------- combined CRC

  /** A 32-bit word rotated left by one: `(x << 1) | (x >> 31)`. */
  function Rotl1(x: bv32): bv32
  {
    (x << 1) | (x >> 31)
  }

  /** A 32-bit word rotated right by one. */
  function Rotr1(x: bv32): bv32
  {
    (x >> 1) | (x << 31)
  }

  /** The stream CRC after one more block: the block CRC xor the stream CRC rotated left by one. */
  function CombineCrc(streamCrc: bv32, blockCrc: bv32): bv32
  {
    blockCrc ^ Rotl1(streamCrc)
  }

  /** The stream CRC of blocks with CRCs `crcs`, folded from 0 in block order. */
  function StreamCrc(crcs: seq<bv32>): bv32
  {
    if crcs == [] then 0 else CombineCrc(StreamCrc(crcs[..|crcs| - 1]), crcs[|crcs| - 1])
  }

  /** Rotating left then right gives the word back: no bit of the stream CRC is lost. */
  lemma RotateRoundTrip(x: bv32)
    ensures Rotr1(Rotl1(x)) == x
  {
  }

  /** A block CRC is recovered from the stream CRC before and after it. */
  lemma CombineRecover(streamCrc: bv32, blockCrc: bv32)
    ensures CombineCrc(streamCrc, blockCrc) ^ Rotl1(streamCrc) == blockCrc
  {
  }

  /** The running stream CRCs determine every block CRC: block i is recovered from the stream CRCs of the first i and i + 1 blocks. */
  lemma BlockCrcRecovered(crcs: seq<bv32>, i: nat)
    requires i < |crcs|
    ensures StreamCrc(crcs[..i + 1]) ^ Rotl1(StreamCrc(crcs[..i])) == crcs[i]
  {
    assert crcs[..i + 1][..i] == crcs[..i];
    CombineRecover(StreamCrc(crcs[..i]), crcs[i]);
  }
}
