/**
 * The bit writer of src/out.rs. Bits are packed most significant first
 * into a one-byte strand; every completed byte is handed to the
 * underlying writer, modelled here as the sequence of bytes it has
 * received. Every write is proved to append exactly its bits to the
 * stream of bits written so far.
 *
 * The `u8` operations are defined one bit at a time (`Or`, `Shl`, `Drop`,
 * `LowClear`); their agreement with arithmetic on powers of two is proved
 * once (`DropDiv`, `ShlMul`, `LowClearMod`).
 */
module BitWriter {
  import opened Bytes
  import opened Seqs

  /** The bitwise OR of the low `k` bits of `a` and `b`. */
  function Or(a: nat, b: nat, k: nat): (r: nat)
    ensures r < Pow2(k)
  {
    if k == 0 then 0
    else 2 * Or(a / 2, b / 2, k - 1) + (if a % 2 == 1 || b % 2 == 1 then 1 else 0)
  }

  /** `a | b` on two `u8` values. */
  function OrByte(a: byte, b: byte): byte
  {
    Pow2Eight();
    Or(a, b, 8)
  }

  /** `v` with its `k` low bits dropped. */
  function Drop(v: nat, k: nat): (r: nat)
    ensures r <= v
  {
    if k == 0 then v else Drop(v / 2, k - 1)
  }

  /** `x << s` on a `u8`: the bits shifted past the top are lost. */
  function Shl(x: byte, s: nat): byte
    decreases s
  {
    if s == 0 then x else Shl((2 * x) % 256, s - 1)
  }

  /** `x >> s` on a `u8`. */
  function Shr(x: byte, s: nat): byte
  {
    Drop(x, s)
  }

  /** The `k` low bits of `v` are all zero. */
  predicate LowClear(v: nat, k: nat)
  {
    k == 0 || (v % 2 == 0 && LowClear(v / 2, k - 1))
  }

  lemma {:induction false} DropDiv(v: nat, k: nat)
    ensures Drop(v, k) == v / Pow2(k)
  {
    if k > 0 {
      DropDiv(v / 2, k - 1);
      DivDiv(v, 2, Pow2(k - 1));
    }
  }

  lemma {:induction false} DropDrop(v: nat, a: nat, b: nat, ab: nat)
    requires ab == a + b
    ensures Drop(Drop(v, a), b) == Drop(v, ab)
  {
    if a > 0 {
      DropDrop(v / 2, a - 1, b, ab - 1);
    }
  }

  lemma {:induction false} LowClearMod(v: nat, k: nat)
    ensures LowClear(v, k) <==> v % Pow2(k) == 0
  {
    if k > 0 {
      LowClearMod(v / 2, k - 1);
      ModSplit(v, Pow2(k - 1));
    }
  }

  /** Reducing a factor modulo 256 first does not change the product modulo 256. */
  lemma ModMul(a: nat, b: nat)
    ensures ((a % 256) * b) % 256 == (a * b) % 256
  {
    var q := a / 256;
    var r := a % 256;
    Distrib(b, 256, q, r);
    ModUnique(a * b, 256, b * q + (r * b) / 256, (r * b) % 256);
  }

  lemma {:induction false} ShlMul(x: byte, s: nat)
    ensures Shl(x, s) == (x * Pow2(s)) % 256
    decreases s
  {
    if s > 0 {
      var p := Pow2(s - 1);
      ShlMul((2 * x) % 256, s - 1);
      ModMul(2 * x, p);
      assert (2 * x) * p == x * (2 * p);
    }
  }

  lemma {:induction false} OrZero(a: nat, k: nat)
    requires a < Pow2(k)
    ensures Or(a, 0, k) == a
  {
    if k > 0 {
      OrZero(a / 2, k - 1);
    }
  }

  /** OR of two numbers with no set bit in common is their sum. */
  lemma {:induction false} OrDisjoint(a: nat, b: nat, j: nat, k: nat)
    requires j <= k && a < Pow2(k) && a % Pow2(j) == 0 && b < Pow2(j)
    ensures Or(a, b, k) == a + b
  {
    if j == 0 {
      OrZero(a, k);
    } else {
      ModSplit(a, Pow2(j - 1));
      OrDisjoint(a / 2, b / 2, j - 1, k - 1);
    }
  }

  lemma {:induction false} OrComm(a: nat, b: nat, k: nat)
    ensures Or(a, b, k) == Or(b, a, k)
  {
    if k > 0 {
      OrComm(a / 2, b / 2, k - 1);
    }
  }

  lemma ModShift(x: nat, q: nat, y: nat)
    requires y == x + 8 * q
    ensures y % 8 == x % 8
  {
    DivModUnique(x, 8, x / 8, x % 8);
    ModUnique(y, 8, x / 8 + q, x % 8);
  }

  /** Bits of a value whose high part is `top` and low `b` bits are `c`. */
  lemma BitsOfJoin(top: nat, c: nat, a: nat, b: nat, ab: nat)
    requires c < Pow2(b) && ab == a + b
    ensures BitsOf(Pow2(b) * top + c, ab) == BitsOf(top, a) + BitsOf(c, b)
  {
    var v := Pow2(b) * top + c;
    DivModUnique(v, Pow2(b), top, c);
    BitsOfSplit(v, a, b, top);
  }

  /** The bits of `v`, cut after its high `a` bits. */
  lemma BitsOfCut(v: nat, a: nat, b: nat, ab: nat)
    requires ab == a + b
    ensures BitsOf(v, ab) == BitsOf(Drop(v, b), a) + BitsOf(v % Pow2(b), b)
  {
    DropDiv(v, b);
    BitsOfSplit(v, a, b, Drop(v, b));
  }

  /** The zero value has only zero bits. */
  lemma {:induction false} ZeroBits(k: nat)
    ensures BitsOf(0, k) == Rep(false, k)
  {
    if k > 0 {
      ZeroBits(k - 1);
      RepAdd(false, k - 1, 1);
    }
  }

  /** A quotient below a bound: `v < r * f` leaves fewer than `r` multiples of `f`. */
  lemma DivBelow(v: nat, f: nat, r: nat)
    requires f > 0 && v < r * f
    ensures v / f < r
  {
    var hi := v / f;
    if hi >= r {
      MulMono(f, r, hi);
      assert false;
    }
  }

  /** A byte whose low `8 - s` bits are clear is its high part shifted up. */
  lemma Strand(strand: byte, s: nat)
    requires s < 8 && strand % Pow2(8 - s) == 0
    ensures strand == Pow2(8 - s) * (strand / Pow2(8 - s))
    ensures strand / Pow2(8 - s) < Pow2(s)
  {
    Pow2Add(s, 8 - s);
    Pow2Eight();
    DivBelow(strand, Pow2(8 - s), Pow2(s));
  }

  /** The arithmetic of a strand that stays partial: `chunk` lands just above the `p` unused values. */
  lemma FillArith(strand: nat, chunk: nat, p: nat, q: nat, big: nat)
    requires p > 0 && q > 0 && big == q * p && big <= 256 && chunk < q && strand % big == 0
    ensures chunk * p < big && (chunk * p) % 256 == chunk * p
    ensures (strand + chunk * p) % p == 0 && (strand + chunk * p) / p == q * (strand / big) + chunk
  {
    MulStrict(chunk, q, p);
    var top := strand / big;
    assert strand == big * top;
    Distrib(p, q, top, chunk);
    DivModUnique(strand + chunk * p, p, q * top + chunk, 0);
  }

  /** The strand with `n` more bits, in arithmetic on powers of two. */
  lemma FillNumber(strand: byte, s: nat, chunk: byte, n: nat)
    requires s < 8 && 0 < s + n < 8 && chunk < Pow2(n) && strand % Pow2(8 - s) == 0
    ensures var v := Or(strand, (chunk * Pow2(8 - s - n)) % 256, 8);
      v % Pow2(8 - s - n) == 0 && v / Pow2(8 - s - n) == Pow2(n) * (strand / Pow2(8 - s)) + chunk
  {
    var p := Pow2(8 - s - n);
    Pow2Add(n, 8 - s - n);
    Pow2Monotone(8 - s, 8);
    Pow2Eight();
    FillArith(strand, chunk, p, Pow2(n), Pow2(8 - s));
    OrDisjoint(strand, chunk * p, 8 - s, 8);
  }

  /** The strand with `n` more bits, as a number. */
  lemma FillValue(strand: byte, s: nat, chunk: byte, n: nat)
    requires s < 8 && 0 < s + n < 8 && chunk < Pow2(n) && LowClear(strand, 8 - s)
    ensures var v := OrByte(strand, Shl(chunk, 8 - s - n));
      LowClear(v, 8 - s - n) && Drop(v, 8 - s - n) == Pow2(n) * Drop(strand, 8 - s) + chunk
  {
    LowClearMod(strand, 8 - s);
    ShlMul(chunk, 8 - s - n);
    FillNumber(strand, s, chunk, n);
    var v := OrByte(strand, Shl(chunk, 8 - s - n));
    DropDiv(v, 8 - s - n);
    DropDiv(strand, 8 - s);
    LowClearMod(v, 8 - s - n);
  }

  /** The strand gains `n` bits and stays partial. */
  lemma FillStep(strand: byte, s: nat, chunk: byte, n: nat)
    requires s < 8 && 0 < s + n < 8 && chunk < Pow2(n) && LowClear(strand, 8 - s)
    ensures var v := OrByte(strand, Shl(chunk, 8 - s - n));
      LowClear(v, 8 - s - n) &&
      BitsOf(Drop(v, 8 - s - n), s + n) == BitsOf(Drop(strand, 8 - s), s) + BitsOf(chunk, n)
  {
    FillValue(strand, s, chunk, n);
    BitsOfJoin(Drop(strand, 8 - s), chunk, s, n, s + n);
  }

  /** The completed strand, in arithmetic on powers of two. */
  lemma FullNumber(strand: byte, s: nat, chunk: byte, n: nat)
    requires s < 8 && s + n == 8 && chunk < Pow2(n) && strand % Pow2(8 - s) == 0
    ensures Or(strand, chunk, 8) == Pow2(n) * (strand / Pow2(8 - s)) + chunk
  {
    assert 8 - s == n;
    Pow2Eight();
    Strand(strand, s);
    OrDisjoint(strand, chunk, n, 8);
  }

  /** The strand gains `n` bits and is complete. */
  lemma FullStep(strand: byte, s: nat, chunk: byte, n: nat)
    requires s < 8 && s + n == 8 && chunk < Pow2(n) && LowClear(strand, 8 - s)
    ensures BitsOf(OrByte(strand, chunk), 8) == BitsOf(Drop(strand, 8 - s), s) + BitsOf(chunk, n)
  {
    LowClearMod(strand, 8 - s);
    FullNumber(strand, s, chunk, n);
    DropDiv(strand, 8 - s);
    BitsOfJoin(Drop(strand, 8 - s), chunk, s, n, 8);
  }

  /** The arithmetic of a spill: `chunk` splits at `sp` into a high part below `big` and a low part. */
  lemma SpillArith(chunk: nat, big: nat, sp: nat, l: nat)
    requires big > 0 && sp > 0 && l > 0 && sp * l == 256 && chunk < big * sp
    ensures chunk / sp < big
    ensures (chunk * l) % 256 == (chunk % sp) * l
    ensures ((chunk % sp) * l) % l == 0 && ((chunk % sp) * l) / l == chunk % sp
  {
    var hi := chunk / sp;
    var lo := chunk % sp;
    DivBelow(chunk, sp, big);
    MulStrict(lo, sp, l);
    Distrib(l, sp, hi, lo);
    ModUnique(chunk * l, 256, hi, lo * l);
    DivModUnique(lo * l, l, lo, 0);
  }

  /** The completed byte and the new strand of a spill, in arithmetic on powers of two. */
  lemma SpillNumber(strand: byte, s: nat, chunk: byte, n: nat, spill: nat)
    requires s < 8 && n <= 8 && s + n == 8 + spill && 0 < spill && chunk < Pow2(n)
    requires strand % Pow2(8 - s) == 0
    ensures var hi := Drop(chunk, spill);
      var ns := (chunk * Pow2(8 - spill)) % 256;
      hi < Pow2(8 - s) && Or(strand, hi, 8) == Pow2(8 - s) * (strand / Pow2(8 - s)) + hi &&
      ns % Pow2(8 - spill) == 0 && ns / Pow2(8 - spill) == chunk % Pow2(spill)
  {
    var big, sp, l := Pow2(8 - s), Pow2(spill), Pow2(8 - spill);
    Pow2Eight();
    Pow2Sum(spill, 8 - spill, 8);
    Pow2Sum(8 - s, spill, n);
    SpillArith(chunk, big, sp, l);
    DropDiv(chunk, spill);
    Strand(strand, s);
    OrDisjoint(strand, Drop(chunk, spill), 8 - s, 8);
  }

  /** The completed byte and the new strand of a spill, as numbers. */
  lemma SpillValue(strand: byte, s: nat, chunk: byte, n: nat, spill: nat)
    requires s < 8 && n <= 8 && s + n == 8 + spill && 0 < spill && chunk < Pow2(n)
    requires LowClear(strand, 8 - s)
    ensures var hi := Shr(chunk, spill);
      var ns := Shl(chunk, 8 - spill);
      hi < Pow2(8 - s) && OrByte(strand, hi) == Pow2(8 - s) * Drop(strand, 8 - s) + hi &&
      LowClear(ns, 8 - spill) && Drop(ns, 8 - spill) == chunk % Pow2(spill)
  {
    LowClearMod(strand, 8 - s);
    SpillNumber(strand, s, chunk, n, spill);
    DropDiv(strand, 8 - s);
    ShlMul(chunk, 8 - spill);
    var ns := Shl(chunk, 8 - spill);
    LowClearMod(ns, 8 - spill);
    DropDiv(ns, 8 - spill);
  }

  /**
   * The strand gains `n` bits and overflows: the high bits of `chunk`
   * complete a byte, the low `spill` bits start the next strand.
   */
  lemma SpillStep(strand: byte, s: nat, chunk: byte, n: nat, spill: nat)
    requires s < 8 && n <= 8 && s + n == 8 + spill && 0 < spill && chunk < Pow2(n)
    requires LowClear(strand, 8 - s)
    ensures var ns := Shl(chunk, 8 - spill);
      LowClear(ns, 8 - spill) &&
      BitsOf(OrByte(strand, Shr(chunk, spill)), 8) + BitsOf(Drop(ns, 8 - spill), spill)
        == BitsOf(Drop(strand, 8 - s), s) + BitsOf(chunk, n)
  {
    SpillValue(strand, s, chunk, n, spill);
    BitsOfJoin(Drop(strand, 8 - s), Shr(chunk, spill), s, 8 - s, 8);
    BitsOfCut(chunk, 8 - s, spill, n);
    Assoc(BitsOf(Drop(strand, 8 - s), s), BitsOf(Shr(chunk, spill), 8 - s), BitsOf(chunk % Pow2(spill), spill));
  }

  /** Byte `i` of the `k` big-endian bytes of `v`: the byte `e` bits up from the bottom. */
  lemma {:induction false} BigEndianAt(v: nat, k: nat, i: nat, e: nat)
    requires i < k && e == 8 * (k - 1 - i)
    ensures BigEndian(v, k)[i] == Drop(v, e) % 256
  {
    if i < k - 1 {
      BigEndianAt(v / 256, k - 1, i, e - 8);
      Pow2Eight();
      DropDiv(v, 8);
      DropDrop(v, 8, e - 8, e);
    }
  }

  /** Writing the next lower byte of `chunk` extends the written high bits of `chunk` by eight. */
  lemma U32Step(chunk: nat, numBits: nat, low: nat, b: nat)
    requires 8 <= low <= numBits && b == Drop(chunk, low - 8) % 256
    ensures BitsOf(Drop(chunk, low), numBits - low) + BitsOf(b, 8)
      == BitsOf(Drop(chunk, low - 8), numBits - low + 8)
  {
    var w := Drop(chunk, low - 8);
    Pow2Eight();
    BitsOfCut(w, numBits - low, 8, numBits - low + 8);
    DropDrop(chunk, low - 8, 8, low);
  }

  /** Dropping the low `low` bits of a value below `2^(r + low)` leaves a value below `2^r`. */
  lemma DropBelow(v: nat, r: nat, low: nat, n: nat)
    requires n == r + low && v < Pow2(n)
    ensures Drop(v, low) < Pow2(r)
  {
    DropDiv(v, low);
    Pow2Sum(r, low, n);
    DivBelow(v, Pow2(low), Pow2(r));
  }

  /** The leading partial byte of a `u32` write holds exactly the high `numBits % 8` bits. */
  lemma U32Lead(chunk: nat, numBits: nat, lead: nat)
    requires numBits <= 32 && numBits % 8 != 0 && chunk < Pow2(numBits)
    requires lead == BigEndian(chunk, 4)[3 - numBits / 8]
    ensures lead < Pow2(numBits % 8) && lead == Drop(chunk, 8 * (numBits / 8))
  {
    var r, q := numBits % 8, numBits / 8;
    var low := 8 * q;
    BigEndianAt(chunk, 4, 3 - q, low);
    DropBelow(chunk, r, low, numBits);
    Pow2Monotone(r, 8);
    Pow2Eight();
  }

  /** The bits of a writer that has passed on `written` and holds the high `s` bits of `strand`. */
  ghost function StreamBits(written: seq<byte>, strand: byte, s: nat): seq<bool>
    requires s <= 8
  {
    BytesToBits(written) + BitsOf(Drop(strand, 8 - s), s)
  }

  /** `write_bits` when the strand stays partial. */
  lemma FillState(written: seq<byte>, strand: byte, s: nat, chunk: byte, n: nat)
    requires s < 8 && 0 < s + n < 8 && chunk < Pow2(n) && LowClear(strand, 8 - s)
    ensures var ns := OrByte(strand, Shl(chunk, 8 - (s + n)));
      LowClear(ns, 8 - (s + n)) &&
      StreamBits(written, ns, s + n) == StreamBits(written, strand, s) + BitsOf(chunk, n)
  {
    FillStep(strand, s, chunk, n);
    Assoc(BytesToBits(written), BitsOf(Drop(strand, 8 - s), s), BitsOf(chunk, n));
  }

  /** `write_bits` when the strand is exactly completed. */
  lemma FullState(written: seq<byte>, strand: byte, s: nat, chunk: byte, n: nat)
    requires s < 8 && s + n == 8 && chunk < Pow2(n) && LowClear(strand, 8 - s)
    ensures StreamBits(written + [OrByte(strand, chunk)], 0, 0) == StreamBits(written, strand, s) + BitsOf(chunk, n)
  {
    FullStep(strand, s, chunk, n);
    var full := OrByte(strand, chunk);
    assert (written + [full])[..|written|] == written;
    Assoc(BytesToBits(written), BitsOf(Drop(strand, 8 - s), s), BitsOf(chunk, n));
  }

  /** `write_bits` when the strand overflows into a new one. */
  lemma SpillState(written: seq<byte>, strand: byte, s: nat, chunk: byte, n: nat, spill: nat)
    requires s < 8 && n <= 8 && s + n == 8 + spill && 0 < spill && chunk < Pow2(n)
    requires LowClear(strand, 8 - s)
    ensures var ns := Shl(chunk, 8 - spill);
      LowClear(ns, 8 - spill) &&
      StreamBits(written + [OrByte(strand, Shr(chunk, spill))], ns, spill)
        == StreamBits(written, strand, s) + BitsOf(chunk, n)
  {
    SpillStep(strand, s, chunk, n, spill);
    var full := OrByte(strand, Shr(chunk, spill));
    assert (written + [full])[..|written|] == written;
    Assoc(BytesToBits(written), BitsOf(full, 8), BitsOf(Drop(Shl(chunk, 8 - spill), 8 - spill), spill));
    Assoc(BytesToBits(written), BitsOf(Drop(strand, 8 - s), s), BitsOf(chunk, n));
  }

  class OutputStream {
    /** The bytes handed to the underlying writer so far. */
    var written: seq<byte>
    /** The partial byte; its `strandBits` high bits are pending. */
    var strand: byte
    var strandBits: nat

    /** The strand is partial and its unused low bits are clear. */
    ghost predicate Valid()
      reads this
    {
      strandBits < 8 && LowClear(strand, 8 - strandBits)
    }

    /** Every bit written so far: the completed bytes, then the pending bits of the strand. */
    ghost function Bits(): seq<bool>
      reads this
      requires Valid()
    {
      StreamBits(written, strand, strandBits)
    }

    constructor ()
      ensures Valid() && written == [] && strand == 0 && strandBits == 0
      ensures Bits() == []
    {
      written := [];
      strand := 0;
      strandBits := 0;
      LowClearMod(0, 8);
    }

    /**
     * The low `numBits` bits of `chunk` are appended. Whether they fit the
     * strand, exactly complete it, or spill over into a new one, the
     * written bits grow by exactly those bits.
     */
    method WriteBits(chunk: byte, numBits: nat)
      requires Valid() && numBits <= 8 && chunk < Pow2(numBits)
      requires strandBits + numBits > 0
      modifies this
      ensures Valid() && Bits() == old(Bits()) + BitsOf(chunk, numBits)
      ensures strandBits == (old(strandBits) + numBits) % 8
    {
      var rptr := strandBits + numBits;
      if rptr < 8 {
        Fill(chunk, numBits);
      } else if rptr == 8 {
        Complete(chunk, numBits);
      } else {
        Spill(chunk, numBits);
      }
    }

    /** `write_bits` when the strand stays partial: the bits go below those already in it. */
    method Fill(chunk: byte, numBits: nat)
      requires Valid() && chunk < Pow2(numBits) && 0 < strandBits + numBits < 8
      modifies this
      ensures Valid() && Bits() == old(Bits()) + BitsOf(chunk, numBits)
      ensures strandBits == old(strandBits) + numBits
    {
      var rptr := strandBits + numBits;
      var shift := 8 - rptr;
      FillState(written, strand, strandBits, chunk, numBits);
      strand := OrByte(strand, Shl(chunk, shift));
      strandBits := rptr;
    }

    /** `write_bits` when the strand is exactly completed: it is passed on and a new one begins. */
    method Complete(chunk: byte, numBits: nat)
      requires Valid() && numBits <= 8 && chunk < Pow2(numBits) && strandBits + numBits == 8
      modifies this
      ensures Valid() && Bits() == old(Bits()) + BitsOf(chunk, numBits)
      ensures strandBits == 0
    {
      FullState(written, strand, strandBits, chunk, numBits);
      written := written + [OrByte(strand, chunk)];
      strand := 0;
      strandBits := 0;
      LowClearMod(0, 8);
    }

    /** `write_bits` when the strand overflows: the high bits of `chunk` complete it, the low ones start the next. */
    method Spill(chunk: byte, numBits: nat)
      requires Valid() && numBits <= 8 && chunk < Pow2(numBits) && strandBits + numBits > 8
      modifies this
      ensures Valid() && Bits() == old(Bits()) + BitsOf(chunk, numBits)
      ensures strandBits == old(strandBits) + numBits - 8
    {
      var spill := strandBits + numBits - 8;
      SpillState(written, strand, strandBits, chunk, numBits, spill);
      written := written + [OrByte(strand, Shr(chunk, spill))];
      var lshift := 8 - spill;
      strand := Shl(chunk, lshift);
      strandBits := spill;
    }

    /** A whole byte is appended. */
    method WriteByte(b: byte)
      requires Valid()
      modifies this
      ensures Valid() && Bits() == old(Bits()) + BitsOf(b, 8)
      ensures strandBits == old(strandBits)
    {
      Pow2Eight();
      WriteBits(b, 8);
    }

    /**
     * The low bytes of `chunk`, from byte `bptr` of its four big-endian
     * bytes on, one at a time; its bits above the low `low` are already
     * written.
     */
    method WriteLowBytes(chunk: u32, numBits: nat, bptr: nat, ghost low: nat, ghost start: seq<bool>)
      requires Valid() && bptr <= 4 && low == 8 * (4 - bptr) <= numBits
      requires Bits() == start + BitsOf(Drop(chunk, low), numBits - low)
      modifies this
      ensures Valid() && Bits() == start + BitsOf(chunk, numBits)
      ensures strandBits == old(strandBits)
    {
      var bytes := BigEndian(chunk, 4);
      var i := bptr;
      ghost var rest := low;
      while i < 4
        invariant bptr <= i <= 4 && rest == 8 * (4 - i) && Valid()
        invariant Bits() == start + BitsOf(Drop(chunk, rest), numBits - rest)
        invariant strandBits == old(strandBits)
      {
        BigEndianAt(chunk, 4, i, rest - 8);
        U32Step(chunk, numBits, rest, bytes[i]);
        Assoc(start, BitsOf(Drop(chunk, rest), numBits - rest), BitsOf(bytes[i], 8));
        WriteByte(bytes[i]);
        i := i + 1;
        rest := rest - 8;
      }
    }

    /**
     * The low `numBits` bits of a `u32` are appended: first the bits
     * beyond the last whole byte, then the whole bytes. The start byte is
     * one past the partial one, so all 32 bits can be written.
     */
    method WriteBitsU32(chunk: u32, numBits: nat)
      requires Valid() && numBits <= 32 && chunk < Pow2(numBits)
      modifies this
      ensures Valid() && Bits() == old(Bits()) + BitsOf(chunk, numBits)
      ensures strandBits == (old(strandBits) + numBits) % 8
    {
      var bytes := BigEndian(chunk, 4);
      var numFull := numBits / 8;
      var numRem := numBits % 8;
      var bptr := 4 - numFull;
      ghost var start := Bits();
      ghost var low := 8 * numFull;
      ghost var sb := (strandBits + numBits) % 8;
      if numRem != 0 {
        WriteLead(chunk, numBits, bytes[bptr - 1]);
      } else {
        assert numBits == 8 * numFull;
        ModUnique(strandBits + numBits, 8, numFull, strandBits);
        assert BitsOf(Drop(chunk, low), 0) == [];
        assert start + [] == start;
      }
      assert strandBits == sb;
      WriteLowBytes(chunk, numBits, bptr, low, start);
    }

    /** The bits of `chunk` above its whole bytes, taken from `lead`, its leading partial byte. */
    method WriteLead(chunk: u32, numBits: nat, lead: byte)
      requires Valid() && numBits <= 32 && numBits % 8 != 0 && chunk < Pow2(numBits)
      requires lead == BigEndian(chunk, 4)[3 - numBits / 8]
      modifies this
      ensures Valid() && Bits() == old(Bits()) + BitsOf(Drop(chunk, 8 * (numBits / 8)), numBits % 8)
      ensures strandBits == (old(strandBits) + numBits) % 8
    {
      ghost var s0 := strandBits;
      U32Lead(chunk, numBits, lead);
      WriteBits(lead, numBits % 8);
      ModShift(s0 + numBits % 8, numBits / 8, s0 + numBits);
    }

    /**
     * `write_bits_u32` as written: the index of the partial byte is
     * computed as `3 - num_bits / 8` on `usize`, which has no value when
     * all 32 bits are asked for; `ok` is false exactly then, and nothing
     * is written.
     */
    method WriteBitsU32AsWritten(chunk: u32, numBits: nat) returns (ok: bool)
      requires Valid() && numBits <= 32 && chunk < Pow2(numBits)
      modifies this
      ensures ok <==> numBits < 32
      ensures ok ==> Valid() && Bits() == old(Bits()) + BitsOf(chunk, numBits)
      ensures !ok ==> written == old(written) && strand == old(strand) && strandBits == old(strandBits)
    {
      var bytes := BigEndian(chunk, 4);
      var numFull := numBits / 8;
      var numRem := numBits % 8;
      if numFull > 3 {
        return false;
      }
      var bptr := 3 - numFull;
      ghost var start := Bits();
      if numRem != 0 {
        WriteLead(chunk, numBits, bytes[bptr]);
      }
      bptr := bptr + 1;
      WriteLowBytes(chunk, numBits, bptr, 8 * numFull, start);
      ok := true;
    }

    /**
     * A byte string is appended. At a byte boundary it goes to the writer
     * as it is; otherwise every byte is split across two output bytes and
     * the strand keeps its length.
     */
    method WriteBytes(bytes: seq<byte>)
      requires Valid() && |bytes| > 0
      modifies this
      ensures Valid() && Bits() == old(Bits()) + BytesToBits(bytes)
      ensures strandBits == old(strandBits)
    {
      if strandBits == 0 {
        BytesToBitsAppend(written, bytes);
        written := written + bytes;
      } else {
        var rshift := strandBits;
        var lshift := 8 - strandBits;
        var buf: seq<byte> := [];
        var st := strand;
        var i := 0;
        while i < |bytes|
          invariant i <= |bytes| && LowClear(st, lshift) && unchanged(this)
          invariant BytesToBits(buf) + BitsOf(Drop(st, lshift), rshift)
            == BitsOf(Drop(strand, lshift), rshift) + BytesToBits(bytes[..i])
        {
          st, buf := SplitByte(buf, st, rshift, bytes[i]);
          assert bytes[..i + 1][..i] == bytes[..i];
          Assoc(BitsOf(Drop(strand, lshift), rshift), BytesToBits(bytes[..i]), BitsOf(bytes[i], 8));
          i := i + 1;
        }
        assert bytes[..i] == bytes;
        BytesToBitsAppend(written, buf);
        Assoc(BytesToBits(written), BytesToBits(buf), BitsOf(Drop(st, lshift), rshift));
        Assoc(BytesToBits(written), BitsOf(Drop(strand, lshift), rshift), BytesToBits(bytes));
        written := written + buf;
        strand := st;
      }
    }

    /** The pending bits, if any, are written as one byte padded with zero bits. */
    method Close()
      requires Valid()
      modifies this
      ensures written == old(written) + if old(strandBits) != 0 then [old(strand)] else []
      ensures BytesToBits(written) == old(Bits()) + Rep(false, (8 - old(strandBits)) % 8)
    {
      if strandBits != 0 {
        var s := strandBits;
        BitsOfCut(strand, s, 8 - s, 8);
        LowClearMod(strand, 8 - s);
        ZeroBits(8 - s);
        assert (written + [strand])[..|written|] == written;
        Assoc(BytesToBits(written), BitsOf(Drop(strand, 8 - s), s), Rep(false, 8 - s));
        written := written + [strand];
      }
    }
  }

  /** One byte through the loop of `write_bytes`: its high bits complete the strand, its low bits start the next. */
  method SplitByte(buf: seq<byte>, st: byte, s: nat, b: byte) returns (st': byte, buf': seq<byte>)
    requires 0 < s < 8 && LowClear(st, 8 - s)
    ensures LowClear(st', 8 - s)
    ensures BytesToBits(buf') + BitsOf(Drop(st', 8 - s), s)
      == BytesToBits(buf) + BitsOf(Drop(st, 8 - s), s) + BitsOf(b, 8)
  {
    Pow2Eight();
    SpillStep(st, s, b, 8, s);
    OrComm(st, Shr(b, s), 8);
    buf' := buf + [OrByte(Shr(b, s), st)];
    assert buf'[..|buf|] == buf;
    Assoc(BytesToBits(buf), BitsOf(OrByte(Shr(b, s), st), 8), BitsOf(Drop(Shl(b, 8 - s), 8 - s), s));
    Assoc(BytesToBits(buf), BitsOf(Drop(st, 8 - s), s), BitsOf(b, 8));
    st' := Shl(b, 8 - s);
  }
}
