/**
 * The reference first-pass run-length coder of bzip2 (debug/rle1.py).
 *
 * The coder reads the input once. A run of equal bytes is cut into pieces
 * of at most 255 bytes: when a run reaches 256 the coder closes the piece
 * with count 251 and starts a new piece with the 256th byte. A piece shorter
 * than four is copied; a longer piece becomes four literal bytes followed by
 * a count byte holding the number of further copies.
 *
 * `Rle1Spec` states that coding as a function of the whole input (pieces cut
 * greedily from the front); the method `Rle1` is the loop of the reference
 * coder, proved to compute it.
 */
module Rle1Reference {
  import opened Bytes

  /** Length of the leading piece of `s`: the run of `s[0]` at its front, capped at 255. */
  function LeadLen(s: seq<byte>): (len: nat)
    requires |s| > 0
    ensures 1 <= len <= |s| && len <= 255
  {
    RunFrom(s, 1)
  }

  function RunFrom(s: seq<byte>, k: nat): (len: nat)
    requires 1 <= k <= |s| && k <= 255
    ensures k <= len <= |s| && len <= 255
    decreases |s| - k
  {
    if k < |s| && k < 255 && s[k] == s[0] then RunFrom(s, k + 1) else k
  }

  /** The leading piece is a run of `s[0]` that stops at a different byte, at the end, or at 255. */
  lemma LeadLenRun(s: seq<byte>)
    requires |s| > 0
    ensures forall k :: 0 <= k < LeadLen(s) ==> s[k] == s[0]
    ensures LeadLen(s) < |s| && LeadLen(s) < 255 ==> s[LeadLen(s)] != s[0]
  {
    RunFromRun(s, 1);
  }

  lemma {:induction false} RunFromRun(s: seq<byte>, k: nat)
    requires 1 <= k <= |s| && k <= 255
    requires forall j :: 0 <= j < k ==> s[j] == s[0]
    ensures forall j :: 0 <= j < RunFrom(s, k) ==> s[j] == s[0]
    ensures RunFrom(s, k) < |s| && RunFrom(s, k) < 255 ==> s[RunFrom(s, k)] != s[0]
    decreases |s| - k
  {
    if k < |s| && k < 255 && s[k] == s[0] {
      RunFromRun(s, k + 1);
    }
  }

  /** A leading piece is determined by where the run of `s[0]` stops or reaches 255. */
  lemma LeadLenIs(s: seq<byte>, len: nat)
    requires 1 <= len <= |s| && len <= 255
    requires forall k :: 0 <= k < len ==> s[k] == s[0]
    requires len == |s| || len == 255 || s[len] != s[0]
    ensures LeadLen(s) == len
  {
    RunFromIs(s, 1, len);
  }

  lemma RunFromIs(s: seq<byte>, k: nat, len: nat)
    requires 1 <= k <= len <= |s| && len <= 255
    requires forall j :: 0 <= j < len ==> s[j] == s[0]
    requires len == |s| || len == 255 || s[len] != s[0]
    ensures RunFrom(s, k) == len
    decreases len - k
  {
    if k < len {
      RunFromIs(s, k + 1, len);
    }
  }

  /** The code of one piece of `len` copies of `x`. */
  function Piece(x: byte, len: nat): (r: seq<byte>)
    requires 1 <= len <= 255
  {
    if len >= 4 then Rep(x, 4) + [len - 4] else Rep(x, len)
  }

  /** RLE1 of `s`: its pieces, cut greedily from the front, each coded by `Piece`. */
  function Rle1Spec(s: seq<byte>): (r: seq<byte>)
    decreases |s|
  {
    if s == [] then [] else
    var len := LeadLen(s);
    Piece(s[0], len) + Rle1Spec(s[len..])
  }

  /** The byte and length of the last piece of `s`. */
  function LastPiece(s: seq<byte>): (p: (byte, nat))
    requires |s| > 0
    ensures 1 <= p.1 <= |s| && p.1 <= 255
    decreases |s|
  {
    var len := LeadLen(s);
    if len == |s| then (s[0], len) else LastPiece(s[len..])
  }

  /** The code of every piece of `s` but the last. */
  function Body(s: seq<byte>): seq<byte>
    requires |s| > 0
    decreases |s|
  {
    var len := LeadLen(s);
    if len == |s| then [] else Piece(s[0], len) + Body(s[len..])
  }

  /** `s` ends with its last piece, and its code is the body followed by the last piece's code. */
  lemma LastPieceShape(s: seq<byte>)
    requires |s| > 0
    ensures forall k :: |s| - LastPiece(s).1 <= k < |s| ==> s[k] == LastPiece(s).0
    ensures Rle1Spec(s) == Body(s) + Piece(LastPiece(s).0, LastPiece(s).1)
  {
    LastPieceTail(s);
    LastPieceCode(s);
  }

  /** The last piece of `s` is a run at its end. */
  lemma {:induction false} LastPieceTail(s: seq<byte>)
    requires |s| > 0
    ensures forall k :: |s| - LastPiece(s).1 <= k < |s| ==> s[k] == LastPiece(s).0
    decreases |s|
  {
    var len := LeadLen(s);
    LeadLenRun(s);
    if len < |s| {
      LastPieceTail(s[len..]);
    }
  }

  /** The code of `s` is its body followed by the code of its last piece. */
  lemma {:induction false} LastPieceCode(s: seq<byte>)
    requires |s| > 0
    ensures Rle1Spec(s) == Body(s) + Piece(LastPiece(s).0, LastPiece(s).1)
    decreases |s|
  {
    var len := LeadLen(s);
    if len < |s| {
      LastPieceCode(s[len..]);
      assert Rle1Spec(s[len..]) == Body(s[len..]) + Piece(LastPiece(s).0, LastPiece(s).1);
    } else {
      assert s[len..] == [];
    }
  }

  /** Appending `x` to `s` opens a new piece: `x` differs from the last piece's byte, or that piece is full. */
  predicate OpensPiece(s: seq<byte>, x: byte)
    requires |s| > 0
  {
    x != LastPiece(s).0 || LastPiece(s).1 == 255
  }

  /**
   * Appending one byte either opens a new piece (a different byte, or the
   * last piece is full at 255) or lengthens the last piece.
   */
  lemma {:induction false} Snoc(s: seq<byte>, x: byte)
    requires |s| > 0
    ensures OpensPiece(s, x) ==> Body(s + [x]) == Rle1Spec(s) && LastPiece(s + [x]) == (x, 1)
    ensures !OpensPiece(s, x) ==>
      Body(s + [x]) == Body(s) && LastPiece(s + [x]) == (LastPiece(s).0, LastPiece(s).1 + 1)
    decreases |s|, 1
  {
    var len := LeadLen(s);
    if len < |s| {
      SnocInner(s, x);
    } else {
      SnocLast(s, x);
    }
  }

  /** Appending to an input of several pieces changes only the pieces after the first. */
  lemma {:induction false} SnocInner(s: seq<byte>, x: byte)
    requires |s| > 0 && LeadLen(s) < |s|
    ensures OpensPiece(s, x) ==> Body(s + [x]) == Rle1Spec(s) && LastPiece(s + [x]) == (x, 1)
    ensures !OpensPiece(s, x) ==>
      Body(s + [x]) == Body(s) && LastPiece(s + [x]) == (LastPiece(s).0, LastPiece(s).1 + 1)
    decreases |s|, 0
  {
    var len := LeadLen(s);
    var r := s[len..];
    Snoc(r, x);
    InnerPieces(s, x);
    if !OpensPiece(s, x) {
      assert !OpensPiece(r, x);
      assert Body(s + [x]) == Piece(s[0], len) + Body(r);
    }
  }

  /** The first piece of `s` is unchanged by appending when more pieces follow it. */
  lemma InnerPieces(s: seq<byte>, x: byte)
    requires |s| > 0 && LeadLen(s) < |s|
    ensures var len := LeadLen(s); var r := s[len..];
      LastPiece(s) == LastPiece(r) && LastPiece(s + [x]) == LastPiece(r + [x]) &&
      Body(s) == Piece(s[0], len) + Body(r) && Body(s + [x]) == Piece(s[0], len) + Body(r + [x]) &&
      Rle1Spec(s) == Piece(s[0], len) + Rle1Spec(r)
  {
    var len := LeadLen(s);
    var t := s + [x];
    LeadLenRun(s);
    LeadLenIs(t, len);
    assert t[len..] == s[len..] + [x];
  }

  /** Appending to an input of one piece. */
  lemma SnocLast(s: seq<byte>, x: byte)
    requires |s| > 0 && LeadLen(s) == |s|
    ensures OpensPiece(s, x) ==> Body(s + [x]) == Rle1Spec(s) && LastPiece(s + [x]) == (x, 1)
    ensures !OpensPiece(s, x) ==>
      Body(s + [x]) == Body(s) && LastPiece(s + [x]) == (LastPiece(s).0, LastPiece(s).1 + 1)
  {
    var len := |s|;
    var t := s + [x];
    LeadLenRun(s);
    assert LastPiece(s) == (s[0], len);
    assert Body(s) == [];
    assert Rle1Spec(s) == Piece(s[0], len) + Rle1Spec([]) by {
      assert s[len..] == [];
    }
    if x != s[0] || len == 255 {
      LeadLenIs(t, len);
      assert t[len..] == [x];
      assert LastPiece(t) == LastPiece([x]) == (x, 1);
      assert Body(t) == Piece(s[0], len) + Body([x]);
    } else {
      forall k | 0 <= k < len + 1
        ensures t[k] == t[0]
      {
      }
      LeadLenIs(t, len + 1);
      assert LastPiece(t) == (s[0], len + 1);
      assert Body(t) == [];
    }
  }

  /** The code of `s + [x]`, stated through the last piece of `s`. */
  lemma SnocCode(s: seq<byte>, x: byte)
    requires |s| > 0
    ensures OpensPiece(s, x) ==> Rle1Spec(s + [x]) == Rle1Spec(s) + [x]
    ensures !OpensPiece(s, x) ==> Rle1Spec(s + [x]) == Body(s) + Piece(LastPiece(s).0, LastPiece(s).1 + 1)
  {
    if OpensPiece(s, x) {
      SnocOpenCode(s, x);
    } else {
      SnocExtendCode(s, x);
    }
  }

  lemma SnocOpenCode(s: seq<byte>, x: byte)
    requires |s| > 0 && OpensPiece(s, x)
    ensures Rle1Spec(s + [x]) == Rle1Spec(s) + [x]
  {
    var t := s + [x];
    Snoc(s, x);
    LastPieceCode(t);
    assert Piece(x, 1) == [x] by {
      assert Rep(x, 1) == [x];
    }
  }

  lemma SnocExtendCode(s: seq<byte>, x: byte)
    requires |s| > 0 && !OpensPiece(s, x)
    ensures Rle1Spec(s + [x]) == Body(s) + Piece(LastPiece(s).0, LastPiece(s).1 + 1)
  {
    var t := s + [x];
    Snoc(s, x);
    LastPieceCode(t);
  }

  /** The code of a piece: the literals held back while the run is open, then its count byte. */
  lemma PieceSplit(x: byte, len: nat)
    requires 1 <= len <= 255
    ensures Piece(x, len) == Rep(x, Min(len, 4)) + (if len >= 4 then [len - 4] else [])
  {
  }

  /** The open run of `d`: its byte and length, or (-1, 0) before any input. */
  function OpenRun(d: seq<byte>): (r: (int, nat))
    ensures d != [] ==> 0 <= r.0 < 256 && 1 <= r.1 <= 255
  {
    if d == [] then (-1, 0) else LastPiece(d)
  }

  /** What the reference coder has emitted after reading `d`: the count of the open run is still due. */
  function Emitted(d: seq<byte>): seq<byte>
  {
    if d == [] then [] else Body(d) + Rep(LastPiece(d).0, Min(LastPiece(d).1, 4))
  }

  /** The count byte still due for an open run of length `k`. */
  function CountDue(k: nat): seq<byte>
    requires k <= 255
  {
    if k >= 4 then [k - 4] else []
  }

  /** Closing the open run completes the code. */
  lemma EmittedFlush(d: seq<byte>)
    ensures OpenRun(d).1 <= 255
    ensures Rle1Spec(d) == Emitted(d) + CountDue(OpenRun(d).1)
  {
    if d != [] {
      LastPieceShape(d);
      var (c, k) := LastPiece(d);
      PieceSplit(c, k);
    }
  }

  /** How one more byte changes what has been emitted, case by case as the coder's loop tests them. */
  lemma {:induction false} EmittedStep(d: seq<byte>, b: byte)
    ensures var (c, k) := OpenRun(d);
      if b != c then
        OpenRun(d + [b]) == (b, 1) && Emitted(d + [b]) == Emitted(d) + CountDue(k) + [b]
      else if k + 1 == 256 then
        OpenRun(d + [b]) == (b, 1) && Emitted(d + [b]) == Emitted(d) + [251, b]
      else
        OpenRun(d + [b]) == (b, k + 1) &&
        Emitted(d + [b]) == Emitted(d) + (if k + 1 <= 4 then [b] else [])
  {
    if d == [] {
      assert d + [b] == [b];
      assert LeadLen([b]) == 1;
      assert Rep(b, 1) == [b];
    } else {
      var (c, k) := LastPiece(d);
      if b != c || k == 255 {
        EmittedNewPiece(d, b);
      } else {
        EmittedSamePiece(d, b);
      }
    }
  }

  lemma EmittedNewPiece(d: seq<byte>, b: byte)
    requires d != []
    requires b != LastPiece(d).0 || LastPiece(d).1 == 255
    ensures LastPiece(d + [b]) == (b, 1)
    ensures Emitted(d + [b]) == Emitted(d) + CountDue(LastPiece(d).1) + [b]
  {
    var (c, k) := LastPiece(d);
    assert OpensPiece(d, b);
    Snoc(d, b);
    SnocOpenCode(d, b);
    assert Rep(b, 1) == [b];
    assert Emitted(d + [b]) == Body(d + [b]) + [b];
    LastPieceCode(d);
    PieceSplit(c, k);
    AppendAssoc(Body(d), Rep(c, Min(k, 4)), CountDue(k));
  }

  lemma EmittedSamePiece(d: seq<byte>, b: byte)
    requires d != []
    requires b == LastPiece(d).0 && LastPiece(d).1 < 255
    ensures LastPiece(d + [b]) == (b, LastPiece(d).1 + 1)
    ensures Emitted(d + [b]) == Emitted(d) + (if LastPiece(d).1 + 1 <= 4 then [b] else [])
  {
    var (c, k) := LastPiece(d);
    assert !OpensPiece(d, b);
    Snoc(d, b);
    assert Emitted(d + [b]) == Body(d) + Rep(c, Min(k + 1, 4));
    if k + 1 <= 4 {
      assert Rep(c, k + 1) == Rep(c, k) + [b];
      AppendAssoc(Body(d), Rep(c, k), [b]);
    }
  }

  // ---------------------------------------------------------------------
  // The coder's loop, one byte at a time.

  /** The loop state of the reference coder: bytes emitted, length of the open run, its byte (-1 before any input). */
  datatype Tracker = Tracker(out: seq<byte>, count: nat, cur: int)

  /** What one pass of the loop body does with byte `b`. */
  function Step(t: Tracker, b: byte): (r: Tracker)
    requires t.count <= 255
    ensures 1 <= r.count <= 255 && r.cur == b
  {
    if b != t.cur then Tracker(t.out + CountDue(t.count) + [b], 1, b)
    else if t.count + 1 == 256 then Tracker(t.out + [251, b], 1, b)
    else Tracker(t.out + (if t.count + 1 <= 4 then [b] else []), t.count + 1, b)
  }

  /** The loop state after reading `d`. */
  function Scan(d: seq<byte>): (t: Tracker)
    ensures t.count <= 255
  {
    if d == [] then Tracker([], 0, -1) else Step(Scan(d[..|d| - 1]), d[|d| - 1])
  }

  /** The code once the input ends: the count of the open run is appended. */
  function Flush(t: Tracker): seq<byte>
    requires t.count <= 255
  {
    t.out + CountDue(t.count)
  }

  lemma {:induction false} ScanIsEmitted(d: seq<byte>)
    ensures Scan(d) == Tracker(Emitted(d), OpenRun(d).1, OpenRun(d).0)
  {
    if d != [] {
      var p := d[..|d| - 1];
      ScanIsEmitted(p);
      assert d == p + [d[|d| - 1]];
      EmittedStep(p, d[|d| - 1]);
    }
  }

  /** The loop computes the piece coding: flushing the state after any input gives `Rle1Spec`. */
  lemma ScanSpec(d: seq<byte>)
    ensures Flush(Scan(d)) == Rle1Spec(d)
  {
    ScanIsEmitted(d);
    EmittedFlush(d);
  }

  /** The loop of the reference coder. */
  method Rle1(data: seq<byte>) returns (outbuf: seq<byte>)
    ensures outbuf == Rle1Spec(data)
  {
    outbuf := [];
    var runCount: nat := 0;
    var curRunChr: int := -1;
    for i := 0 to |data|
      invariant Tracker(outbuf, runCount, curRunChr) == Scan(data[..i])
    {
      var b := data[i];
      assert data[..i + 1][..i] == data[..i];
      if b != curRunChr {
        if runCount >= 4 {
          outbuf := outbuf + [runCount - 4];
        }
        runCount := 1;
        curRunChr := b;
        outbuf := outbuf + [b];
      } else {
        runCount := runCount + 1;
        if runCount <= 4 {
          outbuf := outbuf + [b];
        }
        if runCount == 256 {
          outbuf := outbuf + [runCount - 5];
          runCount := 1;
          outbuf := outbuf + [b];
        }
      }
    }
    assert data[..|data|] == data;
    ScanSpec(data);
    if runCount >= 4 {
      outbuf := outbuf + [runCount - 4];
    }
  }

  function Min(a: nat, b: nat): nat
  {
    if a < b then a else b
  }

  // ---------------------------------------------------------------------
  // Decoding: the inverse that bzip2 decoders apply.

  /** Four equal bytes are followed by a count of further copies; any other byte stands for itself. */
  function Decode(e: seq<byte>): seq<byte>
    decreases |e|
  {
    if |e| >= 5 && e[1] == e[0] && e[2] == e[0] && e[3] == e[0] then
      var extra: nat := e[4];
      Rep(e[0], 4 + extra) + Decode(e[5..])
    else if e == [] then []
    else [e[0]] + Decode(e[1..])
  }

  /** A short piece decodes to itself when the next code byte differs from it. */
  lemma {:induction false} DecodeShort(x: byte, len: nat, rest: seq<byte>)
    requires len <= 3
    requires rest == [] || rest[0] != x
    ensures Decode(Rep(x, len) + rest) == Rep(x, len) + Decode(rest)
  {
    if len > 0 {
      var e := Rep(x, len) + rest;
      ShortHead(x, len, rest);
      DecodeLiteral(e);
      DecodeShort(x, len - 1, rest);
      RepCons(x, len - 1);
      AppendAssoc([x], Rep(x, len - 1), Decode(rest));
    } else {
      assert Rep(x, len) + rest == rest;
    }
  }

  /** A byte that starts no run of four decodes as itself. */
  lemma DecodeLiteral(e: seq<byte>)
    requires e != [] && !(|e| >= 5 && e[1] == e[0] && e[2] == e[0] && e[3] == e[0])
    ensures Decode(e) == [e[0]] + Decode(e[1..])
  {
  }

  lemma AppendAssoc<T>(a: seq<T>, b: seq<T>, c: seq<T>)
    ensures a + (b + c) == (a + b) + c
  {
  }

  lemma RepCons<T>(x: T, n: nat)
    ensures Rep(x, n + 1) == [x] + Rep(x, n)
  {
    assert Rep(x, n + 1) == [x] + Rep(x, n);
  }

  /** A short piece starts no run of four: its first byte decodes as a literal. */
  lemma ShortHead(x: byte, len: nat, rest: seq<byte>)
    requires 1 <= len <= 3
    requires rest == [] || rest[0] != x
    ensures var e := Rep(x, len) + rest;
      e[0] == x && e[1..] == Rep(x, len - 1) + rest &&
      !(|e| >= 5 && e[1] == e[0] && e[2] == e[0] && e[3] == e[0])
  {
    var e := Rep(x, len) + rest;
    assert e[1..] == Rep(x, len - 1) + rest;
    if |e| >= 5 {
      assert e[len] == rest[0];
    }
  }

  lemma FirstCodeByte(s: seq<byte>)
    requires s != []
    ensures Rle1Spec(s) != [] && Rle1Spec(s)[0] == s[0]
  {
  }

  lemma DecodeLong(x: byte, extra: byte, rest: seq<byte>)
    ensures Decode(Rep(x, 4) + [extra] + rest) == Rep(x, 4 + extra) + Decode(rest)
  {
    var e := Rep(x, 4) + [extra] + rest;
    assert e[5..] == rest;
  }

  /** A piece decodes to its run when the code after it does not start with the same byte. */
  lemma DecodePiece(x: byte, len: nat, r: seq<byte>)
    requires 1 <= len <= 255
    requires len < 4 ==> r == [] || r[0] != x
    ensures Decode(Piece(x, len) + r) == Rep(x, len) + Decode(r)
  {
    if len >= 4 {
      DecodeLong(x, len - 4, r);
    } else {
      DecodeShort(x, len, r);
    }
  }

  /** An input is its leading piece followed by the rest. */
  lemma LeadSplit(s: seq<byte>)
    requires s != []
    ensures s == Rep(s[0], LeadLen(s)) + s[LeadLen(s)..]
  {
    LeadLenRun(s);
    assert s[..LeadLen(s)] == Rep(s[0], LeadLen(s));
  }

  /** Decoding the code of any input gives the input back. */
  lemma {:induction false} RoundTrip(s: seq<byte>)
    ensures Decode(Rle1Spec(s)) == s
    decreases |s|
  {
    if s != [] {
      var len := LeadLen(s);
      var x := s[0];
      var rest := s[len..];
      var r := Rle1Spec(rest);
      LeadLenRun(s);
      RoundTrip(rest);
      if rest != [] {
        FirstCodeByte(rest);
      }
      DecodePiece(x, len, r);
      LeadSplit(s);
    }
  }

  // ---------------------------------------------------------------------
  // Runs of one byte value.

  /** A run of `n` copies of `x` is coded as pieces of 255 followed by the remainder. */
  lemma {:induction false} RepCode(x: byte, n: nat)
    ensures n == 0 ==> Rle1Spec(Rep(x, n)) == []
    ensures 1 <= n <= 255 ==> Rle1Spec(Rep(x, n)) == Piece(x, n)
    ensures n > 255 ==> Rle1Spec(Rep(x, n)) == Piece(x, 255) + Rle1Spec(Rep(x, n - 255))
  {
    var s := Rep(x, n);
    if n > 0 {
      var len := if n <= 255 then n else 255;
      LeadLenIs(s, len);
      if n <= 255 {
        assert s[len..] == [];
      } else {
        assert s[len..] == Rep(x, n - 255);
      }
    }
  }

  /** A maximal run of length 1 to 3 is copied, one of length 4 to 255 becomes four literals and `len - 4`. */
  lemma ShortAndLongRuns(x: byte, len: nat)
    requires 1 <= len <= 255
    ensures len <= 3 ==> Rle1Spec(Rep(x, len)) == Rep(x, len)
    ensures len >= 4 ==> Rle1Spec(Rep(x, len)) == [x, x, x, x, len - 4]
  {
    RepCode(x, len);
  }

  /**
   * A run of 256 is four literals, count 251 and one more literal: the byte
   * that reached 256 is neither dropped nor doubled.
   */
  lemma SplitAt256(x: byte)
    ensures Rle1Spec(Rep(x, 256)) == [x, x, x, x, 251, x]
  {
    RepCode(x, 256);
    RepCode(x, 1);
  }

  /** The leading piece of `a` stays the leading piece when `b` does not continue its run. */
  lemma LeadOfAppend(a: seq<byte>, b: seq<byte>)
    requires a != [] && b != [] && a[|a| - 1] != b[0]
    ensures LeadLen(a + b) == LeadLen(a)
    ensures (a + b)[LeadLen(a)..] == a[LeadLen(a)..] + b
    ensures (a + b)[0] == a[0]
  {
    var len := LeadLen(a);
    var t := a + b;
    LeadLenRun(a);
    if len == |a| {
      assert a[|a| - 1] == a[0];
      assert t[len] == b[0];
    } else {
      assert t[len] == a[len];
    }
    LeadLenIs(t, len);
  }

  lemma AppendEmpty(a: seq<byte>, b: seq<byte>)
    requires a == [] || b == []
    ensures Rle1Spec(a + b) == Rle1Spec(a) + Rle1Spec(b)
  {
    if a == [] {
      assert a + b == b;
      assert Rle1Spec(a) == [];
    } else {
      assert a + b == a;
      assert Rle1Spec(b) == [];
    }
  }

  /** Coding splits at a boundary between two different bytes. */
  lemma {:induction false} AppendDistinct(a: seq<byte>, b: seq<byte>)
    requires a == [] || b == [] || a[|a| - 1] != b[0]
    ensures Rle1Spec(a + b) == Rle1Spec(a) + Rle1Spec(b)
    decreases |a|
  {
    if a == [] || b == [] {
      AppendEmpty(a, b);
    } else {
      var len := LeadLen(a);
      var a' := a[len..];
      LeadOfAppend(a, b);
      assert a' == [] || a'[|a'| - 1] == a[|a| - 1];
      AppendDistinct(a', b);
      calc {
        Rle1Spec(a + b);
        Piece(a[0], len) + Rle1Spec(a' + b);
        Piece(a[0], len) + (Rle1Spec(a') + Rle1Spec(b));
        Rle1Spec(a) + Rle1Spec(b);
      }
    }
  }

  lemma PieceLengthGrows(x: byte, k: nat)
    requires 1 <= k < 255
    ensures |Piece(x, k)| <= |Piece(x, k + 1)|
  {
  }

  /** Appending one byte never shortens the code. */
  lemma SnocLonger(p: seq<byte>, x: byte)
    ensures |Rle1Spec(p)| <= |Rle1Spec(p + [x])|
  {
    if p == [] {
      assert Rle1Spec(p) == [];
    } else if OpensPiece(p, x) {
      SnocOpenCode(p, x);
    } else {
      var (c, k) := LastPiece(p);
      SnocExtendCode(p, x);
      LastPieceCode(p);
      PieceLengthGrows(c, k);
      assert |Rle1Spec(p)| == |Body(p)| + |Piece(c, k)|;
      assert |Rle1Spec(p + [x])| == |Body(p)| + |Piece(c, k + 1)|;
    }
  }

  /** Appending input never shortens the code. */
  lemma {:induction false} LengthMonotone(p: seq<byte>, q: seq<byte>)
    ensures |Rle1Spec(p)| <= |Rle1Spec(p + q)|
    decreases |q|
  {
    if q == [] {
      assert p + q == p;
    } else {
      var p' := p + [q[0]];
      assert p + q == p' + q[1..];
      LengthMonotone(p', q[1..]);
      SnocLonger(p, q[0]);
    }
  }

  // ---------------------------------------------------------------------
  // Test vectors of the block coder, stated about the reference coding.

  lemma Rep4(x: byte)
    ensures Rep(x, 4) == [x, x, x, x]
  {
  }

  /** Four equal bytes: four literals and count 0. */
  lemma VectorFour(x: byte)
    ensures Rle1Spec(Rep(x, 4)) == [x, x, x, x, 0]
  {
    RepCode(x, 4);
    Rep4(x);
  }

  /** A full piece of 255: four literals and count 251. */
  lemma VectorFull(x: byte)
    ensures Rle1Spec(Rep(x, 255)) == [x, x, x, x, 251]
  {
    RepCode(x, 255);
    Rep4(x);
  }

  /** A run of 259: a full piece, then a piece of four. */
  lemma VectorOverFull(x: byte)
    ensures Rle1Spec(Rep(x, 259)) == [x, x, x, x, 251, x, x, x, x, 0]
  {
    RepCode(x, 259);
    VectorFour(x);
    Rep4(x);
  }

  /** A run of 500: a full piece, then a piece of 245. */
  lemma VectorTwoPieces(x: byte)
    ensures Rle1Spec(Rep(x, 500)) == [x, x, x, x, 251, x, x, x, x, 241]
  {
    RepCode(x, 500);
    RepCode(x, 245);
    Rep4(x);
  }

  /** Two runs of four different bytes: two pieces of four. */
  lemma VectorTwoRuns(a: byte, b: byte)
    requires a != b
    ensures Rle1Spec(Rep(a, 4) + Rep(b, 4)) == [a, a, a, a, 0, b, b, b, b, 0]
  {
    Rep4(a);
    Rep4(b);
    VectorFour(a);
    VectorFour(b);
    AppendDistinct(Rep(a, 4), Rep(b, 4));
  }

  /** Three runs of four different bytes: three pieces of four. */
  lemma VectorThreeRuns(a: byte, b: byte, c: byte)
    requires a != b && b != c
    ensures Rle1Spec(Rep(a, 4) + Rep(b, 4) + Rep(c, 4))
         == [a, a, a, a, 0, b, b, b, b, 0, c, c, c, c, 0]
  {
    var ab := Rep(a, 4) + Rep(b, 4);
    VectorTwoRuns(a, b);
    Rep4(c);
    VectorFour(c);
    assert ab[|ab| - 1] == b;
    AppendDistinct(ab, Rep(c, 4));
  }
}
