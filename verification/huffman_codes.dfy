/**
 * Canonical Huffman codewords from a table of lengths (encode in
 * lib/huffman.rs and src/huffman.rs): going through the lengths from the
 * smallest to the largest, and through the symbols in order within a
 * length, each symbol of that length takes the next word; the word is
 * doubled between lengths. The codeword of a symbol is given in closed form
 * by Code; it fits its length when the lengths fill the code space, and no
 * codeword is a prefix of another.
 */
module HuffmanCodes {
  import opened Bytes
  import opened HuffmanTree
  import BitWriter

  /** The space the symbols `0 .. k - 1` shorter than `L` take at depth `L`: 2^(L - len) each. */
  function Weight(table: seq<nat>, L: nat, k: nat): nat
    requires k <= |table|
  {
    if k == 0 then 0
    else Weight(table, L, k - 1) + (if table[k - 1] < L then Pow2(L - table[k - 1]) else 0)
  }

  /** The number of the symbols `0 .. k - 1` of length exactly `L`. */
  function Same(table: seq<nat>, L: nat, k: nat): nat
    requires k <= |table|
  {
    if k == 0 then 0 else Same(table, L, k - 1) + (if table[k - 1] == L then 1 else 0)
  }

  /**
   * The canonical codeword of symbol `s`: the space all shorter symbols take
   * at its depth, plus the number of symbols of its length before it.
   */
  function Code(table: seq<nat>, s: nat): nat
    requires s < |table|
  {
    Weight(table, table[s], |table|) + Same(table, table[s], s)
  }

  /** When no symbol is shorter than `L`, the space below `L` is empty. */
  lemma {:induction false} WeightNone(table: seq<nat>, L: nat, k: nat)
    requires k <= |table| && forall u :: 0 <= u < k ==> table[u] >= L
    ensures Weight(table, L, k) == 0
  {
    if k > 0 {
      WeightNone(table, L, k - 1);
    }
  }

  /** One level deeper, every shorter symbol and every symbol of length `L` takes twice as much. */
  lemma {:induction false} WeightNext(table: seq<nat>, L: nat, k: nat)
    requires k <= |table|
    ensures Weight(table, L + 1, k) == 2 * (Weight(table, L, k) + Same(table, L, k))
  {
    if k > 0 {
      WeightNext(table, L, k - 1);
      var x := table[k - 1];
      if x < L {
        assert Pow2(L + 1 - x) == 2 * Pow2(L - x);
      }
    }
  }

  /** `d` levels deeper, the space is at least 2^d times the shorter symbols and those of length `L`. */
  lemma {:induction false} WeightGrow(table: seq<nat>, L: nat, d: nat, k: nat)
    requires k <= |table| && d > 0
    ensures Weight(table, L + d, k) >= Pow2(d) * (Weight(table, L, k) + Same(table, L, k))
  {
    var w := Weight(table, L, k) + Same(table, L, k);
    WeightNext(table, L, k);
    if d > 1 {
      WeightGrow(table, L, d - 1, k);
      WeightNext(table, L + d - 1, k);
      Grow(Weight(table, L + d, k), Weight(table, L + d - 1, k), Pow2(d - 1), w);
    }
  }

  /** Counting further never counts fewer. */
  lemma {:induction false} SameMono(table: seq<nat>, L: nat, a: nat, b: nat)
    requires a <= b <= |table|
    ensures Same(table, L, a) <= Same(table, L, b)
    decreases b - a
  {
    if a < b {
      SameMono(table, L, a, b - 1);
    }
  }

  /** A symbol of length `L` at `s` is counted by every count that reaches past it. */
  lemma SameAfter(table: seq<nat>, s: nat, k: nat)
    requires s < k <= |table|
    ensures Same(table, table[s], s) + 1 <= Same(table, table[s], k)
  {
    SameMono(table, table[s], s + 1, k);
  }

  /**
   * The canonical order: a symbol after `s` in (length, symbol) order has a
   * codeword at least that of `s` plus one, shifted to its own length.
   */
  lemma CodeOrder(table: seq<nat>, s: nat, u: nat)
    requires s < |table| && u < |table|
    requires table[s] < table[u] || (table[s] == table[u] && s < u)
    ensures Code(table, u) >= Pow2(table[u] - table[s]) * (Code(table, s) + 1)
  {
    var n := |table|;
    var ls, lu := table[s], table[u];
    SameAfter(table, s, n);
    var d := lu - ls;
    if ls == lu {
      SameAfter(table, s, u);
      assert Pow2(d) == 1;
    } else {
      WeightGrow(table, ls, d, n);
      assert lu == ls + d;
      var w := Weight(table, ls, n) + Same(table, ls, n);
      assert Code(table, s) + 1 <= w;
      MulMono(Pow2(d), Code(table, s) + 1, w);
    }
  }

  /** The space the first `k` lengths take at depth `M` covers the shorter symbols and those of length `L`. */
  lemma {:induction false} SpaceBound(table: seq<nat>, L: nat, M: nat, k: nat)
    requires k <= |table| && L <= M
    requires forall u :: 0 <= u < |table| ==> 1 <= table[u] <= M
    ensures CodeSpace(table[..k], M) >= Pow2(M - L) * (Weight(table, L, k) + Same(table, L, k))
  {
    if k > 0 {
      SpaceBound(table, L, M, k - 1);
      assert table[..k][..k - 1] == table[..k - 1];
      var x := table[k - 1];
      var p := Pow2(M - L);
      var w := Weight(table, L, k - 1) + Same(table, L, k - 1);
      if x < L {
        Pow2Sum(M - L, L - x, M - x);
        assert p * (w + Pow2(L - x)) == p * w + p * Pow2(L - x);
      } else if x == L {
        assert p * (w + 1) == p * w + p;
      }
    }
  }

  /** When the lengths fill the code space of depth `M`, every codeword fits its length. */
  lemma CodeFits(table: seq<nat>, M: nat, s: nat)
    requires s < |table| && Complete(table, M)
    ensures Code(table, s) < Pow2(table[s])
  {
    var n := |table|;
    var L := table[s];
    assert table[..n] == table;
    SpaceBound(table, L, M, n);
    SameAfter(table, s, n);
    var p := Pow2(M - L);
    MulMono(p, Code(table, s) + 1, Weight(table, L, n) + Same(table, L, n));
    Pow2Sum(M - L, L, M);
    MulCancel(p, Code(table, s) + 1, Pow2(L));
  }

  /** Equal bit strings of the same width are the same number, below 2^width. */
  lemma BitsOfInjective(a: nat, b: nat, k: nat)
    requires a < Pow2(k) && b < Pow2(k) && BitsOf(a, k) == BitsOf(b, k)
    ensures a == b
  {
    ValueOfBitsOf(a, k);
    ValueOfBitsOf(b, k);
    ModUnique(a, Pow2(k), 0, a);
    ModUnique(b, Pow2(k), 0, b);
  }

  /** Cut to the length of `s`, the codeword of another symbol at least as long is not the codeword of `s`. */
  lemma CodesApart(table: seq<nat>, s: nat, u: nat)
    requires s < |table| && u < |table| && s != u && table[s] <= table[u]
    ensures Code(table, u) / Pow2(table[u] - table[s]) != Code(table, s)
  {
    var d := table[u] - table[s];
    if table[s] < table[u] || s < u {
      CodeOrder(table, s, u);
      DivAtLeast(Code(table, u), Code(table, s) + 1, Pow2(d));
    } else {
      CodeOrder(table, u, s);
      assert Pow2(d) == 1;
    }
  }

  /** A `lb`-bit number whose top `la` bits are not `a` does not begin with the `la` bits of `a`. */
  lemma PrefixBits(a: nat, la: nat, b: nat, lb: nat)
    requires la <= lb && a < Pow2(la) && b < Pow2(lb) && b / Pow2(lb - la) != a
    ensures BitsOf(b, lb)[..la] != BitsOf(a, la)
  {
    var d := lb - la;
    DivNonNegative(b, Pow2(d));
    var q := b / Pow2(d);
    assert q < Pow2(la) by {
      Pow2Sum(la, d, lb);
      DivBelowPow(b, Pow2(la), Pow2(d));
    }
    var hi := BitsOf(q, la);
    assert BitsOf(b, lb)[..la] == hi by {
      BitsOfSplit(b, la, d, q);
      assert la + d == lb;
    }
    assert ValueOf(hi) == q by {
      ValueOfBitsOf(q, la);
      ModUnique(q, Pow2(la), 0, q);
    }
    assert ValueOf(BitsOf(a, la)) == a by {
      ValueOfBitsOf(a, la);
      ModUnique(a, Pow2(la), 0, a);
    }
  }

  /**
   * The canonical code is prefix-free: when the lengths fill the code space,
   * the codeword of `s` does not begin the codeword of any other symbol at
   * least as long.
   */
  lemma PrefixFree(table: seq<nat>, M: nat, s: nat, u: nat)
    requires s < |table| && u < |table| && s != u && table[s] <= table[u] && Complete(table, M)
    ensures BitsOf(Code(table, u), table[u])[..table[s]] != BitsOf(Code(table, s), table[s])
  {
    CodeFits(table, M, s);
    CodeFits(table, M, u);
    CodesApart(table, s, u);
    PrefixBits(Code(table, s), table[s], Code(table, u), table[u]);
  }

  lemma DivNonNegative(v: nat, f: nat)
    requires f > 0
    ensures v / f >= 0
  {
  }

  /** A number below r * f has a quotient by f below r. */
  lemma DivBelowPow(v: nat, r: nat, f: nat)
    requires f > 0 && v < r * f
    ensures v / f < r
  {
    BitWriter.DivBelow(v, f, r);
  }

  /** A number at least c * f has a quotient by f at least c. */
  lemma DivAtLeast(v: nat, c: nat, f: nat)
    requires f > 0 && v >= f * c
    ensures v / f >= c
  {
    var q := v / f;
    assert v < f * (q + 1);
    MulCancelLt(f, c, q + 1);
  }

  lemma MulCancelLt(p: nat, a: nat, b: nat)
    requires p > 0 && p * a < p * b
    ensures a < b
  {
  }

  lemma MulCancel(p: nat, a: nat, b: nat)
    requires p > 0 && p * a <= p * b
    ensures a <= b
  {
  }

  lemma Grow(a: nat, b: nat, p: nat, w: nat)
    requires a >= 2 * b && b >= p * w
    ensures a >= (2 * p) * w
  {
  }

  /**
   * The codewords of a table: for every length from `minLen` to `maxLen`,
   * the symbols of that length in order each take the next word, and the
   * word is doubled after each length. Every symbol gets its length and its
   * canonical codeword.
   */
  method Codewords(table: seq<nat>, minLen: nat, maxLen: nat) returns (coding: seq<(nat, nat)>)
    requires forall s :: 0 <= s < |table| ==> minLen <= table[s] <= maxLen
    ensures |coding| == |table| && forall s :: 0 <= s < |table| ==> coding[s] == (table[s], Code(table, s))
  {
    var n := |table|;
    coding := Rep((0, 0), n);
    var word := 0;
    WeightNone(table, minLen, n);
    var l := minLen;
    while l <= maxLen
      invariant |coding| == n && word == Weight(table, l, n)
      invariant forall s :: 0 <= s < n && table[s] < l ==> coding[s] == (table[s], Code(table, s))
      invariant forall s :: 0 <= s < n && table[s] >= l ==> coding[s] == (0, 0)
    {
      coding, word := CodewordsOf(table, l, coding, word);
      WeightNext(table, l, n);
      word := word * 2;
      l := l + 1;
    }
  }

  /** The symbols of length `l`, in order, each take the next word; the others keep their entries. */
  method CodewordsOf(table: seq<nat>, l: nat, coding: seq<(nat, nat)>, word: nat)
    returns (coding': seq<(nat, nat)>, word': nat)
    requires |coding| == |table| && word == Weight(table, l, |table|)
    ensures word' == Weight(table, l, |table|) + Same(table, l, |table|)
    ensures |coding'| == |table|
    ensures forall s :: 0 <= s < |table| ==> coding'[s] == if table[s] == l then (l, Code(table, s)) else coding[s]
  {
    coding', word' := coding, word;
    for s := 0 to |table|
      invariant |coding'| == |table| && word' == Weight(table, l, |table|) + Same(table, l, s)
      invariant forall u :: 0 <= u < s ==> coding'[u] == if table[u] == l then (l, Code(table, u)) else coding[u]
      invariant forall u :: s <= u < |table| ==> coding'[u] == coding[u]
    {
      if table[s] == l {
        coding' := coding'[s := (l, word')];
        word' := word' + 1;
      }
    }
  }
}
