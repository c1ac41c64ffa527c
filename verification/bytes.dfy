/** Fixed-width integers and their bit and byte layouts, as used by the encoder. */
module Bytes {

  type byte = x: int | 0 <= x < 0x100
  type u16 = x: int | 0 <= x < 0x1_0000
  type u32 = x: int | 0 <= x < 0x1_0000_0000

  datatype Option<T> = None | Some(value: T)

  /** `n` copies of `x`. */
  function Rep<T>(x: T, n: nat): (r: seq<T>)
    ensures |r| == n
    ensures forall k :: 0 <= k < n ==> r[k] == x
  {
    if n == 0 then [] else Rep(x, n - 1) + [x]
  }

  lemma RepAdd<T>(x: T, m: nat, n: nat)
    ensures Rep(x, m) + Rep(x, n) == Rep(x, m + n)
  {
    assert Rep(x, m) + Rep(x, n) == Rep(x, m + n);
  }

  function Pow2(k: nat): (r: nat)
    ensures r >= 1
  {
    if k == 0 then 1 else 2 * Pow2(k - 1)
  }

  lemma Pow2Add(a: nat, b: nat)
    ensures Pow2(a + b) == Pow2(a) * Pow2(b)
  {
    if a > 0 {
      Pow2Add(a - 1, b);
    }
  }

  lemma Pow2Sum(a: nat, b: nat, ab: nat)
    requires ab == a + b
    ensures Pow2(ab) == Pow2(a) * Pow2(b)
  {
    Pow2Add(a, b);
  }

  lemma Pow2Monotone(a: nat, b: nat)
    requires a <= b
    ensures Pow2(a) <= Pow2(b)
  {
    if a < b {
      Pow2Monotone(a, b - 1);
    }
  }

  lemma Pow2Eight()
    ensures Pow2(8) == 256
  {
  }

  /** The powers of two that bound bytes and 16-, 24- and 32-bit words. */
  lemma Pow2Words()
    ensures Pow2(8) == 0x100 && Pow2(16) == 0x1_0000 && Pow2(24) == 0x100_0000 && Pow2(32) == 0x1_0000_0000
  {
    Pow2Eight();
    Pow2Sum(8, 8, 16);
    Pow2Sum(16, 8, 24);
    Pow2Sum(16, 16, 32);
  }

  /** The `k` low bits of `v`, most significant first. */
  function BitsOf(v: nat, k: nat): (r: seq<bool>)
    ensures |r| == k
  {
    if k == 0 then [] else BitsOf(v / 2, k - 1) + [v % 2 == 1]
  }

  /** The number a bit string denotes, most significant bit first. */
  function ValueOf(bits: seq<bool>): (v: nat)
    ensures v < Pow2(|bits|)
  {
    if bits == [] then 0
    else 2 * ValueOf(bits[..|bits| - 1]) + (if bits[|bits| - 1] then 1 else 0)
  }

  /** Writing the low `k` bits and reading them back gives `v` modulo 2^k. */
  lemma {:induction false} ValueOfBitsOf(v: nat, k: nat)
    ensures ValueOf(BitsOf(v, k)) == v % Pow2(k)
  {
    if k > 0 {
      ValueOfBitsOf(v / 2, k - 1);
      var r := BitsOf(v, k);
      assert r[..k - 1] == BitsOf(v / 2, k - 1);
      var p := Pow2(k - 1);
      var low := (v / 2) % p;
      assert ValueOf(r) == 2 * low + v % 2;
      ModSplit(v, p);
    }
  }

  /** A value that fits in `k` bits reads back from its `k` bits unchanged. */
  lemma ValueOfField(v: nat, k: nat)
    requires v < Pow2(k)
    ensures ValueOf(BitsOf(v, k)) == v
  {
    ValueOfBitsOf(v, k);
    ModUnique(v, Pow2(k), 0, v);
  }

  /** The bits of the number a bit string denotes, on its length, are the string itself. */
  lemma {:induction false} BitsOfValueOf(bits: seq<bool>)
    ensures BitsOf(ValueOf(bits), |bits|) == bits
  {
    if bits != [] {
      var init := bits[..|bits| - 1];
      BitsOfValueOf(init);
      var v := ValueOf(bits);
      assert v / 2 == ValueOf(init) && (v % 2 == 1) == bits[|bits| - 1];
      assert bits == init + [bits[|bits| - 1]];
    }
  }

  /** v mod 2p, written through v / 2 mod p and the low bit. */
  lemma ModSplit(v: nat, p: nat)
    requires p > 0
    ensures v % (2 * p) == 2 * ((v / 2) % p) + v % 2
  {
    var h := v / 2;
    assert h == p * (h / p) + h % p;
    assert v == 2 * h + v % 2;
    assert v == (2 * p) * (h / p) + (2 * (h % p) + v % 2);
    ModUnique(v, 2 * p, h / p, 2 * (h % p) + v % 2);
  }

  lemma ModUnique(v: nat, m: nat, q: int, r: int)
    requires m > 0 && 0 <= r < m && v == m * q + r
    ensures v % m == r
  {
    DivModUnique(v, m, q, r);
  }

  /** Quotient and remainder are the only pair with the remainder in range. */
  lemma DivModUnique(v: int, m: int, q: int, r: int)
    requires m > 0 && 0 <= r < m && v == m * q + r
    ensures v / m == q && v % m == r
  {
    var q0, r0 := v / m, v % m;
    assert v == m * q0 + r0;
    assert m * (q - q0) == r0 - r;
    if q > q0 {
      MulAtLeast(m, q - q0);
    } else if q < q0 {
      MulAtLeast(m, q0 - q);
    }
  }

  lemma MulAtLeast(m: int, d: int)
    requires m > 0 && d >= 1
    ensures m * d >= m
  {
    assert m * d == m * (d - 1) + m;
    assert m * (d - 1) >= 0;
  }

  /** The bit strings of a concatenation of fields. */
  lemma {:induction false} BitsOfSplit(v: nat, a: nat, b: nat, q: nat)
    requires q == v / Pow2(b)
    ensures BitsOf(v, a + b) == BitsOf(q, a) + BitsOf(v % Pow2(b), b)
  {
    if b > 0 {
      DivDiv(v, 2, Pow2(b - 1));
      BitsOfSplit(v / 2, a, b - 1, q);
      ModBit(v, b);
    }
  }

  lemma DivDiv(v: nat, m: nat, n: nat)
    requires m > 0 && n > 0
    ensures v / (m * n) == (v / m) / n
  {
    var q := (v / m) / n;
    var r := (v / m) % n;
    var low := v % m;
    assert v / m == n * q + r;
    assert v == m * (v / m) + low;
    Distrib(m, n, q, r);
    assert v == (m * n) * q + (m * r + low);
    MulMono(m, r, n - 1);
    Distrib(m, 1, n - 1, 0);
    assert m * r + low < m * n;
    DivUnique(v, m * n, q, m * r + low);
  }

  lemma Distrib(m: int, n: int, q: int, r: int)
    ensures m * (n * q + r) == (m * n) * q + m * r
  {
  }

  lemma MulStrict(a: int, b: int, c: int)
    requires a < b && c > 0
    ensures a * c < b * c
  {
  }

  lemma MulMono(m: nat, a: int, b: int)
    requires a <= b
    ensures m * a <= m * b
  {
  }

  lemma DivUnique(v: nat, m: nat, q: int, r: int)
    requires m > 0 && 0 <= r < m && v == m * q + r
    ensures v / m == q
  {
    DivModUnique(v, m, q, r);
  }

  /** The low bit strings of `v` and of `v` reduced modulo 2^b agree. */
  lemma ModBit(v: nat, b: nat)
    requires b > 0
    ensures BitsOf(v % Pow2(b), b) == BitsOf((v / 2) % Pow2(b - 1), b - 1) + [v % 2 == 1]
  {
    var p := Pow2(b - 1);
    var w := v % Pow2(b);
    assert Pow2(b) == 2 * p;
    var q := v / (2 * p);
    assert v == (2 * p) * q + w;
    assert w / 2 == (v / 2) % p by {
      assert v / 2 == p * q + w / 2 by {
        assert v == 2 * (p * q + w / 2) + w % 2;
        DivUnique(v, 2, p * q + w / 2, w % 2);
      }
      ModUnique(v / 2, p, q, w / 2);
    }
    assert w % 2 == v % 2 by {
      assert v == 2 * (p * q + w / 2) + w % 2;
      ModUnique(v, 2, p * q + w / 2, w % 2);
    }
  }

  /** `v` as `k` big-endian bytes (the low 8k bits). */
  function BigEndian(v: nat, k: nat): (r: seq<byte>)
    ensures |r| == k
  {
    if k == 0 then [] else BigEndian(v / 256, k - 1) + [v % 256]
  }

  /** The bits of a byte string, each byte most significant bit first. */
  function BytesToBits(bs: seq<byte>): (r: seq<bool>)
    ensures |r| == 8 * |bs|
  {
    if bs == [] then [] else BytesToBits(bs[..|bs| - 1]) + BitsOf(bs[|bs| - 1], 8)
  }

  lemma {:induction false} BytesToBitsAppend(a: seq<byte>, b: seq<byte>)
    ensures BytesToBits(a + b) == BytesToBits(a) + BytesToBits(b)
  {
    if b != [] {
      assert (a + b)[..|a + b| - 1] == a + b[..|b| - 1];
      BytesToBitsAppend(a, b[..|b| - 1]);
    } else {
      assert a + b == a;
    }
  }

  /** Big-endian bytes carry exactly the low bits of the value, most significant first. */
  lemma {:induction false} BigEndianBits(v: nat, k: nat)
    ensures BytesToBits(BigEndian(v, k)) == BitsOf(v, 8 * k)
  {
    if k > 0 {
      BigEndianBits(v / 256, k - 1);
      var r := BigEndian(v, k);
      assert r[..k - 1] == BigEndian(v / 256, k - 1);
      assert Pow2(8) == 256;
      BitsOfSplit(v, 8 * (k - 1), 8, v / 256);
      assert BitsOf(v % 256, 8) == BitsOf(r[k - 1], 8);
    }
  }
}
