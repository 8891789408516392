/** Integer and bit helpers shared by the planar packer, the HAM encoder and the
    chunk writer. PHP works on unbounded-looking integers here; every place where
    it truncates (`pack`, `chr`) is written out explicitly. */
module Bits {

  /** One unsigned byte: a cell of a bitplane row and of the output file. */
  type byte = b: int | 0 <= b < 256

  /** The low eight bits of `v`, which is what `pack("C", v)` and `chr(v)` keep
      (two's complement for a negative `v`, which Euclidean `%` gives). */
  function ToByte(v: int): byte
  {
    v % 256
  }

  /** `array_fill(0, n, 0)`. */
  function Zeros(n: nat): (r: seq<byte>)
    ensures |r| == n && forall k :: 0 <= k < n ==> r[k] == 0
  {
    if n == 0 then [] else Zeros(n - 1) + [0]
  }

  function Pow2(n: nat): (r: nat)
    ensures r >= 1
  {
    if n == 0 then 1 else 2 * Pow2(n - 1)
  }

  /** Bit `p` of `v`, that is `($v >> $p) & 1` for a non-negative `v`. */
  function Bit(v: nat, p: nat): (b: nat)
    ensures b <= 1
  {
    (v / Pow2(p)) % 2
  }

  lemma {:induction false} Pow2Values()
    ensures Pow2(0) == 1 && Pow2(1) == 2 && Pow2(2) == 4 && Pow2(3) == 8
    ensures Pow2(4) == 16 && Pow2(5) == 32 && Pow2(6) == 64 && Pow2(7) == 128
    ensures Pow2(8) == 256
  {
    assert Pow2(1) == 2;
    assert Pow2(2) == 4;
    assert Pow2(3) == 8;
    assert Pow2(4) == 16;
    assert Pow2(5) == 32;
    assert Pow2(6) == 64;
    assert Pow2(7) == 128;
  }

  /** A clear bit of a byte can be set without leaving the byte range. */
  lemma {:induction false} SetBitFits(b: byte, k: nat)
    requires k < 8 && Bit(b, k) == 0
    ensures b + Pow2(k) < 256
  {
    Pow2Values();
    assert k == 0 || k == 1 || k == 2 || k == 3 || k == 4 || k == 5 || k == 6 || k == 7;
  }

  /** `b | (1 << k)` for a bit position `k` inside the byte. */
  function SetBit(b: byte, k: nat): byte
    requires k < 8
  {
    if Bit(b, k) == 1 then b
    else
      assert b + Pow2(k) < 256 by { SetBitFits(b, k); }
      b + Pow2(k)
  }

  /** Or-ing in bit `k` turns bit `k` on and leaves the seven other bits alone. */
  lemma {:induction false} SetBitBit(b: byte, k: nat, j: nat)
    requires k < 8
    ensures Bit(SetBit(b, k), j) == if j == k then 1 else Bit(b, j)
  {
    if Bit(b, k) == 0 {
      AddClearBit(b, k, j);
    }
  }

  /** Adding `2^k` to a number whose bit `k` is clear sets that bit and no other. */
  lemma {:induction false} AddClearBit(v: nat, k: nat, j: nat)
    requires Bit(v, k) == 0
    ensures Bit(v + Pow2(k), j) == if j == k then 1 else Bit(v, j)
  {
    if j == k {
      AddDivisor(v, Pow2(k));
    } else if j < k {
      AddClearBitBelow(v, k, j);
    } else {
      AddClearBitAbove(v, k, j);
    }
  }

  /** Adding the divisor adds one to the quotient and keeps the remainder. */
  lemma {:induction false} AddDivisor(v: nat, P: nat)
    requires P >= 1
    ensures (v + P) / P == v / P + 1 && (v + P) % P == v % P
  {
    var q, r := v / P, v % P;
    assert v + P == (q + 1) * P + r;
    DivModUnique(v + P, P, q + 1, r);
  }

  lemma {:induction false} AddClearBitBelow(v: nat, k: nat, j: nat)
    requires j < k
    ensures Bit(v + Pow2(k), j) == Bit(v, j)
  {
    var W, E, H := Pow2(j), Pow2(k - j), Pow2(k - j - 1);
    Pow2Add(j, k - j);
    assert Pow2(k) == W * E;
    assert E == 2 * H;
    ShiftAddEven(v, W, H);
  }

  /** Adding a multiple `2 * H` of the divisor `W` keeps the parity of the quotient. */
  lemma {:induction false} ShiftAddEven(v: nat, W: nat, H: nat)
    requires W >= 1
    ensures ((v + W * (2 * H)) / W) % 2 == (v / W) % 2
  {
    var qw, rw := v / W, v % W;
    assert v == qw * W + rw;
    assert W * (2 * H) == (2 * H) * W;
    assert v + W * (2 * H) == (qw + 2 * H) * W + rw;
    DivModUnique(v + W * (2 * H), W, qw + 2 * H, rw);
  }

  lemma {:induction false} AddClearBitAbove(v: nat, k: nat, j: nat)
    requires Bit(v, k) == 0 && k < j
    ensures Bit(v + Pow2(k), j) == Bit(v, j)
  {
    Pow2Add(k, j - k);
    assert Pow2(j - k) == 2 * Pow2(j - k - 1);
    CarryFreeAdd(v, Pow2(k), Pow2(j - k - 1));
  }

  /** Adding `P` to `v` when `v / P` is even changes neither quotient by `P * 2G`. */
  lemma {:induction false} CarryFreeAdd(v: nat, P: nat, G: nat)
    requires P >= 1 && G >= 1 && (v / P) % 2 == 0
    ensures (v + P) / (P * (2 * G)) == v / (P * (2 * G))
  {
    var F := 2 * G;
    var q := v / P;
    AddDivisor(v, P);
    ModMul(v, P, F);
    ModMul(v + P, P, F);
    NextStaysInBlock(q, F, G);
  }

  /** An even `q` and `q + 1` share their quotient by an even `F`. */
  lemma {:induction false} NextStaysInBlock(q: nat, F: nat, G: nat)
    requires q % 2 == 0 && F == 2 * G && G >= 1
    ensures (q + 1) / F == q / F
  {
    var t, s := q / F, q % F;
    assert q == 2 * (t * G) + s;
    DivModUnique(q + 1, F, t, s + 1);
  }

  lemma {:induction false} Pow2Add(a: nat, c: nat)
    ensures Pow2(a + c) == Pow2(a) * Pow2(c)
  {
    if a > 0 {
      Pow2Add(a - 1, c);
    }
  }

  /** Every bit of the zero byte is clear. */
  lemma {:induction false} ZeroBits(p: nat)
    ensures Bit(0, p) == 0
  {
  }

  /** Euclidean division has one quotient and one remainder. */
  lemma {:induction false} DivModUnique(v: int, m: int, q: int, r: int)
    requires m > 0 && 0 <= r < m && v == q * m + r
    ensures v / m == q && v % m == r
  {
    var q0, r0 := v / m, v % m;
    assert v == q0 * m + r0;
    assert (q - q0) * m == r0 - r;
    if q > q0 {
      MulAtLeast(q - q0, m);
    } else if q < q0 {
      MulAtLeast(q0 - q, m);
    }
  }

  lemma {:induction false} MulAtLeast(d: int, m: int)
    requires d >= 1 && m >= 0
    ensures d * m >= m
  {
    if d > 1 {
      MulAtLeast(d - 1, m);
      assert d * m == (d - 1) * m + m;
    }
  }

  /** Dividing by `a * b` in two steps, and the remainder as two digits. */
  lemma {:induction false} ModMul(v: int, a: int, b: int)
    requires a > 0 && b > 0
    ensures v / (a * b) == (v / a) / b
    ensures v % (a * b) == ((v / a) % b) * a + v % a
  {
    var q, r := v / a, v % a;
    var q2, s := q / b, q % b;
    assert v == q * a + r;
    assert q == q2 * b + s;
    AssocDistrib(q2, b, s, a);
    DigitBound(s, b, r, a);
    DivModUnique(v, a * b, q2, s * a + r);
  }

  lemma {:induction false} AssocDistrib(q: int, b: int, s: int, a: int)
    ensures (q * b + s) * a == q * (a * b) + s * a
  {
  }

  /** Two digits `s` (below `b`) and `r` (below `a`) stay below `a * b`. */
  lemma {:induction false} DigitBound(s: int, b: int, r: int, a: int)
    requires 0 <= s < b && 0 <= r < a
    ensures 0 <= s * a + r < a * b
  {
    assert s * a <= (b - 1) * a;
  }

  /** The number of bitplanes `ceil(log2(n))` needed for `n` colours, computed on
      integers instead of with floating-point `log`. */
  function CeilLog2(n: nat): (k: nat)
    requires n >= 1
    ensures n <= Pow2(k)
    ensures k > 0 ==> Pow2(k - 1) < n
    decreases n
  {
    if n <= 1 then 0 else 1 + CeilLog2((n + 1) / 2)
  }

  /** On an exact power of two the planes count is the exponent. */
  lemma {:induction false} CeilLog2OfPow2(k: nat)
    ensures CeilLog2(Pow2(k)) == k
  {
    if k > 0 {
      assert (Pow2(k) + 1) / 2 == Pow2(k - 1);
      CeilLog2OfPow2(k - 1);
    }
  }

  lemma {:induction false} DropAppend(s: seq<byte>, t: seq<byte>, k: nat)
    requires k <= |s|
    ensures (s + t)[k..] == s[k..] + t
  {
  }

  lemma {:induction false} AppendAssoc(x: seq<byte>, y: seq<byte>, z: seq<byte>)
    ensures (x + y) + z == x + (y + z)
  {
  }

  /** Rows written one after the other. */
  function Concat(rs: seq<seq<byte>>): (r: seq<byte>)
  {
    if rs == [] then [] else Concat(rs[..|rs| - 1]) + rs[|rs| - 1]
  }

  /** Writing one more row appends it. */
  lemma {:induction false} ConcatSnoc(rs: seq<seq<byte>>, x: seq<byte>)
    ensures Concat(rs + [x]) == Concat(rs) + x
  {
    assert (rs + [x])[..|rs|] == rs;
  }

  lemma {:induction false} ConcatAppend(xs: seq<seq<byte>>, ys: seq<seq<byte>>)
    ensures Concat(xs + ys) == Concat(xs) + Concat(ys)
    decreases |ys|
  {
    if ys == [] {
      assert xs + ys == xs;
    } else {
      var m := |ys| - 1;
      ConcatAppend(xs, ys[..m]);
      assert xs + ys == (xs + ys[..m]) + [ys[m]];
      assert ys == ys[..m] + [ys[m]];
      ConcatSnoc(xs + ys[..m], ys[m]);
      ConcatSnoc(ys[..m], ys[m]);
      AppendAssoc(Concat(xs), Concat(ys[..m]), ys[m]);
    }
  }

  /** Rows of `r` bytes each: byte `k` of row `i` lies at `i * r + k`. */
  lemma {:induction false} ConcatAt(rs: seq<seq<byte>>, r: nat, i: nat, k: nat)
    requires forall j :: 0 <= j < |rs| ==> |rs[j]| == r
    requires i < |rs| && k < r
    ensures |Concat(rs)| == |rs| * r && i * r + k < |rs| * r
    ensures Concat(rs)[i * r + k] == rs[i][k]
    decreases |rs|
  {
    var m := |rs| - 1;
    var front := rs[..m];
    assert Concat(rs) == Concat(front) + rs[m];
    ConcatLength(front, r);
    MulLess(i, m, r, k);
    if i < m {
      ConcatAt(front, r, i, k);
    }
  }

  lemma {:induction false} ConcatLength(rs: seq<seq<byte>>, r: nat)
    requires forall j :: 0 <= j < |rs| ==> |rs[j]| == r
    ensures |Concat(rs)| == |rs| * r
    decreases |rs|
  {
    if rs != [] {
      ConcatLength(rs[..|rs| - 1], r);
    }
  }

  /** Position `k` of block `q` lies inside block `q` when blocks are `r` wide. */
  lemma {:induction false} MulLess(q: nat, p: nat, r: nat, k: nat)
    requires q <= p && k < r
    ensures q * r + k < (p + 1) * r
    ensures q < p ==> q * r + r <= p * r
    ensures q == p ==> q * r == p * r
  {
    if q < p {
      MulAtLeast(p - q, r);
    }
  }

  /** An index below `y * n` splits into a block below `y` and an offset
      below `n`. */
  lemma {:induction false} SplitIndex(j: nat, n: nat, y: nat)
    requires n > 0 && j < y * n
    ensures j / n < y && j % n < n && j == (j / n) * n + j % n
  {
    if j / n >= y {
      MulAtLeast2(j / n, y, n);
    }
  }

  lemma {:induction false} MulAtLeast2(a: nat, b: nat, n: nat)
    requires a >= b
    ensures a * n >= b * n
  {
    if a > b {
      MulAtLeast(a - b, n);
    }
  }
}
