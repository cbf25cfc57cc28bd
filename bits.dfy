/**
 * Bit strings and big-endian byte strings, as the assembler and the
 * interpreter build and read them: a bit string is most significant bit
 * first, a byte string is most significant byte first.
 */
module Bits {

  /** An octet. */
  newtype byte = b: int | 0 <= b < 256

  /** 2 to the power n. */
  function Pow2(n: nat): (r: nat)
    ensures r >= 1
  {
    if n == 0 then 1 else 2 * Pow2(n - 1)
  }

  lemma {:induction false} Pow2Add(a: nat, b: nat)
    ensures Pow2(a + b) == Pow2(a) * Pow2(b)
  {
    if a > 0 {
      Pow2Add(a - 1, b);
      assert Pow2(a + b) == 2 * Pow2(a - 1 + b);
    }
  }

  lemma {:induction false} Pow2Monotone(a: nat, b: nat)
    requires a <= b
    ensures Pow2(a) <= Pow2(b)
  {
    if a < b {
      Pow2Monotone(a, b - 1);
    }
  }

  lemma {:induction false} MulAtLeast(d: int, x: int)
    requires d > 0 && x >= 1
    ensures d * x >= d
  {
    if x > 1 {
      MulAtLeast(d, x - 1);
      assert d * x == d * (x - 1) + d;
    }
  }

  lemma DoubleProduct(x: int, y: int)
    ensures 2 * (x * y) == x * (2 * y)
  {
  }

  /** Division is determined by quotient and remainder. */
  lemma DivModUnique(v: int, d: int, q: int, r: int)
    requires d > 0 && v == d * q + r && 0 <= r < d
    ensures v / d == q && v % d == r
  {
    var q0, r0 := v / d, v % d;
    assert v == d * q0 + r0;
    if q > q0 {
      MulAtLeast(d, q - q0);
    } else if q < q0 {
      MulAtLeast(d, q0 - q);
    }
  }

  /** A value below d * m has quotient below m. */
  lemma DivBelow(n: nat, d: nat, m: nat)
    requires d > 0 && n < d * m
    ensures n / d < m
  {
    var q := n / d;
    assert n == d * q + n % d;
    if q > m {
      MulAtLeast(d, q - m);
    }
  }

  /** The k + 1 low bits of v are the k low bits of v / 2, then the last bit of v. */
  lemma HalfThenShiftMod(v: nat, k: nat)
    ensures (v / 2) / Pow2(k) == v / Pow2(k + 1)
    ensures v % Pow2(k + 1) == 2 * ((v / 2) % Pow2(k)) + v % 2
  {
    var p := Pow2(k);
    var q, s := (v / 2) / p, (v / 2) % p;
    assert v / 2 == p * q + s;
    assert v == (2 * p) * q + (2 * s + v % 2);
    DivModUnique(v, 2 * p, q, 2 * s + v % 2);
  }

  /** v shifted right by k bits: v >> k. */
  function Shr(v: nat, k: nat): nat
  {
    if k == 0 then v else Shr(v / 2, k - 1)
  }

  lemma {:induction false} ShrIsDiv(v: nat, k: nat)
    ensures Shr(v, k) == v / Pow2(k)
  {
    if k > 0 {
      ShrIsDiv(v / 2, k - 1);
      HalfThenShiftMod(v, k - 1);
    }
  }

  /** Bit k (counted from the least significant end) of v: (v >> k) & 1. */
  function Bit(v: nat, k: nat): bool
  {
    Shr(v, k) % 2 == 1
  }

  /** The w lowest bits of v, most significant first (v's binary numeral zero-filled to w digits). */
  function BitsOf(v: nat, w: nat): (r: seq<bool>)
    ensures |r| == w
  {
    if w == 0 then [] else BitsOf(v / 2, w - 1) + [v % 2 == 1]
  }

  /** The value of a bit string read most significant bit first: int(bits, 2). */
  function ValueOf(bits: seq<bool>): (r: nat)
    ensures r < Pow2(|bits|)
  {
    if bits == [] then 0
    else 2 * ValueOf(bits[..|bits| - 1]) + (if bits[|bits| - 1] then 1 else 0)
  }

  /** n copies of the bit 0. */
  function Zeros(n: nat): seq<bool>
  {
    seq(n, _ => false)
  }

  lemma {:induction false} ValueOfBitsOf(v: nat, w: nat)
    ensures ValueOf(BitsOf(v, w)) == v % Pow2(w)
  {
    if w > 0 {
      var hi := BitsOf(v / 2, w - 1);
      assert BitsOf(v, w) == hi + [v % 2 == 1];
      assert (hi + [v % 2 == 1])[..w - 1] == hi;
      ValueOfBitsOf(v / 2, w - 1);
      HalfThenShiftMod(v, w - 1);
    }
  }

  lemma {:induction false} BitsOfValueOf(bits: seq<bool>)
    ensures BitsOf(ValueOf(bits), |bits|) == bits
  {
    if bits != [] {
      var n := |bits|;
      var front := bits[..n - 1];
      var v := ValueOf(bits);
      assert v / 2 == ValueOf(front) && (v % 2 == 1) == bits[n - 1];
      BitsOfValueOf(front);
      assert bits == front + [bits[n - 1]];
    }
  }

  lemma {:induction false} ValueOfAppend(x: seq<bool>, y: seq<bool>)
    ensures ValueOf(x + y) == ValueOf(x) * Pow2(|y|) + ValueOf(y)
  {
    if y != [] {
      var n := |y|;
      var y' := y[..n - 1];
      assert (x + y)[..|x + y| - 1] == x + y';
      assert (x + y)[|x + y| - 1] == y[n - 1];
      ValueOfAppend(x, y');
      var vx, p, b := ValueOf(x), Pow2(n - 1), if y[n - 1] then 1 else 0;
      assert ValueOf(y) == 2 * ValueOf(y') + b;
      assert Pow2(n) == 2 * p;
      calc {
        ValueOf(x + y);
        2 * ValueOf(x + y') + b;
        2 * (vx * p + ValueOf(y')) + b;
        { DoubleProduct(vx, p); }
        vx * (2 * p) + ValueOf(y);
      }
    } else {
      assert x + y == x;
    }
  }

  /** The w = hi + lo lowest bits of v are the hi bits above position lo, then the lo lowest bits. */
  lemma {:induction false} BitsOfSplit(v: nat, hi: nat, lo: nat)
    ensures BitsOf(v, hi + lo) == BitsOf(Shr(v, lo), hi) + BitsOf(v, lo)
  {
    if lo > 0 {
      var b := [v % 2 == 1];
      BitsOfSplit(v / 2, hi, lo - 1);
      var top := BitsOf(Shr(v, lo), hi);
      assert BitsOf(v / 2, hi + (lo - 1)) == top + BitsOf(v / 2, lo - 1);
      calc {
        BitsOf(v, hi + lo);
        BitsOf(v / 2, hi + (lo - 1)) + b;
        top + BitsOf(v / 2, lo - 1) + b;
        top + (BitsOf(v / 2, lo - 1) + b);
        top + BitsOf(v, lo);
      }
    } else {
      assert BitsOf(Shr(v, lo), hi) + [] == BitsOf(v, hi);
    }
  }

  /** Position i of BitsOf(v, w) holds bit w - 1 - i of v. */
  lemma {:induction false} BitsOfAt(v: nat, w: nat, i: nat)
    requires i < w
    ensures BitsOf(v, w)[i] == Bit(v, w - 1 - i)
  {
    var lo := w - 1 - i;
    BitsOfSplit(v, i + 1, lo);
    var top := BitsOf(Shr(v, lo), i + 1);
    assert top == BitsOf(Shr(v, lo) / 2, i) + [Shr(v, lo) % 2 == 1];
    assert BitsOf(v, w)[i] == top[i];
  }

  lemma {:induction false} BitsOfZero(w: nat)
    ensures BitsOf(0, w) == Zeros(w)
  {
    if w > 0 {
      BitsOfZero(w - 1);
      assert Zeros(w) == Zeros(w - 1) + [false];
    }
  }

  lemma {:induction false} BitsOfLowBits(v: nat, w: nat)
    ensures BitsOf(v % Pow2(w), w) == BitsOf(v, w)
  {
    var low := v % Pow2(w);
    ValueOfBitsOf(v, w);
    BitsOfValueOf(BitsOf(v, w));
  }

  /** The k-byte big-endian encoding of n: n.to_bytes(k, "big") when n fits. */
  function ToBytes(n: nat, k: nat): (r: seq<byte>)
    ensures |r| == k
  {
    if k == 0 then [] else ToBytes(n / 256, k - 1) + [(n % 256) as byte]
  }

  /** The big-endian value of a byte string: int.from_bytes(bytes, "big"). */
  function FromBytes(bytes: seq<byte>): (r: nat)
    ensures r < Pow2(8 * |bytes|)
  {
    if bytes == [] then 0
    else
      var n := |bytes|;
      var front := FromBytes(bytes[..n - 1]);
      Pow2Add(8, 8 * (n - 1));
      assert Pow2(8) == 256;
      front * 256 + bytes[n - 1] as nat
  }

  lemma {:induction false} FromBytesToBytes(n: nat, k: nat)
    requires n < Pow2(8 * k)
    ensures FromBytes(ToBytes(n, k)) == n
  {
    if k > 0 {
      Pow2Add(8, 8 * (k - 1));
      assert Pow2(8) == 256;
      DivBelow(n, 256, Pow2(8 * (k - 1)));
      var rest := ToBytes(n / 256, k - 1);
      assert ToBytes(n, k)[..k - 1] == rest;
      FromBytesToBytes(n / 256, k - 1);
    }
  }
}
