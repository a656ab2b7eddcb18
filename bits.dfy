/** Bit-strings: strings of '0' and '1' characters, most significant bit first,
    with the numeric value they denote and the string operations the adder and
    the multiplier are built from (zero padding, appending zeros, keeping the
    last eight characters, reversing). */
module Bits {

  function Max(a: nat, b: nat): nat { if a >= b then a else b }

  function Min(a: nat, b: nat): nat { if a <= b then a else b }

  /** Every character is a binary digit. */
  predicate IsBits(s: string) {
    forall i :: 0 <= i < |s| ==> s[i] == '0' || s[i] == '1'
  }

  /** The value of one binary digit, as `int(c)` reads it. */
  function Digit(c: char): nat {
    if c == '1' then 1 else 0
  }

  /** The character of a bit value, as `str(bit)` writes it. */
  function BitChar(d: nat): char {
    if d == 1 then '1' else '0'
  }

  function Pow2(n: nat): (p: nat)
    ensures p >= 1
  {
    if n == 0 then 1 else 2 * Pow2(n - 1)
  }

  /** The magnitude a bit-string denotes, as `int(s, 2)` reads a non-empty
      bit-string; the model gives the empty string the value 0, where
      `int("", 2)` would raise. Only bit-strings are given to it: any character
      other than '1' counts as a zero digit. */
  function Val(s: string): nat {
    if s == [] then 0 else 2 * Val(s[..|s| - 1]) + Digit(s[|s| - 1])
  }

  /** The w-bit numeral of n modulo 2^w, most significant bit first. */
  function ToBits(n: nat, w: nat): (s: string)
    ensures |s| == w && IsBits(s)
  {
    if w == 0 then [] else ToBits(n / 2, w - 1) + [BitChar(n % 2)]
  }

  /** `'0' * n`: n zero characters. */
  function Zeros(n: nat): (z: string)
    ensures |z| == n && IsBits(z)
  {
    if n == 0 then [] else Zeros(n - 1) + ['0']
  }

  /** `s.zfill(width)` on a bit-string: s left-padded with '0' up to width
      characters; a string already that long is returned unchanged. */
  function ZFill(s: string, width: nat): (r: string)
    ensures |r| == Max(|s|, width)
    ensures IsBits(s) ==> IsBits(r)
  {
    if |s| >= width then s else Zeros(width - |s|) + s
  }

  /** The low eight bits of n: what an eight-bit result keeps of it. */
  function Low8(n: nat): nat {
    n % 256
  }

  /** `s[-8:]`: the last eight characters, or the whole string when it is shorter. */
  function Last8(s: string): (r: string)
    ensures |r| == Min(|s|, 8)
    ensures IsBits(s) ==> IsBits(r)
  {
    if |s| <= 8 then s else s[|s| - 8..]
  }

  /** `s[::-1]`. */
  function Reverse(s: string): (r: string)
    ensures |r| == |s|
    ensures forall k :: 0 <= k < |s| ==> r[k] == s[|s| - 1 - k]
  {
    if |s| == 0 then [] else Reverse(s[1..]) + [s[0]]
  }

  // ---------------------------------------------------------------------------
  // Arithmetic helpers

  lemma {:induction false} ModUnique(n: int, d: int, k: int, r: int)
    requires d > 0 && 0 <= r < d && n == d * k + r
    ensures n % d == r && n / d == k
  {
    var q, m := n / d, n % d;
    assert d * q + m == d * k + r;
    if k > q {
      MulAtLeast(d, k - q);
    } else if k < q {
      MulAtLeast(d, q - k);
    }
  }

  lemma {:induction false} MulAtLeast(d: int, t: int)
    requires d > 0 && t >= 1
    ensures d * t >= d
  {
  }

  lemma {:induction false} ModAddLeft(x: nat, y: nat, m: nat)
    requires m > 0
    ensures (x % m + y) % m == (x + y) % m
  {
    var z := x % m + y;
    assert x + y == m * (x / m) + z;
    assert z == m * (z / m) + z % m;
    assert x + y == m * (x / m + z / m) + z % m;
    ModUnique(x + y, m, x / m + z / m, z % m);
  }

  lemma {:induction false} Pow2Monotone(k: nat, n: nat)
    requires k <= n
    ensures Pow2(k) <= Pow2(n)
    decreases n
  {
    if k < n {
      Pow2Monotone(k, n - 1);
    }
  }

  // ---------------------------------------------------------------------------
  // Value of bit-strings

  /** The last digit has weight 1; the rest is worth twice its own value. */
  lemma {:induction false} ValLast(s: string)
    requires |s| > 0
    ensures Val(s) == 2 * Val(s[..|s| - 1]) + Digit(s[|s| - 1])
  {
  }

  /** A string of n digits is worth less than 2^n. */
  lemma {:induction false} ValBound(s: string)
    ensures Val(s) < Pow2(|s|)
  {
    if |s| > 0 {
      ValBound(s[..|s| - 1]);
    }
  }

  /** Concatenation: the left part is worth 2^|b| times its own value. */
  lemma {:induction false} ValConcat(a: string, b: string)
    ensures Val(a + b) == Val(a) * Pow2(|b|) + Val(b)
    decreases |b|
  {
    if |b| == 0 {
      assert a + b == a;
    } else {
      var b', c := b[..|b| - 1], b[|b| - 1];
      ValConcat(a, b');
      var ab := a + b;
      ValLast(ab);
      ValLast(b);
      assert ab[..|ab| - 1] == a + b' && ab[|ab| - 1] == c;
      DoubleShift(Val(a), Val(b'), Pow2(|b'|), Digit(c));
    }
  }

  lemma {:induction false} DoubleShift(va: nat, vb: nat, p: nat, d: nat)
    ensures 2 * (va * p + vb) + d == va * (2 * p) + (2 * vb + d)
  {
  }

  /** Prepending one digit adds its weight 2^|s| when it is a '1'. */
  lemma {:induction false} ValPrepend(c: char, s: string)
    ensures Val([c] + s) == (if c == '1' then Pow2(|s|) else 0) + Val(s)
  {
    assert [c][..0] == [];
    assert Val([c]) == Digit(c);
    ValConcat([c], s);
    assert Digit(c) * Pow2(|s|) == if c == '1' then Pow2(|s|) else 0;
  }

  /** The suffix from index i is the digit s[i], at its weight, before the
      suffix from i + 1. */
  lemma {:induction false} ValSuffixStep(s: string, i: nat)
    requires i < |s|
    ensures Val(s[i..]) == (if s[i] == '1' then Pow2(|s| - i - 1) else 0) + Val(s[i + 1..])
  {
    assert s[i..] == [s[i]] + s[i + 1..];
    ValPrepend(s[i], s[i + 1..]);
  }

  /** The value of the digits of s from index i on, summed digit by digit
      from the right as a ripple-carry loop scans them. */
  function SuffixVal(s: string, i: nat): nat
    requires i <= |s|
    decreases |s| - i
  {
    if i == |s| then 0 else (if s[i] == '1' then Pow2(|s| - i - 1) else 0) + SuffixVal(s, i + 1)
  }

  /** Scanning from index i gives the value of the suffix s[i..]. */
  lemma {:induction false} SuffixValIsVal(s: string, i: nat)
    requires i <= |s|
    ensures SuffixVal(s, i) == Val(s[i..])
    decreases |s| - i
  {
    if i < |s| {
      SuffixValIsVal(s, i + 1);
      ValSuffixStep(s, i);
    } else {
      assert s[i..] == [];
    }
  }

  /** A string is worth the sum of its digits' weights, scanned from index 0. */
  lemma {:induction false} ValBySuffix(s: string)
    ensures Val(s) == SuffixVal(s, 0)
  {
    SuffixValIsVal(s, 0);
    assert s[0..] == s;
  }

  lemma {:induction false} ValZeros(n: nat)
    ensures Val(Zeros(n)) == 0
  {
    if n > 0 {
      ValZeros(n - 1);
      assert Zeros(n)[..n - 1] == Zeros(n - 1);
    }
  }

  /** A string with no '1' denotes 0. */
  lemma {:induction false} ValNoOnes(s: string)
    requires forall i :: 0 <= i < |s| ==> s[i] != '1'
    ensures Val(s) == 0
  {
    if |s| > 0 {
      ValNoOnes(s[..|s| - 1]);
    }
  }

  /** Digits worth nothing in front of s leave its value unchanged. */
  lemma {:induction false} ValZeroPrefix(z: string, s: string)
    requires Val(z) == 0
    ensures Val(z + s) == Val(s)
  {
    ValConcat(z, s);
    assert Val(z) * Pow2(|s|) == 0;
  }

  /** Zero padding keeps the value. */
  lemma {:induction false} ZFillValue(s: string, width: nat)
    ensures Val(ZFill(s, width)) == Val(s)
  {
    if |s| < width {
      ValZeros(width - |s|);
      ValZeroPrefix(Zeros(width - |s|), s);
    }
  }

  /** `'0' * n` holds nothing but zeros. */
  lemma {:induction false} ZerosAreZero(n: nat)
    ensures forall k :: 0 <= k < n ==> Zeros(n)[k] == '0'
  {
    if n > 0 {
      ZerosAreZero(n - 1);
      assert Zeros(n) == Zeros(n - 1) + ['0'];
    }
  }

  /** Zero padding only adds '0' characters in front: s is what is left once
      they are removed. */
  lemma {:induction false} ZFillShape(s: string, width: nat)
    ensures var r := ZFill(s, width);
      (forall k :: 0 <= k < |r| - |s| ==> r[k] == '0') && r[|r| - |s|..] == s
  {
    var r := ZFill(s, width);
    if |s| < width {
      var z := Zeros(width - |s|);
      ZerosAreZero(width - |s|);
      assert r == z + s;
      assert r[|z|..] == s;
    } else {
      assert r[0..] == s;
    }
  }

  /** Shifting left by i places (`A + '0' * i`) multiplies the value by 2^i. */
  lemma {:induction false} ShiftValue(a: string, i: nat)
    requires IsBits(a)
    ensures IsBits(a + Zeros(i))
    ensures Val(a + Zeros(i)) == Val(a) * Pow2(i)
  {
    ValZeros(i);
    ValConcat(a, Zeros(i));
  }

  /** A suffix of k digits denotes the value modulo 2^k. */
  lemma {:induction false} ValSuffix(s: string, k: nat)
    requires k <= |s|
    ensures Val(s[k..]) == Val(s) % Pow2(|s| - k)
  {
    var hi, lo := s[..k], s[k..];
    assert s == hi + lo;
    ValConcat(hi, lo);
    ValBound(lo);
    ModShifted(Val(hi), Pow2(|lo|), Val(lo));
  }

  lemma {:induction false} ModShifted(h: nat, p: nat, l: nat)
    requires l < p
    ensures (h * p + l) % p == l
  {
    ModUnique(h * p + l, p, h, l);
  }

  /** Keeping the last eight characters keeps the low eight bits of the value. */
  lemma {:induction false} Last8Value(s: string)
    ensures Val(Last8(s)) == Low8(Val(s))
  {
    assert Pow2(8) == 256;
    if |s| <= 8 {
      ValBound(s);
      Pow2Monotone(|s|, 8);
      ModUnique(Val(s), 256, 0, Val(s));
    } else {
      ValSuffix(s, |s| - 8);
    }
  }

  /** `s[-8:]` is a suffix of s. */
  lemma {:induction false} Last8Suffix(s: string)
    ensures Last8(s) == s[|s| - |Last8(s)|..]
  {
    if |s| <= 8 {
      assert s[0..] == s;
    }
  }

  /** The multiplier's digit i places from the right has weight 2^i. */
  lemma {:induction false} ValLowDigit(b: string, i: nat)
    requires i < |b|
    ensures Val(b[|b| - (i + 1)..]) == (if b[|b| - 1 - i] == '1' then Pow2(i) else 0) + Val(b[|b| - i..])
  {
    ValSuffixStep(b, |b| - 1 - i);
  }

  // ---------------------------------------------------------------------------
  // Numerals

  /** Reading a bit-string and writing it back at its own width gives it back. */
  lemma {:induction false} ToBitsVal(s: string)
    requires IsBits(s)
    ensures ToBits(Val(s), |s|) == s
  {
    if |s| > 0 {
      var init, last := s[..|s| - 1], s[|s| - 1];
      ToBitsVal(init);
      ModUnique(Val(s), 2, Val(init), Digit(last));
      assert BitChar(Digit(last)) == last;
      assert s == init + [last];
    }
  }

  /** Two bit-strings of the same length and value are equal. */
  lemma {:induction false} BitsDetermined(s: string, t: string)
    requires IsBits(s) && IsBits(t)
    requires |s| == |t| && Val(s) == Val(t)
    ensures s == t
  {
    ToBitsVal(s);
    ToBitsVal(t);
  }
}
