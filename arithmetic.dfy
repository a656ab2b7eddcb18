/** Eight-bit binary arithmetic on bit-strings: the ripple-carry adder
    `binary_add` and the shift-and-add multiplier `binary_multiply`. */
module BinaryArithmetic {
  import opened Bits

  /** The carry left over once the ripple-carry loop has run over all
      Max(|x|, |y|) positions of the zero-padded operands: 0 or 1. */
  function Carry(x: string, y: string): nat
    requires IsBits(x) && IsBits(y)
  {
    if Val(x) + Val(y) >= Pow2(Max(|x|, |y|)) then 1 else 0
  }

  /** What `binary_add` promises of its result r: a bit-string worth
      (Val(x) + Val(y)) modulo 256, as long as the padded operands plus the
      carry out, but never longer than eight characters. */
  predicate IsSum(x: string, y: string, r: string)
    requires IsBits(x) && IsBits(y)
  {
    IsBits(r) && Val(r) == Low8(Val(x) + Val(y)) &&
    |r| == Min(8, Max(|x|, |y|) + Carry(x, y))
  }

  /** `binary_add(X, Y)`: pad both operands to the longer length, add them
      bit by bit from the right with a ripple carry, prepend a final carry,
      and keep the last eight characters. */
  method BinaryAdd(x: string, y: string) returns (r: string)
    requires IsBits(x) && IsBits(y)
    ensures IsSum(x, y, r)
  {
    var result := "";
    var carry := 0;

    var maxLength := Max(|x|, |y|);
    var px := ZFill(x, maxLength);
    var py := ZFill(y, maxLength);

    for i := maxLength downto 0
      invariant IsBits(result) && |result| == maxLength - i
      invariant carry == 0 || carry == 1
      invariant Val(result) + (if carry == 1 then Pow2(maxLength - i) else 0)
                == SuffixVal(px, i) + SuffixVal(py, i)
    {
      var bitSum := Digit(px[i]) + Digit(py[i]) + carry;
      AddStep(px, py, maxLength, i, result, carry, bitSum);
      var resultBit := bitSum % 2;
      carry := bitSum / 2;
      result := [BitChar(resultBit)] + result;
    }

    ScanDone(x, y, result, carry);
    if carry == 1 {
      result := "1" + result;
    }
    r := Last8(result);
  }

  /** One position of the ripple-carry loop keeps its invariant: once the
      n - i - 1 digits right of position i are summed into result and a carry,
      prepending the bit `bitSum % 2` and keeping the carry `bitSum / 2` sums
      the digits from i on. */
  lemma {:induction false} AddStep(px: string, py: string, n: nat, i: nat, result: string,
                                   carry: nat, bitSum: nat)
    requires |px| == n && |py| == n && i < n && |result| == n - (i + 1)
    requires carry <= 1 && bitSum == Digit(px[i]) + Digit(py[i]) + carry
    requires Val(result) + (if carry == 1 then Pow2(n - (i + 1)) else 0)
             == SuffixVal(px, i + 1) + SuffixVal(py, i + 1)
    ensures bitSum / 2 <= 1
    ensures Val([BitChar(bitSum % 2)] + result) + (if bitSum / 2 == 1 then Pow2(n - i) else 0)
            == SuffixVal(px, i) + SuffixVal(py, i)
  {
    ValPrepend(BitChar(bitSum % 2), result);
    RippleArith(Digit(px[i]), Digit(py[i]), carry, bitSum, Pow2(n - (i + 1)),
                Val(result), SuffixVal(px, i + 1), SuffixVal(py, i + 1));
  }

  /** The arithmetic of one ripple-carry position, for digits and carry 0 or 1. */
  lemma {:induction false} RippleArith(dx: nat, dy: nat, c: nat, b: nat, p: nat,
                                       vr: nat, vx: nat, vy: nat)
    requires dx <= 1 && dy <= 1 && c <= 1 && b == dx + dy + c
    requires vr + (if c == 1 then p else 0) == vx + vy
    ensures b / 2 <= 1
    ensures (if b % 2 == 1 then p else 0) + vr + (if b / 2 == 1 then 2 * p else 0)
            == ((if dx == 1 then p else 0) + vx) + ((if dy == 1 then p else 0) + vy)
  {
  }

  /** When the loop has scanned every position of the operands padded to
      Max(|x|, |y|) digits, prepending a final carry of 1 to the bits summed so
      far and keeping the last eight characters gives a result that meets the
      specification. */
  lemma {:induction false} ScanDone(x: string, y: string, result: string, carry: nat)
    requires IsBits(x) && IsBits(y) && IsBits(result) && carry <= 1
    requires |result| == Max(|x|, |y|)
    requires Val(result) + (if carry == 1 then Pow2(Max(|x|, |y|)) else 0)
             == SuffixVal(ZFill(x, Max(|x|, |y|)), 0) + SuffixVal(ZFill(y, Max(|x|, |y|)), 0)
    ensures IsSum(x, y, Last8(if carry == 1 then "1" + result else result))
  {
    ValBound(result);
    ScanValue(x, y, Val(result), carry);
    if carry == 1 {
      ValPrepend('1', result);
      AddFinish(x, y, "1" + result);
    } else {
      AddFinish(x, y, result);
    }
  }

  /** The digits summed by the loop and the carry left over make up
      Val(x) + Val(y), and that carry is the carry out of the sum. */
  lemma {:induction false} ScanValue(x: string, y: string, vr: nat, carry: nat)
    requires IsBits(x) && IsBits(y) && carry <= 1
    requires vr < Pow2(Max(|x|, |y|))
    requires vr + (if carry == 1 then Pow2(Max(|x|, |y|)) else 0)
             == SuffixVal(ZFill(x, Max(|x|, |y|)), 0) + SuffixVal(ZFill(y, Max(|x|, |y|)), 0)
    ensures vr + (if carry == 1 then Pow2(Max(|x|, |y|)) else 0) == Val(x) + Val(y)
    ensures carry == Carry(x, y)
  {
    var n := Max(|x|, |y|);
    var px, py := ZFill(x, n), ZFill(y, n);
    SuffixValIsVal(px, 0);
    SuffixValIsVal(py, 0);
    assert px[0..] == px && py[0..] == py;
    ZFillValue(x, n);
    ZFillValue(y, n);
  }

  /** The full numeral t of the sum, cut to its last eight characters, is a
      bit-string worth the sum modulo 256, of length Max(|x|, |y|) plus the
      carry out, but at most eight. */
  lemma {:induction false} AddFinish(x: string, y: string, t: string)
    requires IsBits(x) && IsBits(y) && IsBits(t)
    requires Val(t) == Val(x) + Val(y) && |t| == Max(|x|, |y|) + Carry(x, y)
    ensures IsSum(x, y, Last8(t))
  {
    Last8Value(t);
  }

  /** `binary_multiply(A, B)`: start from "00000000" and, for every '1' at
      index i of the reversed multiplier, add the multiplicand shifted left by
      i places; return the last eight characters. Although every addition
      truncates, the product is exact modulo 256. The multiplier is read only
      through its '1' characters, so it need not be a bit-string. */
  method BinaryMultiply(a: string, b: string) returns (r: string)
    requires IsBits(a)
    ensures IsBits(r) && |r| == 8
    ensures Val(r) == Low8(Val(a) * Val(b))
    ensures (forall k :: 0 <= k < |b| ==> b[k] != '1') ==> r == "00000000"
  {
    var product := "00000000";
    ValNoOnes(product);
    var bReversed := Reverse(b);

    for i := 0 to |bReversed|
      invariant IsBits(product) && |product| == 8
      invariant Val(product) == Low8(Val(a) * Val(b[|b| - i..]))
    {
      if bReversed[i] == '1' {
        ValLowDigit(b, i);
        var shiftedA := a + Zeros(i);
        ShiftValue(a, i);
        ghost var before := Val(product);
        product := BinaryAdd(product, shiftedA);
        MultiplyStep(Val(a), Val(b[|b| - i..]), Val(b[|b| - (i + 1)..]), Pow2(i),
                     before, Val(shiftedA));
      } else {
        MultiplySkip(a, b, i, Val(product));
      }
    }

    assert b[|b| - |b|..] == b;
    r := Last8(product);
    if forall k :: 0 <= k < |b| ==> b[k] != '1' {
      ValNoOnes(b);
      ValNoOnes("00000000");
      BitsDetermined(r, "00000000");
    }
  }

  /** Adding the multiplicand shifted to the weight p of a '1' digit keeps the
      product exact modulo 256: the low eight bits of the running product plus
      va * p are those of va times the multiplier's digits read so far. */
  lemma {:induction false} MultiplyStep(va: nat, vs: nat, vsNext: nat, p: nat, before: nat, shifted: nat)
    requires before == Low8(va * vs)
    requires shifted == va * p && vsNext == p + vs
    ensures Low8(before + shifted) == Low8(va * vsNext)
  {
    ModAddLeft(va * vs, va * p, 256);
    assert va * vs + va * p == va * (p + vs);
  }

  /** A '0' digit i places from the right of the multiplier adds nothing:
      a product exact modulo 256 for the i low digits is exact for the i + 1
      low digits. */
  lemma {:induction false} MultiplySkip(a: string, b: string, i: nat, product: nat)
    requires i < |b| && b[|b| - 1 - i] != '1'
    requires product == Low8(Val(a) * Val(b[|b| - i..]))
    ensures product == Low8(Val(a) * Val(b[|b| - (i + 1)..]))
  {
    ValLowDigit(b, i);
  }

  // ---------------------------------------------------------------------------
  // Properties of the adder

  /** The specification admits one result only. */
  lemma {:induction false} SumUnique(x: string, y: string, r: string, r': string)
    requires IsBits(x) && IsBits(y)
    requires IsSum(x, y, r) && IsSum(x, y, r')
    ensures r == r'
  {
    BitsDetermined(r, r');
  }

  /** The adder is commutative: adding y to x gives what adding x to y gives. */
  lemma {:induction false} SumCommutes(x: string, y: string, r: string, r': string)
    requires IsBits(x) && IsBits(y)
    requires IsSum(x, y, r) && IsSum(y, x, r')
    ensures r == r'
  {
    assert IsSum(x, y, r');
    SumUnique(x, y, r, r');
  }

  /** Adding "0" gives back x, zero-padded to at least one digit and cut to
      its last eight characters. */
  lemma {:induction false} SumZeroRight(x: string, r: string)
    requires IsBits(x) && IsSum(x, "0", r)
    ensures r == Last8(ZFill(x, 1))
  {
    ValNoOnes("0");
    var z := ZFill(x, 1);
    ZFillValue(x, 1);
    ValBound(x);
    Pow2Monotone(|x|, Max(|x|, 1));
    assert Carry(x, "0") == 0;
    Last8Value(z);
    BitsDetermined(r, Last8(z));
  }

  /** On two eight-bit operands the adder returns the eight-bit numeral of
      the sum modulo 256; in particular the plain sum when it stays below 256. */
  lemma {:induction false} SumOfBytes(x: string, y: string, r: string)
    requires IsBits(x) && IsBits(y) && |x| == 8 && |y| == 8
    requires IsSum(x, y, r)
    ensures r == ToBits(Low8(Val(x) + Val(y)), 8)
    ensures Val(x) + Val(y) < 256 ==> r == ToBits(Val(x) + Val(y), 8)
  {
    ToBitsVal(r);
    if Val(x) + Val(y) < 256 {
      ModUnique(Val(x) + Val(y), 256, 0, Val(x) + Val(y));
    }
  }

  /** Short operands give a short sum: "1" + "1" is "10", "" + "" is "". */
  lemma {:induction false} SumOfShortOperands(r: string, r': string)
    requires IsSum("1", "1", r) && IsSum("", "", r')
    ensures r == "10" && r' == ""
  {
    assert Val("1") == 1 by { ValLast("1"); assert "1"[..0] == []; }
    assert Carry("1", "1") == 1;
    assert Val("10") == 2 by { ValLast("10"); assert "10"[..1] == "1"; }
    BitsDetermined(r, "10");
  }

  // ---------------------------------------------------------------------------
  // The two operand pairs of the demonstration

  /** 13 * 11 = 143 fits in eight bits. */
  method MultiplyInRange() returns (product: string)
    ensures product == "10001111"
  {
    InRangeNumerals();
    product := BinaryMultiply("00001101", "00001011");
    ValBySuffix("10001111");
    BitsDetermined(product, "10001111");
  }

  /** The operands of the first pair denote 13 and 11. */
  lemma {:induction false} InRangeNumerals()
    ensures IsBits("00001101") && Val("00001101") == 13
    ensures IsBits("00001011") && Val("00001011") == 11
  {
    ValBySuffix("00001101");
    ValBySuffix("00001011");
  }

  /** 205 * 235 = 48175 overflows eight bits; 48175 mod 256 = 47. */
  method MultiplyOverflowing() returns (product: string)
    ensures product == "00101111"
  {
    OverflowingNumerals();
    product := BinaryMultiply("11001101", "11101011");
    ValBySuffix("00101111");
    BitsDetermined(product, "00101111");
  }

  /** The operands of the second pair denote 205 and 235. */
  lemma {:induction false} OverflowingNumerals()
    ensures IsBits("11001101") && Val("11001101") == 205
    ensures IsBits("11101011") && Val("11101011") == 235
  {
    ValBySuffix("11001101");
    ValBySuffix("11101011");
  }
}
