# Binary long multiplication on bit-strings

This project models `binary_add` and `binary_multiply`, the two routines of the
binary long multiplication program. They compute on strings of `'0'` and `'1'`
characters, written most significant bit first, and cut their results to eight
bits.

- **`binary_add(X, Y)`.**
  - Pads both operands with `zfill` to the longer length.
  - Adds them bit by bit from the right with a ripple carry, and prepends a `'1'` when a carry remains.
  - Returns the last eight characters (`result[-8:]`).
- **`binary_multiply(A, B)`.**
  - Starts from `"00000000"` and walks the reversed multiplier.
  - At every `'1'` at index `i`, adds `A + '0' * i` to the running product with `binary_add`.
  - Returns the last eight characters.

Both routines work by changing local variables step by step. They are modelled
as methods with their loops:

- `BinaryArithmetic.BinaryAdd` uses a `downto` loop over the padded positions.
- `BinaryArithmetic.BinaryMultiply` uses a `for` loop over the reversed multiplier.

Each method is proved against a specification built from pure functions of
module `Bits`:

- `Val`: the number a bit-string denotes, as `int(s, 2)` reads a non-empty bit-string. The model gives the empty string the value 0.
- `ZFill`, `Zeros`, `Last8`, `Reverse`: the string operations the code uses.
- `Digit` and `BitChar`: `int(X[i])` and `str(result_bit)` on single digits. `Digit` reads any character other than `'1'` as 0, which matches `int()` only on bit-strings.
- `Low8`: reduction modulo 256.

What is proved:

- **`binary_add`** returns a bit-string whose value is the sum modulo 256.
  - Its length is `min(8, max(|X|, |Y|) + carry)`, where the carry is 1 exactly when the sum needs one more digit than the longer operand.
  - The predicate `IsSum` collects these three facts, and `BinaryAdd` ensures it. Exactly one string meets them, so the lemmas stated with `IsSum` apply to every result of `BinaryAdd`.
  - From this follow: the adder is commutative, adding `"0"` gives back the operand zero-padded to at least one digit and cut to its last eight characters, `"1" + "1"` is `"10"`, `"" + ""` is `""`, and two eight-bit operands give the eight-bit numeral of the sum modulo 256.
- **`binary_multiply`** returns eight bits whose value is `Val(A) * Val(B)` modulo 256.
  - A multiplier without a `'1'` gives `"00000000"`.
  - The invariant of its loop says the running product is already exact modulo 256 for the multiplier digits read so far. Every intermediate addition truncates, but it only drops multiples of 256.
- **The driver's two operand pairs.**
  - `"00001101" * "00001011"` (13 × 11) is `"10001111"` (143).
  - `"11001101" * "11101011"` (205 × 235) is `"00101111"`, which is 48175 mod 256 = 47.

## Where the code and its docstrings differ

The model follows the code in both places below.

- **Length of the sum.**
  - The docstring of `binary_add` (main.py:16) promises the sum "as a binary string (8 bits)". The header comment (main.py:6-7) says results are constrained and truncated to 8 bits.
  - The code only truncates and never pads. It returns `result[-8:]`, which is shorter than eight characters when the operands are short: `"1" + "1"` gives `"10"`.
  - `BinaryAdd` states the length the code produces, and `SumOfShortOperands` proves the two short cases.
- **The overflowing product.**
  - The comment before the second driver pair (main.py:76) says the multiplication "will NOT work in 8 bits". The docstring of `binary_multiply` (main.py:49) promises an 8-bit product.
  - The product of 205 and 235 does not fit in eight bits. The result is still the exact product modulo 256: truncation only removes multiples of 256, so every step of the loop stays exact modulo 256 (`MultiplyStep`, `MultiplySkip`).
  - `BinaryMultiply` ensures `Val(r) == Val(A) * Val(B) mod 256` for all bit-string operands. `MultiplyOverflowing` shows that the second pair gives `"00101111"` (47).

## Model

| member | source | states |
|---|---|---|
| Bits.Reverse | main.py:56 | `B[::-1]`: the result has B's length, and its character k is B's character \|B\|-1-k |
| Bits.Zeros | main.py:62 | `'0' * n` has n characters, all binary digits |
| Bits.ZerosAreZero | main.py:62 | every character of `'0' * n` is `'0'` |
| Bits.ZFill | main.py:24-26 | `zfill` to the longer length gives max(\|s\|, width) characters, and keeps a bit-string a bit-string |
| Bits.ZFillShape | main.py:24-26 | zero padding only puts `'0'` characters in front of s, and s is what follows them |
| Bits.ZFillValue | main.py:24-26 | zero padding keeps the value of an operand |
| Bits.Last8 | main.py:40 | `s[-8:]` has min(\|s\|, 8) characters, and keeps a bit-string a bit-string |
| Bits.Last8Suffix | main.py:40 | `s[-8:]` is the suffix of s of that length |
| Bits.Last8Value | main.py:40 | keeping the last eight characters keeps the value modulo 256 |
| Bits.ShiftValue | main.py:62 | `A + '0' * i` is a bit-string worth Val(A) · 2^i |
| Bits.ValLowDigit | main.py:59-60 | the multiplier's digit i places from the right adds 2^i to the value of its low digits exactly when it is `'1'` |
| Bits.SuffixValIsVal | main.py:29-33 | the positional weight of the padded digits from position i on is the value of that suffix |
| Bits.ValNoOnes | main.py:53 | a string with no `'1'` (such as `"00000000"`) is worth 0 |
| Bits.ToBitsVal | main.py:40 | a bit-string is the numeral of its own value at its own width |
| Bits.BitsDetermined | main.py:65 | two bit-strings of equal length and equal value are the same string |
| BinaryArithmetic.BinaryAdd | main.py:9-40 | `IsSum`: the sum is a bit-string worth (Val(X) + Val(Y)) mod 256, of length min(8, max(\|X\|, \|Y\|) + carry out) |
| BinaryArithmetic.AddStep | main.py:29-33 | one loop position keeps the invariant: the digits written plus the carry, at weight 2^(n-i), equal the padded operands' digits from i on |
| BinaryArithmetic.RippleArith | main.py:30-32 | `bit_sum % 2` and `bit_sum // 2` split a digit sum of at most 3 into a result bit and a carry of at most 1 that account for the whole sum |
| BinaryArithmetic.ScanValue | main.py:29-36 | after the loop, the digits written plus the final carry make up Val(X) + Val(Y), and that carry is 1 exactly when the sum needs an extra digit |
| BinaryArithmetic.ScanDone | main.py:35-40 | prepending the final carry and keeping eight characters meets the adder's whole contract |
| BinaryArithmetic.AddFinish | main.py:40 | the full numeral of the sum, cut to eight characters, has the promised value and length |
| BinaryArithmetic.BinaryMultiply | main.py:42-65 | the product is an eight-character bit-string worth Val(A) · Val(B) mod 256, and `"00000000"` when B holds no `'1'`; B may be any string, only its `'1'` characters count |
| BinaryArithmetic.MultiplyStep | main.py:60-63 | adding the shifted multiplicand for a `'1'` digit keeps the running product exact mod 256 |
| BinaryArithmetic.MultiplySkip | main.py:59-60 | when the multiplier's digit i places from the right is not `'1'`, the unchanged product that is exact mod 256 for the i low digits is exact for the i + 1 low digits |
| BinaryArithmetic.SumUnique | main.py:9-40 | the adder's contract admits exactly one result |
| BinaryArithmetic.SumCommutes | main.py:9-40 | adding Y to X gives the same string as adding X to Y |
| BinaryArithmetic.SumZeroRight | main.py:9-40 | adding `"0"` gives X zero-padded to at least one digit and cut to its last eight characters |
| BinaryArithmetic.SumOfBytes | main.py:9-40 | two eight-bit operands give the eight-bit numeral of the sum mod 256, and the plain sum when it is below 256 |
| BinaryArithmetic.SumOfShortOperands | main.py:24-40 | `"1" + "1"` gives `"10"` and `"" + ""` gives `""`: the sum is not padded to eight characters |
| BinaryArithmetic.InRangeNumerals | main.py:68-69 | the first operand pair denotes 13 and 11 |
| BinaryArithmetic.MultiplyInRange | main.py:67-71 | `"00001101"` times `"00001011"` is `"10001111"` |
| BinaryArithmetic.OverflowingNumerals | main.py:77-78 | the second operand pair denotes 205 and 235 |
| BinaryArithmetic.MultiplyOverflowing | main.py:76-80 | `"11001101"` times `"11101011"` is `"00101111"` (48175 mod 256) |

## Left out

- The printing of the two driver cases is not modelled (main.py:72-74 and main.py:81-83). This includes the decimal display through `int(s, 2)`. Only the two products are modelled.
- Malformed operands are not modelled. The routines assume valid bit-strings and do not check them; `int()` would read another decimal digit as that digit and reject any other character. `BinaryAdd` requires `IsBits` of both operands, and `BinaryMultiply` of its multiplicand. The multiplier is read only through its `'1'` characters (main.py:60), so `BinaryMultiply` accepts any multiplier and counts every other character as a 0 digit, as the source does.
- `zfill`'s handling of a leading `'+'` or `'-'` sign is not modelled, because it cannot arise on bit-strings.
- Python strings become `seq<char>` and Python integers become unbounded `nat`, so there is no integer width to model.
