/** util/difficulty/difficulty.go: targets in a compact form of 32 bits (a base-256 exponent
    of 8 bits, a sign bit and a mantissa of 23 bits), and the work of a target. */
module Difficulty {
  import opened Powers

  const WORD: nat := 0x1_0000_0000
  const SIGN_BIT: nat := 0x80_0000
  const EXPONENT_UNIT: nat := 0x100_0000

  type Word32 = x: nat | x < WORD

  // ----- what the two conversions mean -----

  /** The number of bytes of `n` with room for a sign bit. */
  function SignedLength(n: nat): (length: nat)
    ensures length >= 1
  {
    if n < 128 then 1 else 1 + SignedLength(n / 256)
  }

  function ShiftLeft(n: nat, bytes: nat): nat {
    n * Pow256(bytes)
  }

  function Divided(n: nat, d: nat): nat
    requires d >= 1
  {
    n / d
  }

  function ShiftRight(n: nat, bytes: nat): nat {
    Divided(n, Pow256(bytes))
  }

  /** The 23 leading bits of `n`, seen as a number of `length` bytes. */
  function Leading(n: nat, length: nat): nat {
    if length <= 3 then ShiftLeft(n, 3 - length) else ShiftRight(n, length - 3)
  }

  /** A mantissa seen as the three leading bytes of a number of `length` bytes. */
  function Magnitude(mantissa: nat, length: nat): nat {
    if length <= 3 then ShiftRight(mantissa, 3 - length) else ShiftLeft(mantissa, length - 3)
  }

  function Pack(exponent: nat, mantissa: nat): Word32
    requires mantissa < SIGN_BIT
  {
    exponent % 256 * EXPONENT_UNIT + mantissa
  }

  function Encode(n: nat): Word32 {
    if n == 0 then 0 else
      LeadingBounds(n);
      Pack(SignedLength(n), Leading(n, SignedLength(n)))
  }

  function MantissaOf(compact: Word32): (mantissa: nat)
    ensures mantissa < SIGN_BIT
  {
    compact as nat % SIGN_BIT
  }

  predicate IsNegative(compact: Word32) {
    compact as nat / SIGN_BIT % 2 == 1
  }

  function ExponentOf(compact: Word32): (exponent: nat)
    ensures exponent < 256
  {
    compact as nat / EXPONENT_UNIT
  }

  function Decode(compact: Word32): int {
    var magnitude: int := Magnitude(MantissaOf(compact), ExponentOf(compact));
    if IsNegative(compact) then -magnitude else magnitude
  }

  // ----- powers and lengths -----

  lemma {:induction false} PowAdds(a: nat, b: nat)
    ensures Pow256(a + b) == Pow256(a) * Pow256(b)
  {
    if a > 0 {
      PowAdds(a - 1, b);
    }
  }

  lemma PowZero()
    ensures Pow256(0) == 1
  {
  }

  lemma PowTwice(k: nat)
    ensures Pow256(k + 2) == 0x1_0000 * Pow256(k)
  {
    assert Pow256(k + 2) == 256 * Pow256(k + 1) && Pow256(k + 1) == 256 * Pow256(k);
  }

  lemma PowMonotone(a: nat, b: nat)
    requires a <= b
    ensures Pow256(a) <= Pow256(b)
  {
    PowAdds(a, b - a);
    Scale(1, Pow256(b - a), Pow256(a));
  }

  lemma Scale(x: nat, y: nat, d: nat)
    requires x <= y
    ensures x * d <= y * d
  {
  }

  lemma Cancel(x: nat, y: nat, d: nat)
    requires x * d < y * d
    ensures x < y
  {
    if y <= x {
      Scale(y, x, d);
    }
  }

  lemma Quotient(n: nat, d: nat)
    requires d >= 1
    ensures n / d * d <= n < n / d * d + d
  {
  }

  lemma QuotientBounds(n: nat, d: nat, lo: nat, hi: nat)
    requires d >= 1 && lo * d <= n < hi * d
    ensures lo <= n / d < hi
  {
    Quotient(n, d);
    Cancel(lo, n / d + 1, d);
    Cancel(n / d, hi, d);
  }

  lemma QuotientMonotone(n: nat, m: nat, d: nat)
    requires d >= 1 && n <= m
    ensures n / d <= m / d
  {
    Quotient(n, d);
    Quotient(m, d);
    Cancel(n / d, m / d + 1, d);
  }

  lemma ExactQuotient(q: nat, d: nat)
    requires d >= 1
    ensures q * d / d == q
  {
    QuotientBounds(q * d, d, q, q + 1);
  }

  /** A number of `length` signed bytes. */
  ghost predicate HasLength(n: nat, length: nat) {
    && length >= 1
    && n < 128 * Pow256(length - 1)
    && (length >= 2 ==> 128 * Pow256(length - 2) <= n)
  }

  lemma {:induction false} LengthBounds(n: nat)
    ensures HasLength(n, SignedLength(n))
    decreases n
  {
    if n >= 128 {
      LengthBounds(n / 256);
    }
  }

  lemma LengthUnique(n: nat, a: nat, b: nat)
    requires HasLength(n, a) && HasLength(n, b)
    ensures a == b
  {
    if a < b {
      PowMonotone(a - 1, b - 2);
    } else if b < a {
      PowMonotone(b - 1, a - 2);
    }
  }

  lemma LeadingBounds(n: nat)
    requires n > 0
    ensures 0x8000 <= Leading(n, SignedLength(n)) < SIGN_BIT
  {
    LengthBounds(n);
    if SignedLength(n) <= 3 {
      ShortLeading(n, SignedLength(n));
    } else {
      LongLeading(n, SignedLength(n));
    }
  }

  lemma SmallPowers()
    ensures Pow256(0) == 1 && Pow256(1) == 256 && Pow256(2) == 0x1_0000
  {
    PowTwice(0);
  }

  lemma ShortLeading(n: nat, length: nat)
    requires n > 0 && HasLength(n, length) && length <= 3
    ensures 0x8000 <= Leading(n, length) < SIGN_BIT
  {
    hide Pow256;
    SmallPowers();
    if length == 1 {
      assert Leading(n, length) == n * 0x1_0000;
    } else if length == 2 {
      assert Leading(n, length) == n * 256;
    }
  }

  lemma LongLeading(n: nat, length: nat)
    requires HasLength(n, length) && length > 3
    ensures 0x8000 <= Leading(n, length) < SIGN_BIT
  {
    hide Pow256;
    PowTwice(length - 3);
    PowNext(length - 3);
    QuotientBounds(n, Pow256(length - 3), 0x8000, SIGN_BIT);
  }

  // ----- packing -----

  lemma Unpacked(exponent: nat, mantissa: nat)
    requires mantissa < SIGN_BIT
    ensures var compact := Pack(exponent, mantissa);
      MantissaOf(compact) == mantissa && !IsNegative(compact) && ExponentOf(compact) == exponent % 256
  {
  }

  lemma Repacked(compact: Word32)
    requires !IsNegative(compact)
    ensures Pack(ExponentOf(compact), MantissaOf(compact)) == compact
  {
  }

  // ----- how close the compact form comes -----

  /** Nothing but the last of the 23 bits is lost. */
  ghost predicate Approximates(n: nat, m: int) {
    0 <= m <= n && (n - m) * 0x8000 <= m
  }

  /** The exponent of the compact form fits into its 8 bits. */
  predicate Fits(n: nat) {
    SignedLength(n) <= 255
  }

  lemma LengthAtMost(n: nat, k: nat)
    requires k >= 1
    ensures SignedLength(n) <= k <==> n < 128 * Pow256(k - 1)
  {
    LengthBounds(n);
    if SignedLength(n) <= k {
      PowMonotone(SignedLength(n) - 1, k - 1);
    } else {
      PowMonotone(k - 1, SignedLength(n) - 2);
    }
  }

  lemma DecodeZero()
    ensures Encode(0) == 0 && Decode(0) == 0
  {
  }

  lemma DecodeEncode(n: nat)
    requires n > 0
    ensures Decode(Encode(n))
         == Magnitude(Leading(n, SignedLength(n)), SignedLength(n) % 256)
  {
    LeadingBounds(n);
    Unpacked(SignedLength(n), Leading(n, SignedLength(n)));
  }

  /** Seen as a number of its own length, `n` loses what lies below its three leading bytes. */
  lemma MagnitudeOfLeading(n: nat)
    requires n > 0
    ensures var m := Magnitude(Leading(n, SignedLength(n)), SignedLength(n));
      Approximates(n, m) && (SignedLength(n) <= 3 ==> m == n)
  {
    var length := SignedLength(n);
    LeadingBounds(n);
    if length <= 3 {
      ExactQuotient(n, Pow256(3 - length));
    } else {
      var d := Pow256(length - 3);
      Quotient(n, d);
      Scale(0x8000, n / d, d);
    }
  }

  /** The conversion there and back is as precise as 23 bits allow, exactly for the numbers that fit. */
  lemma Precision(n: nat)
    ensures Approximates(n, Decode(Encode(n))) <==> Fits(n)
  {
    if n == 0 {
      DecodeZero();
      assert Approximates(0, 0);
    } else {
      DecodeEncode(n);
      if Fits(n) {
        MagnitudeOfLeading(n);
      } else {
        PrecisionLost(n);
      }
    }
  }

  lemma PrecisionLost(n: nat)
    requires SignedLength(n) > 255
    ensures !Approximates(n, Magnitude(Leading(n, SignedLength(n)), SignedLength(n) % 256))
  {
    var length := SignedLength(n);
    var m := Leading(n, length);
    LeadingBounds(n);
    Quotient(n, Pow256(length - 3));
    MagnitudeGrows(m, length % 256, length - 1);
    Regroup(m, 256, Pow256(length - 4));
  }

  lemma Regroup(a: nat, b: nat, c: nat)
    ensures a * (b * c) == b * (a * c)
  {
  }

  lemma MagnitudeGrows(mantissa: nat, a: nat, b: nat)
    requires a <= b
    ensures Magnitude(mantissa, a) <= Magnitude(mantissa, b)
  {
    if b <= 3 {
      PowMonotone(3 - b, 3 - a);
      DivideByMore(mantissa, Pow256(3 - b), Pow256(3 - a));
    } else if a <= 3 {
      DivideByMore(mantissa, 1, Pow256(3 - a));
      Scale(1, Pow256(b - 3), mantissa);
    } else {
      PowMonotone(a - 3, b - 3);
      Scale(Pow256(a - 3), Pow256(b - 3), mantissa);
    }
  }

  lemma DivideByMore(n: nat, d: nat, e: nat)
    requires 1 <= d <= e
    ensures n / e <= n / d <= n
  {
    Quotient(n, d);
    Quotient(n, e);
    Scale(d, e, n / e);
    Cancel(n / e, n / d + 1, d);
    Scale(1, d, n / d);
  }

  /** Numbers of at most 23 bits lose nothing. */
  lemma ExactWhenSmall(n: nat)
    requires n < SIGN_BIT
    ensures Decode(Encode(n)) == n
  {
    if n > 0 {
      LengthAtMost(n, 3);
      assert Pow256(2) == 256 * Pow256(1) && Pow256(1) == 256;
      DecodeEncode(n);
      MagnitudeOfLeading(n);
    } else {
      DecodeZero();
    }
  }

  // ----- the compact numbers -----

  /** The compact numbers that conversion yields: no sign, and no leading byte to spare. */
  predicate Canonical(compact: Word32) {
    compact == 0 || (!IsNegative(compact) && MantissaOf(compact) >= 0x8000 && ExponentOf(compact) >= 1
      && (ExponentOf(compact) <= 3 ==> MantissaOf(compact) % Pow256(3 - ExponentOf(compact)) == 0))
  }

  lemma ShortHasLength(mantissa: nat, length: nat)
    requires 0x8000 <= mantissa < SIGN_BIT && 1 <= length <= 3
    requires mantissa % Pow256(3 - length) == 0
    ensures HasLength(Magnitude(mantissa, length), length) && Magnitude(mantissa, length) > 0
    ensures Leading(Magnitude(mantissa, length), length) == mantissa
  {
    assert Pow256(2) == 256 * Pow256(1) && Pow256(1) == 256 && Pow256(0) == 1;
    Quotient(mantissa, Pow256(3 - length));
  }

  lemma LongHasLength(mantissa: nat, length: nat)
    requires 0x8000 <= mantissa < SIGN_BIT && length > 3
    ensures HasLength(Magnitude(mantissa, length), length) && Magnitude(mantissa, length) > 0
    ensures Leading(Magnitude(mantissa, length), length) == mantissa
  {
    var d := Pow256(length - 3);
    ExactQuotient(mantissa, d);
    Scale(0x8000, mantissa, d);
    Scale(mantissa + 1, SIGN_BIT, d);
    assert Pow256(length - 1) == 256 * Pow256(length - 2) && Pow256(length - 2) == 256 * d;
  }

  /** A mantissa without a spare leading byte gives a number of exactly its length. */
  lemma MagnitudeHasLength(mantissa: nat, length: nat)
    requires 0x8000 <= mantissa < SIGN_BIT && length >= 1
    requires length <= 3 ==> mantissa % Pow256(3 - length) == 0
    ensures Magnitude(mantissa, length) > 0
    ensures SignedLength(Magnitude(mantissa, length)) == length
    ensures Leading(Magnitude(mantissa, length), length) == mantissa
  {
    if length <= 3 {
      ShortHasLength(mantissa, length);
    } else {
      LongHasLength(mantissa, length);
    }
    var n := Magnitude(mantissa, length);
    LengthBounds(n);
    LengthUnique(n, SignedLength(n), length);
  }

  lemma DecodeFits(compact: Word32)
    requires Decode(compact) >= 0
    ensures Fits(Decode(compact))
  {
    hide Magnitude, SignedLength;
    MagnitudeAtMost(MantissaOf(compact), ExponentOf(compact));
  }

  lemma MagnitudeAtMost(mantissa: nat, length: nat)
    requires mantissa < SIGN_BIT
    ensures SignedLength(Magnitude(mantissa, length)) <= if length <= 3 then 3 else length
  {
    if length <= 3 {
      ShortAtMost(mantissa, length);
    } else {
      LongAtMost(mantissa, length);
    }
  }

  lemma ShortAtMost(mantissa: nat, length: nat)
    requires mantissa < SIGN_BIT && length <= 3
    ensures SignedLength(Magnitude(mantissa, length)) <= 3
  {
    hide Pow256, SignedLength;
    DivideByMore(mantissa, 1, Pow256(3 - length));
    PowTwice(0);
    PowZero();
    LengthAtMost(Magnitude(mantissa, length), 3);
  }

  lemma LongAtMost(mantissa: nat, length: nat)
    requires mantissa < SIGN_BIT && length > 3
    ensures SignedLength(Magnitude(mantissa, length)) <= length
  {
    hide Pow256, SignedLength;
    var d := Pow256(length - 3);
    Scale(mantissa + 1, SIGN_BIT, d);
    PowTwice(length - 3);
    LengthAtMost(Magnitude(mantissa, length), length);
  }

  lemma EncodeIsCanonical(n: nat)
    requires Fits(n)
    ensures Canonical(Encode(n))
  {
    if n > 0 {
      var length := SignedLength(n);
      LeadingBounds(n);
      Unpacked(length, Leading(n, length));
      if length <= 3 {
        Multiple(n, Pow256(3 - length));
      }
    }
  }

  lemma Multiple(q: nat, d: nat)
    requires d >= 1
    ensures q * d % d == 0
  {
    ExactQuotient(q, d);
  }

  /** Conversion from a compact number and back gives it again, exactly for the canonical ones. */
  lemma ReEncode(compact: Word32)
    ensures Decode(compact) >= 0 && Encode(Decode(compact)) == compact <==> Canonical(compact)
  {
    if compact == 0 {
      DecodeZero();
    } else if Canonical(compact) {
      MagnitudeHasLength(MantissaOf(compact), ExponentOf(compact));
      Repacked(compact);
    } else if Decode(compact) >= 0 {
      DecodeFits(compact);
      EncodeIsCanonical(Decode(compact));
    }
  }

  /** Compact numbers and what they stand for. */
  lemma CompactExamples()
    ensures Decode(0x01fe_dcba) == -0x7e && Decode(0x0212_3456) == 0x1234 && Decode(0x0412_3456) == 0x1234_5600
    ensures Decode(0x0492_3456) == -0x1234_5600 && Decode(0x0500_9234) == 0x9234_0000
    ensures Encode(128) == 0x0200_8000 && Encode(0x1234_5600) == 0x0412_3456
  {
    SmallPowers();
    assert SignedLength(128) == 2;
    assert SignedLength(0x1234_5600) == 4;
  }

  // ----- order -----

  lemma LengthMonotone(n: nat, m: nat)
    requires n <= m
    ensures SignedLength(n) <= SignedLength(m)
  {
    LengthBounds(m);
    LengthAtMost(n, SignedLength(m));
  }

  lemma LeadingMonotone(n: nat, m: nat, length: nat)
    requires n <= m
    ensures Leading(n, length) <= Leading(m, length)
  {
    if length <= 3 {
      Scale(n, m, Pow256(3 - length));
    } else {
      QuotientMonotone(n, m, Pow256(length - 3));
    }
  }

  lemma EncodeMonotone(n: nat, m: nat)
    requires n <= m && Fits(m)
    ensures Encode(n) <= Encode(m)
  {
    hide Leading, SignedLength;
    LengthMonotone(n, m);
    if n > 0 {
      LeadingBounds(n);
      LeadingBounds(m);
      if SignedLength(n) == SignedLength(m) {
        LeadingMonotone(n, m, SignedLength(n));
      }
    }
  }

  /** Canonical compact numbers are ordered as the numbers they stand for. */
  lemma CanonicalOrder(a: Word32, b: Word32)
    requires Canonical(a) && Canonical(b)
    ensures Decode(a) >= 0 && Decode(b) >= 0 && (a <= b <==> Decode(a) <= Decode(b))
  {
    ReEncode(a);
    ReEncode(b);
    DecodeFits(a);
    DecodeFits(b);
    if Decode(a) <= Decode(b) {
      EncodeMonotone(Decode(a), Decode(b));
    } else {
      EncodeMonotone(Decode(b), Decode(a));
    }
  }

  /** Without leading bytes to spare the order would be lost. */
  lemma OrderNeedsCanonical()
    ensures Decode(0x0300_0001) > Decode(0x0400_0000)
  {
    assert Pow256(1) == 256 && Pow256(0) == 1;
  }

  /** The number there and back is the greatest of the numbers with a canonical form that are
      not above the original; in particular conversion there and back is monotone. */
  lemma GreatestBelow(n: nat, compact: Word32)
    requires Fits(n) && Canonical(compact)
    ensures Canonical(Encode(n)) && Decode(Encode(n)) <= n
    ensures Decode(compact) <= n <==> Decode(compact) <= Decode(Encode(n))
  {
    Precision(n);
    EncodeIsCanonical(n);
    ReEncode(compact);
    if Decode(compact) <= n {
      EncodeMonotone(Decode(compact), n);
      CanonicalOrder(compact, Encode(n));
    }
  }

  // ----- work -----

  const TWO_TO_256: nat := 0x1_0000_0000_0000_0000_0000_0000_0000_0000_0000_0000_0000_0000_0000_0000_0000_0000

  lemma TwoTo256()
    ensures TWO_TO_256 == Pow256(32)
  {
    assert Pow256(8) == 0x1_0000_0000_0000_0000;
    PowAdds(8, 8);
    PowAdds(16, 16);
  }

  /** The numerator over the target plus one, or zero without a positive target. */
  function WorkOver(numerator: nat, target: int): nat {
    if target <= 0 then 0 else Divided(numerator, target + 1)
  }

  function CalcWork(bits: Word32): (work: nat) {
    WorkOver(TWO_TO_256, Decode(bits))
  }

  /** The work is 2^256 over the target plus one, rounded down, and nothing without a positive target. */
  lemma WorkAmount(bits: Word32)
    ensures var t, w := Decode(bits), CalcWork(bits);
      if t <= 0 then w == 0 else w * (t + 1) <= TWO_TO_256 < (w + 1) * (t + 1)
  {
    hide Decode;
    var t := Decode(bits);
    if t > 0 {
      QuotientAround(TWO_TO_256, t + 1);
    }
  }

  lemma QuotientAround(n: nat, d: nat)
    requires d >= 1
    ensures n / d * d <= n < (n / d + 1) * d
  {
    Quotient(n, d);
  }

  /** The easiest target of a simulated network: 2^255, almost, is worth two blocks. */
  lemma WorkExample()
    ensures CalcWork(0x207f_ffff) == 2
  {
    hide Pow256;
    var d := Pow256(29);
    assert MantissaOf(0x207f_ffff) == 0x7f_ffff && ExponentOf(0x207f_ffff) == 32 && !IsNegative(0x207f_ffff);
    TwoTo256();
    PowTwice(29);
    PowTwice(30);
    PowNext(31);
    PowNext(29);
    WorkAmount(0x207f_ffff);
  }

  lemma WorkOverFalls(numerator: nat, a: int, b: int)
    requires 0 < a <= b
    ensures WorkOver(numerator, a) >= WorkOver(numerator, b)
  {
    DivideByMore(numerator, a + 1, b + 1);
  }

  lemma WorkOverZero(numerator: nat, target: int)
    requires numerator > 0
    ensures WorkOver(numerator, target) == 0 <==> target <= 0 || target >= numerator
  {
    if target >= numerator {
      QuotientBounds(numerator, target + 1, 0, 1);
    } else if target > 0 {
      Quotient(numerator, target + 1);
    }
  }

  lemma WorkAntitoneOnCanonical(a: Word32, b: Word32)
    requires Canonical(a) && Canonical(b) && 0 < a <= b
    ensures CalcWork(a) >= CalcWork(b)
  {
    CanonicalOrder(a, b);
    CanonicalOrder(a, 0);
    DecodeZero();
    WorkOverFalls(TWO_TO_256, Decode(a), Decode(b));
  }

  lemma CompactOfPower(k: nat)
    requires 3 <= k < 255
    ensures Canonical(Pack(k + 1, 0x1_0000)) && Decode(Pack(k + 1, 0x1_0000)) == Pow256(k)
  {
    hide Pow256, Pack, MantissaOf, ExponentOf, IsNegative;
    Unpacked(k + 1, 0x1_0000);
    PowTwice(k - 2);
  }

  lemma NoWork(m: nat)
    requires Fits(m)
    ensures CalcWork(Encode(m)) == 0 <==> m == 0 || m >= TWO_TO_256
  {
    hide Pow256, Decode, Encode, WorkOver, Pack, SignedLength;
    TwoTo256();
    CompactOfPower(32);
    GreatestBelow(m, Pack(33, 0x1_0000));
    WorkOverZero(TWO_TO_256, Decode(Encode(m)));
    DecodeZero();
    Precision(m);
  }

  /** A greater target never means more work, except that no target at all means none. */
  lemma WorkAntitone(n: nat, m: nat)
    requires n <= m && Fits(m)
    ensures CalcWork(Encode(n)) >= CalcWork(Encode(m)) <==> n > 0 || m == 0 || m >= TWO_TO_256
  {
    LengthMonotone(n, m);
    if n > 0 {
      EncodeMonotone(n, m);
      EncodeIsCanonical(n);
      EncodeIsCanonical(m);
      LeadingBounds(n);
      WorkAntitoneOnCanonical(Encode(n), Encode(m));
    } else {
      DecodeZero();
      NoWork(m);
    }
  }

  // ----- the conversions, step by step -----

  class BigInt {
    var value: int

    constructor (value: int)
      ensures this.value == value
    {
      this.value := value;
    }
  }

  method CompactToBigWithDestination(compact: Word32, destination: BigInt)
    modifies destination
    ensures destination.value == Decode(compact)
  {
    var mantissa := MantissaOf(compact);
    var exponent := ExponentOf(compact);
    if exponent <= 3 {
      mantissa := ShiftRight(mantissa, 3 - exponent);
      destination.value := mantissa;
    } else {
      destination.value := mantissa;
      destination.value := destination.value * Pow256(exponent - 3);
    }
    if IsNegative(compact) {
      destination.value := -destination.value;
    }
  }

  method CompactToBig(compact: Word32) returns (destination: BigInt)
    ensures fresh(destination) && destination.value == Decode(compact)
  {
    destination := new BigInt(0);
    CompactToBigWithDestination(compact, destination);
  }

  /** The number of bytes of `n`. */
  function ByteLength(n: nat): (length: nat)
    ensures n > 0 ==> length >= 1
  {
    if n == 0 then 0 else 1 + ByteLength(n / 256)
  }

  lemma {:induction false} ByteLengthBounds(n: nat)
    requires n > 0
    ensures Pow256(ByteLength(n) - 1) <= n < Pow256(ByteLength(n))
    decreases n
  {
    if n / 256 > 0 {
      ByteLengthBounds(n / 256);
    } else {
      assert ByteLength(n) == 1 && Pow256(1) == 256;
    }
  }

  /** Every number of at most 254 bytes fits. */
  lemma ShortNumbersFit(n: nat)
    requires ByteLength(n) <= 254
    ensures Fits(n)
  {
    if n > 0 {
      ByteLengthBounds(n);
      LengthAtMost(n, ByteLength(n) + 1);
    }
  }

  lemma DivideTwice(n: nat, d: nat)
    requires d >= 1
    ensures n / (256 * d) == n / d / 256
  {
    Quotient(n, d);
    BetweenBytes(n, n / d, d);
    QuotientBounds(n, 256 * d, n / d / 256, n / d / 256 + 1);
  }

  lemma BetweenBytes(n: nat, m: nat, d: nat)
    requires m * d <= n < m * d + d
    ensures m / 256 * (256 * d) <= n < (m / 256 + 1) * (256 * d)
  {
    var q := m / 256;
    Regroup(q, 256, d);
    Regroup(q + 1, 256, d);
    Scale(256 * q, m, d);
    Scale(m + 1, 256 * (q + 1), d);
  }

  lemma LeadingBytesShort(n: nat)
    requires n > 0 && ByteLength(n) <= 3
    ensures 0x1_0000 <= Leading(n, ByteLength(n)) < 0x100_0000
    ensures HasLength(n, if Leading(n, ByteLength(n)) < SIGN_BIT then ByteLength(n) else ByteLength(n) + 1)
  {
    hide Pow256, ByteLength;
    ByteLengthBounds(n);
    SmallPowers();
    PowNext(2);
    if ByteLength(n) == 1 {
      assert Leading(n, 1) == n * 0x1_0000;
    } else if ByteLength(n) == 2 {
      assert Leading(n, 2) == n * 256;
    }
  }

  lemma LeadingBytesLong(n: nat)
    requires n > 0 && ByteLength(n) > 3
    ensures 0x1_0000 <= Leading(n, ByteLength(n)) < 0x100_0000
    ensures HasLength(n, if Leading(n, ByteLength(n)) < SIGN_BIT then ByteLength(n) else ByteLength(n) + 1)
  {
    ByteLengthBounds(n);
    var length := ByteLength(n);
    var d := Pow256(length - 3);
    assert Pow256(length) == 256 * Pow256(length - 1) && Pow256(length - 1) == 256 * Pow256(length - 2)
        && Pow256(length - 2) == 256 * d;
    QuotientBounds(n, d, 0x1_0000, 0x100_0000);
    Quotient(n, d);
    if n / d < SIGN_BIT {
      Scale(n / d + 1, SIGN_BIT, d);
    } else {
      Scale(SIGN_BIT, n / d, d);
    }
  }

  lemma LeadingOfMore(n: nat, length: nat)
    requires length >= 1
    ensures Leading(n, length + 1) == Leading(n, length) / 256
  {
    if length < 3 {
      assert Pow256(2) == 256 * Pow256(1) && Pow256(1) == 256 && Pow256(0) == 1;
    } else if length == 3 {
      assert Pow256(1) == 256 && Pow256(0) == 1;
    } else {
      DivideTwice(n, Pow256(length - 3));
    }
  }

  /** The leading three bytes, and what their first bit says of the length. */
  lemma LeadingBytes(n: nat)
    requires n > 0
    ensures 0x1_0000 <= Leading(n, ByteLength(n)) < 0x100_0000
    ensures SignedLength(n) == if Leading(n, ByteLength(n)) < SIGN_BIT then ByteLength(n) else ByteLength(n) + 1
    ensures Leading(n, ByteLength(n) + 1) == Leading(n, ByteLength(n)) / 256
  {
    var length := ByteLength(n);
    if length <= 3 {
      LeadingBytesShort(n);
    } else {
      LeadingBytesLong(n);
    }
    LeadingOfMore(n, length);
    LengthBounds(n);
    LengthUnique(n, SignedLength(n), if Leading(n, length) < SIGN_BIT then length else length + 1);
  }

  lemma ShiftLeftGrows(n: nat, bytes: nat)
    ensures n <= ShiftLeft(n, bytes)
  {
    Scale(1, Pow256(bytes), n);
  }

  /** The mantissa of 24 bits that BigToCompact starts from, computed in 32 bits. */
  method LeadingWord(n: nat) returns (mantissa: nat)
    requires n > 0
    ensures mantissa == Leading(n, ByteLength(n))
  {
    hide Pow256, ByteLength, ShiftLeft, ShiftRight;
    LeadingBytes(n);
    var exponent := ByteLength(n);
    if exponent <= 3 {
      ShiftLeftGrows(n, 3 - exponent);
      mantissa := n % WORD;
      mantissa := ShiftLeft(mantissa, 3 - exponent) % WORD;
    } else {
      mantissa := ShiftRight(n, exponent - 3) % WORD;
    }
  }

  lemma ExponentWraps(exponent: nat)
    ensures exponent * EXPONENT_UNIT % WORD == exponent % 256 * EXPONENT_UNIT
  {
  }

  lemma TopBit(mantissa: nat)
    requires mantissa < 0x100_0000
    ensures mantissa / SIGN_BIT % 2 != 0 <==> mantissa >= SIGN_BIT
  {
  }

  // ----- negative numbers -----

  function DividedUp(n: nat, d: nat): nat
    requires d >= 1
  {
    (n + d - 1) / d
  }

  /** The leading bytes of -a, whose magnitude a right shift rounds up. */
  function LeadingUp(a: nat, length: nat): nat {
    if length <= 3 then ShiftLeft(a, 3 - length) else DividedUp(a, Pow256(length - 3))
  }

  function PackNegative(exponent: nat, mantissa: nat): Word32
    requires mantissa < SIGN_BIT
  {
    exponent % 256 * EXPONENT_UNIT + SIGN_BIT + mantissa
  }

  /** A mantissa of 2^24 has no bit in its place; it lies in the lowest bit of the exponent. */
  function PackOverflow(exponent: nat): Word32 {
    var low := exponent % 256;
    (if low % 2 == 0 then low + 1 else low) * EXPONENT_UNIT + SIGN_BIT
  }

  /** The compact form of -a. */
  function EncodeNegative(a: nat): Word32
    requires a > 0
  {
    LeadingUpBounds(a);
    var exponent, mantissa := ByteLength(a), LeadingUp(a, ByteLength(a));
    if mantissa == EXPONENT_UNIT then PackOverflow(exponent)
    else if mantissa >= SIGN_BIT then PackNegative(exponent + 1, mantissa / 256)
    else PackNegative(exponent, mantissa)
  }

  lemma QuotientUp(n: nat, d: nat)
    requires d >= 1
    ensures n <= DividedUp(n, d) * d < n + d
  {
    Quotient(n + d - 1, d);
  }

  lemma LeadingUpLong(a: nat)
    requires a > 0 && ByteLength(a) > 3
    ensures var d := Pow256(ByteLength(a) - 3);
      0x1_0000 * d <= a < EXPONENT_UNIT * d && a <= LeadingUp(a, ByteLength(a)) * d < a + d
    ensures 0x1_0000 <= LeadingUp(a, ByteLength(a)) <= EXPONENT_UNIT
  {
    hide ByteLength;
    var length := ByteLength(a);
    var d := Pow256(length - 3);
    ByteLengthBounds(a);
    PowTwice(length - 3);
    assert Pow256(length) == 256 * Pow256(length - 1);
    QuotientUp(a, d);
    Cancel(0xFFFF, DividedUp(a, d), d);
    Cancel(DividedUp(a, d), EXPONENT_UNIT + 1, d);
  }

  lemma LeadingUpBounds(a: nat)
    requires a > 0
    ensures 0x1_0000 <= LeadingUp(a, ByteLength(a)) <= EXPONENT_UNIT
  {
    hide ByteLength, Pow256;
    if ByteLength(a) <= 3 {
      LeadingBytes(a);
    } else {
      LeadingUpLong(a);
    }
  }

  /** The three leading bytes of -a are all ones, and something follows: rounded up they need 25 bits. */
  predicate RoundsOver(a: nat) {
    ByteLength(a) > 3 && a > 0xFF_FFFF * Pow256(ByteLength(a) - 3)
  }

  lemma RoundsOverExactly(a: nat)
    requires a > 0
    ensures RoundsOver(a) <==> LeadingUp(a, ByteLength(a)) == EXPONENT_UNIT
  {
    hide ByteLength, Pow256;
    if ByteLength(a) <= 3 {
      LeadingBytes(a);
    } else {
      var d := Pow256(ByteLength(a) - 3);
      LeadingUpLong(a);
      var c := LeadingUp(a, ByteLength(a));
      if RoundsOver(a) {
        Cancel(0xFF_FFFF, c, d);
      } else {
        Cancel(c, EXPONENT_UNIT, d);
      }
    }
  }

  /** What is lost or gained is at most a part in 2^15. */
  ghost predicate Near(a: nat, m: int) {
    m > 0 && (a - m) * 0x8000 <= m && (m - a) * 0x8000 <= m
  }

  /** Exponent and mantissa of the compact form of -a, where the mantissa fits. */
  function NegativeExponent(a: nat): nat {
    ByteLength(a) + if LeadingUp(a, ByteLength(a)) >= SIGN_BIT then 1 else 0
  }

  function NegativeMantissa(a: nat): nat {
    var mantissa := LeadingUp(a, ByteLength(a));
    if mantissa >= SIGN_BIT then mantissa / 256 else mantissa
  }

  lemma DecodePacked(exponent: nat, mantissa: nat)
    requires mantissa < SIGN_BIT
    ensures Decode(PackNegative(exponent, mantissa)) == -(Magnitude(mantissa, exponent % 256) as int)
    ensures Decode(PackOverflow(exponent)) == 0
  {
    hide Pow256;
    var compact := PackNegative(exponent, mantissa);
    assert MantissaOf(compact) == mantissa && IsNegative(compact) && ExponentOf(compact) == exponent % 256;
    var over := PackOverflow(exponent);
    assert MantissaOf(over) == 0;
    NothingShifted(ExponentOf(over));
  }

  lemma NothingShifted(length: nat)
    ensures Magnitude(0, length) == 0
  {
    if length <= 3 {
      DivideByMore(0, 1, Pow256(3 - length));
    }
  }

  lemma DecodeNegative(a: nat)
    requires a > 0
    ensures RoundsOver(a) ==> Decode(EncodeNegative(a)) == 0
    ensures !RoundsOver(a) ==>
      0x8000 <= NegativeMantissa(a) < SIGN_BIT
      && Decode(EncodeNegative(a)) == -(Magnitude(NegativeMantissa(a), NegativeExponent(a) % 256) as int)
  {
    hide ByteLength, Pow256, Magnitude, LeadingUp, PackNegative, PackOverflow, Decode;
    LeadingUpBounds(a);
    RoundsOverExactly(a);
    DecodePacked(ByteLength(a), 0);
    if !RoundsOver(a) {
      DecodePacked(NegativeExponent(a), NegativeMantissa(a));
    }
  }

  /** Seen as a number of its own length, -a is rounded to a multiple of the unit of its last bit. */
  lemma NegativeMagnitude(a: nat)
    requires a > 0 && !RoundsOver(a)
    ensures Near(a, Magnitude(NegativeMantissa(a), NegativeExponent(a)))
    ensures NegativeExponent(a) > 3 ==>
      a > (NegativeMantissa(a) as int - 1) * Pow256(NegativeExponent(a) - 3)
  {
    hide ByteLength, Pow256;
    DecodeNegative(a);
    if ByteLength(a) <= 3 {
      NegativeShort(a);
    } else {
      NegativeLong(a);
    }
  }

  lemma NegativeShort(a: nat)
    requires a > 0 && ByteLength(a) <= 3
    ensures Near(a, Magnitude(NegativeMantissa(a), NegativeExponent(a)))
    ensures NegativeExponent(a) > 3 ==>
      a > (NegativeMantissa(a) as int - 1) * Pow256(NegativeExponent(a) - 3)
  {
    hide ByteLength, SignedLength;
    LeadingBytes(a);
    LeadingBounds(a);
    MagnitudeOfLeading(a);
    assert NegativeMantissa(a) == Leading(a, SignedLength(a)) && NegativeExponent(a) == SignedLength(a);
    assert Pow256(1) == 256 * Pow256(0) && Pow256(0) == 1;
  }

  lemma NegativeLong(a: nat)
    requires a > 0 && ByteLength(a) > 3 && 0x8000 <= NegativeMantissa(a) < SIGN_BIT
    ensures Near(a, Magnitude(NegativeMantissa(a), NegativeExponent(a)))
    ensures a > (NegativeMantissa(a) as int - 1) * Pow256(NegativeExponent(a) - 3)
  {
    hide ByteLength, Pow256;
    LeadingUpLong(a);
    var d, c, m := Pow256(ByteLength(a) - 3), LeadingUp(a, ByteLength(a)), NegativeMantissa(a);
    if c < SIGN_BIT {
      NearByUnits(a, m, d);
    } else {
      PowNext(ByteLength(a) - 3);
      NearByBytes(a, c, d);
    }
  }

  lemma NearByUnits(a: nat, m: nat, d: nat)
    requires a <= m * d < a + d && m >= 0x8000
    ensures Near(a, m * d) && a > (m - 1) * d
  {
    Scale(0x8000, m, d);
  }

  lemma NearByBytes(a: nat, c: nat, d: nat)
    requires a <= c * d < a + d && c / 256 >= 0x8000
    ensures Near(a, c / 256 * (256 * d)) && a > (c / 256 - 1) * (256 * d)
  {
    var m := c / 256;
    Scale(0x8000, m, 256 * d);
    Scale(256 * m, c, d);
    Scale(c, 256 * m + 255, d);
    Regroup(m, 256, d);
    Regroup(1, 256 * m, d);
  }

  lemma PowNext(k: nat)
    ensures Pow256(k + 1) == 256 * Pow256(k)
  {
  }

  /** The conversion of a negative number there and back is as precise as 23 bits allow, exactly when its
      exponent fits into 8 bits and its leading bytes do not round over. */
  lemma NegativePrecision(a: nat)
    requires a > 0
    ensures Near(a, -Decode(EncodeNegative(a))) <==> NegativeExponent(a) <= 255 && !RoundsOver(a)
  {
    hide ByteLength, Pow256, Magnitude, LeadingUp, RoundsOver, EncodeNegative, Decode, NegativeMantissa,
      NegativeExponent;
    DecodeNegative(a);
    if !RoundsOver(a) {
      NegativeMagnitude(a);
      if NegativeExponent(a) > 255 {
        NegativeLost(a, NegativeMantissa(a), NegativeExponent(a));
      }
    }
  }

  lemma NegativeLost(a: nat, m: nat, length: nat)
    requires length > 255 && 0x8000 <= m && a > (m - 1) * Pow256(length - 3)
    ensures !Near(a, Magnitude(m, length % 256))
  {
    hide Pow256;
    var d := Pow256(length - 4);
    PowNext(length - 4);
    MagnitudeGrows(m, length % 256, length - 1);
    FarBelow(a, m, d, Magnitude(m, length % 256));
  }

  lemma FarBelow(a: nat, m: nat, d: nat, small: nat)
    requires m >= 2 && d >= 1 && a > (m - 1) * (256 * d) && small <= m * d
    ensures !Near(a, small)
  {
    Regroup(m - 1, 256, d);
    Scale(m, 2 * (m - 1), d);
  }

  /** The least number that is lost altogether: -0xFFFFFF01 becomes zero. */
  lemma NegativeLostExample()
    ensures RoundsOver(0xFFFF_FF01) && Decode(EncodeNegative(0xFFFF_FF01)) == 0
  {
    assert ByteLength(0xFFFF_FF01) == 4 && Pow256(1) == 256;
    DecodeNegative(0xFFFF_FF01);
  }

  /** The compact form of any number. */
  function EncodeInt(n: int): Word32 {
    if n >= 0 then Encode(n) else EncodeNegative(-n)
  }

  /** The mantissa of a negative number. */
  method LeadingWordUp(a: nat) returns (mantissa: nat)
    requires a > 0
    ensures mantissa == LeadingUp(a, ByteLength(a)) && mantissa <= EXPONENT_UNIT
  {
    hide Pow256, ByteLength, ShiftLeft, DividedUp;
    LeadingUpBounds(a);
    var exponent := ByteLength(a);
    if exponent <= 3 {
      ShiftLeftGrows(a, 3 - exponent);
      mantissa := a % WORD;
      mantissa := ShiftLeft(mantissa, 3 - exponent) % WORD;
    } else {
      mantissa := DividedUp(a, Pow256(exponent - 3)) % WORD;
    }
  }

  lemma UpperBit(mantissa: nat)
    requires mantissa <= EXPONENT_UNIT
    ensures mantissa / SIGN_BIT % 2 != 0 <==> SIGN_BIT <= mantissa < EXPONENT_UNIT
  {
  }

  /** The bits of the exponent and of a mantissa of 24 bits do not overlap, so `or` is addition. */
  method BigToCompact(n: int) returns (compact: Word32)
    ensures compact == EncodeInt(n)
  {
    if n == 0 {
      return 0;
    }
    if n > 0 {
      compact := PositiveToCompact(n);
    } else {
      compact := NegativeToCompact(-n);
    }
  }

  method PositiveToCompact(n: nat) returns (compact: Word32)
    requires n > 0
    ensures compact == Encode(n)
  {
    var mantissa := LeadingWord(n);
    var exponent := ByteLength(n);
    LeadingBytes(n);
    TopBit(mantissa);
    if mantissa / SIGN_BIT % 2 != 0 {
      mantissa := mantissa / 256;
      exponent := exponent + 1;
    }
    LeadingBounds(n);
    ExponentWraps(exponent);
    compact := exponent * EXPONENT_UNIT % WORD + mantissa;
  }

  method NegativeToCompact(a: nat) returns (compact: Word32)
    requires a > 0
    ensures compact == EncodeNegative(a)
  {
    hide ByteLength, LeadingUp;
    var mantissa := LeadingWordUp(a);
    var exponent := ByteLength(a);
    LeadingUpBounds(a);
    UpperBit(mantissa);
    if mantissa / SIGN_BIT % 2 != 0 {
      mantissa := mantissa / 256;
      exponent := exponent + 1;
    }
    ExponentWraps(exponent);
    var high := exponent * EXPONENT_UNIT % WORD;
    if mantissa < EXPONENT_UNIT {
      compact := high + mantissa + SIGN_BIT;
    } else {
      compact := (if high / EXPONENT_UNIT % 2 == 0 then high + EXPONENT_UNIT else high) + SIGN_BIT;
    }
  }
}
