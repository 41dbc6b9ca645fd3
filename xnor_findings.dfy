/** Two discrepancies that appear at the full width of 32 bits, each shown
    on a concrete input against the code as written, and the corrected
    gate with the intended properties proved:
    - ONE mode never counts bit 31, because `0b1 << 31` is the negative
      number -2^31 and `(value & mask) > 0` is then false; the fix tests
      `(value & mask) !== 0`.
    - ODD mode returns `~xor & mask` as a signed 32-bit integer, negative
      when bit 31 is set; the fix reads it unsigned, `(~xor & mask) >>> 0`. */
module XnorFindings {
  import opened JsBits
  import opened JsNumerals
  import opened Xnor
  import opened XnorProperties

  // -----------------------------------------------------------------------
  // The code as written

  /** One input with only bit 31 set, width 32: exactly one input has bit 31
      set, yet the ONE-mode output has bit 31 set. */
  lemma OneModeBit31AsWritten()
    ensures Count([TWO31 as int], 31) == 1
    ensures Bit(Step(ONE, 32, [TWO31 as int]).outputs[OUT], 31)
  {
    Pow2Constants();
    ToUint32Small(TWO31);
    BitOfPow2(31, 31);
    assert [TWO31 as int][1..] == [];
    OneModeBit(32, [TWO31 as int], 31);
  }

  /** One input 0, width 32: the ODD-mode output is -1, not 2^32 - 1. */
  lemma OddModeNegativeAsWritten()
    ensures Step(ODD, 32, [0]).outputs[OUT] == -1
  {
    var out := OddOutput([0], 32);
    OddOutputRange(32, [0]);
    Pow2Constants();
    AllOnesBits(MAX_VALUE, 32);
    assert [0][1..] == [];
    forall i | 0 <= i < 32
      ensures Bit(ToUint32(out), i) == Bit(MAX_VALUE, i)
    {
      assert Bit(OddOutput([0], 32), i) == (i < 32 && Count([0], i) % 2 == 0);
      ToUint32Small(0);
      BitOfZero(i);
      ToUint32Small(ToUint32(out));
    }
    BitsDetermineWord(ToUint32(out), MAX_VALUE);
    Int32Reading(out);
  }

  // -----------------------------------------------------------------------
  // The corrected gate

  /** `(value & (0b1 << index)) !== 0 ? 1 : 0`: bit `index` of `value`. */
  function CorrectedCounted(value: int, index: nat): (r: nat)
    requires index < 32
    ensures r == if Bit(value, index) then 1 else 0
  {
    AndSingleBit(value, index);
    Int32Reading(BitwiseAnd(value, LeftShift(1, index)));
    Pow2Constants();
    Pow2Monotone(index + 1, 32);
    if BitwiseAnd(value, LeftShift(1, index)) != 0 then 1 else 0
  }

  /** The corrected per-bit sum, folded from the left as `reduce` does: the
      reference count at every bit, bit 31 included. */
  function CorrectedSumAt(values: seq<int>, index: nat): (r: nat)
    requires |values| >= 1 && index < 32
    ensures r == Count(values, index)
  {
    var n := |values|;
    CountLast(values, index);
    if n == 1 then CorrectedCounted(values[0], index)
    else CorrectedSumAt(values[..n - 1], index) + CorrectedCounted(values[n - 1], index)
  }

  /** The corrected `notExclusiveOrAt`: 0 exactly when one value has bit
      `index` set, for every index below 32. */
  function CorrectedNotExclusiveOrAt(values: seq<int>, index: nat): (r: nat)
    requires |values| >= 1 && index < 32
    ensures r <= 1
    ensures r == 0 <==> Count(values, index) == 1
  {
    if CorrectedSumAt(values, index) == 1 then 0 else 1
  }

  /** The ONE-mode output built from the corrected per-bit results, through
      the same reverse, join and `parseInt(..., 2)`. */
  function CorrectedOneOutput(values: seq<int>, bits: int): (r: nat)
    requires |values| >= 1 && 1 <= bits <= 32
    ensures r < Pow2(bits)
  {
    var ds := CorrectedDigits(values, bits);
    BinaryReadBack(ds, seq(bits, index requires 0 <= index < bits => ds[index] == 1));
    ParseBinary(JoinDigits(Reverse(ds)))
  }

  /** The corrected per-bit digits: 0 exactly where one input has the bit
      set, bit 31 included. */
  function CorrectedDigits(values: seq<int>, bits: int): (ds: seq<nat>)
    requires |values| >= 1 && 1 <= bits <= 32
    ensures |ds| == bits && forall k :: 0 <= k < bits ==> ds[k] <= 1
    ensures forall k :: 0 <= k < bits ==> (ds[k] == 0 <==> Count(values, k) == 1)
  {
    seq(bits, index requires 0 <= index < bits => CorrectedNotExclusiveOrAt(values, index))
  }

  /** `(~xor & mask) >>> 0`: the as-written value read as an unsigned 32-bit
      word, so bit `i` is set exactly when `i` is below the width and an even
      number of inputs have bit `i` set. */
  function CorrectedOddOutput(values: seq<int>, bits: int): (r: nat)
    requires |values| >= 1 && 1 <= bits <= 32
    ensures r == ToUint32(OddOutput(values, bits))
    ensures forall i :: 0 <= i < 32 ==> BitOf(r, i) == (i < bits && Count(values, i) % 2 == 0)
  {
    ToUint32Small(0);
    UnsignedReadingBits(OddOutput(values, bits), ToUint32(OddOutput(values, bits)));
    UnsignedRightShift(OddOutput(values, bits), 0)
  }

  /** `step` with both corrections. */
  function CorrectedStep(behavior: string, bits: int, values: seq<int>): (r: StepResult)
    requires 1 <= bits <= 32
    ensures r.ThrewTypeError? <==> values == [] && (behavior == ONE || behavior == ODD)
    ensures behavior != ONE && behavior != ODD ==> r == Returned(map[])
  {
    if behavior == ONE then
      if values == [] then ThrewTypeError
      else Returned(map[OUT := CorrectedOneOutput(values, bits)])
    else if behavior == ODD then
      if values == [] then ThrewTypeError
      else Returned(map[OUT := CorrectedOddOutput(values, bits)])
    else
      Returned(map[])
  }

  /** Corrected ONE mode: for every width up to 32, bit `i` of the output is
      0 exactly when one input has bit `i` set, and the output is below 2^bits. */
  lemma CorrectedOneModeBit(bits: int, values: seq<int>, i: nat)
    requires 1 <= bits <= 32 && |values| >= 1 && i < 32
    ensures CorrectedStep(ONE, bits, values).Returned?
    ensures var out := CorrectedStep(ONE, bits, values).outputs[OUT];
      0 <= out < Pow2(bits) && Bit(out, i) == (i < bits && Count(values, i) != 1)
  {
    var f := seq(bits, k requires 0 <= k < bits => Count(values, k) != 1);
    BinaryReadBack(CorrectedDigits(values, bits), f);
    WordOfBits(f, i);
  }

  /** Corrected ODD mode: for every width up to 32 the output lies in
      [0, 2^bits) and bit `i` is set exactly when an even number of inputs
      have bit `i` set. */
  lemma CorrectedOddModeBit(bits: int, values: seq<int>, i: nat)
    requires 1 <= bits <= 32 && |values| >= 1 && i < 32
    ensures CorrectedStep(ODD, bits, values).Returned?
    ensures var out := CorrectedStep(ODD, bits, values).outputs[OUT];
      0 <= out < Pow2(bits) && Bit(out, i) == (i < bits && Count(values, i) % 2 == 0)
  {
    var out := CorrectedOddOutput(values, bits);
    Pow2Constants();
    Pow2Monotone(bits, 32);
    forall j | bits <= j < 32
      ensures !BitOf(out, j)
    {
    }
    BitsAboveClear(out, bits, 32);
    ToUint32Small(out);
  }

  /** Below the full width the corrections change nothing. */
  lemma CorrectedAgreesBelowFullWidth(behavior: string, bits: int, values: seq<int>)
    requires 1 <= bits <= 31
    ensures CorrectedStep(behavior, bits, values) == Step(behavior, bits, values)
  {
    if values != [] {
      CorrectedOneAgrees(bits, values);
      CorrectedOddAgrees(bits, values);
    }
  }

  /** Below bit 31 the corrected digits are the as-written ones. */
  lemma CorrectedOneAgrees(bits: int, values: seq<int>)
    requires 1 <= bits <= 31 && |values| >= 1
    ensures CorrectedOneOutput(values, bits) == OneOutput(values, bits)
  {
    var c, d := CorrectedDigits(values, bits), OneDigits(values, bits);
    forall k | 0 <= k < bits
      ensures c[k] == d[k]
    {
    }
    assert c == d;
  }

  /** Below width 32 the as-written ODD value is already non-negative. */
  lemma CorrectedOddAgrees(bits: int, values: seq<int>)
    requires 1 <= bits <= 31 && |values| >= 1
    ensures CorrectedOddOutput(values, bits) == OddOutput(values, bits)
  {
    var x := OddOutput(values, bits);
    OddOutputRange(bits, values);
    Pow2Constants();
    Pow2Monotone(bits, 32);
    ToUint32Small(x);
  }

  /** The two inputs above, through the corrected gate. */
  lemma CorrectedOnCounterexamples()
    ensures !Bit(CorrectedStep(ONE, 32, [TWO31 as int]).outputs[OUT], 31)
    ensures CorrectedStep(ODD, 32, [0]).outputs[OUT] == MAX_VALUE
  {
    OneModeBit31AsWritten();
    CorrectedOneModeBit(32, [TWO31 as int], 31);
    OddModeNegativeAsWritten();
    Pow2Constants();
    ToUint32Small(0);
    DivUnique(-1, TWO32, -1, MAX_VALUE);
  }
}
