/** What `step` of the XNOR gate computes, bit by bit, and the properties
    that follow: ranges, independence from input order and from input bits
    beyond the width, and the one- and two-input cases. */
module XnorProperties {
  import opened JsBits
  import opened Xnor

  // -----------------------------------------------------------------------
  // The reference count

  /** Rearranging the values does not change any count. */
  lemma {:induction false} CountPermutation(a: seq<int>, b: seq<int>, i: nat)
    requires multiset(a) == multiset(b)
    ensures Count(a, i) == Count(b, i)
    decreases |a|
  {
    if a == [] {
      assert |b| == |multiset(b)| == 0;
    } else {
      var x := a[0];
      assert x in multiset(b);
      var k :| 0 <= k < |b| && b[k] == x;
      var rest := b[..k] + b[k + 1..];
      RemoveFromMultiset(a, b, k);
      CountPermutation(a[1..], rest, i);
      CountRemove(b, k, i);
    }
  }

  lemma RemoveFromMultiset(a: seq<int>, b: seq<int>, k: nat)
    requires multiset(a) == multiset(b) && |a| >= 1 && k < |b| && b[k] == a[0]
    ensures multiset(a[1..]) == multiset(b[..k] + b[k + 1..])
  {
    var x := a[0];
    assert a == [x] + a[1..];
    assert multiset(a[1..]) == multiset(a) - multiset{x};
    assert b == b[..k] + [x] + b[k + 1..];
    assert multiset(b) == multiset(b[..k]) + multiset{x} + multiset(b[k + 1..]);
    assert multiset(b[..k] + b[k + 1..]) == multiset(b[..k]) + multiset(b[k + 1..]);
    assert multiset(b[..k] + b[k + 1..]) == multiset(b) - multiset{x};
  }

  /** Taking out the value at position `k` lowers the count by its bit. */
  lemma CountRemove(b: seq<int>, k: nat, i: nat)
    requires k < |b|
    ensures Count(b, i) == Count(b[..k] + b[k + 1..], i) + (if Bit(b[k], i) then 1 else 0)
  {
    assert b == b[..k] + ([b[k]] + b[k + 1..]);
    CountAppend(b[..k], [b[k]] + b[k + 1..], i);
    CountAppend(b[..k], b[k + 1..], i);
    assert ([b[k]] + b[k + 1..])[1..] == b[k + 1..];
  }

  /** Values that agree on bit `i` position by position have the same count. */
  lemma {:induction false} CountPointwise(a: seq<int>, b: seq<int>, i: nat)
    requires |a| == |b|
    requires forall j :: 0 <= j < |a| ==> Bit(a[j], i) == Bit(b[j], i)
    ensures Count(a, i) == Count(b, i)
  {
    if a != [] {
      CountPointwise(a[1..], b[1..], i);
    }
  }

  // -----------------------------------------------------------------------
  // ONE mode

  /** The ONE-mode output value: below 2^bits; bit `i` below the width is 0
      exactly when one input has bit `i` set, except bit 31, which is always
      1 because `0b1 << 31` is negative and never counts. */
  lemma OneOutputBit(bits: int, values: seq<int>, i: nat)
    requires 1 <= bits <= 32 && |values| >= 1 && i < 32
    ensures var out := OneOutput(values, bits);
      out < Pow2(bits) &&
      Bit(out, i) == (i < bits && (i == 31 || Count(values, i) != 1))
  {
    var f := seq(bits, index requires 0 <= index < bits => NotExclusiveOrAt(values, index) == 1);
    OneOutputIsFromBits(values, bits, f);
    WordOfBits(f, i);
  }

  /** ONE mode, as `step` returns it. */
  lemma OneModeBit(bits: int, values: seq<int>, i: nat)
    requires 1 <= bits <= 32 && |values| >= 1 && i < 32
    ensures Step(ONE, bits, values).Returned?
    ensures var out := Step(ONE, bits, values).outputs[OUT];
      0 <= out < Pow2(bits) &&
      Bit(out, i) == (i < bits && (i == 31 || Count(values, i) != 1))
  {
    OneOutputBit(bits, values, i);
  }

  /** ONE-mode outputs agree when the counts below the width agree. */
  lemma OneOutputByCounts(bits: int, a: seq<int>, b: seq<int>)
    requires 1 <= bits <= 32 && |a| >= 1 && |b| >= 1
    requires forall i :: 0 <= i < bits ==> Count(a, i) == Count(b, i)
    ensures OneOutput(a, bits) == OneOutput(b, bits)
  {
    var x, y := OneOutput(a, bits), OneOutput(b, bits);
    forall i | 0 <= i < 32
      ensures Bit(x, i) == Bit(y, i)
    {
      OneOutputBit(bits, a, i);
      OneOutputBit(bits, b, i);
    }
    Pow2Constants();
    Pow2Monotone(bits, 32);
    BitsDetermineWord(x, y);
  }

  // -----------------------------------------------------------------------
  // ODD mode

  /** The ODD-mode output value lies in [0, 2^bits) below the full width; at
      width 32 it is a signed 32-bit integer, negative exactly when an even
      number of inputs have bit 31 set. */
  lemma OddOutputRange(bits: int, values: seq<int>)
    requires 1 <= bits <= 32 && |values| >= 1
    ensures var out := OddOutput(values, bits);
      -(TWO31 as int) <= out < TWO31 &&
      (bits < 32 ==> 0 <= out < Pow2(bits)) &&
      (bits == 32 ==> (out < 0 <==> Count(values, 31) % 2 == 0))
  {
    var out := OddOutput(values, bits);
    var u := ToUint32(out);
    Pow2Constants();
    Int32Reading(out);
    if bits < 32 {
      forall i | bits <= i < 32
        ensures !BitOf(u, i)
      {
        assert !Bit(OddOutput(values, bits), i);
      }
      BitsAboveClear(u, bits, 32);
      Pow2Monotone(bits, 31);
    } else {
      assert Bit(OddOutput(values, bits), 31) == (31 < bits && Count(values, 31) % 2 == 0);
      TopBit(u);
    }
  }

  /** ODD mode, as `step` returns it: the per-bit description. */
  lemma OddModeBit(bits: int, values: seq<int>, i: nat)
    requires 1 <= bits <= 32 && |values| >= 1 && i < 32
    ensures Step(ODD, bits, values).Returned?
    ensures Bit(Step(ODD, bits, values).outputs[OUT], i) == (i < bits && Count(values, i) % 2 == 0)
  {
    assert Bit(OddOutput(values, bits), i) == (i < bits && Count(values, i) % 2 == 0);
  }

  /** ODD mode, as `step` returns it: the range. */
  lemma OddModeRange(bits: int, values: seq<int>)
    requires 1 <= bits <= 32 && |values| >= 1
    ensures Step(ODD, bits, values).Returned?
    ensures var out := Step(ODD, bits, values).outputs[OUT];
      -(TWO31 as int) <= out < TWO31 &&
      (bits < 32 ==> 0 <= out < Pow2(bits)) &&
      (bits == 32 ==> (out < 0 <==> Count(values, 31) % 2 == 0))
  {
    OddOutputRange(bits, values);
  }

  /** ODD-mode outputs agree when the counts below the width agree. */
  lemma OddOutputByCounts(bits: int, a: seq<int>, b: seq<int>)
    requires 1 <= bits <= 32 && |a| >= 1 && |b| >= 1
    requires forall i :: 0 <= i < bits ==> Count(a, i) == Count(b, i)
    ensures OddOutput(a, bits) == OddOutput(b, bits)
  {
    var x, y := OddOutput(a, bits), OddOutput(b, bits);
    forall i | 0 <= i < 32
      ensures Bit(ToUint32(x), i) == Bit(ToUint32(y), i)
    {
      assert Bit(OddOutput(a, bits), i) == (i < bits && Count(a, i) % 2 == 0);
      assert Bit(OddOutput(b, bits), i) == (i < bits && Count(b, i) % 2 == 0);
      ToUint32Small(ToUint32(x));
      ToUint32Small(ToUint32(y));
    }
    BitsDetermineWord(ToUint32(x), ToUint32(y));
    Int32Reading(x);
    Int32Reading(y);
  }

  // -----------------------------------------------------------------------
  // What the output depends on

  /** In both modes the output depends on the inputs only through how many
      of them have each bit below the width set. */
  lemma StepDependsOnlyOnCounts(behavior: string, bits: int, a: seq<int>, b: seq<int>)
    requires 1 <= bits <= 32
    requires (a == []) == (b == [])
    requires forall i :: 0 <= i < bits ==> Count(a, i) == Count(b, i)
    ensures Step(behavior, bits, a) == Step(behavior, bits, b)
  {
    if a == [] {
    } else if behavior == ONE {
      OneOutputByCounts(bits, a, b);
    } else if behavior == ODD {
      OddOutputByCounts(bits, a, b);
    }
  }

  /** The output does not depend on the order of the input values. */
  lemma StepPermutationInvariant(behavior: string, bits: int, a: seq<int>, b: seq<int>)
    requires 1 <= bits <= 32
    requires multiset(a) == multiset(b)
    ensures Step(behavior, bits, a) == Step(behavior, bits, b)
  {
    assert |a| == |multiset(a)| == |multiset(b)| == |b|;
    forall i | 0 <= i < bits
      ensures Count(a, i) == Count(b, i)
    {
      CountPermutation(a, b, i);
    }
    StepDependsOnlyOnCounts(behavior, bits, a, b);
  }

  /** Input bits at positions at or above the width never affect the output. */
  lemma StepIgnoresHighInputBits(behavior: string, bits: int, a: seq<int>, b: seq<int>)
    requires 1 <= bits <= 32
    requires |a| == |b|
    requires forall j, i :: 0 <= j < |a| && 0 <= i < bits ==> Bit(a[j], i) == Bit(b[j], i)
    ensures Step(behavior, bits, a) == Step(behavior, bits, b)
  {
    forall i | 0 <= i < bits
      ensures Count(a, i) == Count(b, i)
    {
      CountPointwise(a, b, i);
    }
    StepDependsOnlyOnCounts(behavior, bits, a, b);
  }

  // -----------------------------------------------------------------------
  // Few inputs

  /** The bits of the complement c = 2^bits - 1 - LowBits(v, bits): the
      low `bits` bits of `v`, flipped. */
  lemma ComplementBits(bits: int, v: int, c: int)
    requires 1 <= bits <= 31
    requires c == Pow2(bits) - 1 - LowBits(ToUint32(v), bits)
    ensures 0 <= c < Pow2(bits)
    ensures forall i :: 0 <= i < 32 ==> Bit(c, i) == (i < bits && !Bit(v, i))
  {
    Pow2Constants();
    Pow2Monotone(bits, 31);
    var low := LowBits(ToUint32(v), bits);
    ToUint32Small(c);
    forall i | 0 <= i < 32
      ensures BitOf(c, i) == (i < bits && !Bit(v, i))
    {
      if i < bits {
        BitOfComplement(low, bits, i);
        BitOfLowBits(ToUint32(v), bits, i);
      } else {
        BitOfBelow(c, bits, i);
      }
    }
  }

  /** With one input and a width below 32, the ONE and the ODD case of
      `step` both give the complement of the input's low `bits` bits,
      2^bits - 1 - LowBits(v, bits). */
  lemma SingleInputComplement(bits: int, v: int)
    requires 1 <= bits <= 31
    ensures OneOutput([v], bits) == Pow2(bits) - 1 - LowBits(ToUint32(v), bits)
    ensures OddOutput([v], bits) == Pow2(bits) - 1 - LowBits(ToUint32(v), bits)
  {
    OneOutputSingle(bits, v);
    OddOutputSingle(bits, v);
  }

  lemma OneOutputSingle(bits: int, v: int)
    requires 1 <= bits <= 31
    ensures OneOutput([v], bits) == Pow2(bits) - 1 - LowBits(ToUint32(v), bits)
  {
    var c := Pow2(bits) - 1 - LowBits(ToUint32(v), bits);
    ComplementBits(bits, v, c);
    OneOutputOfComplement(bits, v, c);
  }

  lemma OddOutputSingle(bits: int, v: int)
    requires 1 <= bits <= 31
    ensures OddOutput([v], bits) == Pow2(bits) - 1 - LowBits(ToUint32(v), bits)
  {
    var c := Pow2(bits) - 1 - LowBits(ToUint32(v), bits);
    ComplementBits(bits, v, c);
    OddOutputOfComplement(bits, v, c);
  }

  lemma OneOutputOfComplement(bits: int, v: int, c: int)
    requires 1 <= bits <= 31
    requires 0 <= c < Pow2(bits)
    requires forall i :: 0 <= i < 32 ==> Bit(c, i) == (i < bits && !Bit(v, i))
    ensures OneOutput([v], bits) == c
  {
    Pow2Constants();
    Pow2Monotone(bits, 31);
    var one := OneOutput([v], bits);
    forall i | 0 <= i < 32
      ensures Bit(one, i) == Bit(c, i)
    {
      OneOutputBit(bits, [v], i);
      CountSingle(v, i);
    }
    BitsDetermineWord(one, c);
  }

  lemma OddOutputOfComplement(bits: int, v: int, c: int)
    requires 1 <= bits <= 31
    requires 0 <= c < Pow2(bits)
    requires forall i :: 0 <= i < 32 ==> Bit(c, i) == (i < bits && !Bit(v, i))
    ensures OddOutput([v], bits) == c
  {
    Pow2Constants();
    Pow2Monotone(bits, 31);
    var odd := OddOutput([v], bits);
    OddOutputRange(bits, [v]);
    assert [v][1..] == [];
    forall i | 0 <= i < 32
      ensures Bit(odd, i) == Bit(c, i)
    {
      assert Bit(OddOutput([v], bits), i) == (i < bits && Count([v], i) % 2 == 0);
    }
    BitsDetermineWord(odd, c);
  }

  /** With two inputs and a width below 32, ONE and ODD give the same output. */
  lemma TwoInputModesAgree(bits: int, a: int, b: int)
    requires 1 <= bits <= 31
    ensures Step(ONE, bits, [a, b]) == Step(ODD, bits, [a, b])
  {
    var one, odd := OneOutput([a, b], bits), OddOutput([a, b], bits);
    forall i | 0 <= i < 32
      ensures Bit(one, i) == Bit(odd, i)
    {
      TwoInputBit(bits, a, b, i);
    }
    TwoInputRanges(bits, a, b);
    BitsDetermineWord(one, odd);
  }

  lemma TwoInputBit(bits: int, a: int, b: int, i: nat)
    requires 1 <= bits <= 31 && i < 32
    ensures Bit(OneOutput([a, b], bits), i) == Bit(OddOutput([a, b], bits), i)
  {
    var values := [a, b];
    OneOutputBit(bits, values, i);
    assert Bit(OddOutput(values, bits), i) == (i < bits && Count(values, i) % 2 == 0);
    BitsAgreeOnSmallCount(Bit(OneOutput(values, bits), i), Bit(OddOutput(values, bits), i),
      Count(values, i), i, bits);
  }

  /** With at most two set bits, "not exactly one" and "an even number" agree. */
  lemma BitsAgreeOnSmallCount(one: bool, odd: bool, c: nat, i: nat, bits: int)
    requires c <= 2 && bits <= 31
    requires one == (i < bits && (i == 31 || c != 1))
    requires odd == (i < bits && c % 2 == 0)
    ensures one == odd
  {
  }

  lemma TwoInputRanges(bits: int, a: int, b: int)
    requires 1 <= bits <= 31
    ensures 0 <= OneOutput([a, b], bits) < TWO32
    ensures 0 <= OddOutput([a, b], bits) < TWO32
  {
    Pow2Constants();
    Pow2Monotone(bits, 31);
    OddOutputRange(bits, [a, b]);
  }
}
