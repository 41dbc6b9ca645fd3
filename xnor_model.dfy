/** The generalised N-input XNOR gate (XnorModel.js).

    `initialize` declares the ports of the gate from its configuration;
    `notExclusiveOrAt` and `step` are pure and are modelled as functions.
    The behaviour and the width that `step` reads from the object are passed
    to it as parameters, and the input mapping is given by its values in
    `Object.values` order. */
module Xnor {
  import opened JsBits
  import opened JsNumerals

  datatype Direction = Input | Output

  /** A port declared through `addInputPort` / `addOutputPort`. */
  datatype Port = Port(name: string, direction: Direction, bits: int)

  /** The configuration fields `initialize` reads, after `Number(...)`. */
  datatype Configuration = Configuration(
    multipleInputBehavior: string,
    dataBits: int,
    inputPortsNumber: int)

  const ONE: string := "ONE"
  const ODD: string := "ODD"
  const OUT: string := "out"

  /** The name of the `i`-th input port, `in${i}`. */
  function InputPortName(i: nat): (s: string)
    ensures |s| > 2 && s[..2] == "in"
  {
    "in" + DecimalString(i)
  }

  class XnorModel {
    var behavior: string
    var bits: int
    /** The ports declared so far, in declaration order. */
    var ports: seq<Port>

    /** `new XnorModel(configurations)`: the gate starts with no ports and is
        set up by `initialize`, so it ends with the input ports `in0`, `in1`,
        ... and then `out`, all as wide as the configured width. */
    constructor (configurations: Configuration)
      ensures behavior == configurations.multipleInputBehavior
      ensures bits == configurations.dataBits
      ensures var k := if configurations.inputPortsNumber < 0 then 0 else configurations.inputPortsNumber;
        |ports| == k + 1
      ensures forall p :: 0 <= p < |ports| - 1 ==> ports[p] == Port(InputPortName(p), Input, bits)
      ensures ports[|ports| - 1] == Port(OUT, Output, bits)
      ensures forall p, q :: 0 <= p < q < |ports| ==> ports[p].name != ports[q].name
    {
      behavior := "";
      bits := 0;
      ports := [];
      new;
      Initialize(configurations);
    }

    /** Declares an input port (stands for `BaseModel.addInputPort`). */
    method AddInputPort(name: string, width: int)
      modifies this`ports
      ensures ports == old(ports) + [Port(name, Input, width)]
    {
      ports := ports + [Port(name, Input, width)];
    }

    /** Declares an output port (stands for `BaseModel.addOutputPort`). */
    method AddOutputPort(name: string, width: int)
      modifies this`ports
      ensures ports == old(ports) + [Port(name, Output, width)]
    {
      ports := ports + [Port(name, Output, width)];
    }

    /** Stores the behaviour and the width, declares input ports `in0`,
        `in1`, ... (none when the count is not positive), each as wide as
        the configured width, and then the output port `out`; the ports
        declared by this call have pairwise distinct names. */
    method Initialize(configurations: Configuration)
      modifies this
      ensures behavior == configurations.multipleInputBehavior
      ensures bits == configurations.dataBits
      ensures var k := if configurations.inputPortsNumber < 0 then 0 else configurations.inputPortsNumber;
        |ports| == |old(ports)| + k + 1
      ensures ports[..|old(ports)|] == old(ports)
      ensures forall p :: |old(ports)| <= p < |ports| - 1 ==>
        ports[p] == Port(InputPortName(p - |old(ports)|), Input, bits)
      ensures ports[|ports| - 1] == Port(OUT, Output, bits)
      ensures forall p, q :: |old(ports)| <= p < q < |ports| ==> ports[p].name != ports[q].name
    {
      behavior := configurations.multipleInputBehavior;
      bits := configurations.dataBits;
      var inputPortsNumber := configurations.inputPortsNumber;
      var start := |ports|;
      var i := 0;
      while i < inputPortsNumber
        invariant 0 <= i && (inputPortsNumber >= 0 ==> i <= inputPortsNumber)
        invariant inputPortsNumber < 0 ==> i == 0
        invariant behavior == configurations.multipleInputBehavior
        invariant bits == configurations.dataBits
        invariant |ports| == start + i
        invariant ports[..start] == old(ports)
        invariant forall p :: start <= p < |ports| ==>
          ports[p] == Port(InputPortName(p - start), Input, bits)
        decreases inputPortsNumber - i
      {
        AddInputPort(InputPortName(i), bits);
        i := i + 1;
      }
      AddOutputPort(OUT, bits);
      forall p, q | start <= p < q < |ports|
        ensures ports[p].name != ports[q].name
      {
        if q < |ports| - 1 {
          InputPortNamesDistinct(p - start, q - start);
        } else {
          assert ports[p].name[..2] == "in";
        }
      }
    }
  }

  /** Input port names are pairwise distinct. */
  lemma InputPortNamesDistinct(i: nat, j: nat)
    requires i != j
    ensures InputPortName(i) != InputPortName(j)
  {
    DecimalStringInjective(i, j);
    assert InputPortName(i)[2..] == DecimalString(i);
    assert InputPortName(j)[2..] == DecimalString(j);
  }

  // -----------------------------------------------------------------------
  // step

  /** What `step` does with the input values: it returns an output mapping,
      or `reduce` on an empty array throws a TypeError. */
  datatype StepResult = Returned(outputs: map<string, int>) | ThrewTypeError

  /** The number of values whose bit `i` is set: the reference count that the
      two reductions are specified against. */
  function Count(values: seq<int>, i: nat): (c: nat)
    ensures c <= |values|
  {
    if values == [] then 0
    else (if Bit(values[0], i) then 1 else 0) + Count(values[1..], i)
  }

  /** `(value & (0b1 << index)) > 0 ? 1 : 0`: bit `index` of `value`, except
      that bit 31 is never counted, because `0b1 << 31` is negative. */
  function Counted(value: int, index: nat): (r: nat)
    requires index < 32
    ensures r == if index < 31 && Bit(value, index) then 1 else 0
  {
    MaskedPositive(value, index);
    if BitwiseAnd(value, LeftShift(1, index)) > 0 then 1 else 0
  }

  /** `values.map(v => Counted(v, index)).reduce((acc, curr) => acc + curr)`,
      folded from the left as `reduce` does; defined for non-empty `values`.
      The sum is the reference count below bit 31, and 0 at bit 31. */
  function SumAt(values: seq<int>, index: nat): (r: nat)
    requires |values| >= 1 && index < 32
    ensures r == if index < 31 then Count(values, index) else 0
  {
    var n := |values|;
    CountLast(values, index);
    if n == 1 then Counted(values[0], index)
    else SumAt(values[..n - 1], index) + Counted(values[n - 1], index)
  }

  /** `notExclusiveOrAt(values, index)`: 0 when exactly one value has bit
      `index` counted and 1 otherwise.  Bit 31 is never counted. */
  function NotExclusiveOrAt(values: seq<int>, index: nat): (r: nat)
    requires |values| >= 1 && index < 32
    ensures r <= 1
    ensures r == 0 <==> index < 31 && Count(values, index) == 1
  {
    if SumAt(values, index) == 1 then 0 else 1
  }

  /** `values.reduce((acc, curr) => curr ^ acc)`: with one value, that value
      itself, unconverted.  Bit `i` of the fold is set exactly when an odd
      number of the values have bit `i` set. */
  function XorReduce(values: seq<int>): (r: int)
    requires |values| >= 1
    ensures forall i :: 0 <= i < 32 ==> Bit(r, i) == (Count(values, i) % 2 == 1)
  {
    var n := |values|;
    if n == 1 then
      SingleParity(values);
      values[0]
    else
      var prev := XorReduce(values[..n - 1]);
      XorStepParity(values, prev);
      BitwiseXor(values[n - 1], prev)
  }

  /** `MAX_VALUE >>> (32 - bits)` */
  function Mask(bits: int): (m: nat)
    requires 1 <= bits <= 32
    ensures m == Pow2(bits) - 1
    ensures forall i :: 0 <= i < 32 ==> Bit(m, i) == (i < bits)
  {
    MaskBits(bits);
    AllOnesBits(Pow2(bits) - 1, bits);
    UnsignedRightShift(MAX_VALUE, 32 - bits)
  }

  /** The ONE-mode output: the per-bit results for `index` 0 .. bits - 1,
      reversed, joined into a string and read with `parseInt(..., 2)`; bit
      `index` of the number is `notExclusiveOrAt(values, index)`. */
  function OneOutput(values: seq<int>, bits: int): (r: nat)
    requires |values| >= 1 && 1 <= bits <= 32
    ensures r < Pow2(bits)
  {
    var ds := OneDigits(values, bits);
    BinaryReadBack(ds, seq(bits, index requires 0 <= index < bits => ds[index] == 1));
    ParseBinary(JoinDigits(Reverse(ds)))
  }

  /** `[...new Array(bits)].map((_, index) => notExclusiveOrAt(values, index))`:
      one 0/1 digit per bit below the width, 0 exactly where one input has
      the bit set (never at bit 31). */
  function OneDigits(values: seq<int>, bits: int): (ds: seq<nat>)
    requires |values| >= 1 && 1 <= bits <= 32
    ensures |ds| == bits && forall k :: 0 <= k < bits ==> ds[k] <= 1
    ensures forall k :: 0 <= k < bits ==> (ds[k] == 0 <==> k < 31 && Count(values, k) == 1)
  {
    seq(bits, index requires 0 <= index < bits => NotExclusiveOrAt(values, index))
  }

  /** The ONE-mode output is the number whose bits are given by `f`. */
  lemma OneOutputIsFromBits(values: seq<int>, bits: int, f: seq<bool>)
    requires |values| >= 1 && 1 <= bits <= 32
    requires |f| == bits && forall k :: 0 <= k < bits ==> f[k] == (NotExclusiveOrAt(values, k) == 1)
    ensures OneOutput(values, bits) == FromBits(f)
  {
    BinaryReadBack(OneDigits(values, bits), f);
  }

  /** The ODD-mode output: `~xor & mask`.  Bit `i` is set exactly when `i`
      is below the width and an even number of inputs (possibly none) have
      bit `i` set. */
  function OddOutput(values: seq<int>, bits: int): (r: int)
    requires |values| >= 1 && 1 <= bits <= 32
    ensures -(TWO31 as int) <= r < TWO31
    ensures forall i :: 0 <= i < 32 ==> Bit(r, i) == (i < bits && Count(values, i) % 2 == 0)
  {
    BitwiseAnd(BitwiseNot(XorReduce(values)), Mask(bits))
  }

  /** `step(input)` of a gate whose `behavior` and `bits` fields hold the
      given values. */
  function Step(behavior: string, bits: int, values: seq<int>): (r: StepResult)
    requires 1 <= bits <= 32
    ensures r.ThrewTypeError? <==> values == [] && (behavior == ONE || behavior == ODD)
    ensures behavior != ONE && behavior != ODD ==> r == Returned(map[])
    ensures (behavior == ONE || behavior == ODD) && r.Returned? ==> r.outputs.Keys == {OUT}
  {
    if behavior == ONE then
      if values == [] then ThrewTypeError
      else Returned(map[OUT := OneOutput(values, bits)])
    else if behavior == ODD then
      if values == [] then ThrewTypeError
      else Returned(map[OUT := OddOutput(values, bits)])
    else
      Returned(map[])
  }

  // -----------------------------------------------------------------------
  // Facts the definitions above rely on

  /** `0b1 << index` is the word whose only bit is bit `index`. */
  lemma LeftShiftOne(index: nat)
    requires index < 32
    ensures ToUint32(LeftShift(1, index)) == Pow2(index)
  {
    Pow2Constants();
    Pow2Monotone(index + 1, 32);
    ToUint32Small(1);
    ToUint32Small(index);
    DivUnique(index, 32, 0, index);
    var e := ToUint32(index) % 32;
    assert e == index;
    assert ToUint32(1) * Pow2(e) == Pow2(index);
    assert LeftShift(1, index) == ToInt32(Pow2(index));
    ToUint32Small(Pow2(index));
  }

  /** `value & (0b1 << index)` keeps bit `index` of `value` and nothing else. */
  lemma AndSingleBit(value: int, index: nat)
    requires index < 32
    ensures ToUint32(BitwiseAnd(value, LeftShift(1, index))) == if Bit(value, index) then Pow2(index) else 0
  {
    Pow2Constants();
    Pow2Monotone(index + 1, 32);
    var mask := LeftShift(1, index);
    LeftShiftOne(index);
    var masked := ToUint32(BitwiseAnd(value, mask));
    var expected: nat := if Bit(value, index) then Pow2(index) else 0;
    forall i | 0 <= i < 32
      ensures BitOf(masked, i) == BitOf(expected, i)
    {
      assert BitOf(masked, i) == (Bit(value, i) && Bit(mask, i));
      BitOfPow2(index, i);
      assert Bit(mask, i) == (i == index);
      BitOfZero(i);
    }
    assert masked < Pow2(32) && expected < Pow2(32);
    BitsDetermine(masked, expected, 32);
  }

  /** A 32-bit signed integer is positive exactly when its unsigned reading is
      positive and below 2^31. */
  lemma Int32Positive(r: int)
    requires -(TWO31 as int) <= r < TWO31
    ensures r > 0 <==> 0 < ToUint32(r) < TWO31
  {
  }

  /** `value & (0b1 << index)` is positive exactly when `index < 31` and bit
      `index` of `value` is set. */
  lemma MaskedPositive(value: int, index: nat)
    requires index < 32
    ensures BitwiseAnd(value, LeftShift(1, index)) > 0 <==> index < 31 && Bit(value, index)
  {
    Pow2Constants();
    AndSingleBit(value, index);
    Int32Positive(BitwiseAnd(value, LeftShift(1, index)));
    if index < 31 {
      Pow2Monotone(index + 1, 31);
    }
  }

  /** The count over a non-empty sequence is the count over all but its last
      element, plus that element's bit. */
  lemma CountLast(values: seq<int>, i: nat)
    requires |values| >= 1
    ensures var n := |values|;
      Count(values, i) == Count(values[..n - 1], i) + (if Bit(values[n - 1], i) then 1 else 0)
  {
    var n := |values|;
    assert values[..n - 1] + [values[n - 1]] == values;
    CountAppend(values[..n - 1], [values[n - 1]], i);
    CountSingle(values[n - 1], i);
  }

  /** A single value has bit `i` set an odd number of times iff bit `i` is set. */
  lemma SingleParity(values: seq<int>)
    requires |values| == 1
    ensures forall i :: 0 <= i < 32 ==> Bit(values[0], i) == (Count(values, i) % 2 == 1)
  {
    forall i | 0 <= i < 32
      ensures Bit(values[0], i) == (Count(values, i) % 2 == 1)
    {
      CountLast(values, i);
      assert values[..0] == [];
    }
  }

  /** XOR-ing the last value into the fold of the others keeps the parity. */
  lemma XorStepParity(values: seq<int>, prev: int)
    requires |values| >= 2
    requires forall i :: 0 <= i < 32 ==> Bit(prev, i) == (Count(values[..|values| - 1], i) % 2 == 1)
    ensures forall i :: 0 <= i < 32 ==>
      Bit(BitwiseXor(values[|values| - 1], prev), i) == (Count(values, i) % 2 == 1)
  {
    var n := |values|;
    var r := BitwiseXor(values[n - 1], prev);
    forall i | 0 <= i < 32
      ensures Bit(r, i) == (Count(values, i) % 2 == 1)
    {
      CountLast(values, i);
      ParityStep(Bit(r, i), Bit(values[n - 1], i), Bit(prev, i),
        Count(values, i), Count(values[..n - 1], i), if Bit(values[n - 1], i) then 1 else 0);
    }
  }

  /** Flipping a parity bit exactly when one more element is counted. */
  lemma ParityStep(r: bool, x: bool, p: bool, c: nat, cp: nat, cx: nat)
    requires r == (x != p) && p == (cp % 2 == 1)
    requires cx == (if x then 1 else 0) && c == cp + cx
    ensures r == (c % 2 == 1)
  {
  }

  /** The count over a concatenation is the sum of the counts. */
  lemma {:induction false} CountAppend(a: seq<int>, b: seq<int>, i: nat)
    ensures Count(a + b, i) == Count(a, i) + Count(b, i)
  {
    if a == [] {
      assert a + b == b;
    } else {
      assert (a + b)[1..] == a[1..] + b;
      CountAppend(a[1..], b, i);
    }
  }

  lemma CountSingle(v: int, i: nat)
    ensures Count([v], i) == if Bit(v, i) then 1 else 0
  {
    assert [v][1..] == [];
  }

  lemma MaskBits(bits: int)
    requires 1 <= bits <= 32
    ensures UnsignedRightShift(MAX_VALUE, 32 - bits) == Pow2(bits) - 1
  {
    Pow2Constants();
    Pow2Monotone(bits, 32);
    var m := UnsignedRightShift(MAX_VALUE, 32 - bits);
    forall i | 0 <= i < 32
      ensures BitOf(m, i) == BitOf(Pow2(bits) - 1, i)
    {
      MaskBit(bits, i);
      BitOfAllOnes(bits, i);
    }
    BitsDetermine(m, Pow2(bits) - 1, 32);
  }

  /** Bit `i` of `MAX_VALUE >>> (32 - bits)` is set exactly when `i < bits`. */
  lemma MaskBit(bits: int, i: nat)
    requires 1 <= bits <= 32 && i < 32
    ensures BitOf(UnsignedRightShift(MAX_VALUE, 32 - bits), i) == (i < bits)
  {
    Pow2Constants();
    var k := 32 - bits;
    ToUint32Small(MAX_VALUE);
    ToUint32Small(k);
    DivUnique(k, 32, 0, k);
    UnsignedRightShiftBits(MAX_VALUE, k, i);
    var all: nat := Pow2(32) - 1;
    assert Bit(MAX_VALUE, i + k) == BitOf(all, i + k);
    BitOfAllOnes(32, i + k);
  }
}
