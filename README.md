# Xnor gate model

A Dafny model of the N-input XNOR gate of the logossim circuit simulator
(`XnorModel`). The gate has a configurable number of inputs, a data width of
1 to 32 bits and one of two multiple-input behaviours:

- `ONE`: bit `i` of the output is 0 exactly when one input has bit `i` set,
  and 1 otherwise. Bit 31 is the exception: the code never counts it, so at
  width 32 output bit 31 is always 1 (see "## Findings").
- `ODD`: the complement of the XOR of all inputs, masked to the width. Bit
  `i` is 1 exactly when an even number of inputs have bit `i` set.

The model has five modules:

- `JsBits` (`js_bits.dfy`): JavaScript numbers as the bitwise operators see
  them.
  - A value is an unbounded `int`. `ToUint32` and `ToInt32` are the
    conversions the operators apply.
  - `&`, `^` and `~` are defined bit by bit and return the signed 32-bit
    result.
  - `<<` takes its shift count modulo 32. `>>>` returns an unsigned result.
- `JsNumerals` (`js_numerals.dfy`): the numerals the gate writes and reads.
  - The decimal numeral of the template literal `in${i}`.
  - The binary digit string built by `.reverse().join('')` and read back by
    `parseInt(s, 2)`.
- `Xnor` (`xnor_model.dfy`): the gate itself.
  - `initialize` is the method `XnorModel.Initialize` of a class whose
    `ports` field is the list of declared ports. It uses a loop that appends
    the input ports.
  - `notExclusiveOrAt` and `step` are functions.
  - `Step` takes the gate's `behavior` and `bits` fields as parameters. It
    takes the input mapping as its values, in `Object.values` order.
  - `reduce` without an initial value throws a `TypeError` on an empty array.
    `Step` models this as the result `ThrewTypeError`.
- `XnorProperties` (`xnor_properties.dfy`): what `step` computes, stated
  against a reference count. `Count(values, i)` is the number of inputs with
  bit `i` set.
- `XnorFindings` (`xnor_findings.dfy`): two discrepancies at width 32 and the
  corrected gate.

The ONE mode follows the code. The code returns 0 for a bit when the per-bit
sum is exactly 1, and 1 otherwise, so ONE mode is an XNOR: the complement of
"exactly one input is high".

## Model

| member | source | states |
|---|---|---|
| Xnor.XnorModel.constructor | packages/@logossim/components/Ground/__tests__/GroundModel.test.js:13-17 | A new gate starts with no ports and is set up by `initialize`. It ends with the configured behaviour and width, the input ports `in0` .. `in<K-1>` (none when the count is not positive) and then `out`, all as wide as the width and all with distinct names. |
| Xnor.XnorModel.Initialize | packages/@logossim/components/Xnor/XnorModel.js:4-16 | Stores the behaviour and the width. Appends one input port `in<i>` for each `i` below the configured count (none when the count is not positive), each as wide as the width, then the output port `out`. Earlier ports are unchanged. The new ports have pairwise distinct names. |
| Xnor.XnorModel.AddInputPort | packages/@logossim/components/Xnor/XnorModel.js:13 | Appends an input port with the given name and width to the port list. |
| Xnor.XnorModel.AddOutputPort | packages/@logossim/components/Xnor/XnorModel.js:15 | Appends an output port with the given name and width to the port list. |
| Xnor.InputPortName | packages/@logossim/components/Xnor/XnorModel.js:13 | Every input port name is longer than two characters and starts with `in`. |
| Xnor.InputPortNamesDistinct | packages/@logossim/components/Xnor/XnorModel.js:12-13 | Different loop indices give different port names. |
| JsNumerals.DecimalString | packages/@logossim/components/Xnor/XnorModel.js:13 | The numeral of `i` in the template literal is non-empty, is all decimal digits and starts with `0` only for 0. |
| JsNumerals.DecimalRoundTrip | packages/@logossim/components/Xnor/XnorModel.js:13 | Reading back the decimal numeral of `i` gives `i`. |
| JsNumerals.DecimalStringInjective | packages/@logossim/components/Xnor/XnorModel.js:13 | Distinct indices have distinct numerals. |
| JsBits.ToUint32 | packages/@logossim/components/Xnor/XnorModel.js:19-22 | The unsigned 32-bit reading the operators use lies in [0, 2^32). |
| JsBits.ToInt32 | packages/@logossim/components/Xnor/XnorModel.js:19-22 | The signed 32-bit reading lies in [-2^31, 2^31). It has the same unsigned reading as its argument, and it is negative iff bit 31 is set. |
| JsBits.LeftShift | packages/@logossim/components/Xnor/XnorModel.js:19 | `x << n` is a signed 32-bit integer. Bit `i` is bit `i - s` of `x` when `i >= s` and 0 below `s`, where `s` is the shift count modulo 32; bits pushed past bit 31 are lost. |
| Xnor.LeftShiftOne | packages/@logossim/components/Xnor/XnorModel.js:19 | `0b1 << index` is the word whose only set bit is bit `index`. |
| JsBits.BitwiseAnd | packages/@logossim/components/Xnor/XnorModel.js:22 | `x & y` is a signed 32-bit integer whose bit `i` is set iff it is set in both operands. |
| Xnor.AndSingleBit | packages/@logossim/components/Xnor/XnorModel.js:22 | `value & (0b1 << index)` keeps bit `index` of `value` and clears every other bit. |
| Xnor.MaskedPositive | packages/@logossim/components/Xnor/XnorModel.js:19-22 | `value & (0b1 << index)` is positive iff `index < 31` and bit `index` of `value` is set. |
| Xnor.Counted | packages/@logossim/components/Xnor/XnorModel.js:22 | The mapped value is 1 iff `index < 31` and bit `index` of `value` is set. Bit 31 is never counted because the mask is negative. |
| Xnor.SumAt | packages/@logossim/components/Xnor/XnorModel.js:21-23 | The left `reduce` sum equals the number of inputs with bit `index` set below bit 31, and 0 at bit 31. |
| Xnor.NotExclusiveOrAt | packages/@logossim/components/Xnor/XnorModel.js:18-26 | The result is 0 or 1. It is 0 iff `index < 31` and exactly one input has bit `index` set. |
| Xnor.OneDigits | packages/@logossim/components/Xnor/XnorModel.js:38-39 | One 0/1 digit per bit below the width. Digit `k` is 0 iff `k < 31` and exactly one input has bit `k` set. |
| JsNumerals.Reverse | packages/@logossim/components/Xnor/XnorModel.js:40 | The result has the same length, and element `k` is element `|s| - 1 - k` of the input. |
| JsNumerals.ReverseReverse | packages/@logossim/components/Xnor/XnorModel.js:40 | Reversing twice gives the original sequence. |
| JsNumerals.JoinDigits | packages/@logossim/components/Xnor/XnorModel.js:41 | Concatenating the decimal numerals of the digits 0 and 1 gives one character per digit: `'1'` exactly where the digit is 1, `'0'` elsewhere. |
| JsNumerals.ParseBinary | packages/@logossim/components/Xnor/XnorModel.js:37-43 | Reading a non-empty string of binary digits in base 2 gives a number below 2^length. |
| JsNumerals.BinaryReadBack | packages/@logossim/components/Xnor/XnorModel.js:37-43 | Reversing the per-bit digits, joining them and reading the string in base 2 gives the number whose bit `k` is digit `k`. |
| Xnor.OneOutput | packages/@logossim/components/Xnor/XnorModel.js:37-43 | The ONE-mode number is below 2^bits. |
| Xnor.OneOutputIsFromBits | packages/@logossim/components/Xnor/XnorModel.js:37-43 | Bit `k` of the ONE-mode number is `notExclusiveOrAt(values, k)`, for `k` below the width. |
| JsBits.UnsignedRightShift | packages/@logossim/components/Xnor/XnorModel.js:30 | `x >>> n` is a non-negative integer below 2^32. |
| JsBits.UnsignedRightShiftIsDiv | packages/@logossim/components/Xnor/XnorModel.js:30 | `x >>> n` is the unsigned 32-bit reading of `x` divided by 2^(n mod 32), rounded down. |
| Xnor.Mask | packages/@logossim/components/Xnor/XnorModel.js:29-30 | `MAX_VALUE >>> (32 - bits)` is 2^bits - 1: exactly the bits below the width are set. |
| JsBits.BitwiseXor | packages/@logossim/components/Xnor/XnorModel.js:46 | `x ^ y` is a signed 32-bit integer whose bit `i` is the XOR of the operands' bits. |
| JsBits.BitwiseNot | packages/@logossim/components/Xnor/XnorModel.js:48 | `~x` is a signed 32-bit integer with every bit flipped. |
| Xnor.XorReduce | packages/@logossim/components/Xnor/XnorModel.js:46 | Bit `i` of the XOR fold is set iff an odd number of inputs have bit `i` set. |
| Xnor.Step | packages/@logossim/components/Xnor/XnorModel.js:28-54 | Throws iff there are no inputs and the mode is ONE or ODD. An unknown mode returns the empty mapping. In ONE and ODD mode the only output key is `out`. |
| XnorProperties.OneOutputBit | packages/@logossim/components/Xnor/XnorModel.js:35-44 | The ONE-mode value is below 2^bits. Bit `i` is set iff `i` is below the width and either `i` is 31 or the number of inputs with bit `i` set is not exactly one. |
| XnorProperties.OneModeBit | packages/@logossim/components/Xnor/XnorModel.js:35-44 | The same, for the `out` value that `step` returns in ONE mode. |
| Xnor.OddOutput | packages/@logossim/components/Xnor/XnorModel.js:45-49 | `~xor & mask` is a signed 32-bit integer. Bit `i` is set iff `i` is below the width and an even number of inputs have bit `i` set. |
| XnorProperties.OddOutputRange | packages/@logossim/components/Xnor/XnorModel.js:45-49 | `~xor & mask` is a signed 32-bit integer in [0, 2^bits) below width 32. At width 32 it is negative iff an even number of inputs have bit 31 set. |
| XnorProperties.OddModeBit | packages/@logossim/components/Xnor/XnorModel.js:45-49 | The per-bit parity statement, for the `out` value that `step` returns in ODD mode. |
| XnorProperties.OddModeRange | packages/@logossim/components/Xnor/XnorModel.js:45-49 | The range statement, for the `out` value that `step` returns in ODD mode. |
| XnorProperties.CountPermutation | packages/@logossim/components/Xnor/XnorModel.js:21-23 | Rearranging the inputs does not change how many have a given bit set. |
| XnorProperties.CountPointwise | packages/@logossim/components/Xnor/XnorModel.js:21-23 | Inputs that agree on bit `i`, position by position, have the same count at bit `i`. |
| XnorProperties.OneOutputByCounts | packages/@logossim/components/Xnor/XnorModel.js:35-44 | Two input lists with the same per-bit counts below the width give the same ONE-mode value. |
| XnorProperties.OddOutputByCounts | packages/@logossim/components/Xnor/XnorModel.js:45-49 | Two input lists with the same per-bit counts below the width give the same ODD-mode value. |
| XnorProperties.StepDependsOnlyOnCounts | packages/@logossim/components/Xnor/XnorModel.js:28-54 | In every mode, `step` depends on the inputs only through their per-bit counts below the width. |
| XnorProperties.StepPermutationInvariant | packages/@logossim/components/Xnor/XnorModel.js:32-50 | `step` gives the same result for any reordering of the input values. |
| XnorProperties.StepIgnoresHighInputBits | packages/@logossim/components/Xnor/XnorModel.js:28-54 | Input bits at or above the width never affect the result of `step`. |
| JsBits.BitOfComplement | packages/@logossim/components/Xnor/XnorModel.js:48 | Bit `i` of 2^n - 1 - x is the complement of bit `i` of x, for x below 2^n and i below n. |
| XnorProperties.ComplementBits | packages/@logossim/components/Xnor/XnorModel.js:48 | 2^bits - 1 - (v mod 2^bits) lies in [0, 2^bits). Its bits are those of `v` flipped below the width and clear above it. |
| XnorProperties.SingleInputComplement | packages/@logossim/components/Xnor/XnorModel.js:35-49 | With one input `v` and a width below 32, both modes return the masked complement 2^bits - 1 - (v mod 2^bits). |
| XnorProperties.OneOutputSingle | packages/@logossim/components/Xnor/XnorModel.js:35-44 | With one input and a width below 32, ONE mode returns the masked complement. |
| XnorProperties.OddOutputSingle | packages/@logossim/components/Xnor/XnorModel.js:45-49 | With one input and a width below 32, ODD mode returns the masked complement; `reduce` hands back the single value. |
| XnorProperties.TwoInputModesAgree | packages/@logossim/components/Xnor/XnorModel.js:34-50 | With two inputs and a width below 32, ONE and ODD mode give the same result. |
| XnorProperties.TwoInputBit | packages/@logossim/components/Xnor/XnorModel.js:34-50 | With two inputs, ONE and ODD agree on every bit when the width is below 32. |
| XnorFindings.OneModeBit31AsWritten | packages/@logossim/components/Xnor/XnorModel.js:19-25 | At width 32, with the single input 2^31, exactly one input has bit 31 set, yet bit 31 of the ONE-mode output is 1. |
| XnorFindings.OddModeNegativeAsWritten | packages/@logossim/components/Xnor/XnorModel.js:48 | At width 32, with the single input 0, the ODD-mode output is -1 rather than 2^32 - 1. |
| XnorFindings.CorrectedCounted | packages/@logossim/components/Xnor/XnorModel.js:22 | With the test `!== 0`, the mapped value is 1 iff bit `index` is set, bit 31 included. |
| XnorFindings.CorrectedSumAt | packages/@logossim/components/Xnor/XnorModel.js:21-23 | The corrected sum equals the count at every bit, bit 31 included. |
| XnorFindings.CorrectedNotExclusiveOrAt | packages/@logossim/components/Xnor/XnorModel.js:18-26 | The corrected per-bit result is 0 iff exactly one input has the bit set, at every bit. |
| XnorFindings.CorrectedDigits | packages/@logossim/components/Xnor/XnorModel.js:38-39 | With the corrected test, digit `k` is 0 iff exactly one input has bit `k` set, bit 31 included. |
| XnorFindings.CorrectedOneOutput | packages/@logossim/components/Xnor/XnorModel.js:37-43 | The corrected ONE-mode number is below 2^bits. |
| XnorFindings.CorrectedOddOutput | packages/@logossim/components/Xnor/XnorModel.js:48 | `(~xor & mask) >>> 0` is the unsigned 32-bit reading of the as-written value. Bit `i` is set iff `i` is below the width and an even number of inputs have bit `i` set. |
| XnorFindings.CorrectedStep | packages/@logossim/components/Xnor/XnorModel.js:28-54 | The corrected gate throws and returns the empty mapping in exactly the cases `step` does. |
| XnorFindings.CorrectedOneModeBit | packages/@logossim/components/Xnor/XnorModel.js:35-44 | At every width up to 32, the corrected ONE output lies in [0, 2^bits). Bit `i` is 0 iff `i` is at or above the width or exactly one input has bit `i` set. |
| XnorFindings.CorrectedOddModeBit | packages/@logossim/components/Xnor/XnorModel.js:45-49 | At every width up to 32, the corrected ODD output lies in [0, 2^bits). Bit `i` is set iff `i` is below the width and an even number of inputs have bit `i` set. |
| XnorFindings.CorrectedAgreesBelowFullWidth | packages/@logossim/components/Xnor/XnorModel.js:28-54 | For every width below 32, the corrected gate returns exactly what `step` returns. |
| XnorFindings.CorrectedOneAgrees | packages/@logossim/components/Xnor/XnorModel.js:35-44 | Below width 32, the corrected ONE-mode value equals the as-written one. |
| XnorFindings.CorrectedOddAgrees | packages/@logossim/components/Xnor/XnorModel.js:45-49 | Below width 32, the corrected ODD-mode value equals the as-written one. |
| XnorFindings.CorrectedOnCounterexamples | packages/@logossim/components/Xnor/XnorModel.js:19-25 | On the two counterexample inputs, the corrected gate clears bit 31 in ONE mode and returns 2^32 - 1 in ODD mode. |

## Left out

- `BaseModel` is not part of this model. This covers port objects, `emit`,
  simulation scheduling and the `addInputPort`/`addOutputPort` internals.
  `AddInputPort` and `AddOutputPort` stand in for the two port-declaring
  calls, as appends to the port list.
- Configuration parsing: `Configuration` holds the fields after `Number(...)`
  as integers. A configured value that `Number` turns into `NaN` or a
  fraction is not modelled.
- Configuration validation: `initialize` checks nothing and raises no
  configuration error. `Initialize` accepts any integers, as the code does.
- `Xnor.Step` assumes 1 <= DATA_BITS <= 32. Nothing in the code shown
  enforces it. Outside that range `step` is not modelled.
- Whether `BaseModel` masks values written to a port is not shown. `Step`
  returns the value the code computes.
- Input values are integers. Floating-point inputs, `NaN` and non-numeric
  inputs are left out. The bitwise operators' `ToInt32` conversion of a
  non-integer is not modelled.
- `Object.values(input)`: the input mapping is given as the sequence of its
  values. Key order does not matter, because `XnorProperties.StepPermutationInvariant`
  shows the result is the same for every order.
- `step` reads `behavior` and `bits` from the object that `initialize` set
  up. `Xnor.Step` takes them as parameters instead. `step` does not change
  the object, so nothing is lost.
- `parseInt` is modelled only on the strings `step` gives it. These are
  non-empty, because the width is at least 1, and made of the digits 0 and 1.
  `JsNumerals.ParseBinary` requires a non-empty binary string. The empty
  string (`NaN` in JavaScript), whitespace, signs, prefixes and other radixes
  are not modelled.
- `join('')` is modelled only on arrays of the numbers 0 and 1. Those are the
  only arrays `step` joins.
- The `BaseModel` constructor is not part of this model. `new XnorModel(...)`
  is taken to run `initialize` on a gate without ports, as the port
  declarations at construction in `GroundModel.test.js` show.
- `XnorFindings.OneModeBit31AsWritten` and `XnorFindings.OddModeNegativeAsWritten`
  each exhibit their discrepancy on one concrete input. The general statements
  are `XnorProperties.OneOutputBit` and `XnorProperties.OddOutputRange`.

## Findings

| source | as written | input that shows it | evidently intended | confidence | as-written member | corrected member |
|---|---|---|---|---|---|---|
| packages/@logossim/components/Xnor/XnorModel.js:19-22 | `0b1 << 31` is -2^31, so `(value & mask) > 0` is never true at bit 31. At width 32, bit 31 of the ONE-mode output is always 1. | ONE mode, width 32, the single input 2^31: exactly one input has bit 31 set, yet output bit 31 is 1. | Bit 31 is counted like every other bit, e.g. with `(value & mask) !== 0`. Output bit 31 is then 0 when exactly one input has it set. | not executed | XnorFindings.OneModeBit31AsWritten | XnorFindings.CorrectedOneModeBit |
| packages/@logossim/components/Xnor/XnorModel.js:48 | `~xor & mask` is a signed 32-bit integer. At width 32, the output is negative whenever bit 31 is set. | ODD mode, width 32, the single input 0: the output is -1. | An unsigned value in [0, 2^32), e.g. `(~xor & mask) >>> 0`, giving 2^32 - 1 for that input. | not executed | XnorFindings.OddModeNegativeAsWritten | XnorFindings.CorrectedOddModeBit |
