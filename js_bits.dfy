/** JavaScript's 32-bit integer operators on numbers that are integers.
    Every bitwise operator of JavaScript first converts its operands with
    ToInt32 (or ToUint32 for `>>>`), works on the 32 bits of the result and
    returns a signed 32-bit integer (an unsigned one for `>>>`).  A word is
    described here by its bits, least significant first. */
module JsBits {

  const TWO31: nat := 0x8000_0000
  const TWO32: nat := 0x1_0000_0000

  /** The all-ones 32-bit literal `0b1111_..._1111`. */
  const MAX_VALUE: nat := 0xFFFF_FFFF

  function Pow2(n: nat): (r: nat)
    ensures r >= 1
  {
    if n == 0 then 1 else 2 * Pow2(n - 1)
  }

  /** ToUint32 of an integral number. */
  function ToUint32(x: int): (r: nat)
    ensures r < TWO32
  {
    x % TWO32
  }

  /** ToInt32 of an integral number: the same 32 bits read as two's complement. */
  function ToInt32(x: int): (r: int)
    ensures -(TWO31 as int) <= r < TWO31
    ensures ToUint32(r) == ToUint32(x)
    ensures r < 0 <==> ToUint32(x) >= TWO31
  {
    var u := ToUint32(x);
    if u < TWO31 then u else u - TWO32
  }

  /** Bit `i` of a natural number. */
  function BitOf(u: nat, i: nat): bool
  {
    if i == 0 then u % 2 == 1 else BitOf(u / 2, i - 1)
  }

  /** Bit `i` of the 32-bit word a JavaScript bitwise operator sees for `x`. */
  function Bit(x: int, i: nat): bool
  {
    BitOf(ToUint32(x), i)
  }

  /** The number whose binary digits are `bs`, least significant first. */
  function FromBits(bs: seq<bool>): (r: nat)
    ensures r < Pow2(|bs|)
  {
    if bs == [] then 0 else (if bs[0] then 1 else 0) + 2 * FromBits(bs[1..])
  }

  /** The first `n` bits of `u`, least significant first. */
  function BitsOf(u: nat, n: nat): (bs: seq<bool>)
    ensures |bs| == n
  {
    seq(n, i requires 0 <= i < n => BitOf(u, i))
  }

  /** `x & y` */
  function BitwiseAnd(x: int, y: int): (r: int)
    ensures -(TWO31 as int) <= r < TWO31
    ensures forall i :: 0 <= i < 32 ==> Bit(r, i) == (Bit(x, i) && Bit(y, i))
  {
    var f := seq(32, i requires 0 <= i < 32 => Bit(x, i) && Bit(y, i));
    WordBits(f);
    ToInt32(FromBits(f))
  }

  /** `x ^ y` */
  function BitwiseXor(x: int, y: int): (r: int)
    ensures -(TWO31 as int) <= r < TWO31
    ensures forall i :: 0 <= i < 32 ==> Bit(r, i) == (Bit(x, i) != Bit(y, i))
  {
    var f := seq(32, i requires 0 <= i < 32 => Bit(x, i) != Bit(y, i));
    WordBits(f);
    ToInt32(FromBits(f))
  }

  /** `~x` */
  function BitwiseNot(x: int): (r: int)
    ensures -(TWO31 as int) <= r < TWO31
    ensures forall i :: 0 <= i < 32 ==> Bit(r, i) == !Bit(x, i)
  {
    var f := seq(32, i requires 0 <= i < 32 => !Bit(x, i));
    WordBits(f);
    ToInt32(FromBits(f))
  }

  /** `x << n`: only the low five bits of the shift count are used; each
      bit moves up by that count and bits pushed past bit 31 are lost. */
  function LeftShift(x: int, n: int): (r: int)
    ensures -(TWO31 as int) <= r < TWO31
    ensures forall i :: 0 <= i < 32 ==>
      Bit(r, i) == (ToUint32(n) % 32 <= i && Bit(x, i - ToUint32(n) % 32))
  {
    var s := ToUint32(n) % 32;
    var w := ToUint32(x) * Pow2(s);
    ShiftedWordBits(x, s, w);
    ToInt32(w)
  }

  /** `u` shifted right by `k` places: halved `k` times, rounding down. */
  function ShiftRight(u: nat, k: nat): (r: nat)
    ensures r <= u
  {
    if k == 0 then u else ShiftRight(u / 2, k - 1)
  }

  /** `x >>> n`: only the low five bits of the shift count are used. */
  function UnsignedRightShift(x: int, n: int): (r: nat)
    ensures r < TWO32
  {
    ShiftRight(ToUint32(x), ToUint32(n) % 32)
  }

  // ---------------------------------------------------------------------
  // Arithmetic facts

  lemma Pow2Constants()
    ensures Pow2(31) == TWO31 && Pow2(32) == TWO32
  {
    assert Pow2(8) == 256;
    Pow2Add(8, 8);
    Pow2Add(16, 15);
    Pow2Add(16, 16);
  }

  lemma {:induction false} Pow2Add(a: nat, b: nat)
    ensures Pow2(a + b) == Pow2(a) * Pow2(b)
  {
    if a > 0 {
      Pow2Add(a - 1, b);
    }
  }

  lemma {:induction false} Pow2Monotone(a: nat, b: nat)
    requires a <= b
    ensures Pow2(a) <= Pow2(b)
  {
    if a < b {
      Pow2Monotone(a, b - 1);
    }
  }

  lemma DivUnique(x: int, d: int, q: int, r: int)
    requires d > 0 && 0 <= r < d && x == q * d + r
    ensures x / d == q && x % d == r
  {
    var q', r' := x / d, x % d;
    assert (q - q') * d == r' - r;
    if q > q' {
      MulAtLeast(q - q', d);
    } else if q < q' {
      MulAtLeast(q' - q, d);
    }
  }

  lemma MulAtLeast(a: int, d: int)
    requires a >= 1 && d > 0
    ensures a * d >= d
  {
  }

  /** Dividing by 2 * m is dividing by 2 and then by m. */
  lemma DivTwice(u: nat, m: nat)
    requires m > 0
    ensures u / (2 * m) == (u / 2) / m
    ensures u % (2 * m) == u % 2 + 2 * ((u / 2) % m)
  {
    var q, r2, r := (u / 2) / m, (u / 2) % m, u % 2;
    assert u == q * (2 * m) + (2 * r2 + r);
    DivUnique(u, 2 * m, q, 2 * r2 + r);
  }

  /** ToUint32 leaves a number that already fits in 32 bits unchanged. */
  lemma ToUint32Small(x: int)
    requires 0 <= x < TWO32
    ensures ToUint32(x) == x
  {
    DivUnique(x, TWO32, 0, x);
  }

  // ---------------------------------------------------------------------
  // Bits

  lemma {:induction false} BitOfZero(i: nat)
    ensures !BitOf(0, i)
  {
    if i > 0 {
      BitOfZero(i - 1);
    }
  }

  /** The bits of `FromBits(bs)` are `bs`, followed by zeros. */
  lemma {:induction false} BitOfFromBits(bs: seq<bool>, i: nat)
    ensures BitOf(FromBits(bs), i) == (i < |bs| && bs[i])
  {
    if bs == [] {
      BitOfZero(i);
    } else if i > 0 {
      var u := FromBits(bs);
      assert u / 2 == FromBits(bs[1..]);
      BitOfFromBits(bs[1..], i - 1);
    }
  }

  /** A number built from at most 32 bits is its own 32-bit word: its bits
      as the operators see them are the given ones, then zeros. */
  lemma WordOfBits(f: seq<bool>, i: nat)
    requires |f| <= 32 && i < 32
    ensures Bit(FromBits(f), i) == (i < |f| && f[i])
  {
    Pow2Constants();
    Pow2Monotone(|f|, 32);
    ToUint32Small(FromBits(f));
    BitOfFromBits(f, i);
  }

  /** Reading the first `n` bits of a number below 2^n back gives the number. */
  lemma {:induction false} FromBitsOfBitsOf(u: nat, n: nat)
    requires u < Pow2(n)
    ensures FromBits(BitsOf(u, n)) == u
  {
    if n > 0 {
      var bs := BitsOf(u, n);
      assert bs[1..] == BitsOf(u / 2, n - 1);
      FromBitsOfBitsOf(u / 2, n - 1);
    }
  }

  /** A number below 2^n has no bit set at or above `n`. */
  lemma {:induction false} BitOfBelow(u: nat, n: nat, i: nat)
    requires u < Pow2(n) && n <= i
    ensures !BitOf(u, i)
  {
    if n == 0 {
      assert u == 0;
      BitOfZero(i);
    } else {
      BitOfBelow(u / 2, n - 1, i - 1);
    }
  }

  /** Two numbers below 2^n with the same first `n` bits are equal. */
  lemma BitsDetermine(a: nat, b: nat, n: nat)
    requires a < Pow2(n) && b < Pow2(n)
    requires forall i :: 0 <= i < n ==> BitOf(a, i) == BitOf(b, i)
    ensures a == b
  {
    assert BitsOf(a, n) == BitsOf(b, n);
    FromBitsOfBitsOf(a, n);
    FromBitsOfBitsOf(b, n);
  }

  /** A word built from 32 bits keeps them through ToInt32. */
  lemma WordBits(f: seq<bool>)
    requires |f| == 32
    ensures forall i :: 0 <= i < 32 ==> Bit(ToInt32(FromBits(f)), i) == f[i]
  {
    Pow2Constants();
    var u := FromBits(f);
    ToUint32Small(u);
    assert ToUint32(ToInt32(u)) == u;
    forall i | 0 <= i < 32
      ensures Bit(ToInt32(u), i) == f[i]
    {
      BitOfFromBits(f, i);
    }
  }

  /** The only bit of 2^j is bit `j`. */
  lemma {:induction false} BitOfPow2(j: nat, i: nat)
    ensures BitOf(Pow2(j), i) == (i == j)
  {
    if j == 0 {
      if i > 0 {
        BitOfZero(i - 1);
      }
    } else if i > 0 {
      BitOfPow2(j - 1, i - 1);
    }
  }

  /** The bits of 2^n - 1 are the first `n`. */
  lemma {:induction false} BitOfAllOnes(n: nat, i: nat)
    ensures BitOf(Pow2(n) - 1, i) == (i < n)
  {
    if n == 0 {
      BitOfZero(i);
    } else if i > 0 {
      BitOfAllOnes(n - 1, i - 1);
    }
  }

  /** The first 32 bits of 2^n - 1 are the first `n` bits set. */
  lemma AllOnesBits(m: nat, n: nat)
    requires n <= 32 && m == Pow2(n) - 1
    ensures forall i :: 0 <= i < 32 ==> Bit(m, i) == (i < n)
  {
    Pow2Constants();
    Pow2Monotone(n, 32);
    ToUint32Small(m);
    forall i | 0 <= i < 32
      ensures BitOf(m, i) == (i < n)
    {
      BitOfAllOnes(n, i);
    }
  }

  /** Multiplying by 2^s moves every bit up by `s`. */
  lemma {:induction false} BitOfTimesPow2(u: nat, s: nat, i: nat)
    ensures BitOf(u * Pow2(s), i) == (s <= i && BitOf(u, i - s))
  {
    if s > 0 {
      var v := u * Pow2(s - 1);
      assert u * Pow2(s) == 2 * v;
      if i > 0 {
        assert (2 * v) / 2 == v;
        BitOfTimesPow2(u, s - 1, i - 1);
      }
    }
  }

  /** The first 32 bits survive reduction modulo 2^32. */
  lemma BitOfWord(w: nat, i: nat)
    requires i < 32
    ensures BitOf(w % TWO32, i) == BitOf(w, i)
  {
    Pow2Constants();
    LowBitsIsMod(w, 32);
    BitOfLowBits(w, 32, i);
  }

  /** The word `x << s` is built from: its bits are those of `x`, moved up by `s`. */
  lemma ShiftedWordBits(x: int, s: nat, w: nat)
    requires w == ToUint32(x) * Pow2(s)
    ensures forall i :: 0 <= i < 32 ==> Bit(ToInt32(w), i) == (s <= i && Bit(x, i - s))
  {
    forall i | 0 <= i < 32
      ensures Bit(ToInt32(w), i) == (s <= i && Bit(x, i - s))
    {
      assert ToUint32(ToInt32(w)) == w % TWO32;
      BitOfWord(w, i);
      BitOfTimesPow2(ToUint32(x), s, i);
    }
  }

  /** Shifting right by `k` moves the bits down by `k`. */
  lemma {:induction false} BitOfShiftRight(u: nat, k: nat, i: nat)
    ensures BitOf(ShiftRight(u, k), i) == BitOf(u, i + k)
  {
    if k > 0 {
      BitOfShiftRight(u / 2, k - 1, i);
    }
  }

  /** Shifting right by `k` is dividing by 2^k, rounding down. */
  lemma {:induction false} ShiftRightIsDiv(u: nat, k: nat)
    ensures ShiftRight(u, k) == u / Pow2(k)
  {
    if k > 0 {
      ShiftRightIsDiv(u / 2, k - 1);
      DivTwice(u, Pow2(k - 1));
    }
  }

  /** `x >>> n` is the unsigned reading of `x` divided by 2^(n mod 32),
      rounding down. */
  lemma UnsignedRightShiftIsDiv(x: int, n: int)
    ensures UnsignedRightShift(x, n) == ToUint32(x) / Pow2(ToUint32(n) % 32)
  {
    ShiftRightIsDiv(ToUint32(x), ToUint32(n) % 32);
  }

  /** `x >>> n` moves each bit down by the shift count. */
  lemma UnsignedRightShiftBits(x: int, n: int, i: nat)
    ensures BitOf(UnsignedRightShift(x, n), i) == Bit(x, i + ToUint32(n) % 32)
  {
    BitOfShiftRight(ToUint32(x), ToUint32(n) % 32, i);
  }

  /** The number formed by the first `n` bits of `u`. */
  function LowBits(u: nat, n: nat): (r: nat)
    ensures r < Pow2(n)
  {
    if n == 0 then 0 else u % 2 + 2 * LowBits(u / 2, n - 1)
  }

  /** The first `n` bits of `u` are `u` modulo 2^n. */
  lemma {:induction false} LowBitsIsMod(u: nat, n: nat)
    ensures LowBits(u, n) == u % Pow2(n)
  {
    if n > 0 {
      DivTwice(u, Pow2(n - 1));
      LowBitsIsMod(u / 2, n - 1);
    }
  }

  /** Keeping the first `n` bits clears the others. */
  lemma {:induction false} BitOfLowBits(u: nat, n: nat, i: nat)
    ensures BitOf(LowBits(u, n), i) == (i < n && BitOf(u, i))
  {
    if n == 0 {
      BitOfZero(i);
    } else if i > 0 {
      BitOfLowBits(u / 2, n - 1, i - 1);
    }
  }

  /** Below 2^n, subtracting from 2^n - 1 flips each of the first `n` bits. */
  lemma {:induction false} BitOfComplement(x: nat, n: nat, i: nat)
    requires x < Pow2(n) && i < n
    ensures BitOf(Pow2(n) - 1 - x, i) == !BitOf(x, i)
  {
    var p := Pow2(n - 1);
    assert Pow2(n) == 2 * p;
    ComplementHalves(x, p);
    if i > 0 {
      BitOfComplement(x / 2, n - 1, i - 1);
    }
  }

  /** Halving `2p - 1 - x` halves `x`, and the low bit flips. */
  lemma ComplementHalves(x: nat, p: nat)
    requires x < 2 * p
    ensures (2 * p - 1 - x) / 2 == p - 1 - x / 2
    ensures (2 * p - 1 - x) % 2 == 1 - x % 2
  {
    var q, r := x / 2, x % 2;
    assert x == q * 2 + r;
    DivUnique(2 * p - 1 - x, 2, p - 1 - q, 1 - r);
  }

  /** The bits of a number's unsigned 32-bit reading are the bits the operators see. */
  lemma UnsignedReadingBits(x: int, u: nat)
    requires u == ToUint32(x)
    ensures forall i :: BitOf(u, i) == Bit(x, i)
  {
  }

  /** Two words with the same 32 bits are equal. */
  lemma BitsDetermineWord(x: int, y: int)
    requires 0 <= x < TWO32 && 0 <= y < TWO32
    requires forall i :: 0 <= i < 32 ==> Bit(x, i) == Bit(y, i)
    ensures x == y
  {
    Pow2Constants();
    ToUint32Small(x);
    ToUint32Small(y);
    forall i | 0 <= i < 32
      ensures BitOf(x, i) == BitOf(y, i)
    {
      assert Bit(x, i) == Bit(y, i);
    }
    BitsDetermine(x, y, 32);
  }

  /** A number below 2^m whose bits from `n` up to `m` are clear is below 2^n. */
  lemma {:induction false} BitsAboveClear(u: nat, n: nat, m: nat)
    requires n <= m && u < Pow2(m)
    requires forall i :: n <= i < m ==> !BitOf(u, i)
    ensures u < Pow2(n)
  {
    if n == 0 {
      forall i | 0 <= i < m
        ensures BitOf(u, i) == BitOf(0, i)
      {
        BitOfZero(i);
      }
      BitsDetermine(u, 0, m);
    } else {
      forall i | n - 1 <= i < m - 1
        ensures !BitOf(u / 2, i)
      {
        assert BitOf(u, i + 1) == BitOf(u / 2, i);
      }
      BitsAboveClear(u / 2, n - 1, m - 1);
    }
  }

  /** How a 32-bit signed integer relates to its unsigned reading. */
  lemma Int32Reading(r: int)
    requires -(TWO31 as int) <= r < TWO31
    ensures r == if ToUint32(r) < TWO31 then ToUint32(r) else ToUint32(r) - TWO32
  {
    if r >= 0 {
      DivUnique(r, TWO32, 0, r);
    } else {
      DivUnique(r, TWO32, -1, r + TWO32);
    }
  }

  /** Bit 31 of a 32-bit word is its sign. */
  lemma TopBit(u: nat)
    requires u < TWO32
    ensures BitOf(u, 31) <==> u >= TWO31
  {
    Pow2Constants();
    if u < TWO31 {
      BitOfBelow(u, 31, 31);
    } else if !BitOf(u, 31) {
      BitsAboveClear(u, 31, 32);
    }
  }
}
