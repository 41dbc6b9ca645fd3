/** The numerals the gate writes and reads: the decimal numeral of a
    non-negative integer, as the template literal `in${i}` writes it (digits
    only, no sign, no leading zero), and strings of binary digits, as
    `[...].join('')` writes them and `parseInt(s, 2)` reads them. */
module JsNumerals {
  import opened JsBits

  function DigitChar(d: nat): (c: char)
    requires d < 10
    ensures '0' <= c <= '9'
  {
    (48 + d) as char
  }

  function DecimalString(n: nat): (s: string)
    ensures |s| >= 1
    ensures forall k :: 0 <= k < |s| ==> '0' <= s[k] <= '9'
    ensures s[0] == '0' ==> n == 0
  {
    if n < 10 then [DigitChar(n)] else DecimalString(n / 10) + [DigitChar(n % 10)]
  }

  /** Reads a string of decimal digits back, most significant digit first. */
  function ParseDecimal(s: string): nat
    requires forall k :: 0 <= k < |s| ==> '0' <= s[k] <= '9'
  {
    if s == [] then 0
    else 10 * ParseDecimal(s[..|s| - 1]) + (s[|s| - 1] as int - 48)
  }

  /** Writing a number in decimal and reading it back gives the number. */
  lemma {:induction false} DecimalRoundTrip(n: nat)
    ensures ParseDecimal(DecimalString(n)) == n
  {
    if n >= 10 {
      var s := DecimalString(n);
      assert s[..|s| - 1] == DecimalString(n / 10);
      DecimalRoundTrip(n / 10);
    }
  }

  /** Distinct numbers have distinct numerals. */
  lemma DecimalStringInjective(a: nat, b: nat)
    requires a != b
    ensures DecimalString(a) != DecimalString(b)
  {
    DecimalRoundTrip(a);
    DecimalRoundTrip(b);
  }

  /** The elements of `s` in the opposite order (`Array.prototype.reverse`). */
  function Reverse<T>(s: seq<T>): (r: seq<T>)
    ensures |r| == |s|
    ensures forall k :: 0 <= k < |s| ==> r[k] == s[|s| - 1 - k]
  {
    if s == [] then [] else Reverse(s[1..]) + [s[0]]
  }

  /** Reversing twice gives the original order back. */
  lemma ReverseReverse<T>(s: seq<T>)
    ensures Reverse(Reverse(s)) == s
  {
    var r := Reverse(Reverse(s));
    assert |r| == |s|;
    forall k | 0 <= k < |s|
      ensures r[k] == s[k]
    {
      assert Reverse(s)[|s| - 1 - k] == s[k];
    }
  }

  predicate IsBinary(s: string)
  {
    forall k :: 0 <= k < |s| ==> s[k] == '0' || s[k] == '1'
  }

  /** `ds.join('')`: the decimal numerals of the elements, one after the
      other, with nothing between them.  For the numbers 0 and 1 every
      numeral is one character long, so the string has one binary digit per
      element. */
  function JoinDigits(ds: seq<nat>): (s: string)
    requires forall k :: 0 <= k < |ds| ==> ds[k] <= 1
    ensures |s| == |ds| && IsBinary(s)
    ensures forall k :: 0 <= k < |ds| ==> (s[k] == '1' <==> ds[k] == 1)
  {
    if ds == [] then ""
    else
      var last := ds[|ds| - 1];
      assert DecimalString(last) == [DigitChar(last)];
      JoinDigits(ds[..|ds| - 1]) + DecimalString(last)
  }

  /** `parseInt(s, 2)` for a non-empty string of binary digits: most
      significant digit first. */
  function ParseBinary(s: string): (r: nat)
    requires |s| >= 1 && IsBinary(s)
    ensures r < Pow2(|s|)
  {
    var d := if s[|s| - 1] == '1' then 1 else 0;
    if |s| == 1 then d
    else 2 * ParseBinary(s[..|s| - 1]) + d
  }

  /** Joining the 0/1 digits in reverse order and reading the string in base 2
      gives the number whose bits, least significant first, are the digits. */
  lemma {:induction false} BinaryReadBack(ds: seq<nat>, f: seq<bool>)
    requires |ds| >= 1 && forall k :: 0 <= k < |ds| ==> ds[k] <= 1
    requires |f| == |ds| && forall k :: 0 <= k < |ds| ==> f[k] == (ds[k] == 1)
    ensures ParseBinary(JoinDigits(Reverse(ds))) == FromBits(f)
  {
    var n := |ds|;
    var rest := Reverse(ds[1..]);
    var d := ds[0];
    var s := JoinDigits(Reverse(ds));
    assert Reverse(ds) == rest + [d];
    assert (rest + [d])[..n - 1] == rest;
    assert DecimalString(d) == [DigitChar(d)];
    assert s == JoinDigits(rest) + [DigitChar(d)];
    if n == 1 {
      assert f[1..] == [];
    } else {
      assert s[..n - 1] == JoinDigits(rest);
      BinaryReadBack(ds[1..], f[1..]);
    }
  }
}
