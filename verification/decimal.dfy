/** Decimal text as `printf` writes it for the three conversions of the stream part header
    (`%u`, `%d`, `%06d`), and the matching readers that invert them. */
module Decimal {
  import opened Optional

  predicate IsDigit(c: char) {
    '0' <= c <= '9'
  }

  predicate AllDigits(s: string) {
    forall i :: 0 <= i < |s| ==> IsDigit(s[i])
  }

  function DigitChar(d: nat): (c: char)
    requires d < 10
    ensures IsDigit(c)
  {
    ('0' as int + d) as char
  }

  function DigitValue(c: char): (d: nat)
    requires IsDigit(c)
    ensures d < 10 && DigitChar(d) == c
  {
    c as int - '0' as int
  }

  function Pow10(k: nat): (p: nat)
    ensures 1 <= p
  {
    if k == 0 then 1 else 10 * Pow10(k - 1)
  }

  /** `%u`: the shortest decimal rendering of `n` (no sign, no leading zero). */
  function Unsigned(n: nat): (s: string)
    ensures 1 <= |s| && AllDigits(s)
    ensures s[0] == '0' ==> n == 0
    decreases n
  {
    if n < 10 then [DigitChar(n)] else Unsigned(n / 10) + [DigitChar(n % 10)]
  }

  /** `%d`: a minus sign before the magnitude when negative. */
  function Signed(i: int): (s: string)
    ensures 1 <= |s|
    ensures i < 0 <==> s[0] == '-'
    ensures i < 0 ==> s[1..] == Unsigned(-i)
    ensures 0 <= i ==> s == Unsigned(i)
  {
    if i < 0 then "-" + Unsigned(-i) else Unsigned(i)
  }

  /** `k` zero characters (none when `k` is not positive). */
  function Zeros(k: int): (s: string)
    ensures |s| == if k <= 0 then 0 else k
    ensures forall i :: 0 <= i < |s| ==> s[i] == '0'
    decreases k
  {
    if k <= 0 then "" else "0" + Zeros(k - 1)
  }

  /** `%06d`: field width six, padded with zeros between the sign and the digits. */
  function ZeroPadded6(i: int): (s: string)
    ensures |s| == if |Signed(i)| < 6 then 6 else |Signed(i)|
    ensures i < 0 <==> s[0] == '-'
  {
    if i < 0 then "-" + Zeros(5 - |Unsigned(-i)|) + Unsigned(-i)
    else Zeros(6 - |Unsigned(i)|) + Unsigned(i)
  }

  /** The number a string of digits denotes (leading zeros allowed). */
  function Value(s: string): nat
    requires AllDigits(s)
  {
    if |s| == 0 then 0 else Value(s[..|s| - 1]) * 10 + DigitValue(s[|s| - 1])
  }

  /** Length of the longest prefix of `s` made of digits. */
  function SpanDigits(s: string): (k: nat)
    ensures k <= |s| && AllDigits(s[..k])
    ensures k < |s| ==> !IsDigit(s[k])
  {
    if |s| == 0 || !IsDigit(s[0]) then 0
    else
      var k := 1 + SpanDigits(s[1..]);
      assert s[..k] == [s[0]] + s[1..][..k - 1];
      k
  }

  /** Reads an unsigned decimal field at the front of `s`; gives its value and what follows it. */
  function ReadUnsigned(s: string): Option<(nat, string)>
  {
    var k := SpanDigits(s);
    if k == 0 then None else Some((Value(s[..k]), s[k..]))
  }

  /** Reads an optionally negative decimal field at the front of `s`. */
  function ReadSigned(s: string): Option<(int, string)>
  {
    if 0 < |s| && s[0] == '-' then
      var (v, rest) :- ReadUnsigned(s[1..]);
      var negated: (int, string) := (-(v as int), rest);
      Some(negated)
    else
      var (v, rest) :- ReadUnsigned(s);
      Some((v, rest))
  }

  lemma {:induction false} ValueOfUnsigned(n: nat)
    ensures Value(Unsigned(n)) == n
    decreases n
  {
    if n >= 10 {
      var s := Unsigned(n);
      assert s[..|s| - 1] == Unsigned(n / 10);
      ValueOfUnsigned(n / 10);
    }
  }

  lemma {:induction false} ValueOfZeros(k: int)
    ensures Value(Zeros(k)) == 0
    decreases k
  {
    if 0 < k {
      var z := Zeros(k);
      assert z[..|z| - 1] == Zeros(k - 1) by {
        assert z == Zeros(k - 1) + "0";
      }
      ValueOfZeros(k - 1);
    }
  }

  /** Leading zeros do not change the value of a digit string. */
  lemma {:induction false} ValueIgnoresLeadingZeros(k: int, s: string)
    requires AllDigits(s)
    ensures AllDigits(Zeros(k) + s) && Value(Zeros(k) + s) == Value(s)
    decreases |s|
  {
    var t := Zeros(k) + s;
    if |s| == 0 {
      assert t == Zeros(k);
      ValueOfZeros(k);
    } else {
      assert t[..|t| - 1] == Zeros(k) + s[..|s| - 1];
      ValueIgnoresLeadingZeros(k, s[..|s| - 1]);
    }
  }

  /** The digit span stops exactly where a digit string meets a non-digit. */
  lemma {:induction false} SpanOfDigitsThen(d: string, rest: string)
    requires AllDigits(d)
    requires |rest| == 0 || !IsDigit(rest[0])
    ensures SpanDigits(d + rest) == |d|
    decreases |d|
  {
    if |d| > 0 {
      assert (d + rest)[1..] == d[1..] + rest;
      SpanOfDigitsThen(d[1..], rest);
    }
  }

  /** Reading back what `%u` wrote. */
  lemma {:induction false} ReadUnsignedOfUnsigned(n: nat, rest: string)
    requires |rest| == 0 || !IsDigit(rest[0])
    ensures ReadUnsigned(Unsigned(n) + rest) == Some((n, rest))
  {
    var d := Unsigned(n);
    SpanOfDigitsThen(d, rest);
    assert (d + rest)[..|d|] == d;
    assert (d + rest)[|d|..] == rest;
    ValueOfUnsigned(n);
  }

  /** Reading back what `%d` wrote. */
  lemma {:induction false} ReadSignedOfSigned(i: int, rest: string)
    requires |rest| == 0 || !IsDigit(rest[0])
    ensures ReadSigned(Signed(i) + rest) == Some((i, rest))
  {
    if i < 0 {
      var m: nat := -i;
      var u := Unsigned(m);
      assert Signed(i) == "-" + u;
      AppendAssoc("-", u, rest);
      ReadUnsignedOfUnsigned(m, rest);
      ReadSignedAfterMinus(u + rest, i, rest);
    } else {
      var u := Unsigned(i);
      assert Signed(i) + rest == u + rest;
      assert IsDigit((u + rest)[0]);
      ReadUnsignedOfUnsigned(i, rest);
      ReadSignedOfDigits(u + rest, i, rest);
    }
  }

  /** Reading back what `%06d` wrote: the padding zeros are absorbed. */
  lemma {:induction false} ReadSignedOfZeroPadded6(i: int, rest: string)
    requires |rest| == 0 || !IsDigit(rest[0])
    ensures ReadSigned(ZeroPadded6(i) + rest) == Some((i, rest))
  {
    if i < 0 {
      ReadNegativePadded(i, rest);
    } else {
      ReadNonNegativePadded(i, rest);
    }
  }

  lemma {:induction false} ReadNegativePadded(i: int, rest: string)
    requires i < 0 && (|rest| == 0 || !IsDigit(rest[0]))
    ensures ReadSigned(ZeroPadded6(i) + rest) == Some((i, rest))
  {
    var m: nat := -i;
    var z, u := Zeros(5 - |Unsigned(m)|), Unsigned(m);
    NegativePaddedShape(i, z, u, rest);
    ReadPaddedDigits(5 - |Unsigned(m)|, m, rest);
    ReadSignedAfterMinus((z + u) + rest, i, rest);
  }

  lemma {:induction false} NegativePaddedShape(i: int, z: string, u: string, rest: string)
    requires i < 0 && u == Unsigned(-i) && z == Zeros(5 - |u|)
    ensures ZeroPadded6(i) + rest == "-" + ((z + u) + rest)
  {
    assert ZeroPadded6(i) == ("-" + z) + u;
    AppendAssoc("-", z, u);
    AppendAssoc("-", z + u, rest);
  }

  lemma AppendAssoc(a: string, b: string, c: string)
    ensures (a + b) + c == a + (b + c)
  {
  }

  lemma {:induction false} ReadNonNegativePadded(i: int, rest: string)
    requires 0 <= i && (|rest| == 0 || !IsDigit(rest[0]))
    ensures ReadSigned(ZeroPadded6(i) + rest) == Some((i, rest))
  {
    var d := Zeros(6 - |Unsigned(i)|) + Unsigned(i);
    ReadPaddedDigits(6 - |Unsigned(i)|, i, rest);
    assert ZeroPadded6(i) == d;
    assert IsDigit((d + rest)[0]);
    ReadSignedOfDigits(d + rest, i, rest);
  }

  lemma {:induction false} ReadSignedAfterMinus(s: string, i: int, rest: string)
    requires ReadUnsigned(s).Some? && ReadUnsigned(s).value.0 == -i && ReadUnsigned(s).value.1 == rest
    ensures ReadSigned("-" + s) == Some((i, rest))
  {
    assert ("-" + s)[1..] == s;
  }

  lemma {:induction false} ReadSignedOfDigits(s: string, v: nat, rest: string)
    requires 0 < |s| && IsDigit(s[0]) && ReadUnsigned(s) == Some((v, rest))
    ensures ReadSigned(s) == Some((v, rest))
  {
  }

  lemma {:induction false} ReadPaddedDigits(k: int, m: nat, rest: string)
    requires |rest| == 0 || !IsDigit(rest[0])
    ensures ReadUnsigned(Zeros(k) + Unsigned(m) + rest) == Some((m, rest))
  {
    var d := Zeros(k) + Unsigned(m);
    ValueIgnoresLeadingZeros(k, Unsigned(m));
    ValueOfUnsigned(m);
    SpanOfDigitsThen(d, rest);
    assert (d + rest)[..|d|] == d;
    assert (d + rest)[|d|..] == rest;
  }

  /** `%u` of a 32-bit value takes at most ten characters. */
  lemma {:induction false} UnsignedLength(n: nat, k: nat)
    requires 1 <= k && n < Pow10(k)
    ensures |Unsigned(n)| <= k
    decreases k
  {
    if n >= 10 {
      assert k > 1;
      assert n / 10 < Pow10(k - 1);
      UnsignedLength(n / 10, k - 1);
    }
  }
}
