/**
 The two decimal printers for certificate serial numbers: the signing side divides by ten
 repeatedly, the key lookup accumulates decimal digits.
 */
module Serials {
  import opened Bytes

  // ---------------------------------------------------------------- what is to be printed

  function Digit(d: nat): char
    requires d < 10
  {
    '0' + d as char
  }

  /** The decimal numeral without leading zeros. */
  function Decimal(n: nat): (s: string)
    ensures s != ""
  {
    if n < 10 then [Digit(n)] else Decimal(n / 10) + [Digit(n % 10)]
  }

  function SignedDecimal(n: int): string {
    if n < 0 then "-" + Decimal(-n) else Decimal(n)
  }

  predicate TopBitSet(bytes: seq<u8>) {
    bytes != [] && bytes[0] >= 0x80
  }

  /** The value of the bytes of an ASN.1 INTEGER. */
  function TwosComplement(bytes: seq<u8>): int {
    if TopBitSet(bytes) then Value(bytes) - Pow256(|bytes|) else Value(bytes)
  }

  lemma {:induction false} DecimalHead(n: nat)
    ensures '0' <= Decimal(n)[0] <= '9'
    ensures Decimal(n)[0] == '0' <==> n == 0
  {
    if n >= 10 {
      DecimalHead(n / 10);
    }
  }

  /** Equal numerals mean equal numbers, so comparing serial numbers as text is exact. */
  lemma {:induction false} DecimalInjective(m: nat, n: nat)
    requires Decimal(m) == Decimal(n)
    ensures m == n
  {
    var s, t := Decimal(m), Decimal(n);
    assert s[|s| - 1] == Digit(m % 10) && t[|t| - 1] == Digit(n % 10);
    if m >= 10 && n >= 10 {
      assert Decimal(m / 10) == s[..|s| - 1] && Decimal(n / 10) == t[..|t| - 1];
      DecimalInjective(m / 10, n / 10);
    } else {
      assert m < 10 ==> |s| == 1;
      assert n < 10 ==> |t| == 1;
    }
  }

  // ---------------------------------------------------------------- division

  /** A quotient and remainder put together again. */
  function Combined(q: nat, d: nat, r: nat): nat {
    q * d + r
  }

  /** Divides a big-endian number by a small one. */
  method BigDivmod(bytes: seq<u8>, divisor: u8) returns (quotient: seq<u8>, remainder: u8)
    requires divisor > 0
    ensures Value(bytes) == Combined(Value(quotient), divisor as nat, remainder as nat) && remainder < divisor
    ensures bytes == [] <==> quotient == []
    ensures |quotient| > 1 ==> quotient[0] != 0
  {
    hide Combined, Value;
    quotient := [];
    var rem: u16 := 0;
    var d := divisor as u16;
    NothingDivided(d as nat);
    for i := 0 to |bytes|
      invariant rem < d < 256 && |quotient| == i
      invariant Value(bytes[..i]) == Combined(Value(quotient), d as nat, rem as nat)
    {
      DivGrows(bytes, i, quotient, d as nat, rem as nat);
      rem := rem * 256 + bytes[i] as u16;
      quotient := quotient + [(rem / d) as u8];
      rem := rem % d;
    }
    assert bytes[..|bytes|] == bytes;
    while |quotient| > 1 && quotient[0] == 0
      invariant Value(bytes) == Combined(Value(quotient), d as nat, rem as nat)
      invariant bytes == [] <==> quotient == []
    {
      LeadingZero(quotient);
      quotient := quotient[1..];
    }
    remainder := rem as u8;
  }

  /** One more byte of the dividend. */
  lemma DivGrows(bytes: seq<u8>, i: nat, quotient: seq<u8>, d: nat, rem: nat)
    requires i < |bytes| && 0 < d < 256 && rem < d && Value(bytes[..i]) == Combined(Value(quotient), d, rem)
    ensures var t := rem * 256 + bytes[i] as nat;
      t / d < 256 && Value(bytes[..i + 1]) == Combined(Value(quotient + [(t / d) as u8]), d, t % d)
  {
    hide Combined;
    DivStep(Value(quotient), d, rem, bytes[i] as nat);
    var next := quotient + [((rem * 256 + bytes[i] as nat) / d) as u8];
    assert next[..|next| - 1] == quotient && bytes[..i + 1][..i] == bytes[..i];
  }

  lemma NothingDivided(d: nat)
    ensures Combined(Value([]), d, 0) == 0 == Value([])
  {
  }

  lemma LeadingZero(s: seq<u8>)
    requires s != [] && s[0] == 0
    ensures Value(s) == Value(s[1..])
  {
    assert s == [s[0]] + s[1..];
    ValueCons(s[0], s[1..]);
  }

  lemma DivStep(q: nat, d: nat, r: nat, b: nat)
    requires 0 < d < 256 && r < d && b < 256
    ensures (r * 256 + b) / d < 256
    ensures Combined(q, d, r) * 256 + b == Combined(q * 256 + (r * 256 + b) / d, d, (r * 256 + b) % d)
  {
    var t := r * 256 + b;
    var k := t / d;
    assert t == k * d + t % d;
    if k >= 256 {
      MulLe(256, k, d);
    }
    assert (q * 256 + k) * d == q * 256 * d + k * d;
    assert (q * d + r) * 256 == q * 256 * d + r * 256;
  }

  function Reverse(s: string): string {
    if s == "" then "" else Reverse(s[1..]) + [s[0]]
  }

  lemma ReverseNothing()
    ensures Reverse("") == ""
  {
  }

  lemma DecimalSnoc(q: nat, r: nat)
    requires r < 10
    ensures Decimal(q * 10 + r) == (if q == 0 then "" else Decimal(q)) + [Digit(r)]
  {
  }

  lemma {:induction false} ReverseSnoc(s: string, c: char)
    ensures Reverse(s + [c]) == [c] + Reverse(s)
  {
    if s == "" {
      assert s + [c] == [c];
    } else {
      assert (s + [c])[1..] == s[1..] + [c];
      ReverseSnoc(s[1..], c);
    }
  }

  predicate IsZero(q: seq<u8>) {
    q == [] || (|q| == 1 && q[0] == 0)
  }

  lemma StrippedZero(q: seq<u8>)
    requires |q| > 1 ==> q[0] != 0
    ensures IsZero(q) <==> Value(q) == 0
  {
    if |q| == 1 {
      assert q[..0] == [];
    } else if |q| > 1 {
      assert q == [q[0]] + q[1..];
      ValueCons(q[0], q[1..]);
      hide Value, Pow256;
      Positive(q[0] as nat, Pow256(|q[1..]|));
    }
  }

  /** Repeated division by ten. */
  method FormatBytes(bytes: seq<u8>) returns (text: string)
    ensures text == Decimal(Value(bytes))
  {
    hide Value, Decimal, Reverse;
    var digits: string := "";
    var remainder := bytes;
    var quotient, rem := BigDivmod(remainder, 10);
    digits := digits + [Digit(rem as nat)];
    ghost var before := "";
    ReverseNothing();
    while !IsZero(quotient)
      invariant |quotient| > 1 ==> quotient[0] != 0
      invariant rem < 10 && digits == before + [Digit(rem as nat)]
      invariant Decimal(Value(bytes)) == Decimal(Value(quotient) * 10 + rem as nat) + Reverse(before)
      decreases Value(quotient)
    {
      StrippedZero(quotient);
      ghost var all := Value(quotient) * 10 + rem as nat;
      DecimalSnoc(Value(quotient), rem as nat);
      ReverseSnoc(before, Digit(rem as nat));
      ghost var top := Value(quotient);
      remainder := quotient;
      before := digits;
      quotient, rem := BigDivmod(remainder, 10);
      digits := digits + [Digit(rem as nat)];
      assert Value(quotient) < top;
    }
    StrippedZero(quotient);
    DecimalSnoc(Value(quotient), rem as nat);
    ReverseSnoc(before, Digit(rem as nat));
    text := Reverse(digits);
  }

  /** `neg` with a pending carry is the two's complement of `orig`. */
  predicate Negated(neg: seq<u8>, orig: seq<u8>, carry: bool) {
    |neg| == |orig| && Value(neg) + (if carry then Pow256(|neg|) else 0) == Pow256(|orig|) - Value(orig)
  }

  /** Two's complement negation, from the last byte to the first. */
  method Negate(bytes: seq<u8>) returns (negated: seq<u8>)
    ensures |negated| == |bytes|
    ensures Value(bytes) > 0 ==> Value(negated) == Pow256(|bytes|) - Value(bytes)
  {
    hide Negated;
    negated := bytes;
    var carry := true;
    var k := |bytes|;
    NegatedNothing();
    assert bytes[k..] == [] && negated[k..] == [];
    while k > 0
      invariant 0 <= k <= |bytes| == |negated|
      invariant negated[..k] == bytes[..k]
      invariant Negated(negated[k..], bytes[k..], carry)
    {
      k := k - 1;
      ghost var tail, oldTail := negated[k + 1..], bytes[k + 1..];
      assert negated[k] == bytes[k] by { assert negated[..k + 1][k] == bytes[..k + 1][k]; }
      var b := 255 - negated[k];
      NegatedStep(tail, oldTail, negated[k], carry);
      if carry {
        carry := b == 255;
        b := if b == 255 then 0 else b + 1;
      }
      negated := negated[k := b];
      assert negated[k..] == [b] + tail && bytes[k..] == [bytes[k]] + oldTail;
    }
    assert negated[0..] == negated && bytes[0..] == bytes;
    NegatedWhole(negated, bytes, carry);
  }

  lemma NegatedNothing()
    ensures Negated([], [], true)
  {
  }

  lemma NegatedWhole(neg: seq<u8>, orig: seq<u8>, carry: bool)
    requires Negated(neg, orig, carry)
    ensures Value(orig) > 0 ==> Value(neg) == Pow256(|orig|) - Value(orig)
  {
  }

  lemma NegatedStep(neg: seq<u8>, orig: seq<u8>, x: u8, carry: bool)
    requires Negated(neg, orig, carry)
    ensures !carry ==> Negated([255 - x] + neg, [x] + orig, false)
    ensures carry && x == 0 ==> Negated([0] + neg, [x] + orig, true)
    ensures carry && x != 0 ==> Negated([255 - x + 1] + neg, [x] + orig, false)
  {
    var b: u8 := if !carry then 255 - x else if x == 0 then 0 else 255 - x + 1;
    ValueCons(b, neg);
    ValueCons(x, orig);
    PowStep(|neg|);
    NegateByte(x as nat, b as nat, Pow256(|neg|), carry);
  }

  lemma NegateByte(x: nat, b: nat, p: nat, carry: bool)
    requires x < 256 && b == if !carry then 255 - x else if x == 0 then 0 else 256 - x
    ensures carry && x != 0 ==> b * p == 256 * p - x * p
    ensures !carry ==> b * p == 255 * p - x * p
    ensures x == 0 ==> x * p == 0
  {
  }

  /** The signing side: a decimal numeral of the two's complement value. */
  method FormatSerial(bytes: seq<u8>) returns (text: string)
    ensures text == SignedDecimal(TwosComplement(bytes))
  {
    if bytes == [] {
      return "0";
    }
    if bytes[0] >= 0x80 {
      var negated := Negate(bytes);
      ValueBound(bytes);
      TopBitValue(bytes);
      var digits := FormatBytes(negated);
      return "-" + digits;
    }
    text := FormatBytes(bytes);
  }

  lemma TopBitValue(bytes: seq<u8>)
    requires TopBitSet(bytes)
    ensures 0 < Pow256(|bytes|) - Value(bytes) < Pow256(|bytes|)
  {
    ValueBound(bytes);
    assert bytes == [bytes[0]] + bytes[1..];
    ValueCons(bytes[0], bytes[1..]);
    hide Value, Pow256;
    Positive(bytes[0] as nat, Pow256(|bytes| - 1));
  }

  lemma Positive(a: nat, b: nat)
    requires a > 0 && b > 0
    ensures a * b > 0
  {
  }

  // ---------------------------------------------------------------- accumulation

  /** Little-endian decimal digits. */
  function DigitsValue(d: seq<u8>): nat {
    if d == [] then 0 else d[0] as nat + 10 * DigitsValue(d[1..])
  }

  predicate IsDigits(d: seq<u8>) {
    forall i :: 0 <= i < |d| ==> d[i] < 10
  }

  /** The digits of a carry that runs past the end. */
  function CarryDigits(carry: nat): (d: seq<u8>)
    ensures IsDigits(d)
  {
    if carry == 0 then [] else [(carry % 10) as u8] + CarryDigits(carry / 10)
  }

  function Scaled(x: nat, factor: nat): nat {
    x * factor
  }

  /** Digits times `factor` plus `carry`, digit by digit. */
  function MulAdd(d: seq<u8>, factor: nat, carry: nat): (r: seq<u8>)
    ensures IsDigits(r) && |r| >= |d|
  {
    if d == [] then CarryDigits(carry)
    else
      var v := Scaled(d[0] as nat, factor) + carry;
      [(v % 10) as u8] + MulAdd(d[1..], factor, v / 10)
  }

  lemma {:induction false} CarryValue(carry: nat)
    ensures DigitsValue(CarryDigits(carry)) == carry
  {
    if carry > 0 {
      CarryValue(carry / 10);
      assert CarryDigits(carry)[1..] == CarryDigits(carry / 10);
    }
  }

  lemma {:induction false} MulAddValue(d: seq<u8>, factor: nat, carry: nat)
    ensures DigitsValue(MulAdd(d, factor, carry)) == Scaled(DigitsValue(d), factor) + carry
  {
    if d == [] {
      CarryValue(carry);
    } else {
      hide Scaled;
      var v := Scaled(d[0] as nat, factor) + carry;
      MulAddValue(d[1..], factor, v / 10);
      var r := MulAdd(d, factor, carry);
      assert r[0] as nat == v % 10 && r[1..] == MulAdd(d[1..], factor, v / 10);
      assert DigitsValue(r) == v % 10 + 10 * DigitsValue(r[1..]);
      MulStep(d[0] as nat, DigitsValue(d[1..]), factor);
      hide MulAdd, DigitsValue;
    }
  }

  lemma MulStep(d: nat, rest: nat, factor: nat)
    ensures Scaled(d + 10 * rest, factor) == Scaled(d, factor) + 10 * Scaled(rest, factor)
  {
  }

  lemma MulAddStep(d: seq<u8>, j: nat, factor: nat, carry: nat)
    requires j < |d|
    ensures var v := Scaled(d[j] as nat, factor) + carry;
      MulAdd(d[j..], factor, carry) == [(v % 10) as u8] + MulAdd(d[j + 1..], factor, v / 10)
  {
    hide Scaled;
    assert d[j..][1..] == d[j + 1..] && d[j..][0] == d[j];
  }

  lemma MulAddNothing(factor: nat, carry: nat)
    ensures MulAdd([], factor, carry) == CarryDigits(carry)
  {
  }

  /** Multiplies the digits by 256 in place. */
  method Times256(digits: seq<u8>) returns (result: seq<u8>)
    requires IsDigits(digits)
    ensures result == MulAdd(digits, 256, 0)
  {
    hide MulAdd;
    assert digits[0..] == digits;
    result := digits;
    var carry: u16 := 0;
    for j := 0 to |digits|
      invariant |result| == |digits| && carry < 256
      invariant result[j..] == digits[j..]
      invariant MulAdd(digits, 256, 0) == result[..j] + MulAdd(digits[j..], 256, carry as nat)
    {
      assert result[j] == digits[j] by { assert result[j..][0] == digits[j..][0]; }
      var val := result[j] as u16 * 256 + carry;
      MulAddStep(digits, j, 256, carry as nat);
      ghost var before := result[..j];
      result := result[j := (val % 10) as u8];
      assert result[..j + 1] == before + [(val % 10) as u8];
      carry := val / 10;
    }
    assert digits[|digits|..] == [] && result[..|digits|] == result;
    MulAddNothing(256, carry as nat);
    result := PushCarry(result, carry);
  }

  /** Adds a byte to the digits in place. */
  method AddByte(digits: seq<u8>, byte: u8) returns (result: seq<u8>)
    requires IsDigits(digits)
    ensures result == MulAdd(digits, 1, byte as nat)
  {
    hide MulAdd;
    assert digits[0..] == digits;
    result := digits;
    var carry: u16 := byte as u16;
    for j := 0 to |digits|
      invariant |result| == |digits| && carry < 256
      invariant result[j..] == digits[j..]
      invariant MulAdd(digits, 1, byte as nat) == result[..j] + MulAdd(digits[j..], 1, carry as nat)
    {
      assert result[j] == digits[j] by { assert result[j..][0] == digits[j..][0]; }
      var val := result[j] as u16 + carry;
      MulAddStep(digits, j, 1, carry as nat);
      ghost var before := result[..j];
      result := result[j := (val % 10) as u8];
      assert result[..j + 1] == before + [(val % 10) as u8];
      carry := val / 10;
    }
    assert digits[|digits|..] == [] && result[..|digits|] == result;
    MulAddNothing(1, carry as nat);
    result := PushCarry(result, carry);
  }

  method PushCarry(digits: seq<u8>, start: u16) returns (result: seq<u8>)
    ensures result == digits + CarryDigits(start as nat)
  {
    result := digits;
    var carry := start;
    while carry > 0
      invariant digits + CarryDigits(start as nat) == result + CarryDigits(carry as nat)
      decreases carry
    {
      result := result + [(carry % 10) as u8];
      carry := carry / 10;
    }
  }

  /** The digits as text, most significant first. */
  function DigitsText(d: seq<u8>): string
    requires IsDigits(d)
  {
    if d == [] then "" else DigitsText(d[1..]) + [Digit(d[0] as nat)]
  }

  function StripZeros(s: string): string {
    if s != "" && s[0] == '0' then StripZeros(s[1..]) else s
  }

  lemma {:induction false} StripSnoc(s: string, c: char)
    ensures StripZeros(s + [c]) == if StripZeros(s) == "" then (if c == '0' then "" else [c]) else StripZeros(s) + [c]
  {
    if s == "" {
      assert s + [c] == [c];
    } else if s[0] == '0' {
      assert (s + [c])[1..] == s[1..] + [c];
      StripSnoc(s[1..], c);
    }
  }

  lemma {:induction false} TextIsDecimal(d: seq<u8>)
    requires IsDigits(d)
    ensures StripZeros(DigitsText(d)) == if DigitsValue(d) == 0 then "" else Decimal(DigitsValue(d))
  {
    hide Decimal, StripZeros;
    if d == [] {
      NothingStripped();
    } else {
      TextIsDecimal(d[1..]);
      StripSnoc(DigitsText(d[1..]), Digit(d[0] as nat));
      DecimalSnoc(DigitsValue(d[1..]), d[0] as nat);
      DecimalHead(DigitsValue(d[1..]));
      DigitZero(d[0] as nat);
    }
  }

  lemma NothingStripped()
    ensures StripZeros("") == ""
  {
  }

  lemma DigitZero(n: nat)
    requires n < 10
    ensures Digit(n) == '0' <==> n == 0
  {
  }

  /** The key lookup: the bytes as an unsigned number. */
  method FormatSerialDecimal(bytes: seq<u8>) returns (text: string)
    ensures text == Decimal(Value(bytes))
  {
    if bytes == [] {
      return "0";
    }
    var digits: seq<u8> := [0];
    for i := 0 to |bytes|
      invariant IsDigits(digits) && DigitsValue(digits) == Value(bytes[..i])
    {
      assert bytes[..i + 1][..i] == bytes[..i];
      MulAddValue(digits, 256, 0);
      digits := Times256(digits);
      MulAddValue(digits, 1, bytes[i] as nat);
      digits := AddByte(digits, bytes[i]);
    }
    assert bytes[..|bytes|] == bytes;
    TextIsDecimal(digits);
    text := StripZeros(DigitsText(digits));
    if text == "" {
      return "0";
    }
  }

  // ---------------------------------------------------------------- agreement

  /** The printers agree exactly on the serial numbers that are not negative. */
  lemma PrintersAgree(bytes: seq<u8>)
    ensures SignedDecimal(TwosComplement(bytes)) == Decimal(Value(bytes)) <==> !TopBitSet(bytes)
  {
    if TopBitSet(bytes) {
      TopBitValue(bytes);
      DecimalHead(Value(bytes));
    }
  }

  /** Comparing the texts of two serial numbers compares the numbers. */
  lemma SameTextSameSerial(a: seq<u8>, b: seq<u8>)
    ensures Decimal(Value(a)) == Decimal(Value(b)) <==> Value(a) == Value(b)
  {
    if Decimal(Value(a)) == Decimal(Value(b)) {
      DecimalInjective(Value(a), Value(b));
    }
  }
}
