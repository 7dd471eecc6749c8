/** `boost::lexical_cast<uint16_t>`: conversion from the last digit to the first in 16-bit arithmetic with
    overflow checks, which amounts to reading a decimal number below 2^16. */
module LexicalCast {
  import opened Bytes
  import opened Wrappers

  const MAX_UINT16 := 65535

  /** The number that a string of digits denotes, if it fits. */
  function ReadUint16(digits: bytes): Option<int> {
    if digits != [] && AllDigits(digits) && NatOf(digits) <= MAX_UINT16 then Some(NatOf(digits)) else None
  }

  /** A sign is skipped; a minus sign negates the result modulo 2^16. */
  function ReadPort(s: bytes): Option<int> {
    if s == [] then None
    else
      var digits := if s[0] == 0x2D || s[0] == 0x2B then s[1..] else s;
      match ReadUint16(digits)
      case None => None
      case Some(n) => Some(if s[0] == 0x2D then (0x1_0000 - n) % 0x1_0000 else n)
  }

  /** What a digit with `k` digits after it contributes. */
  function Weight(c: byte, k: nat): int {
    ((c as int) - 0x30) * Pow10(k)
  }

  lemma {:induction false} NatOfHead(d: byte, t: bytes)
    ensures NatOf([d] + t) == Weight(d, |t|) + NatOf(t)
  {
    var s := [d] + t;
    var n := |t|;
    if n == 0 {
      assert s[..0] == [];
    } else {
      assert s[..n] == [d] + t[..n - 1];
      NatOfHead(d, t[..n - 1]);
      var v: int, p := (d as int) - 0x30, Pow10(n - 1);
      assert 10 * (v * p) == v * (10 * p);
    }
  }

  /** A string with a digit that does not fit, or with something else in front, does not fit either. */
  lemma {:induction false} SuffixFits(digits: bytes, k: nat)
    requires k <= |digits| && AllDigits(digits)
    ensures NatOf(digits[k..]) <= NatOf(digits)
  {
    hide NatOf, Pow10;
    if k == 0 {
      assert digits[0..] == digits;
    } else {
      SuffixFits(digits, k - 1);
      assert digits[k - 1..] == [digits[k - 1]] + digits[k..];
      NatOfHead(digits[k - 1], digits[k..]);
      Multiples((digits[k - 1] as int) - 0x30, Pow10(|digits[k..]|));
    }
  }

  lemma Multiples(d: nat, p: nat)
    ensures d * p >= 0 && (d >= 1 ==> d * p >= p)
  {
    if d >= 1 {
      assert d * p == p + (d - 1) * p;
    }
  }

  lemma DoesNotFit(digits: bytes, k: nat)
    requires k < |digits| && !(IsDigit(digits[k]) && NatOf(digits[k..]) <= MAX_UINT16)
    ensures ReadUint16(digits).None?
  {
    hide NatOf;
    if AllDigits(digits) {
      SuffixFits(digits, k);
    }
  }

  /** The multiplier for the digit before a suffix of `k` digits, once multiplied by ten in 16 bits. */
  ghost predicate Scaled(k: nat, overflowed: bool, multiplier: nat) {
    if overflowed then Pow10(k) > MAX_UINT16 else multiplier == Pow10(k) && multiplier <= MAX_UINT16
  }

  lemma ScaleStep(k: nat, overflowed: bool, multiplier: nat)
    requires Scaled(k, overflowed, multiplier)
    ensures Scaled(k + 1, overflowed || MAX_UINT16 / 10 < multiplier, multiplier * 10 % 0x1_0000)
  {
  }

  /** The three checks hold exactly when the digit in front of the suffix makes the number too large; `p` is
      the power of ten of that digit. */
  lemma ChecksExact(dig: nat, p: nat, overflowed: bool, multiplier: nat, value: nat)
    requires 1 <= dig < 10 && value <= MAX_UINT16
    requires if overflowed then p > MAX_UINT16 else multiplier == p
    ensures dig * p + value > MAX_UINT16 <==>
      overflowed || MAX_UINT16 / dig < multiplier || MAX_UINT16 - multiplier * dig % 0x1_0000 < value
    ensures dig * p <= MAX_UINT16 ==> multiplier * dig % 0x1_0000 == dig * p
  {
    DivMeaning(MAX_UINT16, dig, multiplier);
    ModSmall(multiplier * dig);
    Multiples(dig, p);
    if !overflowed {
      assert multiplier * dig == dig * p;
    }
  }

  lemma ModSmall(x: nat)
    ensures x <= MAX_UINT16 ==> x % 0x1_0000 == x
  {
  }

  lemma DivMeaning(a: nat, d: nat, m: nat)
    requires 1 <= d < 10
    ensures a / d < m <==> m * d > a
  {
    assert d == 1 || d == 2 || d == 3 || d == 4 || d == 5 || d == 6 || d == 7 || d == 8 || d == 9;
  }

  /** `main_convert_iteration` on the character in front of a suffix of `k + 1` digits. */
  method ConvertIteration(c: byte, overflowed: bool, multiplier: nat, value: nat, ghost k: nat)
    returns (ok: bool, overflowed': bool, multiplier': nat, value': nat)
    requires Scaled(k, overflowed, multiplier) && value <= MAX_UINT16
    ensures Scaled(k + 1, overflowed', multiplier')
    ensures ok <==> IsDigit(c) && Weight(c, k + 1) + value <= MAX_UINT16
    ensures ok ==> value' == Weight(c, k + 1) + value
  {
    ScaleStep(k, overflowed, multiplier);
    overflowed' := overflowed || MAX_UINT16 / 10 < multiplier;
    multiplier' := multiplier * 10 % 0x1_0000;
    value' := value;
    var digit: int := c;
    var digValue := (digit - 0x30) % 0x1_0000;
    var newSubValue := multiplier' * digValue % 0x1_0000;
    if digit < 0x30 || digit >= 0x30 + 10 {
      return false, overflowed', multiplier', value';
    }
    assert digValue == digit - 0x30;
    ghost var p := Pow10(k + 1);
    assert if overflowed' then p > MAX_UINT16 else multiplier' == p;
    hide Pow10, Scaled;
    if digValue == 0 {
      assert newSubValue == 0 && digValue * p == 0;
      return true, overflowed', multiplier', value';
    }
    ChecksExact(digValue, p, overflowed', multiplier', value);
    if overflowed' || MAX_UINT16 / digValue < multiplier' || MAX_UINT16 - newSubValue < value {
      return false, overflowed', multiplier', value';
    }
    value' := (value + newSubValue) % 0x1_0000;
    ok := true;
  }

  /** `lcast_ret_unsigned::convert` in the classic locale, with `left` characters before the end pointer. */
  method Convert(digits: bytes) returns (ok: bool, value: nat)
    ensures ok == ReadUint16(digits).Some?
    ensures ok ==> value == ReadUint16(digits).value
  {
    hide Scaled, NatOf, Pow10, AllDigits, Weight, ReadUint16;
    var left: nat := |digits|;
    value := 0;
    if left == 0 || digits[left - 1] < 0x30 || digits[left - 1] >= 0x30 + 10 {
      NoLastDigit(digits);
      return false, value;
    }
    left := left - 1;
    value := digits[left] - 0x30;
    LastDigit(digits, left);
    var overflowed: bool, multiplier: nat := false, 1;
    while left > 0
      invariant left < |digits|
      invariant AllDigits(digits[left..]) && NatOf(digits[left..]) == value && value <= MAX_UINT16
      invariant Scaled(|digits| - left - 1, overflowed, multiplier)
    {
      ghost var k: nat := |digits| - left - 1;
      left := left - 1;
      SuffixStep(digits, left, k);
      ok, overflowed, multiplier, value := ConvertIteration(digits[left], overflowed, multiplier, value, k);
      if !ok {
        DoesNotFit(digits, left);
        return;
      }
    }
    Fits(digits);
    ok := true;
  }

  lemma Fits(digits: bytes)
    requires digits != [] && AllDigits(digits[0..]) && NatOf(digits[0..]) <= MAX_UINT16
    ensures ReadUint16(digits) == Some(NatOf(digits[0..]))
  {
    assert digits[0..] == digits;
  }

  lemma NoLastDigit(digits: bytes)
    requires digits != [] ==> digits[|digits| - 1] < 0x30 || digits[|digits| - 1] >= 0x30 + 10
    ensures ReadUint16(digits).None?
  {
  }

  lemma SuffixStep(digits: bytes, i: nat, k: nat)
    requires i < |digits| && AllDigits(digits[i + 1..]) && k + i + 2 == |digits|
    ensures IsDigit(digits[i]) ==> AllDigits(digits[i..])
    ensures NatOf(digits[i..]) == Weight(digits[i], k + 1) + NatOf(digits[i + 1..])
  {
    hide NatOf, Weight;
    assert digits[i..] == [digits[i]] + digits[i + 1..];
    NatOfHead(digits[i], digits[i + 1..]);
  }

  lemma LastDigit(digits: bytes, i: nat)
    requires i + 1 == |digits| && 0x30 <= digits[i] < 0x30 + 10
    ensures NatOf(digits[i..]) == (digits[i] as int) - 0x30 && AllDigits(digits[i..])
    ensures Scaled(0, false, 1)
  {
    assert digits[i..] == [digits[i]];
    NatOfOne(digits[i]);
    hide NatOf;
  }

  lemma NatOfOne(d: byte)
    ensures NatOf([d]) == (d as int) - 0x30
  {
    assert [d][..0] == [];
  }

  /** `shr_unsigned`: an optional sign, then digits. */
  method LexicalCastUint16(s: bytes) returns (ok: bool, value: nat)
    ensures ok == ReadPort(s).Some?
    ensures ok ==> value == ReadPort(s).value
  {
    if s == [] {
      return false, 0;
    }
    var hasMinus := s[0] == 0x2D;
    var digits := s;
    if hasMinus || s[0] == 0x2B {
      digits := s[1..];
    }
    ok, value := Convert(digits);
    if hasMinus {
      value := (0 - value) % 0x1_0000;
    }
  }

  /** A port is printed so that it is read back. */
  lemma ReadPrintedPort(port: nat)
    requires port <= MAX_UINT16
    ensures ReadPort(Decimal(port)) == Some(port)
  {
    NatOfDecimal(port);
    assert IsDigit(Decimal(port)[0]);
  }

  /** A sign may stand before a printed number, and a minus sign turns it into its complement. */
  lemma ReadSigned(n: nat)
    ensures ReadPort(Ascii("+") + Decimal(n)) == if n < 65536 then Some(n) else None
    ensures ReadPort(Ascii("-") + Decimal(n)) == if n == 0 then Some(0) else if n < 65536 then Some(65536 - n) else None
    ensures ReadPort(Decimal(n)) == if n < 65536 then Some(n) else None
  {
    NatOfDecimal(n);
    assert Ascii("+") == [0x2B] && Ascii("-") == [0x2D];
    assert (Ascii("+") + Decimal(n))[1..] == Decimal(n) && (Ascii("-") + Decimal(n))[1..] == Decimal(n);
    assert IsDigit(Decimal(n)[0]);
  }

  /** Nothing but digits may follow the sign, and at least one has to. */
  lemma ReadRefused(s: bytes)
    requires s != [] ==>
      var digits := if s[0] in Ascii("+-") then s[1..] else s;
      digits == [] || exists k | 0 <= k < |digits| :: digits[k] !in Ascii("0123456789")
    ensures ReadPort(s) == None
  {
    assert Ascii("+-") == [0x2B, 0x2D];
    forall c: byte | IsDigit(c) ensures c in Ascii("0123456789") {
      assert Ascii("0123456789")[c - 0x30] == 0x30 + (c - 0x30);
    }
  }
}
