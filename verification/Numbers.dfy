/** Integers in decimal: std::to_string, and reading it back. */
module Numbers {
  import opened Bytes
  import opened Wrappers

  function Decimal(n: int): (r: Bytes)
    ensures r != []
    decreases if n < 0 then 1 - n else n
  {
    if n < 0 then [0x2D] + Decimal(-n)
    else if n < 10 then [0x30 + n]
    else Decimal(n / 10) + [0x30 + n % 10]
  }

  lemma {:induction false} DecimalDigits(n: nat)
    ensures forall c | c in Decimal(n) :: IsDigit(c)
  {
    if n >= 10 {
      DecimalDigits(n / 10);
      assert Decimal(n) == Decimal(n / 10) + [0x30 + n % 10];
      assert IsDigit(0x30 + n % 10);
    }
  }

  lemma OnlyTwoIsTwo(n: nat)
    ensures Decimal(n) == [0x32] <==> n == 2
  {
    if n >= 10 { assert |Decimal(n)| >= 2; }
  }

  /** Digits are read from left to right. */
  function ReadDigits(n: nat, s: Bytes): (r: (nat, Bytes))
    ensures |r.1| <= |s|
    decreases s
  {
    if s != [] && IsDigit(s[0]) then ReadDigits(10 * n + (s[0] - 0x30), s[1..]) else (n, s)
  }

  /** An optional minus sign and at least one digit. */
  function ReadInt(s: Bytes): (r: Option<(int, Bytes)>)
    ensures r.Some? ==> |r.value.1| < |s|
  {
    if s != [] && IsDigit(s[0]) then
      var d := ReadDigits(s[0] - 0x30, s[1..]);
      Some((d.0, d.1))
    else if |s| >= 2 && s[0] == 0x2D && IsDigit(s[1]) then
      var d := ReadDigits(s[1] - 0x30, s[2..]);
      var v: int := d.0;
      Some((-v, d.1))
    else None
  }

  lemma {:induction false} DigitsReadBack(n: nat, rest: Bytes)
    ensures ReadDigits(0, Decimal(n) + rest) == ReadDigits(n, rest) && IsDigit(Decimal(n)[0])
  {
    if n < 10 {
      assert (Decimal(n) + rest)[1..] == rest;
    } else {
      var d: Bytes := [0x30 + n % 10];
      assert Decimal(n) + rest == Decimal(n / 10) + (d + rest);
      DigitsReadBack(n / 10, d + rest);
      assert (d + rest)[1..] == rest;
    }
  }

  /** to_string is read back, whatever other than a digit follows. */
  lemma IntReadsBack(n: int, rest: Bytes)
    requires rest == [] || !IsDigit(rest[0])
    ensures ReadInt(Decimal(n) + rest) == Some((n, rest))
  {
    var digits := Decimal(if n < 0 then -n else n) + rest;
    DigitsReadBack(if n < 0 then -n else n, rest);
    assert ReadDigits(0, digits) == ReadDigits(digits[0] - 0x30, digits[1..]);
    if n < 0 {
      var s := Decimal(n) + rest;
      assert s[1] == digits[0] && s[2..] == digits[1..] && !IsDigit(0x2D);
    }
  }
}
