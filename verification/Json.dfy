/**
 The log records of the auto-moderator: the two escapers (automoderator.cpp and
 logger.cpp), the decision record, and a reader for what they write, after
 sections 4 to 7 of RFC 8259.
 */
module Json {
  import opened Bytes
  import opened Wrappers
  import opened Numbers
  import Utf8

  const QUOTE: Byte := 0x22
  const BACKSLASH: Byte := 0x5C

  // ---------------------------------------------------------------- escaping

  /** The letter of a two-character escape. */
  function Letter(c: Byte): Option<Byte> {
    if c == QUOTE || c == BACKSLASH then Some(c)
    else if c == 0x0A then Some(0x6E)
    else if c == 0x0D then Some(0x72)
    else if c == 0x09 then Some(0x74)
    else None
  }

  function HexDigit(n: nat): Byte
    requires n < 16
  {
    if n < 10 then 0x30 + n else 0x61 + n - 10
  }

  function EscapeByte(c: Byte): (r: Bytes)
    ensures r != []
  {
    if Letter(c).Some? then [BACKSLASH, Letter(c).value]
    else if c < 0x20 then [BACKSLASH, 0x75, 0x30, 0x30, HexDigit(c / 16), HexDigit(c % 16)]
    else [c]
  }

  function Escape(s: Bytes): Bytes {
    if s == [] then [] else EscapeByte(s[0]) + Escape(s[1..])
  }

  function Quoted(s: Bytes): Bytes {
    [QUOTE] + Escape(s) + [QUOTE]
  }

  /** kJsonEscapes */
  const TABLE: seq<Option<Bytes>> :=
    seq(256, i requires 0 <= i < 256 =>
      if i == 0x22 then Some([BACKSLASH, QUOTE])
      else if i == 0x5C then Some([BACKSLASH, BACKSLASH])
      else if i == 0x0A then Some([BACKSLASH, 0x6E])
      else if i == 0x0D then Some([BACKSLASH, 0x72])
      else if i == 0x09 then Some([BACKSLASH, 0x74])
      else None)

  /** append_json_escaped, by table. */
  method AppendJsonEscaped(out: Bytes, c: Byte) returns (r: Bytes)
    ensures r == out + EscapeByte(c)
  {
    if TABLE[c].Some? {
      return out + TABLE[c].value;
    }
    if c >= 0x20 {
      return out + [c];
    }
    return out + [BACKSLASH, 0x75, 0x30, 0x30, HexDigit(c / 16), HexDigit(c % 16)];
  }

  lemma EscapeStep(out: Bytes, s: Bytes, k: nat)
    requires k < |s|
    ensures out + Escape(s[k..]) == out + EscapeByte(s[k]) + Escape(s[k + 1..])
  {
    assert s[k..][1..] == s[k + 1..];
    Append3(out, EscapeByte(s[k]), Escape(s[k + 1..]));
  }

  /** json_escape */
  method JsonEscape(s: Bytes) returns (out: Bytes)
    ensures out == Quoted(s)
  {
    out := [QUOTE];
    assert s[0..] == s;
    for k := 0 to |s|
      invariant out + Escape(s[k..]) == [QUOTE] + Escape(s)
    {
      EscapeStep(out, s, k);
      out := AppendJsonEscaped(out, s[k]);
    }
    assert out + [] == out;
    out := out + [QUOTE];
  }

  /** appendEscaped of the logger, by cases; it writes what json_escape writes. */
  method AppendEscaped(input: Bytes, dest: Bytes) returns (out: Bytes)
    ensures out == dest + Quoted(input)
  {
    out := dest + [QUOTE];
    assert input[0..] == input;
    for i := 0 to |input|
      invariant out + Escape(input[i..]) == dest + [QUOTE] + Escape(input)
    {
      EscapeStep(out, input, i);
      var c := input[i];
      if c == 0x22 {
        out := out + [BACKSLASH, QUOTE];
      } else if c == 0x5C {
        out := out + [BACKSLASH, BACKSLASH];
      } else if c == 0x0A {
        out := out + [BACKSLASH, 0x6E];
      } else if c == 0x0D {
        out := out + [BACKSLASH, 0x72];
      } else if c == 0x09 {
        out := out + [BACKSLASH, 0x74];
      } else if c < 0x20 {
        out := out + [BACKSLASH, 0x75, 0x30, 0x30, HexDigit(c / 16), HexDigit(c % 16)];
      } else {
        out := out + [c];
      }
    }
    assert out + [] == out;
    out := out + [QUOTE];
    assert dest + [QUOTE] + Escape(input) + [QUOTE] == dest + Quoted(input);
  }

  // ---------------------------------------------------------------- reading

  function HexValue(b: Byte): Option<nat> {
    if IsDigit(b) then Some(b - 0x30)
    else if 0x61 <= b <= 0x66 then Some(b - 0x61 + 10)
    else if 0x41 <= b <= 0x46 then Some(b - 0x41 + 10)
    else None
  }

  function Power16(n: nat): nat
    requires n <= 4
  {
    match n
    case 0 => 1
    case 1 => 16
    case 2 => 256
    case 3 => 4096
    case 4 => 65536
  }

  /** The value of the first n hexadecimal digits. */
  function ReadHex(s: Bytes, n: nat): (r: Option<nat>)
    requires n <= 4
    ensures r.Some? ==> n <= |s|
    ensures r.Some? ==> r.value < Power16(n)
  {
    if n == 0 then Some(0)
    else
      var front := ReadHex(s, n - 1);
      if front.None? || |s| < n || HexValue(s[n - 1]).None? then None
      else Some(16 * front.value + HexValue(s[n - 1]).value)
  }

  /** What an escape stands for, and its length behind the backslash. */
  function ReadEscape(s: Bytes): (r: Option<(Bytes, nat)>)
    ensures r.Some? ==> 1 <= r.value.1 <= |s|
  {
    if s == [] then None
    else match s[0]
      case 0x22 => Some(([0x22], 1))
      case 0x5C => Some(([0x5C], 1))
      case 0x2F => Some(([0x2F], 1))
      case 0x62 => Some(([0x08], 1))
      case 0x66 => Some(([0x0C], 1))
      case 0x6E => Some(([0x0A], 1))
      case 0x72 => Some(([0x0D], 1))
      case 0x74 => Some(([0x09], 1))
      case 0x75 =>
        var v := ReadHex(s[1..], 4);
        if v.None? || !Utf8.IsScalar(v.value) then None else Some((Utf8.Encode(v.value), 5))
      case _ => None
  }

  /** The characters of a string up to its closing quote, and what follows it. */
  function ReadChars(s: Bytes): (r: Option<(Bytes, Bytes)>)
    ensures r.Some? ==> |r.value.1| < |s|
    decreases |s|
  {
    if s == [] || s[0] < 0x20 then None
    else if s[0] == QUOTE then Some(([], s[1..]))
    else if s[0] == BACKSLASH then
      var e := ReadEscape(s[1..]);
      if e.None? then None
      else
        var r := ReadChars(s[1 + e.value.1..]);
        if r.None? then None else Some((e.value.0 + r.value.0, r.value.1))
    else
      var r := ReadChars(s[1..]);
      if r.None? then None else Some(([s[0]] + r.value.0, r.value.1))
  }

  function ReadString(s: Bytes): (r: Option<(Bytes, Bytes)>)
    ensures r.Some? ==> |r.value.1| < |s|
  {
    if s != [] && s[0] == QUOTE then ReadChars(s[1..]) else None
  }

  lemma HexReadsBack(c: Byte, rest: Bytes)
    requires c < 0x20
    ensures ReadHex([0x30, 0x30, HexDigit(c / 16), HexDigit(c % 16)] + rest, 4) == Some(c)
  {
    var s := [0x30, 0x30, HexDigit(c / 16), HexDigit(c % 16)] + rest;
    assert ReadHex(s, 1) == Some(0);
    assert ReadHex(s, 2) == Some(0);
    assert ReadHex(s, 3) == Some(c / 16);
  }

  /** One escaped byte at the head of a string is read back. */
  lemma ByteReadsBack(c: Byte, rest: Bytes)
    ensures ReadChars(EscapeByte(c) + rest)
         == if ReadChars(rest).None? then None else Some(([c] + ReadChars(rest).value.0, ReadChars(rest).value.1))
  {
    if Letter(c).Some? {
      var tail := [Letter(c).value] + rest;
      assert EscapeByte(c) + rest == [BACKSLASH] + tail;
      Head(Letter(c).value, rest);
      EscapeFrom(tail, [c], 1, rest);
    } else if c < 0x20 {
      var hex := [0x30, 0x30, HexDigit(c / 16), HexDigit(c % 16)];
      var tail := [0x75] + (hex + rest);
      assert EscapeByte(c) + rest == [BACKSLASH] + tail;
      Head(0x75, hex + rest);
      HexReadsBack(c, rest);
      assert tail[5..] == rest;
      EscapeFrom(tail, [c], 5, rest);
    } else {
      Head(c, rest);
    }
  }

  /** The turn of the reader for an escape. */
  lemma EscapeFrom(tail: Bytes, what: Bytes, n: nat, rest: Bytes)
    requires ReadEscape(tail) == Some((what, n)) && tail[n..] == rest
    ensures ReadChars([BACKSLASH] + tail)
         == if ReadChars(rest).None? then None else Some((what + ReadChars(rest).value.0, ReadChars(rest).value.1))
  {
    Head(BACKSLASH, tail);
    assert ([BACKSLASH] + tail)[1 + n..] == tail[n..];
  }

  /** Reading undoes escaping, for every byte string and whatever follows the closing quote. */
  lemma {:induction false} EscapedReadsBack(s: Bytes, rest: Bytes)
    ensures ReadChars(Escape(s) + ([QUOTE] + rest)) == Some((s, rest))
  {
    if s == [] {
      assert Escape(s) + ([QUOTE] + rest) == [QUOTE] + rest;
      assert ([QUOTE] + rest)[1..] == rest;
    } else {
      EscapedReadsBack(s[1..], rest);
      Append3(EscapeByte(s[0]), Escape(s[1..]), [QUOTE] + rest);
      ByteReadsBack(s[0], Escape(s[1..]) + ([QUOTE] + rest));
      assert s == [s[0]] + s[1..];
    }
  }

  lemma QuotedReadsBack(s: Bytes, rest: Bytes)
    ensures ReadString(Quoted(s) + rest) == Some((s, rest))
  {
    assert (Quoted(s) + rest)[1..] == Escape(s) + ([QUOTE] + rest);
    EscapedReadsBack(s, rest);
  }

  /** No byte below 0x20 is ever written. */
  lemma {:induction false} EscapedIsPrintable(s: Bytes)
    ensures forall b | b in Escape(s) :: b >= 0x20
  {
    if s != [] { EscapedIsPrintable(s[1..]); }
  }

  // ---------------------------------------------------------------- well-formed text

  lemma {:induction false} EscapeJoin(a: Bytes, b: Bytes)
    ensures Escape(a + b) == Escape(a) + Escape(b)
  {
    if a == [] {
      assert a + b == b && [] + Escape(b) == Escape(b);
    } else {
      assert (a + b)[1..] == a[1..] + b && (a + b)[0] == a[0];
      EscapeJoin(a[1..], b);
      Append3(EscapeByte(a[0]), Escape(a[1..]), Escape(b));
    }
  }

  /** Bytes of longer characters are copied. */
  lemma {:induction false} EscapeCopies(a: Bytes)
    requires forall b | b in a :: b >= 0x80
    ensures Escape(a) == a
  {
    if a != [] {
      assert a[0] in a && forall b | b in a[1..] :: b in a;
      EscapeCopies(a[1..]);
    }
  }

  lemma EscapedPointIsWellFormed(cp: nat)
    requires Utf8.IsScalar(cp)
    ensures Utf8.WellFormed(Escape(Utf8.Encode(cp)))
  {
    if cp < 0x80 {
      assert Escape([cp]) == EscapeByte(cp) + Escape([cp][1..]);
      Utf8.AsciiIsWellFormed(Escape([cp]));
    } else {
      EscapeCopies(Utf8.Encode(cp));
      Utf8.PointIsWellFormed(cp);
    }
  }

  lemma {:induction false} EscapedPointsAreWellFormed(cps: seq<nat>)
    requires Utf8.Scalars(cps)
    ensures Utf8.WellFormed(Escape(Utf8.EncodeAll(cps)))
  {
    if cps == [] {
      Utf8.AsciiIsWellFormed([]);
    } else {
      EscapedPointsAreWellFormed(cps[1..]);
      EscapedPointIsWellFormed(cps[0]);
      EscapeJoin(Utf8.Encode(cps[0]), Utf8.EncodeAll(cps[1..]));
      Utf8.WellFormedJoin(Escape(Utf8.Encode(cps[0])), Escape(Utf8.EncodeAll(cps[1..])));
    }
  }

  /** Well-formed text is quoted as well-formed text, so any reader of section 7 can take it. */
  lemma QuotedIsWellFormed(s: Bytes)
    requires Utf8.WellFormed(s)
    ensures Utf8.WellFormed(Quoted(s))
  {
    var cps :| Utf8.Scalars(cps) && s == Utf8.EncodeAll(cps);
    EscapedPointsAreWellFormed(cps);
    Utf8.AsciiIsWellFormed([QUOTE]);
    Utf8.WellFormedJoin([QUOTE], Escape(s));
    Utf8.WellFormedJoin([QUOTE] + Escape(s), [QUOTE]);
  }
}
