/**
 The UTF-8 codec of core/src/utils/helpers.cpp.  The decoder is more lenient than
 RFC 3629: it accepts overlong forms, surrogates and values up to 0x1FFFFF, and
 a lead byte too close to the end makes it drop the rest of the text.
 */
module Utf8 {
  import opened Bytes
  import opened Wrappers

  const MAX_POINT := 0x1FFFFF

  /** What the decoder reads at the head of a text: a code point or an error, and the bytes it uses up. */
  datatype Point = Point(cp: Option<nat>, size: nat)

  /** The length a lead byte announces; 0 for a byte that cannot lead. */
  function LeadLength(b: Byte): nat {
    if b < 0x80 then 1
    else if 0xC0 <= b < 0xE0 then 2
    else if 0xE0 <= b < 0xF0 then 3
    else if 0xF0 <= b < 0xF8 then 4
    else 0
  }

  /** The payload bits of a lead byte. */
  function LeadBits(b: Byte): nat {
    match LeadLength(b)
    case 2 => b % 32
    case 3 => b % 16
    case 4 => b % 8
    case _ => b
  }

  /** Reads the continuation bytes j, j + 1, .., len - 1. */
  function Tail(s: Bytes, cp: nat, j: nat, len: nat): (p: Point)
    requires 1 <= j <= len <= |s|
    ensures 1 <= p.size <= len
    decreases len - j
  {
    if j == len then Point(Some(cp), len)
    else if !IsCont(s[j]) then Point(None, j)
    else Tail(s, cp * 64 + s[j] % 64, j + 1, len)
  }

  /** The decoder on the head of s; it always makes progress. */
  function First(s: Bytes): (p: Point)
    requires s != []
    ensures 1 <= p.size <= |s|
  {
    var len := LeadLength(s[0]);
    if len == 0 then Point(None, 1)
    else if len > |s| then Point(None, |s|)
    else Tail(s, LeadBits(s[0]), 1, len)
  }

  /** decodeUtf8Point: decodes at index i, returns the index after the bytes used up. */
  method DecodePoint(s: Bytes, i: nat) returns (cp: Option<nat>, next: nat)
    requires i < |s|
    ensures i < next <= |s| && Point(cp, next - i) == First(s[i..])
  {
    var len := LeadLength(s[i]);
    if len == 1 {
      return Some(s[i]), i + 1;
    }
    if len == 0 {
      return None, i + 1;
    }
    if i + len > |s| {
      return None, |s|;
    }
    var value: nat := LeadBits(s[i]);
    for j := 1 to len
      invariant Tail(s[i..], value, j, len) == First(s[i..])
    {
      if !IsCont(s[i + j]) {
        return None, i + j;
      }
      value := value * 64 + s[i + j] % 64;
    }
    return Some(value), i + len;
  }

  /** encodeUtf8Point: the bytes it appends. */
  function Encode(cp: nat): (e: Bytes)
    requires cp <= MAX_POINT
    ensures e != []
  {
    if cp < 0x80 then [cp]
    else if cp < 0x800 then [0xC0 + cp / 64, 0x80 + cp % 64]
    else if cp < 0x10000 then [0xE0 + cp / 4096, 0x80 + cp / 64 % 64, 0x80 + cp % 64]
    else [0xF0 + cp / 262144, 0x80 + cp / 4096 % 64, 0x80 + cp / 64 % 64, 0x80 + cp % 64]
  }

  /** Code points that can be encoded. */
  ghost predicate Encodable(cps: seq<nat>) {
    forall i | 0 <= i < |cps| :: cps[i] <= MAX_POINT
  }

  function EncodeAll(cps: seq<nat>): (s: Bytes)
    requires Encodable(cps)
  {
    if cps == [] then [] else Encode(cps[0]) + EncodeAll(cps[1..])
  }

  /** Every reading of the decoder over a whole text, errors included. */
  function Decode(s: Bytes): seq<Option<nat>> {
    if s == [] then [] else [First(s).cp] + Decode(s[First(s).size..])
  }

  /** The code points read, errors dropped. */
  function Points(s: Bytes): seq<nat> {
    if s == [] then []
    else
      var p := First(s);
      (if p.cp.Some? then [p.cp.value] else []) + Points(s[p.size..])
  }

  /** s is what the encoder makes of its own code points. */
  ghost predicate Canonical(s: Bytes) {
    exists cps :: Encodable(cps) && s == EncodeAll(cps)
  }

  /** Section 3 of RFC 3629: code points are at most U+10FFFF and no surrogates. */
  predicate IsScalar(cp: nat) {
    cp <= 0x10FFFF && !(0xD800 <= cp <= 0xDFFF)
  }

  ghost predicate Scalars(cps: seq<nat>)
    ensures Scalars(cps) ==> Encodable(cps)
  {
    forall i | 0 <= i < |cps| :: IsScalar(cps[i])
  }

  /** Well-formed UTF-8 of RFC 3629. */
  ghost predicate WellFormed(s: Bytes) {
    exists cps :: Scalars(cps) && s == EncodeAll(cps)
  }

  // ---------------------------------------------------------------- decode after encode

  lemma DigitJoins(x: nat)
    ensures x / 64 * 64 + (0x80 + x % 64) % 64 == x
  {}

  /** The payload of the bytes of Encode(cp), put together again. */
  lemma PayloadJoins(cp: nat)
    requires cp <= MAX_POINT
    ensures cp / 64 * 64 + (0x80 + cp % 64) % 64 == cp
    ensures cp / 4096 * 64 + (0x80 + cp / 64 % 64) % 64 == cp / 64
    ensures cp / 262144 * 64 + (0x80 + cp / 4096 % 64) % 64 == cp / 4096
  {
    DigitJoins(cp);
    DigitJoins(cp / 64);
    DigitJoins(cp / 4096);
    assert cp / 4096 == cp / 64 / 64 && cp / 262144 == cp / 4096 / 64;
  }

  lemma LeadOfEncode(cp: nat)
    requires 0x80 <= cp <= MAX_POINT
    ensures LeadLength(Encode(cp)[0]) == |Encode(cp)|
    ensures LeadBits(Encode(cp)[0]) == if cp < 0x800 then cp / 64 else if cp < 0x10000 then cp / 4096 else cp / 262144
  {}

  /** decode(encode(cp)) == cp with any bytes following, for every code point the decoder can produce. */
  lemma DecodeEncode(cp: nat, rest: Bytes)
    requires cp <= MAX_POINT
    ensures First(Encode(cp) + rest) == Point(Some(cp), |Encode(cp)|)
  {
    var e := Encode(cp);
    var s := e + rest;
    assert s[0] == e[0] && forall j | 0 <= j < |e| :: s[j] == e[j];
    if cp >= 0x80 {
      LeadOfEncode(cp);
      PayloadJoins(cp);
      EncodeTail(cp, s, |e|);
    }
  }

  /** Reading the continuation bytes of Encode(cp) at the head of s. */
  lemma EncodeTail(cp: nat, s: Bytes, len: nat)
    requires 0x80 <= cp <= MAX_POINT && len == |Encode(cp)| && Encode(cp) <= s
    ensures Tail(s, if len == 2 then cp / 64 else if len == 3 then cp / 4096 else cp / 262144, 1, len)
         == Point(Some(cp), len)
  {
    PayloadJoins(cp);
    assert forall j | 0 <= j < len :: s[j] == Encode(cp)[j];
    assert IsCont(s[len - 1]) && s[len - 1] == 0x80 + cp % 64;
    assert Tail(s, cp / 64, len - 1, len) == Tail(s, cp, len, len);
    if len >= 3 {
      assert IsCont(s[len - 2]) && s[len - 2] == 0x80 + cp / 64 % 64;
      assert Tail(s, cp / 4096, len - 2, len) == Tail(s, cp / 64, len - 1, len);
    }
    if len == 4 {
      assert IsCont(s[1]) && s[1] == 0x80 + cp / 4096 % 64;
    }
  }

  /** A code point read is below 2^21, fits the bytes it came from, and no fewer bytes encode it. */
  lemma FirstBounds(s: Bytes)
    requires s != [] && First(s).cp.Some?
    ensures First(s).cp.value <= MAX_POINT
    ensures |Encode(First(s).cp.value)| <= First(s).size
  {
    var len := LeadLength(s[0]);
    if len == 3 {
      assert First(s) == Tail(s, LeadBits(s[0]) * 64 + s[1] % 64, 2, 3);
    } else if len == 4 {
      assert First(s) == Tail(s, LeadBits(s[0]) * 64 + s[1] % 64, 2, 4);
      assert First(s) == Tail(s, (LeadBits(s[0]) * 64 + s[1] % 64) * 64 + s[2] % 64, 3, 4);
    }
  }

  lemma {:induction false} PointsEncodable(s: Bytes)
    ensures Encodable(Points(s))
    decreases |s|
  {
    if s != [] {
      PointsEncodable(s[First(s).size..]);
      if First(s).cp.Some? { FirstBounds(s); }
    }
  }

  /** Encoded text decodes without errors to exactly its code points. */
  lemma {:induction false} DecodeEncodeAll(cps: seq<nat>)
    requires Encodable(cps)
    ensures Decode(EncodeAll(cps)) == seq(|cps|, i requires 0 <= i < |cps| => Some(cps[i]))
    ensures Points(EncodeAll(cps)) == cps
  {
    if cps != [] {
      var e, rest := Encode(cps[0]), EncodeAll(cps[1..]);
      DecodeEncode(cps[0], rest);
      assert (e + rest)[|e|..] == rest;
      DecodeEncodeAll(cps[1..]);
    }
  }

  lemma {:induction false} EncodeAllAppend(a: seq<nat>, b: seq<nat>)
    requires Encodable(a) && Encodable(b)
    ensures Encodable(a + b) && EncodeAll(a + b) == EncodeAll(a) + EncodeAll(b)
  {
    if a == [] {
      assert a + b == b;
    } else {
      assert (a + b)[1..] == a[1..] + b;
      EncodeAllAppend(a[1..], b);
    }
  }

  /** Equal bytes at the head mean equal code points at the head. */
  lemma HeadsAgree(p: nat, a: Bytes, q: nat, b: Bytes)
    requires p <= MAX_POINT && q <= MAX_POINT && Encode(p) + a == Encode(q) + b
    ensures p == q && a == b
  {
    DecodeEncode(p, a);
    DecodeEncode(q, b);
    assert a == (Encode(p) + a)[|Encode(p)|..];
    assert b == (Encode(q) + b)[|Encode(q)|..];
  }

  /** A code point text whose bytes begin another text begins it code point by code point. */
  lemma {:induction false} PrefixDecodes(p: seq<nat>, cps: seq<nat>)
    requires Encodable(p) && Encodable(cps) && EncodeAll(p) <= EncodeAll(cps)
    ensures p <= cps
  {
    if p != [] {
      var rest := EncodeAll(cps)[|EncodeAll(p)|..];
      assert EncodeAll(cps) == EncodeAll(p) + rest;
      Append3(Encode(p[0]), EncodeAll(p[1..]), rest);
      assert cps != [];
      HeadsAgree(p[0], EncodeAll(p[1..]) + rest, cps[0], EncodeAll(cps[1..]));
      PrefixDecodes(p[1..], cps[1..]);
      assert p == [p[0]] + p[1..] && cps == [cps[0]] + cps[1..];
    }
  }

  /** Canonical text is its own re-encoding, so its code points are unique. */
  lemma CanonicalRoundTrip(s: Bytes)
    requires Canonical(s)
    ensures Encodable(Points(s)) && EncodeAll(Points(s)) == s
  {
    var cps :| Encodable(cps) && s == EncodeAll(cps);
    DecodeEncodeAll(cps);
  }

  /** Well-formed text is canonical text without surrogates and without values above U+10FFFF. */
  lemma WellFormedIffScalar(s: Bytes)
    ensures WellFormed(s) <==> Canonical(s) && Scalars(Points(s))
  {
    if WellFormed(s) {
      var cps :| Scalars(cps) && s == EncodeAll(cps);
      DecodeEncodeAll(cps);
    }
    if Canonical(s) { CanonicalRoundTrip(s); }
  }

  lemma WellFormedJoin(a: Bytes, b: Bytes)
    requires WellFormed(a) && WellFormed(b)
    ensures WellFormed(a + b)
  {
    var p :| Scalars(p) && a == EncodeAll(p);
    var q :| Scalars(q) && b == EncodeAll(q);
    EncodeAllAppend(p, q);
    assert Scalars(p + q);
  }

  lemma {:induction false} AsciiIsWellFormed(s: Bytes)
    requires forall b | b in s :: b < 0x80
    ensures WellFormed(s)
  {
    if s == [] {
      assert EncodeAll([]) == [];
    } else {
      assert s[0] in s && forall b | b in s[1..] :: b in s;
      AsciiIsWellFormed(s[1..]);
      PointIsWellFormed(s[0]);
      assert Encode(s[0]) == [s[0]] && s == [s[0]] + s[1..];
      WellFormedJoin([s[0]], s[1..]);
    }
  }

  lemma PointIsWellFormed(cp: nat)
    requires IsScalar(cp)
    ensures WellFormed(Encode(cp))
  {
    assert [cp][1..] == [] && EncodeAll([cp]) == Encode(cp) + [];
    assert Encode(cp) + [] == Encode(cp) && Scalars([cp]);
  }

  // ---------------------------------------------------------------- boundaries

  /** n is a character boundary of the encoded text: the first k code points take n bytes. */
  ghost predicate IsBoundary(cps: seq<nat>, n: nat)
    requires Encodable(cps)
  {
    exists k :: 0 <= k <= |cps| && |EncodeAll(cps[..k])| == n
  }

  lemma EncodeShape(cp: nat)
    requires cp <= MAX_POINT
    ensures !IsCont(Encode(cp)[0])
    ensures forall i | 1 <= i < |Encode(cp)| :: IsCont(Encode(cp)[i])
  {}

  lemma PrefixLength(cps: seq<nat>, k: nat)
    requires Encodable(cps) && 1 <= k <= |cps|
    ensures |EncodeAll(cps[..k])| == |Encode(cps[0])| + |EncodeAll(cps[1..][..k - 1])|
  {
    assert cps[..k][1..] == cps[1..][..k - 1];
  }

  /** Past the first character, boundaries are those of the remaining text. */
  lemma BoundaryShifts(cps: seq<nat>, n: nat)
    requires Encodable(cps) && cps != []
    ensures 0 < n < |Encode(cps[0])| ==> !IsBoundary(cps, n)
    ensures n >= |Encode(cps[0])| ==> (IsBoundary(cps, n) <==> IsBoundary(cps[1..], n - |Encode(cps[0])|))
  {
    forall k | 1 <= k <= |cps|
      ensures |EncodeAll(cps[..k])| == |Encode(cps[0])| + |EncodeAll(cps[1..][..k - 1])|
    {
      PrefixLength(cps, k);
    }
    assert |EncodeAll(cps[..0])| == 0;
    var m := n - |Encode(cps[0])|;
    if m >= 0 && IsBoundary(cps[1..], m) {
      var k :| 0 <= k <= |cps[1..]| && |EncodeAll(cps[1..][..k])| == m;
      assert |EncodeAll(cps[..k + 1])| == n;
    }
  }

  /** Inside an encoded text, the bytes that are not continuation bytes are exactly the character starts. */
  lemma {:induction false} BoundaryIsNotCont(cps: seq<nat>, n: nat)
    requires Encodable(cps) && n < |EncodeAll(cps)|
    ensures IsBoundary(cps, n) <==> !IsCont(EncodeAll(cps)[n])
  {
    var e := Encode(cps[0]);
    EncodeShape(cps[0]);
    BoundaryShifts(cps, n);
    if n == 0 {
      assert |EncodeAll(cps[..0])| == 0;
    } else if n >= |e| {
      BoundaryIsNotCont(cps[1..], n - |e|);
    }
  }

  /** At a boundary the text splits into two encoded texts. */
  lemma SplitAtBoundary(cps: seq<nat>, k: nat)
    requires Encodable(cps) && k <= |cps|
    ensures EncodeAll(cps) == EncodeAll(cps[..k]) + EncodeAll(cps[k..])
  {
    assert cps == cps[..k] + cps[k..];
    EncodeAllAppend(cps[..k], cps[k..]);
  }

  // ---------------------------------------------------------------- the grammar of section 4 of RFC 3629

  /** UTF8-char of the grammar: the byte sequences it allows. */
  predicate IsGrammarChar(b: Bytes) {
    match |b|
    case 1 => b[0] <= 0x7F
    case 2 => 0xC2 <= b[0] <= 0xDF && IsCont(b[1])
    case 3 =>
      && IsCont(b[2])
      && (|| (b[0] == 0xE0 && 0xA0 <= b[1] <= 0xBF)
          || (0xE1 <= b[0] <= 0xEC && IsCont(b[1]))
          || (b[0] == 0xED && 0x80 <= b[1] <= 0x9F)
          || (0xEE <= b[0] <= 0xEF && IsCont(b[1])))
    case 4 =>
      && IsCont(b[2]) && IsCont(b[3])
      && (|| (b[0] == 0xF0 && 0x90 <= b[1] <= 0xBF)
          || (0xF1 <= b[0] <= 0xF3 && IsCont(b[1]))
          || (b[0] == 0xF4 && 0x80 <= b[1] <= 0x8F))
    case _ => false
  }

  /** UTF8-octets of the grammar: the characters, in order. */
  ghost predicate IsGrammarText(s: Bytes, chars: seq<Bytes>)
    decreases chars
  {
    if chars == [] then s == []
    else IsGrammarChar(chars[0]) && chars[0] <= s && IsGrammarText(s[|chars[0]|..], chars[1..])
  }

  lemma EncodeIsGrammarChar(cp: nat)
    requires IsScalar(cp)
    ensures IsGrammarChar(Encode(cp))
  {
    if 0x800 <= cp < 0x10000 { EncodeIsTriple(cp); }
    if cp >= 0x10000 { EncodeIsQuadruple(cp); }
  }

  lemma EncodeIsTriple(cp: nat)
    requires IsScalar(cp) && 0x800 <= cp < 0x10000
    ensures IsGrammarChar(Encode(cp))
  {
    var lead, second := cp / 4096, cp / 64 % 64;
    assert cp / 64 == 64 * lead + second && lead <= 15;
    assert lead == 0 ==> second >= 32;
    assert lead == 13 ==> second < 32;
  }

  lemma EncodeIsQuadruple(cp: nat)
    requires IsScalar(cp) && cp >= 0x10000
    ensures IsGrammarChar(Encode(cp))
  {
    var lead, second := cp / 262144, cp / 4096 % 64;
    assert cp / 4096 == 64 * lead + second && lead <= 4;
    assert lead == 0 ==> second >= 16;
    assert lead == 4 ==> second < 16;
  }

  /** Base-64 digits are recovered by division. */
  lemma Digits(a: nat, b: nat, c: nat, d: nat)
    requires b < 64 && c < 64 && d < 64
    ensures var cp := ((a * 64 + b) * 64 + c) * 64 + d;
      && cp / 262144 == a && cp / 4096 == a * 64 + b && cp / 64 == (a * 64 + b) * 64 + c
      && cp / 4096 % 64 == b && cp / 64 % 64 == c && cp % 64 == d
  {
    var x := a * 64 + b;
    var y := x * 64 + c;
    var cp := y * 64 + d;
    assert cp / 64 == y && y / 64 == x && x / 64 == a;
    assert cp / 4096 == cp / 64 / 64 && cp / 262144 == cp / 4096 / 64;
  }

  /** The shape the decoder accepts: a lead byte and as many continuation bytes as it announces. */
  predicate IsLenientChar(b: Bytes) {
    b != [] && LeadLength(b[0]) == |b| && forall j | 1 <= j < |b| :: IsCont(b[j])
  }

  /** The value of a two, three or four byte character, digit by digit. */
  function CharValue(b: Bytes): nat
    requires 2 <= |b| <= 4
  {
    var lead: nat, second: nat := b[0], b[1] % 64;
    if |b| == 2 then lead % 32 * 64 + second
    else if |b| == 3 then (lead % 16 * 64 + second) * 64 + b[2] % 64
    else ((lead % 8 * 64 + second) * 64 + b[2] % 64) * 64 + b[3] % 64
  }

  lemma LenientCharValue(b: Bytes, rest: Bytes)
    requires IsLenientChar(b) && |b| >= 2
    ensures First(b + rest) == Point(Some(CharValue(b)), |b|)
  {
    var s := b + rest;
    assert forall j | 0 <= j < |b| :: s[j] == b[j];
    if |b| == 3 {
      assert First(s) == Tail(s, LeadBits(b[0]) * 64 + b[1] % 64, 2, 3);
    } else if |b| == 4 {
      assert First(s) == Tail(s, LeadBits(b[0]) * 64 + b[1] % 64, 2, 4);
      assert First(s) == Tail(s, (LeadBits(b[0]) * 64 + b[1] % 64) * 64 + b[2] % 64, 3, 4);
    }
  }

  lemma DoubleEncodes(b: Bytes)
    requires IsLenientChar(b) && |b| == 2 && 0x80 <= CharValue(b)
    ensures Encode(CharValue(b)) == b
  {
    Digits(0, 0, b[0] % 32, b[1] % 64);
  }

  lemma TripleEncodes(b: Bytes)
    requires IsLenientChar(b) && |b| == 3 && 0x800 <= CharValue(b)
    ensures Encode(CharValue(b)) == b
  {
    var x, y, z := b[0] % 16, b[1] % 64, b[2] % 64;
    assert b[0] == 0xE0 + x && b[1] == 0x80 + y && b[2] == 0x80 + z;
    Digits(0, x, y, z);
  }

  lemma QuadrupleEncodes(b: Bytes)
    requires IsLenientChar(b) && |b| == 4 && 0x10000 <= CharValue(b)
    ensures Encode(CharValue(b)) == b
  {
    var w, x, y, z := b[0] % 8, b[1] % 64, b[2] % 64, b[3] % 64;
    EncodeOfDigits(w, x, y, z);
    assert b == [0xF0 + w, 0x80 + x, 0x80 + y, 0x80 + z];
  }

  lemma EncodeOfDigits(w: nat, x: nat, y: nat, z: nat)
    requires w < 8 && x < 64 && y < 64 && z < 64
    ensures var cp := ((w * 64 + x) * 64 + y) * 64 + z;
      cp >= 0x10000 ==> cp <= MAX_POINT && Encode(cp) == [0xF0 + w, 0x80 + x, 0x80 + y, 0x80 + z]
  {
    Digits(w, x, y, z);
  }

  /** A character that is no overlong form is the encoding of its value. */
  lemma MinimalCharEncodes(b: Bytes)
    requires IsLenientChar(b) && |b| >= 2 && CharValue(b) <= MAX_POINT && |Encode(CharValue(b))| == |b|
    ensures Encode(CharValue(b)) == b
  {
    if |b| == 2 { DoubleEncodes(b); } else if |b| == 3 { TripleEncodes(b); } else { QuadrupleEncodes(b); }
  }

  lemma GrammarCharRange(b: Bytes)
    requires IsGrammarChar(b) && |b| >= 2
    ensures IsLenientChar(b) && IsScalar(CharValue(b)) && |Encode(CharValue(b))| == |b|
  {
    if |b| == 3 { TripleRange(b); } else if |b| == 4 { QuadrupleRange(b); }
  }

  lemma TripleRange(b: Bytes)
    requires IsGrammarChar(b) && |b| == 3
    ensures 0x800 <= CharValue(b) < 0x10000 && IsScalar(CharValue(b))
  {
    var lead: nat, second: nat, third: nat := b[0] % 16, b[1] % 64, b[2] % 64;
    assert lead == b[0] - 0xE0 && second == b[1] - 0x80;
    assert CharValue(b) == 4096 * lead + 64 * second + third;
  }

  lemma QuadrupleRange(b: Bytes)
    requires IsGrammarChar(b) && |b| == 4
    ensures 0x10000 <= CharValue(b) <= 0x10FFFF
  {
    var lead: nat, second: nat, third: nat, fourth: nat := b[0] % 8, b[1] % 64, b[2] % 64, b[3] % 64;
    assert lead == b[0] - 0xF0 && second == b[1] - 0x80;
    assert CharValue(b) == 262144 * lead + 4096 * second + 64 * third + fourth;
  }

  /** A character of the grammar is the encoding of one scalar value, the one the decoder reads. */
  lemma GrammarCharDecodes(b: Bytes)
    requires IsGrammarChar(b)
    ensures First(b).cp.Some? && IsScalar(First(b).cp.value) && Encode(First(b).cp.value) == b
  {
    if |b| >= 2 {
      GrammarCharRange(b);
      assert b + [] == b;
      LenientCharValue(b, []);
      MinimalCharEncodes(b);
    }
  }

  /** What the decoder reads at the head of a text has the lenient shape. */
  lemma ReadIsLenient(s: Bytes)
    requires s != [] && First(s).cp.Some?
    ensures IsLenientChar(s[..First(s).size])
  {
    var len := LeadLength(s[0]);
    if len >= 2 { TailReads(s, LeadBits(s[0]), 1, len); }
  }

  lemma {:induction false} TailReads(s: Bytes, cp: nat, j: nat, len: nat)
    requires 1 <= j <= len <= |s| && Tail(s, cp, j, len).cp.Some?
    ensures Tail(s, cp, j, len).size == len && forall k | j <= k < len :: IsCont(s[k])
    decreases len - j
  {
    if j < len { TailReads(s, cp * 64 + s[j] % 64, j + 1, len); }
  }

  /**
   How lenient the decoder is: the text begins with a character of RFC 3629 exactly when the decoder reads a scalar
   value whose encoding is as long as what it consumed.  What it accepts beyond that is overlong, a surrogate or too
   large.
   */
  lemma ReadsRfcCharIff(s: Bytes)
    requires s != []
    ensures (exists k :: 1 <= k <= |s| && IsGrammarChar(s[..k]))
       <==> First(s).cp.Some? && IsScalar(First(s).cp.value) && |Encode(First(s).cp.value)| == First(s).size
  {
    forall k | 1 <= k <= |s| && IsGrammarChar(s[..k])
      ensures First(s).cp.Some? && IsScalar(First(s).cp.value) && |Encode(First(s).cp.value)| == First(s).size
    {
      GrammarCharDecodes(s[..k]);
      assert s == s[..k] + s[k..];
      DecodeEncode(First(s[..k]).cp.value, s[k..]);
    }
    if First(s).cp.Some? && IsScalar(First(s).cp.value) && |Encode(First(s).cp.value)| == First(s).size {
      MinimalReadIsGrammar(s);
    }
  }

  lemma MinimalReadIsGrammar(s: Bytes)
    requires s != [] && First(s).cp.Some? && IsScalar(First(s).cp.value) && |Encode(First(s).cp.value)| == First(s).size
    ensures IsGrammarChar(s[..First(s).size])
  {
    var b := s[..First(s).size];
    ReadIsLenient(s);
    EncodeIsGrammarChar(First(s).cp.value);
    if |b| >= 2 {
      assert s == b + s[|b|..];
      LenientCharValue(b, s[|b|..]);
      MinimalCharEncodes(b);
    }
  }

  lemma {:induction false} GrammarTextEncodes(s: Bytes, chars: seq<Bytes>) returns (cps: seq<nat>)
    requires IsGrammarText(s, chars)
    ensures Scalars(cps) && s == EncodeAll(cps)
  {
    if chars == [] {
      cps := [];
    } else {
      var rest := GrammarTextEncodes(s[|chars[0]|..], chars[1..]);
      GrammarCharDecodes(chars[0]);
      cps := [First(chars[0]).cp.value] + rest;
      assert cps[1..] == rest;
    }
  }

  lemma {:induction false} EncodedIsGrammarText(cps: seq<nat>) returns (chars: seq<Bytes>)
    requires Scalars(cps)
    ensures IsGrammarText(EncodeAll(cps), chars)
  {
    if cps == [] {
      chars := [];
    } else {
      var rest := EncodedIsGrammarText(cps[1..]);
      EncodeIsGrammarChar(cps[0]);
      chars := [Encode(cps[0])] + rest;
      assert chars[1..] == rest;
      assert EncodeAll(cps)[|chars[0]|..] == EncodeAll(cps[1..]);
    }
  }

  lemma GrammarIfWellFormed(s: Bytes)
    requires WellFormed(s)
    ensures exists chars :: IsGrammarText(s, chars)
  {
    var cps :| Scalars(cps) && s == EncodeAll(cps);
    var chars := EncodedIsGrammarText(cps);
    assert IsGrammarText(s, chars);
  }

  /** Well-formedness by code points and by the grammar are the same. */
  lemma WellFormedIffGrammar(s: Bytes)
    ensures WellFormed(s) <==> exists chars :: IsGrammarText(s, chars)
  {
    if WellFormed(s) { GrammarIfWellFormed(s); }
    forall chars | IsGrammarText(s, chars) ensures WellFormed(s) {
      var cps := GrammarTextEncodes(s, chars);
    }
  }

  // ---------------------------------------------------------------- a stray byte before good text

  /**
   A byte that does not belong there is dropped alone exactly when it is no character itself and no lead byte too close
   to the end.
   */
  lemma StrayByteIsDroppedIff(b: Byte, cps: seq<nat>)
    requires Encodable(cps)
    ensures Points([b] + EncodeAll(cps)) == cps
       <==> LeadLength(b) != 1 && (cps == [] || LeadLength(b) <= 1 + |EncodeAll(cps)|)
  {
    var text, len := EncodeAll(cps), LeadLength(b);
    var s := [b] + text;
    DecodeEncodeAll(cps);
    Head(b, text);
    if 2 <= len <= |s| {
      EncodeShape(cps[0]);
      assert s[1] == text[0] == Encode(cps[0])[0];
      assert First(s) == Tail(s, LeadBits(b), 1, len) == Point(None, 1);
    } else if len > |s| {
      assert Points(s) == Points(s[|s|..]) == [];
    }
  }
}
