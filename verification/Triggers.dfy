/**
 How the RP service normalises triggers (rp-service/src/service/rp_service.cpp):
 trim, then a fold that re-encodes every two-byte sequence with lead 0xD0 | ...
 */
module Triggers {
  import opened Bytes
  import opened Utf8
  import opened Tokenizer

  // ---------------------------------------------------------------- the fold

  /** The value a two-byte sequence stands for; the second byte is not checked. */
  function PairValue(lead: Byte, next: Byte): nat {
    lead % 32 * 64 + next % 64
  }

  /** The upper-case ranges; the third branch repeats a value of the first. */
  function FoldCyrillic(cp: nat): nat {
    if 0x400 <= cp <= 0x40F then cp + 0x50
    else if 0x410 <= cp <= 0x42F then cp + 0x20
    else if cp == 0x401 then 0x451
    else cp
  }

  /** 0xD0 | (lc >> 6) and 0x80 | (lc & 0x3F). */
  function FoldedPair(lead: Byte, next: Byte): (r: Bytes)
    ensures |r| == 2
  {
    var lc := FoldCyrillic(PairValue(lead, next));
    [0xD0 + lc / 64 % 16, 0x80 + lc % 64]
  }

  lemma OrIsAddition(lc: bv32)
    requires lc < 0x800
    ensures 0xD0 | (lc >> 6) == 0xD0 + lc / 64 % 16 && 0x80 | (lc & 0x3F) == 0x80 + lc % 64
  {}

  predicate IsPair(s: Bytes) {
    |s| >= 2 && 0xC0 <= s[0] < 0xE0
  }

  function LowerAscii(b: Byte): Byte {
    if 0x41 <= b <= 0x5A then b + 0x20 else b
  }

  function Lower(s: Bytes): Bytes {
    if s == [] then []
    else if IsPair(s) then FoldedPair(s[0], s[1]) + Lower(s[2..])
    else [LowerAscii(s[0])] + Lower(s[1..])
  }

  /** The bytes the loop appends for the head of s. */
  function LowerHead(s: Bytes): (r: Bytes)
    requires s != []
    ensures 1 <= |r| <= |s|
  {
    if IsPair(s) then FoldedPair(s[0], s[1]) else [LowerAscii(s[0])]
  }

  lemma LowerStep(s: Bytes, i: nat, out: Bytes)
    requires i < |s|
    ensures out + Lower(s[i..]) == out + LowerHead(s[i..]) + Lower(s[i + |LowerHead(s[i..])|..])
  {
    var t := s[i..];
    var k := |LowerHead(t)|;
    assert t[k..] == s[i + k..];
    Append3(out, LowerHead(t), Lower(t[k..]));
  }

  /** The head of the rest, in terms of the whole. */
  lemma HeadAt(s: Bytes, i: nat)
    requires i < |s|
    ensures LowerHead(s[i..])
         == if 0xC0 <= s[i] < 0xE0 && i + 1 < |s| then FoldedPair(s[i], s[i + 1]) else [LowerAscii(s[i])]
  {}

  method ToLower(s: Bytes) returns (out: Bytes)
    ensures out == Lower(s)
  {
    out := [];
    var i: nat := 0;
    assert s[0..] == s;
    while i < |s|
      invariant i <= |s| && out + Lower(s[i..]) == Lower(s)
    {
      var c := s[i];
      var piece: Bytes;
      if c < 0x80 {
        piece := [if 0x41 <= c <= 0x5A then c + 32 else c];
      } else if 0xC0 <= c < 0xE0 && i + 1 < |s| {
        var lc := FoldCyrillic(PairValue(c, s[i + 1]));
        piece := [0xD0 + lc / 64 % 16, 0x80 + lc % 64];
      } else {
        piece := [c];
      }
      HeadAt(s, i);
      LowerStep(s, i, out);
      out := out + piece;
      i := i + |piece|;
    }
    assert out + [] == out;
  }

  /** On every byte string the fold keeps the length. */
  lemma {:induction false} LowerKeepsLength(s: Bytes)
    ensures |Lower(s)| == |s|
    decreases |s|
  {
    if s != [] { LowerKeepsLength(if IsPair(s) then s[2..] else s[1..]); }
  }

  /** Some two bytes read as a pair have a value below 0x30. */
  predicate HasLowPair(s: Bytes) {
    s != [] && if IsPair(s) then PairValue(s[0], s[1]) < 0x30 || HasLowPair(s[2..]) else HasLowPair(s[1..])
  }

  /** The value of a re-encoded pair: 0xD0 | .. always sets the bit worth 0x400. */
  lemma ReencodedValue(lc: nat)
    requires lc < 0x800
    ensures PairValue(0xD0 + lc / 64 % 16, 0x80 + lc % 64) == 0x400 + lc % 0x400
  {
    assert lc / 1024 == lc / 64 / 16;
    assert lc % 0x400 == lc / 64 % 16 * 64 + lc % 64;
  }

  lemma FoldIsStable(cp: nat)
    requires cp < 0x800
    ensures FoldCyrillic(cp) < 0x800
    ensures cp >= 0x400 ==> FoldCyrillic(cp) >= 0x430 && FoldCyrillic(FoldCyrillic(cp)) == FoldCyrillic(cp)
  {}

  /** Folding a re-encoded pair again. */
  lemma RefoldedPair(lead: Byte, next: Byte)
    requires 0xD0 <= lead < 0xE0 && IsCont(next)
    ensures FoldedPair(lead, next) == [lead, next] <==> PairValue(lead, next) >= 0x430
  {
    var cp := PairValue(lead, next);
    assert 0x400 <= cp < 0x800 && lead == 0xD0 + cp / 64 % 16 && next == 0x80 + cp % 64;
    FoldIsStable(cp);
    if cp < 0x430 { assert FoldCyrillic(cp) / 64 % 16 != cp / 64 % 16 || FoldCyrillic(cp) % 64 != cp % 64; }
  }

  lemma FoldedIsPair(lead: Byte, next: Byte)
    requires 0xC0 <= lead < 0xE0
    ensures var p := FoldedPair(lead, next);
      && 0xD0 <= p[0] < 0xE0 && IsCont(p[1])
      && PairValue(p[0], p[1]) == 0x400 + FoldCyrillic(PairValue(lead, next)) % 0x400
  {
    FoldIsStable(PairValue(lead, next));
    ReencodedValue(FoldCyrillic(PairValue(lead, next)));
  }

  lemma FoldedValue(cp: nat)
    requires cp < 0x800
    ensures 0x400 + FoldCyrillic(cp) % 0x400 >= 0x430 <==> cp >= 0x30
  {
    FoldIsStable(cp);
  }

  lemma FoldedPairAgain(lead: Byte, next: Byte)
    requires 0xC0 <= lead < 0xE0
    ensures var p := FoldedPair(lead, next);
      && IsPair(p) && (FoldedPair(p[0], p[1]) == p <==> PairValue(lead, next) >= 0x30)
  {
    var p := FoldedPair(lead, next);
    FoldedIsPair(lead, next);
    RefoldedPair(p[0], p[1]);
    FoldedValue(PairValue(lead, next));
    assert p == [p[0], p[1]];
  }

  /** Folding twice is folding once exactly when no pair with a value below 0x30 is folded. */
  lemma {:induction false} LowerIdempotentIff(s: Bytes)
    ensures Lower(Lower(s)) == Lower(s) <==> !HasLowPair(s)
    decreases |s|
  {
    if s != [] {
      if IsPair(s) {
        var p, rest := FoldedPair(s[0], s[1]), Lower(s[2..]);
        LowerIdempotentIff(s[2..]);
        FoldedPairAgain(s[0], s[1]);
        assert (p + rest)[2..] == rest;
        LowerKeepsLength(rest);
        PairsEqual(FoldedPair(p[0], p[1]), Lower(rest), p, rest);
      } else {
        var rest := Lower(s[1..]);
        LowerIdempotentIff(s[1..]);
        LowerKeepsLength(s[1..]);
        assert ([LowerAscii(s[0])] + rest)[1..] == rest;
        assert !IsPair([LowerAscii(s[0])] + rest);
        PairsEqual([LowerAscii(s[0])], Lower(rest), [LowerAscii(s[0])], rest);
      }
    }
  }

  lemma PairsEqual(a: Bytes, b: Bytes, c: Bytes, d: Bytes)
    requires |a| == |c|
    ensures a + b == c + d <==> a == c && b == d
  {
    if a + b == c + d {
      assert a == (a + b)[..|a|] && c == (c + d)[..|a|];
      assert b == (a + b)[|a|..] && d == (c + d)[|a|..];
    }
  }

  // ---------------------------------------------------------------- the fold on code points

  /** What the fold does to a code point: Latin-1 and the other two-byte points below U+0400 are moved up by 0x400. */
  function LowerPoint(cp: nat): nat {
    if 0x41 <= cp <= 0x5A then cp + 0x20
    else if 0x80 <= cp <= 0x3FF then cp + 0x400
    else if 0x400 <= cp <= 0x40F then cp + 0x50
    else if 0x410 <= cp <= 0x42F then cp + 0x20
    else cp
  }

  /** What its comment says: A-Z and the capitals of U+0400..U+042F lowered, other code points passed through. */
  function IntendedPoint(cp: nat): nat {
    if 0x41 <= cp <= 0x5A then cp + 0x20
    else if 0x400 <= cp <= 0x40F then cp + 0x50
    else if 0x410 <= cp <= 0x42F then cp + 0x20
    else cp
  }

  function MapPoints(cps: seq<nat>, f: nat -> nat): (r: seq<nat>)
    ensures |r| == |cps| && forall i | 0 <= i < |r| :: r[i] == f(cps[i])
  {
    seq(|cps|, i requires 0 <= i < |cps| => f(cps[i]))
  }

  /** Bytes of three and four byte characters are copied. */
  lemma {:induction false} LowerCopies(a: Bytes, rest: Bytes)
    requires forall i | 0 <= i < |a| :: 0x80 <= a[i] && !(0xC0 <= a[i] < 0xE0)
    ensures Lower(a + rest) == a + Lower(rest)
  {
    if a == [] {
      assert a + rest == rest;
    } else {
      assert (a + rest)[1..] == a[1..] + rest && (a + rest)[0] == a[0];
      LowerCopies(a[1..], rest);
    }
  }

  lemma FoldedPairIs(cp: nat)
    requires 0x80 <= cp < 0x800
    ensures FoldedPair(0xC0 + cp / 64, 0x80 + cp % 64) == Encode(LowerPoint(cp))
  {
    assert PairValue(0xC0 + cp / 64, 0x80 + cp % 64) == cp;
    FoldIsStable(cp);
    var lc := FoldCyrillic(cp);
    assert cp < 0x400 ==> lc == cp && (cp + 0x400) / 64 == cp / 64 + 16;
    assert cp >= 0x400 ==> lc / 64 == 16 + lc / 64 % 16;
  }

  lemma LowerOfPoint(cp: nat, rest: Bytes)
    requires cp <= MAX_POINT
    ensures LowerPoint(cp) <= MAX_POINT && Lower(Encode(cp) + rest) == Encode(LowerPoint(cp)) + Lower(rest)
  {
    var s := Encode(cp) + rest;
    if cp < 0x80 {
      assert s[1..] == rest;
    } else if cp < 0x800 {
      assert s[0] == 0xC0 + cp / 64 && s[1] == 0x80 + cp % 64 && s[2..] == rest;
      FoldedPairIs(cp);
      assert Lower(s) == FoldedPair(s[0], s[1]) + Lower(s[2..]);
    } else {
      LowerCopies(Encode(cp), rest);
    }
  }

  /** On encoded text the fold maps the code points one by one. */
  lemma {:induction false} LowerMapsPoints(cps: seq<nat>)
    requires Encodable(cps)
    ensures Encodable(MapPoints(cps, LowerPoint)) && Lower(EncodeAll(cps)) == EncodeAll(MapPoints(cps, LowerPoint))
  {
    if cps != [] {
      LowerOfPoint(cps[0], EncodeAll(cps[1..]));
      LowerMapsPoints(cps[1..]);
      assert MapPoints(cps, LowerPoint)[1..] == MapPoints(cps[1..], LowerPoint);
    }
  }

  lemma LowerKeepsScalars(cps: seq<nat>)
    requires Scalars(cps)
    ensures Scalars(MapPoints(cps, LowerPoint))
  {
    forall i | 0 <= i < |cps| ensures IsScalar(LowerPoint(cps[i])) { assert IsScalar(cps[i]); }
  }

  lemma LowerOfWellFormed(s: Bytes)
    requires WellFormed(s)
    ensures WellFormed(Lower(s)) && Points(Lower(s)) == MapPoints(Points(s), LowerPoint)
  {
    var cps :| Scalars(cps) && s == EncodeAll(cps);
    DecodeEncodeAll(cps);
    LowerMapsPoints(cps);
    DecodeEncodeAll(MapPoints(cps, LowerPoint));
    LowerKeepsScalars(cps);
  }

  /** The comment is right exactly for text without code points in U+0080..U+03FF. */
  lemma LowerIsIntendedIff(s: Bytes)
    requires WellFormed(s)
    ensures Points(Lower(s)) == MapPoints(Points(s), IntendedPoint)
       <==> forall i | 0 <= i < |Points(s)| :: !(0x80 <= Points(s)[i] < 0x400)
  {
    LowerOfWellFormed(s);
    var cps := Points(s);
    if MapPoints(cps, LowerPoint) == MapPoints(cps, IntendedPoint) {
      forall i | 0 <= i < |cps| ensures !(0x80 <= cps[i] < 0x400) {
        assert MapPoints(cps, LowerPoint)[i] == MapPoints(cps, IntendedPoint)[i];
      }
    }
  }

  lemma PairIsNotLow(cp: nat, rest: Bytes)
    requires 0x80 <= cp < 0x800
    ensures HasLowPair(Encode(cp) + rest) <==> HasLowPair(rest)
  {
    var lead: Byte, next: Byte := 0xC0 + cp / 64, 0x80 + cp % 64;
    assert Encode(cp) + rest == [lead] + ([next] + rest);
    PairHead(lead, next, rest);
    assert PairValue(lead, next) == cp;
  }

  lemma PairHead(lead: Byte, next: Byte, rest: Bytes)
    requires 0xC0 <= lead < 0xE0
    ensures HasLowPair([lead] + ([next] + rest)) <==> PairValue(lead, next) < 0x30 || HasLowPair(rest)
  {
    var s := [lead] + ([next] + rest);
    assert s[2..] == rest && s[1] == next;
  }

  /** Encoded text has no such pairs. */
  lemma {:induction false} EncodedHasNoLowPair(cps: seq<nat>)
    requires Encodable(cps)
    ensures !HasLowPair(EncodeAll(cps))
  {
    if cps != [] {
      EncodedHasNoLowPair(cps[1..]);
      var e, rest := Encode(cps[0]), EncodeAll(cps[1..]);
      if 0x80 <= cps[0] < 0x800 {
        PairIsNotLow(cps[0], rest);
      } else {
        LowPairSkips(e, rest);
      }
    }
  }

  lemma {:induction false} LowPairSkips(a: Bytes, rest: Bytes)
    requires forall i | 0 <= i < |a| :: !(0xC0 <= a[i] < 0xE0)
    ensures HasLowPair(a + rest) <==> HasLowPair(rest)
  {
    if a == [] {
      assert a + rest == rest;
    } else {
      assert (a + rest)[1..] == a[1..] + rest && (a + rest)[0] == a[0];
      LowPairSkips(a[1..], rest);
    }
  }

  // ---------------------------------------------------------------- trim and normalise

  function DropLastSpaces(s: Bytes): (r: Bytes)
    ensures r <= s && (r == [] || !IsSpace(r[|r| - 1]))
  {
    if s != [] && IsSpace(s[|s| - 1]) then DropLastSpaces(s[..|s| - 1]) else s
  }

  function TrimOf(s: Bytes): Bytes {
    DropLastSpaces(DropSpaces(s))
  }

  lemma DropOne(s: Bytes, begin: nat, end: nat)
    requires begin < end <= |s| && IsSpace(s[end - 1])
    ensures DropLastSpaces(s[begin..end]) == DropLastSpaces(s[begin..end - 1])
  {
    var t := s[begin..end];
    assert t[|t| - 1] == s[end - 1];
    assert t[..|t| - 1] == s[begin..end - 1];
  }

  method Trim(s: Bytes) returns (r: Bytes)
    ensures r == TrimOf(s)
  {
    assert s[0..] == s;
    var begin := SkipSpaces(s, 0);
    var end := |s|;
    assert s[begin..end] == s[begin..];
    while end > begin && IsSpace(s[end - 1])
      invariant begin <= end <= |s| && DropLastSpaces(s[begin..end]) == DropLastSpaces(s[begin..])
    {
      DropOne(s, begin, end);
      end := end - 1;
    }
    return s[begin..end];
  }

  /** No space at either end. */
  predicate IsTrimmed(s: Bytes) {
    s == [] || (!IsSpace(s[0]) && !IsSpace(s[|s| - 1]))
  }

  lemma TrimmedIsKept(s: Bytes)
    requires IsTrimmed(s)
    ensures TrimOf(s) == s
  {}

  lemma {:induction false} DropLastSpacesSplit(s: Bytes)
    ensures AllSpace(s[|DropLastSpaces(s)|..])
  {
    if s != [] && IsSpace(s[|s| - 1]) {
      var k := |DropLastSpaces(s)|;
      DropLastSpacesSplit(s[..|s| - 1]);
      assert s[k..] == s[..|s| - 1][k..] + [s[|s| - 1]];
    }
  }

  /** trim takes whitespace off both ends, and all of it. */
  lemma TrimSplits(s: Bytes) returns (a: Bytes, b: Bytes)
    ensures s == a + TrimOf(s) + b && AllSpace(a) && AllSpace(b) && IsTrimmed(TrimOf(s))
  {
    SpacesSplit(s);
    var t := DropSpaces(s);
    DropLastSpacesSplit(t);
    a, b := s[..|s| - |t|], t[|DropLastSpaces(t)|..];
    assert t == DropLastSpaces(t) + b;
    Append3(a, DropLastSpaces(t), b);
    StillNoSpace(t);
  }

  lemma StillNoSpace(t: Bytes)
    requires t == [] || !IsSpace(t[0])
    ensures IsTrimmed(DropLastSpaces(t))
  {}

  /** normalizeTrigger */
  function Normal(s: Bytes): Bytes {
    Lower(TrimOf(s))
  }

  method NormalizeTrigger(s: Bytes) returns (r: Bytes)
    ensures r == Normal(s)
  {
    r := Trim(s);
    r := ToLower(r);
  }

  /** The fold makes and removes no space at the ends of a trimmed text. */
  lemma {:induction false} LowerKeepsEnds(s: Bytes)
    requires s != []
    ensures |Lower(s)| == |s| && (IsSpace(Lower(s)[0]) <==> IsSpace(s[0]))
    ensures !IsSpace(s[|s| - 1]) ==> !IsSpace(Lower(s)[|s| - 1])
    decreases |s|
  {
    LowerKeepsLength(s);
    var k := if IsPair(s) then 2 else 1;
    LowerKeepsLength(s[k..]);
    if |s| > k { LowerKeepsEnds(s[k..]); }
  }

  /** Normalising keeps the length of the trimmed trigger, and leaves nothing to trim. */
  lemma NormalIsTrimmed(s: Bytes)
    ensures |Normal(s)| == |TrimOf(s)| && IsTrimmed(Normal(s))
  {
    var a, b := TrimSplits(s);
    LowerKeepsLength(TrimOf(s));
    if TrimOf(s) != [] { LowerKeepsEnds(TrimOf(s)); }
  }

  /** A normal form is its own normal form exactly when the trimmed trigger has no pair with a value below 0x30. */
  lemma NormalIdempotentIff(s: Bytes)
    ensures Normal(Normal(s)) == Normal(s) <==> !HasLowPair(TrimOf(s))
  {
    NormalIsTrimmed(s);
    TrimmedIsKept(Normal(s));
    LowerIdempotentIff(TrimOf(s));
  }

  /** Trimming encoded text leaves encoded text. */
  lemma TrimKeepsWellFormed(s: Bytes)
    requires WellFormed(s)
    ensures WellFormed(TrimOf(s))
  {
    var cps :| Scalars(cps) && s == EncodeAll(cps);
    var rest := DropSpacesEncoded(cps);
    var kept := DropLastSpacesEncoded(rest);
  }

  lemma {:induction false} DropSpacesEncoded(cps: seq<nat>) returns (rest: seq<nat>)
    requires Scalars(cps)
    ensures Scalars(rest) && DropSpaces(EncodeAll(cps)) == EncodeAll(rest)
  {
    rest := cps;
    if cps != [] && IsSpace(EncodeAll(cps)[0]) {
      assert EncodeAll(cps)[0] == Encode(cps[0])[0];
      assert EncodeAll(cps)[1..] == EncodeAll(cps[1..]);
      rest := DropSpacesEncoded(cps[1..]);
    }
  }

  lemma {:induction false} DropLastSpacesEncoded(cps: seq<nat>) returns (rest: seq<nat>)
    requires Scalars(cps)
    ensures Scalars(rest) && DropLastSpaces(EncodeAll(cps)) == EncodeAll(rest)
  {
    rest := cps;
    var s := EncodeAll(cps);
    if s != [] && IsSpace(s[|s| - 1]) {
      var front, last := cps[..|cps| - 1], cps[|cps| - 1];
      SplitAtBoundary(cps, |cps| - 1);
      assert cps[|cps| - 1..] == [last];
      assert EncodeAll([last]) == Encode(last) + [];
      EncodeShape(last);
      assert s[|s| - 1] == Encode(last)[|Encode(last)| - 1];
      assert s[..|s| - 1] == EncodeAll(front);
      rest := DropLastSpacesEncoded(front);
    }
  }

  /** For well-formed triggers normalising is idempotent. */
  lemma NormalIdempotent(s: Bytes)
    requires WellFormed(s)
    ensures Normal(Normal(s)) == Normal(s)
  {
    TrimKeepsWellFormed(s);
    var cps :| Scalars(cps) && TrimOf(s) == EncodeAll(cps);
    EncodedHasNoLowPair(cps);
    NormalIdempotentIff(s);
  }

  // ---------------------------------------------------------------- one word

  lemma {:induction false} DropsLast(t: Bytes, b: Bytes)
    requires AllSpace(b) && (t == [] || !IsSpace(t[|t| - 1]))
    ensures DropLastSpaces(t + b) == t
  {
    if b != [] {
      assert b[|b| - 1] in b && (t + b)[..|t + b| - 1] == t + b[..|b| - 1];
      DropsLast(t, b[..|b| - 1]);
    } else {
      assert t + b == t;
    }
  }

  /** What is left between whitespace at both ends is the trimmed text. */
  lemma TrimIs(a: Bytes, t: Bytes, b: Bytes)
    requires AllSpace(a) && AllSpace(b) && IsTrimmed(t)
    ensures TrimOf(a + (t + b)) == t
  {
    if t == [] {
      DropsAll(a + b, []);
      assert a + (t + b) == a + b + [];
    } else {
      assert (t + b)[0] == t[0];
      DropsAll(a, t + b);
      DropsLast(t, b);
    }
  }

  /** A text has one word exactly when the trimmed text is one, and that is it. */
  lemma OneWordIff(s: Bytes)
    ensures |Split(s)| == 1 <==> TrimOf(s) != [] && NoSpace(TrimOf(s))
    ensures |Split(s)| == 1 ==> Split(s) == [TrimOf(s)]
  {
    if TrimOf(s) != [] && NoSpace(TrimOf(s)) {
      var a, b := TrimSplits(s);
      assert a + TrimOf(s) + b == a + (TrimOf(s) + b);
      assert b == [] || b[0] in b;
      SplitOfWoven(a, TrimOf(s), b);
      DropsAll(b, []);
      assert b + [] == b;
    }
    if |Split(s)| == 1 {
      var gaps := SplitWeaves(s);
      var word := Split(s)[0];
      assert Weave(gaps[1..], Split(s)[1..]) == gaps[1];
      assert word[0] in word && word[|word| - 1] in word;
      TrimIs(gaps[0], word, gaps[1]);
    }
  }

  /** The fold makes no space. */
  lemma {:induction false} LowerMakesNoSpace(s: Bytes)
    requires NoSpace(s)
    ensures NoSpace(Lower(s))
    decreases |s|
  {
    if s != [] {
      assert s[0] in s && forall b | b in s[1..] :: b in s;
      if IsPair(s) {
        assert forall b | b in s[2..] :: b in s;
        LowerMakesNoSpace(s[2..]);
      } else {
        LowerMakesNoSpace(s[1..]);
      }
    }
  }

  lemma {:induction false} SpacesArePoints(cps: seq<nat>)
    requires Encodable(cps)
    ensures NoSpace(EncodeAll(cps)) <==> forall i | 0 <= i < |cps| :: !(cps[i] == 0x20 || 0x09 <= cps[i] <= 0x0D)
  {
    if cps != [] {
      SpacesArePoints(cps[1..]);
      var e, rest := Encode(cps[0]), EncodeAll(cps[1..]);
      EncodeShape(cps[0]);
      assert e[0] in e && NoSpace(e) <==> !(cps[0] == 0x20 || 0x09 <= cps[0] <= 0x0D);
      assert forall b :: b in e + rest <==> b in e || b in rest;
      assert forall i | 1 <= i < |cps| :: cps[i] == cps[1..][i - 1];
    }
  }

  /** In well-formed text it removes none either. */
  lemma LowerKeepsSpaces(s: Bytes)
    requires WellFormed(s)
    ensures NoSpace(Lower(s)) <==> NoSpace(s)
  {
    var cps :| Scalars(cps) && s == EncodeAll(cps);
    LowerMapsPoints(cps);
    SpacesArePoints(cps);
    var lower := MapPoints(cps, LowerPoint);
    SpacesArePoints(lower);
    assert forall i | 0 <= i < |cps| ::
      lower[i] == 0x20 || 0x09 <= lower[i] <= 0x0D <==> cps[i] == 0x20 || 0x09 <= cps[i] <= 0x0D;
  }

  /** The normal form of a well-formed trigger is one word exactly when the trigger is; it is as long. */
  lemma NormalIsWordIff(s: Bytes)
    ensures |Split(s)| == 1 ==> Normal(s) != [] && NoSpace(Normal(s)) && |Normal(s)| == |Split(s)[0]|
    ensures WellFormed(s) && Normal(s) != [] && NoSpace(Normal(s)) ==> |Split(s)| == 1
  {
    OneWordIff(s);
    LowerKeepsLength(TrimOf(s));
    if |Split(s)| == 1 { LowerMakesNoSpace(TrimOf(s)); }
    if WellFormed(s) {
      TrimKeepsWellFormed(s);
      LowerKeepsSpaces(TrimOf(s));
    }
  }
}
