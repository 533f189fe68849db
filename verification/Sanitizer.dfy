/** sanitizeForAi of core/src/utils/helpers.cpp: drops what breaks or disguises plain text. */
module Sanitizer {
  import opened Bytes
  import opened Wrappers
  import opened Utf8

  /** Combining marks. */
  const ZALGO_RANGES: seq<(nat, nat)> := [
    (0x0300, 0x036F), (0x0483, 0x0489), (0x0591, 0x05C7), (0x0610, 0x061A), (0x064B, 0x065F),
    (0x0670, 0x0670), (0x06D6, 0x06ED), (0x0730, 0x074A), (0x07EB, 0x07F3), (0x135D, 0x135F),
    (0x1AB0, 0x1AFF), (0x1DC0, 0x1DFF), (0x20D0, 0x20F0), (0xFE20, 0xFE2F)]

  /** Invisible formatting and bidi controls. */
  const BREAKING_RANGES: seq<(nat, nat)> := [
    (0x200B, 0x200F), (0x2028, 0x202E), (0x2060, 0x2064), (0x2066, 0x206F), (0xFE00, 0xFE0F),
    (0xFEFF, 0xFEFF), (0xFFF9, 0xFFFB), (0x1D173, 0x1D17A), (0xE0000, 0xE007F), (0xE0100, 0xE01EF)]

  predicate InRanges(cp: nat, ranges: seq<(nat, nat)>) {
    ranges != [] && (ranges[0].0 <= cp <= ranges[0].1 || InRanges(cp, ranges[1..]))
  }

  /** Control characters, keeping newlines only. */
  predicate IsControl(cp: nat) {
    cp != 0x0A && (cp < 0x20 || cp == 0x7F || 0x80 <= cp <= 0x9F)
  }

  predicate IsKept(cp: nat) {
    !(IsControl(cp) || InRanges(cp, ZALGO_RANGES) || InRanges(cp, BREAKING_RANGES))
  }

  function Kept(cps: seq<nat>): seq<nat> {
    if cps == [] then []
    else (if IsKept(cps[0]) then [cps[0]] else []) + Kept(cps[1..])
  }

  /** What the sanitiser appends for one reading of the decoder. */
  function Output(p: Point): Bytes
    requires p.cp.Some? ==> p.cp.value <= MAX_POINT
  {
    if p.cp.Some? && IsKept(p.cp.value) then Encode(p.cp.value) else []
  }

  function Sanitize(s: Bytes): Bytes {
    if s == [] then []
    else
      FirstFits(s);
      Output(First(s)) + Sanitize(s[First(s).size..])
  }

  lemma FirstFits(s: Bytes)
    requires s != []
    ensures First(s).cp.Some? ==> First(s).cp.value <= MAX_POINT
  {
    if First(s).cp.Some? { FirstBounds(s); }
  }

  lemma SanitizeUnfolds(s: Bytes, p: Point)
    requires s != [] && p == First(s)
    ensures p.cp.Some? ==> p.cp.value <= MAX_POINT
    ensures Sanitize(s) == Output(p) + Sanitize(s[p.size..])
  {
    FirstFits(s);
  }

  /** One turn of the loop: what is appended is the output for the next reading. */
  lemma SanitizeStep(text: Bytes, i: nat, next: nat, cp: Option<nat>, out: Bytes)
    requires i < next <= |text| && First(text[i..]) == Point(cp, next - i)
    ensures cp.Some? ==> cp.value <= MAX_POINT
    ensures out + Sanitize(text[i..]) == out + Output(Point(cp, next - i)) + Sanitize(text[next..])
  {
    var s, p := text[i..], Point(cp, next - i);
    SanitizeUnfolds(s, p);
    assert s[p.size..] == text[next..];
    Append3(out, Output(p), Sanitize(s[p.size..]));
  }

  method SanitizeForAi(text: Bytes) returns (out: Bytes)
    ensures out == Sanitize(text)
  {
    out := [];
    var i := 0;
    while i < |text|
      invariant 0 <= i <= |text|
      invariant out + Sanitize(text[i..]) == Sanitize(text)
    {
      var cp, next := DecodePoint(text, i);
      SanitizeStep(text, i, next, cp, out);
      if cp.Some? && IsKept(cp.value) {
        out := out + Encode(cp.value);
      } else {
        assert out + [] == out;
      }
      i := next;
    }
  }

  lemma {:induction false} KeptEncodable(cps: seq<nat>)
    requires Encodable(cps)
    ensures Encodable(Kept(cps))
    ensures forall i | 0 <= i < |Kept(cps)| :: IsKept(Kept(cps)[i])
  {
    if cps != [] { KeptEncodable(cps[1..]); }
  }

  /** Keeping a code point in front, on both sides. */
  lemma EncodeKept(cp: nat, rest: seq<nat>)
    requires cp <= MAX_POINT && Encodable(Kept(rest))
    ensures Encodable(Kept([cp] + rest))
    ensures EncodeAll(Kept([cp] + rest)) == Output(Point(Some(cp), 1)) + EncodeAll(Kept(rest))
  {
    assert ([cp] + rest)[1..] == rest;
    if IsKept(cp) {
      assert ([cp] + Kept(rest))[1..] == Kept(rest);
    } else {
      assert Kept([cp] + rest) == Kept(rest);
      assert [] + EncodeAll(Kept(rest)) == EncodeAll(Kept(rest));
    }
  }

  /** The sanitiser keeps, in order, exactly the valid code points of the input that are not dropped. */
  lemma {:induction false} SanitizeKeeps(s: Bytes)
    ensures Encodable(Kept(Points(s)))
    ensures Sanitize(s) == EncodeAll(Kept(Points(s)))
    decreases |s|
  {
    if s != [] {
      var p := First(s);
      SanitizeKeeps(s[p.size..]);
      SanitizeUnfolds(s, p);
      var rest := Points(s[p.size..]);
      if p.cp.Some? { EncodeKept(p.cp.value, rest); } else { assert Points(s) == rest; }
    }
  }

  /** Its output decodes without errors to those code points. */
  lemma SanitizedDecodes(s: Bytes)
    ensures var kept := Kept(Points(s));
      && Decode(Sanitize(s)) == seq(|kept|, i requires 0 <= i < |kept| => Some(kept[i]))
      && Points(Sanitize(s)) == kept
  {
    SanitizeKeeps(s);
    DecodeEncodeAll(Kept(Points(s)));
  }

  lemma {:induction false} KeptIsIdentity(cps: seq<nat>)
    requires forall i | 0 <= i < |cps| :: IsKept(cps[i])
    ensures Kept(cps) == cps
  {
    if cps != [] { KeptIsIdentity(cps[1..]); }
  }

  /** Sanitising twice is sanitising once. */
  lemma SanitizeIdempotent(s: Bytes)
    ensures Sanitize(Sanitize(s)) == Sanitize(s)
  {
    SanitizedDecodes(s);
    SanitizeKeeps(s);
    SanitizeKeeps(Sanitize(s));
    PointsEncodable(s);
    KeptEncodable(Points(s));
    KeptIsIdentity(Kept(Points(s)));
  }

  /** The sanitiser never makes text longer. */
  lemma {:induction false} SanitizeNeverGrows(s: Bytes)
    ensures |Sanitize(s)| <= |s|
    decreases |s|
  {
    if s != [] {
      SanitizeNeverGrows(s[First(s).size..]);
      if First(s).cp.Some? { FirstBounds(s); }
    }
  }

  /** Text is left alone exactly when it is canonical and has nothing to drop. */
  lemma SanitizeFixes(s: Bytes)
    ensures Sanitize(s) == s <==> Canonical(s) && forall i | 0 <= i < |Points(s)| :: IsKept(Points(s)[i])
  {
    SanitizeKeeps(s);
    PointsEncodable(s);
    KeptEncodable(Points(s));
    if Sanitize(s) == s {
      SanitizedDecodes(s);
    }
    if Canonical(s) && forall i | 0 <= i < |Points(s)| :: IsKept(Points(s)[i]) {
      CanonicalRoundTrip(s);
      KeptIsIdentity(Points(s));
    }
  }

  // ---------------------------------------------------------------- the tables

  lemma {:induction false} InRangesMeans(cp: nat, ranges: seq<(nat, nat)>)
    ensures InRanges(cp, ranges) <==> exists i :: 0 <= i < |ranges| && ranges[i].0 <= cp <= ranges[i].1
  {
    if ranges != [] {
      InRangesMeans(cp, ranges[1..]);
      assert forall i | 1 <= i < |ranges| :: ranges[i] == ranges[1..][i - 1];
      if InRanges(cp, ranges[1..]) {
        var i :| 0 <= i < |ranges[1..]| && ranges[1..][i].0 <= cp <= ranges[1..][i].1;
        assert ranges[i + 1].0 <= cp <= ranges[i + 1].1;
      }
    }
  }

  /** ASCII, the Latin and Cyrillic letters, common dashes and quotes, and the main emoji blocks. */
  predicate IsPlain(cp: nat) {
    || cp == 0x0A || 0x20 <= cp <= 0x7E         // newline, printable ASCII
    || 0xA0 <= cp <= 0x2FF                      // Latin letters
    || 0x400 <= cp <= 0x482 || 0x48A <= cp <= 0x52F   // Cyrillic
    || 0x2010 <= cp <= 0x2027                   // dashes and quotes
    || 0x1F300 <= cp <= 0x1FAFF                 // emoji
  }

  lemma ZalgoIsNotPlain(cp: nat, i: nat)
    requires i < |ZALGO_RANGES| && ZALGO_RANGES[i].0 <= cp <= ZALGO_RANGES[i].1
    ensures !IsPlain(cp)
  {}

  lemma BreakingIsNotPlain(cp: nat, i: nat)
    requires i < |BREAKING_RANGES| && BREAKING_RANGES[i].0 <= cp <= BREAKING_RANGES[i].1
    ensures !IsPlain(cp)
  {}

  /** None of these listed ranges is touched by the tables. */
  lemma PlainIsKept(cp: nat)
    requires IsPlain(cp)
    ensures IsKept(cp)
  {
    InRangesMeans(cp, ZALGO_RANGES);
    InRangesMeans(cp, BREAKING_RANGES);
    if i: nat :| i < |ZALGO_RANGES| && ZALGO_RANGES[i].0 <= cp <= ZALGO_RANGES[i].1 { ZalgoIsNotPlain(cp, i); }
    if i: nat :| i < |BREAKING_RANGES| && BREAKING_RANGES[i].0 <= cp <= BREAKING_RANGES[i].1 {
      BreakingIsNotPlain(cp, i);
    }
  }

  /** So plain text passes through unchanged. */
  lemma PlainTextPasses(cps: seq<nat>)
    requires Encodable(cps) && forall i | 0 <= i < |cps| :: IsPlain(cps[i])
    ensures Sanitize(EncodeAll(cps)) == EncodeAll(cps)
  {
    forall i | 0 <= i < |cps| ensures IsKept(cps[i]) { PlainIsKept(cps[i]); }
    DecodeEncodeAll(cps);
    SanitizeFixes(EncodeAll(cps));
  }

  lemma HeldBy(cp: nat, ranges: seq<(nat, nat)>, i: nat)
    requires i < |ranges| && ranges[i].0 <= cp <= ranges[i].1
    ensures InRanges(cp, ranges)
  {
    InRangesMeans(cp, ranges);
  }

  lemma ZalgoIsDropped(cp: nat, i: nat)
    requires i < |ZALGO_RANGES| && ZALGO_RANGES[i].0 <= cp <= ZALGO_RANGES[i].1
    ensures !IsKept(cp)
  {
    HeldBy(cp, ZALGO_RANGES, i);
  }

  lemma BreakingIsDropped(cp: nat, i: nat)
    requires i < |BREAKING_RANGES| && BREAKING_RANGES[i].0 <= cp <= BREAKING_RANGES[i].1
    ensures !IsKept(cp)
  {
    HeldBy(cp, BREAKING_RANGES, i);
  }

  /** But the tables also hold punctuation, a letter and the joiner of emoji sequences: U+05BE, U+06E5 and U+200D. */
  lemma TablesDropMore()
    ensures !IsKept(0x05BE) && !IsKept(0x06E5) && !IsKept(0x200D)
  {
    ZalgoIsDropped(0x05BE, 2);
    ZalgoIsDropped(0x06E5, 6);
    BreakingIsDropped(0x200D, 0);
  }

  // ---------------------------------------------------------------- what is dropped, block by block

  /** A control character other than newline: C0, DEL and C1. */
  predicate IsControlCode(cp: nat) {
    cp <= 0x09 || 0x0B <= cp <= 0x1F || cp == 0x7F || 0x80 <= cp <= 0x9F
  }

  /** A code point of the combining blocks. */
  predicate IsMark(cp: nat) {
    || 0x0300 <= cp <= 0x036F || 0x0483 <= cp <= 0x0489 || 0x0591 <= cp <= 0x05C7 || 0x0610 <= cp <= 0x061A
    || 0x064B <= cp <= 0x065F || cp == 0x0670 || 0x06D6 <= cp <= 0x06ED || 0x0730 <= cp <= 0x074A
    || 0x07EB <= cp <= 0x07F3 || 0x135D <= cp <= 0x135F || 0x1AB0 <= cp <= 0x1AFF || 0x1DC0 <= cp <= 0x1DFF
    || 0x20D0 <= cp <= 0x20F0 || 0xFE20 <= cp <= 0xFE2F
  }

  /** A code point of the invisible, bidi and format blocks. */
  predicate IsFormat(cp: nat) {
    || 0x200B <= cp <= 0x200F || 0x2028 <= cp <= 0x202E || 0x2060 <= cp <= 0x2064 || 0x2066 <= cp <= 0x206F
    || 0xFE00 <= cp <= 0xFE0F || cp == 0xFEFF || 0xFFF9 <= cp <= 0xFFFB || 0x1D173 <= cp <= 0x1D17A
    || 0xE0000 <= cp <= 0xE007F || 0xE0100 <= cp <= 0xE01EF
  }

  lemma ZalgoIsMark(cp: nat, i: nat)
    requires i < |ZALGO_RANGES| && ZALGO_RANGES[i].0 <= cp <= ZALGO_RANGES[i].1
    ensures IsMark(cp)
  {}

  lemma BreakingIsFormat(cp: nat, i: nat)
    requires i < |BREAKING_RANGES| && BREAKING_RANGES[i].0 <= cp <= BREAKING_RANGES[i].1
    ensures IsFormat(cp)
  {}

  lemma MarkIsZalgo(cp: nat)
    requires IsMark(cp)
    ensures InRanges(cp, ZALGO_RANGES)
  {
    var i :=
      if cp <= 0x036F then 0 else if cp <= 0x0489 then 1 else if cp <= 0x05C7 then 2 else if cp <= 0x061A then 3
      else if cp <= 0x065F then 4 else if cp <= 0x0670 then 5 else if cp <= 0x06ED then 6 else if cp <= 0x074A then 7
      else if cp <= 0x07F3 then 8 else if cp <= 0x135F then 9 else if cp <= 0x1AFF then 10
      else if cp <= 0x1DFF then 11 else if cp <= 0x20F0 then 12 else 13;
    HeldBy(cp, ZALGO_RANGES, i);
  }

  lemma FormatIsBreaking(cp: nat)
    requires IsFormat(cp)
    ensures InRanges(cp, BREAKING_RANGES)
  {
    var i :=
      if cp <= 0x200F then 0 else if cp <= 0x202E then 1 else if cp <= 0x2064 then 2 else if cp <= 0x206F then 3
      else if cp <= 0xFE0F then 4 else if cp <= 0xFEFF then 5 else if cp <= 0xFFFB then 6
      else if cp <= 0x1D17A then 7 else if cp <= 0xE007F then 8 else 9;
    HeldBy(cp, BREAKING_RANGES, i);
  }

  lemma KeptIff(cp: nat)
    ensures IsKept(cp) <==> !(IsControlCode(cp) || IsMark(cp) || IsFormat(cp))
  {
    InRangesMeans(cp, ZALGO_RANGES);
    InRangesMeans(cp, BREAKING_RANGES);
    if i: nat :| i < |ZALGO_RANGES| && ZALGO_RANGES[i].0 <= cp <= ZALGO_RANGES[i].1 { ZalgoIsMark(cp, i); }
    if i: nat :| i < |BREAKING_RANGES| && BREAKING_RANGES[i].0 <= cp <= BREAKING_RANGES[i].1 {
      BreakingIsFormat(cp, i);
    }
    if IsMark(cp) { MarkIsZalgo(cp); }
    if IsFormat(cp) { FormatIsBreaking(cp); }
  }

  /** A code point alone is dropped exactly when it is a control, a combining or a format code point, else untouched. */
  lemma DroppedIff(cp: nat)
    requires cp <= MAX_POINT
    ensures Sanitize(Encode(cp)) == [] <==> IsControlCode(cp) || IsMark(cp) || IsFormat(cp)
    ensures Sanitize(Encode(cp)) != [] ==> Sanitize(Encode(cp)) == Encode(cp)
  {
    KeptIff(cp);
    DecodeEncode(cp, []);
    var s := Encode(cp);
    assert s + [] == s && s[|s|..] == [];
    SanitizeUnfolds(s, First(s));
  }

  function Readable(cps: seq<nat>): seq<nat> {
    if cps == [] then []
    else
      (if IsControlCode(cps[0]) || IsMark(cps[0]) || IsFormat(cps[0]) then [] else [cps[0]]) + Readable(cps[1..])
  }

  lemma {:induction false} KeptIsReadable(cps: seq<nat>)
    ensures Kept(cps) == Readable(cps)
  {
    if cps != [] {
      KeptIff(cps[0]);
      KeptIsReadable(cps[1..]);
    }
  }

  /** And so it is in any text: the valid code points outside these blocks stay, in order, and nothing else does. */
  lemma SanitizeIsReadable(s: Bytes)
    ensures Points(Sanitize(s)) == Readable(Points(s))
    ensures Encodable(Readable(Points(s))) && Sanitize(s) == EncodeAll(Readable(Points(s)))
  {
    SanitizeKeeps(s);
    SanitizedDecodes(s);
    KeptIsReadable(Points(s));
  }
}
