/**
 The keyword filter of the auto-moderator (auto-mod/src/automoderator.cpp): a
 byte-level case fold followed by a byte-level substring search.  On well-formed
 text both mean what they mean on code points.
 */
module KeywordFilter {
  import opened Bytes
  import opened Utf8
  import opened Search

  // ---------------------------------------------------------------- the fold

  /** append_lower_cyrillic, and the pass-through of pairs it does not fold. */
  function FoldPair(c2: Byte): Bytes {
    if 0x90 <= c2 <= 0x9F then [0xD0, c2 + 0x20]
    else if 0xA0 <= c2 <= 0xAF then [0xD1, c2 - 0x20]
    else if c2 == 0x81 then [0xD1, 0x91]
    else [0xD0, c2]
  }

  function Fold(s: Bytes): Bytes {
    if s == [] then []
    else if 0x41 <= s[0] <= 0x5A then [s[0] + 0x20] + Fold(s[1..])
    else if s[0] == 0xD0 && |s| > 1 then FoldPair(s[1]) + Fold(s[2..])
    else [s[0]] + Fold(s[1..])
  }

  method AppendLowerCyrillic(out: Bytes, c2: Byte) returns (done: bool, r: Bytes)
    ensures r == if done then out + FoldPair(c2) else out
    ensures !done ==> FoldPair(c2) == [0xD0, c2]
  {
    if 0x90 <= c2 && c2 <= 0xAF {
      if c2 <= 0x9F {
        return true, out + [0xD0, c2 + 0x20];
      }
      return true, out + [0xD1, c2 - 0x20];
    }
    if c2 == 0x81 {
      return true, out + [0xD1, 0x91];
    }
    return false, out;
  }

  /** The bytes the loop appends at i, and how far it moves. */
  function FoldHead(s: Bytes, i: nat): (r: Bytes)
    requires i < |s|
    ensures 1 <= |r| && i + |r| <= |s|
  {
    if 0x41 <= s[i] <= 0x5A then [s[i] + 0x20]
    else if s[i] == 0xD0 && i + 1 < |s| then FoldPair(s[i + 1])
    else [s[i]]
  }

  lemma FoldUnfolds(s: Bytes, i: nat, out: Bytes)
    requires i < |s|
    ensures out + Fold(s[i..]) == out + FoldHead(s, i) + Fold(s[i + |FoldHead(s, i)|..])
  {
    assert s[i..][1..] == s[i + 1..];
    if i + 1 < |s| { assert s[i..][2..] == s[i + 2..]; }
    Append3(out, FoldHead(s, i), Fold(s[i + |FoldHead(s, i)|..]));
  }

  method ToLowerUtf8(s: Bytes) returns (out: Bytes)
    ensures out == Fold(s)
  {
    out := [];
    var i: nat := 0;
    assert s[0..] == s;
    while i < |s|
      invariant i <= |s| && out + Fold(s[i..]) == Fold(s)
    {
      var c := s[i];
      ghost var start := i;
      ghost var was := out;
      FoldUnfolds(s, i, out);
      if 0x41 <= c <= 0x5A {
        out := out + [c + 0x20];
      } else if c == 0xD0 && i + 1 < |s| {
        out := AppendPair(out, s[i + 1]);
        i := i + 1;
      } else {
        out := out + [c];
      }
      i := i + 1;
      assert out == was + FoldHead(s, start) && i == start + |FoldHead(s, start)|;
    }
    assert out + [] == out;
  }

  /** A pair with lead 0xD0: folded, or copied. */
  method AppendPair(out: Bytes, c2: Byte) returns (r: Bytes)
    ensures r == out + FoldPair(c2)
  {
    var done, folded := AppendLowerCyrillic(out, c2);
    r := if done then folded else folded + [0xD0, c2];
  }

  /** On every byte string the fold keeps the length. */
  lemma {:induction false} FoldKeepsLength(s: Bytes)
    ensures |Fold(s)| == |s|
    decreases |s|
  {
    if s != [] {
      if s[0] == 0xD0 && |s| > 1 { FoldKeepsLength(s[2..]); } else { FoldKeepsLength(s[1..]); }
    }
  }

  /** On every byte string folding twice is folding once. */
  lemma {:induction false} FoldIdempotent(s: Bytes)
    ensures Fold(Fold(s)) == Fold(s)
    decreases |s|
  {
    if s != [] {
      if s[0] == 0xD0 && |s| > 1 {
        FoldIdempotent(s[2..]);
        FoldOfFoldedPair(s[1], Fold(s[2..]));
      } else {
        FoldIdempotent(s[1..]);
        FoldKeepsLength(s[1..]);
        assert Fold(s)[1..] == Fold(s[1..]);
      }
    }
  }

  lemma FoldOfFoldedPair(c2: Byte, rest: Bytes)
    ensures Fold(FoldPair(c2) + rest) == FoldPair(c2) + Fold(rest)
  {
    var pair := FoldPair(c2);
    var s := pair + rest;
    assert s[2..] == rest && s[0] == pair[0] && s[1] == pair[1];
    if pair[0] == 0xD1 {
      assert s[1..] == [pair[1]] + rest && s[1..][1..] == rest;
      assert Fold(s) == [pair[0]] + ([pair[1]] + Fold(rest));
    }
  }

  // ---------------------------------------------------------------- the fold on code points

  /** A-Z, А-Я and Ё lowered, everything else as it is. */
  function LowerPoint(cp: nat): nat {
    if 0x41 <= cp <= 0x5A then cp + 0x20
    else if 0x410 <= cp <= 0x42F then cp + 0x20
    else if cp == 0x401 then 0x451
    else cp
  }

  function LowerAll(cps: seq<nat>): (r: seq<nat>)
    ensures |r| == |cps| && forall i | 0 <= i < |r| :: r[i] == LowerPoint(cps[i])
  {
    if cps == [] then [] else [LowerPoint(cps[0])] + LowerAll(cps[1..])
  }

  /** Bytes that no rule of the fold touches are copied. */
  lemma {:induction false} FoldCopies(a: Bytes, rest: Bytes)
    requires forall i | 0 <= i < |a| :: a[i] != 0xD0 && !(0x41 <= a[i] <= 0x5A)
    ensures Fold(a + rest) == a + Fold(rest)
  {
    if a == [] {
      assert a + rest == rest;
    } else {
      assert (a + rest)[1..] == a[1..] + rest;
      FoldCopies(a[1..], rest);
    }
  }

  lemma FoldOfPoint(cp: nat, rest: Bytes)
    requires cp <= MAX_POINT
    ensures LowerPoint(cp) <= MAX_POINT && Fold(Encode(cp) + rest) == Encode(LowerPoint(cp)) + Fold(rest)
  {
    var s := Encode(cp) + rest;
    if cp < 0x80 {
      assert s[1..] == rest;
    } else if 0x400 <= cp < 0x440 {
      assert s[0] == 0xD0 && s[1] == 0x80 + cp % 64 && s[2..] == rest;
    } else {
      FoldCopies(Encode(cp), rest);
    }
  }

  /** Decoding commutes with the fold: on encoded text it lowers every code point. */
  lemma {:induction false} FoldLowersPoints(cps: seq<nat>)
    requires Encodable(cps)
    ensures Encodable(LowerAll(cps)) && Fold(EncodeAll(cps)) == EncodeAll(LowerAll(cps))
  {
    if cps != [] {
      FoldOfPoint(cps[0], EncodeAll(cps[1..]));
      FoldLowersPoints(cps[1..]);
      assert LowerAll(cps)[1..] == LowerAll(cps[1..]);
    }
  }

  lemma LowerKeepsScalars(cps: seq<nat>)
    requires Scalars(cps)
    ensures Scalars(LowerAll(cps))
  {
    forall i | 0 <= i < |cps| ensures IsScalar(LowerPoint(cps[i])) { assert IsScalar(cps[i]); }
  }

  /** Well-formed text stays well-formed, and its code points are lowered one by one. */
  lemma FoldOfWellFormed(text: Bytes)
    requires WellFormed(text)
    ensures WellFormed(Fold(text)) && Points(Fold(text)) == LowerAll(Points(text))
  {
    var cps :| Scalars(cps) && text == EncodeAll(cps);
    DecodeEncodeAll(cps);
    FoldLowersPoints(cps);
    DecodeEncodeAll(LowerAll(cps));
    LowerKeepsScalars(cps);
  }

  // ---------------------------------------------------------------- the search

  lemma OccursBetween<T>(a: seq<T>, p: seq<T>, b: seq<T>)
    ensures OccursAt(a + (p + b), p, |a|)
  {
    assert (a + (p + b))[|a|..|a| + |p|] == p;
  }

  /** A code point run is found byte by byte. */
  lemma RunIsFound(hay: seq<nat>, pat: seq<nat>)
    requires Encodable(hay) && Encodable(pat) && Contains(hay, pat)
    ensures Contains(EncodeAll(hay), EncodeAll(pat))
  {
    var i: nat :| i <= |hay| && OccursAt(hay, pat, i);
    SplitAtBoundary(hay, i);
    SplitAtBoundary(hay[i..], |pat|);
    assert hay[i..][..|pat|] == pat;
    OccursBetween(EncodeAll(hay[..i]), EncodeAll(pat), EncodeAll(hay[i..][|pat|..]));
  }

  /** A byte match of a nonempty encoded pattern starts at a character. */
  lemma FoundAtCharacter(hay: seq<nat>, pat: seq<nat>, i: nat) returns (k: nat)
    requires Encodable(hay) && Encodable(pat) && pat != [] && OccursAt(EncodeAll(hay), EncodeAll(pat), i)
    ensures k <= |hay| && |EncodeAll(hay[..k])| == i
  {
    EncodeShape(pat[0]);
    assert EncodeAll(hay)[i] == EncodeAll(pat)[0] == Encode(pat[0])[0];
    BoundaryIsNotCont(hay, i);
    k :| 0 <= k <= |hay| && |EncodeAll(hay[..k])| == i;
  }

  lemma PrefixOccurs<T>(s: seq<T>, p: seq<T>, k: nat)
    requires k <= |s| && p <= s[k..]
    ensures OccursAt(s, p, k)
  {
    assert s[k..k + |p|] == s[k..][..|p|];
  }

  lemma OccursIsPrefix<T>(a: seq<T>, b: seq<T>, p: seq<T>)
    requires OccursAt(a + b, p, |a|)
    ensures p <= b
  {
    assert (a + b)[|a|..|a| + |p|] == b[..|p|];
  }

  /** So it is a code point run. */
  lemma FoundIsRun(hay: seq<nat>, pat: seq<nat>)
    requires Encodable(hay) && Encodable(pat) && pat != [] && Contains(EncodeAll(hay), EncodeAll(pat))
    ensures Contains(hay, pat)
  {
    var h, p := EncodeAll(hay), EncodeAll(pat);
    var i: nat :| i <= |h| && OccursAt(h, p, i);
    var k := FoundAtCharacter(hay, pat, i);
    SplitAtBoundary(hay, k);
    OccursIsPrefix(EncodeAll(hay[..k]), EncodeAll(hay[k..]), p);
    PrefixDecodes(pat, hay[k..]);
    PrefixOccurs(hay, pat, k);
  }

  /** Byte search and code point search agree. */
  lemma SearchAgrees(hay: seq<nat>, pat: seq<nat>)
    requires Encodable(hay) && Encodable(pat) && pat != []
    ensures Contains(EncodeAll(hay), EncodeAll(pat)) <==> Contains(hay, pat)
  {
    if Contains(hay, pat) { RunIsFound(hay, pat); }
    if Contains(EncodeAll(hay), EncodeAll(pat)) { FoundIsRun(hay, pat); }
  }

  // ---------------------------------------------------------------- the filter

  /** kFilterPatterns */
  const PATTERNS: seq<string> := [
    "заработай в телеграм", "пассивный доход", "вложение от",
    "гарантия дохода", "нужны люди для", "ссылка в био",
    "пиши в лс", "удалённая работа", "доход в день",
    "вы плывете", "консультация бесплатно"]

  function PointsOf(s: string): (r: seq<nat>)
    ensures |r| == |s|
  {
    seq(|s|, i requires 0 <= i < |s| => s[i] as nat)
  }

  function PatternBytes(s: string): Bytes {
    EncodeAll(PointsOf(s))
  }

  /** The first pattern that occurs in lower text, or the empty string. */
  function FirstMatch(patterns: seq<string>, lower: Bytes): string {
    if patterns == [] then ""
    else if Contains(lower, PatternBytes(patterns[0])) then patterns[0]
    else FirstMatch(patterns[1..], lower)
  }

  method MatchFilter(patterns: seq<string>, lower: Bytes) returns (matched: string)
    ensures matched == FirstMatch(patterns, lower)
  {
    for k := 0 to |patterns|
      invariant FirstMatch(patterns[k..], lower) == FirstMatch(patterns, lower)
    {
      if Contains(lower, PatternBytes(patterns[k])) {
        return patterns[k];
      }
    }
    return "";
  }

  /** What the filter means: the first phrase that occurs in the lowered code points of the message. */
  function FirstPhrase(patterns: seq<string>, lower: seq<nat>): string {
    if patterns == [] then ""
    else if Contains(lower, PointsOf(patterns[0])) then patterns[0]
    else FirstPhrase(patterns[1..], lower)
  }

  lemma {:induction false} MatchIsPhrase(patterns: seq<string>, cps: seq<nat>)
    requires Encodable(cps) && forall k | 0 <= k < |patterns| :: patterns[k] != ""
    ensures FirstMatch(patterns, EncodeAll(cps)) == FirstPhrase(patterns, cps)
  {
    if patterns != [] {
      SearchAgrees(cps, PointsOf(patterns[0]));
      MatchIsPhrase(patterns[1..], cps);
    }
  }

  lemma PatternsNonempty(k: nat)
    requires k < |PATTERNS|
    ensures PATTERNS[k] != ""
  {}

  /** For every well-formed message, byte fold and byte search find the phrase the code points contain. */
  lemma FilterMeansPhrases(text: Bytes)
    requires WellFormed(text)
    ensures FirstMatch(PATTERNS, Fold(text)) == FirstPhrase(PATTERNS, LowerAll(Points(text)))
  {
    FoldOfWellFormed(text);
    WellFormedIffScalar(Fold(text));
    CanonicalRoundTrip(Fold(text));
    forall k | 0 <= k < |PATTERNS| ensures PATTERNS[k] != "" { PatternsNonempty(k); }
    MatchIsPhrase(PATTERNS, LowerAll(Points(text)));
  }

  /** A phrase is reported exactly when one of the list occurs, whatever the case of its letters. */
  lemma {:induction false} PhraseIffSome(patterns: seq<string>, lower: seq<nat>)
    requires forall k | 0 <= k < |patterns| :: patterns[k] != ""
    ensures FirstPhrase(patterns, lower) != ""
         <==> exists k :: 0 <= k < |patterns| && Contains(lower, PointsOf(patterns[k]))
  {
    if patterns != [] {
      PhraseIffSome(patterns[1..], lower);
      assert forall k | 1 <= k < |patterns| :: patterns[k] == patterns[1..][k - 1];
      if k :| 0 <= k < |patterns[1..]| && Contains(lower, PointsOf(patterns[1..][k])) {
        assert Contains(lower, PointsOf(patterns[k + 1]));
      }
    }
  }

  /** The filter answers a well-formed message exactly when its code points, lowered, contain a phrase of the list. */
  lemma FiltersIff(text: Bytes)
    requires WellFormed(text)
    ensures FirstMatch(PATTERNS, Fold(text)) != ""
       <==> exists k :: 0 <= k < |PATTERNS| && Contains(LowerAll(Points(text)), PointsOf(PATTERNS[k]))
  {
    FilterMeansPhrases(text);
    forall k | 0 <= k < |PATTERNS| ensures PATTERNS[k] != "" { PatternsNonempty(k); }
    PhraseIffSome(PATTERNS, LowerAll(Points(text)));
  }

  /** The phrases are already lower case, so folding the message is all that matching them takes. */
  lemma PatternsAreLower(k: nat, i: nat)
    requires k < |PATTERNS| && i < |PATTERNS[k]|
    ensures LowerPoint(PATTERNS[k][i] as nat) == PATTERNS[k][i] as nat
  {
  }

  /** The empty text holds no phrase, so the filter lets it pass. */
  lemma {:induction false} NothingInEmpty(patterns: seq<string>)
    requires forall k | 0 <= k < |patterns| :: patterns[k] != ""
    ensures FirstMatch(patterns, Fold([])) == ""
  {
    if patterns != [] {
      NothingInEmpty(patterns[1..]);
      var cps := PointsOf(patterns[0]);
      assert EncodeAll(cps) == Encode(cps[0]) + EncodeAll(cps[1..]);
      assert !Contains([], PatternBytes(patterns[0]));
    }
  }

  lemma EmptyTextPasses()
    ensures FirstMatch(PATTERNS, Fold([])) == ""
  {
    forall k | 0 <= k < |PATTERNS| ensures PATTERNS[k] != "" { PatternsNonempty(k); }
    NothingInEmpty(PATTERNS);
  }
}
