/** Cutting text at a character boundary: truncateUtf8 and the log's message_preview. */
module Clipping {
  import opened Bytes
  import opened Utf8
  import Sanitizer

  /** The largest position up to n that is 0 or not a continuation byte. */
  function CutBefore(text: Bytes, n: nat): (cut: nat)
    requires n < |text|
    ensures cut <= n
  {
    if n > 0 && IsCont(text[n]) then CutBefore(text, n - 1) else n
  }

  function Clip(text: Bytes, maxBytes: nat): Bytes {
    if |text| <= maxBytes then text else text[..CutBefore(text, maxBytes)]
  }

  /** helpers::truncateUtf8 */
  method TruncateUtf8(text: Bytes, maxBytes: nat) returns (r: Bytes)
    ensures r == Clip(text, maxBytes)
  {
    if |text| <= maxBytes {
      return text;
    }
    var cut := maxBytes;
    while cut > 0 && IsCont(text[cut])
      invariant 0 <= cut <= maxBytes
      invariant CutBefore(text, cut) == CutBefore(text, maxBytes)
    {
      cut := cut - 1;
    }
    return text[..cut];
  }

  /** message_preview of the auto-moderator: the same cut, with a default of 50 bytes. */
  method MessagePreview(text: Bytes, maxBytes: nat := 50) returns (r: Bytes)
    ensures r == Clip(text, maxBytes)
  {
    if |text| <= maxBytes {
      return text;
    }
    var end := maxBytes;
    while end > 0 && IsCont(text[end])
      invariant 0 <= end <= maxBytes
      invariant CutBefore(text, end) == CutBefore(text, maxBytes)
    {
      end := end - 1;
    }
    return text[..end];
  }

  lemma {:induction false} CutIsLastStart(text: Bytes, n: nat, m: nat)
    requires n < |text| && m <= n && (m == 0 || !IsCont(text[m]))
    ensures m <= CutBefore(text, n) && (CutBefore(text, n) == 0 || !IsCont(text[CutBefore(text, n)]))
  {
    if n > 0 && IsCont(text[n]) { CutIsLastStart(text, n - 1, m); }
  }

  /** Encoded text is clipped to an encoded prefix, whole code points only. */
  lemma ClipKeepsWholePoints(cps: seq<nat>, maxBytes: nat) returns (k: nat)
    requires Encodable(cps)
    ensures k <= |cps| && Clip(EncodeAll(cps), maxBytes) == EncodeAll(cps[..k]) && |EncodeAll(cps[..k])| <= maxBytes
  {
    var text := EncodeAll(cps);
    if |text| <= maxBytes {
      k := |cps|;
      assert cps[..k] == cps;
    } else {
      var cut := CutBefore(text, maxBytes);
      CutIsLastStart(text, maxBytes, 0);
      BoundaryIsNotCont(cps, cut);
      if cut == 0 { assert |EncodeAll(cps[..0])| == 0; }
      k :| 0 <= k <= |cps| && |EncodeAll(cps[..k])| == cut;
      SplitAtBoundary(cps, k);
    }
  }

  /** Every canonical prefix that fits is a prefix of the clip: the clip is the longest. */
  lemma ClipIsLongest(cps: seq<nat>, maxBytes: nat, m: nat)
    requires Encodable(cps) && m <= maxBytes && m <= |EncodeAll(cps)| && Canonical(EncodeAll(cps)[..m])
    ensures m <= |Clip(EncodeAll(cps), maxBytes)|
  {
    var text := EncodeAll(cps);
    if |text| > maxBytes {
      var p :| Encodable(p) && text[..m] == EncodeAll(p);
      PrefixDecodes(p, cps);
      assert cps[..|p|] == p;
      assert IsBoundary(cps, m);
      BoundaryIsNotCont(cps, m);
      CutIsLastStart(text, maxBytes, m);
    }
  }

  /** On well-formed UTF-8 the clip is the longest well-formed prefix of at most maxBytes bytes. */
  lemma ClipOfWellFormed(text: Bytes, maxBytes: nat)
    requires WellFormed(text)
    ensures var r := Clip(text, maxBytes);
      && r <= text && |r| <= maxBytes && WellFormed(r)
      && forall m: nat | m <= maxBytes && m <= |text| && WellFormed(text[..m]) :: m <= |r|
  {
    var cps :| Scalars(cps) && text == EncodeAll(cps);
    var k := ClipKeepsWholePoints(cps, maxBytes);
    assert Scalars(cps[..k]);
    SplitAtBoundary(cps, k);
    forall m: nat | m <= maxBytes && m <= |text| && WellFormed(text[..m]) ensures m <= |Clip(text, maxBytes)| {
      var p :| Scalars(p) && text[..m] == EncodeAll(p);
      ClipIsLongest(cps, maxBytes, m);
    }
  }

  /** Clipping sanitised text leaves it sanitised. */
  lemma ClipOfSanitized(s: Bytes, maxBytes: nat)
    ensures var r := Clip(Sanitizer.Sanitize(s), maxBytes); Sanitizer.Sanitize(r) == r
  {
    Sanitizer.SanitizeKeeps(s);
    var kept := Sanitizer.Kept(Points(s));
    PointsEncodable(s);
    Sanitizer.KeptEncodable(Points(s));
    var k := ClipKeepsWholePoints(kept, maxBytes);
    DecodeEncodeAll(kept[..k]);
    Sanitizer.SanitizeFixes(EncodeAll(kept[..k]));
  }
}
