/**
 The text of the merged configuration (the Python part of scripts/build.sh) and a reader
 for it, after the sections "Comment", "Keys", "String", "Integer", "Boolean" and "Table"
 of TOML v1.0.0.
 */
module Toml {
  import opened Bytes
  import opened Wrappers
  import opened Numbers
  import opened Tables
  import Substitution

  const QUOTE: Byte := 0x22
  const BACKSLASH: Byte := 0x5C
  const NEWLINE: Byte := 0x0A
  const RETURN: Byte := 0x0D

  // ---------------------------------------------------------------- strings

  const Q3: Bytes := [0x22, 0x22, 0x22]
  const ESCAPED_Q3: Bytes := [0x5C, 0x22, 0x5C, 0x22, 0x5C, 0x22]

  /** value.replace("\\", "\\\\").replace(..), as two passes. */
  ghost function Escaped(s: Bytes): Bytes {
    var doubled := Substitution.Pass(s, [BACKSLASH], [BACKSLASH, BACKSLASH]);
    if NEWLINE in s then Substitution.Pass(doubled, Q3, ESCAPED_Q3)
    else Substitution.Pass(doubled, [QUOTE], [BACKSLASH, QUOTE])
  }

  ghost function TomlString(s: Bytes): Bytes {
    if NEWLINE in s then Q3 + Escaped(s) + Q3 else [QUOTE] + Escaped(s) + [QUOTE]
  }

  method FormatString(s: Bytes) returns (r: Bytes)
    ensures r == TomlString(s)
  {
    r := Substitution.ReplaceAll(s, [BACKSLASH], [BACKSLASH, BACKSLASH]);
    if NEWLINE in s {
      r := Substitution.ReplaceAll(r, Q3, ESCAPED_Q3);
      r := Q3 + r + Q3;
    } else {
      r := Substitution.ReplaceAll(r, [QUOTE], [BACKSLASH, QUOTE]);
      r := [QUOTE] + r + [QUOTE];
    }
  }

  /** The single-line escape, byte by byte. */
  function EscapeLine(s: Bytes): Bytes {
    if s == [] then []
    else (if s[0] == QUOTE || s[0] == BACKSLASH then [BACKSLASH, s[0]] else [s[0]]) + EscapeLine(s[1..])
  }

  /** The multi-line escape: backslashes and runs of three quotes. */
  function EscapeText(s: Bytes): Bytes
    decreases |s|
  {
    if s == [] then []
    else if Q3 <= s then ESCAPED_Q3 + EscapeText(s[3..])
    else if s[0] == BACKSLASH then [BACKSLASH, BACKSLASH] + EscapeText(s[1..])
    else [s[0]] + EscapeText(s[1..])
  }

  ghost function Doubled(s: Bytes): Bytes {
    Substitution.Pass(s, [BACKSLASH], [BACKSLASH, BACKSLASH])
  }

  lemma DoubledUnfolds(s: Bytes)
    requires s != []
    ensures Doubled(s) == (if s[0] == BACKSLASH then [BACKSLASH, BACKSLASH] else [s[0]]) + Doubled(s[1..])
  {
    Substitution.PassUnfolds(s, [BACKSLASH], [BACKSLASH, BACKSLASH]);
    assert [BACKSLASH] <= s <==> s[0] == BACKSLASH;
  }

  lemma SingleUnfolds(s: Bytes)
    requires s != []
    ensures Substitution.Pass(s, [QUOTE], [BACKSLASH, QUOTE])
         == (if s[0] == QUOTE then [BACKSLASH, QUOTE] else [s[0]])
           + Substitution.Pass(s[1..], [QUOTE], [BACKSLASH, QUOTE])
  {
    Substitution.PassUnfolds(s, [QUOTE], [BACKSLASH, QUOTE]);
    assert [QUOTE] <= s <==> s[0] == QUOTE;
  }

  lemma {:induction false} LineIsPasses(s: Bytes)
    ensures Substitution.Pass(Doubled(s), [QUOTE], [BACKSLASH, QUOTE]) == EscapeLine(s)
  {
    if s != [] {
      LineIsPasses(s[1..]);
      DoubledUnfolds(s);
      var rest := Doubled(s[1..]);
      if s[0] == BACKSLASH {
        var d := [BACKSLASH] + ([BACKSLASH] + rest);
        assert Doubled(s) == d;
        SingleUnfolds(d);
        Head(BACKSLASH, [BACKSLASH] + rest);
        SingleUnfolds([BACKSLASH] + rest);
        Head(BACKSLASH, rest);
      } else {
        SingleUnfolds([s[0]] + rest);
        Head(s[0], rest);
      }
    }
  }

  /** The first three bytes of s are quotes exactly when those of the doubled text are. */
  lemma {:induction false} QuotesInFront(s: Bytes, n: nat)
    requires n <= 3
    ensures Q3[..n] <= Doubled(s) <==> Q3[..n] <= s
  {
    if n > 0 && s != [] {
      DoubledUnfolds(s);
      QuotesInFront(s[1..], n - 1);
      QuoteSteps(s, n);
      QuoteSteps(Doubled(s), n);
      if s[0] != BACKSLASH { Head(s[0], Doubled(s[1..])); }
    }
  }

  lemma QuoteSteps(s: Bytes, n: nat)
    requires 1 <= n <= 3 && s != []
    ensures Q3[..n] <= s <==> s[0] == QUOTE && Q3[..n - 1] <= s[1..]
  {
    assert Q3[..n] == [QUOTE] + Q3[..n - 1];
    assert s == [s[0]] + s[1..];
  }

  lemma {:induction false} TextIsPasses(s: Bytes)
    ensures Substitution.Pass(Doubled(s), Q3, ESCAPED_Q3) == EscapeText(s)
    decreases |s|
  {
    if s != [] {
      var d := Doubled(s);
      assert Q3[..3] == Q3;
      QuotesInFront(s, 3);
      Substitution.PassUnfolds(d, Q3, ESCAPED_Q3);
      if Q3 <= s {
        TextIsPasses(s[3..]);
        ThreeQuotes(s);
      } else {
        TextIsPasses(s[1..]);
        DoubledUnfolds(s);
        var rest := Doubled(s[1..]);
        if s[0] == BACKSLASH {
          assert d == [BACKSLASH] + ([BACKSLASH] + rest);
          Head(BACKSLASH, [BACKSLASH] + rest);
          Substitution.PassUnfolds([BACKSLASH] + rest, Q3, ESCAPED_Q3);
          Head(BACKSLASH, rest);
        } else {
          Head(s[0], rest);
        }
      }
    }
  }

  lemma ThreeQuotes(s: Bytes)
    requires Q3 <= s
    ensures Doubled(s) == Q3 + Doubled(s[3..])
  {
    assert s[0] == QUOTE && s[1] == QUOTE && s[2] == QUOTE;
    DoubledUnfolds(s);
    DoubledUnfolds(s[1..]);
    DoubledUnfolds(s[1..][1..]);
    assert s[1..][1..] == s[2..] && s[2..][1..] == s[3..];
    assert [QUOTE] + ([QUOTE] + ([QUOTE] + Doubled(s[3..]))) == Q3 + Doubled(s[3..]);
  }

  lemma EscapedIs(s: Bytes)
    ensures Escaped(s) == if NEWLINE in s then EscapeText(s) else EscapeLine(s)
  {
    if NEWLINE in s { TextIsPasses(s); } else { LineIsPasses(s); }
  }

  // ---------------------------------------------------------------- reading strings

  /** Control characters other than tab are not allowed in strings; newlines only in multi-line ones. */
  predicate IsLegal(b: Byte, multi: bool) {
    b == 0x09 || (b == NEWLINE && multi) || (b >= 0x20 && b != 0x7F)
  }

  predicate AllLegal(s: Bytes, multi: bool) {
    forall b | b in s :: IsLegal(b, multi)
  }

  /** The short escapes. */
  function Unescape(b: Byte): Option<Byte> {
    if b == QUOTE || b == BACKSLASH then Some(b)
    else if b == 0x62 then Some(0x08)
    else if b == 0x74 then Some(0x09)
    else if b == 0x6E then Some(0x0A)
    else if b == 0x66 then Some(0x0C)
    else if b == 0x72 then Some(0x0D)
    else None
  }

  type Rest<T> = Option<(T, Bytes)>

  function Prepend(s: Bytes, r: Rest<Bytes>): Rest<Bytes> {
    if r.None? then None else Some((s + r.value.0, r.value.1))
  }

  /** A basic string behind its opening quote. */
  function ReadLine(s: Bytes): (r: Rest<Bytes>)
    ensures r.Some? ==> |r.value.1| < |s|
    decreases |s|
  {
    if s == [] then None
    else if s[0] == QUOTE then Some(([], s[1..]))
    else if s[0] == BACKSLASH then
      if |s| < 2 || Unescape(s[1]).None? then None else Prepend([Unescape(s[1]).value], ReadLine(s[2..]))
    else if !IsLegal(s[0], false) then None
    else Prepend([s[0]], ReadLine(s[1..]))
  }

  /** Behind the closing quotes one or two more quotes still belong to the string. */
  function ReadEnd(s: Bytes): (r: (Bytes, Bytes))
    ensures |r.1| <= |s|
  {
    if |s| >= 2 && s[0] == QUOTE && s[1] == QUOTE then (s[..2], s[2..])
    else if s != [] && s[0] == QUOTE then (s[..1], s[1..])
    else ([], s)
  }

  /** A multi-line basic string behind its opening quotes and the newline that may follow them. */
  function ReadText(s: Bytes): (r: Rest<Bytes>)
    ensures r.Some? ==> |r.value.1| < |s|
    decreases |s|
  {
    if s == [] then None
    else if Q3 <= s then Some(ReadEnd(s[3..]))
    else if s[0] == BACKSLASH then
      if |s| < 2 || Unescape(s[1]).None? then None else Prepend([Unescape(s[1]).value], ReadText(s[2..]))
    else if !IsLegal(s[0], true) then None
    else Prepend([s[0]], ReadText(s[1..]))
  }

  function ReadString(s: Bytes): (r: Rest<Bytes>)
    requires s != [] && s[0] == QUOTE
    ensures r.Some? ==> |r.value.1| < |s|
  {
    if Q3 <= s then
      if |s| > 3 && s[3] == NEWLINE then ReadText(s[4..]) else ReadText(s[3..])
    else ReadLine(s[1..])
  }

  lemma {:induction false} LineReadsBack(s: Bytes, rest: Bytes)
    ensures ReadLine(EscapeLine(s) + ([QUOTE] + rest)) == if AllLegal(s, false) then Some((s, rest)) else None
  {
    var end := [QUOTE] + rest;
    if s == [] {
      assert EscapeLine(s) + end == end;
      Head(QUOTE, rest);
    } else {
      LineReadsBack(s[1..], rest);
      LegalSteps(s, false);
      var tail := EscapeLine(s[1..]) + end;
      assert s == [s[0]] + s[1..];
      if s[0] == QUOTE || s[0] == BACKSLASH {
        assert EscapeLine(s) + end == [BACKSLASH] + ([s[0]] + tail);
        EscapeRead(s[0], tail);
      } else {
        assert EscapeLine(s) + end == [s[0]] + tail;
        Head(s[0], tail);
      }
    }
  }

  lemma LegalSteps(s: Bytes, multi: bool)
    requires s != []
    ensures AllLegal(s, multi) <==> IsLegal(s[0], multi) && AllLegal(s[1..], multi)
  {
    assert s == [s[0]] + s[1..] && s[0] in s && forall b | b in s[1..] :: b in s;
  }

  lemma EscapeRead(c: Byte, tail: Bytes)
    requires c == QUOTE || c == BACKSLASH
    ensures ReadLine([BACKSLASH] + ([c] + tail)) == Prepend([c], ReadLine(tail))
    ensures ReadText([BACKSLASH] + ([c] + tail)) == Prepend([c], ReadText(tail))
  {
    var s := [BACKSLASH] + ([c] + tail);
    assert s[1] == c && s[2..] == tail && s[0] != Q3[0];
  }

  lemma QuotesAre(s: Bytes)
    ensures Q3 <= s <==> |s| >= 3 && s[0] == QUOTE && s[1] == QUOTE && s[2] == QUOTE
  {
    assert |s| >= 3 && s[0] == QUOTE && s[1] == QUOTE && s[2] == QUOTE ==> s[..3] == Q3;
  }

  lemma TextUnfolds(s: Bytes, end: Bytes)
    requires s != []
    ensures Q3 <= s ==> EscapeText(s) + end == ESCAPED_Q3 + (EscapeText(s[3..]) + end)
    ensures !(Q3 <= s) && s[0] == BACKSLASH
         ==> EscapeText(s) + end == [BACKSLASH] + ([BACKSLASH] + (EscapeText(s[1..]) + end))
    ensures !(Q3 <= s) && s[0] != BACKSLASH ==> EscapeText(s) + end == [s[0]] + (EscapeText(s[1..]) + end)
  {
    if Q3 <= s {
      Append3(ESCAPED_Q3, EscapeText(s[3..]), end);
    } else if s[0] == BACKSLASH {
      Append3([BACKSLASH, BACKSLASH], EscapeText(s[1..]), end);
      Append3([BACKSLASH], [BACKSLASH], EscapeText(s[1..]) + end);
    } else {
      Append3([s[0]], EscapeText(s[1..]), end);
    }
  }

  lemma {:induction false} TextReadsBack(s: Bytes, rest: Bytes)
    requires rest == [] || rest[0] != QUOTE
    ensures ReadText(EscapeText(s) + (Q3 + rest)) == if AllLegal(s, true) then Some((s, rest)) else None
    decreases |s|
  {
    var end := Q3 + rest;
    if s == [] {
      assert EscapeText(s) + end == end && end[3..] == rest;
    } else {
      TextUnfolds(s, end);
      if Q3 <= s {
        TextReadsBack(s[3..], rest);
        ThreeRead(s, EscapeText(s[3..]) + end, rest);
      } else {
        TextReadsBack(s[1..], rest);
        if s[0] == QUOTE { QuoteRead(s, rest); } else { PlainRead(s, EscapeText(s[1..]) + end, rest); }
      }
    }
  }

  /** A backslash or an ordinary character. */
  lemma PlainRead(s: Bytes, tail: Bytes, rest: Bytes)
    requires s != [] && s[0] != QUOTE && ReadText(tail) == if AllLegal(s[1..], true) then Some((s[1..], rest)) else None
    ensures ReadText(if s[0] == BACKSLASH then [BACKSLASH] + ([BACKSLASH] + tail) else [s[0]] + tail)
         == if AllLegal(s, true) then Some((s, rest)) else None
  {
    LegalSteps(s, true);
    assert s == [s[0]] + s[1..];
    if s[0] == BACKSLASH {
      EscapeRead(BACKSLASH, tail);
    } else {
      Head(s[0], tail);
      assert !(Q3 <= [s[0]] + tail);
    }
  }

  lemma ThreeRead(s: Bytes, tail: Bytes, rest: Bytes)
    requires Q3 <= s && ReadText(tail) == if AllLegal(s[3..], true) then Some((s[3..], rest)) else None
    ensures ReadText(ESCAPED_Q3 + tail) == if AllLegal(s, true) then Some((s, rest)) else None
  {
    EscapeRead(QUOTE, tail);
    var one := [BACKSLASH] + ([QUOTE] + tail);
    EscapeRead(QUOTE, one);
    var two := [BACKSLASH] + ([QUOTE] + one);
    EscapeRead(QUOTE, two);
    assert ESCAPED_Q3 + tail == [BACKSLASH] + ([QUOTE] + two);
    assert s == Q3 + s[3..];
    assert AllLegal(s, true) <==> AllLegal(s[3..], true) by {
      assert forall b | b in s :: b in Q3 || b in s[3..];
      assert forall b | b in s[3..] :: b in s;
    }
    assert [QUOTE] + ([QUOTE] + ([QUOTE] + s[3..])) == s;
  }

  /** One or two quotes: at the end of the text they stand before the closing ones, elsewhere before something else. */
  lemma QuoteRead(s: Bytes, rest: Bytes)
    requires s != [] && s[0] == QUOTE && !(Q3 <= s) && (rest == [] || rest[0] != QUOTE)
    requires ReadText(EscapeText(s[1..]) + (Q3 + rest)) == if AllLegal(s[1..], true) then Some((s[1..], rest)) else None
    ensures ReadText([QUOTE] + (EscapeText(s[1..]) + (Q3 + rest)))
         == if AllLegal(s, true) then Some((s, rest)) else None
  {
    var tail := EscapeText(s[1..]) + (Q3 + rest);
    var t := [QUOTE] + tail;
    Head(QUOTE, tail);
    LegalSteps(s, true);
    if s == [QUOTE] {
      assert tail == Q3 + rest && t[3..] == [QUOTE] + rest && Q3 <= t;
      assert s[..1] == ([QUOTE] + rest)[..1];
    } else if s == [QUOTE, QUOTE] {
      assert s[1..] == [QUOTE] && EscapeText([QUOTE]) == [QUOTE];
      assert tail == [QUOTE] + (Q3 + rest) && t[3..] == [QUOTE, QUOTE] + rest && Q3 <= t;
      assert ([QUOTE, QUOTE] + rest)[..2] == s;
    } else {
      NotThree(s, tail);
      assert s == [QUOTE] + s[1..];
    }
  }

  lemma NotThree(s: Bytes, tail: Bytes)
    requires |s| >= 2 && s[0] == QUOTE && !(Q3 <= s) && s != [QUOTE, QUOTE]
    requires EscapeText(s[1..]) <= tail
    ensures !(Q3 <= [QUOTE] + tail)
  {
    var e := EscapeText(s[1..]);
    QuotesAre(s);
    QuotesAre(s[1..]);
    if s[1] == QUOTE {
      assert s[1..][1..] == s[2..] && s[2] != QUOTE;
      assert e == [QUOTE] + EscapeText(s[2..]);
      assert EscapeText(s[2..])[0] == s[2];
      assert tail[1] == e[1] == s[2];
      assert ([QUOTE] + tail)[2] == s[2];
    } else {
      assert e[0] == s[1];
      assert ([QUOTE] + tail)[1] == s[1];
    }
  }

  // ---------------------------------------------------------------- which strings survive

  /** The loader turns carriage return and newline into newline before parsing. */
  function Uncrlf(s: Bytes): (r: Bytes)
    ensures |r| <= |s|
  {
    if s == [] then []
    else if s[0] == RETURN && |s| > 1 && s[1] == NEWLINE then Uncrlf(s[1..])
    else [s[0]] + Uncrlf(s[1..])
  }

  lemma UncrlfStep(c: Byte, s: Bytes)
    requires c != RETURN || s == [] || s[0] != NEWLINE
    ensures Uncrlf([c] + s) == [c] + Uncrlf(s)
  {
    Head(c, s);
  }

  lemma {:induction false} UncrlfIsId(s: Bytes)
    requires RETURN !in s
    ensures Uncrlf(s) == s
  {
    if s != [] {
      assert s[0] in s && forall b | b in s[1..] :: b in s;
      UncrlfIsId(s[1..]);
    }
  }

  /** It keeps the length exactly when it changes nothing, and takes no newline away. */
  lemma {:induction false} UncrlfShortens(s: Bytes)
    ensures |Uncrlf(s)| == |s| ==> Uncrlf(s) == s
    ensures NEWLINE in Uncrlf(s) <==> NEWLINE in s
  {
    if s != [] {
      UncrlfShortens(s[1..]);
      assert s == [s[0]] + s[1..];
    }
  }

  /** Nothing to change in a part without newlines. */
  lemma {:induction false} UncrlfSkips(a: Bytes, end: Bytes)
    requires NEWLINE !in a && (RETURN !in a || (end != [] && end[0] != NEWLINE))
    ensures Uncrlf(a + end) == a + Uncrlf(end)
  {
    if a == [] {
      assert a + end == end;
    } else {
      assert a[0] in a && forall b | b in a[1..] :: b in a;
      UncrlfSkips(a[1..], end);
      assert (a + end) == [a[0]] + (a[1..] + end);
      assert a[1..] != [] ==> a[1] in a;
      UncrlfStep(a[0], a[1..] + end);
    }
  }

  lemma {:induction false} LineHasNoNewline(s: Bytes)
    requires NEWLINE !in s
    ensures NEWLINE !in EscapeLine(s)
  {
    if s != [] {
      assert s[0] in s && forall b | b in s[1..] :: b in s;
      LineHasNoNewline(s[1..]);
    }
  }

  lemma FirstByte(s: Bytes, end: Bytes)
    requires end != [] && end[0] == QUOTE
    ensures s != [] && !(Q3 <= s) ==> (EscapeText(s) + end)[0] == s[0]
    ensures (EscapeText(s) + end)[0] == NEWLINE <==> s != [] && s[0] == NEWLINE
  {
    if s != [] {
      TextUnfolds(s, end);
      QuotesAre(s);
    }
  }

  lemma QuoteKept(s: Bytes)
    ensures (Uncrlf(s) != [] && Uncrlf(s)[0] == QUOTE) <==> (s != [] && s[0] == QUOTE)
    ensures s != [] && s[0] == QUOTE ==> Uncrlf(s)[1..] == Uncrlf(s[1..])
  {}

  lemma UncrlfQuotes(s: Bytes)
    ensures Q3 <= Uncrlf(s) <==> Q3 <= s
    ensures Q3 <= s ==> Uncrlf(s)[3..] == Uncrlf(s[3..])
  {
    QuotesAre(s);
    var u := Uncrlf(s);
    QuotesAre(u);
    QuoteKept(s);
    if s != [] && s[0] == QUOTE {
      QuoteKept(s[1..]);
      assert |u| > 1 ==> u[1] == u[1..][0];
      if |s| > 1 && s[1] == QUOTE {
        assert s[1..][1..] == s[2..] && u[1..][1..] == u[2..];
        QuoteKept(s[2..]);
        assert |u| > 2 ==> u[2] == u[2..][0];
        if Q3 <= s { assert s[2..][1..] == s[3..] && u[2..][1..] == u[3..]; }
      }
    }
  }

  /** The loader's change and the escape commute. */
  lemma {:induction false} UncrlfText(s: Bytes, end: Bytes)
    requires end != [] && end[0] == QUOTE
    ensures Uncrlf(EscapeText(s) + end) == EscapeText(Uncrlf(s)) + Uncrlf(end)
    decreases |s|
  {
    if s == [] {
      assert EscapeText(s) + end == end;
    } else {
      var u := Uncrlf(s);
      TextUnfolds(s, end);
      UncrlfQuotes(s);
      if Q3 <= s {
        UncrlfText(s[3..], end);
        UncrlfSkips(ESCAPED_Q3, EscapeText(s[3..]) + end);
        Append3(ESCAPED_Q3, EscapeText(u[3..]), Uncrlf(end));
      } else {
        UncrlfText(s[1..], end);
        UncrlfOne(s, end);
      }
    }
  }

  lemma UncrlfOne(s: Bytes, end: Bytes)
    requires s != [] && !(Q3 <= s) && end != [] && end[0] == QUOTE
    requires Uncrlf(EscapeText(s[1..]) + end) == EscapeText(Uncrlf(s[1..])) + Uncrlf(end)
    ensures Uncrlf(EscapeText(s) + end) == EscapeText(Uncrlf(s)) + Uncrlf(end)
  {
    var tail, c := EscapeText(s[1..]) + end, s[0];
    TextUnfolds(s, end);
    FirstByte(s[1..], end);
    UncrlfQuotes(s);
    if c == BACKSLASH {
      UncrlfStep(c, [c] + tail);
      UncrlfStep(c, tail);
      TextUnfolds(Uncrlf(s), Uncrlf(end));
      Head(c, Uncrlf(s[1..]));
    } else if c == RETURN && |s| > 1 && s[1] == NEWLINE {
      Head(c, tail);
    } else {
      UncrlfStep(c, tail);
      TextUnfolds(Uncrlf(s), Uncrlf(end));
      Head(c, Uncrlf(s[1..]));
    }
  }

  /** Text without control characters other than tab and newline that does not begin with a newline. */
  predicate IsPrintable(s: Bytes) {
    AllLegal(s, true) && (s == [] || s[0] != NEWLINE)
  }

  /** The text of a string as the reader sees it. */
  ghost function Loaded(s: Bytes): Bytes {
    Uncrlf(TomlString(s) + [NEWLINE])
  }

  lemma LoadedLine(s: Bytes)
    requires NEWLINE !in s
    ensures Loaded(s) == [QUOTE] + (EscapeLine(s) + ([QUOTE] + [NEWLINE]))
  {
    EscapedIs(s);
    LineHasNoNewline(s);
    var e, end: Bytes := EscapeLine(s), [QUOTE] + [NEWLINE];
    assert TomlString(s) + [NEWLINE] == [QUOTE] + (e + end);
    UncrlfStep(QUOTE, e + end);
    UncrlfSkips(e, end);
    UncrlfStep(QUOTE, [NEWLINE]);
    UncrlfStep(NEWLINE, []);
  }

  lemma LoadedText(s: Bytes)
    requires NEWLINE in s
    ensures Loaded(s) == Q3 + (EscapeText(Uncrlf(s)) + (Q3 + [NEWLINE]))
  {
    EscapedIs(s);
    var e, end := EscapeText(s), Q3 + [NEWLINE];
    Regroup(e);
    UncrlfSkips(Q3, e + end);
    UncrlfText(s, end);
    UncrlfEnd();
  }

  lemma Regroup(e: Bytes)
    ensures Q3 + e + Q3 + [NEWLINE] == Q3 + (e + (Q3 + [NEWLINE]))
  {}

  lemma UncrlfEnd()
    ensures Uncrlf(Q3 + [NEWLINE]) == Q3 + [NEWLINE]
  {
    UncrlfIsId(Q3 + [NEWLINE]);
  }

  lemma LegalLine(s: Bytes)
    requires NEWLINE !in s
    ensures AllLegal(s, false) <==> IsPrintable(s)
  {
    if s != [] { assert s[0] in s; }
    if AllLegal(s, false) { assert AllLegal(s, true); }
    if AllLegal(s, true) {
      forall b | b in s ensures IsLegal(b, false) { assert IsLegal(b, true); }
    }
  }

  /** A one-line string is not taken for the start of a multi-line one. */
  lemma NotMultiLine(e: Bytes, rest: Bytes)
    requires (rest == [] || rest[0] != QUOTE) && (e == [] || e[0] != QUOTE)
    ensures !(Q3 <= [QUOTE] + (e + ([QUOTE] + rest)))
  {
    var t := [QUOTE] + (e + ([QUOTE] + rest));
    QuotesAre(t);
    assert e != [] ==> t[1] == e[0];
    assert e == [] && rest != [] ==> t[2] == rest[0];
  }

  /** A string is read back from its text exactly when it is printable. */
  lemma StringReadsBackIff(s: Bytes)
    ensures Loaded(s) != [] && Loaded(s)[0] == QUOTE
    ensures ReadString(Loaded(s)) == Some((s, [NEWLINE])) <==> IsPrintable(s)
  {
    if NEWLINE !in s {
      LoadedLine(s);
      LineReadsBack(s, [NEWLINE]);
      LegalLine(s);
      NotMultiLine(EscapeLine(s), [NEWLINE]);
      Head(QUOTE, EscapeLine(s) + ([QUOTE] + [NEWLINE]));
    } else {
      LoadedText(s);
      TextRead(s);
    }
  }

  /** What is read for a multi-line string: a leading newline is gone. */
  lemma ReadsText(u: Bytes, rest: Bytes)
    requires NEWLINE in u && (rest == [] || rest[0] != QUOTE)
    ensures var t := if u[0] == NEWLINE then u[1..] else u;
      ReadString(Q3 + (EscapeText(u) + (Q3 + rest))) == if AllLegal(t, true) then Some((t, rest)) else None
  {
    var end := Q3 + rest;
    var body := EscapeText(u) + end;
    var s := Q3 + body;
    FirstByte(u, end);
    assert s[3..] == body && s[3] == body[0];
    if u[0] == NEWLINE {
      TextUnfolds(u, end);
      QuotesAre(u);
      assert s[4..] == body[1..];
      Head(NEWLINE, EscapeText(u[1..]) + end);
      TextReadsBack(u[1..], rest);
    } else {
      TextReadsBack(u, rest);
    }
  }

  lemma TextRead(s: Bytes)
    requires NEWLINE in s && Loaded(s) == Q3 + (EscapeText(Uncrlf(s)) + (Q3 + [NEWLINE]))
    ensures ReadString(Loaded(s)) == Some((s, [NEWLINE])) <==> IsPrintable(s)
  {
    UncrlfShortens(s);
    ReadsText(Uncrlf(s), [NEWLINE]);
    if AllLegal(s, true) {
      assert !IsLegal(RETURN, true);
      UncrlfIsId(s);
    }
  }

  /** In front of anything but a quote a printable string is read back. */
  lemma StringReadsBack(s: Bytes, rest: Bytes)
    requires IsPrintable(s) && (rest == [] || rest[0] != QUOTE)
    ensures (TomlString(s) + rest)[0] == QUOTE && ReadString(TomlString(s) + rest) == Some((s, rest))
  {
    EscapedIs(s);
    if NEWLINE !in s {
      LineReadsBack(s, rest);
      LegalLine(s);
      NotMultiLine(EscapeLine(s), rest);
      var e := EscapeLine(s);
      Append3([QUOTE], e, [QUOTE]);
      Append3([QUOTE], e + [QUOTE], rest);
      Append3(e, [QUOTE], rest);
      Head(QUOTE, e + ([QUOTE] + rest));
    } else {
      var e := EscapeText(s);
      ReadsText(s, rest);
      Append3(Q3, e, Q3);
      Append3(Q3, e + Q3, rest);
      Append3(e, Q3, rest);
    }
  }

  lemma {:induction false} LineHasNoReturn(s: Bytes)
    requires RETURN !in s
    ensures RETURN !in EscapeLine(s)
  {
    if s != [] {
      assert s[0] in s && forall b | b in s[1..] :: b in s;
      LineHasNoReturn(s[1..]);
    }
  }

  lemma {:induction false} TextHasNoReturn(s: Bytes)
    requires RETURN !in s
    ensures RETURN !in EscapeText(s)
    decreases |s|
  {
    if s != [] {
      assert s[0] in s && (forall b | b in s[1..] :: b in s);
      if Q3 <= s {
        assert forall b | b in s[3..] :: b in s;
        TextHasNoReturn(s[3..]);
      } else {
        TextHasNoReturn(s[1..]);
      }
    }
  }

  lemma StringHasNoReturn(s: Bytes)
    requires IsPrintable(s)
    ensures RETURN !in TomlString(s)
  {
    assert !IsLegal(RETURN, true);
    EscapedIs(s);
    LineHasNoReturn(s);
    TextHasNoReturn(s);
    var e := Escaped(s);
    assert RETURN !in Q3 && RETURN !in e;
    assert forall b | b in Q3 + e + Q3 :: b in Q3 || b in e;
    assert forall b | b in [QUOTE] + e + [QUOTE] :: b == QUOTE || b in e;
  }
}
