/**
 Cutting messages into words: splitCommand of core/src/utils/helpers.cpp, the
 argument helpers of core/src/commands/moderation_commands.cpp and
 extractTrigger of rp-service/src/service/command_matcher.h.
 */
module Tokenizer {
  import opened Bytes
  import opened Wrappers

  predicate AllSpace(s: Bytes) {
    forall b | b in s :: IsSpace(b)
  }

  predicate NoSpace(s: Bytes) {
    forall b | b in s :: !IsSpace(b)
  }

  /** The text without its leading spaces. */
  function DropSpaces(s: Bytes): (r: Bytes)
    ensures |r| <= |s| && (r == [] || !IsSpace(r[0]))
  {
    if s != [] && IsSpace(s[0]) then DropSpaces(s[1..]) else s
  }

  /** The characters before the first space. */
  function Word(s: Bytes): (w: Bytes)
    ensures |w| <= |s|
  {
    if s == [] || IsSpace(s[0]) then [] else [s[0]] + Word(s[1..])
  }

  /** What follows them. */
  function DropWord(s: Bytes): (r: Bytes)
    ensures |r| == |s| - |Word(s)|
  {
    if s == [] || IsSpace(s[0]) then s else DropWord(s[1..])
  }

  lemma {:induction false} WordSplits(s: Bytes)
    ensures s == Word(s) + DropWord(s) && NoSpace(Word(s)) && (DropWord(s) == [] || IsSpace(DropWord(s)[0]))
  {
    if s != [] && !IsSpace(s[0]) {
      WordSplits(s[1..]);
      assert s == [s[0]] + s[1..];
    }
  }

  lemma {:induction false} SpacesSplit(s: Bytes)
    ensures AllSpace(s[..|s| - |DropSpaces(s)|]) && s == s[..|s| - |DropSpaces(s)|] + DropSpaces(s)
  {
    if s != [] && IsSpace(s[0]) {
      SpacesSplit(s[1..]);
      var n := |s| - |DropSpaces(s)|;
      assert s[..n] == [s[0]] + s[1..][..n - 1];
    }
  }

  lemma {:induction false} DropsAll(a: Bytes, t: Bytes)
    requires AllSpace(a) && (t == [] || !IsSpace(t[0]))
    ensures DropSpaces(a + t) == t
  {
    if a == [] {
      assert a + t == t;
    } else {
      assert a[0] in a && (a + t)[1..] == a[1..] + t;
      DropsAll(a[1..], t);
    }
  }

  lemma {:induction false} WordIs(w: Bytes, t: Bytes)
    requires NoSpace(w) && (t == [] || IsSpace(t[0]))
    ensures Word(w + t) == w && DropWord(w + t) == t
  {
    if w == [] {
      assert w + t == t;
    } else {
      assert w[0] in w && (w + t)[1..] == w[1..] + t;
      WordIs(w[1..], t);
    }
  }

  // ---------------------------------------------------------------- splitting

  function Split(s: Bytes): seq<Bytes>
    decreases |s|
  {
    var t := DropSpaces(s);
    if t == [] then [] else [Word(t)] + Split(DropWord(t))
  }

  /** The inner loops: from i on, whitespace is skipped. */
  method SkipSpaces(text: Bytes, i: nat) returns (j: nat)
    requires i <= |text|
    ensures i <= j <= |text| && text[j..] == DropSpaces(text[i..])
  {
    j := i;
    while j < |text| && IsSpace(text[j])
      invariant i <= j <= |text| && DropSpaces(text[j..]) == DropSpaces(text[i..])
    {
      assert text[j..][1..] == text[j + 1..];
      j := j + 1;
    }
  }

  /** And up to the next whitespace. */
  method SkipWord(text: Bytes, i: nat) returns (j: nat)
    requires i <= |text|
    ensures i <= j <= |text| && text[i..j] == Word(text[i..]) && text[j..] == DropWord(text[i..])
  {
    j := i;
    while j < |text| && !IsSpace(text[j])
      invariant i <= j <= |text| && DropWord(text[j..]) == DropWord(text[i..])
      invariant text[i..j] + Word(text[j..]) == Word(text[i..])
    {
      assert text[j..][1..] == text[j + 1..];
      assert text[i..j + 1] == text[i..j] + [text[j]];
      Append3(text[i..j], [text[j]], Word(text[j + 1..]));
      j := j + 1;
    }
    assert text[i..j] + [] == text[i..j];
  }

  method SplitCommand(text: Bytes) returns (parts: seq<Bytes>)
    ensures parts == Split(text)
  {
    parts := [];
    var i: nat := 0;
    assert text[0..] == text;
    while i < |text|
      invariant i <= |text| && parts + Split(text[i..]) == Split(text)
      decreases |text| - i
    {
      var start := SkipSpaces(text, i);
      var end := SkipWord(text, start);
      SplitStep(parts, text[i..]);
      if end > start {
        parts := parts + [text[start..end]];
      } else {
        assert text[start..] == [] && text[end..] == [];
      }
      i := end;
    }
    assert parts + [] == parts;
  }

  lemma SplitStep(parts: seq<Bytes>, s: Bytes)
    requires s != []
    ensures var t := DropSpaces(s);
      parts + Split(s) == if t == [] then parts else parts + [Word(t)] + Split(DropWord(t))
  {
    var t := DropSpaces(s);
    if t != [] { Append3(parts, [Word(t)], Split(DropWord(t))); }
  }

  /** Gaps and words in turn. */
  function Weave(gaps: seq<Bytes>, words: seq<Bytes>): Bytes
    requires |gaps| == |words| + 1
  {
    if words == [] then gaps[0] else gaps[0] + (words[0] + Weave(gaps[1..], words[1..]))
  }

  /** Gaps are whitespace, and between two words there is some. */
  ghost predicate AreGaps(gaps: seq<Bytes>, n: nat) {
    |gaps| == n + 1 && (forall i | 0 <= i < |gaps| :: AllSpace(gaps[i])) && (forall i | 0 < i < n :: gaps[i] != [])
  }

  ghost predicate AreWords(words: seq<Bytes>) {
    forall i | 0 <= i < |words| :: words[i] != [] && NoSpace(words[i])
  }

  /** The words are nonempty and free of whitespace, and with whitespace gaps between them they rebuild the text. */
  ghost predicate AreTokens(text: Bytes, words: seq<Bytes>, gaps: seq<Bytes>) {
    AreGaps(gaps, |words|) && AreWords(words) && text == Weave(gaps, words)
  }

  lemma {:induction false} SplitWeaves(s: Bytes) returns (gaps: seq<Bytes>)
    ensures AreTokens(s, Split(s), gaps)
    ensures s != [] && IsSpace(s[0]) ==> gaps[0] != []
    decreases |s|
  {
    var t := DropSpaces(s);
    var gap := s[..|s| - |t|];
    SpacesSplit(s);
    if t == [] {
      gaps := [gap];
    } else {
      WordSplits(t);
      var rest := DropWord(t);
      var tail := SplitWeaves(rest);
      gaps := [gap] + tail;
      TokensJoin(gap, Word(t), Split(rest), tail);
    }
  }

  /** One more gap and word in front. */
  lemma TokensJoin(gap: Bytes, word: Bytes, words: seq<Bytes>, gaps: seq<Bytes>)
    requires AllSpace(gap) && word != [] && NoSpace(word) && AreGaps(gaps, |words|) && AreWords(words)
    requires words != [] ==> gaps[0] != []
    ensures AreTokens(gap + (word + Weave(gaps, words)), [word] + words, [gap] + gaps)
  {
    assert ([gap] + gaps)[1..] == gaps && ([word] + words)[1..] == words;
  }

  /** After a word comes a space or the end. */
  lemma WeaveAfterWord(words: seq<Bytes>, gaps: seq<Bytes>)
    requires AreGaps(gaps, |words|) && (words != [] ==> gaps[0] != [])
    ensures Weave(gaps, words) == [] || IsSpace(Weave(gaps, words)[0])
  {
    if gaps[0] != [] { assert Weave(gaps, words)[0] == gaps[0][0] && gaps[0][0] in gaps[0]; }
  }

  /** splitCommand is the only way to cut a text into such words. */
  lemma {:induction false} TokensAreSplit(text: Bytes, words: seq<Bytes>, gaps: seq<Bytes>)
    requires AreTokens(text, words, gaps)
    ensures words == Split(text)
    decreases words
  {
    if words == [] {
      DropsAll(text, []);
      assert text + [] == text;
    } else {
      var rest := Weave(gaps[1..], words[1..]);
      TokensAreSplit(rest, words[1..], gaps[1..]);
      WeaveAfterWord(words[1..], gaps[1..]);
      SplitOfWoven(gaps[0], words[0], rest);
      assert words == [words[0]] + words[1..];
    }
  }

  lemma SplitOfWoven(gap: Bytes, word: Bytes, rest: Bytes)
    requires AllSpace(gap) && word != [] && NoSpace(word) && (rest == [] || IsSpace(rest[0]))
    ensures Split(gap + (word + rest)) == [word] + Split(rest)
  {
    assert word[0] in word && (word + rest)[0] == word[0];
    DropsAll(gap, word + rest);
    WordIs(word, rest);
  }

  lemma SplitIffTokens(text: Bytes, words: seq<Bytes>)
    ensures words == Split(text) <==> exists gaps :: AreTokens(text, words, gaps)
  {
    var gaps := SplitWeaves(text);
    forall g | AreTokens(text, words, g) ensures words == Split(text) { TokensAreSplit(text, words, g); }
  }

  // ---------------------------------------------------------------- arguments

  /** What follows the first n characters behind the leading spaces; None where substr would throw. */
  function RawArgs(text: Bytes, n: nat): Option<Bytes> {
    if n > |DropSpaces(text)| then None else Some(DropSpaces(DropSpaces(text)[n..]))
  }

  method RawArgsAfterCommand(text: Bytes, token: Bytes) returns (r: Option<Bytes>)
    ensures r == RawArgs(text, |token|)
  {
    assert text[0..] == text;
    var start := SkipSpaces(text, 0);
    var i := start + |token|;
    if i > |text| {
      return None;
    }
    assert text[start..][|token|..] == text[i..];
    i := SkipSpaces(text, i);
    return Some(text[i..]);
  }

  /** responseAfterTrigger: the argument text minus the trigger and the spaces behind it. */
  function Response(rawArgs: Bytes, n: nat): Option<Bytes> {
    if n > |rawArgs| then None else Some(DropSpaces(rawArgs[n..]))
  }

  method ResponseAfterTrigger(rawArgs: Bytes, trigger: Bytes) returns (r: Option<Bytes>)
    ensures r == Response(rawArgs, |trigger|)
  {
    if |trigger| > |rawArgs| {
      return None;
    }
    var i := SkipSpaces(rawArgs, |trigger|);
    return Some(rawArgs[i..]);
  }

  function FirstWord(s: Bytes): Bytes {
    Word(DropSpaces(s))
  }

  method ExtractTrigger(text: Bytes) returns (trigger: Bytes)
    ensures trigger == FirstWord(text)
  {
    assert text[0..] == text;
    var start := SkipSpaces(text, 0);
    var end := SkipWord(text, start);
    return text[start..end];
  }

  /** extractTrigger returns the first token, and nothing exactly when there is none. */
  lemma FirstWordIsToken(s: Bytes)
    ensures FirstWord(s) == if Split(s) == [] then [] else Split(s)[0]
    ensures FirstWord(s) == [] <==> Split(s) == []
    ensures NoSpace(FirstWord(s))
  {
    WordSplits(DropSpaces(s));
  }

  lemma SpacesDropped(s: Bytes)
    ensures DropSpaces(DropSpaces(s)) == DropSpaces(s) && Split(DropSpaces(s)) == Split(s)
  {}

  /** A text that has a word: whitespace, the word, whitespace, and the rest, which does not begin with any. */
  lemma FirstWordSplits(text: Bytes) returns (a: Bytes, b: Bytes)
    requires Split(text) != []
    ensures var word, rest := Split(text)[0], DropSpaces(DropWord(DropSpaces(text)));
      text == a + word + b + rest && AllSpace(a) && AllSpace(b)
    ensures DropSpaces(text) == text ==> a == []
  {
    var t := DropSpaces(text);
    SpacesSplit(text);
    WordSplits(t);
    SpacesSplit(DropWord(t));
    a := text[..|text| - |t|];
    b := DropWord(t)[..|DropWord(t)| - |DropSpaces(DropWord(t))|];
    assert text == a + (Word(t) + (b + DropSpaces(DropWord(t))));
  }

  /**
   The raw arguments are what stands behind the whitespace that follows the first word, byte for byte.  Their words are
   the remaining words, and they are empty exactly when no word remains.
   */
  lemma RawArgsSplit(text: Bytes) returns (a: Bytes, b: Bytes)
    requires Split(text) != []
    ensures var r := RawArgs(text, |Split(text)[0]|);
      && r.Some? && text == a + Split(text)[0] + b + r.value && AllSpace(a) && AllSpace(b)
      && (r.value == [] || !IsSpace(r.value[0]))
      && Split(r.value) == Split(text)[1..] && (r.value == [] <==> |Split(text)| == 1)
      && (DropSpaces(text) == text ==> a == [])
  {
    var t := DropSpaces(text);
    WordSplits(t);
    assert t[|Word(t)|..] == DropWord(t);
    SpacesDropped(DropWord(t));
    a, b := FirstWordSplits(text);
  }

  /** So /rpadd and /rpedit see the trigger as the first argument and the response as what follows it, byte for byte. */
  lemma ResponseSplit(rawArgs: Bytes) returns (b: Bytes)
    requires Split(rawArgs) != [] && DropSpaces(rawArgs) == rawArgs
    ensures var r := Response(rawArgs, |Split(rawArgs)[0]|);
      && r.Some? && rawArgs == Split(rawArgs)[0] + b + r.value && AllSpace(b)
      && (r.value == [] || !IsSpace(r.value[0]))
      && Split(r.value) == Split(rawArgs)[1..] && (r.value == [] <==> |Split(rawArgs)| == 1)
  {
    var a;
    a, b := RawArgsSplit(rawArgs);
    assert [] + Split(rawArgs)[0] == Split(rawArgs)[0];
  }
}
