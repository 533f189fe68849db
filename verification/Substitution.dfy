/**
 Template replacement in rp-service/src/service/variable_substitutor.h: three
 sequential replace-all passes, and exactly when they mean one simultaneous
 substitution of the placeholders.
 */
module Substitution {
  import opened Bytes
  import opened Wrappers
  import opened Search

  datatype Rule = Rule(from: Bytes, to: Bytes)

  // ---------------------------------------------------------------- simultaneous substitution

  /** The first rule whose pattern begins t. */
  function Hit(t: Bytes, rules: seq<Rule>): (r: Option<Rule>)
    ensures r.Some? ==> r.value in rules && r.value.from <= t
    ensures r.None? ==> forall x | x in rules :: !(x.from <= t)
  {
    if rules == [] then None
    else if rules[0].from <= t then Some(rules[0])
    else Hit(t, rules[1..])
  }

  /** No pattern is empty. */
  ghost predicate Proper(rules: seq<Rule>) {
    forall r | r in rules :: r.from != []
  }

  /** One pass from left to right; what a rule inserts is not looked at again. */
  ghost function Sub(t: Bytes, rules: seq<Rule>): (r: Bytes)
    requires Proper(rules)
    decreases |t|
  {
    if t == [] then []
    else
      var h := Hit(t, rules);
      if h.Some? then h.value.to + Sub(t[|h.value.from|..], rules)
      else [t[0]] + Sub(t[1..], rules)
  }

  /** One pattern replaced. */
  ghost function Pass(t: Bytes, from: Bytes, to: Bytes): Bytes
    requires from != []
  {
    Sub(t, [Rule(from, to)])
  }

  lemma PassUnfolds(t: Bytes, from: Bytes, to: Bytes)
    requires from != []
    ensures t != [] && !(from <= t) ==> Pass(t, from, to) == [t[0]] + Pass(t[1..], from, to)
    ensures from <= t ==> Pass(t, from, to) == to + Pass(t[|from|..], from, to)
  {}

  // ---------------------------------------------------------------- replaceAll

  /** The window of out from pos on, seen from pos. */
  lemma OccursBehind(out: Bytes, pat: Bytes, pos: nat, i: nat)
    requires pos <= |out|
    ensures OccursAt(out[pos..], pat, i) <==> OccursAt(out, pat, pos + i)
  {
    if pos + i + |pat| <= |out| { assert out[pos..][i..i + |pat|] == out[pos + i..pos + i + |pat|]; }
  }

  /** Up to the next occurrence, a pass copies. */
  lemma {:induction false} PassCopies(t: Bytes, from: Bytes, to: Bytes, k: nat)
    requires from != [] && k <= |t| && forall i: nat | i < k :: !OccursAt(t, from, i)
    ensures Pass(t, from, to) == t[..k] + Pass(t[k..], from, to)
  {
    if k > 0 {
      forall i: nat | i < k - 1 ensures !OccursAt(t[1..], from, i) { OccursBehind(t, from, 1, i); }
      PassCopies(t[1..], from, to, k - 1);
      PassCopiesOne(t, from, to, k);
    } else {
      assert t[..0] + t[0..] == t;
    }
  }

  lemma PassCopiesOne(t: Bytes, from: Bytes, to: Bytes, k: nat)
    requires from != [] && 1 <= k <= |t| && !OccursAt(t, from, 0)
    requires Pass(t[1..], from, to) == t[1..][..k - 1] + Pass(t[1..][k - 1..], from, to)
    ensures Pass(t, from, to) == t[..k] + Pass(t[k..], from, to)
  {
    PassUnfolds(t, from, to);
    assert t[1..][k - 1..] == t[k..] && t[..k] == [t[0]] + t[1..][..k - 1];
    Append3([t[0]], t[1..][..k - 1], Pass(t[k..], from, to));
  }

  /** A text without the pattern is left alone. */
  lemma PassKeeps(t: Bytes, from: Bytes, to: Bytes)
    requires from != [] && !Contains(t, from)
    ensures Pass(t, from, to) == t
  {
    forall i: nat ensures !OccursAt(t, from, i) {}
    PassCopies(t, from, to, |t|);
    assert t[..|t|] + [] == t;
  }

  /** From pos to behind the first occurrence at or after pos. */
  lemma PassToFirst(out: Bytes, from: Bytes, to: Bytes, pos: nat, at: nat)
    requires from != [] && pos <= at && OccursAt(out, from, at)
    requires forall i: nat | pos <= i < at :: !OccursAt(out, from, i)
    ensures Pass(out[pos..], from, to) == out[pos..at] + (to + Pass(out[at + |from|..], from, to))
  {
    forall i: nat | i < at - pos ensures !OccursAt(out[pos..], from, i) { OccursBehind(out, from, pos, i); }
    PassCopies(out[pos..], from, to, at - pos);
    assert out[pos..][at - pos..] == out[at..] && out[pos..][..at - pos] == out[pos..at];
    PassUnfolds(out[at..], from, to);
    assert out[at..][|from|..] == out[at + |from|..];
  }

  /** One turn of replaceAll: the first occurrence at or after pos is replaced, and pos moves behind the insertion. */
  lemma ReplaceStep(out: Bytes, from: Bytes, to: Bytes, pos: nat, at: nat)
    requires from != [] && pos <= at && OccursAt(out, from, at)
    requires forall i: nat | pos <= i < at :: !OccursAt(out, from, i)
    ensures var out' := out[..at] + to + out[at + |from|..];
      out'[..at + |to|] + Pass(out'[at + |to|..], from, to) == out[..pos] + Pass(out[pos..], from, to)
  {
    PassToFirst(out, from, to, pos, at);
    var rest := Pass(out[at + |from|..], from, to);
    var out' := out[..at] + to + out[at + |from|..];
    assert out'[at + |to|..] == out[at + |from|..] && out'[..at + |to|] == out[..at] + to;
    assert out[..at] == out[..pos] + out[pos..at];
    assert out[..at] + to + rest == out[..pos] + (out[pos..at] + (to + rest));
  }

  /** replaceAll: terminates even when `to` contains `from`, and is one pass. */
  method ReplaceAll(text: Bytes, from: Bytes, to: Bytes) returns (out: Bytes)
    ensures out == if from == [] then text else Pass(text, from, to)
  {
    out := text;
    if from == [] {
      return;
    }
    var pos: nat := 0;
    assert out[..0] + Pass(out[0..], from, to) == Pass(text, from, to) by { assert out[0..] == text; }
    while true
      invariant pos <= |out|
      invariant out[..pos] + Pass(out[pos..], from, to) == Pass(text, from, to)
      decreases |out| - pos
    {
      var at := Find(out, from, pos);
      if at.None? {
        NothingAfter(out, from, pos);
        PassKeeps(out[pos..], from, to);
        return;
      }
      ReplaceStep(out, from, to, pos, at.value);
      out := out[..at.value] + to + out[at.value + |from|..];
      pos := at.value + |to|;
    }
  }

  lemma NothingAfter(out: Bytes, from: Bytes, pos: nat)
    requires pos <= |out| && forall i: nat | pos <= i :: !OccursAt(out, from, i)
    ensures !Contains(out[pos..], from) && out[..pos] + out[pos..] == out
  {
    forall i: nat ensures !OccursAt(out[pos..], from, i) { OccursBehind(out, from, pos, i); }
  }

  // ---------------------------------------------------------------- leftmost, non-overlapping

  /** pieces are what lies between the leftmost non-overlapping occurrences of the pattern in text. */
  ghost predicate IsSplit(text: Bytes, from: Bytes, pieces: seq<Bytes>)
    decreases pieces
  {
    pieces != [] &&
    if |pieces| == 1 then text == pieces[0] && !Contains(text, from)
    else
      && pieces[0] + from <= text
      && (forall i: nat | i < |pieces[0]| :: !OccursAt(text, from, i))
      && IsSplit(text[|pieces[0] + from|..], from, pieces[1..])
  }

  function Join(pieces: seq<Bytes>, glue: Bytes): Bytes
    requires pieces != []
  {
    if |pieces| == 1 then pieces[0] else pieces[0] + glue + Join(pieces[1..], glue)
  }

  /** Every text splits, and gluing the pieces with the pattern gives it back. */
  lemma {:induction false} SplitExists(text: Bytes, from: Bytes) returns (pieces: seq<Bytes>)
    requires from != []
    ensures IsSplit(text, from, pieces) && Join(pieces, from) == text
    decreases |text|
  {
    if !Contains(text, from) {
      pieces := [text];
    } else {
      var at := FirstAt(text, from);
      var rest := SplitExists(text[at + |from|..], from);
      pieces := [text[..at]] + rest;
      assert pieces[1..] == rest;
      assert text == text[..at] + from + text[at + |from|..];
      assert text[..at] + from <= text;
    }
  }

  lemma FirstAt(text: Bytes, from: Bytes) returns (at: nat)
    requires Contains(text, from)
    ensures OccursAt(text, from, at) && forall i: nat | i < at :: !OccursAt(text, from, i)
  {
    at := 0;
    while !OccursAt(text, from, at)
      invariant forall i: nat | i < at :: !OccursAt(text, from, i)
      decreases |text| + 1 - at
    {
      var k: nat :| k <= |text| && OccursAt(text, from, k);
      at := at + 1;
    }
  }

  /** There is only one split. */
  lemma {:induction false} SplitIsUnique(text: Bytes, from: Bytes, p: seq<Bytes>, q: seq<Bytes>)
    requires from != [] && IsSplit(text, from, p) && IsSplit(text, from, q)
    ensures p == q
    decreases p
  {
    if |p| > 1 { assert OccursAt(text, from, |p[0]|); }
    if |q| > 1 { assert OccursAt(text, from, |q[0]|); }
    if |p| > 1 && |q| > 1 {
      assert |p[0]| == |q[0]|;
      assert p[0] == text[..|p[0]|] == q[0];
      SplitIsUnique(text[|p[0] + from|..], from, p[1..], q[1..]);
      assert p == [p[0]] + p[1..] && q == [q[0]] + q[1..];
    }
  }

  /** replaceAll replaces exactly the leftmost non-overlapping occurrences and keeps everything between them. */
  lemma {:induction false} ReplacesLeftmost(text: Bytes, from: Bytes, to: Bytes, pieces: seq<Bytes>)
    requires from != [] && IsSplit(text, from, pieces)
    ensures Pass(text, from, to) == Join(pieces, to)
    decreases pieces
  {
    if |pieces| == 1 {
      PassKeeps(text, from, to);
    } else {
      var k := |pieces[0]|;
      PassCopies(text, from, to, k);
      assert pieces[0] + from == text[..k + |from|];
      assert text[..k] == pieces[0] && text[k..k + |from|] == from;
      PassUnfolds(text[k..], from, to);
      assert text[k..][|from|..] == text[k + |from|..];
      ReplacesLeftmost(text[|pieces[0] + from|..], from, to, pieces[1..]);
    }
  }

  // ---------------------------------------------------------------- the placeholders

  const OPEN: Byte := 0x7B
  const CLOSE: Byte := 0x7D

  const M1: Bytes := [0x7B, 0x6D, 0x65, 0x6E, 0x74, 0x69, 0x6F, 0x6E, 0x31, 0x7D]  // {mention1}
  const M: Bytes := [0x7B, 0x6D, 0x65, 0x6E, 0x74, 0x69, 0x6F, 0x6E, 0x7D]         // {mention}
  const M2: Bytes := [0x7B, 0x6D, 0x65, 0x6E, 0x74, 0x69, 0x6F, 0x6E, 0x32, 0x7D]  // {mention2}

  /** substituteVariables, as a function. */
  ghost function Sequential(t: Bytes, mention: Bytes, mention2: Bytes): Bytes {
    Pass(Pass(Pass(t, M1, mention), M, mention), M2, mention2)
  }

  method SubstituteVariables(text: Bytes, mention: Bytes, mention2: Bytes) returns (out: Bytes)
    ensures out == Sequential(text, mention, mention2)
  {
    out := ReplaceAll(text, M1, mention);
    out := ReplaceAll(out, M, mention);
    out := ReplaceAll(out, M2, mention2);
  }

  /** What the template language promises: all placeholders at once. */
  ghost function Simultaneous(t: Bytes, mention: Bytes, mention2: Bytes): Bytes {
    Sub(t, [Rule(M1, mention), Rule(M, mention), Rule(M2, mention2)])
  }

  /** m laid over the pattern at offset d agrees with it wherever both have a byte. */
  ghost predicate Agree(m: Bytes, pat: Bytes, d: int) {
    forall i | 0 <= i < |m| && 0 <= d + i < |pat| :: m[i] == pat[d + i]
  }

  /** m can never share bytes with an occurrence of the pattern, nor hold one, nor (when empty) sit inside one. */
  ghost predicate Clear(m: Bytes, pat: Bytes) {
    forall d | -|m| < d < |pat| :: !Agree(m, pat, d)
  }

  /** The mentions for which the sequential passes are the simultaneous substitution. */
  ghost predicate Safe(m: Bytes) {
    (m == M || Clear(m, M)) && Clear(m, M2)
  }

  /** Patterns that start with an opening brace and have no other. */
  ghost predicate Braced(p: Bytes) {
    p != [] && p[0] == OPEN && forall i | 1 <= i < |p| :: p[i] != OPEN
  }

  /** Braced patterns none of which begins with p, or is begun by it. */
  ghost predicate Apart(rules: seq<Rule>, p: Bytes) {
    forall r | r in rules :: Braced(r.from) && !(r.from <= p) && !(p <= r.from)
  }

  ghost predicate AllBraced(rules: seq<Rule>) {
    forall r | r in rules :: Braced(r.from)
  }

  lemma {:induction false} HitAppend(t: Bytes, rules: seq<Rule>, last: Rule)
    ensures Hit(t, rules + [last])
         == if Hit(t, rules).Some? then Hit(t, rules) else if last.from <= t then Some(last) else None
  {
    if rules != [] {
      assert (rules + [last])[1..] == rules[1..] + [last];
      HitAppend(t, rules[1..], last);
    }
  }

  /** Where no brace is, nothing is replaced. */
  lemma {:induction false} CopiesBraceless(a: Bytes, t: Bytes, rules: seq<Rule>)
    requires AllBraced(rules) && OPEN !in a
    ensures Sub(a + t, rules) == a + Sub(t, rules)
  {
    if a == [] {
      assert a + t == t;
    } else {
      assert (a + t)[0] == a[0] != OPEN;
      assert (a + t)[1..] == a[1..] + t;
      CopiesBraceless(a[1..], t, rules);
    }
  }

  lemma CopiesUnmatched(x: Bytes, t: Bytes, rules: seq<Rule>)
    requires AllBraced(rules) && x != [] && OPEN !in x[1..] && Hit(x + t, rules).None?
    ensures Sub(x + t, rules) == x + Sub(t, rules)
  {
    var s, rest := x + t, Sub(t, rules);
    assert s[0] == x[0] && s[1..] == x[1..] + t;
    CopiesBraceless(x[1..], t, rules);
    assert Sub(s, rules) == [x[0]] + (x[1..] + rest);
    assert x == [x[0]] + x[1..];
    Append3([x[0]], x[1..], rest);
  }

  /** Two prefixes of one text. */
  lemma OneIsLonger(a: Bytes, b: Bytes, t: Bytes)
    ensures a <= b + t ==> a <= b || b <= a
  {
    if a <= b + t && |a| <= |b| { assert a == (b + t)[..|a|] == b[..|a|]; }
    if a <= b + t && |a| > |b| { assert b == (b + t)[..|b|] == a[..|b|]; }
  }

  /** A pattern none of the rules matches is copied as a whole. */
  lemma CopiesPattern(p: Bytes, t: Bytes, rules: seq<Rule>)
    requires Apart(rules, p) && Braced(p)
    ensures Sub(p + t, rules) == p + Sub(t, rules)
  {
    forall r | r in rules ensures !(r.from <= p + t) { OneIsLonger(r.from, p, t); }
    CopiesUnmatched(p, t, rules);
  }

  lemma OccurrenceAgrees(r: Bytes, m: Bytes, w: Bytes, p: Bytes, i: nat)
    requires OccursAt(r + m + w, p, i)
    ensures Agree(m, p, |r| - i)
  {
    forall k: nat | k < |m| && 0 <= |r| - i + k < |p| ensures m[k] == p[|r| - i + k] {
      assert m[k] == (r + m + w)[|r| + k] == (r + m + w)[i..i + |p|][|r| + k - i];
    }
  }

  /** A clear insertion is copied by a pass over it. */
  lemma PassesThrough(m: Bytes, w: Bytes, p: Bytes, v: Bytes)
    requires p != [] && Clear(m, p)
    ensures Pass(m + w, p, v) == m + Pass(w, p, v)
  {
    assert [] + m + w == m + w;
    forall i: nat | i < |m| ensures !OccursAt(m + w, p, i) {
      if OccursAt([] + m + w, p, i) { OccurrenceAgrees([], m, w, p, i); }
    }
    PassCopies(m + w, p, v, |m|);
    assert (m + w)[..|m|] == m && (m + w)[|m|..] == w;
  }

  lemma PrefixAgrees(m: Bytes, w: Bytes, p: Bytes, j: nat)
    requires j <= |p| && p[j..] <= m + w
    ensures Agree(m, p, j)
  {
    forall i | 0 <= i < |m| && 0 <= j + i < |p| ensures m[i] == p[j + i] {
      assert p[j + i] == p[j..][i] == (m + w)[i];
    }
  }

  /** A clear insertion cannot go on with the rest of a pattern. */
  lemma NotContinued(m: Bytes, w: Bytes, p: Bytes, j: nat)
    requires Clear(m, p) && 1 <= j < |p|
    ensures !(p[j..] <= m + w)
  {
    if p[j..] <= m + w { PrefixAgrees(m, w, p, j); }
  }

  lemma SameHead(q: Bytes, c: Byte, s: Bytes, t: Bytes)
    requires q != [] && (q[1..] <= s ==> q[1..] <= t)
    ensures q <= [c] + s ==> q <= [c] + t
  {
    if q <= [c] + s {
      Head(c, s);
      assert q[0] == c && q[1..] <= s;
      assert q == [c] + q[1..];
    }
  }

  /** No insertion completes a pattern that was begun before it. */
  lemma {:induction false} EndWasThere(t: Bytes, rules: seq<Rule>, p: Bytes, j: nat)
    requires Proper(rules) && 1 <= j <= |p| && (forall r | r in rules :: Clear(r.to, p))
    ensures p[j..] <= Sub(t, rules) ==> p[j..] <= t
    decreases |t|
  {
    if j < |p| && t != [] {
      var h := Hit(t, rules);
      if h.Some? {
        NotContinued(h.value.to, Sub(t[|h.value.from|..], rules), p, j);
      } else {
        EndWasThere(t[1..], rules, p, j + 1);
        assert p[j..][1..] == p[j + 1..];
        SameHead(p[j..], t[0], Sub(t[1..], rules), t[1..]);
        assert t == [t[0]] + t[1..];
      }
    }
  }

  /** A pass after a substitution is one more rule of the substitution, when all insertions are clear of its pattern. */
  lemma {:induction false} PassIsOneMoreRule(t: Bytes, rules: seq<Rule>, p: Bytes, v: Bytes)
    requires Braced(p) && Apart(rules, p) && (forall r | r in rules :: Clear(r.to, p))
    ensures Pass(Sub(t, rules), p, v) == Sub(t, rules + [Rule(p, v)])
    decreases |t|
  {
    var all := rules + [Rule(p, v)];
    assert Proper(all);
    if t != [] {
      HitAppend(t, rules, Rule(p, v));
      var h := Hit(t, rules);
      if h.Some? {
        var rest := t[|h.value.from|..];
        PassIsOneMoreRule(rest, rules, p, v);
        PassesThrough(h.value.to, Sub(rest, rules), p, v);
      } else if p <= t {
        var rest := t[|p|..];
        PassIsOneMoreRule(rest, rules, p, v);
        assert t == p + rest;
        CopiesPattern(p, rest, rules);
        PassUnfolds(p + Sub(rest, rules), p, v);
        assert (p + Sub(rest, rules))[|p|..] == Sub(rest, rules);
      } else {
        PassIsOneMoreRule(t[1..], rules, p, v);
        StartsNowhereNew(t, rules, p);
        PassUnfolds(Sub(t, rules), p, v);
        assert Sub(t, rules)[1..] == Sub(t[1..], rules);
      }
    }
  }

  lemma StartsNowhereNew(t: Bytes, rules: seq<Rule>, p: Bytes)
    requires Braced(p) && Proper(rules) && (forall r | r in rules :: Clear(r.to, p))
    requires t != [] && Hit(t, rules).None?
    ensures p <= Sub(t, rules) ==> p <= t
  {
    EndWasThere(t[1..], rules, p, 1);
    SameHead(p, t[0], Sub(t[1..], rules), t[1..]);
    assert t == [t[0]] + t[1..];
  }

  // ---------------------------------------------------------------- safe mentions: sequential is simultaneous

  /** Replacing a pattern by itself in between changes nothing. */
  lemma {:induction false} SameForSame(t: Bytes, a: Rule, p: Bytes, b: Rule)
    requires Braced(p) && Apart([a, b], p)
    ensures Sub(t, [a, Rule(p, p), b]) == Sub(t, [a, b])
    decreases |t|
  {
    if t != [] {
      HitOfThree(t, a, Rule(p, p), b);
      var h := Hit(t, [a, b]);
      if h.Some? {
        SameForSame(t[|h.value.from|..], a, p, b);
        assert !(a.from <= t) && b.from <= t && p <= t ==> b.from <= p || p <= b.from;
      } else if p <= t {
        SameForSame(t[|p|..], a, p, b);
        assert t == p + t[|p|..];
        CopiesPattern(p, t[|p|..], [a, b]);
      } else {
        SameForSame(t[1..], a, p, b);
      }
    }
  }

  lemma HitOfThree(t: Bytes, a: Rule, b: Rule, c: Rule)
    ensures Hit(t, [a, b, c])
         == if a.from <= t then Some(a) else if b.from <= t then Some(b) else if c.from <= t then Some(c) else None
    ensures Hit(t, [a, c]) == if a.from <= t then Some(a) else if c.from <= t then Some(c) else None
  {
    assert [a, b, c][1..] == [b, c] && [b, c][1..] == [c] && [c][1..] == [];
    assert [a, c][1..] == [c];
  }

  lemma {:induction false} PassOfSame(t: Bytes, p: Bytes)
    requires p != []
    ensures Pass(t, p, p) == t
    decreases |t|
  {
    if t != [] {
      PassUnfolds(t, p, p);
      PassOfSame(if p <= t then t[|p|..] else t[1..], p);
    }
  }

  lemma PlaceholdersApart(a: Bytes, b: Bytes)
    ensures Apart([Rule(M1, a)], M) && Apart([Rule(M1, a)], M2)
    ensures Apart([Rule(M1, a), Rule(M, a)], M2) && Apart([Rule(M1, a), Rule(M2, b)], M)
    ensures Braced(M1) && Braced(M) && Braced(M2)
  {
    assert M1[8] != M[8] && M1[8] != M2[8] && M[8] != M2[8];
  }

  lemma SafeSuffices(t: Bytes, mention: Bytes, mention2: Bytes)
    requires Safe(mention)
    ensures Sequential(t, mention, mention2) == Simultaneous(t, mention, mention2)
  {
    var one, two, three := Rule(M1, mention), Rule(M, mention), Rule(M2, mention2);
    PlaceholdersApart(mention, mention2);
    if mention == M {
      PassOfSame(Sub(t, [one]), M);
      PassIsOneMoreRule(t, [one], M2, mention2);
      assert [one] + [three] == [one, three];
      SameForSame(t, one, M, three);
    } else {
      PassIsOneMoreRule(t, [one], M, mention);
      assert [one] + [two] == [one, two];
      PassIsOneMoreRule(t, [one, two], M2, mention2);
      assert [one, two] + [three] == [one, two, three];
    }
  }

  // ---------------------------------------------------------------- unsafe mentions: a template that tells them apart

  ghost predicate Placeholders(rules: seq<Rule>) {
    forall r | r in rules :: r.from == M1 || r.from == M || r.from == M2
  }

  /** A text with an overlap: x + m + y holds the pattern, and r and b are what m adds around it. */
  lemma Overlay(m: Bytes, p: Bytes, d: int) returns (x: Bytes, y: Bytes, r: Bytes, b: Bytes)
    requires p != [] && -|m| < d < |p| && Agree(m, p, d)
    ensures x + m + y == r + p + b
    ensures |x| < |p| && x == p[..|x|] && |y| < |p| && y == p[|p| - |y|..]
    ensures |r| <= |m| && |b| <= |m| && (r != [] ==> |r| < |m|) && (b != [] ==> |b| < |m|)
  {
    assert p[..0] == [] && p[|p|..] == [];
    if d >= 0 && d + |m| <= |p| {
      x, y, r, b := p[..d], p[d + |m|..], [], [];
      assert m == p[d..d + |m|];
      assert p == x + m + y;
    } else if d >= 0 {
      x, y, r, b := p[..d], [], [], m[|p| - d..];
      assert m[..|p| - d] == p[d..];
      assert x + m[..|p| - d] == p && m[..|p| - d] + b == m;
    } else if d + |m| <= |p| {
      x, y, r, b := [], p[d + |m|..], m[..-d], [];
      assert m[-d..] == p[..d + |m|];
      assert m[-d..] + y == p && r + m[-d..] == m;
    } else {
      x, y, r, b := [], [], m[..-d], m[|p| - d..];
      assert m[-d..|p| - d] == p;
      assert r + p + b == m;
    }
  }

  lemma NotAtBeginning(p: Bytes, x: Bytes, t: Bytes, from: Bytes)
    requires (p == M || p == M2) && x <= p && 0 < |x| < |p| && t != [] && t[0] == OPEN
    requires from == M1 || from == M || from == M2
    ensures !(from <= x + t)
  {
    if |from| <= |x| {
      assert (x + t)[|from| - 1] == p[|from| - 1];
      assert (x + t)[8] == p[8];
    } else {
      assert (x + t)[|x|] == OPEN != from[|x|];
    }
  }

  /** The beginning of a placeholder is not a placeholder, so it is copied. */
  lemma CopiesBeginning(p: Bytes, x: Bytes, t: Bytes, rules: seq<Rule>)
    requires Placeholders(rules) && (p == M || p == M2) && x <= p && |x| < |p| && t != [] && t[0] == OPEN
    ensures Sub(x + t, rules) == x + Sub(t, rules)
  {
    if x == [] {
      assert x + t == t;
    } else {
      forall r | r in rules ensures !(r.from <= x + t) { NotAtBeginning(p, x, t, r.from); }
      assert OPEN !in x[1..] by { assert forall i | 1 <= i < |x| :: x[i] == p[i] != OPEN; }
      CopiesUnmatched(x, t, rules);
    }
  }

  lemma MatchesFirst(first: Rule, y: Bytes, rules: seq<Rule>)
    requires AllBraced(rules) && rules != [] && rules[0] == first && OPEN !in y
    ensures Sub(first.from + y, rules) == first.to + y
  {
    assert (first.from + y)[|first.from|..] == y;
    assert Hit(first.from + y, rules) == Some(first);
    CopiesBraceless(y, [], rules);
    assert y + [] == y;
  }

  /** The template puts the mention between the beginning and the end of a placeholder. */
  lemma TemplateValue(p: Bytes, x: Bytes, y: Bytes, m: Bytes, rules: seq<Rule>)
    requires Placeholders(rules) && rules != [] && rules[0] == Rule(M1, m)
    requires (p == M || p == M2) && x <= p && |x| < |p| && OPEN !in y
    ensures Sub(x + (M1 + y), rules) == x + m + y
  {
    CopiesBeginning(p, x, M1 + y, rules);
    MatchesFirst(Rule(M1, m), y, rules);
    Append3(x, m, y);
  }

  lemma MatchesLeft(u: Bytes, t: Bytes, p: Bytes)
    requires Braced(p) && u != [] && (t == [] || t[0] == OPEN)
    ensures p <= u + t <==> p <= u
  {
    if |p| <= |u| {
      assert (u + t)[..|p|] == u[..|p|];
    } else if t != [] {
      assert (u + t)[|u|] == OPEN != p[|u|];
    }
  }

  /** Before an opening brace the work of a pass splits. */
  lemma {:induction false} PassSplits(u: Bytes, t: Bytes, p: Bytes, v: Bytes)
    requires Braced(p) && (t == [] || t[0] == OPEN)
    ensures Pass(u + t, p, v) == Pass(u, p, v) + Pass(t, p, v)
    decreases |u|
  {
    if u == [] {
      assert u + t == t;
    } else {
      var k := if p <= u then |p| else 1;
      MatchesLeft(u, t, p);
      PassUnfolds(u, p, v);
      PassUnfolds(u + t, p, v);
      assert (u + t)[k..] == u[k..] + t;
      PassSplits(u[k..], t, p, v);
      Append3(if p <= u then v else [u[0]], Pass(u[k..], p, v), Pass(t, p, v));
    }
  }

  /** Around an occurrence of its pattern, a pass works on both sides separately. */
  lemma PassAround(r: Bytes, b: Bytes, p: Bytes, v: Bytes)
    requires Braced(p)
    ensures Pass(r + p + b, p, v) == Pass(r, p, v) + v + Pass(b, p, v)
  {
    assert r + p + b == r + (p + b);
    PassSplits(r, p + b, p, v);
    PassUnfolds(p + b, p, v);
    assert (p + b)[|p|..] == b;
  }

  /** A pass that inserts something at least as long does not shorten; neither does one that finds nothing. */
  lemma {:induction false} PassGrows(t: Bytes, p: Bytes, v: Bytes)
    requires p != [] && (|v| >= |p| || |t| < |p|)
    ensures |Pass(t, p, v)| >= |t|
    decreases |t|
  {
    if t != [] {
      PassUnfolds(t, p, v);
      PassGrows(if p <= t then t[|p|..] else t[1..], p, v);
    }
  }

  /** A text too short for the pattern. */
  lemma ShortIsKept(t: Bytes, p: Bytes, v: Bytes)
    requires |t| < |p|
    ensures Pass(t, p, v) == t
  {
    PassKeeps(t, p, v);
  }

  lemma ClearAround(r: Bytes, m: Bytes, b: Bytes, p: Bytes)
    requires Clear(m, p) && |r| < |p| && |b| < |p|
    ensures !Contains(r + m + b, p)
  {
    forall i: nat ensures !OccursAt(r + m + b, p, i) {
      if OccursAt(r + m + b, p, i) { OccurrenceAgrees(r, m, b, p, i); }
    }
  }

  lemma MiddleCancels(r: Bytes, m: Bytes, q: Bytes, b: Bytes)
    ensures r + m + b == r + q + b ==> m == q
  {
    if r + m + b == r + q + b {
      assert |m| == |q|;
      assert m == (r + m + b)[|r|..|r| + |m|] && q == (r + q + b)[|r|..|r| + |q|];
    }
  }

  /** If the mention can overlap {mention2}, the last pass rewrites a placeholder nobody wrote. */
  lemma TakesMention2(m: Bytes, r: Bytes, b: Bytes, x2: Bytes)
    requires |r| <= |m| && |b| <= |m| && |x2| > |M2|
    ensures |Pass(Pass(r + M2 + b, M, m), M2, x2)| > |r + M2 + b|
  {
    PlaceholdersApart(m, x2);
    assert r + M2 + b == r + (M2 + b);
    PassSplits(r, M2 + b, M, m);
    assert Apart([Rule(M, m)], M2);
    CopiesPattern(M2, b, [Rule(M, m)]);
    var r', b' := Pass(r, M, m), Pass(b, M, m);
    PassGrows(r, M, m);
    PassGrows(b, M, m);
    assert r' + (M2 + b') == r' + M2 + b';
    PassAround(r', b', M2, x2);
    PassGrows(r', M2, x2);
    PassGrows(b', M2, x2);
  }

  /** If it can overlap {mention} without being it, the second pass does. */
  lemma TakesMention(m: Bytes, r: Bytes, b: Bytes, x2: Bytes)
    requires m != M && Clear(m, M2) && |x2| > |M2|
    requires |r| <= |m| && |b| <= |m| && (r != [] ==> |r| < |m|) && (b != [] ==> |b| < |m|)
    ensures Pass(Pass(r + M + b, M, m), M2, x2) != r + M + b
  {
    PlaceholdersApart(m, x2);
    PassAround(r, b, M, m);
    if |m| > |M| {
      PassGrows(r, M, m);
      PassGrows(b, M, m);
      PassGrows(Pass(r + M + b, M, m), M2, x2);
    } else {
      ShortIsKept(r, M, m);
      ShortIsKept(b, M, m);
      ClearAround(r, m, b, M2);
      PassKeeps(r + m + b, M2, x2);
      MiddleCancels(r, m, M, b);
    }
  }

  /**
   For an unsafe mention there is a template on which the two differ, whatever long enough second mention is given.
   */
  lemma UnsafeDiffers(m: Bytes, x2: Bytes) returns (t: Bytes)
    requires !Safe(m) && |x2| > |M2|
    ensures Sequential(t, m, x2) != Simultaneous(t, m, x2)
  {
    var p := if Clear(m, M2) then M else M2;
    var d :| -|m| < d < |p| && Agree(m, p, d);
    var x, y, r, b := Overlay(m, p, d);
    assert OPEN !in y;
    t := x + (M1 + y);
    TemplateValue(p, x, y, m, [Rule(M1, m)]);
    TemplateValue(p, x, y, m, [Rule(M1, m), Rule(M, m), Rule(M2, x2)]);
    if p == M2 { TakesMention2(m, r, b, x2); } else { TakesMention(m, r, b, x2); }
  }

  /**
   The sequential passes are the simultaneous substitution, for every template and second mention, exactly for safe
   mentions.
   */
  lemma SequentialIsSimultaneousIffSafe(mention: Bytes)
    ensures (forall t, mention2 :: Sequential(t, mention, mention2) == Simultaneous(t, mention, mention2))
         <==> Safe(mention)
  {
    if Safe(mention) {
      forall t, mention2 ensures Sequential(t, mention, mention2) == Simultaneous(t, mention, mention2) {
        SafeSuffices(t, mention, mention2);
      }
    } else {
      var t := UnsafeDiffers(mention, M2 + M2);
    }
  }

  // ---------------------------------------------------------------- which mentions are safe

  /** {}mention12 */
  predicate InAlphabet(c: Byte) {
    c in M1 || c in M2
  }

  /** A mention without braces and with some character of its own. */
  lemma OrdinaryIsSafe(m: Bytes, i: nat)
    requires i < |m| && !InAlphabet(m[i]) && OPEN !in m && CLOSE !in m
    ensures Safe(m)
  {
    OrdinaryIsClear(m, i, M);
    OrdinaryIsClear(m, i, M2);
  }

  lemma OrdinaryIsClear(m: Bytes, i: nat, p: Bytes)
    requires i < |m| && !InAlphabet(m[i]) && OPEN !in m && CLOSE !in m && (p == M || p == M2)
    ensures Clear(m, p)
  {
    forall d | -|m| < d < |p| ensures !Agree(m, p, d) {
      if d <= 0 {
        assert m[-d] != OPEN == p[0];
      } else if d + |m| >= |p| {
        assert m[|p| - 1 - d] != CLOSE == p[|p| - 1];
      } else {
        assert p[d + i] in p;
        assert m[i] != p[d + i];
      }
    }
  }

  /** A mention whose ends are foreign to placeholders is safe exactly when it holds no placeholder. */
  lemma FramedIsSafeIff(m: Bytes)
    requires m != [] && !InAlphabet(m[0]) && !InAlphabet(m[|m| - 1])
    ensures Safe(m) <==> !Contains(m, M) && !Contains(m, M2)
  {
    FramedIsClearIff(m, M);
    FramedIsClearIff(m, M2);
    assert M[0] in M;
  }

  lemma FramedIsClearIff(m: Bytes, p: Bytes)
    requires m != [] && !InAlphabet(m[0]) && !InAlphabet(m[|m| - 1]) && (p == M || p == M2)
    ensures Clear(m, p) <==> !Contains(m, p)
  {
    forall d | -|m| < d < |p| && Agree(m, p, d) ensures Contains(m, p) {
      FramedHolds(m, p, d);
    }
    if i: nat :| i <= |m| && OccursAt(m, p, i) {
      assert [] + m + [] == m;
      OccurrenceAgrees([], m, [], p, i);
    }
  }

  lemma FramedHolds(m: Bytes, p: Bytes, d: int)
    requires m != [] && !InAlphabet(m[0]) && !InAlphabet(m[|m| - 1]) && (p == M || p == M2)
    requires -|m| < d < |p| && Agree(m, p, d)
    ensures Contains(m, p)
  {
    assert forall k | 0 <= k < |p| :: InAlphabet(p[k]);
    assert d < 0;
    assert d + |m| > |p|;
    assert m[-d..-d + |p|] == p;
    assert OccursAt(m, p, -d);
  }

  /** A decimal user id, the fallback of RpService::match, is safe unless it is 2. */
  lemma IdIsSafeIff(m: Bytes)
    requires m != [] && forall c | c in m :: IsDigit(c)
    ensures Safe(m) <==> m != [0x32]
  {
    forall d | -|m| < d < |M| ensures !Agree(m, M, d) {
      var i := if d < 0 then -d else 0;
      assert IsDigit(m[i]) && m[i] != M[d + i];
    }
    forall d | -|m| < d < |M2| && Agree(m, M2, d) ensures m == [0x32] {
      DigitOverlap(m, d);
    }
    if m == [0x32] { assert Agree(m, M2, 8); }
    assert !IsDigit(M[0]);
  }

  lemma DigitOverlap(m: Bytes, d: int)
    requires m != [] && (forall c | c in m :: IsDigit(c)) && -|m| < d < |M2| && Agree(m, M2, d)
    ensures m == [0x32]
  {
    var i := if d < 0 then -d else 0;
    assert IsDigit(m[i]) && m[i] == M2[d + i];
    assert d + i == 8;
    assert d + |m| > 9 ==> IsDigit(m[9 - d]);
  }

  // ---------------------------------------------------------------- mentions with a display name

  predicate IsEscaped(c: Byte) {
    c == 0x5C || c == 0x60 || c == 0x2A || c == 0x5F || c == 0x5B  // \ ` * _ [
  }

  function Escape(name: Bytes): Bytes {
    if name == [] then []
    else (if IsEscaped(name[0]) then [0x5C, name[0]] else [name[0]]) + Escape(name[1..])
  }

  // ](tg://user?id=
  const LINK: Bytes := [0x5D, 0x28, 0x74, 0x67, 0x3A, 0x2F, 0x2F, 0x75, 0x73, 0x65, 0x72, 0x3F, 0x69, 0x64, 0x3D]

  /** mentionUser of core/src/utils/helpers.cpp. */
  method MentionUser(id: Bytes, name: Bytes) returns (m: Bytes)
    ensures m == [0x5B] + Escape(name) + (LINK + id + [0x29])
  {
    var escaped: Bytes := [];
    for k := 0 to |name|
      invariant escaped + Escape(name[k..]) == Escape(name)
    {
      assert name[k..][1..] == name[k + 1..];
      if IsEscaped(name[k]) {
        escaped := escaped + [0x5C];
      }
      escaped := escaped + [name[k]];
    }
    assert escaped + [] == escaped;
    m := [0x5B] + escaped + (LINK + id + [0x29]);
  }

  /** How Markdown shows a text: a backslash gives way to the character behind it. */
  function Shown(s: Bytes): Bytes {
    if s == [] then []
    else if s[0] == 0x5C && |s| > 1 then [s[1]] + Shown(s[2..])
    else [s[0]] + Shown(s[1..])
  }

  /** Every \ ` * _ and [ of the text stands behind a backslash of its own. */
  predicate IsQuiet(s: Bytes) {
    s == [] || if s[0] == 0x5C then |s| > 1 && IsQuiet(s[2..])
               else s[0] !in [0x60, 0x2A, 0x5F, 0x5B] && IsQuiet(s[1..])
  }

  /** Whatever the name, the escaped one starts no markup and is shown as the name. */
  lemma {:induction false} EscapeShowsName(name: Bytes)
    ensures IsQuiet(Escape(name)) && Shown(Escape(name)) == name
  {
    if name != [] {
      var e, rest := Escape(name), Escape(name[1..]);
      EscapeShowsName(name[1..]);
      assert name == [name[0]] + name[1..];
      if IsEscaped(name[0]) {
        assert e[0] == 0x5C && e[1] == name[0] && e[2..] == rest;
      } else {
        assert e[0] == name[0] && e[1..] == rest;
      }
    }
  }

  /** A pattern without escaped characters begins the escaped name exactly when it begins the name. */
  lemma {:induction false} EscapePrefix(name: Bytes, p: Bytes)
    requires forall c | c in p :: !IsEscaped(c)
    ensures p <= Escape(name) <==> p <= name
  {
    if p != [] && name != [] {
      assert !IsEscaped(p[0]);
      assert forall c | c in p[1..] :: c in p;
      EscapePrefix(name[1..], p[1..]);
      PrefixSteps(p, Escape(name));
      PrefixSteps(p, name);
      if !IsEscaped(name[0]) { assert Escape(name)[1..] == Escape(name[1..]); }
    }
  }

  lemma PrefixSteps(p: Bytes, s: Bytes)
    requires p != [] && s != []
    ensures p <= s <==> p[0] == s[0] && p[1..] <= s[1..]
  {
    assert p == [p[0]] + p[1..] && s == [s[0]] + s[1..];
  }

  lemma ContainsSteps(s: Bytes, p: Bytes)
    requires s != []
    ensures Contains(s, p) <==> p <= s || Contains(s[1..], p)
  {
    assert p <= s <==> OccursAt(s, p, 0);
    if i: nat :| i <= |s| && OccursAt(s, p, i) && i > 0 { OccursBehind(s, p, 1, i - 1); }
    if i: nat :| i <= |s[1..]| && OccursAt(s[1..], p, i) { OccursBehind(s, p, 1, i); }
  }

  /** Escaping neither makes nor breaks a placeholder. */
  lemma {:induction false} EscapeContains(name: Bytes, p: Bytes)
    requires p != [] && forall c | c in p :: !IsEscaped(c)
    ensures Contains(Escape(name), p) <==> Contains(name, p)
  {
    if name != [] {
      var e, rest := Escape(name), Escape(name[1..]);
      EscapeContains(name[1..], p);
      EscapePrefix(name, p);
      ContainsSteps(name, p);
      ContainsSteps(e, p);
      if IsEscaped(name[0]) {
        assert !IsEscaped(p[0]);
        assert e[1..] == [name[0]] + rest && e[1..][1..] == rest;
        ContainsSteps(e[1..], p);
      } else {
        assert e[1..] == rest;
      }
    }
  }

  /** Text before the opening brace and after the closing brace holds no part of a placeholder. */
  lemma ContainedInMiddle(a: Bytes, s: Bytes, b: Bytes, p: Bytes)
    requires Braced(p) && p[|p| - 1] == CLOSE && OPEN !in a && CLOSE !in b
    ensures Contains(a + s + b, p) <==> Contains(s, p)
  {
    var t := a + s + b;
    if i: nat :| i <= |t| && OccursAt(t, p, i) {
      assert t[i..i + |p|][0] == t[i] && t[i..i + |p|][|p| - 1] == t[i + |p| - 1];
      assert |a| <= i && i + |p| <= |a| + |s|;
      assert t[i..i + |p|] == s[i - |a|..i - |a| + |p|];
      assert OccursAt(s, p, i - |a|);
    }
    if i: nat :| i <= |s| && OccursAt(s, p, i) {
      assert t[i + |a|..i + |a| + |p|] == s[i..i + |p|];
      assert OccursAt(t, p, i + |a|);
    }
  }

  lemma LinkHasNoBrace(id: Bytes)
    requires forall c | c in id :: IsDigit(c)
    ensures CLOSE !in LINK + id + [0x29]
  {
    assert CLOSE !in LINK && !IsDigit(CLOSE);
    assert forall c | c in LINK + id + [0x29] :: c in LINK || c in id || c == 0x29;
  }

  /** So a mention by display name is safe exactly when the name holds neither {mention} nor {mention2}. */
  lemma NamedMentionIsSafeIff(id: Bytes, name: Bytes)
    requires forall c | c in id :: IsDigit(c)
    ensures Safe([0x5B] + Escape(name) + (LINK + id + [0x29])) <==> !Contains(name, M) && !Contains(name, M2)
  {
    var a: Bytes, b := [0x5B], LINK + id + [0x29];
    var m := a + Escape(name) + b;
    assert m[0] == 0x5B && m[|m| - 1] == 0x29;
    FramedIsSafeIff(m);
    LinkHasNoBrace(id);
    ContainedInMiddle(a, Escape(name), b, M);
    ContainedInMiddle(a, Escape(name), b, M2);
    EscapeContains(name, M);
    EscapeContains(name, M2);
  }
}
