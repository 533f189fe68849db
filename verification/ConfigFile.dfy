/**
 Writing the merged configuration and reading it again (the Python part of
 scripts/build.sh): what a TOML reader gets back, and why a second build changes nothing.
 */
module ConfigFile {
  import opened Bytes
  import opened Wrappers
  import opened Numbers
  import opened Tables
  import opened Toml

  type Path = seq<Bytes>

  // ---------------------------------------------------------------- writing

  const TRUE: Bytes := [0x74, 0x72, 0x75, 0x65]
  const FALSE: Bytes := [0x66, 0x61, 0x6C, 0x73, 0x65]
  const EQUALS: Bytes := [0x20, 0x3D, 0x20]
  const DOT: Byte := 0x2E
  const OPEN: Byte := 0x5B
  const CLOSE: Byte := 0x5D
  const HASH: Byte := 0x23

  /** fmt; a float is written as Python prints it. */
  ghost function Fmt(v: Scalar): Bytes {
    match v
    case Str(s) => TomlString(s)
    case Int(n) => Decimal(n)
    case Bool(b) => if b then TRUE else FALSE
    case Float(text) => text
  }

  method Format(v: Scalar) returns (r: Bytes)
    ensures r == Fmt(v)
  {
    match v
    case Str(s) => r := FormatString(s);
    case Int(n) => r := Decimal(n);
    case Bool(b) => r := if b then TRUE else FALSE;
    case Float(text) => r := text;
  }

  ghost function KeyLine(key: Bytes, v: Scalar): Bytes {
    key + (EQUALS + (Fmt(v) + [NEWLINE]))
  }

  /** The lines of the scalars of a table. */
  ghost function Lines(t: Table): Bytes {
    match t
    case Nil => []
    case Entry(k, v, rest) => if v.Leaf? then KeyLine(k, v.scalar) + Lines(rest) else Lines(rest)
  }

  function Dotted(path: Path): Bytes {
    if path == [] then [] else if |path| == 1 then path[0] else path[0] + ([DOT] + Dotted(path[1..]))
  }

  function Header(path: Path): Bytes {
    if path == [] then [] else [OPEN] + (Dotted(path) + [CLOSE, NEWLINE])
  }

  /** The scalars of a table under its header, and an empty line; nothing for a table without scalars. */
  ghost function Section(t: Table, prefix: Path): Bytes {
    if Leaves(t).Nil? then [] else Header(prefix) + (Lines(t) + [NEWLINE])
  }

  ghost function Emit(t: Table, prefix: Path): Bytes
    decreases t, 1
  {
    Section(t, prefix) + EmitSubs(t, prefix)
  }

  ghost function EmitSubs(t: Table, prefix: Path): Bytes
    decreases t, 0
  {
    match t
    case Nil => []
    case Entry(k, v, rest) =>
      if v.Sub? then Emit(v.table, prefix + [k]) + EmitSubs(rest, prefix) else EmitSubs(rest, prefix)
  }

  /** emit: scalars first, then the sub-tables. */
  method Write(f: Bytes, t: Table, prefix: Path) returns (out: Bytes)
    ensures out == f + Emit(t, prefix)
    decreases t, 1
  {
    var lines: Bytes := [];
    var left := t;
    while left.Entry?
      invariant lines + Lines(left) == Lines(t)
      invariant if lines == [] then Leaves(left) == Leaves(t) else Leaves(t).Entry?
      decreases left
    {
      if left.value.Leaf? {
        var text := Format(left.value.scalar);
        Append3(lines, KeyLine(left.key, left.value.scalar), Lines(left.rest));
        lines := lines + (left.key + (EQUALS + (text + [NEWLINE])));
      }
      left := left.rest;
    }
    assert lines + [] == lines;
    out := f;
    if lines != [] {
      out := out + (Header(prefix) + (lines + [NEWLINE]));
    } else {
      assert f + [] == f;
    }
    out := WriteSubs(out, t, prefix);
    Append3(f, Section(t, prefix), EmitSubs(t, prefix));
  }

  method WriteSubs(f: Bytes, t: Table, prefix: Path) returns (out: Bytes)
    ensures out == f + EmitSubs(t, prefix)
    decreases t, 0
  {
    out := f;
    var left := t;
    while left.Entry?
      invariant out + EmitSubs(left, prefix) == f + EmitSubs(t, prefix)
      invariant left == t || left < t
      decreases left
    {
      if left.value.Sub? {
        Append3(out, Emit(left.value.table, prefix + [left.key]), EmitSubs(left.rest, prefix));
        out := Write(out, left.value.table, prefix + [left.key]);
      }
      left := left.rest;
    }
    assert out + [] == out;
  }

  /** The comment lines in front of the tables. */
  function Comment(lines: seq<Bytes>): Bytes {
    if lines == [] then [NEWLINE] else [HASH] + (lines[0] + ([NEWLINE] + Comment(lines[1..])))
  }

  ghost function FileText(comment: seq<Bytes>, t: Table): Bytes {
    Comment(comment) + Emit(t, [])
  }

  /** What is written depends only on the order scalars first, tables second, which the written table has. */
  lemma {:induction false} EmitCanon(t: Table, prefix: Path)
    ensures Emit(Canon(t), prefix) == Emit(t, prefix)
    decreases t, 1
  {
    LinesOfParts(Leaves(t), CanonSubs(t), prefix);
    LinesOfCanon(t, prefix);
    EmitSubsCanon(t, prefix);
  }

  lemma {:induction false} LinesOfParts(a: Table, b: Table, prefix: Path)
    ensures Lines(Append(a, b)) == Lines(a) + Lines(b)
    ensures Leaves(Append(a, b)) == Append(Leaves(a), Leaves(b))
    ensures EmitSubs(Append(a, b), prefix) == EmitSubs(a, prefix) + EmitSubs(b, prefix)
  {
    if a.Entry? {
      LinesOfParts(a.rest, b, prefix);
      if a.value.Leaf? {
        Append3(KeyLine(a.key, a.value.scalar), Lines(a.rest), Lines(b));
      } else {
        Append3(Emit(a.value.table, prefix + [a.key]), EmitSubs(a.rest, prefix), EmitSubs(b, prefix));
      }
    } else {
      assert [] + Lines(b) == Lines(b) && [] + EmitSubs(b, prefix) == EmitSubs(b, prefix);
    }
  }

  lemma {:induction false} LinesOfCanon(t: Table, prefix: Path)
    ensures Lines(Leaves(t)) == Lines(t) && Lines(CanonSubs(t)) == []
    ensures Leaves(Leaves(t)) == Leaves(t) && Leaves(CanonSubs(t)) == Nil
    ensures Append(Leaves(t), Nil) == Leaves(t) && EmitSubs(Leaves(t), prefix) == []
  {
    if t.Entry? { LinesOfCanon(t.rest, prefix); }
  }

  lemma {:induction false} EmitSubsCanon(t: Table, prefix: Path)
    ensures EmitSubs(CanonSubs(t), prefix) == EmitSubs(t, prefix)
    decreases t, 0
  {
    if t.Entry? {
      EmitSubsCanon(t.rest, prefix);
      if t.value.Sub? { EmitCanon(t.value.table, prefix + [t.key]); }
    }
  }

  /** Sub-tables without scalars leave no trace. */
  lemma {:induction false} EmitStripped(t: Table, prefix: Path)
    ensures Emit(Stripped(t), prefix) == Emit(t, prefix)
    decreases t, 1
  {
    StrippedLines(t);
    EmitSubsStripped(t, prefix);
  }

  lemma {:induction false} StrippedLines(t: Table)
    ensures Lines(Stripped(t)) == Lines(t) && Leaves(Stripped(t)) == Leaves(t)
  {
    if t.Entry? { StrippedLines(t.rest); }
  }

  lemma {:induction false} EmitSubsStripped(t: Table, prefix: Path)
    ensures EmitSubs(Stripped(t), prefix) == EmitSubs(t, prefix)
    decreases t, 0
  {
    if t.Entry? {
      EmitSubsStripped(t.rest, prefix);
      if t.value.Sub? {
        EmitStripped(t.value.table, prefix + [t.key]);
        StrippedShape(t.value.table);
        if IsScalarFree(t.value.table) { EmitNothing(prefix + [t.key]); }
      }
    }
  }

  lemma EmitNothing(prefix: Path)
    ensures Emit(Nil, prefix) == []
  {}

  /** What is written depends only on the written table, and nothing is written exactly for a table without scalars. */
  lemma EmitWritten(t: Table, prefix: Path)
    ensures Emit(Written(t), prefix) == Emit(t, prefix)
    ensures IsScalarFree(t) ==> Emit(t, prefix) == []
  {
    EmitStripped(t, prefix);
    EmitCanon(Stripped(t), prefix);
    StrippedShape(t);
    if IsScalarFree(t) { EmitNothing(prefix); }
  }

  // ---------------------------------------------------------------- what the file says, item by item

  /** A header, or a key and value under a path. */
  datatype Item = Opened(path: Path) | Set(path: Path, key: Bytes, scalar: Scalar)

  function Sets(t: Table, prefix: Path): seq<Item> {
    match t
    case Nil => []
    case Entry(k, v, rest) => if v.Leaf? then [Set(prefix, k, v.scalar)] + Sets(rest, prefix) else Sets(rest, prefix)
  }

  function HeaderItems(t: Table, prefix: Path): seq<Item> {
    if Leaves(t).Nil? || prefix == [] then [] else [Opened(prefix)]
  }

  function Items(t: Table, prefix: Path): seq<Item>
    decreases t, 1
  {
    HeaderItems(t, prefix) + (Sets(t, prefix) + ItemsSubs(t, prefix))
  }

  function ItemsSubs(t: Table, prefix: Path): seq<Item>
    decreases t, 0
  {
    match t
    case Nil => []
    case Entry(k, v, rest) =>
      if v.Sub? then Items(v.table, prefix + [k]) + ItemsSubs(rest, prefix) else ItemsSubs(rest, prefix)
  }

  // ---------------------------------------------------------------- building tables from items

  /** Opening a header creates the tables on its path; None where a scalar is in the way. */
  function OpenAt(t: Table, path: Path): Option<Table>
    decreases |path|
  {
    if path == [] then Some(t)
    else
      var was := Get(t, path[0]);
      if was.Some? && was.value.Leaf? then None
      else
        var sub := OpenAt(if was.Some? then was.value.table else Nil, path[1..]);
        if sub.None? then None else Some(Put(t, path[0], Sub(sub.value)))
  }

  /** Setting a key; None where the key is set already or a scalar is in the way. */
  function SetAt(t: Table, path: Path, key: Bytes, v: Scalar): Option<Table>
    decreases |path|
  {
    if path == [] then if Get(t, key).Some? then None else Some(Put(t, key, Leaf(v)))
    else
      var was := Get(t, path[0]);
      if was.Some? && was.value.Leaf? then None
      else
        var sub := SetAt(if was.Some? then was.value.table else Nil, path[1..], key, v);
        if sub.None? then None else Some(Put(t, path[0], Sub(sub.value)))
  }

  function Insert(t: Table, item: Item): Option<Table> {
    match item
    case Opened(path) => OpenAt(t, path)
    case Set(path, key, v) => SetAt(t, path, key, v)
  }

  function InsertAll(t: Option<Table>, items: seq<Item>): Option<Table>
    decreases |items|
  {
    if items == [] || t.None? then t else InsertAll(Insert(t.value, items[0]), items[1..])
  }

  lemma {:induction false} InsertJoin(t: Option<Table>, a: seq<Item>, b: seq<Item>)
    ensures InsertAll(t, a + b) == InsertAll(InsertAll(t, a), b)
    decreases |a|
  {
    if a == [] {
      assert a + b == b;
    } else if t.Some? {
      assert (a + b)[1..] == a[1..] + b;
      InsertJoin(Insert(t.value, a[0]), a[1..], b);
    }
  }

  function Push(k: Bytes, item: Item): Item {
    match item
    case Opened(path) => Opened([k] + path)
    case Set(path, key, v) => Set([k] + path, key, v)
  }

  function PushAll(k: Bytes, items: seq<Item>): (r: seq<Item>)
    ensures |r| == |items|
  {
    if items == [] then [] else [Push(k, items[0])] + PushAll(k, items[1..])
  }

  lemma {:induction false} PushJoin(k: Bytes, a: seq<Item>, b: seq<Item>)
    ensures PushAll(k, a + b) == PushAll(k, a) + PushAll(k, b)
  {
    if a == [] {
      assert a + b == b && PushAll(k, b) == [] + PushAll(k, b);
    } else {
      assert (a + b)[1..] == a[1..] + b;
      PushJoin(k, a[1..], b);
    }
  }

  lemma {:induction false} SetsPushed(t: Table, k: Bytes, prefix: Path)
    ensures Sets(t, [k] + prefix) == PushAll(k, Sets(t, prefix))
  {
    if t.Entry? {
      SetsPushed(t.rest, k, prefix);
      if t.value.Leaf? { assert Sets(t, prefix)[1..] == Sets(t.rest, prefix); }
    }
  }

  /** Items under a longer path are the pushed items. */
  lemma {:induction false} ItemsPushed(t: Table, k: Bytes, prefix: Path)
    requires prefix != []
    ensures Items(t, [k] + prefix) == PushAll(k, Items(t, prefix))
    decreases t, 1
  {
    SetsPushed(t, k, prefix);
    SubsPushed(t, k, prefix);
    PushJoin(k, Sets(t, prefix), ItemsSubs(t, prefix));
    PushJoin(k, HeaderItems(t, prefix), Sets(t, prefix) + ItemsSubs(t, prefix));
    if Leaves(t).Entry? { assert [Opened(prefix)][1..] == []; }
  }

  lemma {:induction false} SubsPushed(t: Table, k: Bytes, prefix: Path)
    ensures ItemsSubs(t, [k] + prefix) == PushAll(k, ItemsSubs(t, prefix))
    decreases t, 0
  {
    if t.Entry? {
      SubsPushed(t.rest, k, prefix);
      if t.value.Sub? {
        assert [k] + prefix + [t.key] == [k] + (prefix + [t.key]);
        ItemsPushed(t.value.table, k, prefix + [t.key]);
        PushJoin(k, Items(t.value.table, prefix + [t.key]), ItemsSubs(t.rest, prefix));
      }
    }
  }

  function Wrapped(t: Table, k: Bytes, sub: Option<Table>): Option<Table> {
    if sub.None? then None else Some(Put(t, k, Sub(sub.value)))
  }

  lemma PushedInsert(t: Table, k: Bytes, item: Item)
    requires Get(t, k).Some? ==> Get(t, k).value.Sub?
    ensures Insert(t, Push(k, item)) == Wrapped(t, k, Insert(SubOr(t, k), item))
  {
    match item
    case Opened(path) => assert ([k] + path)[1..] == path;
    case Set(path, key, v) => assert ([k] + path)[1..] == path;
  }

  lemma {:induction false} PutAgain(t: Table, k: Bytes, a: Value, b: Value)
    ensures Put(Put(t, k, a), k, b) == Put(t, k, b)
  {
    if t.Entry? { PutAgain(t.rest, k, a, b); }
  }

  /** Pushed items work on the sub-table under their key. */
  lemma {:induction false} PushedInsertAll(t: Table, k: Bytes, items: seq<Item>)
    requires items != [] && (Get(t, k).Some? ==> Get(t, k).value.Sub?)
    ensures InsertAll(Some(t), PushAll(k, items)) == Wrapped(t, k, InsertAll(Some(SubOr(t, k)), items))
    decreases |items|
  {
    PushedInsert(t, k, items[0]);
    var sub := Insert(SubOr(t, k), items[0]);
    assert PushAll(k, items)[1..] == PushAll(k, items[1..]);
    if sub.Some? {
      var next := Put(t, k, Sub(sub.value));
      GetPut(t, k, Sub(sub.value), k);
      if |items| > 1 {
        PushedInsertAll(next, k, items[1..]);
        var last := InsertAll(sub, items[1..]);
        if last.Some? { PutAgain(t, k, Sub(sub.value), Sub(last.value)); }
      }
    }
  }

  lemma {:induction false} FullHasItems(t: Table, prefix: Path)
    requires t.Entry? && IsFull(t)
    ensures Sets(t, prefix) + ItemsSubs(t, prefix) != [] && Items(t, prefix) != []
    decreases t
  {
    if t.value.Sub? { FullHasItems(t.value.table, prefix + [t.key]); }
  }

  lemma {:induction false} PutAtEnd(t: Table, k: Bytes, v: Value, more: Table)
    requires k !in Keys(t)
    ensures Append(Put(t, k, v), more) == Append(t, Entry(k, v, more))
  {
    if t.Entry? { PutAtEnd(t.rest, k, v, more); }
  }

  lemma {:induction false} AppendNil(t: Table)
    ensures Append(t, Nil) == t
  {
    if t.Entry? { AppendNil(t.rest); }
  }

  /** The scalars of a table are appended in order. */
  lemma {:induction false} SetsBuild(acc: Table, t: Table)
    requires IsDict(t) && forall k | k in Keys(Leaves(t)) :: k !in Keys(acc)
    ensures InsertAll(Some(acc), Sets(t, [])) == Some(Append(acc, Leaves(t)))
    decreases t
  {
    if t.Nil? {
      AppendNil(acc);
    } else if t.value.Sub? {
      SetsBuild(acc, t.rest);
    } else {
      var k, v := t.key, t.value;
      assert Keys(Leaves(t))[0] == k && forall l | l in Keys(Leaves(t.rest)) :: l in Keys(Leaves(t));
      GetHasKey(acc, k);
      GetParts(t.rest, k);
      GetHasKey(t.rest, k);
      GetHasKey(Leaves(t.rest), k);
      PutKeys(acc, k, v);
      assert Sets(t, [])[1..] == Sets(t.rest, []);
      SetsBuild(Put(acc, k, v), t.rest);
      PutAtEnd(acc, k, v, Leaves(t.rest));
    }
  }

  /** The items of one sub-table build it under its key. */
  lemma SubBuilds(acc: Table, k: Bytes, u: Table)
    requires k !in Keys(acc) && u.Entry? && IsFull(u) && InsertAll(Some(Nil), Items(u, [])) == Some(Canon(u))
    ensures InsertAll(Some(acc), Items(u, [k])) == Some(Put(acc, k, Sub(Canon(u))))
  {
    FullHasItems(u, []);
    SetsPushed(u, k, []);
    SubsPushed(u, k, []);
    PushJoin(k, Sets(u, []), ItemsSubs(u, []));
    assert [k] + [] == [k];
    var items := Sets(u, []) + ItemsSubs(u, []);
    assert Items(u, []) == items;
    var pushed := PushAll(k, items);
    InsertJoin(Some(acc), HeaderItems(u, [k]), pushed);
    GetHasKey(acc, k);
    if Leaves(u).Nil? {
      PushedInsertAll(acc, k, items);
    } else {
      var withHeader := Put(acc, k, Sub(Nil));
      assert [k][1..] == [] && [Opened([k])][1..] == [];
      assert OpenAt(acc, [k]) == Some(withHeader);
      GetPut(acc, k, Sub(Nil), k);
      PushedInsertAll(withHeader, k, items);
      PutAgain(acc, k, Sub(Nil), Sub(Canon(u)));
    }
  }

  /** The sub-tables of a table are appended in order. */
  lemma {:induction false} SubsBuild(acc: Table, t: Table)
    requires IsDict(t) && IsFull(t) && forall k | k in Keys(CanonSubs(t)) :: k !in Keys(acc)
    ensures InsertAll(Some(acc), ItemsSubs(t, [])) == Some(Append(acc, CanonSubs(t)))
    decreases t, 0
  {
    if t.Nil? {
      AppendNil(acc);
    } else if t.value.Leaf? {
      SubsBuild(acc, t.rest);
    } else {
      var k, u := t.key, t.value.table;
      assert Keys(CanonSubs(t))[0] == k && forall l | l in Keys(CanonSubs(t.rest)) :: l in Keys(CanonSubs(t));
      GetParts(t.rest, k);
      GetHasKey(t.rest, k);
      GetHasKey(CanonSubs(t.rest), k);
      BuildsCanon(u);
      SubBuilds(acc, k, u);
      assert [] + [k] == [k];
      InsertJoin(Some(acc), Items(u, [k]), ItemsSubs(t.rest, []));
      PutKeys(acc, k, Sub(Canon(u)));
      SubsBuild(Put(acc, k, Sub(Canon(u))), t.rest);
      PutAtEnd(acc, k, Sub(Canon(u)), CanonSubs(t.rest));
    }
  }

  /** The items of a table without empty sub-tables build the table, scalars first. */
  lemma {:induction false} BuildsCanon(t: Table)
    requires IsDict(t) && IsFull(t)
    ensures InsertAll(Some(Nil), Items(t, [])) == Some(Canon(t))
    decreases t, 1
  {
    assert Items(t, []) == Sets(t, []) + ItemsSubs(t, []);
    InsertJoin(Some(Nil), Sets(t, []), ItemsSubs(t, []));
    SetsBuild(Nil, t);
    forall k | k in Keys(CanonSubs(t)) ensures k !in Keys(Leaves(t)) {
      GetParts(t, k);
      GetHasKey(Leaves(t), k);
      GetHasKey(CanonSubs(t), k);
    }
    SubsBuild(Leaves(t), t);
  }

  // ---------------------------------------------------------------- reading

  /** Bare keys: letters, digits, underscore and hyphen. */
  predicate IsBareByte(b: Byte) {
    0x41 <= b <= 0x5A || 0x61 <= b <= 0x7A || IsDigit(b) || b == 0x5F || b == 0x2D
  }

  predicate IsBare(key: Bytes) {
    key != [] && forall b | b in key :: IsBareByte(b)
  }

  /** The leading bytes that satisfy a test, and what follows them. */
  function Run(s: Bytes, test: Byte -> bool): (r: (Bytes, Bytes))
    ensures |r.0| + |r.1| == |s|
    decreases |s|
  {
    if s != [] && test(s[0]) then
      var r := Run(s[1..], test);
      ([s[0]] + r.0, r.1)
    else ([], s)
  }

  lemma {:induction false} RunReadsBack(a: Bytes, rest: Bytes, test: Byte -> bool)
    requires (forall b | b in a :: test(b)) && (rest == [] || !test(rest[0]))
    ensures Run(a + rest, test) == (a, rest)
    decreases |a|
  {
    if a == [] {
      assert a + rest == rest;
    } else {
      assert a[0] in a && (forall b | b in a[1..] :: b in a) && (a + rest)[1..] == a[1..] + rest;
      RunReadsBack(a[1..], rest, test);
      assert a == [a[0]] + a[1..];
    }
  }

  /** The characters of integers and of the floats Python prints. */
  predicate IsNumberByte(b: Byte) {
    IsDigit(b) || b == 0x2B || b == 0x2D || b == DOT || b == 0x65 || b == 0x69 || b == 0x6E || b == 0x66 || b == 0x61
  }

  predicate IsInteger(text: Bytes) {
    ReadInt(text).Some? && ReadInt(text).value.1 == []
  }

  /** A float's text: number characters that are not an integer. */
  predicate IsFloatText(text: Bytes) {
    text != [] && (forall b | b in text :: IsNumberByte(b)) && !IsInteger(text)
  }

  function ReadScalar(s: Bytes): (r: Option<(Scalar, Bytes)>)
    ensures r.Some? ==> |r.value.1| < |s|
  {
    if s != [] && s[0] == QUOTE then
      var t := ReadString(s);
      if t.None? then None else Some((Str(t.value.0), t.value.1))
    else if TRUE <= s then Some((Bool(true), s[4..]))
    else if FALSE <= s then Some((Bool(false), s[5..]))
    else
      var run := Run(s, IsNumberByte);
      if IsInteger(run.0) then Some((Int(ReadInt(run.0).value.0), run.1))
      else if run.0 != [] then Some((Float(run.0), run.1))
      else None
  }

  /** The keys of a header behind its bracket. */
  function ReadPath(s: Bytes): (r: Option<(Path, Bytes)>)
    ensures r.Some? ==> |r.value.1| < |s|
    decreases |s|
  {
    var key := Run(s, IsBareByte);
    if key.0 == [] || key.1 == [] then None
    else if key.1[0] == CLOSE then Some(([key.0], key.1[1..]))
    else if key.1[0] == DOT then
      var more := ReadPath(key.1[1..]);
      if more.None? then None else Some(([key.0] + more.value.0, more.value.1))
    else None
  }

  /** Whitespace within a line. */
  predicate IsBlank(b: Byte) {
    b == 0x20 || b == 0x09
  }

  /** A key, an equals sign and a value, with blanks around the sign. */
  function ReadSetting(s: Bytes): (r: Option<((Bytes, Scalar), Bytes)>)
    ensures r.Some? ==> |r.value.1| < |s|
  {
    var key := Run(s, IsBareByte);
    var sign := Run(key.1, IsBlank).1;
    if key.0 == [] || sign == [] || sign[0] != 0x3D then None
    else
      var v := ReadScalar(Run(sign[1..], IsBlank).1);
      if v.None? then None else Some(((key.0, v.value.0), v.value.1))
  }

  predicate AtLineEnd(s: Bytes) {
    s == [] || s[0] == NEWLINE
  }

  predicate IsCommentByte(b: Byte) {
    b != NEWLINE
  }

  function Concat(a: seq<Item>, b: Option<seq<Item>>): Option<seq<Item>> {
    if b.None? then None else Some(a + b.value)
  }

  /** The document line by line: empty lines, comments, headers and settings. */
  function ReadItems(s: Bytes, path: Path): Option<seq<Item>>
    decreases |s|
  {
    if s == [] then Some([])
    else if s[0] == NEWLINE then ReadItems(s[1..], path)
    else if s[0] == HASH then ReadItems(Run(s[1..], IsCommentByte).1, path)
    else if s[0] == OPEN then
      var header := ReadPath(s[1..]);
      if header.None? || !AtLineEnd(header.value.1) then None
      else Concat([Opened(header.value.0)], ReadItems(header.value.1, header.value.0))
    else
      var setting := ReadSetting(s);
      if setting.None? || !AtLineEnd(setting.value.1) then None
      else Concat([Set(path, setting.value.0.0, setting.value.0.1)], ReadItems(setting.value.1, path))
  }

  /** The headers of a document, in order. */
  function Headers(items: seq<Item>): seq<Path> {
    if items == [] then []
    else (if items[0].Opened? then [items[0].path] else []) + Headers(items[1..])
  }

  predicate HasNoRepeats(paths: seq<Path>) {
    paths == [] || (paths[0] !in paths[1..] && HasNoRepeats(paths[1..]))
  }

  /** Loading a file; opening a header twice is an error. */
  function Load(s: Bytes): Option<Table> {
    var items := ReadItems(Uncrlf(s), []);
    if items.None? || !HasNoRepeats(Headers(items.value)) then None else InsertAll(Some(Nil), items.value)
  }

  // ---------------------------------------------------------------- no header is written twice

  lemma {:induction false} HeadersJoin(a: seq<Item>, b: seq<Item>)
    ensures Headers(a + b) == Headers(a) + Headers(b)
  {
    if a == [] {
      assert a + b == b && [] + Headers(b) == Headers(b);
    } else {
      assert (a + b)[1..] == a[1..] + b;
      HeadersJoin(a[1..], b);
    }
  }

  lemma {:induction false} NoRepeatsJoin(a: seq<Path>, b: seq<Path>)
    requires HasNoRepeats(a) && HasNoRepeats(b) && forall p | p in a :: p !in b
    ensures HasNoRepeats(a + b)
  {
    if a == [] {
      assert a + b == b;
    } else {
      assert (a + b)[1..] == a[1..] + b && forall p | p in a[1..] :: p in a;
      assert a[0] in a;
      NoRepeatsJoin(a[1..], b);
    }
  }

  lemma {:induction false} SetsOpenNothing(t: Table, prefix: Path)
    ensures Headers(Sets(t, prefix)) == []
  {
    if t.Entry? {
      SetsOpenNothing(t.rest, prefix);
      if t.value.Leaf? { assert Sets(t, prefix)[1..] == Sets(t.rest, prefix); }
    }
  }

  /** The headers of the items of a table: its own, if it has one, and those of its sub-tables. */
  lemma HeadersOfItems(t: Table, prefix: Path)
    ensures Headers(Items(t, prefix)) == Headers(HeaderItems(t, prefix)) + Headers(ItemsSubs(t, prefix))
    ensures Headers(HeaderItems(t, prefix)) == if Leaves(t).Nil? || prefix == [] then [] else [prefix]
  {
    HeadersJoin(HeaderItems(t, prefix), Sets(t, prefix) + ItemsSubs(t, prefix));
    HeadersJoin(Sets(t, prefix), ItemsSubs(t, prefix));
    SetsOpenNothing(t, prefix);
    assert [] + Headers(ItemsSubs(t, prefix)) == Headers(ItemsSubs(t, prefix));
    if Leaves(t).Entry? && prefix != [] { assert [Opened(prefix)][1..] == []; }
  }

  /** The header lies under the path of one of the keys. */
  predicate IsUnder(h: Path, prefix: Path, keys: seq<Bytes>) {
    |h| > |prefix| && h[..|prefix|] == prefix && h[|prefix|] in keys
  }

  /** A table opens headers at or below its own path, each once. */
  lemma {:induction false} ItemsOpenOnce(t: Table, prefix: Path)
    requires IsDict(t)
    ensures HasNoRepeats(Headers(Items(t, prefix)))
    ensures forall h | h in Headers(Items(t, prefix)) :: h == prefix || IsUnder(h, prefix, Keys(t))
    decreases t, 1
  {
    HeadersOfItems(t, prefix);
    SubsOpenOnce(t, prefix);
    NoRepeatsJoin(Headers(HeaderItems(t, prefix)), Headers(ItemsSubs(t, prefix)));
  }

  lemma {:induction false} SubsOpenOnce(t: Table, prefix: Path)
    requires IsDict(t)
    ensures HasNoRepeats(Headers(ItemsSubs(t, prefix)))
    ensures forall h | h in Headers(ItemsSubs(t, prefix)) :: IsUnder(h, prefix, Keys(t))
    decreases t, 0
  {
    if t.Entry? {
      SubsOpenOnce(t.rest, prefix);
      if t.value.Sub? {
        var sub := Items(t.value.table, prefix + [t.key]);
        ItemsOpenOnce(t.value.table, prefix + [t.key]);
        HeadersJoin(sub, ItemsSubs(t.rest, prefix));
        forall h | h in Headers(sub) ensures IsUnder(h, prefix, [t.key]) { UnderKey(h, prefix, t.key); }
        NoRepeatsJoin(Headers(sub), Headers(ItemsSubs(t.rest, prefix)));
      }
    }
  }

  lemma UnderKey(h: Path, prefix: Path, key: Bytes)
    requires |h| > |prefix| && h[..|prefix| + 1] == prefix + [key]
    ensures IsUnder(h, prefix, [key])
  {
    assert h[..|prefix|] == h[..|prefix| + 1][..|prefix|] && h[|prefix|] == h[..|prefix| + 1][|prefix|];
  }

  // ---------------------------------------------------------------- what is written is read back

  predicate IsPrintableScalar(v: Scalar) {
    (v.Str? ==> IsPrintable(v.s)) && (v.Float? ==> IsFloatText(v.text))
  }

  /** Bare keys and scalars that print and read back, at every level. */
  predicate IsWritable(t: Table) {
    match t
    case Nil => true
    case Entry(k, v, rest) =>
      IsBare(k) && IsWritable(rest) && (v.Leaf? ==> IsPrintableScalar(v.scalar)) && (v.Sub? ==> IsWritable(v.table))
  }

  lemma DecimalIsInteger(n: int)
    ensures IsInteger(Decimal(n)) && ReadInt(Decimal(n)).value.0 == n
    ensures forall b | b in Decimal(n) :: IsNumberByte(b)
  {
    IntReadsBack(n, []);
    assert Decimal(n) + [] == Decimal(n);
    DecimalDigits(if n < 0 then -n else n);
    assert n < 0 ==> Decimal(n) == [0x2D] + Decimal(-n);
  }

  lemma NumberRead(text: Bytes, rest: Bytes)
    requires text != [] && (forall b | b in text :: IsNumberByte(b)) && rest != [] && rest[0] == NEWLINE
    ensures ReadScalar(text + rest) == Some((if IsInteger(text) then Int(ReadInt(text).value.0) else Float(text), rest))
  {
    var s := text + rest;
    RunReadsBack(text, rest, IsNumberByte);
    assert s[0] == text[0] && text[0] in text;
    assert |text| == 2 ==> s[2] == rest[0];
    assert |text| > 2 ==> s[2] == text[2] && text[2] in text;
    assert |text| == 1 ==> s[1] == rest[0];
    assert TRUE[0] == 0x74 && FALSE[1] == 0x61 && FALSE[2] == 0x6C;
  }

  lemma ScalarReadsBack(v: Scalar, rest: Bytes)
    requires IsPrintableScalar(v) && rest != [] && rest[0] == NEWLINE
    ensures ReadScalar(Fmt(v) + rest) == Some((v, rest))
    ensures Fmt(v) != [] && !IsBlank(Fmt(v)[0])
  {
    match v
    case Str(s) =>
      StringReadsBack(s, rest);
    case Int(n) =>
      DecimalIsInteger(n);
      NumberRead(Decimal(n), rest);
      assert Decimal(n)[0] in Decimal(n);
    case Bool(b) =>
      var w := Fmt(v);
      assert w <= w + rest && (w + rest)[|w|..] == rest && TRUE[0] != FALSE[0];
    case Float(text) =>
      NumberRead(text, rest);
      assert text[0] in text;
  }

  lemma SettingFrom(s: Bytes, k: Bytes, body: Bytes, v: Scalar, rest: Bytes)
    requires Run(s, IsBareByte) == (k, [0x20] + ([0x3D] + ([0x20] + body))) && k != []
    requires body != [] && !IsBlank(body[0]) && ReadScalar(body) == Some((v, rest))
    ensures ReadSetting(s) == Some(((k, v), rest))
  {
    RunReadsBack([0x20], [0x3D] + ([0x20] + body), IsBlank);
    Head(0x3D, [0x20] + body);
    RunReadsBack([0x20], body, IsBlank);
  }

  lemma SettingShape(k: Bytes, f: Bytes, rest: Bytes)
    ensures k + (EQUALS + (f + [NEWLINE])) + rest == k + ([0x20] + ([0x3D] + ([0x20] + (f + ([NEWLINE] + rest)))))
  {
    var body := f + ([NEWLINE] + rest);
    Append3(f, [NEWLINE], rest);
    Append3(EQUALS, f + [NEWLINE], rest);
    Append3(k, EQUALS + (f + [NEWLINE]), rest);
    assert EQUALS + body == [0x20] + ([0x3D] + ([0x20] + body));
  }

  lemma SettingReadsBack(k: Bytes, v: Scalar, rest: Bytes)
    requires IsBare(k) && IsPrintableScalar(v)
    ensures ReadSetting(KeyLine(k, v) + rest) == Some(((k, v), [NEWLINE] + rest))
  {
    var body := Fmt(v) + ([NEWLINE] + rest);
    ScalarReadsBack(v, [NEWLINE] + rest);
    SettingShape(k, Fmt(v), rest);
    RunReadsBack(k, [0x20] + ([0x3D] + ([0x20] + body)), IsBareByte);
    SettingFrom(KeyLine(k, v) + rest, k, body, v, [NEWLINE] + rest);
  }

  ghost predicate IsBarePath(path: Path) {
    forall k | k in path :: IsBare(k)
  }

  lemma {:induction false} PathReadsBack(path: Path, rest: Bytes)
    requires path != [] && IsBarePath(path)
    ensures ReadPath(Dotted(path) + ([CLOSE] + rest)) == Some((path, rest))
  {
    var k, end := path[0], [CLOSE] + rest;
    assert k in path;
    if |path| == 1 {
      RunReadsBack(k, end, IsBareByte);
      Head(CLOSE, rest);
      assert path == [k];
    } else {
      assert forall l | l in path[1..] :: l in path;
      PathReadsBack(path[1..], rest);
      var tail := Dotted(path[1..]) + end;
      Append3(k, [DOT] + Dotted(path[1..]), end);
      Append3([DOT], Dotted(path[1..]), end);
      RunReadsBack(k, [DOT] + tail, IsBareByte);
      Head(DOT, tail);
      assert path == [k] + path[1..];
    }
  }

  lemma SkipNewline(rest: Bytes, path: Path)
    ensures ReadItems([NEWLINE] + rest, path) == ReadItems(rest, path)
  {
    Head(NEWLINE, rest);
  }

  /** The turn of the reader for a setting, and for a header. */
  lemma SettingTurn(s: Bytes, k: Bytes, v: Scalar, rest: Bytes, path: Path)
    requires s != [] && IsBareByte(s[0]) && ReadSetting(s) == Some(((k, v), [NEWLINE] + rest))
    ensures ReadItems(s, path) == Concat([Set(path, k, v)], ReadItems(rest, path))
  {
    SkipNewline(rest, path);
  }

  lemma HeaderTurn(s: Bytes, rest: Bytes, path: Path, next: Path)
    requires ReadPath(s) == Some((next, [NEWLINE] + rest))
    ensures ReadItems([OPEN] + s, path) == Concat([Opened(next)], ReadItems(rest, next))
  {
    Head(OPEN, s);
    SkipNewline(rest, next);
  }

  lemma ConcatNothing(r: Option<seq<Item>>)
    ensures Concat([], r) == r
  {
    if r.Some? { assert [] + r.value == r.value; }
  }

  lemma ConcatJoin(a: seq<Item>, b: seq<Item>, r: Option<seq<Item>>)
    ensures Concat(a, Concat(b, r)) == Concat(a + b, r)
  {
    if r.Some? { Append3(a, b, r.value); }
  }

  lemma {:induction false} LinesRead(t: Table, path: Path, rest: Bytes)
    requires IsWritable(t)
    ensures ReadItems(Lines(t) + rest, path) == Concat(Sets(t, path), ReadItems(rest, path))
  {
    if t.Nil? {
      assert [] + rest == rest;
      ConcatNothing(ReadItems(rest, path));
    } else {
      LinesRead(t.rest, path, rest);
      if t.value.Leaf? {
        var k, v, tail := t.key, t.value.scalar, Lines(t.rest) + rest;
        Append3(KeyLine(k, v), Lines(t.rest), rest);
        SettingReadsBack(k, v, tail);
        assert (KeyLine(k, v) + tail)[0] == k[0] && k[0] in k;
        SettingTurn(KeyLine(k, v) + tail, k, v, tail, path);
        ConcatJoin([Set(path, k, v)], Sets(t.rest, path), ReadItems(rest, path));
      }
    }
  }

  /** The path in force after the text of a table: that of its last section. */
  function PathAfter(t: Table, prefix: Path, path: Path): Path
    decreases t, 1
  {
    PathAfterSubs(t, prefix, if Leaves(t).Nil? then path else prefix)
  }

  function PathAfterSubs(t: Table, prefix: Path, path: Path): Path
    decreases t, 0
  {
    match t
    case Nil => path
    case Entry(k, v, rest) =>
      PathAfterSubs(rest, prefix, if v.Sub? then PathAfter(v.table, prefix + [k], path) else path)
  }

  lemma SectionRead(t: Table, prefix: Path, path: Path, rest: Bytes)
    requires IsWritable(t) && IsBarePath(prefix) && (prefix == [] ==> path == [])
    ensures ReadItems(Section(t, prefix) + rest, path)
         == Concat(HeaderItems(t, prefix) + Sets(t, prefix), ReadItems(rest, if Leaves(t).Nil? then path else prefix))
  {
    if Leaves(t).Nil? {
      NoSets(t, prefix);
      assert [] + rest == rest;
      ConcatNothing(ReadItems(rest, path));
    } else {
      var tail := [NEWLINE] + rest;
      SkipNewline(rest, prefix);
      LinesRead(t, prefix, tail);
      Append3(Lines(t), [NEWLINE], rest);
      var body := Lines(t) + tail;
      Append3(Header(prefix), Lines(t) + [NEWLINE], rest);
      if prefix == [] {
        assert [] + body == body && [] + Sets(t, prefix) == Sets(t, prefix);
      } else {
        HeaderShape(prefix, body);
        PathReadsBack(prefix, [NEWLINE] + body);
        HeaderTurn(Dotted(prefix) + ([CLOSE] + ([NEWLINE] + body)), body, path, prefix);
        ConcatJoin([Opened(prefix)], Sets(t, prefix), ReadItems(rest, prefix));
      }
    }
  }

  lemma HeaderShape(prefix: Path, body: Bytes)
    requires prefix != []
    ensures Header(prefix) + body == [OPEN] + (Dotted(prefix) + ([CLOSE] + ([NEWLINE] + body)))
  {
    var d := Dotted(prefix);
    assert [CLOSE, NEWLINE] == [CLOSE] + [NEWLINE];
    Append3([OPEN], d + [CLOSE, NEWLINE], body);
    Append3(d, [CLOSE, NEWLINE], body);
    Append3([CLOSE], [NEWLINE], body);
  }

  lemma {:induction false} NoSets(t: Table, prefix: Path)
    requires Leaves(t).Nil?
    ensures Sets(t, prefix) == []
  {
    if t.Entry? { NoSets(t.rest, prefix); }
  }

  /** The text of a table is read as its items, whatever follows. */
  lemma {:induction false} EmitRead(t: Table, prefix: Path, path: Path, rest: Bytes)
    requires IsWritable(t) && IsBarePath(prefix) && (prefix == [] ==> path == [])
    ensures ReadItems(Emit(t, prefix) + rest, path)
         == Concat(Items(t, prefix), ReadItems(rest, PathAfter(t, prefix, path)))
    decreases t, 1
  {
    var next := if Leaves(t).Nil? then path else prefix;
    Append3(Section(t, prefix), EmitSubs(t, prefix), rest);
    SectionRead(t, prefix, path, EmitSubs(t, prefix) + rest);
    EmitSubsRead(t, prefix, next, rest);
    ConcatJoin(HeaderItems(t, prefix) + Sets(t, prefix), ItemsSubs(t, prefix),
      ReadItems(rest, PathAfter(t, prefix, path)));
    Append3(HeaderItems(t, prefix), Sets(t, prefix), ItemsSubs(t, prefix));
  }

  lemma {:induction false} EmitSubsRead(t: Table, prefix: Path, path: Path, rest: Bytes)
    requires IsWritable(t) && IsBarePath(prefix)
    ensures ReadItems(EmitSubs(t, prefix) + rest, path)
         == Concat(ItemsSubs(t, prefix), ReadItems(rest, PathAfterSubs(t, prefix, path)))
    decreases t, 0
  {
    if t.Nil? {
      assert [] + rest == rest;
      ConcatNothing(ReadItems(rest, path));
    } else if t.value.Leaf? {
      EmitSubsRead(t.rest, prefix, path, rest);
    } else {
      var sub := prefix + [t.key];
      var e, tail := Emit(t.value.table, sub), EmitSubs(t.rest, prefix) + rest;
      var next := PathAfter(t.value.table, sub, path);
      Append3(e, EmitSubs(t.rest, prefix), rest);
      EmitRead(t.value.table, sub, path, tail);
      EmitSubsRead(t.rest, prefix, next, rest);
      ConcatJoin(Items(t.value.table, sub), ItemsSubs(t.rest, prefix),
        ReadItems(rest, PathAfterSubs(t.rest, prefix, next)));
    }
  }

  predicate IsCommentLine(line: Bytes) {
    forall b | b in line :: b != NEWLINE && b != RETURN
  }

  lemma CommentShape(line: Bytes, more: Bytes, rest: Bytes)
    ensures [HASH] + (line + ([NEWLINE] + more)) + rest == [HASH] + (line + ([NEWLINE] + (more + rest)))
  {
    Append3([HASH], line + ([NEWLINE] + more), rest);
    Append3(line, [NEWLINE] + more, rest);
    Append3([NEWLINE], more, rest);
  }

  lemma {:induction false} CommentRead(lines: seq<Bytes>, rest: Bytes)
    requires forall l | l in lines :: IsCommentLine(l)
    ensures ReadItems(Comment(lines) + rest, []) == ReadItems(rest, [])
  {
    if lines == [] {
      SkipNewline(rest, []);
    } else {
      var line, tail := lines[0], Comment(lines[1..]) + rest;
      assert line in lines && forall l | l in lines[1..] :: l in lines;
      CommentRead(lines[1..], rest);
      var s := line + ([NEWLINE] + tail);
      CommentShape(line, Comment(lines[1..]), rest);
      Head(HASH, s);
      RunReadsBack(line, [NEWLINE] + tail, IsCommentByte);
      SkipNewline(tail, []);
    }
  }

  // ---------------------------------------------------------------- no carriage returns

  lemma NoReturnJoin(a: Bytes, b: Bytes)
    ensures RETURN in a + b <==> RETURN in a || RETURN in b
  {}

  lemma ScalarHasNoReturn(v: Scalar)
    requires IsPrintableScalar(v)
    ensures RETURN !in Fmt(v)
  {
    match v
    case Str(s) => StringHasNoReturn(s);
    case Int(n) => DecimalIsInteger(n);
    case Bool(b) =>
    case Float(text) =>
  }

  lemma KeyLineHasNoReturn(k: Bytes, v: Scalar)
    requires IsBare(k) && IsPrintableScalar(v)
    ensures RETURN !in KeyLine(k, v)
  {
    ScalarHasNoReturn(v);
    NoReturnJoin(Fmt(v), [NEWLINE]);
    NoReturnJoin(EQUALS, Fmt(v) + [NEWLINE]);
    NoReturnJoin(k, EQUALS + (Fmt(v) + [NEWLINE]));
    assert !IsBareByte(RETURN);
  }

  lemma {:induction false} LinesHaveNoReturn(t: Table)
    requires IsWritable(t)
    ensures RETURN !in Lines(t)
  {
    if t.Entry? {
      LinesHaveNoReturn(t.rest);
      if t.value.Leaf? {
        KeyLineHasNoReturn(t.key, t.value.scalar);
        NoReturnJoin(KeyLine(t.key, t.value.scalar), Lines(t.rest));
      }
    }
  }

  lemma {:induction false} PathHasNoReturn(path: Path)
    requires IsBarePath(path)
    ensures RETURN !in Dotted(path)
  {
    if path != [] {
      assert path[0] in path && forall k | k in path[1..] :: k in path;
      assert !IsBareByte(RETURN);
      PathHasNoReturn(path[1..]);
    }
  }

  lemma SectionHasNoReturn(t: Table, prefix: Path)
    requires IsWritable(t) && IsBarePath(prefix)
    ensures RETURN !in Section(t, prefix)
  {
    PathHasNoReturn(prefix);
    LinesHaveNoReturn(t);
    NoReturnJoin(Dotted(prefix), [CLOSE, NEWLINE]);
    NoReturnJoin([OPEN], Dotted(prefix) + [CLOSE, NEWLINE]);
    NoReturnJoin(Lines(t), [NEWLINE]);
    NoReturnJoin(Header(prefix), Lines(t) + [NEWLINE]);
  }

  lemma {:induction false} EmitHasNoReturn(t: Table, prefix: Path)
    requires IsWritable(t) && IsBarePath(prefix)
    ensures RETURN !in Emit(t, prefix)
    decreases t, 1
  {
    SectionHasNoReturn(t, prefix);
    EmitSubsHaveNoReturn(t, prefix);
    NoReturnJoin(Section(t, prefix), EmitSubs(t, prefix));
  }

  lemma {:induction false} EmitSubsHaveNoReturn(t: Table, prefix: Path)
    requires IsWritable(t) && IsBarePath(prefix)
    ensures RETURN !in EmitSubs(t, prefix)
    decreases t, 0
  {
    if t.Entry? {
      EmitSubsHaveNoReturn(t.rest, prefix);
      if t.value.Sub? {
        EmitHasNoReturn(t.value.table, prefix + [t.key]);
        NoReturnJoin(Emit(t.value.table, prefix + [t.key]), EmitSubs(t.rest, prefix));
      }
    }
  }

  lemma {:induction false} CommentHasNoReturn(lines: seq<Bytes>)
    requires forall l | l in lines :: IsCommentLine(l)
    ensures RETURN !in Comment(lines)
  {
    if lines != [] {
      assert lines[0] in lines && forall l | l in lines[1..] :: l in lines;
      CommentHasNoReturn(lines[1..]);
      NoReturnJoin([NEWLINE], Comment(lines[1..]));
      NoReturnJoin(lines[0], [NEWLINE] + Comment(lines[1..]));
      NoReturnJoin([HASH], lines[0] + ([NEWLINE] + Comment(lines[1..])));
    }
  }

  // ---------------------------------------------------------------- the build

  lemma {:induction false} StrippedIsWritable(t: Table)
    requires IsWritable(t)
    ensures IsWritable(Stripped(t))
  {
    if t.Entry? {
      StrippedIsWritable(t.rest);
      if t.value.Sub? { StrippedIsWritable(t.value.table); }
    }
  }

  lemma FullLoads(comment: seq<Bytes>, t: Table)
    requires IsDict(t) && IsFull(t) && IsWritable(t) && forall l | l in comment :: IsCommentLine(l)
    ensures Load(FileText(comment, t)) == Some(Canon(t))
  {
    CommentHasNoReturn(comment);
    EmitHasNoReturn(t, []);
    NoReturnJoin(Comment(comment), Emit(t, []));
    UncrlfIsId(FileText(comment, t));
    CommentRead(comment, Emit(t, []));
    EmitRead(t, [], [], []);
    assert Emit(t, []) + [] == Emit(t, []) && Items(t, []) + [] == Items(t, []);
    ItemsOpenOnce(t, []);
    BuildsCanon(t);
  }

  /** Loading the written file gives the table, scalars first and without the sub-tables that hold no scalar. */
  lemma WrittenLoads(comment: seq<Bytes>, t: Table)
    requires IsDict(t) && IsWritable(t) && forall l | l in comment :: IsCommentLine(l)
    ensures Load(FileText(comment, t)) == Some(Written(t))
  {
    StrippedShape(t);
    StrippedIsDict(t);
    StrippedIsWritable(t);
    EmitStripped(t, []);
    FullLoads(comment, Stripped(t));
  }

  /** So nothing but the order is lost exactly when no sub-table is empty. */
  lemma LoadsAllIffFull(comment: seq<Bytes>, t: Table)
    requires IsDict(t) && IsWritable(t) && forall l | l in comment :: IsCommentLine(l)
    ensures Load(FileText(comment, t)) == Some(Canon(t)) <==> IsFull(t)
  {
    WrittenLoads(comment, t);
    StrippedShape(t);
    CanonIsFull(Stripped(t));
    CanonIsFull(t);
  }

  /**
   After a build, loading the file gives at every path the private scalar, or else the public one unless private blocks
   it.
   */
  lemma BuildMeansMerge(comment: seq<Bytes>, public: Table, private: Table, path: Path)
    requires IsDict(public) && IsDict(private) && path != [] && (forall l | l in comment :: IsCommentLine(l))
    requires IsWritable(Merge(public, private))
    ensures var loaded := Load(FileText(comment, Merge(public, private)));
      && loaded.Some?
      && LeafAt(loaded.value, path)
         == if LeafAt(private, path).Some? then LeafAt(private, path)
            else if Blocks(private, path) then None
            else LeafAt(public, path)
  {
    MergeIsDict(public, private);
    WrittenLoads(comment, Merge(public, private));
    WrittenKeepsLeaves(Merge(public, private), path);
    PrivateWins(public, private, path);
  }

  // ---------------------------------------------------------------- the length of what is written

  /** How many bytes a value contributes to the text of its table. */
  ghost function Weight(v: Option<Value>, prefix: Path, k: Bytes): nat {
    if v.None? then 0
    else if v.value.Leaf? then |KeyLine(k, v.value.scalar)|
    else |Emit(v.value.table, prefix + [k])|
  }

  ghost function WeightSum(keys: seq<Bytes>, t: Table, prefix: Path): nat {
    if keys == [] then 0 else Weight(Get(t, keys[0]), prefix, keys[0]) + WeightSum(keys[1..], t, prefix)
  }

  function HeadWeight(t: Table, prefix: Path): nat {
    if Leaves(t).Nil? then 0 else |Header(prefix)| + 1
  }

  lemma {:induction false} WeightSumSame(keys: seq<Bytes>, s: Table, t: Table, prefix: Path)
    requires forall k | k in keys :: Get(s, k) == Get(t, k)
    ensures WeightSum(keys, s, prefix) == WeightSum(keys, t, prefix)
  {
    if keys != [] {
      assert keys[0] in keys && forall k | k in keys[1..] :: k in keys;
      WeightSumSame(keys[1..], s, t, prefix);
    }
  }

  lemma {:induction false} WeightSumJoin(a: seq<Bytes>, b: seq<Bytes>, t: Table, prefix: Path)
    ensures WeightSum(a + b, t, prefix) == WeightSum(a, t, prefix) + WeightSum(b, t, prefix)
  {
    if a == [] {
      assert a + b == b;
    } else {
      assert (a + b)[1..] == a[1..] + b;
      WeightSumJoin(a[1..], b, t, prefix);
    }
  }

  lemma {:induction false} PartsLength(t: Table, prefix: Path)
    requires IsDict(t)
    ensures |Lines(t)| + |EmitSubs(t, prefix)| == WeightSum(Keys(t), t, prefix)
  {
    if t.Entry? {
      PartsLength(t.rest, prefix);
      forall k | k in Keys(t.rest) ensures Get(t.rest, k) == Get(t, k) {}
      WeightSumSame(Keys(t.rest), t.rest, t, prefix);
      assert Keys(t)[1..] == Keys(t.rest);
    }
  }

  lemma EmitLength(t: Table, prefix: Path)
    requires IsDict(t)
    ensures |Emit(t, prefix)| == HeadWeight(t, prefix) + WeightSum(Keys(t), t, prefix)
  {
    PartsLength(t, prefix);
    if Leaves(t).Nil? { NoLines(t); }
  }

  lemma {:induction false} NoLines(t: Table)
    requires Leaves(t).Nil?
    ensures Lines(t) == []
  {
    if t.Entry? { NoLines(t.rest); }
  }

  /** Keys that are not written weigh nothing. */
  lemma {:induction false} WeightSumSelected(keys: seq<Bytes>, t: Table, prefix: Path)
    requires IsDict(t)
    ensures WeightSum(keys, t, prefix)
         == WeightSum(Select(keys, Stripped(t), true), t, prefix)
           + WeightSum(Select(keys, Stripped(t), false), t, prefix)
  {
    if keys != [] {
      var k := keys[0];
      WeightSumSelected(keys[1..], t, prefix);
      StrippedGets(t, k);
      if Get(t, k).Some? && Get(t, k).value.Sub? { EmitWritten(Get(t, k).value.table, prefix + [k]); }
      WeightSumStep(k, Select(keys[1..], Stripped(t), true), t, prefix);
      WeightSumStep(k, Select(keys[1..], Stripped(t), false), t, prefix);
    }
  }

  lemma WeightSumStep(k: Bytes, rest: seq<Bytes>, t: Table, prefix: Path)
    ensures WeightSum([k] + rest, t, prefix) == Weight(Get(t, k), prefix, k) + WeightSum(rest, t, prefix)
    ensures WeightSum([] + rest, t, prefix) == WeightSum(rest, t, prefix)
  {
    Head(k, rest);
    assert [] + rest == rest;
  }

  /** Sums of larger weights are larger, strictly if one of them is. */
  lemma {:induction false} WeightSumGrows(keys: seq<Bytes>, s: Table, t: Table, prefix: Path)
    requires forall k | k in keys :: Weight(Get(s, k), prefix, k) >= Weight(Get(t, k), prefix, k)
    ensures WeightSum(keys, s, prefix) >= WeightSum(keys, t, prefix)
    ensures (exists k :: k in keys && Weight(Get(s, k), prefix, k) > Weight(Get(t, k), prefix, k))
        ==> WeightSum(keys, s, prefix) > WeightSum(keys, t, prefix)
  {
    if keys != [] {
      assert keys[0] in keys && forall k | k in keys[1..] :: k in keys;
      assert forall k | k in keys :: k == keys[0] || k in keys[1..];
      WeightSumGrows(keys[1..], s, t, prefix);
    }
  }

  // ---------------------------------------------------------------- building again

  /** Under each key the second build writes no less than the first, and more where a public scalar was hidden. */
  lemma SecondWeight(p: Table, q: Table, k: Bytes, prefix: Path, path: Path)
    requires IsDict(p) && IsDict(q)
    ensures var r := Merge(p, q);
      var first, second := Weight(Get(r, k), prefix, k), Weight(Get(Merge(p, Written(r)), k), prefix, k);
      second >= first && (Hides(p, q, path) && path[0] == k ==> second > first)
    decreases p, 0
  {
    var b, r := Get(p, k), Get(Merge(p, q), k);
    SecondValue(p, q, k);
    MergeGets(p, q, k);
    if r.Some? && r.value.Sub? {
      if b.Some? && b.value.Sub? {
        GetHasKey(p, k);
        GetHasKey(q, k);
        SubIsSmaller(p, k);
        SecondIsLonger(SubOr(p, k), SubOr(q, k), prefix + [k], if path == [] then [] else path[1..]);
        HiddenBelow(p, q, k, path);
        SubWeight(p, q, k);
      } else {
        NewWeight(p, q, k, prefix, path);
      }
    }
  }

  /** The second value of a sub-table that is merged again. */
  lemma SubWeight(p: Table, q: Table, k: Bytes)
    requires IsDict(p) && IsDict(q) && Get(p, k).Some? && Get(p, k).value.Sub?
    requires Get(Merge(p, q), k).Some? && Get(Merge(p, q), k).value.Sub?
    ensures var u := Merge(SubOr(p, k), SubOr(q, k));
      && Get(Merge(p, q), k) == Some(Sub(u))
      && Get(Merge(p, Written(Merge(p, q))), k) == Some(Sub(Merge(SubOr(p, k), Written(u))))
  {
    SecondValue(p, q, k);
    MergeIsDict(p, q);
    GetHasKey(Merge(p, q), k);
    WrittenTwice(Get(Merge(p, q), k).value.table);
  }

  /** The second weight of one that is not: that of the scalar it hid, or of the sub-table as written. */
  lemma NewWeight(p: Table, q: Table, k: Bytes, prefix: Path, path: Path)
    requires IsDict(p) && IsDict(q) && !(Get(p, k).Some? && Get(p, k).value.Sub?)
    requires Get(Merge(p, q), k).Some? && Get(Merge(p, q), k).value.Sub?
    ensures var r := Merge(p, q);
      var first, second := Weight(Get(r, k), prefix, k), Weight(Get(Merge(p, Written(r)), k), prefix, k);
      second >= first && (Hides(p, q, path) && path[0] == k ==> second > first)
  {
    var u := Get(Merge(p, q), k).value.table;
    SecondValue(p, q, k);
    EmitWritten(u, prefix + [k]);
    if |path| == 1 { assert path[1..] == [] && TableAt(u, path[1..]) == Some(u); }
  }

  lemma HiddenBelow(p: Table, q: Table, k: Bytes, path: Path)
    requires Get(p, k).Some? && Get(p, k).value.Sub?
    ensures Hides(p, q, path) && path[0] == k ==> Hides(SubOr(p, k), SubOr(q, k), path[1..])
  {
    if |path| > 1 && path[0] == k {
      assert path == [k] + path[1..];
      HidesSteps(p, q, k, path[1..]);
    }
  }

  /** The second build writes no less than the first, and more if a public scalar was hidden. */
  lemma {:induction false} SecondIsLonger(p: Table, q: Table, prefix: Path, path: Path)
    requires IsDict(p) && IsDict(q)
    ensures var r := Merge(p, q);
      var first, second := Emit(r, prefix), Emit(Merge(p, Written(r)), prefix);
      |second| >= |first| && (Hides(p, q, path) ==> |second| > |first|)
    decreases p, 1
  {
    var r := Merge(p, q);
    var s := Merge(p, Written(r));
    MergeIsDict(p, q);
    WrittenKeys(r);
    MergeIsDict(p, Written(r));
    forall k: Bytes
      ensures Weight(Get(s, k), prefix, k) >= Weight(Get(r, k), prefix, k)
      ensures Hides(p, q, path) && path[0] == k ==> Weight(Get(s, k), prefix, k) > Weight(Get(r, k), prefix, k)
    {
      SecondWeight(p, q, k, prefix, path);
    }
    SecondSum(p, q, prefix);
    if path != [] { GetHasKey(p, path[0]); }
    WeightSumGrows(Keys(p), s, r, prefix);
    SecondHead(p, q, prefix);
    EmitLength(r, prefix);
    EmitLength(s, prefix);
  }

  /** Besides the public keys, the second build weighs no less. */
  lemma SecondSum(p: Table, q: Table, prefix: Path)
    requires IsDict(p) && IsDict(q)
    requires var r := Merge(p, q);
      forall k: Bytes :: Weight(Get(Merge(p, Written(r)), k), prefix, k) >= Weight(Get(r, k), prefix, k)
    ensures var r := Merge(p, q);
      var s := Merge(p, Written(r));
      WeightSum(Keys(s), s, prefix) - WeightSum(Keys(p), s, prefix)
        >= WeightSum(Keys(r), r, prefix) - WeightSum(Keys(p), r, prefix)
  {
    var r := Merge(p, q);
    var s := Merge(p, Written(r));
    var added := Minus(Keys(q), Keys(p));
    var a, b := Select(added, Stripped(r), true), Select(added, Stripped(r), false);
    MergeIsDict(p, q);
    WrittenKeys(r);
    SecondKeys(p, q, Stripped(r), Written(r));
    WeightSumJoin(Keys(p), added, r, prefix);
    WeightSumSelected(added, r, prefix);
    WeightSumJoin(Keys(p), a + b, s, prefix);
    WeightSumJoin(a, b, s, prefix);
    WeightSumGrows(a, s, r, prefix);
    WeightSumGrows(b, s, r, prefix);
  }

  /** If the first build writes a header, so does the second. */
  lemma SecondHead(p: Table, q: Table, prefix: Path)
    requires IsDict(p) && IsDict(q)
    ensures HeadWeight(Merge(p, Written(Merge(p, q))), prefix) >= HeadWeight(Merge(p, q), prefix)
  {
    var r := Merge(p, q);
    var s := Merge(p, Written(r));
    MergeIsDict(p, q);
    WrittenKeys(r);
    MergeIsDict(p, Written(r));
    if Leaves(r).Entry? {
      var k := Leaves(r).key;
      GetParts(r, k);
      SecondValue(p, q, k);
      GetParts(s, k);
    }
  }

  /**
   Building again, from the same public file and the file just written, writes the same text exactly when no private
   table without scalars stands where the public file has a scalar.
   */
  lemma SecondBuildWritesTheSame(comment: seq<Bytes>, public: Table, private: Table)
    requires IsDict(public) && IsDict(private) && (forall l | l in comment :: IsCommentLine(l))
    requires IsWritable(Merge(public, private))
    ensures var text := FileText(comment, Merge(public, private));
      && Load(text).Some?
      && (FileText(comment, Merge(public, Load(text).value)) == text <==> HidesNothing(public, private))
  {
    var r := Merge(public, private);
    var s := Merge(public, Written(r));
    MergeIsDict(public, private);
    WrittenLoads(comment, r);
    if HidesNothing(public, private) {
      WriteAgain(public, private);
      EmitWritten(s, []);
      EmitWritten(r, []);
    } else {
      var path :| Hides(public, private, path);
      SecondIsLonger(public, private, [], path);
    }
  }

  /** The smallest case: an empty private table is not written, so it hides a public scalar in the first build only. */
  lemma EmptyTableIsForgotten(key: Bytes, v: Scalar)
    requires IsBare(key) && IsPrintableScalar(v)
    ensures var public, private := Entry(key, Leaf(v), Nil), Entry(key, Sub(Nil), Nil);
      var text := FileText([], Merge(public, private));
      Load(text) == Some(Nil) && FileText([], Merge(public, Nil)) != text
  {
    var public, private := Entry(key, Leaf(v), Nil), Entry(key, Sub(Nil), Nil);
    assert Combined(Some(Leaf(v)), Sub(Nil)) == Sub(Nil);
    assert Get(public, key) == Some(Leaf(v)) && Put(public, key, Sub(Nil)) == Entry(key, Sub(Nil), Nil);
    assert Merge(public, private) == Merge(Put(public, key, Sub(Nil)), Nil) == Entry(key, Sub(Nil), Nil);
    assert IsScalarFree(Merge(public, private));
    StrippedShape(Merge(public, private));
    assert [key][1..] == [] && TableAt(Nil, []) == Some(Nil);
    assert Hides(public, private, [key]);
    WrittenLoads([], Merge(public, private));
    SecondBuildWritesTheSame([], public, private);
  }
}
