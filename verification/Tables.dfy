/**
 Configuration tables and their merge (the Python part of scripts/build.sh): ordered
 dictionaries of scalars and sub-tables, where the private file wins.
 */
module Tables {
  import opened Bytes
  import opened Wrappers

  /** Floats are kept as the text Python prints for them. */
  datatype Scalar = Str(s: Bytes) | Int(n: int) | Bool(b: bool) | Float(text: Bytes)

  datatype Value = Leaf(scalar: Scalar) | Sub(table: Table)

  /** A Python dict: keys in the order in which they were first set. */
  datatype Table = Nil | Entry(key: Bytes, value: Value, rest: Table)

  // ---------------------------------------------------------------- dictionaries

  function Keys(t: Table): seq<Bytes> {
    match t
    case Nil => []
    case Entry(k, _, rest) => [k] + Keys(rest)
  }

  function Get(t: Table, key: Bytes): Option<Value> {
    match t
    case Nil => None
    case Entry(k, v, rest) => if k == key then Some(v) else Get(rest, key)
  }

  /** Assignment keeps the place of a key that is there and adds a new one at the end. */
  function Put(t: Table, key: Bytes, value: Value): Table {
    match t
    case Nil => Entry(key, value, Nil)
    case Entry(k, v, rest) => if k == key then Entry(k, value, rest) else Entry(k, v, Put(rest, key, value))
  }

  /** No key twice, at any level. */
  predicate IsDict(t: Table) {
    match t
    case Nil => true
    case Entry(k, v, rest) => k !in Keys(rest) && IsDict(rest) && (v.Sub? ==> IsDict(v.table))
  }

  lemma {:induction false} GetHasKey(t: Table, key: Bytes)
    ensures Get(t, key).Some? <==> key in Keys(t)
    ensures IsDict(t) && Get(t, key).Some? && Get(t, key).value.Sub? ==> IsDict(Get(t, key).value.table)
  {
    if t.Entry? { GetHasKey(t.rest, key); }
  }

  lemma {:induction false} GetPut(t: Table, key: Bytes, value: Value, other: Bytes)
    ensures Get(Put(t, key, value), other) == if other == key then Some(value) else Get(t, other)
  {
    if t.Entry? { GetPut(t.rest, key, value, other); }
  }

  lemma {:induction false} PutKeys(t: Table, key: Bytes, value: Value)
    ensures Keys(Put(t, key, value)) == if key in Keys(t) then Keys(t) else Keys(t) + [key]
    ensures IsDict(t) && (value.Sub? ==> IsDict(value.table)) ==> IsDict(Put(t, key, value))
  {
    if t.Entry? { PutKeys(t.rest, key, value); }
  }

  /** Same keys in the same order with the same values: the same dictionary. */
  lemma {:induction false} SameTable(a: Table, b: Table)
    requires IsDict(a) && IsDict(b) && Keys(a) == Keys(b) && forall k | k in Keys(a) :: Get(a, k) == Get(b, k)
    ensures a == b
  {
    if a.Entry? {
      assert Keys(a)[1..] == Keys(a.rest) && Keys(b)[1..] == Keys(b.rest);
      assert a.key == Keys(a)[0] == b.key && a.key in Keys(a);
      forall k | k in Keys(a.rest) ensures Get(a.rest, k) == Get(b.rest, k) {
        assert k in Keys(a);
        assert Get(a, k) == Get(a.rest, k) && Get(b, k) == Get(b.rest, k);
      }
      SameTable(a.rest, b.rest);
    }
  }

  // ---------------------------------------------------------------- merge

  /** What merge assigns for one entry of the overriding table. */
  function Combined(was: Option<Value>, value: Value): Value
    decreases value, 1
  {
    if was.Some? && was.value.Sub? && value.Sub? then Sub(Merge(was.value.table, value.table)) else value
  }

  function Merge(base: Table, over: Table): Table
    decreases over, 0
  {
    match over
    case Nil => base
    case Entry(k, v, rest) => Merge(Put(base, k, Combined(Get(base, k), v)), rest)
  }

  /** merge: the loop fills a copy of the base. */
  method MergeTables(base: Table, over: Table) returns (out: Table)
    ensures out == Merge(base, over)
    decreases over
  {
    out := base;
    var left := over;
    while left.Entry?
      invariant Merge(out, left) == Merge(base, over)
      invariant left.Entry? ==> left == over || left < over
      decreases left
    {
      var was := Get(out, left.key);
      if was.Some? && was.value.Sub? && left.value.Sub? {
        var both := MergeTables(was.value.table, left.value.table);
        out := Put(out, left.key, Sub(both));
      } else {
        out := Put(out, left.key, left.value);
      }
      left := left.rest;
    }
  }

  lemma {:induction false} MergeGets(base: Table, over: Table, key: Bytes)
    requires IsDict(over)
    ensures Get(Merge(base, over), key)
         == if Get(over, key).None? then Get(base, key) else Some(Combined(Get(base, key), Get(over, key).value))
    decreases over
  {
    if over.Entry? {
      var v := Combined(Get(base, over.key), over.value);
      MergeGets(Put(base, over.key, v), over.rest, key);
      GetPut(base, over.key, v, key);
      GetHasKey(over.rest, over.key);
    }
  }

  /** The elements of a that are not in b, in order. */
  function Minus(a: seq<Bytes>, b: seq<Bytes>): seq<Bytes> {
    if a == [] then [] else (if a[0] in b then [] else [a[0]]) + Minus(a[1..], b)
  }

  lemma {:induction false} MinusNew(a: seq<Bytes>, b: seq<Bytes>, k: Bytes)
    requires k !in a
    ensures Minus(a, b + [k]) == Minus(a, b)
  {
    if a != [] { MinusNew(a[1..], b, k); }
  }

  lemma {:induction false} MergeKeys(base: Table, over: Table)
    requires IsDict(over)
    ensures Keys(Merge(base, over)) == Keys(base) + Minus(Keys(over), Keys(base))
    decreases over
  {
    if over.Entry? {
      var v := Combined(Get(base, over.key), over.value);
      var next := Put(base, over.key, v);
      MergeKeys(next, over.rest);
      PutKeys(base, over.key, v);
      assert Keys(over)[1..] == Keys(over.rest);
      if over.key !in Keys(base) { MinusNew(Keys(over.rest), Keys(base), over.key); }
    }
  }

  lemma {:induction false} MergeIsDict(base: Table, over: Table)
    requires IsDict(base) && IsDict(over)
    ensures IsDict(Merge(base, over))
    decreases over
  {
    if over.Entry? {
      var was := Get(base, over.key);
      GetHasKey(base, over.key);
      if was.Some? && was.value.Sub? && over.value.Sub? { MergeIsDict(was.value.table, over.value.table); }
      PutKeys(base, over.key, Combined(was, over.value));
      MergeIsDict(Put(base, over.key, Combined(was, over.value)), over.rest);
    }
  }

  // ---------------------------------------------------------------- which value wins

  /** The scalar under a path of keys. */
  function LeafAt(t: Table, path: seq<Bytes>): Option<Scalar>
    requires path != []
    decreases |path|
  {
    var v := Get(t, path[0]);
    if v.None? then None
    else if v.value.Leaf? then if |path| == 1 then Some(v.value.scalar) else None
    else if |path| == 1 then None
    else LeafAt(v.value.table, path[1..])
  }

  /** The table holds something else in the place of the path: a scalar on the way or a table at its end. */
  predicate Blocks(t: Table, path: seq<Bytes>)
    requires path != []
    decreases |path|
  {
    var v := Get(t, path[0]);
    v.Some? &&
    if v.value.Leaf? then |path| > 1
    else |path| == 1 || Blocks(v.value.table, path[1..])
  }

  /**
   At every path the private scalar wins; without one the public scalar stays, unless the private file has something
   else there.
   */
  lemma {:induction false} PrivateWins(base: Table, over: Table, path: seq<Bytes>)
    requires path != [] && IsDict(over)
    ensures LeafAt(Merge(base, over), path)
         == if LeafAt(over, path).Some? then LeafAt(over, path)
            else if Blocks(over, path) then None
            else LeafAt(base, path)
    decreases |path|
  {
    var b, o := Get(base, path[0]), Get(over, path[0]);
    MergeGets(base, over, path[0]);
    GetHasKey(over, path[0]);
    if b.Some? && o.Some? && b.value.Sub? && o.value.Sub? && |path| > 1 {
      PrivateWins(b.value.table, o.value.table, path[1..]);
    } else if o.Some? && o.value.Sub? && |path| > 1 {
      assert LeafAt(base, path).None?;
    }
  }

  // ---------------------------------------------------------------- the order of the written file

  function Append(a: Table, b: Table): Table {
    match a
    case Nil => b
    case Entry(k, v, rest) => Entry(k, v, Append(rest, b))
  }

  /** The scalar entries, in order. */
  function Leaves(t: Table): Table {
    match t
    case Nil => Nil
    case Entry(k, v, rest) => if v.Leaf? then Entry(k, v, Leaves(rest)) else Leaves(rest)
  }

  /** The sub-tables, in order, each in the order of the written file. */
  function CanonSubs(t: Table): Table
    decreases t, 0
  {
    match t
    case Nil => Nil
    case Entry(k, v, rest) => if v.Sub? then Entry(k, Sub(Canon(v.table)), CanonSubs(rest)) else CanonSubs(rest)
  }

  /** Scalars before sub-tables, at every level. */
  function Canon(t: Table): Table
    decreases t, 1
  {
    Append(Leaves(t), CanonSubs(t))
  }

  function CanonValue(v: Value): Value {
    if v.Sub? then Sub(Canon(v.table)) else v
  }

  /** The keys whose value in t is, or is not, a scalar. */
  function Select(keys: seq<Bytes>, t: Table, leaf: bool): seq<Bytes> {
    if keys == [] then []
    else
      var v := Get(t, keys[0]);
      (if v.Some? && v.value.Leaf? == leaf then [keys[0]] else []) + Select(keys[1..], t, leaf)
  }

  lemma {:induction false} SelectJoin(a: seq<Bytes>, b: seq<Bytes>, t: Table, leaf: bool)
    ensures Select(a + b, t, leaf) == Select(a, t, leaf) + Select(b, t, leaf)
  {
    if a == [] {
      assert a + b == b;
    } else {
      Append3([a[0]], a[1..], b);
      assert a == [a[0]] + a[1..];
      SelectJoin(a[1..], b, t, leaf);
      SelectSteps(a[0], a[1..] + b, t, leaf);
    }
  }

  /** Both absent, both scalars or both tables. */
  predicate SameKind(v: Option<Value>, w: Option<Value>) {
    v.Some? == w.Some? && (v.Some? ==> v.value.Leaf? == w.value.Leaf?)
  }

  /** Selection depends only on which kind the values are. */
  lemma {:induction false} SelectSame(keys: seq<Bytes>, s: Table, t: Table, leaf: bool)
    requires forall k | k in keys :: SameKind(Get(s, k), Get(t, k))
    ensures Select(keys, s, leaf) == Select(keys, t, leaf)
  {
    if keys != [] {
      assert keys[0] in keys && forall k | k in keys[1..] :: k in keys;
      SelectSame(keys[1..], s, t, leaf);
    }
  }

  lemma {:induction false} SelectTwice(keys: seq<Bytes>, t: Table, leaf: bool)
    ensures Select(Select(keys, t, leaf), t, leaf) == Select(keys, t, leaf)
    ensures Select(Select(keys, t, leaf), t, !leaf) == []
  {
    if keys != [] {
      SelectTwice(keys[1..], t, leaf);
      var v := Get(t, keys[0]);
      if v.Some? && v.value.Leaf? == leaf {
        assert ([keys[0]] + Select(keys[1..], t, leaf))[1..] == Select(keys[1..], t, leaf);
      } else {
        assert Select(keys, t, leaf) == Select(keys[1..], t, leaf);
      }
    }
  }

  lemma MinusSteps(k: Bytes, rest: seq<Bytes>, b: seq<Bytes>)
    ensures Minus([k] + rest, b) == (if k in b then [] else [k]) + Minus(rest, b)
    ensures Minus([] + rest, b) == Minus(rest, b)
  {
    Head(k, rest);
    assert [] + rest == rest;
  }

  lemma SelectSteps(k: Bytes, rest: seq<Bytes>, t: Table, leaf: bool)
    ensures Select([k] + rest, t, leaf)
         == (if Get(t, k).Some? && Get(t, k).value.Leaf? == leaf then [k] else []) + Select(rest, t, leaf)
    ensures Select([] + rest, t, leaf) == Select(rest, t, leaf)
  {
    Head(k, rest);
    assert [] + rest == rest;
  }

  lemma {:induction false} SelectMinus(keys: seq<Bytes>, t: Table, leaf: bool, b: seq<Bytes>)
    ensures Minus(Select(keys, t, leaf), b) == Select(Minus(keys, b), t, leaf)
  {
    if keys != [] {
      SelectMinus(keys[1..], t, leaf, b);
      MinusSteps(keys[0], Select(keys[1..], t, leaf), b);
      SelectSteps(keys[0], Minus(keys[1..], b), t, leaf);
    }
  }

  /** The keys of Leaves and CanonSubs are the selected keys. */
  lemma {:induction false} SelectedKeys(t: Table)
    requires IsDict(t)
    ensures Keys(Leaves(t)) == Select(Keys(t), t, true) && Keys(CanonSubs(t)) == Select(Keys(t), t, false)
  {
    if t.Entry? {
      SelectedKeys(t.rest);
      forall k | k in Keys(t.rest) ensures Get(t.rest, k).Some? && Get(t, k) == Get(t.rest, k) { GetHasKey(t.rest, k); }
      SelectSame(Keys(t.rest), t.rest, t, true);
      SelectSame(Keys(t.rest), t.rest, t, false);
      assert Keys(t)[1..] == Keys(t.rest);
    }
  }

  lemma {:induction false} GetAppend(a: Table, b: Table, k: Bytes)
    ensures Get(Append(a, b), k) == if Get(a, k).Some? then Get(a, k) else Get(b, k)
    ensures Keys(Append(a, b)) == Keys(a) + Keys(b)
  {
    if a.Entry? { GetAppend(a.rest, b, k); }
  }

  lemma {:induction false} GetParts(t: Table, k: Bytes)
    requires IsDict(t)
    ensures Get(Leaves(t), k) == if Get(t, k).Some? && Get(t, k).value.Leaf? then Get(t, k) else None
    ensures Get(CanonSubs(t), k)
         == if Get(t, k).Some? && Get(t, k).value.Sub? then Some(CanonValue(Get(t, k).value)) else None
  {
    if t.Entry? {
      GetParts(t.rest, k);
      GetHasKey(t.rest, k);
    }
  }

  /** The written order holds the same keys with the same values. */
  lemma CanonGets(t: Table, k: Bytes)
    requires IsDict(t)
    ensures Get(Canon(t), k) == if Get(t, k).None? then None else Some(CanonValue(Get(t, k).value))
    ensures Keys(Canon(t)) == Select(Keys(t), t, true) + Select(Keys(t), t, false)
  {
    GetAppend(Leaves(t), CanonSubs(t), k);
    GetParts(t, k);
    SelectedKeys(t);
  }

  lemma {:induction false} PartsAreDicts(t: Table)
    requires IsDict(t)
    ensures IsDict(Leaves(t)) && IsDict(CanonSubs(t))
    decreases t, 0
  {
    if t.Entry? {
      PartsAreDicts(t.rest);
      if t.value.Sub? { CanonIsDict(t.value.table); }
      GetParts(t.rest, t.key);
      GetHasKey(t.rest, t.key);
      GetHasKey(Leaves(t.rest), t.key);
      GetHasKey(CanonSubs(t.rest), t.key);
    }
  }

  lemma {:induction false} AppendIsDict(a: Table, b: Table)
    requires IsDict(a) && IsDict(b) && forall k | k in Keys(a) :: k !in Keys(b)
    ensures IsDict(Append(a, b))
  {
    if a.Entry? {
      assert forall k | k in Keys(a.rest) :: k in Keys(a);
      AppendIsDict(a.rest, b);
      GetAppend(a.rest, b, a.key);
      assert a.key in Keys(a);
    }
  }

  lemma CanonIsDict(t: Table)
    requires IsDict(t)
    ensures IsDict(Canon(t))
    decreases t, 1
  {
    PartsAreDicts(t);
    forall k | k in Keys(Leaves(t)) ensures k !in Keys(CanonSubs(t)) {
      GetParts(t, k);
      GetHasKey(Leaves(t), k);
      GetHasKey(CanonSubs(t), k);
    }
    AppendIsDict(Leaves(t), CanonSubs(t));
  }

  /** Same selected keys and same written values: the same written table. */
  lemma SameCanon(s: Table, t: Table)
    requires IsDict(s) && IsDict(t)
    requires Select(Keys(s), s, true) == Select(Keys(t), t, true)
    requires Select(Keys(s), s, false) == Select(Keys(t), t, false)
    requires forall k | k in Keys(s) || k in Keys(t) ::
               Get(s, k).Some? && Get(t, k).Some? && CanonValue(Get(s, k).value) == CanonValue(Get(t, k).value)
    ensures Canon(s) == Canon(t)
  {
    CanonIsDict(s);
    CanonIsDict(t);
    CanonGets(s, []);
    CanonGets(t, []);
    forall k | k in Keys(Canon(s)) ensures Get(Canon(s), k) == Get(Canon(t), k) {
      CanonGets(s, k);
      CanonGets(t, k);
      GetHasKey(Canon(s), k);
      GetHasKey(s, k);
      GetHasKey(t, k);
    }
    SameTable(Canon(s), Canon(t));
  }

  lemma {:induction false} SubIsSmaller(t: Table, k: Bytes)
    requires Get(t, k).Some? && Get(t, k).value.Sub?
    ensures Get(t, k).value.table < t
  {
    if t.key != k { SubIsSmaller(t.rest, k); }
  }

  /**
   If every key of t keeps its kind in s, and s has the keys of a list that selects like those of t, both select alike.
   */
  lemma SelectsAlike(s: Table, t: Table)
    requires Keys(s) == Select(Keys(t), t, true) + Select(Keys(t), t, false)
    requires forall k | k in Keys(s) :: Get(s, k).Some? && SameKind(Get(s, k), Get(t, k))
    ensures Select(Keys(s), s, true) == Select(Keys(t), t, true)
    ensures Select(Keys(s), s, false) == Select(Keys(t), t, false)
  {
    var a, b := Select(Keys(t), t, true), Select(Keys(t), t, false);
    SelectSame(Keys(s), s, t, true);
    SelectSame(Keys(s), s, t, false);
    SelectJoin(a, b, t, true);
    SelectJoin(a, b, t, false);
    SelectTwice(Keys(t), t, true);
    SelectTwice(Keys(t), t, false);
    assert a + [] == a && [] + b == b;
  }

  /** Writing what was written changes nothing. */
  lemma {:induction false} CanonTwice(t: Table)
    requires IsDict(t)
    ensures Canon(Canon(t)) == Canon(t)
    decreases t
  {
    var s := Canon(t);
    CanonIsDict(t);
    CanonGets(t, []);
    forall k | k in Keys(s) || k in Keys(t)
      ensures Get(s, k).Some? && Get(t, k).Some? && Get(s, k).value.Leaf? == Get(t, k).value.Leaf?
      ensures CanonValue(Get(s, k).value) == CanonValue(Get(t, k).value)
    {
      CanonGets(t, k);
      GetHasKey(s, k);
      GetHasKey(t, k);
      if Get(t, k).value.Sub? {
        SubIsSmaller(t, k);
        CanonTwice(Get(t, k).value.table);
      }
    }
    SelectsAlike(s, t);
    SameCanon(s, t);
  }

  // ---------------------------------------------------------------- merging again

  function SubOr(t: Table, k: Bytes): Table {
    if Get(t, k).Some? && Get(t, k).value.Sub? then Get(t, k).value.table else Nil
  }

  /** Where the value of a merged table under a key comes from. */
  lemma MergedValue(p: Table, q: Table, k: Bytes)
    requires IsDict(p) && IsDict(q)
    ensures var b, r := Get(p, k), Get(Merge(p, q), k);
      && (r.None? ==> b.None?)
      && (r.Some? && r.value.Sub? && b.Some? && b.value.Sub? ==> r.value.table == Merge(SubOr(p, k), SubOr(q, k)))
      && (r.Some? && r.value.Sub? && !(b.Some? && b.value.Sub?) ==> Get(q, k) == r)
  {
    MergeGets(p, q, k);
  }

  /**
   The keys of a second merge with what was loaded of the first: the public ones, then the loaded new ones, scalars
   first.
   */
  lemma SecondKeys(p: Table, q: Table, kinds: Table, loaded: Table)
    requires IsDict(p) && IsDict(q) && IsDict(loaded)
    requires Keys(loaded) == Select(Keys(Merge(p, q)), kinds, true) + Select(Keys(Merge(p, q)), kinds, false)
    ensures var added := Minus(Keys(q), Keys(p));
      && Keys(Merge(p, q)) == Keys(p) + added
      && Keys(Merge(p, loaded)) == Keys(p) + (Select(added, kinds, true) + Select(added, kinds, false))
  {
    var added := Minus(Keys(q), Keys(p));
    MergeKeys(p, q);
    MergeKeys(p, loaded);
    MinusJoin(Select(Keys(Merge(p, q)), kinds, true), Select(Keys(Merge(p, q)), kinds, false), Keys(p));
    MinusDisjoint(Keys(q), Keys(p));
    NewSelected(Keys(p), added, kinds, true);
    NewSelected(Keys(p), added, kinds, false);
  }

  /** If both merges hold the same kinds of values, they select the same keys in the same order. */
  lemma SecondSelects(p: Table, q: Table, kinds: Table, loaded: Table, now: Table, leaf: bool)
    requires IsDict(p) && IsDict(q) && IsDict(loaded)
    requires Keys(loaded) == Select(Keys(Merge(p, q)), kinds, true) + Select(Keys(Merge(p, q)), kinds, false)
    requires forall k: Bytes :: SameKind(Get(now, k), Get(kinds, k))
    ensures Select(Keys(Merge(p, loaded)), now, leaf) == Select(Keys(Merge(p, q)), kinds, leaf)
  {
    var added := Minus(Keys(q), Keys(p));
    var a, b := Select(added, kinds, true), Select(added, kinds, false);
    SecondKeys(p, q, kinds, loaded);
    SelectSame(Keys(Merge(p, loaded)), now, kinds, leaf);
    SelectJoin(Keys(p), a + b, kinds, leaf);
    SelectJoin(a, b, kinds, leaf);
    SelectTwice(added, kinds, true);
    SelectTwice(added, kinds, false);
    SelectJoin(Keys(p), added, kinds, leaf);
    assert a + [] == a && [] + b == b;
  }

  lemma {:induction false} MinusJoin(a: seq<Bytes>, b: seq<Bytes>, c: seq<Bytes>)
    ensures Minus(a + b, c) == Minus(a, c) + Minus(b, c)
  {
    if a == [] {
      assert a + b == b;
    } else {
      assert (a + b)[1..] == a[1..] + b;
      MinusJoin(a[1..], b, c);
    }
  }

  lemma {:induction false} MinusOwn(a: seq<Bytes>, b: seq<Bytes>)
    requires forall k | k in a :: k in b
    ensures Minus(a, b) == []
  {
    if a != [] {
      assert a[0] in a && forall k | k in a[1..] :: k in a;
      MinusOwn(a[1..], b);
    }
  }

  lemma {:induction false} MinusDisjoint(a: seq<Bytes>, b: seq<Bytes>)
    ensures Minus(Minus(a, b), b) == Minus(a, b)
  {
    if a != [] {
      MinusDisjoint(a[1..], b);
      if a[0] !in b { assert ([a[0]] + Minus(a[1..], b))[1..] == Minus(a[1..], b); }
      else { assert Minus(a, b) == Minus(a[1..], b); }
    }
  }

  lemma NewSelected(keys: seq<Bytes>, added: seq<Bytes>, t: Table, leaf: bool)
    requires Minus(added, keys) == added
    ensures Minus(Select(keys + added, t, leaf), keys) == Select(added, t, leaf)
  {
    SelectMinus(keys + added, t, leaf, keys);
    MinusJoin(keys, added, keys);
    MinusOwn(keys, keys);
    assert [] + added == added;
  }

  /** Merging the public table with the first merge, scalars first, gives that merge again. */
  lemma {:induction false} MergeAgain(p: Table, q: Table)
    requires IsDict(p) && IsDict(q)
    ensures Canon(Merge(p, Canon(Merge(p, q)))) == Canon(Merge(p, q))
    decreases p
  {
    var r := Merge(p, q);
    var s := Merge(p, Canon(r));
    MergeIsDict(p, q);
    CanonIsDict(r);
    CanonGets(r, []);
    MergeIsDict(p, Canon(r));
    forall k: Bytes
      ensures SameKind(Get(s, k), Get(r, k)) && (k in Keys(s) || k in Keys(r) ==> Get(s, k).Some? && Get(r, k).Some?)
      ensures Get(s, k).Some? && Get(r, k).Some? ==> CanonValue(Get(s, k).value) == CanonValue(Get(r, k).value)
    {
      GetHasKey(s, k);
      GetHasKey(r, k);
      GetHasKey(p, k);
      GetHasKey(q, k);
      CanonGets(r, k);
      MergeGets(p, Canon(r), k);
      MergedValue(p, q, k);
      if Get(r, k).Some? && Get(r, k).value.Sub? {
        CanonTwice(Get(r, k).value.table);
        if Get(p, k).Some? && Get(p, k).value.Sub? {
          SubIsSmaller(p, k);
          MergeAgain(SubOr(p, k), SubOr(q, k));
        }
      }
    }
    SecondSelects(p, q, r, Canon(r), s, true);
    SecondSelects(p, q, r, Canon(r), s, false);
    SameCanon(s, r);
  }

  // ---------------------------------------------------------------- what is written at all

  /** No scalar at any level. */
  predicate IsScalarFree(t: Table) {
    match t
    case Nil => true
    case Entry(_, v, rest) => v.Sub? && IsScalarFree(v.table) && IsScalarFree(rest)
  }

  /** No sub-table is empty, at any level. */
  predicate IsFull(t: Table) {
    match t
    case Nil => true
    case Entry(_, v, rest) => IsFull(rest) && (v.Sub? ==> v.table.Entry? && IsFull(v.table))
  }

  /** Without the sub-tables that hold no scalar. */
  function Stripped(t: Table): Table {
    match t
    case Nil => Nil
    case Entry(k, v, rest) =>
      if v.Leaf? then Entry(k, v, Stripped(rest))
      else if IsScalarFree(v.table) then Stripped(rest)
      else Entry(k, Sub(Stripped(v.table)), Stripped(rest))
  }

  lemma {:induction false} StrippedShape(t: Table)
    ensures Stripped(t).Nil? <==> IsScalarFree(t)
    ensures IsFull(Stripped(t)) && (IsFull(t) ==> Stripped(t) == t)
    ensures IsFull(t) && t.Entry? ==> !IsScalarFree(t)
  {
    if t.Entry? {
      StrippedShape(t.rest);
      if t.value.Sub? { StrippedShape(t.value.table); }
    }
  }

  function StrippedValue(v: Option<Value>): Option<Value> {
    if v.None? || v.value.Leaf? then v
    else if IsScalarFree(v.value.table) then None
    else Some(Sub(Stripped(v.value.table)))
  }

  lemma {:induction false} StrippedGets(t: Table, k: Bytes)
    requires IsDict(t)
    ensures Get(Stripped(t), k) == StrippedValue(Get(t, k))
  {
    if t.Entry? {
      StrippedGets(t.rest, k);
      GetHasKey(t.rest, k);
    }
  }

  lemma {:induction false} StrippedIsDict(t: Table)
    requires IsDict(t)
    ensures IsDict(Stripped(t))
  {
    if t.Entry? {
      StrippedIsDict(t.rest);
      if t.value.Sub? { StrippedIsDict(t.value.table); }
      StrippedGets(t.rest, t.key);
      GetHasKey(t.rest, t.key);
      GetHasKey(Stripped(t.rest), t.key);
    }
  }

  /** Selecting by what is left after stripping, from all keys or from those left. */
  lemma {:induction false} SelectStripped(t: Table, s: Table, leaf: bool)
    requires IsDict(t) && forall k | k in Keys(t) :: Get(s, k) == StrippedValue(Get(t, k))
    ensures Select(Keys(t), s, leaf) == Select(Keys(Stripped(t)), s, leaf)
  {
    if t.Entry? {
      forall k | k in Keys(t.rest) ensures Get(s, k) == StrippedValue(Get(t.rest, k)) {
        assert k in Keys(t) && Get(t, k) == Get(t.rest, k);
      }
      SelectStripped(t.rest, s, leaf);
      assert t.key in Keys(t);
      SelectSteps(t.key, Keys(t.rest), s, leaf);
      SelectSteps(t.key, Keys(Stripped(t.rest)), s, leaf);
    }
  }

  /** What the file holds of a table: nothing without scalars, and scalars before sub-tables. */
  function Written(t: Table): Table {
    Canon(Stripped(t))
  }

  function WrittenValue(v: Option<Value>): Option<Value> {
    if v.None? || v.value.Leaf? then v
    else if IsScalarFree(v.value.table) then None
    else Some(Sub(Written(v.value.table)))
  }

  lemma WrittenGets(t: Table, k: Bytes)
    requires IsDict(t)
    ensures Get(Written(t), k) == WrittenValue(Get(t, k))
  {
    StrippedIsDict(t);
    StrippedGets(t, k);
    CanonGets(Stripped(t), k);
  }

  lemma WrittenKeys(t: Table)
    requires IsDict(t)
    ensures IsDict(Written(t))
    ensures Keys(Written(t)) == Select(Keys(t), Stripped(t), true) + Select(Keys(t), Stripped(t), false)
  {
    StrippedIsDict(t);
    CanonIsDict(Stripped(t));
    CanonGets(Stripped(t), []);
    forall k | k in Keys(t) ensures Get(Stripped(t), k) == StrippedValue(Get(t, k)) { StrippedGets(t, k); }
    SelectStripped(t, Stripped(t), true);
    SelectStripped(t, Stripped(t), false);
  }

  lemma SameWritten(s: Table, t: Table)
    requires IsDict(s) && IsDict(t)
    requires Select(Keys(s), Stripped(s), true) == Select(Keys(t), Stripped(t), true)
    requires Select(Keys(s), Stripped(s), false) == Select(Keys(t), Stripped(t), false)
    requires forall k: Bytes :: WrittenValue(Get(s, k)) == WrittenValue(Get(t, k))
    ensures Written(s) == Written(t)
  {
    WrittenKeys(s);
    WrittenKeys(t);
    forall k | k in Keys(Written(s)) ensures Get(Written(s), k) == Get(Written(t), k) {
      WrittenGets(s, k);
      WrittenGets(t, k);
    }
    SameTable(Written(s), Written(t));
  }

  lemma {:induction false} CanonIsFull(t: Table)
    ensures IsFull(Canon(t)) <==> IsFull(t)
    ensures Canon(t).Nil? <==> t.Nil?
    decreases t, 1
  {
    PartsAreFull(t);
    AppendIsFull(Leaves(t), CanonSubs(t));
  }

  lemma {:induction false} AppendIsFull(a: Table, b: Table)
    ensures IsFull(Append(a, b)) <==> IsFull(a) && IsFull(b)
    ensures Append(a, b).Nil? <==> a.Nil? && b.Nil?
  {
    if a.Entry? { AppendIsFull(a.rest, b); }
  }

  lemma {:induction false} PartsAreFull(t: Table)
    ensures IsFull(Leaves(t)) && (IsFull(CanonSubs(t)) <==> IsFull(t))
    ensures Leaves(t).Nil? && CanonSubs(t).Nil? <==> t.Nil?
    decreases t, 0
  {
    if t.Entry? {
      PartsAreFull(t.rest);
      if t.value.Sub? { CanonIsFull(t.value.table); }
    }
  }

  lemma WrittenTwice(t: Table)
    requires IsDict(t)
    ensures Written(Written(t)) == Written(t)
    ensures IsFull(Written(t)) && (Written(t).Nil? <==> IsScalarFree(t))
    ensures Written(t).Entry? ==> !IsScalarFree(Written(t))
  {
    StrippedShape(t);
    CanonIsFull(Stripped(t));
    StrippedShape(Written(t));
    StrippedIsDict(t);
    CanonTwice(Stripped(t));
  }

  // ---------------------------------------------------------------- building again

  /** The table under a path of keys. */
  function TableAt(t: Table, path: seq<Bytes>): Option<Table>
    decreases |path|
  {
    if path == [] then Some(t)
    else
      var v := Get(t, path[0]);
      if v.None? || v.value.Leaf? then None else TableAt(v.value.table, path[1..])
  }

  /** The private file has a table without scalars where the public file has a scalar. */
  predicate Hides(public: Table, private: Table, path: seq<Bytes>) {
    && path != [] && LeafAt(public, path).Some?
    && TableAt(private, path).Some? && IsScalarFree(TableAt(private, path).value)
  }

  ghost predicate HidesNothing(public: Table, private: Table) {
    forall path :: !Hides(public, private, path)
  }

  lemma HidesSteps(p: Table, q: Table, k: Bytes, path: seq<Bytes>)
    requires Get(p, k).Some? && Get(p, k).value.Sub? && path != []
    ensures Hides(p, q, [k] + path) <==> Hides(SubOr(p, k), SubOr(q, k), path)
  {
    Head(k, path);
  }

  lemma HidesNothingBelow(p: Table, q: Table, k: Bytes)
    requires Get(p, k).Some? && Get(p, k).value.Sub? && HidesNothing(p, q)
    ensures HidesNothing(SubOr(p, k), SubOr(q, k))
  {
    forall path | path != [] ensures !Hides(SubOr(p, k), SubOr(q, k), path) { HidesSteps(p, q, k, path); }
  }

  /** What both builds hold under a key, the second one merging with what the first one wrote. */
  lemma SecondValue(p: Table, q: Table, k: Bytes)
    requires IsDict(p) && IsDict(q)
    ensures var b, r := Get(p, k), Get(Merge(p, q), k);
      var w := WrittenValue(r);
      && Get(Merge(p, Written(Merge(p, q))), k) == (if w.None? then b else Some(Combined(b, w.value)))
      && (r.None? ==> b.None?)
      && (r.Some? && r.value.Sub? && b.Some? && b.value.Sub? ==> r.value.table == Merge(SubOr(p, k), SubOr(q, k)))
      && (r.Some? && r.value.Sub? && !(b.Some? && b.value.Sub?) ==> Get(q, k) == r)
  {
    MergeIsDict(p, q);
    WrittenKeys(Merge(p, q));
    WrittenGets(Merge(p, q), k);
    MergeGets(p, Written(Merge(p, q)), k);
    MergedValue(p, q, k);
  }

  /** Where nothing is hidden, the second build writes under each key what the first one wrote. */
  lemma SecondWrites(p: Table, q: Table, k: Bytes)
    requires IsDict(p) && IsDict(q) && HidesNothing(p, q)
    ensures WrittenValue(Get(Merge(p, Written(Merge(p, q))), k)) == WrittenValue(Get(Merge(p, q), k))
    decreases p, 0
  {
    var b, r := Get(p, k), Get(Merge(p, q), k);
    SecondValue(p, q, k);
    if r.Some? && r.value.Sub? {
      var u := r.value.table;
      MergeIsDict(p, q);
      GetHasKey(Merge(p, q), k);
      GetHasKey(p, k);
      GetHasKey(q, k);
      WrittenTwice(u);
      if b.Some? && b.value.Sub? {
        SubIsSmaller(p, k);
        HidesNothingBelow(p, q, k);
        WriteAgain(SubOr(p, k), SubOr(q, k));
        SecondSub(SubOr(p, k), SubOr(q, k));
      } else if IsScalarFree(u) {
        assert [k][1..] == [] && TableAt(u, []) == Some(u);
        assert !Hides(p, q, [k]);
      }
    }
  }

  /** The second value of a sub-table, when its own builds agree. */
  lemma SecondSub(a: Table, c: Table)
    requires IsDict(a) && IsDict(c) && Written(Merge(a, Written(Merge(a, c)))) == Written(Merge(a, c))
    ensures var u := Merge(a, c);
      if IsScalarFree(u) then IsScalarFree(a)
      else WrittenValue(Some(Sub(Merge(a, Written(u))))) == Some(Sub(Written(u)))
  {
    MergeIsDict(a, c);
    var u := Merge(a, c);
    WrittenTwice(u);
    WrittenKeys(u);
    MergeIsDict(a, Written(u));
    WrittenTwice(Merge(a, Written(u)));
  }

  /** Merging the public table with what the first build wrote writes the same again, where nothing is hidden. */
  lemma {:induction false} WriteAgain(p: Table, q: Table)
    requires IsDict(p) && IsDict(q) && HidesNothing(p, q)
    ensures Written(Merge(p, Written(Merge(p, q)))) == Written(Merge(p, q))
    decreases p, 1
  {
    var r := Merge(p, q);
    var s := Merge(p, Written(r));
    MergeIsDict(p, q);
    WrittenKeys(r);
    MergeIsDict(p, Written(r));
    forall k: Bytes
      ensures WrittenValue(Get(s, k)) == WrittenValue(Get(r, k)) && SameKind(Get(Stripped(s), k), Get(Stripped(r), k))
    {
      SecondWrites(p, q, k);
      StrippedGets(s, k);
      StrippedGets(r, k);
    }
    SecondSelects(p, q, Stripped(r), Written(r), Stripped(s), true);
    SecondSelects(p, q, Stripped(r), Written(r), Stripped(s), false);
    SameWritten(s, r);
  }

  /** Writing keeps every scalar under its path. */
  lemma {:induction false} WrittenKeepsLeaves(t: Table, path: seq<Bytes>)
    requires IsDict(t) && path != []
    ensures LeafAt(Written(t), path) == LeafAt(t, path)
    decreases |path|
  {
    var v := Get(t, path[0]);
    WrittenGets(t, path[0]);
    GetHasKey(t, path[0]);
    if v.Some? && v.value.Sub? && |path| > 1 {
      if IsScalarFree(v.value.table) {
        NoLeaves(v.value.table, path[1..]);
      } else {
        WrittenKeepsLeaves(v.value.table, path[1..]);
      }
    }
  }

  lemma {:induction false} NoLeaves(t: Table, path: seq<Bytes>)
    requires IsScalarFree(t) && path != []
    ensures LeafAt(t, path).None?
    decreases |path|
  {
    GetScalarFree(t, path[0]);
    if Get(t, path[0]).Some? && |path| > 1 { NoLeaves(Get(t, path[0]).value.table, path[1..]); }
  }

  lemma {:induction false} GetScalarFree(t: Table, k: Bytes)
    requires IsScalarFree(t)
    ensures Get(t, k).Some? ==> Get(t, k).value.Sub? && IsScalarFree(Get(t, k).value.table)
  {
    if t.Entry? { GetScalarFree(t.rest, k); }
  }
}
