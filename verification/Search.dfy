/** std::string::find. */
module Search {
  import opened Wrappers

  predicate OccursAt<T(==)>(hay: seq<T>, pat: seq<T>, i: nat) {
    i + |pat| <= |hay| && hay[i..i + |pat|] == pat
  }

  /** find succeeds from the start. */
  predicate Contains<T(==)>(hay: seq<T>, pat: seq<T>) {
    exists i: nat :: i <= |hay| && OccursAt(hay, pat, i)
  }

  /** The first occurrence at or after pos. */
  method Find<T(==)>(hay: seq<T>, pat: seq<T>, pos: nat) returns (at: Option<nat>)
    ensures at.None? ==> forall i: nat | pos <= i :: !OccursAt(hay, pat, i)
    ensures at.Some? ==> pos <= at.value && OccursAt(hay, pat, at.value)
    ensures at.Some? ==> forall i: nat | pos <= i < at.value :: !OccursAt(hay, pat, i)
  {
    var i := pos;
    while i + |pat| <= |hay|
      invariant pos <= i
      invariant forall j: nat | pos <= j < i :: !OccursAt(hay, pat, j)
    {
      if hay[i..i + |pat|] == pat {
        return Some(i);
      }
      i := i + 1;
    }
    return None;
  }
}
