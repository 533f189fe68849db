/** The optional value used throughout the model, and choice from a set. */
module Wrappers {
  datatype Option<+T> = None | Some(value: T)

  /** Some element of a nonempty set. */
  ghost function Pick<T>(s: set<T>): (x: T)
    requires s != {}
    ensures x in s
  {
    var x :| x in s; x
  }

  lemma HasElement<T>(s: set<T>)
    requires s != {}
    ensures exists x :: x in s
  {}
}
