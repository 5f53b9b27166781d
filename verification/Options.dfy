/** The absent-or-present result that stands for the sources' null values and thrown errors, and
  * a result in parts: what a loop has produced so far in front of what is still to come. */
module Options {
  datatype Option<+T> = None | Some(value: T)

  function Onward<T>(front: seq<T>, rest: Option<seq<T>>): Option<seq<T>> {
    match rest case None => None case Some(s) => Some(front + s)
  }

  lemma OnwardFrom<T>(front: seq<T>, more: seq<T>, rest: Option<seq<T>>)
    ensures Onward(front, Onward(more, rest)) == Onward(front + more, rest)
    ensures Onward([], rest) == rest
  {
    if rest.Some? {
      assert front + (more + rest.value) == front + more + rest.value;
      assert [] + rest.value == rest.value;
    }
  }
}
