/** Small result types used across the model. */
module Outcomes {

  datatype Option<+T> = None | Some(value: T)

  /** The outcome of running a piece of the original code that may not
      finish: it either returns a value, is still recursing when its depth
      budget (`fuel`) runs out, or reaches undefined behaviour (an iterator
      stepped past the end, a null pointer dereferenced). */
  datatype Run<+T> = Returns(value: T) | OutOfFuel | Undefined

  /** Runs two computations that append to one output vector, in order:
      the first failure wins, otherwise the outputs are concatenated. */
  function Then<T>(a: Run<seq<T>>, b: Run<seq<T>>): (r: Run<seq<T>>)
    ensures r.Returns? <==> a.Returns? && b.Returns?
    ensures r.Returns? ==> r.value == a.value + b.value
    ensures !a.Returns? ==> r == a
  {
    if !a.Returns? then a
    else if !b.Returns? then b
    else Returns(a.value + b.value)
  }

  /** Sequencing is associative, so a left-nested chain of `Then` is one
      run of all the pieces appending to the same vector, in order. */
  lemma ThenAssociative<T>(a: Run<seq<T>>, b: Run<seq<T>>, c: Run<seq<T>>)
    ensures Then(Then(a, b), c) == Then(a, Then(b, c))
  {
    if a.Returns? && b.Returns? && c.Returns? {
      assert (a.value + b.value) + c.value == a.value + (b.value + c.value);
    }
  }
}
