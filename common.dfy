/** Small datatypes shared by the 0hh1 solver and the generic CP driver. */
module Common {

  /** The `state` field of a problem: starts `Unsolved`, set by the evaluator. */
  datatype State = Unsolved | Solved | Infeasible

  predicate Terminal(s: State) {
    s == Solved || s == Infeasible
  }

  datatype Option<T> = None | Some(value: T)
}
