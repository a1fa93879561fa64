/** Option and outcome types shared by the other modules. */
module Wrappers {

  datatype Option<+T> = None | Some(value: T)

  datatype Result<+T, +E> = Ok(value: T) | Err(error: E)

  /** Why an operation of the solver stopped: each case is an exception of the original program. */
  datatype Failure =
    | InvalidMove   // the "invalid move" assertion: the blank is not next to the cell to slide
    | Unreachable   // a routing destination has no distance label (min over None labels)
    | NotFound      // list.index of a value that is not on the board
    | Impossible    // the 2x2 base case ends with a grid that differs from the target
    | BadSetup      // a constructor assertion: the dimensions, a length or the target's last cell

  datatype Outcome = Done | Fail(why: Failure)
}
