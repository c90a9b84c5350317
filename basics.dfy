/** Result carriers for the solver's error conditions. The Python source raises
    exceptions; here each raising path returns a failure value instead. */
module Basics {

  datatype Option<T> = None | Some(value: T)

  /** Every way the solver can stop with an exception. */
  datatype Error =
    | AlreadyUsedAgent   // add_assignment of an agent already on the path
    | AgentNotAvailable  // add_assignment of an agent outside 0..n-1 (list.remove fails)
    | ZeroPathCost       // calculate_cost divides 1 by a zero cost
    | EmptyMatrix        // fit allocates a tensor of shape (-1, 0, 0)
    | NoBestAnt          // fit with no epoch reports the cost of no ant

  datatype Outcome = Pass | Fail(error: Error)

  datatype Result<T> = Success(value: T) | Failure(error: Error)
}
