/** Names shared by several modules. */
module Ids {

  type WorkerId = nat

  // The dispatcher makes a new one for every task it sends.
  type AssignmentId = nat

  type RunId = nat

  type Time = int
}
