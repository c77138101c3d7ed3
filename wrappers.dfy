/** Option values and the outcomes of protocol steps that can raise in the source. */
module Wrappers {

  datatype Option<+T> = None | Some(value: T)

  /** Why a protocol step did not complete. Each case stands for one exception of the source. */
  datatype Fault =
    | NoSuccessor       // IndexError: successors[0] of an empty list
    | DeadLoop          // the dead-node skip ran out of hops; the source would keep walking
    | RecursionLimit    // a recursive lookup ran out of hops; the source's stack would overflow
    | NoLiveSuccessors  // mejordefirst.py: find raises "No live successors"
    | NodeDead          // chorddht.py: any attribute access on a killed node raises
    | BadType           // TypeError: calling or comparing the None a killed node answers with
    | NodeFailure       // uncontrolled.py: the handler for an undefined method raises NodeFailure
    | NotTracked        // KeyError: del of a peer absent from last_seen or failure_counter
    | NoPredecessor     // AttributeError: reading .id of a predecessor that is None
    | NotInList         // ValueError: list.remove of an element that is not in the list
    | UndefinedName     // NameError: a name the source never defines, or a local never bound

  /** The result of a step that either returns a value or raises. */
  datatype Outcome<+T> = Ok(value: T) | Fail(fault: Fault)
}
