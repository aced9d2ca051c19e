/** Optional values and the failure outcomes that stand for Python exceptions. */
module Outcomes {

  datatype Option<+T> = None | Some(value: T)

  /** The exceptions the synchronisation code raises, catches or lets through. */
  datatype Exception =
    | ValueError                 // int() of a non-number, or `get_vcs_client` with an unknown VCS type
    | GitCommandError            // a git command (clone, pull, log) failed
    | RemoteError                // any other failure of a VCS back end or its library
    | MultipleObjectsReturned    // an ORM `get` matched more than one row
    | UnboundLocalError          // a local variable read before assignment
    | ImportError                // the library a VCS back end wraps is not installed

  /** A computation that either returns a value or raises. */
  datatype Result<+T> = Ok(value: T) | Err(error: Exception)

  /** The value of a result, or the empty list when it raised (`except: return []`). */
  function OrEmpty<T>(r: Result<seq<T>>): seq<T>
  {
    match r
    case Ok(v) => v
    case Err(_) => []
  }
}
