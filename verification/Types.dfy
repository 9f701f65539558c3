/** Status codes and the option type shared by the whole model. */
module Types {
  datatype Option<+T> = None | Some(value: T)

  /** The codes of include/types/status.h, in the order of the C enumeration. */
  datatype Status =
    | ENone | ENullPtr | EOutOfBounds | EInvalidArg | ENoMem | ENotPresent
    | EDoesntExist | EExists | ENoSyscall | EPerm | EBusy | EExited
}
