/** Failure-compatible result types shared by the models of the Forest library. */
module Wrappers {

  /** A value that may be absent; `None` stands for a C# `null` reference argument. */
  datatype Option<+T> = None | Some(value: T)

  /** The exceptions the modelled C# members throw on purpose. */
  datatype Exception =
    | ArgumentNull          // System.ArgumentNullException
    | Argument              // System.ArgumentException
    | ArgumentOutOfRange    // System.ArgumentOutOfRangeException
    | InvalidOperation      // System.InvalidOperationException
    | KeyNotFound           // System.Collections.Generic.KeyNotFoundException

  /** The outcome of a call that either returns a value or throws. */
  datatype Result<+R> = Success(value: R) | Failure(error: Exception)
}
