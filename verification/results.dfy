/** Failure-carrying values shared by every module: `Option` for absent values
    and `Result` for operations that panic in the Rust code or raise in the
    benchmark script. */
module Results {

  datatype Option<+T> = None | Some(value: T)

  /** `Err` stands for a panic (Rust) or an uncaught exception (Python);
      `msg` names the failing check. */
  datatype Result<+T> = Ok(value: T) | Err(msg: string) {
    predicate IsFailure() { Err? }

    function PropagateFailure<U>(): Result<U>
      requires Err?
    {
      Err(msg)
    }

    function Extract(): T
      requires Ok?
    {
      value
    }
  }

  function Need(condition: bool, msg: string): (r: Result<()>)
  {
    if condition then Ok(()) else Err(msg)
  }
}
