/** How a run of the filter ends. The program reports its verdict only
    through its exit status; every `os.Exit` call becomes an `Exit` value. */
module Outcomes {

  /** the message is accepted; also used for every internal error */
  const ExitCodeOk := 1
  /** declared by the program but never used */
  const ExitCodeErr := 2
  /** the message's date is too far in the future */
  const ExitCodeSpam := 0

  /** status with which the Go runtime ends a process after an unrecovered panic */
  const PanicStatus := 2

  datatype Outcome =
    | Exit(code: int)  // `os.Exit(code)`
    | Return           // `main` returns normally
    | Panic            // a runtime panic (a slice index out of range)

  /** The process exit status each outcome produces. */
  function ExitStatus(o: Outcome): (status: int)
    ensures o.Exit? ==> status == o.code
    ensures o.Return? ==> status == 0
    ensures o.Panic? ==> status == PanicStatus
  {
    match o
    case Exit(code) => code
    case Return => 0
    case Panic => PanicStatus
  }
}
