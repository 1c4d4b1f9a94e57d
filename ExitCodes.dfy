/** The closed set of outcomes of a crr run: the process exit status. */
module ExitCodes {

  /** One constructor per member of the EXITCODE enumeration, in declaration order. */
  datatype ExitCode =
    | Success
    | CantRead
    | CantWrite
    | CantCreateDir
    | NoSource
    | InvalidDest
    | NotDir
    | NotFile
    | TooLongPath
    | InvalidName
    | InvalidChar

  /** The numeric status the process exits with. The source tests results with
      `if (ret)`, so only Success may be zero. */
  function Value(c: ExitCode): (n: int)
    ensures 0 <= n <= 10
    ensures n == 0 <==> c == Success
  {
    match c
    case Success => 0
    case CantRead => 1
    case CantWrite => 2
    case CantCreateDir => 3
    case NoSource => 4
    case InvalidDest => 5
    case NotDir => 6
    case NotFile => 7
    case TooLongPath => 8
    case InvalidName => 9
    case InvalidChar => 10
  }

  /** Distinct outcomes exit with distinct statuses. */
  lemma ValueInjective(c: ExitCode, d: ExitCode)
    ensures Value(c) == Value(d) ==> c == d
  {
  }
}
