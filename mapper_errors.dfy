/** The program's error enum and the result of an instruction. */
module MapperErrors {

  /** The custom errors, in declaration order. */
  datatype MyError =
    | HexMapped      // the resolution 9 cell is already marked in this bitmap
    | InvalidCell    // the text is not a valid H3 mode 1 cell index
    | IncorrectRes9  // the index is coarser than resolution 9

  /** What an instruction returns: `Ok(())` or one of the custom errors. */
  datatype Result = Ok | Err(error: MyError)

  /** Anchor numbers custom errors from 6000 upwards in declaration order. */
  function ErrorNumber(e: MyError): (n: nat)
    ensures 6000 <= n <= 6002
    ensures n == 6000 <==> e == HexMapped
    ensures n == 6001 <==> e == InvalidCell
    ensures n == 6002 <==> e == IncorrectRes9
  {
    match e
    case HexMapped => 6000
    case InvalidCell => 6001
    case IncorrectRes9 => 6002
  }
}
