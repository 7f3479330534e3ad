/** Outcomes of the report pipeline. Every Java exception that can abort a run
    of either App is one constructor of Error; an operation that can throw
    returns a Result instead. */
module Failures {

  /** The exceptions that abort a run, in the system's own terms. */
  datatype Error =
    | MissingTable   // Elements.get(k) on a page with too few <table> elements
    | MissingCell    // Elements.get(y) on a <tr> with too few <td> cells
    | ArrayOverrun   // ArrayIndexOutOfBoundsException on a grid or buffer index
    | NullCell       // NullPointerException: a grid cell that was never filled
    | BadYear        // NumberFormatException from Integer.parseInt on a year header
    | BadMonth       // DateTimeParseException on a month label
    | BadRate        // NumberFormatException from Double.parseDouble on a rate

  datatype Result<+T> = Ok(value: T) | Err(error: Error)

  datatype Option<+T> = None | Some(value: T) {
    function GetOr(default: T): T {
      match this
      case Some(v) => v
      case None => default
    }
  }
}
