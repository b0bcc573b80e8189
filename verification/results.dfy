/** The outcomes of the modem operations. Every Python exception the modelled
    code can raise (and not catch) becomes an `Err` carrying one of these. */
module Results {

  datatype Error =
    | PortNotOpen              // pyserial refuses to write to a closed port
    | NoResponse               // `response[-1]` on a response with no non-blank line
    | NoArguments              // `res[-1]` in va2str when no argument was rendered
    | MalformedLine(line: string)  // dict() given a line with no colon
    | MissingKey(key: string)      // a field absent from the info dictionary
    | InvalidLiteral(text: string) // int() given text that is not a decimal integer

  datatype Result<+T> = Ok(value: T) | Err(error: Error)
}
