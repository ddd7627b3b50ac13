/** Value wrappers shared by the model, and the Python exceptions the modelled
    code can raise. */
module Common {

  datatype Option<+T> = None | Some(value: T)

  /** The exceptions that the modelled statements of confuse.py can raise,
      plus the process exit that `sys.exit` performs. */
  datatype PyError =
    | ValueError             // str.index / list.remove found nothing
    | IndexError             // random.choice on an empty list
    | TypeError              // re.findall given a file object instead of text
    | SystemExit(status: int)

  /** Either the value a Python expression evaluates to, or the exception it raises. */
  datatype Result<+T> = Ok(value: T) | Err(error: PyError)
}
