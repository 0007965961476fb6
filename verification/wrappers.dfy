/** Option and Result datatypes, and the errors the plugin's extraction can report. */
module Wrappers {

  datatype Option<+T> = None | Some(value: T)

  /** The errors of the extraction: the page is not HTML at all, or a matched
      counter text is not a number. MalformedNumber carries the text that was
      handed to the number parser, as Go's strconv.NumError does in its Num field. */
  datatype Error = UnparsableDocument | MalformedNumber(num: string)

  datatype Result<+T> = Success(value: T) | Failure(error: Error)
}
