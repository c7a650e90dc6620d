/** Option and Result, and the failures the reader can raise. */
module Wrappers {

  datatype Option<+T> = None | Some(value: T)

  datatype Result<+R, +E> = Ok(value: R) | Err(error: E) {
    predicate IsFailure() { Err? }

    function PropagateFailure<U>(): Result<U, E>
      requires Err?
    {
      Err(error)
    }

    function Extract(): R
      requires Ok?
    {
      value
    }
  }

  /** The exceptions the source lets escape from a parse, by cause. */
  datatype Error =
    | MissingFile(name: string)       // IOError: the input file does not exist
    | MalformedXml(name: string)      // ParseError: the input file is not well-formed XML
    | MissingElement(tag: string)     // AttributeError: a required sub-element was not found
    | NotANumber(text: Option<string>) // ValueError/TypeError raised by float()
    | IndexOutOfRange                 // IndexError: a matrix cell outside the grid
    | MissingMetricId                 // TypeError: `':' in None` on a Metric without MetricID
    | UndefinedMetric                 // KeyError: a component names a MetricID no MetricComponent defines

  type Outcome<R> = Result<R, Error>
}
