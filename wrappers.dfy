/** Option, Result and the Python exceptions that escape the scrapers. */
module Wrappers {

  datatype Option<+T> = None | Some(value: T) {
    function GetOr(default: T): T {
      match this
      case Some(v) => v
      case None => default
    }
  }

  /** The exceptions a scraper lets propagate (they end the run). */
  datatype Error =
    | KeyError(key: string)          // csv.DictReader row without the requested column
    | ValueError                     // tuple unpacking of a split with the wrong number of parts, or a date parse
    | IndexError                     // positional access past the end of a list
    | AttributeError                 // an element BeautifulSoup did not find
    | FileNotFound(path: string)
    | RequestError                   // requests.RequestException

  datatype Result<+R> = Success(value: R) | Failure(error: Error)

  /** Pass, or the exception that stopped the run. */
  datatype Outcome = Pass | Fail(error: Error)
}
