/** The optional value used wherever the scraper either produces something or
    gives up: a club whose page could not be scraped, a URL too short to name a
    league, a run that stops before writing its output. */
module Wrappers {

  datatype Option<+T> = None | Some(value: T) {

    /** Returns the value held in Some, or `default` when None. */
    function GetOr(default: T): T {
      match this
      case Some(v) => v
      case None => default
    }
  }
}
