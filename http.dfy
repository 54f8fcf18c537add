/** What the two search clients share about the `requests` library. */
module Http {

  /** Why a search failed: a RequestException (transport or HTTP status) or a ValueError (the body). */
  datatype SourceError = RequestError | ParseError

  /** `raise_for_status` raises for a 4xx or 5xx status. */
  predicate ErrorStatus(status: int) {
    400 <= status < 600
  }
}
