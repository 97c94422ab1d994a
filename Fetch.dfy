/** What both sides read off a `fetch` response. */
module Fetch {
  /** `response.ok`: a status in the 2xx range. */
  predicate IsOk(status: int) {
    200 <= status <= 299
  }
}
