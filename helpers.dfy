/** The remote trivia service's response codes and the client's spacing constant. */
module Helpers {
  import opened Wrappers

  /** Minimum spacing, in milliseconds, between rate-limited calls (the configuration default). */
  const API_HUG_MS: int := 5000

  /** The six documented outcomes of a call to the remote trivia service. */
  datatype ResultMeaning = Success | NoResults | InvalidParameter | TokenNotFound | TokenEmpty | RateLimit

  /** The description the service documents for each outcome. */
  function MeaningText(m: ResultMeaning): string {
    match m
    case Success => "Success - Returned results successfully."
    case NoResults => "No Results - Could not return results. The API doesn't have enough questions for your query. (Ex. Asking for 50 Questions in a Category that only has 20.)"
    case InvalidParameter => "Invalid Parameter - Contains an invalid parameter. Arguments passed in aren't valid. (Ex. Amount = Five)"
    case TokenNotFound => "Token Not Found - Session Token does not exist."
    case TokenEmpty => "Token Empty - Session Token has returned all possible questions for the specified query. Resetting the Token is necessary."
    case RateLimit => "Rate Limit - Too many requests have occurred. Each IP can only access the API once every 5 seconds."
  }

  /** `api_result_codes`: the response codes the table has an entry for, exactly 0 through 5,
      and their meanings. */
  function ApiResultCodes(): (codes: map<int, ResultMeaning>)
    ensures forall c :: c in codes <==> 0 <= c <= 5
  {
    map[0 := Success, 1 := NoResults, 2 := InvalidParameter, 3 := TokenNotFound, 4 := TokenEmpty, 5 := RateLimit]
  }

  /** No two codes of the table share a meaning. */
  lemma ResultMeaningsDistinct(c: int, d: int)
    requires c in ApiResultCodes() && d in ApiResultCodes() && ApiResultCodes()[c] == ApiResultCodes()[d]
    ensures c == d
  {
  }

  /** `api_result_codes.get(code)`: the description of a code, or `undefined` (None) when the
      table has no entry for it, which includes a response that carries no code at all. */
  function Describe(code: Option<int>): (d: Option<string>)
    ensures d.Some? <==> code.Some? && 0 <= code.value <= 5
    ensures d.Some? ==> d.value == MeaningText(ApiResultCodes()[code.value])
  {
    if code.Some? && code.value in ApiResultCodes() then Some(MeaningText(ApiResultCodes()[code.value])) else None
  }

  /** A code outside 0..5 has no description. */
  lemma UnknownCodeUndescribed(code: int)
    requires code < 0 || 5 < code
    ensures Describe(Some(code)) == None
  {
  }

  /** Code 0 is the only entry that means success, which matches a validator that accepts
      exactly the responses whose code is 0. */
  lemma OnlyZeroMeansSuccess(code: int)
    requires code in ApiResultCodes()
    ensures ApiResultCodes()[code] == Success <==> code == 0
  {
  }

  /** Code 4 says the session token is exhausted and must be reset; code 5 is the rate limit. */
  lemma TokenEmptyAndRateLimitCodes()
    ensures ApiResultCodes()[4] == TokenEmpty
    ensures ApiResultCodes()[5] == RateLimit
  {
  }
}
