/**
 * What the polling loop does with one poll result: succeed, sleep and poll
 * again, poll again at once, or stop with a failure.
 */
module Dispatch {
  import opened Responses

  /** Why a run stopped without a token. */
  datatype Failure =
    | TokenExpired(description: string)         // `expired_token`
    | GrantTypeUnsupported(description: string) // `unsupported_grant_type`
    | CredentialsIncorrect(description: string) // `incorrect_client_credentials`
    | Denied                                    // `access_denied`
    | NeitherTokenNorError                      // a response with both fields empty
    | UnexpectedStatus(status: int)             // a reply other than 200
    | NilResponse                               // no response: the loop dereferences nil

  /** How a run ends. */
  datatype Outcome =
    | Succeeded(token: AccessTokenResponse)
    | Failed(failure: Failure)
    | TimedOut

  /** What the loop does after one poll. */
  datatype Action =
    | Finish(outcome: Outcome)
    | SleepThenPoll(seconds: int)
    | PollNow
  {
    /** The loop goes on to its next expiration check. */
    predicate Continues() {
      !Finish?
    }
  }

  /** The codes after which the loop sleeps and polls again. */
  const RetryCodes: set<string> := {AuthorizationPending, SlowDown}

  /**
   * The codes that end the run. Three of them do so only when `debug` is
   * set, because the exit is inside the `if debug` guard.
   */
  function FatalCodes(debug: bool): (codes: set<string>)
    ensures AccessDenied in codes
    ensures ExpiredToken in codes <==> debug
    ensures UnsupportedGrantType in codes <==> debug
    ensures IncorrectClientCredentials in codes <==> debug
    ensures codes <= {ExpiredToken, UnsupportedGrantType, IncorrectClientCredentials, AccessDenied}
    ensures codes !! RetryCodes
  {
    if debug then {ExpiredToken, UnsupportedGrantType, IncorrectClientCredentials, AccessDenied}
    else {AccessDenied}
  }

  /**
   * Classifies one decoded response. A non-empty access token wins over any
   * error; with no token, the error code decides, and an empty or
   * unrecognised code is handled as the `switch` with no `default` does.
   * `deviceInterval` is the interval of the device authorization response.
   */
  function Classify(resp: AccessTokenResponse, deviceInterval: int, debug: bool): (r: Action)
    ensures r.Finish? && r.outcome.Succeeded? <==> resp.accessToken != ""
    ensures r.Finish? && r.outcome.Succeeded? ==> r.outcome.token == resp
    ensures r.Finish? ==> !r.outcome.TimedOut?
    ensures r.SleepThenPoll? <==> resp.accessToken == "" && resp.error in RetryCodes
    ensures r.SleepThenPoll? && resp.error == AuthorizationPending ==> r.seconds == deviceInterval
    ensures r.SleepThenPoll? && resp.error == SlowDown ==> r.seconds == resp.interval
    ensures r.PollNow? <==>
              resp.accessToken == "" && resp.error != "" && resp.error !in RetryCodes + FatalCodes(debug)
    ensures r.Finish? && r.outcome.Failed? <==>
              resp.accessToken == "" && (resp.error == "" || resp.error in FatalCodes(debug))
    ensures r == Finish(Failed(NeitherTokenNorError)) <==> resp.accessToken == "" && resp.error == ""
    ensures r == Finish(Failed(Denied)) <==> resp.accessToken == "" && resp.error == AccessDenied
    ensures r.Finish? && r.outcome.Failed? && resp.error == ExpiredToken ==>
              r.outcome.failure == TokenExpired(resp.errorDescription)
    ensures r.Finish? && r.outcome.Failed? && resp.error == UnsupportedGrantType ==>
              r.outcome.failure == GrantTypeUnsupported(resp.errorDescription)
    ensures r.Finish? && r.outcome.Failed? && resp.error == IncorrectClientCredentials ==>
              r.outcome.failure == CredentialsIncorrect(resp.errorDescription)
  {
    if resp.accessToken != "" then
      Finish(Succeeded(resp))
    else if resp.error != "" then
      if resp.error == AuthorizationPending then
        SleepThenPoll(deviceInterval)
      else if resp.error == SlowDown then
        SleepThenPoll(resp.interval)
      else if resp.error == ExpiredToken then
        if debug then Finish(Failed(TokenExpired(resp.errorDescription))) else PollNow
      else if resp.error == UnsupportedGrantType then
        if debug then Finish(Failed(GrantTypeUnsupported(resp.errorDescription))) else PollNow
      else if resp.error == IncorrectClientCredentials then
        if debug then Finish(Failed(CredentialsIncorrect(resp.errorDescription))) else PollNow
      else if resp.error == AccessDenied then
        Finish(Failed(Denied))
      else
        PollNow
    else
      Finish(Failed(NeitherTokenNorError))
  }

  /**
   * What the loop does with the value one poll returned: a decoded response
   * is classified; a missing response or an unexpected status ends the run,
   * so a failed poll is never retried.
   */
  function Step(result: PollResult, deviceInterval: int, debug: bool): (r: Action)
    ensures !result.Token? ==> r.Finish? && r.outcome.Failed?
    ensures result.Nil? ==> r.outcome.failure == NilResponse
    ensures result.BadStatus? ==> r.outcome.failure == UnexpectedStatus(result.status)
    ensures r.Finish? && r.outcome.Succeeded? <==> result.Token? && result.response.accessToken != ""
    ensures r.Finish? ==> !r.outcome.TimedOut?
  {
    match result
    case Token(resp) => Classify(resp, deviceInterval, debug)
    case Nil => Finish(Failed(NilResponse))
    case BadStatus(status) => Finish(Failed(UnexpectedStatus(status)))
  }
}
