/**
 * Concrete runs of the device flow: a device code valid for 900 seconds
 * with a 5-second interval, polled from start time 0.
 */
module Scenarios {
  import opened Responses
  import opened Dispatch
  import opened Polling

  const Device := DeviceCodeResponse("D1", "ABCD-1234", "https://github.com/login/device", 900, 5)

  /** The form body every poll of `Device` sends. */
  const Request := TokenRequest(ClientId, "D1")

  /** An error response, as the provider sends it, with the given `interval`. */
  function ErrorResponse(code: string, interval: int): AccessTokenResponse {
    AccessTokenResponse("", "", "", code, "", "", interval)
  }

  const GrantedResponse := AccessTokenResponse("gho_x", "bearer", "read:user", "", "", "", 0)

  /** A 200 reply carrying the given response. */
  function Ok(resp: AccessTokenResponse): Exchange {
    Replied(StatusOK, Decoded(resp))
  }

  /** One pending poll, then the token: two sleeps of 5 seconds, two polls, success. */
  lemma PendingThenTokenScenario()
    ensures DeviceFlow(Device, 0, [5, 10, 900], [Ok(ErrorResponse(AuthorizationPending, 0)), Ok(GrantedResponse)])
         == Trace(Succeeded(GrantedResponse),
                  [Slept(5), Polled(5, Request, Token(ErrorResponse(AuthorizationPending, 0))),
                   Slept(5), Polled(10, Request, Token(GrantedResponse))])
  {
    var pending := ErrorResponse(AuthorizationPending, 0);
    assert Step(Token(pending), 5, Debug) == SleepThenPoll(5);
    assert Loop(Device, 900, [10, 900], [Ok(GrantedResponse)])
        == Trace(Succeeded(GrantedResponse), [Polled(10, Request, Token(GrantedResponse))]);
    assert [5, 10, 900][1..] == [10, 900];
    assert [Ok(pending), Ok(GrantedResponse)][1..] == [Ok(GrantedResponse)];
  }

  /** `slow_down` with interval 10 sleeps 10 seconds once; `expired_token` then ends the run. */
  lemma SlowDownThenExpiredScenario()
    ensures DeviceFlow(Device, 0, [5, 15, 900], [Ok(ErrorResponse(SlowDown, 10)), Ok(ErrorResponse(ExpiredToken, 0))])
         == Trace(Failed(TokenExpired("")),
                  [Slept(5), Polled(5, Request, Token(ErrorResponse(SlowDown, 10))),
                   Slept(10), Polled(15, Request, Token(ErrorResponse(ExpiredToken, 0)))])
  {
    var slow, expired := ErrorResponse(SlowDown, 10), ErrorResponse(ExpiredToken, 0);
    assert Step(Token(slow), 5, Debug) == SleepThenPoll(10);
    assert Step(Token(expired), 5, Debug) == Finish(Failed(TokenExpired("")));
    assert Loop(Device, 900, [15, 900], [Ok(expired)])
        == Trace(Failed(TokenExpired("")), [Polled(15, Request, Token(expired))]);
    assert [5, 15, 900][1..] == [15, 900];
    assert [Ok(slow), Ok(expired)][1..] == [Ok(expired)];
  }

  /**
   * After `slow_down` with interval 10, a pending response sleeps the
   * original 5 seconds again: the device interval is never replaced.
   */
  lemma SlowDownThenPendingScenario()
    ensures DeviceFlow(Device, 0, [5, 15, 20, 900],
                       [Ok(ErrorResponse(SlowDown, 10)), Ok(ErrorResponse(AuthorizationPending, 0)), Ok(GrantedResponse)])
         == Trace(Succeeded(GrantedResponse),
                  [Slept(5), Polled(5, Request, Token(ErrorResponse(SlowDown, 10))),
                   Slept(10), Polled(15, Request, Token(ErrorResponse(AuthorizationPending, 0))),
                   Slept(5), Polled(20, Request, Token(GrantedResponse))])
  {
    var slow, pending := ErrorResponse(SlowDown, 10), ErrorResponse(AuthorizationPending, 0);
    assert Step(Token(slow), 5, Debug) == SleepThenPoll(10);
    assert Step(Token(pending), 5, Debug) == SleepThenPoll(5);
    assert Loop(Device, 900, [20, 900], [Ok(GrantedResponse)])
        == Trace(Succeeded(GrantedResponse), [Polled(20, Request, Token(GrantedResponse))]);
    assert [15, 20, 900][1..] == [20, 900];
    assert [Ok(pending), Ok(GrantedResponse)][1..] == [Ok(GrantedResponse)];
    assert Loop(Device, 900, [15, 20, 900], [Ok(pending), Ok(GrantedResponse)])
        == Trace(Succeeded(GrantedResponse),
                 [Polled(15, Request, Token(pending)), Slept(5), Polled(20, Request, Token(GrantedResponse))]);
    assert [5, 15, 20, 900][1..] == [15, 20, 900];
    assert [Ok(slow), Ok(pending), Ok(GrantedResponse)][1..] == [Ok(pending), Ok(GrantedResponse)];
  }

  /** An unrecognised error code is polled again at once, with no sleep and no failure. */
  lemma UnknownCodeScenario()
    ensures DeviceFlow(Device, 0, [5, 6, 900], [Ok(ErrorResponse("temporarily_unavailable", 0)), Ok(GrantedResponse)])
         == Trace(Succeeded(GrantedResponse),
                  [Slept(5), Polled(5, Request, Token(ErrorResponse("temporarily_unavailable", 0))),
                   Polled(6, Request, Token(GrantedResponse))])
  {
    var unknown := ErrorResponse("temporarily_unavailable", 0);
    assert Step(Token(unknown), 5, Debug) == PollNow;
    assert Loop(Device, 900, [6, 900], [Ok(GrantedResponse)])
        == Trace(Succeeded(GrantedResponse), [Polled(6, Request, Token(GrantedResponse))]);
    assert [5, 6, 900][1..] == [6, 900];
    assert [Ok(unknown), Ok(GrantedResponse)][1..] == [Ok(GrantedResponse)];
  }

  /** A poll whose request could not be sent ends the run; it is not retried. */
  lemma TransportFailureScenario()
    ensures DeviceFlow(Device, 0, [5, 10, 900], [TransportFailed, Ok(GrantedResponse)])
         == Trace(Failed(NilResponse), [Slept(5), Polled(5, Request, Nil)])
  {
  }

  /** A pending poll followed by a check at expiration: the run times out after that one poll. */
  lemma ExpiredAfterPendingScenario()
    ensures DeviceFlow(Device, 0, [5, 900], [Ok(ErrorResponse(AuthorizationPending, 0))])
         == Trace(TimedOut,
                  [Slept(5), Polled(5, Request, Token(ErrorResponse(AuthorizationPending, 0))), Slept(5)])
  {
    var pending := ErrorResponse(AuthorizationPending, 0);
    assert Step(Token(pending), 5, Debug) == SleepThenPoll(5);
    assert Loop(Device, 900, [900], []) == Trace(TimedOut, []);
    assert [5, 900][1..] == [900];
    assert [Ok(pending)][1..] == [];
  }
}
