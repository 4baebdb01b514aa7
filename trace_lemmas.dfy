/**
 * What every run of the polling loop does, whatever the clock and the
 * provider's replies: the order of sleeps and polls, when polls are issued,
 * how long each sleep is, and which poll ends the run.
 */
module TraceLemmas {
  import opened Responses
  import opened Dispatch
  import opened Polling

  /** The poll's exchange gave a response still waiting for the user. */
  predicate Pending(x: Exchange) {
    var r := PollAccessToken(x);
    r.Token? && r.response.accessToken == "" && r.response.error == AuthorizationPending
  }

  /** The poll's exchange gave a response carrying an access token. */
  predicate Granted(x: Exchange) {
    var r := PollAccessToken(x);
    r.Token? && r.response.accessToken != ""
  }

  /** The event is a poll whose response has no token and the given error code. */
  predicate PolledCode(e: Event, code: string) {
    e.Polled? && e.result.Token? && e.result.response.accessToken == "" && e.result.response.error == code
  }

  /** The error codes the loop's `switch` has a case for. */
  const KnownCodes: set<string> :=
    {AuthorizationPending, SlowDown, ExpiredToken, UnsupportedGrantType, IncorrectClientCredentials, AccessDenied}

  /** The event is a poll whose response has no token and an error code the `switch` does not know. */
  predicate PolledUnknownCode(e: Event) {
    && e.Polled? && e.result.Token? && e.result.response.accessToken == ""
    && e.result.response.error != "" && e.result.response.error !in KnownCodes
  }

  // ---------------------------------------------------------------------
  // Facts about the loop, proved by induction over the environment.
  // ---------------------------------------------------------------------

  /** The rule of an event carries over when events are put in front. */
  lemma FollowsRuleShift(t: Trace, rest: Trace, prefix: seq<Event>, k: int, deviceInterval: int)
    requires t.outcome == rest.outcome && t.events == prefix + rest.events
    requires 0 <= k < |rest.events| && FollowsRule(rest, k, deviceInterval)
    ensures FollowsRule(t, |prefix| + k, deviceInterval)
  {
  }

  /** Every event of the loop follows the loop's rule. */
  lemma {:induction false} LoopWellSequenced(dc: DeviceCodeResponse, expiration: int, clock: seq<int>, exchanges: seq<Exchange>)
    requires Closes(clock, exchanges, expiration)
    ensures WellSequenced(Loop(dc, expiration, clock, exchanges), dc.interval)
    decreases |exchanges|
  {
    var t := Loop(dc, expiration, clock, exchanges);
    if clock[0] < expiration {
      var result := PollAccessToken(exchanges[0]);
      var rest := Loop(dc, expiration, clock[1..], exchanges[1..]);
      match Step(result, dc.interval, Debug)
      case Finish(_) =>
      case SleepThenPoll(seconds) =>
        LoopWellSequenced(dc, expiration, clock[1..], exchanges[1..]);
        var prefix := [t.events[0], Slept(seconds)];
        assert t.events == prefix + rest.events;
        forall k | 0 <= k < |t.events| ensures FollowsRule(t, k, dc.interval) {
          if k >= 2 {
            FollowsRuleShift(t, rest, prefix, k - 2, dc.interval);
          }
        }
      case PollNow =>
        LoopWellSequenced(dc, expiration, clock[1..], exchanges[1..]);
        var prefix := [t.events[0]];
        assert t.events == prefix + rest.events;
        forall k | 0 <= k < |t.events| ensures FollowsRule(t, k, dc.interval) {
          if k >= 1 {
            FollowsRuleShift(t, rest, prefix, k - 1, dc.interval);
          }
        }
    }
  }

  /**
   * One step of the loop that does not finish: a poll, the sleep its action
   * asks for if any, then the loop from the next check on.
   */
  lemma LoopContinues(dc: DeviceCodeResponse, expiration: int, clock: seq<int>, exchanges: seq<Exchange>)
    requires Closes(clock, exchanges, expiration)
    requires clock[0] < expiration
    requires Step(PollAccessToken(exchanges[0]), dc.interval, Debug).Continues()
    ensures Closes(clock[1..], exchanges[1..], expiration)
    ensures var t := Loop(dc, expiration, clock, exchanges);
            var rest := Loop(dc, expiration, clock[1..], exchanges[1..]);
            var result := PollAccessToken(exchanges[0]);
            var a := Step(result, dc.interval, Debug);
            && t.outcome == rest.outcome
            && Polls(t.events) == [Polled(clock[0], TokenRequest(ClientId, dc.deviceCode), result)] + Polls(rest.events)
            && Sleeps(t.events) == (if a.SleepThenPoll? then [a.seconds] else []) + Sleeps(rest.events)
  {
  }

  /**
   * The loop's polls are the exchanges in order, each issued at its own
   * expiration check with the clock strictly before expiration and carrying
   * the device code; a timed-out loop stopped at a check at or past
   * expiration.
   */
  lemma {:induction false} LoopPollsFollowClock(dc: DeviceCodeResponse, expiration: int, clock: seq<int>, exchanges: seq<Exchange>)
    requires Closes(clock, exchanges, expiration)
    ensures var t := Loop(dc, expiration, clock, exchanges);
            var polls := Polls(t.events);
            && |polls| <= |exchanges|
            && (forall j | 0 <= j < |polls| ::
                  polls[j] == Polled(clock[j], TokenRequest(ClientId, dc.deviceCode), PollAccessToken(exchanges[j])))
            && (forall j | 0 <= j < |polls| :: clock[j] < expiration)
            && (t.outcome.TimedOut? ==> clock[|polls|] >= expiration)
            && (!t.outcome.TimedOut? ==> |polls| >= 1)
    decreases |exchanges|
  {
    var t := Loop(dc, expiration, clock, exchanges);
    if clock[0] < expiration {
      var result := PollAccessToken(exchanges[0]);
      var poll := Polled(clock[0], TokenRequest(ClientId, dc.deviceCode), result);
      if Step(result, dc.interval, Debug).Continues() {
        var rest := Loop(dc, expiration, clock[1..], exchanges[1..]);
        LoopContinues(dc, expiration, clock, exchanges);
        LoopPollsFollowClock(dc, expiration, clock[1..], exchanges[1..]);
        var polls, restPolls := Polls(t.events), Polls(rest.events);
        forall j | 1 <= j < |polls|
          ensures polls[j] == Polled(clock[j], TokenRequest(ClientId, dc.deviceCode), PollAccessToken(exchanges[j]))
          ensures clock[j] < expiration
        {
          assert polls[j] == restPolls[j - 1];
          assert clock[1..][j - 1] == clock[j] && exchanges[1..][j - 1] == exchanges[j];
        }
        if t.outcome.TimedOut? {
          assert clock[1..][|restPolls|] == clock[|polls|];
        }
      } else {
        assert t.events == [poll];
        assert Polls(t.events) == [poll] + Polls([]);
      }
    }
  }

  /**
   * N pending responses and then a token, all before expiration: the loop
   * sleeps N times, each the device interval, polls N + 1 times and
   * succeeds with that token.
   */
  lemma {:induction false} LoopPendingThenGranted(dc: DeviceCodeResponse, expiration: int, clock: seq<int>, exchanges: seq<Exchange>, n: nat)
    requires Closes(clock, exchanges, expiration)
    requires n < |exchanges|
    requires forall j | 0 <= j <= n :: clock[j] < expiration
    requires forall j | 0 <= j < n :: Pending(exchanges[j])
    requires Granted(exchanges[n])
    ensures var t := Loop(dc, expiration, clock, exchanges);
            && t.outcome == Succeeded(PollAccessToken(exchanges[n]).response)
            && Sleeps(t.events) == seq(n, _ => dc.interval)
            && |Polls(t.events)| == n + 1
    decreases n
  {
    var t := Loop(dc, expiration, clock, exchanges);
    var poll := Polled(clock[0], TokenRequest(ClientId, dc.deviceCode), PollAccessToken(exchanges[0]));
    if n == 0 {
      assert t.events == [poll];
      assert Sleeps(t.events) == [] + Sleeps([]);
      assert Polls(t.events) == [poll] + Polls([]);
    } else {
      var rest := Loop(dc, expiration, clock[1..], exchanges[1..]);
      LoopPendingThenGranted(dc, expiration, clock[1..], exchanges[1..], n - 1);
      assert t.events == [poll, Slept(dc.interval)] + rest.events;
      assert t.events[1..] == [Slept(dc.interval)] + rest.events;
      assert t.events[1..][1..] == rest.events;
      assert Sleeps(t.events) == [dc.interval] + Sleeps(rest.events);
      assert Polls(t.events) == [poll] + Polls(rest.events);
      assert seq(n, _ => dc.interval) == [dc.interval] + seq(n - 1, _ => dc.interval);
    }
  }

  /**
   * Polls that all let the loop go on, followed by a check at or past
   * expiration: the loop times out after exactly those polls, whatever the
   * last of them returned.
   */
  lemma {:induction false} LoopExpiryAfterContinuing(dc: DeviceCodeResponse, expiration: int, clock: seq<int>, exchanges: seq<Exchange>, n: nat)
    requires Closes(clock, exchanges, expiration)
    requires n <= |exchanges|
    requires forall j | 0 <= j < n :: clock[j] < expiration
    requires forall j | 0 <= j < n :: Step(PollAccessToken(exchanges[j]), dc.interval, Debug).Continues()
    requires clock[n] >= expiration
    ensures var t := Loop(dc, expiration, clock, exchanges);
            t.outcome == TimedOut && |Polls(t.events)| == n
    decreases n
  {
    var t := Loop(dc, expiration, clock, exchanges);
    if n > 0 {
      var result := PollAccessToken(exchanges[0]);
      var poll := Polled(clock[0], TokenRequest(ClientId, dc.deviceCode), result);
      var rest := Loop(dc, expiration, clock[1..], exchanges[1..]);
      LoopExpiryAfterContinuing(dc, expiration, clock[1..], exchanges[1..], n - 1);
      match Step(result, dc.interval, Debug)
      case SleepThenPoll(seconds) =>
        assert t.events[1..] == [Slept(seconds)] + rest.events;
        assert t.events[1..][1..] == rest.events;
        assert Polls(t.events) == [poll] + Polls(rest.events);
      case PollNow =>
        assert t.events[1..] == rest.events;
        assert Polls(t.events) == [poll] + Polls(rest.events);
    }
  }

  // ---------------------------------------------------------------------
  // Facts about a whole run.
  // ---------------------------------------------------------------------

  /** Every event of a run, the initial sleep included, follows the loop's rule. */
  lemma FlowWellSequenced(dc: DeviceCodeResponse, start: int, clock: seq<int>, exchanges: seq<Exchange>)
    requires Closes(clock, exchanges, Expiration(start, dc.expiresIn))
    ensures WellSequenced(DeviceFlow(dc, start, clock, exchanges), dc.interval)
  {
    var expiration := Expiration(start, dc.expiresIn);
    var t := DeviceFlow(dc, start, clock, exchanges);
    var rest := Loop(dc, expiration, clock, exchanges);
    LoopWellSequenced(dc, expiration, clock, exchanges);
    forall k | 0 <= k < |t.events| ensures FollowsRule(t, k, dc.interval) {
      if k >= 1 {
        FollowsRuleShift(t, rest, [Slept(dc.interval)], k - 1, dc.interval);
      }
    }
  }

  /**
   * A run that did not time out ended on its last event, a poll whose
   * result finished the run with that outcome; a run that timed out did not.
   */
  lemma OutcomeFromLastPoll(dc: DeviceCodeResponse, start: int, clock: seq<int>, exchanges: seq<Exchange>)
    requires Closes(clock, exchanges, Expiration(start, dc.expiresIn))
    ensures var t := DeviceFlow(dc, start, clock, exchanges);
            var last := t.events[|t.events| - 1];
            && (!t.outcome.TimedOut? <==> last.Polled? && Step(last.result, dc.interval, Debug).Finish?)
            && (!t.outcome.TimedOut? ==> Step(last.result, dc.interval, Debug) == Finish(t.outcome))
  {
    var t := DeviceFlow(dc, start, clock, exchanges);
    FlowWellSequenced(dc, start, clock, exchanges);
    assert FollowsRule(t, |t.events| - 1, dc.interval);
  }

  /**
   * Polls are issued only while the clock is before expiration: the run's
   * polls are the exchanges in order, each at its own check with the clock
   * strictly before the expiration fixed once from the start time, each
   * sending the device code with the device-code grant type. A run that
   * timed out stopped at a check at or past expiration.
   */
  lemma PollsFollowClock(dc: DeviceCodeResponse, start: int, clock: seq<int>, exchanges: seq<Exchange>)
    requires Closes(clock, exchanges, Expiration(start, dc.expiresIn))
    ensures var t := DeviceFlow(dc, start, clock, exchanges);
            var polls := Polls(t.events);
            && |polls| <= |exchanges|
            && (forall j | 0 <= j < |polls| ::
                  && polls[j].at == clock[j] < Expiration(start, dc.expiresIn)
                  && polls[j].result == PollAccessToken(exchanges[j])
                  && polls[j].request == TokenRequest(ClientId, dc.deviceCode))
            && (t.outcome.TimedOut? ==> clock[|polls|] >= Expiration(start, dc.expiresIn))
  {
    var expiration := Expiration(start, dc.expiresIn);
    var t := DeviceFlow(dc, start, clock, exchanges);
    var rest := Loop(dc, expiration, clock, exchanges);
    LoopPollsFollowClock(dc, expiration, clock, exchanges);
    assert t.events[1..] == rest.events;
    assert Polls(t.events) == Polls(rest.events);
  }

  /**
   * Sleeps: the run begins with one sleep of the device interval; every
   * later sleep comes right after a poll whose response had no token and a
   * retry code, and lasts the device interval after `authorization_pending`
   * and the response's own interval after `slow_down`. Conversely each such
   * poll is followed by that sleep. The device interval is never replaced,
   * so a pending response after a `slow_down` still sleeps the original
   * interval.
   */
  lemma SleepRule(dc: DeviceCodeResponse, start: int, clock: seq<int>, exchanges: seq<Exchange>)
    requires Closes(clock, exchanges, Expiration(start, dc.expiresIn))
    ensures var ev := DeviceFlow(dc, start, clock, exchanges).events;
            && ev[0] == Slept(dc.interval)
            && (forall k | 1 <= k < |ev| && ev[k].Slept? ::
                  && ev[k - 1].Polled? && ev[k - 1].result.Token?
                  && var resp := ev[k - 1].result.response;
                  && resp.accessToken == ""
                  && (resp.error == AuthorizationPending || resp.error == SlowDown)
                  && ev[k].seconds == (if resp.error == SlowDown then resp.interval else dc.interval))
            && (forall k | 0 <= k < |ev| && PolledCode(ev[k], AuthorizationPending) ::
                  k + 1 < |ev| && ev[k + 1] == Slept(dc.interval))
            && (forall k | 0 <= k < |ev| && PolledCode(ev[k], SlowDown) ::
                  k + 1 < |ev| && ev[k + 1] == Slept(ev[k].result.response.interval))
  {
    var t := DeviceFlow(dc, start, clock, exchanges);
    FlowWellSequenced(dc, start, clock, exchanges);
    forall k | 1 <= k < |t.events| && t.events[k].Slept?
      ensures t.events[k - 1].Polled?
      ensures Step(t.events[k - 1].result, dc.interval, Debug) == SleepThenPoll(t.events[k].seconds)
    {
      assert FollowsRule(t, k - 1, dc.interval);
    }
    forall k | 0 <= k < |t.events| && PolledCode(t.events[k], AuthorizationPending)
      ensures k + 1 < |t.events| && t.events[k + 1] == Slept(dc.interval)
    {
      assert Step(t.events[k].result, dc.interval, Debug) == SleepThenPoll(dc.interval);
      assert FollowsRule(t, k, dc.interval);
    }
    forall k | 0 <= k < |t.events| && PolledCode(t.events[k], SlowDown)
      ensures k + 1 < |t.events| && t.events[k + 1] == Slept(t.events[k].result.response.interval)
    {
      assert Step(t.events[k].result, dc.interval, Debug) == SleepThenPoll(t.events[k].result.response.interval);
      assert FollowsRule(t, k, dc.interval);
    }
  }

  /**
   * A response with an access token ends the run in success with that
   * response, and no poll follows, even when its error field is also set;
   * a successful run ended on such a response.
   */
  lemma SuccessEndsRun(dc: DeviceCodeResponse, start: int, clock: seq<int>, exchanges: seq<Exchange>)
    requires Closes(clock, exchanges, Expiration(start, dc.expiresIn))
    ensures var t := DeviceFlow(dc, start, clock, exchanges);
            && (forall k | 0 <= k < |t.events| && t.events[k].Polled? && t.events[k].result.Token? ::
                  t.events[k].result.response.accessToken != "" ==>
                    k == |t.events| - 1 && t.outcome == Succeeded(t.events[k].result.response))
            && (t.outcome.Succeeded? ==>
                  var last := t.events[|t.events| - 1];
                  && last.Polled? && last.result == Token(t.outcome.token)
                  && t.outcome.token.accessToken != "")
  {
    var t := DeviceFlow(dc, start, clock, exchanges);
    FlowWellSequenced(dc, start, clock, exchanges);
    OutcomeFromLastPoll(dc, start, clock, exchanges);
    forall k | 0 <= k < |t.events| && t.events[k].Polled? && t.events[k].result.Token?
      ensures t.events[k].result.response.accessToken != "" ==>
                k == |t.events| - 1 && t.outcome == Succeeded(t.events[k].result.response)
    {
      assert FollowsRule(t, k, dc.interval);
    }
  }

  /**
   * A poll that gave no response, or a status other than 200, ends the run
   * in failure and is never retried.
   */
  lemma FailedPollEndsRun(dc: DeviceCodeResponse, start: int, clock: seq<int>, exchanges: seq<Exchange>)
    requires Closes(clock, exchanges, Expiration(start, dc.expiresIn))
    ensures var t := DeviceFlow(dc, start, clock, exchanges);
            forall k | 0 <= k < |t.events| && t.events[k].Polled? && !t.events[k].result.Token? ::
              && k == |t.events| - 1
              && (t.events[k].result.Nil? ==> t.outcome == Failed(NilResponse))
              && (t.events[k].result.BadStatus? ==>
                    t.outcome == Failed(UnexpectedStatus(t.events[k].result.status)))
  {
    var t := DeviceFlow(dc, start, clock, exchanges);
    FlowWellSequenced(dc, start, clock, exchanges);
    forall k | 0 <= k < |t.events| && t.events[k].Polled? && !t.events[k].result.Token?
      ensures k == |t.events| - 1
      ensures t.outcome == Step(t.events[k].result, dc.interval, Debug).outcome
    {
      assert FollowsRule(t, k, dc.interval);
    }
  }

  /**
   * With the verbosity flag set, `expired_token`, `unsupported_grant_type`,
   * `incorrect_client_credentials` and `access_denied` end the run in
   * failure, and so does a response with neither token nor error; no poll
   * follows.
   */
  lemma FatalCodeEndsRun(dc: DeviceCodeResponse, start: int, clock: seq<int>, exchanges: seq<Exchange>)
    requires Closes(clock, exchanges, Expiration(start, dc.expiresIn))
    ensures var t := DeviceFlow(dc, start, clock, exchanges);
            forall k | 0 <= k < |t.events| && t.events[k].Polled? && t.events[k].result.Token? ::
              var resp := t.events[k].result.response;
              resp.accessToken == "" &&
              resp.error in {"", ExpiredToken, UnsupportedGrantType, IncorrectClientCredentials, AccessDenied} ==>
                k == |t.events| - 1 && t.outcome.Failed?
  {
    var t := DeviceFlow(dc, start, clock, exchanges);
    FlowWellSequenced(dc, start, clock, exchanges);
    forall k | 0 <= k < |t.events| && t.events[k].Polled? && t.events[k].result.Token?
      ensures var resp := t.events[k].result.response;
              resp.accessToken == "" &&
              resp.error in {"", ExpiredToken, UnsupportedGrantType, IncorrectClientCredentials, AccessDenied} ==>
                k == |t.events| - 1 && t.outcome.Failed?
    {
      assert FollowsRule(t, k, dc.interval);
    }
  }

  /**
   * An error code the loop does not recognise neither sleeps nor fails:
   * the next event is another poll, or the run times out at the expiration
   * check that follows.
   */
  lemma UnknownCodeRepollsAtOnce(dc: DeviceCodeResponse, start: int, clock: seq<int>, exchanges: seq<Exchange>)
    requires Closes(clock, exchanges, Expiration(start, dc.expiresIn))
    ensures var t := DeviceFlow(dc, start, clock, exchanges);
            forall k | 0 <= k < |t.events| && PolledUnknownCode(t.events[k]) ::
              && (k + 1 < |t.events| ==> t.events[k + 1].Polled?)
              && (k + 1 == |t.events| ==> t.outcome == TimedOut)
  {
    var t := DeviceFlow(dc, start, clock, exchanges);
    FlowWellSequenced(dc, start, clock, exchanges);
    forall k | 0 <= k < |t.events| && PolledUnknownCode(t.events[k])
      ensures k + 1 < |t.events| ==> t.events[k + 1].Polled?
      ensures k + 1 == |t.events| ==> t.outcome == TimedOut
    {
      var resp := t.events[k].result.response;
      assert resp.error !in RetryCodes + FatalCodes(Debug);
      assert Step(t.events[k].result, dc.interval, Debug) == PollNow;
      assert FollowsRule(t, k, dc.interval);
    }
  }

  /**
   * N pending responses followed by a token, all before expiration: N + 1
   * sleeps, every one of the device interval, N + 1 polls, and success with
   * that token.
   */
  lemma PendingThenGranted(dc: DeviceCodeResponse, start: int, clock: seq<int>, exchanges: seq<Exchange>, n: nat)
    requires Closes(clock, exchanges, Expiration(start, dc.expiresIn))
    requires n < |exchanges|
    requires forall j | 0 <= j <= n :: clock[j] < Expiration(start, dc.expiresIn)
    requires forall j | 0 <= j < n :: Pending(exchanges[j])
    requires Granted(exchanges[n])
    ensures var t := DeviceFlow(dc, start, clock, exchanges);
            && t.outcome == Succeeded(PollAccessToken(exchanges[n]).response)
            && Sleeps(t.events) == seq(n + 1, _ => dc.interval)
            && |Polls(t.events)| == n + 1
  {
    var expiration := Expiration(start, dc.expiresIn);
    var t := DeviceFlow(dc, start, clock, exchanges);
    var rest := Loop(dc, expiration, clock, exchanges);
    LoopPendingThenGranted(dc, expiration, clock, exchanges, n);
    assert t.events[1..] == rest.events;
    assert Sleeps(t.events) == [dc.interval] + Sleeps(rest.events);
    assert Polls(t.events) == Polls(rest.events);
  }

  /**
   * When the expiration check fails after polls that all let the loop go
   * on, the run times out after exactly those polls, even if the last of
   * them was pending.
   */
  lemma ExpiryOverridesPending(dc: DeviceCodeResponse, start: int, clock: seq<int>, exchanges: seq<Exchange>, n: nat)
    requires Closes(clock, exchanges, Expiration(start, dc.expiresIn))
    requires n <= |exchanges|
    requires forall j | 0 <= j < n :: clock[j] < Expiration(start, dc.expiresIn)
    requires forall j | 0 <= j < n :: Step(PollAccessToken(exchanges[j]), dc.interval, Debug).Continues()
    requires clock[n] >= Expiration(start, dc.expiresIn)
    ensures var t := DeviceFlow(dc, start, clock, exchanges);
            t.outcome == TimedOut && |Polls(t.events)| == n
  {
    var expiration := Expiration(start, dc.expiresIn);
    var t := DeviceFlow(dc, start, clock, exchanges);
    var rest := Loop(dc, expiration, clock, exchanges);
    LoopExpiryAfterContinuing(dc, expiration, clock, exchanges, n);
    assert t.events[1..] == rest.events;
    assert Polls(t.events) == Polls(rest.events);
  }
}
