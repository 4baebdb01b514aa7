# Device-flow polling model

A Dafny model of the client side of the OAuth 2.0 Device Authorization Grant
(RFC 8628) as `main.go` runs it against GitHub. It covers the part of the
program with real control flow: the polling loop that turns a device code
into an access token.

The program obtains a device code, which carries `expires_in` and `interval`
(section 3.2 of RFC 8628), and fixes the expiration instant once as the start
time plus `expires_in`. It sleeps one `interval`. Then, while the clock is
before expiration, it polls the token endpoint once. Each poll sends
`client_id`, `device_code` and the grant type
`urn:ietf:params:oauth:grant-type:device_code` (section 3.4 of RFC 8628).
The result of the poll is one of four things:

- success, when there is an access token;
- sleep and poll again, for `authorization_pending` and `slow_down`;
- poll again at once, for an error code the `switch` has no case for;
- a fatal exit, for `expired_token`, `unsupported_grant_type`,
  `incorrect_client_credentials` (each guarded by the constant `debug`),
  `access_denied`, a response with neither field, a status other than 200,
  or a poll that returned no response (nil).

When the expiration check fails, the run ends in a timeout.

Layout:

- `responses.dfy`, module `Responses`: the device-code and token-poll
  records, the error-code constants, the form body of a poll, and
  `PollAccessToken`. That function maps what one HTTP exchange produced to
  the value the poll returns.
- `dispatch.dfy`, module `Dispatch`: `Classify`, the per-response `switch`,
  and `Step`, its extension to a missing response and a bad status.
- `polling.dfy`, module `Polling`:
  - the run as a specification function `DeviceFlow` over the environment;
  - the loop itself as the method `RunDeviceFlow`, whose result is proved
    equal to that specification.
- `trace_lemmas.dfy`, module `TraceLemmas`: what every run does, for every
  environment.
- `scenarios.dfy`, module `Scenarios`: concrete runs.

The environment of a run is abstract. It has two parts:

- `clock`: the reading taken at each expiration check. The readings are
  arbitrary integers. They need not be monotone, and they need not reflect
  the sleeps. Every lemma holds for any clock.
- `exchanges`: what each poll's HTTP exchange produced. This is one of:
  - the request could not be built;
  - the request could not be sent;
  - a reply with a status and a body that was unreadable, not decodable, or
    decoded into an `AccessTokenResponse`.

Sleeps and polls are recorded in order as a trace of events. Sleeps are
recorded, not performed.

### Where the code differs from what the protocol suggests

The model follows the code:

- `slow_down` sleeps the response's own `interval` once. It never replaces
  `deviceCode.Interval`, so later `authorization_pending` responses sleep the
  original interval again (main.go:49, main.go:55). Section 3.5 of RFC 8628
  asks instead for the interval to grow by 5 seconds for all later requests.
  The sleep rule (`TraceLemmas.SleepRule`) and
  `Scenarios.SlowDownThenPendingScenario` state the behaviour as written.
- An unrecognised error code is not fatal. The `switch` has no `default`, so
  the loop goes straight back to the expiration check and polls again with no
  sleep (main.go:47-70).
- A poll that fails before a response is decoded returns nil. The loop then
  dereferences it (main.go:42), so the process crashes: the poll ends the run
  and is not retried. A status other than 200 ends the process inside the poll
  (main.go:178-180). Both are modelled as failed outcomes (`NilResponse`,
  `UnexpectedStatus`).
- Expiration is checked only at the top of each iteration (main.go:39), not
  before each sleep. A run whose last check failed records the sleep that came
  before that check.
- The decoded `Interval` field uses the JSON tag `"interval "`, with a
  trailing space (main.go:126), so in practice it is probably always 0. The
  model takes it as an arbitrary input and does not model the decoder.
- `expires_in` and `interval` are taken as any integers; the program does not
  check them.

## Model

| member | source | states |
|---|---|---|
| `Responses.TokenRequest` | main.go:143-147 | a poll's form body has exactly the keys `client_id`, `device_code` and `grant_type`, each with one value; the grant type is the device-code grant of RFC 8628 section 3.4 |
| `Responses.PollAccessToken` | main.go:142-183 | a poll returns a response exactly when the reply has status 200 and its body was read and decoded; it reports a bad status exactly for a reply other than 200; every failure to build, send, read or decode gives nil |
| `Dispatch.FatalCodes` | main.go:56-69 | `access_denied` is always fatal; each of `expired_token`, `unsupported_grant_type` and `incorrect_client_credentials` is fatal exactly when `debug` is set; no other code is fatal, and no fatal code is a retry code |
| `Dispatch.Classify` | main.go:42-73 | success exactly when the access token is non-empty, whatever the error field holds; sleep-then-poll exactly for `authorization_pending`, which sleeps the device interval, and for `slow_down`, which sleeps the response's interval; poll-now exactly for a non-empty code that is neither a retry code nor fatal under `debug`; failure exactly for an empty error or a fatal code, with the failure kind fixed per code; `debug = false` turns the three guarded codes into poll-now |
| `Dispatch.Step` | main.go:40-46 | a nil result or a non-200 status always ends the run in failure (`NilResponse`, `UnexpectedStatus` with that status); success exactly for a decoded response with a token; never a timeout |
| `Polling.Loop` | main.go:39-75 | the loop from one expiration check on records nothing exactly when that check is at or past expiration, and then times out; otherwise its first event is a poll |
| `Polling.DeviceFlow` | main.go:29-39 | a run starts with one sleep of the device interval; it consists of only that sleep, and times out, exactly when the first check is at or past the expiration instant `Polling.Expiration`, fixed once as start + `expires_in` (main.go:29) |
| `Polling.RunDeviceFlow` | main.go:29-75 | the loop as written (a while loop over the checks, calling the poll and the classification) returns exactly the outcome and the sleep/poll trace of `DeviceFlow` for the same environment |
| `TraceLemmas.LoopWellSequenced` | main.go:39-74 | every event of the loop follows the loop's transition rule: a finishing poll is the last event and gives the outcome, a sleeping poll is followed by exactly that sleep, and anything else is followed by a poll or ends the run in a timeout |
| `TraceLemmas.LoopPollsFollowClock` | main.go:39-40 | the loop's polls are the exchanges in order, each made at its own check with the clock before expiration, and carrying the device code; a timed-out loop stopped at a check at or past expiration |
| `TraceLemmas.LoopPendingThenGranted` | main.go:39-50 | N pending responses and then a token, all before expiration, give N sleeps of the device interval, N + 1 polls, and success with that token |
| `TraceLemmas.LoopExpiryAfterContinuing` | main.go:39-75 | polls that all let the loop go on, followed by a failing check, time out after exactly those polls |
| `TraceLemmas.FlowWellSequenced` | main.go:37-74 | every event of a whole run, including the initial sleep, follows the loop's transition rule |
| `TraceLemmas.OutcomeFromLastPoll` | main.go:39-75 | a run did not time out exactly when its last event is a poll whose result finishes the run, and then the outcome is that result's outcome |
| `TraceLemmas.PollsFollowClock` | main.go:29-40 | a poll is issued only while the clock is strictly before the expiration instant fixed at the start: the polls are the exchanges in order, at consecutive checks, each sending the device code; a timeout means the check after the last poll was at or past expiration |
| `TraceLemmas.SleepRule` | main.go:37-55 | the first event is a sleep of the device interval; every later sleep directly follows a tokenless `authorization_pending` poll, lasting the device interval, or a `slow_down` poll, lasting that response's interval; every such poll is followed by that sleep, so the device interval is never replaced |
| `TraceLemmas.SuccessEndsRun` | main.go:42-45 | a response with an access token is the last event and the run succeeds with it, even when its error is also set; a successful run ended on such a response |
| `TraceLemmas.FailedPollEndsRun` | main.go:150-183 | a poll that returned nil or a non-200 status is the last event, and the run fails with `NilResponse` or `UnexpectedStatus` of that status: failed polls are never retried |
| `TraceLemmas.FatalCodeEndsRun` | main.go:56-72 | `expired_token`, `unsupported_grant_type`, `incorrect_client_credentials`, `access_denied`, or a response with neither token nor error, is the last event, and the run fails |
| `TraceLemmas.UnknownCodeRepollsAtOnce` | main.go:39-70 | after a response with an unrecognised error code, the next event is another poll with no sleep between, or the run times out at the following check |
| `TraceLemmas.PendingThenGranted` | main.go:37-50 | N pending responses followed by a token, all before expiration, give N + 1 sleeps, all of the device interval, N + 1 polls, and success with that token |
| `TraceLemmas.ExpiryOverridesPending` | main.go:39-75 | when the check after polls that all continued fails, the run times out after exactly those polls, even if the last one was pending |
| `Scenarios.PendingThenTokenScenario` | main.go:37-45 | interval 5, a pending poll and then a token: sleeps of 5 and 5, two polls, success |
| `Scenarios.SlowDownThenExpiredScenario` | main.go:51-59 | `slow_down` with interval 10 sleeps 10 once; a following `expired_token` ends the run with no third poll |
| `Scenarios.SlowDownThenPendingScenario` | main.go:48-55 | after `slow_down` with interval 10, a pending response sleeps the original 5 seconds |
| `Scenarios.UnknownCodeScenario` | main.go:47-70 | an unrecognised code is followed at once by the next poll |
| `Scenarios.TransportFailureScenario` | main.go:156-160 | a poll that could not be sent ends the run with `NilResponse` after one poll |
| `Scenarios.ExpiredAfterPendingScenario` | main.go:39-50 | a pending poll followed by a check at expiration times out after one poll and two sleeps |

## Left out

- `Polling.RunDeviceFlow` and `Polling.DeviceFlow`: both require the supplied clock to end with a reading at or past expiration (`Closes`). A run that would poll forever, with a clock that never reaches expiration, is outside the model. Every finite run is covered by appending one late reading.
- HTTP transport, request construction and headers (main.go:87-99, main.go:149-160, main.go:192-204): foreign I/O. A poll is an `Exchange` supplied by the caller. The form body is modelled as a map, not as `url.Values.Encode` output.
- JSON decoding (main.go:109, main.go:172, main.go:212): library behaviour. A decoded `AccessTokenResponse` is taken as given; the struct tags, including the trailing space in `"interval "`, are not modelled.
- `GetDeviceCode` (main.go:86-114): a single request plus decode with no branching besides fatal exits. Its result is the `DeviceCodeResponse` input of a run.
- `HandleAccessToken` and the greeting (main.go:43-45, main.go:191-217): a run ends at `Succeeded` with the token. The profile request and its exits are not modelled, including the nil dereference at main.go:44 when the profile request cannot be sent.
- Wall-clock time and `time.Sleep` (main.go:29, main.go:37, main.go:49, main.go:55): the clock is a sequence of readings in whole seconds, not tied to the recorded sleeps. The conversion of seconds to `time.Duration` nanoseconds is not modelled, nor its 64-bit overflow for huge `expires_in` or `interval`, nor the saturation of `time.Time.Add`. Integers are unbounded.
- Console output and logging (main.go:31-35, main.go:53, main.go:105, main.go:151-174): no effect on control flow.
- Process termination (`os.Exit(0)`, `log.Fatalln`, a nil-dereference panic): each becomes a returned outcome. Exit statuses and the text printed are not modelled.
