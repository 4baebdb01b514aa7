/**
 * The polling loop of the device flow. The expiration instant is fixed once
 * from the start time and `expires_in`; the loop sleeps one device interval,
 * then, while the clock is before expiration, polls once and acts on the
 * result.
 *
 * Time is abstract. `clock[i]` is the reading taken at the i-th expiration
 * check, and `exchanges[i]` is what the i-th poll's HTTP exchange produced.
 * A sleep is recorded in the trace, not performed.
 */
module Polling {
  import opened Responses
  import opened Dispatch

  /** One observable step of a run, in order. */
  datatype Event =
    | Slept(seconds: int)
    | Polled(at: int, request: Form, result: PollResult)

  /** A run: how it ended and what it did on the way. */
  datatype Trace = Trace(outcome: Outcome, events: seq<Event>)

  /** The instant after which no poll is issued. */
  function Expiration(start: int, expiresIn: int): int {
    start + expiresIn
  }

  /**
   * The environment has one clock reading per expiration check and one
   * exchange per poll, and its last reading is at or past expiration, so
   * every run ends within it. Any finite run of the program is described by
   * such an environment: append one late reading.
   */
  predicate Closes(clock: seq<int>, exchanges: seq<Exchange>, expiration: int) {
    |clock| == |exchanges| + 1 && clock[|exchanges|] >= expiration
  }

  /**
   * The loop from one expiration check on. It records nothing, and times
   * out, exactly when that check is at or past expiration; otherwise it
   * starts with a poll.
   */
  function Loop(dc: DeviceCodeResponse, expiration: int, clock: seq<int>, exchanges: seq<Exchange>): (t: Trace)
    requires Closes(clock, exchanges, expiration)
    ensures t.events == [] <==> clock[0] >= expiration
    ensures t.events == [] ==> t.outcome.TimedOut?
    ensures t.events != [] ==> t.events[0].Polled?
    decreases |exchanges|
  {
    if clock[0] >= expiration then
      Trace(TimedOut, [])
    else
      var result := PollAccessToken(exchanges[0]);
      var poll := Polled(clock[0], TokenRequest(ClientId, dc.deviceCode), result);
      match Step(result, dc.interval, Debug)
      case Finish(outcome) =>
        Trace(outcome, [poll])
      case SleepThenPoll(seconds) =>
        var rest := Loop(dc, expiration, clock[1..], exchanges[1..]);
        Trace(rest.outcome, [poll, Slept(seconds)] + rest.events)
      case PollNow =>
        var rest := Loop(dc, expiration, clock[1..], exchanges[1..]);
        Trace(rest.outcome, [poll] + rest.events)
  }

  /**
   * A whole run: one sleep of the device interval, then the loop, against
   * the expiration computed once from `start`.
   */
  function DeviceFlow(dc: DeviceCodeResponse, start: int, clock: seq<int>, exchanges: seq<Exchange>): (t: Trace)
    requires Closes(clock, exchanges, Expiration(start, dc.expiresIn))
    ensures |t.events| >= 1 && t.events[0] == Slept(dc.interval)
    ensures |t.events| == 1 <==> clock[0] >= Expiration(start, dc.expiresIn)
    ensures |t.events| == 1 ==> t.outcome.TimedOut?
  {
    var rest := Loop(dc, Expiration(start, dc.expiresIn), clock, exchanges);
    Trace(rest.outcome, [Slept(dc.interval)] + rest.events)
  }

  /** The polls of a trace, in order. */
  function Polls(events: seq<Event>): (polls: seq<Event>)
    ensures |polls| <= |events|
    ensures forall j | 0 <= j < |polls| :: polls[j].Polled?
  {
    if events == [] then []
    else (if events[0].Polled? then [events[0]] else []) + Polls(events[1..])
  }

  /** The sleep durations of a trace, in order. */
  function Sleeps(events: seq<Event>): (sleeps: seq<int>)
    ensures |sleeps| <= |events|
  {
    if events == [] then []
    else (if events[0].Slept? then [events[0].seconds] else []) + Sleeps(events[1..])
  }

  /**
   * The loop's rule for the event at position `k` and the one after it: a
   * poll whose action finishes is the last event and gives the outcome; a
   * poll that sleeps is followed by exactly that sleep; otherwise the next
   * event is a poll, or the run ends there on the expiration check.
   */
  predicate FollowsRule(t: Trace, k: int, deviceInterval: int)
    requires 0 <= k < |t.events|
  {
    var ends := k + 1 == |t.events| && t.outcome.TimedOut?;
    match t.events[k]
    case Polled(_, _, result) =>
      (match Step(result, deviceInterval, Debug)
       case Finish(outcome) => k + 1 == |t.events| && t.outcome == outcome
       case SleepThenPoll(seconds) => k + 1 < |t.events| && t.events[k + 1] == Slept(seconds)
       case PollNow => ends || (k + 1 < |t.events| && t.events[k + 1].Polled?))
    case Slept(_) => ends || (k + 1 < |t.events| && t.events[k + 1].Polled?)
  }

  /** Every event of the trace follows the loop's rule. */
  predicate WellSequenced(t: Trace, deviceInterval: int) {
    forall k | 0 <= k < |t.events| :: FollowsRule(t, k, deviceInterval)
  }

  /**
   * The polling loop as the program runs it. It returns how the run ended
   * and the sleeps and polls it performed, which are exactly the trace the
   * specification `DeviceFlow` gives for the same environment.
   */
  method RunDeviceFlow(dc: DeviceCodeResponse, start: int, clock: seq<int>, exchanges: seq<Exchange>)
    returns (outcome: Outcome, events: seq<Event>)
    requires Closes(clock, exchanges, Expiration(start, dc.expiresIn))
    ensures Trace(outcome, events) == DeviceFlow(dc, start, clock, exchanges)
  {
    var expiration := Expiration(start, dc.expiresIn);
    events := [Slept(dc.interval)];
    var request := TokenRequest(ClientId, dc.deviceCode);
    var i := 0;
    while clock[i] < expiration
      invariant 0 <= i <= |exchanges|
      invariant Closes(clock[i..], exchanges[i..], expiration)
      invariant var rest := Loop(dc, expiration, clock[i..], exchanges[i..]);
                DeviceFlow(dc, start, clock, exchanges) == Trace(rest.outcome, events + rest.events)
      decreases |exchanges| - i
    {
      assert clock[i..][0] == clock[i] && exchanges[i..][0] == exchanges[i];
      assert clock[i..][1..] == clock[i + 1..] && exchanges[i..][1..] == exchanges[i + 1..];
      var result := PollAccessToken(exchanges[i]);
      events := events + [Polled(clock[i], request, result)];
      match Step(result, dc.interval, Debug) {
        case Finish(o) =>
          outcome := o;
          return;
        case SleepThenPoll(seconds) =>
          events := events + [Slept(seconds)];
        case PollNow =>
      }
      i := i + 1;
    }
    outcome := TimedOut;
  }
}
