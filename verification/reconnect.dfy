/** The reconnect loop of the feed task in src-tauri/src/lib.rs, as a state
    machine over the outcome of each pass of its outer loop. The only state is
    the retry count; each pass first waits according to the count, then tries
    to connect and subscribe, and ends in one of the outcomes below. */
module Reconnect {

  /** Longest wait between two connection attempts, in seconds. */
  const CAP_SECONDS: nat := 30

  /** Why a streaming session ended: the stream finished, the stream yielded
      an error, or forwarding a decoded message to the processing task failed.
      All three leave only the receive loop and start the next pass. */
  datatype StreamExit = StreamEnd | StreamError | ChannelClosed

  /** The outcome of one pass of the outer loop: the connection failed, the
      subscription request could not be sent, or the subscription was sent and
      the session streamed until `exit`. Messages that fail to decode are
      dropped inside the session and do not show here. */
  datatype Attempt =
    | ConnectFail
    | SendFail
    | Subscribed(exit: StreamExit)

  /** The pass ended in a failure that counts toward the backoff. */
  predicate IsFailure(a: Attempt) {
    a.ConnectFail? || a.SendFail?
  }

  function Pow2(n: nat): (r: nat)
    ensures r >= 1
  {
    if n == 0 then 1 else 2 * Pow2(n - 1)
  }

  function Min(a: nat, b: nat): nat {
    if a <= b then a else b
  }

  /** The wait, in seconds, before a pass that starts with count `retry`:
      none on the first attempt or right after a session, otherwise two to the
      power of the count, capped. */
  function Wait(retry: nat): (w: nat)
    ensures w <= CAP_SECONDS
    ensures w == 0 <==> retry == 0
    ensures retry > 0 ==> w >= 2
  {
    if retry > 0 then Min(Pow2(retry), CAP_SECONDS) else 0
  }

  /** The wait as the source computes it in a release build: `1 << retry` on
      a 64-bit value, where the shift amount is reduced modulo 64. */
  function WaitAsWritten(retry: nat): nat {
    if retry > 0 then Min(Pow2(retry % 64), CAP_SECONDS) else 0
  }

  /** One pass: its wait, and the count the next pass starts with. */
  datatype Transition = Transition(wait: nat, next: nat)

  /** The transition of one pass that starts with count `retry`. */
  function Step(retry: nat, a: Attempt): Transition {
    match a
    case ConnectFail => Transition(Wait(retry), retry + 1)
    case SendFail => Transition(Wait(retry), retry + 1)
    case Subscribed(_) => Transition(Wait(retry), 0)
  }

  /** The count after passes `trace`, starting from `retry`, by folding `Step`. */
  function RetryFrom(retry: nat, trace: seq<Attempt>): nat
    decreases |trace|
  {
    if trace == [] then retry else RetryFrom(Step(retry, trace[0]).next, trace[1..])
  }

  /** Every pass of `trace` failed. */
  ghost predicate AllFailures(trace: seq<Attempt>) {
    forall i :: 0 <= i < |trace| ==> IsFailure(trace[i])
  }

  /** The number of failed passes since the last successful subscription. */
  function TrailingFailures(trace: seq<Attempt>): nat
    decreases |trace|
  {
    if trace == [] then 0
    else if IsFailure(trace[|trace| - 1]) then TrailingFailures(trace[..|trace| - 1]) + 1
    else 0
  }

  // ---------------------------------------------------------------------------
  // The wait schedule

  lemma {:induction false} Pow2Grows(m: nat, n: nat)
    requires m <= n
    ensures Pow2(m) <= Pow2(n)
    decreases n
  {
    if m < n {
      Pow2Grows(m, n - 1);
    }
  }

  /** The waits are 2, 4, 8 and 16 seconds for counts 1 to 4 and the cap from
      count 5 on. */
  lemma WaitSchedule(retry: nat)
    ensures Wait(0) == 0 && Wait(1) == 2 && Wait(2) == 4 && Wait(3) == 8 && Wait(4) == 16
    ensures retry >= 5 ==> Wait(retry) == CAP_SECONDS
  {
    if retry >= 5 {
      Pow2Grows(5, retry);
    }
  }

  /** More failures never shorten the wait. */
  lemma WaitMonotone(m: nat, n: nat)
    requires m <= n
    ensures Wait(m) <= Wait(n)
  {
    Pow2Grows(m, n);
  }

  /** The source's wait agrees with the intended one below 64 failures. */
  lemma WaitAsWrittenBelow64(retry: nat)
    requires retry < 64
    ensures WaitAsWritten(retry) == Wait(retry)
  {
  }

  /** From 64 consecutive failures on, the shift amount wraps: at count 64
      the source waits one second where the cap of thirty was meant, and the
      counts after it climb through 2, 4, 8 and 16 seconds before reaching the
      cap again. */
  lemma WaitAsWrittenWrapsAt64()
    ensures WaitAsWritten(64) == 1
    ensures WaitAsWritten(65) == 2 && WaitAsWritten(66) == 4 && WaitAsWritten(67) == 8 && WaitAsWritten(68) == 16
    ensures WaitAsWritten(69) == CAP_SECONDS
    ensures Wait(64) == CAP_SECONDS
  {
    WaitSchedule(64);
    assert WaitAsWritten(69) == Wait(5) by {
      WaitSchedule(5);
    }
  }

  /** The wait as written repeats with a period of 64: every count that is a
      positive multiple of 64 waits one second, and every other count waits
      the intended wait of its remainder modulo 64. */
  lemma WaitAsWrittenPeriodic(retry: nat)
    requires retry > 0
    ensures retry % 64 == 0 ==> WaitAsWritten(retry) == 1
    ensures retry % 64 != 0 ==> WaitAsWritten(retry) == Wait(retry % 64)
  {
  }

  // ---------------------------------------------------------------------------
  // The retry count

  /** One pass waits `Wait` of its starting count; a failure adds one to the
      count, a sent subscription resets it, and the pass after a session
      therefore reconnects at once. */
  lemma StepFacts(retry: nat, a: Attempt, b: Attempt)
    ensures Step(retry, a).wait == Wait(retry)
    ensures IsFailure(a) ==> Step(retry, a).next == retry + 1
    ensures a.Subscribed? ==> Step(retry, a).next == 0 && Step(Step(retry, a).next, b).wait == 0
  {
  }

  /** Prepending a pass to a trace: it adds to the trailing failures only
      when everything after it failed too. */
  lemma {:induction false} TrailingFailuresCons(a: Attempt, rest: seq<Attempt>)
    ensures AllFailures(rest) ==> TrailingFailures(rest) == |rest|
    ensures TrailingFailures([a] + rest) ==
      TrailingFailures(rest) + (if AllFailures(rest) && IsFailure(a) then 1 else 0)
    decreases |rest|
  {
    var whole := [a] + rest;
    if rest == [] {
      assert whole[..0] == [];
    } else {
      var init := rest[..|rest| - 1];
      TrailingFailuresCons(a, init);
      assert whole[..|whole| - 1] == [a] + init;
      assert AllFailures(rest) ==> AllFailures(init) by {
        if AllFailures(rest) {
          forall i | 0 <= i < |init| ensures IsFailure(init[i]) {
            assert init[i] == rest[i];
          }
        }
      }
      if IsFailure(rest[|rest| - 1]) && !AllFailures(rest) {
        var i :| 0 <= i < |rest| && !IsFailure(rest[i]);
        assert init[i] == rest[i];
      }
    }
  }

  /** Folding the transition over a trace leaves the number of failures since
      the last sent subscription, plus the starting count when there was
      none. */
  lemma {:induction false} RetryFromCounts(retry: nat, trace: seq<Attempt>)
    ensures RetryFrom(retry, trace) ==
      (if AllFailures(trace) then retry else 0) + TrailingFailures(trace)
    decreases |trace|
  {
    if trace != [] {
      var a, rest := trace[0], trace[1..];
      assert trace == [a] + rest;
      RetryFromCounts(Step(retry, a).next, rest);
      TrailingFailuresCons(a, rest);
      assert AllFailures(trace) <==> IsFailure(a) && AllFailures(rest) by {
        if IsFailure(a) && AllFailures(rest) {
          forall i | 0 <= i < |trace| ensures IsFailure(trace[i]) {
            if i > 0 {
              assert trace[i] == rest[i - 1];
            }
          }
        }
        if AllFailures(trace) {
          forall i | 0 <= i < |rest| ensures IsFailure(rest[i]) {
            assert rest[i] == trace[i + 1];
          }
        }
      }
    }
  }

  /** The outer loop over a finite run of passes: the wait slept before each
      pass and the count after the last one. Each wait is the backoff for the
      failures since the last sent subscription; the count is that number. */
  method Run(trace: seq<Attempt>) returns (waits: seq<nat>, retry: nat)
    ensures |waits| == |trace|
    ensures retry == TrailingFailures(trace) == RetryFrom(0, trace)
    ensures forall k :: 0 <= k < |trace| ==> waits[k] == Wait(TrailingFailures(trace[..k]))
  {
    retry := 0;
    waits := [];
    var i := 0;
    while i < |trace|
      invariant 0 <= i <= |trace|
      invariant |waits| == i
      invariant retry == TrailingFailures(trace[..i])
      invariant forall k :: 0 <= k < i ==> waits[k] == Wait(TrailingFailures(trace[..k]))
    {
      var wait := 0;
      if retry > 0 {
        wait := Min(Pow2(retry), CAP_SECONDS);
      }
      waits := waits + [wait];
      match trace[i] {
        case ConnectFail => retry := retry + 1;
        case SendFail => retry := retry + 1;
        case Subscribed(_) => retry := 0;
      }
      assert trace[..i + 1][..i] == trace[..i];
      i := i + 1;
    }
    assert trace[..|trace|] == trace;
    RetryFromCounts(0, trace);
  }

  /** Two failed connections: the first attempt does not wait, the second
      waits two seconds, the third four; a sent subscription then brings the
      count back to zero. */
  lemma TwoConnectFailures(exit: StreamExit)
    ensures var trace := [ConnectFail, ConnectFail, Subscribed(exit)];
      && Wait(TrailingFailures(trace[..0])) == 0
      && Wait(TrailingFailures(trace[..1])) == 2
      && Wait(TrailingFailures(trace[..2])) == 4
      && TrailingFailures(trace) == 0
  {
    var trace := [ConnectFail, ConnectFail, Subscribed(exit)];
    assert trace[..1][..0] == [];
    assert trace[..2][..1] == trace[..1];
  }
}
