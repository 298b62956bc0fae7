/**
 * The expiry arithmetic of the stored one-time-password flow
 * (`src/lib/otpStorage.ts`): whether the code has expired, how many whole
 * seconds it has left, and the `m:ss` form the debug helper prints. The
 * current time `Date.now()` is the parameter `now`, in milliseconds.
 */
module OtpStorage {
  import opened Wrappers
  import opened TimeFormat

  datatype Step = EmailStep | OtpStep

  /** What is kept in extension storage while a code is outstanding; `timestamp` is when it was sent, in milliseconds. */
  datatype OtpFlowState = OtpFlowState(email: string, step: Step, timestamp: int, expiryMinutes: int)

  /** The lifetime of a code, in milliseconds. */
  function MaxAgeMillis(state: OtpFlowState): int {
    state.expiryMinutes * 60 * 1000
  }

  /**
   * `isExpired`: at least the lifetime has passed since the code was sent.
   * With integer milliseconds this is the same as the whole seconds elapsed
   * reaching the lifetime in seconds, the unit the countdown uses.
   */
  function IsExpired(state: OtpFlowState, now: int): (b: bool)
    ensures b <==> ElapsedSeconds(state, now) >= state.expiryMinutes * 60
  {
    FloorDivBound(now - state.timestamp, state.expiryMinutes * 60);
    now - state.timestamp >= MaxAgeMillis(state)
  }

  /** `Math.floor((now - timestamp) / 1000)`; Dafny's `/` over a positive divisor rounds down, as `Math.floor` does. */
  function ElapsedSeconds(state: OtpFlowState, now: int): int {
    (now - state.timestamp) / 1000
  }

  /** `getRemainingTime`: the whole seconds of lifetime left, never below zero. */
  function RemainingTime(state: OtpFlowState, now: int): (r: int)
    ensures r >= 0
    ensures r > 0 ==> r == state.expiryMinutes * 60 - ElapsedSeconds(state, now)
  {
    var remaining := state.expiryMinutes * 60 - ElapsedSeconds(state, now);
    if remaining >= 0 then remaining else 0
  }

  /** Just after the code is sent the whole lifetime is left. */
  lemma RemainingAtStart(state: OtpFlowState)
    requires state.expiryMinutes >= 0
    ensures RemainingTime(state, state.timestamp) == state.expiryMinutes * 60
  {
  }

  /** The remaining time never grows as time passes. */
  lemma RemainingNonIncreasing(state: OtpFlowState, now1: int, now2: int)
    requires now1 <= now2
    ensures RemainingTime(state, now2) <= RemainingTime(state, now1)
  {
    MonotoneDivision(now1 - state.timestamp, now2 - state.timestamp);
  }

  lemma MonotoneDivision(a: int, b: int)
    requires a <= b
    ensures a / 1000 <= b / 1000
  {
  }

  /** `floor(d / 1000) >= n` exactly when `d >= 1000 * n`. */
  lemma FloorDivBound(d: int, n: int)
    ensures d / 1000 >= n <==> d >= n * 1000
  {
    var q, r := d / 1000, d % 1000;
    assert d == q * 1000 + r && 0 <= r < 1000;
    if q >= n {
      assert q * 1000 >= n * 1000;
    }
    if d >= n * 1000 {
      assert q * 1000 + r >= n * 1000;
      assert (q - n) * 1000 > -1000;
    }
  }

  /**
   * With integer milliseconds the two views agree: no time is left exactly
   * when the code has expired, which the login form relies on when it
   * restores an outstanding code.
   */
  lemma RemainingZeroIffExpired(state: OtpFlowState, now: int)
    ensures RemainingTime(state, now) == 0 <==> IsExpired(state, now)
  {
    FloorDivBound(now - state.timestamp, state.expiryMinutes * 60);
  }

  /** Waiting `n` more seconds takes `n` seconds off the remaining time, down to zero. */
  lemma RemainingAfter(state: OtpFlowState, now: int, n: nat)
    ensures RemainingTime(state, now + 1000 * n) == Max0(RemainingTime(state, now) - n)
  {
    assert (now + 1000 * n - state.timestamp) / 1000 == (now - state.timestamp) / 1000 + n by {
      DivShift(now - state.timestamp, n);
    }
  }

  lemma DivShift(d: int, n: nat)
    ensures (d + 1000 * n) / 1000 == d / 1000 + n
  {
    var q, r := d / 1000, d % 1000;
    assert d + 1000 * n == (q + n) * 1000 + r && 0 <= r < 1000;
  }

  function Max0(x: int): (r: int)
    ensures r >= 0 && r >= x && (r == 0 || r == x)
  {
    if x >= 0 then x else 0
  }

  /** The `remainingTime` field `debug` prints: the remaining time as `m:ss`. */
  function DebugRemainingTime(state: OtpFlowState, now: int): (s: string)
    ensures ParseMinSec(s) == Some(RemainingTime(state, now))
  {
    MinSec(RemainingTime(state, now))
  }
}
