/**
 * The one-time-password entry widget (`src/components/OtpInput.tsx`) as a
 * state machine: a fixed number of slots, each empty or holding one digit,
 * edited one slot at a time, cleared by backspace, filled at once by a paste
 * and reset by a resend, next to a countdown of the code's remaining seconds.
 *
 * The component's React state (`otp`, `timeLeft`, `canResend`) is the
 * object's fields; its props `otpLength` and `expiryMinutes` are constants.
 * A call of `onComplete(code)` is the `Some(code)` a handler returns.
 */
module OtpInputs {
  import opened Wrappers
  import opened TimeFormat
  import opened OtpStorage

  /** The props' defaults. */
  const DefaultOtpLength: nat := 6
  const DefaultExpiryMinutes: int := 60

  /** A slot's content: empty, or one decimal digit. */
  predicate IsSlot(s: string) {
    s == "" || (|s| == 1 && IsDigit(s[0]))
  }

  /** `/^\d$/.test(value)`: exactly one ASCII digit. */
  predicate IsSingleDigit(value: string) {
    |value| == 1 && IsDigit(value[0])
  }

  predicate AllFilled(otp: seq<string>) {
    forall i :: 0 <= i < |otp| ==> otp[i] != ""
  }

  /** `otp.join('')`. */
  function Join(otp: seq<string>): string {
    if otp == [] then "" else Join(otp[..|otp| - 1]) + otp[|otp| - 1]
  }

  /** `pasted.split('')`: one slot per character. */
  function Split(s: string): (otp: seq<string>)
    ensures |otp| == |s| && forall i :: 0 <= i < |s| ==> otp[i] == [s[i]]
  {
    seq(|s|, i requires 0 <= i < |s| => [s[i]])
  }

  /** `new Array(n).fill('')`. */
  function Blank(n: nat): (otp: seq<string>)
    ensures |otp| == n && forall i :: 0 <= i < n ==> otp[i] == ""
  {
    seq(n, _ => "")
  }

  /** `text.replace(/\D/g, '')`: the digits of `text`, in order. */
  function DigitsOnly(text: string): (r: string)
    ensures |r| <= |text| && AllDigits(r)
  {
    if text == [] then ""
    else DigitsOnly(text[..|text| - 1]) + (if IsDigit(text[|text| - 1]) then [text[|text| - 1]] else "")
  }

  /** Stripping non-digits from a string of digits changes nothing. */
  lemma {:induction false} DigitsOnlyOfDigits(text: string)
    requires AllDigits(text)
    decreases |text|
    ensures DigitsOnly(text) == text
  {
    if text != [] {
      var init := text[..|text| - 1];
      assert AllDigits(init) by {
        assert forall i :: 0 <= i < |init| ==> init[i] == text[i];
      }
      DigitsOnlyOfDigits(init);
      assert text == init + [text[|text| - 1]];
    }
  }

  /** Stripping non-digits commutes with concatenation. */
  lemma {:induction false} DigitsOnlyConcat(a: string, b: string)
    decreases |b|
    ensures DigitsOnly(a + b) == DigitsOnly(a) + DigitsOnly(b)
  {
    if b == [] {
      assert a + b == a;
    } else {
      var init := b[..|b| - 1];
      DigitsOnlyConcat(a, init);
      assert (a + b)[..|a + b| - 1] == a + init;
      assert (a + b)[|a + b| - 1] == b[|b| - 1];
    }
  }

  /** Joining the slots of a split string gives the string back. */
  lemma {:induction false} JoinSplit(s: string)
    decreases |s|
    ensures Join(Split(s)) == s
  {
    if s != [] {
      var init := s[..|s| - 1];
      JoinSplit(init);
      assert Split(s)[..|s| - 1] == Split(init);
      assert s == init + [s[|s| - 1]];
    }
  }

  /** With every slot empty or one digit, the joined code has one digit per filled slot, so it is `|otp|` long exactly when every slot is filled. */
  lemma {:induction false} JoinLength(otp: seq<string>)
    requires forall i :: 0 <= i < |otp| ==> IsSlot(otp[i])
    decreases |otp|
    ensures |Join(otp)| <= |otp|
    ensures |Join(otp)| == |otp| <==> AllFilled(otp)
    ensures AllDigits(Join(otp))
  {
    if otp != [] {
      var init := otp[..|otp| - 1];
      assert forall i :: 0 <= i < |init| ==> init[i] == otp[i];
      JoinLength(init);
      var j := Join(otp);
      assert j == Join(init) + otp[|otp| - 1];
      assert forall i :: 0 <= i < |Join(init)| ==> j[i] == Join(init)[i];
      if AllFilled(otp) {
        assert AllFilled(init);
      }
      if |j| == |otp| {
        forall i | 0 <= i < |otp|
          ensures otp[i] != ""
        {
          if i < |init| {
            assert otp[i] == init[i];
          }
        }
      }
    }
  }

  /** `getInitialTimeLeft`: with a (truthy) send time, the code's remaining seconds; otherwise the full lifetime. */
  function InitialTimeLeft(expiryMinutes: int, startTime: Option<int>, now: int): (t: int)
    ensures startTime.Some? && startTime.value != 0 ==> t >= 0
    ensures startTime.None? || startTime.value == 0 ==> t == expiryMinutes * 60
  {
    if startTime.Some? && startTime.value != 0 then
      var elapsed := (now - startTime.value) / 1000;
      var remaining := expiryMinutes * 60 - elapsed;
      if remaining >= 0 then remaining else 0
    else expiryMinutes * 60
  }

  /** For a restored flow the initial countdown is the stored flow's remaining time. */
  lemma InitialIsRemaining(expiryMinutes: int, startTime: int, now: int, email: string)
    requires startTime != 0
    ensures InitialTimeLeft(expiryMinutes, Some(startTime), now) ==
            RemainingTime(OtpFlowState(email, OtpStep, startTime, expiryMinutes), now)
  {
  }

  /** The countdown interval's update of `timeLeft`. */
  function Ticked(timeLeft: int): (t: nat)
    ensures timeLeft <= 1 ==> t == 0
    ensures timeLeft > 1 ==> t == timeLeft - 1
  {
    if timeLeft <= 1 then 0 else timeLeft - 1
  }

  /** `timeLeft` after `n` ticks. */
  function TickedTimes(timeLeft: int, n: nat): int {
    if n == 0 then timeLeft else Ticked(TickedTimes(timeLeft, n - 1))
  }

  /** From a non-negative value, `n` ticks take `n` seconds off, down to zero. */
  lemma {:induction false} TickedTimesValue(timeLeft: nat, n: nat)
    decreases n
    ensures TickedTimes(timeLeft, n) == Max0(timeLeft - n)
  {
    if n > 0 {
      TickedTimesValue(timeLeft, n - 1);
    }
  }

  /**
   * The widget's countdown and the stored flow agree: `n` ticks after a
   * restored start, `timeLeft` is the flow's remaining time `n` seconds later.
   */
  lemma CountdownMatchesStorage(expiryMinutes: int, startTime: int, now: int, n: nat, email: string)
    requires startTime != 0
    ensures var flow := OtpFlowState(email, OtpStep, startTime, expiryMinutes);
      TickedTimes(InitialTimeLeft(expiryMinutes, Some(startTime), now), n) == RemainingTime(flow, now + 1000 * n)
  {
    var flow := OtpFlowState(email, OtpStep, startTime, expiryMinutes);
    InitialIsRemaining(expiryMinutes, startTime, now, email);
    TickedTimesValue(RemainingTime(flow, now), n);
    RemainingAfter(flow, now, n);
  }

  class OtpInput {
    const otpLength: nat
    const expiryMinutes: int
    var otp: seq<string>
    var timeLeft: int
    var canResend: bool

    /** There are `otpLength` slots, each empty or one digit. */
    ghost predicate Valid()
      reads this
    {
      |otp| == otpLength && forall i :: 0 <= i < |otp| ==> IsSlot(otp[i])
    }

    /**
     * The widget once mounted: blank slots, the initial countdown, and resend
     * offered at once when no time is left.
     */
    constructor (otpLength: nat, expiryMinutes: int, startTime: Option<int>, now: int)
      ensures Valid()
      ensures this.otpLength == otpLength && this.expiryMinutes == expiryMinutes
      ensures otp == Blank(otpLength)
      ensures timeLeft == InitialTimeLeft(expiryMinutes, startTime, now)
      ensures canResend == (timeLeft <= 0)
    {
      this.otpLength := otpLength;
      this.expiryMinutes := expiryMinutes;
      otp := Blank(otpLength);
      var t := InitialTimeLeft(expiryMinutes, startTime, now);
      timeLeft := t;
      canResend := t <= 0;
    }

    /** The effect run when the e-mail or the timing props change: blank slots and a fresh countdown. */
    method Reset(startTime: Option<int>, now: int)
      modifies this
      ensures Valid()
      ensures otp == Blank(otpLength)
      ensures timeLeft == InitialTimeLeft(expiryMinutes, startTime, now)
      ensures canResend == (timeLeft <= 0)
    {
      otp := Blank(otpLength);
      var t := InitialTimeLeft(expiryMinutes, startTime, now);
      timeLeft := t;
      canResend := t <= 0;
    }

    /**
     * `handleChange(index, value)`: a value that is neither empty nor one
     * digit is ignored; otherwise it becomes slot `index`, and the code is
     * complete (and handed to `onComplete`) when every slot is filled and
     * the joined digits are `otpLength` long.
     */
    method HandleChange(index: nat, value: string) returns (completed: Option<string>)
      requires Valid() && index < otpLength
      modifies this
      ensures Valid()
      ensures timeLeft == old(timeLeft) && canResend == old(canResend)
      ensures value != "" && !IsSingleDigit(value) ==> otp == old(otp) && completed.None?
      ensures value == "" || IsSingleDigit(value) ==> otp == old(otp)[index := value]
      ensures completed.Some? <==>
                (value == "" || IsSingleDigit(value)) && AllFilled(otp) && |Join(otp)| == otpLength
      ensures completed.Some? ==> completed.value == Join(otp)
    {
      completed := None;
      if value != "" && !IsSingleDigit(value) {
        return;
      }
      var newOtp := otp;
      newOtp := newOtp[index := value];
      otp := newOtp;
      if AllFilled(newOtp) && |Join(newOtp)| == otpLength {
        completed := Some(Join(newOtp));
      }
    }

    /**
     * `handleKeyDown(index, key)`: backspace clears a filled slot, or else the
     * slot before it; at an empty first slot, or for any other key, nothing changes.
     */
    method HandleKeyDown(index: nat, key: string)
      requires Valid() && index < otpLength
      modifies this
      ensures Valid()
      ensures timeLeft == old(timeLeft) && canResend == old(canResend)
      ensures key == "Backspace" && old(otp)[index] != "" ==> otp == old(otp)[index := ""]
      ensures key == "Backspace" && old(otp)[index] == "" && index > 0 ==> otp == old(otp)[index - 1 := ""]
      ensures key != "Backspace" || (old(otp)[index] == "" && index == 0) ==> otp == old(otp)
    {
      if key == "Backspace" {
        if otp[index] != "" {
          var newOtp := otp;
          newOtp := newOtp[index := ""];
          otp := newOtp;
        } else if index > 0 {
          var newOtp := otp;
          newOtp := newOtp[index - 1 := ""];
          otp := newOtp;
        }
      }
    }

    /**
     * `handlePaste(text)`: the digits of the pasted text fill the slots when
     * there are exactly `otpLength` of them, and are handed to `onComplete`;
     * otherwise nothing changes.
     */
    method HandlePaste(text: string) returns (completed: Option<string>)
      requires Valid()
      modifies this
      ensures Valid()
      ensures timeLeft == old(timeLeft) && canResend == old(canResend)
      ensures |DigitsOnly(text)| == otpLength ==> otp == Split(DigitsOnly(text)) && completed == Some(DigitsOnly(text))
      ensures |DigitsOnly(text)| != otpLength ==> otp == old(otp) && completed.None?
    {
      var pastedData := DigitsOnly(text);
      completed := None;
      if |pastedData| == otpLength {
        otp := Split(pastedData);
        completed := Some(pastedData);
      }
    }

    /** `handleResend`: blank slots, the full lifetime again, and no resend until it runs out. */
    method HandleResend()
      requires Valid()
      modifies this
      ensures Valid()
      ensures otp == Blank(otpLength) && timeLeft == expiryMinutes * 60 && !canResend
    {
      otp := Blank(otpLength);
      timeLeft := expiryMinutes * 60;
      canResend := false;
    }

    /** One second of the countdown: at 1 or below it stops at 0 and offers a resend. */
    method Tick()
      requires Valid()
      modifies this
      ensures Valid()
      ensures otp == old(otp)
      ensures timeLeft == Ticked(old(timeLeft)) && timeLeft >= 0
      ensures canResend == (old(canResend) || old(timeLeft) <= 1)
    {
      if timeLeft <= 1 {
        canResend := true;
        timeLeft := 0;
      } else {
        timeLeft := timeLeft - 1;
      }
    }

    /** The countdown effect when no time is left: it offers a resend instead of starting an interval. */
    method CountdownExpired()
      requires Valid()
      modifies this
      ensures Valid()
      ensures otp == old(otp) && timeLeft == old(timeLeft)
      ensures canResend == (old(canResend) || timeLeft <= 0)
    {
      if timeLeft <= 0 {
        canResend := true;
      }
    }
  }

  /** A pasted code fills the slots with its digits in order: joining them gives the code back. */
  lemma PasteRoundTrip(text: string)
    ensures Join(Split(DigitsOnly(text))) == DigitsOnly(text)
    ensures forall i :: 0 <= i < |DigitsOnly(text)| ==> IsSlot(Split(DigitsOnly(text))[i])
  {
    JoinSplit(DigitsOnly(text));
  }
}
