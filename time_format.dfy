/**
 * The `m:ss` rendering of a number of seconds used by the OTP countdown and
 * by the OTP storage's debug helper: the whole minutes (`Math.floor(s / 60)`),
 * a colon, and the seconds (`s % 60`) left-padded with `0` to two characters.
 */
module TimeFormat {
  import opened Wrappers
  import opened JsText

  predicate IsDigit(c: char) {
    '0' <= c <= '9'
  }

  predicate AllDigits(s: string) {
    forall i :: 0 <= i < |s| ==> IsDigit(s[i])
  }

  function DigitChar(d: nat): (c: char)
    requires d < 10
    ensures IsDigit(c)
  {
    ('0' as int + d) as char
  }

  /** `n.toString()` for a non-negative integer: its decimal digits, without leading zeros. */
  function Decimal(n: nat): (s: string)
    ensures |s| > 0 && AllDigits(s)
    ensures n < 10 <==> |s| == 1
    ensures 10 <= n < 100 <==> |s| == 2
  {
    if n < 10 then [DigitChar(n)] else Decimal(n / 10) + [DigitChar(n % 10)]
  }

  /** The number a string of decimal digits denotes. */
  function DigitsValue(s: string): nat
    requires AllDigits(s)
  {
    if s == [] then 0 else DigitsValue(s[..|s| - 1]) * 10 + (s[|s| - 1] as int - '0' as int)
  }

  /** Reading back the decimal digits of `n` gives `n`. */
  lemma {:induction false} DecimalRoundTrip(n: nat)
    decreases n
    ensures DigitsValue(Decimal(n)) == n
  {
    var s := Decimal(n);
    if n >= 10 {
      DecimalRoundTrip(n / 10);
      assert s[..|s| - 1] == Decimal(n / 10);
    }
  }

  /** `n.toString()` for any integer. */
  function IntString(n: int): string {
    if n < 0 then "-" + Decimal(-n) else Decimal(n)
  }

  /** `t.padStart(2, '0')`. */
  function PadStart2(t: string): string {
    if |t| >= 2 then t else seq(2 - |t|, _ => '0') + t
  }

  /** JavaScript's `%`, whose result takes the sign of the dividend. */
  function JsRemainder(a: int, b: int): (r: int)
    requires b > 0
    ensures a >= 0 ==> r == a % b
  {
    if a >= 0 then a % b else -((-a) % b)
  }

  /**
   * `` `${Math.floor(s / 60)}:${(s % 60).toString().padStart(2, '0')}` ``.
   * Every non-negative count of seconds is read back from its rendering.
   */
  function MinSec(seconds: int): (r: string)
    ensures seconds >= 0 ==> ParseMinSec(r) == Some(seconds)
  {
    var r := IntString(seconds / 60) + ":" + PadStart2(IntString(JsRemainder(seconds, 60)));
    if seconds < 0 then r
    else
      TwoDigits(seconds % 60);
      DecimalRoundTrip(seconds / 60);
      ParseJoined(Decimal(seconds / 60), PadStart2(IntString(seconds % 60)));
      r
  }

  /** Two decimal digits: the padded seconds field of `MinSec`. */
  lemma TwoDigits(k: nat)
    requires k < 60
    ensures var t := PadStart2(IntString(k));
      |t| == 2 && AllDigits(t) && DigitsValue(t) == k
  {
    var t := PadStart2(IntString(k));
    if k < 10 {
      assert t == ['0', DigitChar(k)];
      assert t[..1] == ['0'] && ['0'][..0] == [];
      assert DigitsValue(t[..1]) == 0;
      assert DigitsValue(t) == DigitsValue(t[..1]) * 10 + (DigitChar(k) as int - '0' as int);
    } else {
      DecimalRoundTrip(k);
    }
  }

  /**
   * For a non-negative count, `MinSec` is the decimal minutes, a colon and two
   * digits of seconds below 60, and minutes * 60 + seconds is the count.
   */
  lemma MinSecShape(seconds: nat)
    ensures var m, ss := Decimal(seconds / 60), PadStart2(IntString(seconds % 60));
      && MinSec(seconds) == m + ":" + ss
      && |ss| == 2 && AllDigits(ss) && DigitsValue(ss) < 60
      && DigitsValue(m) * 60 + DigitsValue(ss) == seconds
  {
    TwoDigits(seconds % 60);
    DecimalRoundTrip(seconds / 60);
  }

  /** Reads an `m:ss` string back: decimal minutes, a colon, two digits of seconds below 60. */
  function ParseMinSec(t: string): Option<nat> {
    var colon := IndexOf(t, ":", 0);
    if colon < 0 then None
    else
      var m, ss := t[..colon], t[colon + 1..];
      if m != [] && AllDigits(m) && |ss| == 2 && AllDigits(ss) && DigitsValue(ss) < 60
      then Some(DigitsValue(m) * 60 + DigitsValue(ss))
      else None
  }

  /** Minutes and a two-digit seconds field joined by a colon are read back as the two parts. */
  lemma ParseJoined(m: string, ss: string)
    requires m != [] && AllDigits(m) && |ss| == 2 && AllDigits(ss) && DigitsValue(ss) < 60
    ensures ParseMinSec(m + ":" + ss) == Some(DigitsValue(m) * 60 + DigitsValue(ss))
  {
    var t := m + ":" + ss;
    IndexOfSpec(t, ":", 0);
    assert t[|m|] == ':';
    MatchOneChar(t, ':', |m|);
    forall j | 0 <= j < |m|
      ensures !MatchAt(t, ":", j)
    {
      assert t[j] == m[j];
      MatchOneChar(t, ':', j);
    }
    var colon := IndexOf(t, ":", 0);
    assert colon == |m|;
    assert t[..colon] == m && t[colon + 1..] == ss;
  }

  lemma MatchOneChar(t: string, c: char, j: nat)
    requires j < |t|
    ensures MatchAt(t, [c], j) <==> t[j] == c
  {
    assert t[j..j + 1] == [t[j]];
  }
}
