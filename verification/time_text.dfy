/**
 * The `MM:SS` clock text. The status bar (src/pomodoroTimer.ts), the
 * showTimer dialog (src/extension.ts) and the side panel (media/script.js)
 * each compute it the same way: minutes by floor division by 60, seconds by
 * JavaScript's `%`, each padded to two characters with `'0'`.
 */
module TimeText {
  import opened Wrappers
  import opened JsText

  /** `MM:SS`: floored minutes and JavaScript-remainder seconds, each padded to two characters. */
  function FormatTime(seconds: int): string
  {
    PadStart2(NumberToString(FloorDiv(seconds, 60))) + ":" + PadStart2(NumberToString(TruncRem(seconds, 60)))
  }

  /** Reads a clock text back into seconds: `parseInt` of each side of the first colon. */
  function ReadClock(text: string): Option<int>
  {
    var colon := IndexOf(text, ':');
    if colon.None? then None else ReadClockAt(text, colon.value)
  }

  function ReadClockAt(text: string, k: nat): Option<int>
    requires k < |text|
  {
    var minutes := ParseIntIn(text, 0, k);
    var seconds := ParseIntIn(text, k + 1, |text|);
    if minutes.Some? && seconds.Some? then Some(minutes.value * 60 + seconds.value) else None
  }

  /** A padded run of decimal digits holds no colon. */
  lemma {:induction false} PaddedDigitsHaveNoColon(n: nat)
    ensures ':' !in PadStart2(NatToString(n))
  {
    var s := NatToString(n);
    var p := PadStart2(s);
    forall i | 0 <= i < |p| ensures p[i] != ':' {
      if i < |p| - |s| {
        assert p[i] == '0';
      } else {
        assert p[i] == p[|p| - |s|..][i - (|p| - |s|)];
      }
    }
  }

  /** A single digit padded with a leading `'0'` parses back to itself. */
  lemma {:induction false} ParsePaddedDigitIn(s: string, lo: nat, n: nat)
    requires n < 10 && lo + 2 <= |s|
    requires s[lo] == '0' && s[lo + 1] == DigitChar(n)
    ensures ParseIntIn(s, lo, lo + 2) == Some(n as int)
  {
    assert DigitsBetween(s, lo, lo + 2, 10);
    assert ValueBetween(s, lo, lo + 1, 10) == 0;
    ParseIntOfDigitsIn(s, lo, lo + 2, lo + 2);
  }

  /** A zero-padded natural number that fills the window `s[lo..hi]` parses back to itself. */
  lemma {:induction false} ParsePaddedIn(s: string, lo: nat, hi: nat, n: nat)
    requires hi == lo + |PadStart2(NatToString(n))| <= |s|
    requires s[lo..hi] == PadStart2(NatToString(n))
    ensures ParseIntIn(s, lo, hi) == Some(n as int)
  {
    var d := NatToString(n);
    if n < 10 {
      assert d == [DigitChar(n)];
      assert PadStart2(d) == ['0', DigitChar(n)];
      assert s[lo] == s[lo..lo + 2][0];
      assert s[lo + 1] == s[lo..lo + 2][1];
      ParsePaddedDigitIn(s, lo, n);
    } else {
      assert |d| >= 2 by {
        assert d == NatToString(n / 10) + [DigitChar(n % 10)];
      }
      assert PadStart2(d) == d;
      ParseIntOfNatIn(s, lo, hi, n);
    }
  }

  /** A clock text reads back from its two `parseInt` windows around the first colon. */
  lemma {:induction false} ReadClockOfWindows(text: string, k: nat, a: int, b: int)
    requires k < |text| && text[k] == ':' && ':' !in text[..k]
    requires ParseIntIn(text, 0, k) == Some(a)
    requires ParseIntIn(text, k + 1, |text|) == Some(b)
    ensures ReadClock(text) == Some(a * 60 + b)
  {
    IndexOfFirst(text, ':', k);
    assert ReadClockAt(text, k) == Some(a * 60 + b);
  }

  /** The minutes part of a padded clock text parses to the minutes. */
  lemma {:induction false} MinutesOfParts(text: string, m: nat)
    requires var mm := PadStart2(NatToString(m));
      |mm| < |text| && text[..|mm|] == mm
    ensures ParseIntIn(text, 0, |PadStart2(NatToString(m))|) == Some(m as int)
    ensures ':' !in text[..|PadStart2(NatToString(m))|]
  {
    var mm := PadStart2(NatToString(m));
    assert text[0..|mm|] == mm;
    PaddedDigitsHaveNoColon(m);
    ParsePaddedIn(text, 0, |mm|, m);
  }

  /** The seconds part of a padded clock text parses to the seconds. */
  lemma {:induction false} SecondsOfParts(text: string, k: nat, sec: nat)
    requires var ss := PadStart2(NatToString(sec));
      |text| == k + 1 + |ss| && text[k + 1..] == ss
    ensures ParseIntIn(text, k + 1, |text|) == Some(sec as int)
  {
    assert text[k + 1..|text|] == text[k + 1..];
    ParsePaddedIn(text, k + 1, |text|, sec);
  }

  /** For a non-negative time the clock text is padded minutes, a colon and padded seconds. */
  lemma {:induction false} FormatTimeOfNatural(seconds: int)
    requires seconds >= 0
    ensures FormatTime(seconds) == PadStart2(NatToString(seconds / 60)) + ":" + PadStart2(NatToString(seconds % 60))
  {
    assert FloorDiv(seconds, 60) == seconds / 60;
    assert TruncRem(seconds, 60) == seconds % 60;
  }

  /** The pieces of `a + ":" + b` are found again by slicing. */
  lemma {:induction false} ColonJoinSlices(a: string, b: string)
    ensures var t := a + ":" + b;
      |t| == |a| + 1 + |b| && t[..|a|] == a && t[|a|] == ':' && t[|a| + 1..] == b
  {
  }

  /** A clock text made of two padded naturals reads back as minutes and seconds. */
  lemma {:induction false} ReadClockOfParts(text: string, m: nat, sec: nat)
    requires text == PadStart2(NatToString(m)) + ":" + PadStart2(NatToString(sec))
    ensures ReadClock(text) == Some(m * 60 + sec)
  {
    var k := |PadStart2(NatToString(m))|;
    ColonJoinSlices(PadStart2(NatToString(m)), PadStart2(NatToString(sec)));
    MinutesOfParts(text, m);
    SecondsOfParts(text, k, sec);
    ReadClockOfWindows(text, k, m, sec);
  }

  /** For a non-negative time, the clock text reads back as the same number of seconds. */
  lemma {:induction false} FormatTimeReadsBack(seconds: int)
    requires seconds >= 0
    ensures ReadClock(FormatTime(seconds)) == Some(seconds)
  {
    var m: nat := seconds / 60;
    var sec: nat := seconds % 60;
    FormatTimeOfNatural(seconds);
    ReadClockOfParts(FormatTime(seconds), m, sec);
    assert ReadClock(FormatTime(seconds)) == Some(m * 60 + sec);
    assert m * 60 + sec == seconds;
  }

  /** Below 100 minutes the clock text is exactly five characters with the colon in the middle. */
  lemma {:induction false} FormatTimeShape(seconds: int)
    requires 0 <= seconds < 6000
    ensures |FormatTime(seconds)| == 5 && FormatTime(seconds)[2] == ':'
  {
    var m: nat := seconds / 60;
    var s: nat := seconds % 60;
    assert FloorDiv(seconds, 60) == m;
    assert TruncRem(seconds, 60) == s;
    assert |NatToString(m)| <= 2 by {
      if m >= 10 { assert NatToString(m) == NatToString(m / 10) + [DigitChar(m % 10)]; }
    }
    assert |NatToString(s)| <= 2 by {
      if s >= 10 { assert NatToString(s) == NatToString(s / 10) + [DigitChar(s % 10)]; }
    }
  }

  /**
   * A negative time (reachable when a prompt is pending and the timer is
   * paused and resumed) prints with a sign on both parts: one second past
   * zero shows as `-1:-1`, which reads back as -61 seconds.
   */
  lemma {:induction false} NegativeTimeText()
    ensures FormatTime(-1) == "-1:-1"
    ensures ReadClock(FormatTime(-1)) == Some(-61)
  {
    assert FloorDiv(-1, 60) == -1;
    assert TruncRem(-1, 60) == -1;
    assert NatToString(1) == "1";
    var text := "-1:-1";
    assert FormatTime(-1) == text;
    assert IndexOf(text, ':') == Some(2);
    assert text[0..2] == NumberToString(-1);
    ParseIntOfNumberIn(text, 0, 2, -1);
    assert text[3..5] == NumberToString(-1);
    ParseIntOfNumberIn(text, 3, 5, -1);
  }
}
