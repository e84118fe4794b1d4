/** The interview timer component: a count of elapsed seconds that an
    interval advances once per second while the timer runs, reporting each
    new value to the `onTick` callback, and its display as `hh:mm:ss`.

    The one-second interval itself is not modelled: `Tick` is the interval's
    callback, and it can only be called while an interval is scheduled. */
module Timer {
  import opened Options
  import opened JsText

  // ---------------------------------------------------------------------
  // The display.

  /** `Math.floor(elapsed / 3600)`. */
  function Hours(elapsed: nat): nat { elapsed / 3600 }

  /** `Math.floor((elapsed % 3600) / 60)`. */
  function Minutes(elapsed: nat): nat { (elapsed % 3600) / 60 }

  /** `elapsed % 60`. */
  function Seconds(elapsed: nat): nat { elapsed % 60 }

  /** Division by 60 is determined by any split into a multiple of 60 and
      a remainder below 60. */
  lemma DivModSixty(e: nat, q: nat, s: nat)
    requires e == q * 60 + s && s < 60
    ensures e / 60 == q && e % 60 == s
  {
  }

  /** The three fields split `elapsed` exactly: minutes and seconds stay
      below 60, and hours, minutes and seconds add back up to `elapsed`. */
  lemma ClockFields(elapsed: nat)
    ensures Minutes(elapsed) < 60 && Seconds(elapsed) < 60
    ensures Hours(elapsed) * 3600 + Minutes(elapsed) * 60 + Seconds(elapsed) == elapsed
  {
    var h, r := elapsed / 3600, elapsed % 3600;
    var m, s := r / 60, r % 60;
    assert r == m * 60 + s;
    assert elapsed == (h * 60 + m) * 60 + s;
    DivModSixty(elapsed, h * 60 + m, s);
  }

  /** `String(n).padStart(2, '0')`. */
  function Pad2(n: nat): string {
    PadStart(DecimalString(n), 2, '0')
  }

  /** Padding to two characters with `0`. */
  lemma PadToTwo(d: string)
    requires |d| >= 1
    ensures |d| == 1 ==> PadStart(d, 2, '0') == "0" + d
    ensures |d| >= 2 ==> PadStart(d, 2, '0') == d
  {
    if |d| == 1 {
      assert PadStart(d, 2, '0') == PadStart(['0'] + d, 2, '0');
    }
  }

  /** A number from 10 to 99 has two digits. */
  lemma TwoDigits(n: nat)
    requires 10 <= n < 100
    ensures |DecimalString(n)| == 2
  {
    assert DecimalString(n) == DecimalString(n / 10) + [DigitChar(n % 10)];
  }

  /** A padded field has at least two characters, all digits, and ends with
      the whole decimal text of `n`: padding never truncates. A number below
      100 gives exactly two characters. */
  lemma Pad2Shape(n: nat)
    ensures var r := Pad2(n);
      |r| >= 2 && AllDigits(r) && r[|r| - |DecimalString(n)|..] == DecimalString(n)
    ensures n < 100 ==> |Pad2(n)| == 2
    ensures Pad2(n) == if n < 10 then "0" + DecimalString(n) else DecimalString(n)
  {
    var d := DecimalString(n);
    PadToTwo(d);
    if 10 <= n < 100 {
      TwoDigits(n);
    }
  }

  /** A number below 100 pads to exactly two characters. */
  lemma Pad2Width(n: nat)
    requires n < 100
    ensures |Pad2(n)| == 2
  {
    Pad2Shape(n);
  }

  /** Reading back a padded field gives its number. */
  lemma Pad2RoundTrip(n: nat)
    ensures AllDigits(Pad2(n)) && DecimalValue(Pad2(n)) == n
  {
    Pad2Shape(n);
    DecimalRoundTrip(n);
    if n < 10 {
      LeadingZeroIgnored(DecimalString(n));
    }
  }

  /** The text the component renders. */
  function Display(elapsed: nat): string {
    Pad2(Hours(elapsed)) + ":" + Pad2(Minutes(elapsed)) + ":" + Pad2(Seconds(elapsed))
  }

  /** The seconds a rendered `hh:mm:ss` text stands for, reading minutes and
      seconds from the last five characters and hours from the rest, which
      may be longer than two digits. */
  function ClockValue(text: string): (r: Option<nat>) {
    var n := |text|;
    if n < 8 || text[n - 6] != ':' || text[n - 3] != ':' then None
    else
      var hh, mm, ss := text[..n - 6], text[n - 5..n - 3], text[n - 2..];
      if AllDigits(hh) && AllDigits(mm) && AllDigits(ss) then
        Some(DecimalValue(hh) * 3600 + DecimalValue(mm) * 60 + DecimalValue(ss))
      else None
  }

  /** A text whose last six characters are `:mm:ss` reads as its three
      fields. */
  lemma ClockValueOfFields(t: string, hh: string, mm: string, ss: string, h: nat, m: nat, s: nat, v: nat)
    requires |t| >= 8 && t[|t| - 6] == ':' && t[|t| - 3] == ':'
    requires t[..|t| - 6] == hh && t[|t| - 5..|t| - 3] == mm && t[|t| - 2..] == ss
    requires AllDigits(hh) && AllDigits(mm) && AllDigits(ss)
    requires DecimalValue(hh) == h && DecimalValue(mm) == m && DecimalValue(ss) == s
    requires v == h * 3600 + m * 60 + s
    ensures ClockValue(t) == Some(v)
  {
  }

  /** Where three fields joined by `:` sit when the last two have two
      characters each. */
  lemma ClockLayout(hh: string, mm: string, ss: string)
    requires |mm| == 2 && |ss| == 2
    ensures var t := hh + ":" + mm + ":" + ss;
      && |t| == |hh| + 6
      && t[|t| - 6] == ':' && t[|t| - 3] == ':'
      && t[..|t| - 6] == hh && t[|t| - 5..|t| - 3] == mm && t[|t| - 2..] == ss
  {
  }

  /** Where the fields sit in the display: minutes and seconds take the last
      five characters with their separators, hours the rest. */
  lemma DisplayFields(elapsed: nat)
    ensures var t := Display(elapsed);
      && |t| == |Pad2(Hours(elapsed))| + 6
      && t[|t| - 6] == ':' && t[|t| - 3] == ':'
      && t[..|t| - 6] == Pad2(Hours(elapsed))
      && t[|t| - 5..|t| - 3] == Pad2(Minutes(elapsed))
      && t[|t| - 2..] == Pad2(Seconds(elapsed))
  {
    var m, sec := Minutes(elapsed), Seconds(elapsed);
    assert m < 60 && sec < 60;
    Pad2Width(m);
    Pad2Width(sec);
    ClockLayout(Pad2(Hours(elapsed)), Pad2(Minutes(elapsed)), Pad2(Seconds(elapsed)));
  }

  /** The display loses nothing: reading it back gives `elapsed`, so two
      different elapsed times never show the same text. */
  lemma DisplayRoundTrip(elapsed: nat)
    ensures ClockValue(Display(elapsed)) == Some(elapsed)
  {
    var h, m, s := Hours(elapsed), Minutes(elapsed), Seconds(elapsed);
    ClockFields(elapsed);
    Pad2Shape(h);
    Pad2RoundTrip(h);
    Pad2RoundTrip(m);
    Pad2RoundTrip(s);
    DisplayFields(elapsed);
    ClockValueOfFields(Display(elapsed), Pad2(h), Pad2(m), Pad2(s), h, m, s, elapsed);
  }

  /** The display of `elapsed` has `hh` of at least two digits, then
      exactly two digits each for minutes and seconds. */
  lemma DisplayWidth(elapsed: nat)
    ensures |Display(elapsed)| == |Pad2(Hours(elapsed))| + 6 >= 8
    ensures elapsed < 360000 ==> |Display(elapsed)| == 8
  {
    ClockFields(elapsed);
    Pad2Shape(Hours(elapsed));
    Pad2Shape(Minutes(elapsed));
    Pad2Shape(Seconds(elapsed));
  }

  // ---------------------------------------------------------------------
  // The component's state.

  /** The values `1, 2, ..., n`: what `onTick` has received after `n`
      ticks. */
  function Counting(n: nat): (r: seq<nat>)
    ensures |r| == n
    ensures forall k :: 0 <= k < n ==> r[k] == k + 1
  {
    if n == 0 then [] else Counting(n - 1) + [n]
  }

  class TimerState {
    /** `elapsed`, in whole seconds. */
    var elapsed: nat
    /** The `isRunning` prop the last effect saw. */
    var running: bool
    /** Whether `intervalRef.current` holds an interval that is not cleared. */
    var intervalActive: bool
    /** The values passed to `onTick`, in order. */
    var reported: seq<nat>
    /** Whether an `onTick` callback was given. */
    const hasOnTick: bool

    /** An interval is scheduled exactly while the timer runs, and `onTick`,
        when given, has seen every value `elapsed` took, in order. */
    ghost predicate Valid()
      reads this
    {
      && intervalActive == running
      && reported == (if hasOnTick then Counting(elapsed) else [])
    }

    /** Mounting: `elapsed` starts at 0, and the effect schedules an
        interval when the timer is running. */
    constructor(isRunning: bool, hasOnTick: bool)
      ensures Valid()
      ensures elapsed == 0 && running == isRunning && intervalActive == isRunning && reported == []
      ensures this.hasOnTick == hasOnTick
    {
      elapsed := 0;
      running := isRunning;
      intervalActive := isRunning;
      reported := [];
      this.hasOnTick := hasOnTick;
    }

    /** The interval callback: `elapsed` goes up by exactly one, and the new
        value is passed to `onTick` when there is one. It only fires while
        an interval is scheduled, that is while the timer runs. */
    method Tick()
      requires Valid() && intervalActive
      modifies this
      ensures Valid()
      ensures elapsed == old(elapsed) + 1
      ensures reported == old(reported) + (if hasOnTick then [elapsed] else [])
      ensures running == old(running) && intervalActive == old(intervalActive)
    {
      var next := elapsed + 1;
      if hasOnTick {
        reported := reported + [next];
      }
      elapsed := next;
    }

    /** A new `isRunning` value. The effect re-runs only when the value
        changes: its cleanup clears the interval, and a new interval is
        scheduled when the timer runs again. `elapsed` is never reset. */
    method SetRunning(isRunning: bool)
      requires Valid()
      modifies this
      ensures Valid()
      ensures running == isRunning && intervalActive == isRunning
      ensures elapsed == old(elapsed) && reported == old(reported)
    {
      if isRunning != running {
        intervalActive := false;
        running := isRunning;
        if isRunning {
          intervalActive := true;
        }
      }
    }

    /** Unmounting: the cleanup clears the interval. */
    method Unmount()
      requires Valid()
      modifies this
      ensures !intervalActive
      ensures elapsed == old(elapsed) && reported == old(reported) && running == old(running)
    {
      intervalActive := false;
    }

    /** The rendered text. */
    function Text(): string
      reads this
    {
      Display(elapsed)
    }
  }
}
