/** The statistics manager's arithmetic: the session clock (start, stop, reset
    and the elapsed time it reports), the `MM:SS` timer text, the stability and
    consistency scores, and the one-line text of an anomaly log entry. */
module Statistics {
  import opened Common
  import opened NumText
  import opened Config
  import opened Detector

  // ---------------------------------------------------------------------
  // Rounding and JavaScript arithmetic

  /** `Math.round(x)`: the nearest integer, halves rounded up. */
  function Round(x: real): (r: int)
    ensures r as real - 0.5 <= x < r as real + 0.5
  {
    (x + 0.5).Floor
  }

  function Abs(x: int): nat { if x < 0 then -x else x }

  /** JavaScript's `a % b` for `b > 0`: the remainder takes the sign of `a`. */
  function JsRem(a: int, b: int): (r: int)
    requires b > 0
    ensures a >= 0 ==> 0 <= r < b && r == a % b
    ensures a < 0 ==> -b < r <= 0
  {
    if a >= 0 then a % b else -((-a) % b)
  }

  // ---------------------------------------------------------------------
  // Session clock

  /** `null` in arithmetic counts as 0. */
  function OrZero(t: Option<int>): int
  {
    if t.Some? then t.value else 0
  }

  class StatisticsManager {
    var startTime: Option<int>
    var endTime: Option<int>
    var isRunning: bool

    constructor()
      ensures startTime == None && endTime == None && !isRunning
    {
      startTime := None;
      endTime := None;
      isRunning := false;
    }

    /** Starts a session at `now`: the end time is cleared. */
    method Start(now: int)
      modifies this
      ensures startTime == Some(now) && endTime == None && isRunning
    {
      startTime := Some(now);
      endTime := None;
      isRunning := true;
    }

    /** Ends the session at `now`; the start time stays. */
    method Stop(now: int)
      modifies this
      ensures endTime == Some(now) && !isRunning && startTime == old(startTime)
    {
      endTime := Some(now);
      isRunning := false;
    }

    method Reset()
      modifies this
      ensures startTime == None && endTime == None && !isRunning
    {
      startTime := None;
      endTime := None;
      isRunning := false;
    }

    /** The elapsed time `updateTimer` shows: up to `now` while running, up to
        the end time once stopped. */
    function Elapsed(now: int): (e: int)
      reads this
      ensures isRunning && startTime.Some? ==> e == now - startTime.value
      ensures !isRunning && startTime.Some? && endTime.Some? ==> e == endTime.value - startTime.value
      ensures !isRunning && startTime.None? && endTime.None? ==> e == 0
    {
      if isRunning then now - OrZero(startTime) else OrZero(endTime) - OrZero(startTime)
    }
  }

  /** A started-then-stopped session reports its own length, whatever the time now. */
  method SessionLength(t0: int, t1: int, now: int) returns (e: int)
    ensures e == t1 - t0
  {
    var m := new StatisticsManager();
    m.Start(t0);
    m.Stop(t1);
    e := m.Elapsed(now);
  }

  // ---------------------------------------------------------------------
  // Timer text

  /** Whole seconds, minutes and the seconds shown after the colon. */
  function TimerSeconds(elapsed: int): int { elapsed / 1000 }

  function TimerMinutes(elapsed: int): int { TimerSeconds(elapsed) / 60 }

  function TimerRemainder(elapsed: int): int { JsRem(TimerSeconds(elapsed), 60) }

  /** `MM:SS`, each part padded to two characters with zeros. */
  function TimerText(elapsed: int): string
  {
    Pad2(IntToString(TimerMinutes(elapsed))) + ":" + Pad2(IntToString(TimerRemainder(elapsed)))
  }

  /** For a non-negative elapsed time the minutes and remainder split the whole
      seconds exactly, with the remainder below 60. */
  lemma TimerArithmetic(elapsed: int)
    requires elapsed >= 0
    ensures TimerSeconds(elapsed) >= 0 && TimerMinutes(elapsed) >= 0
    ensures TimerMinutes(elapsed) * 60 + TimerRemainder(elapsed) == TimerSeconds(elapsed)
    ensures 0 <= TimerRemainder(elapsed) < 60
    ensures TimerSeconds(elapsed) * 1000 <= elapsed < TimerSeconds(elapsed) * 1000 + 1000
  {
  }

  /** Two digits for a number below 100, zero-padded, read back as that number. */
  lemma {:induction false} TwoDigits(n: nat)
    requires n < 100
    ensures |Pad2(NatToString(n))| == 2
    ensures AllDigits(Pad2(NatToString(n)))
    ensures ParseNat(Pad2(NatToString(n))) == n
  {
    var s := NatToString(n);
    ParseNatToString(n);
    if n < 10 {
      var p := Pad2(s);
      assert p == ['0', DigitChar(n)];
      assert p[..1] == ['0'];
      assert ParseNat(['0']) == 0 by {
        assert ['0'][..0] == [];
      }
      DigitRoundTrip(n);
    } else {
      assert NatToString(n / 10) == [DigitChar(n / 10)];
    }
  }

  /** Two numbers below 100, each padded to two digits and joined by a colon,
      read back field by field. */
  lemma TwoFieldsRoundTrip(a: nat, b: nat)
    requires a < 100 && b < 100
    ensures var t := Pad2(IntToString(a)) + ":" + Pad2(IntToString(b));
      && |t| == 5 && t[2] == ':'
      && AllDigits(t[..2]) && AllDigits(t[3..])
      && ParseNat(t[..2]) == a && ParseNat(t[3..]) == b
  {
    TwoDigits(a);
    TwoDigits(b);
    var mm := Pad2(NatToString(a));
    var ss := Pad2(NatToString(b));
    assert IntToString(a) == NatToString(a) && IntToString(b) == NatToString(b);
    var t := mm + ":" + ss;
    assert t[..2] == mm;
    assert t[3..] == ss;
  }

  /** Below 100 minutes the text is five characters, `MM:SS`, and the two
      fields read back as the minutes and the remainder. */
  lemma TimerTextRoundTrip(elapsed: int)
    requires 0 <= elapsed < 6000000
    ensures var t := TimerText(elapsed);
      && |t| == 5 && t[2] == ':'
      && AllDigits(t[..2]) && AllDigits(t[3..])
      && ParseNat(t[..2]) == TimerMinutes(elapsed)
      && ParseNat(t[3..]) == TimerRemainder(elapsed)
  {
    TimerArithmetic(elapsed);
    TwoFieldsRoundTrip(TimerMinutes(elapsed), TimerRemainder(elapsed));
  }

  lemma TimerExamples()
    ensures TimerText(0) == "00:00"
    ensures TimerText(65000) == "01:05"
  {
    assert NatToString(0) == "0";
    assert NatToString(1) == "1";
    assert NatToString(5) == "5";
  }

  // ---------------------------------------------------------------------
  // Performance scores

  /** 100 with no clicks, else `round(max(0, 100 - anomalous / total * 200))`. */
  function CalculateStability(st: Stats): (r: int)
    ensures st.total == 0 ==> r == 100
    ensures 0 <= r
    ensures st.total > 0 ==> r <= 100
  {
    if st.total == 0 then 100
    else Round(RealMax(0.0, 100.0 - (st.anomalous as real / st.total as real) * 200.0))
  }

  /** Stability stays at 100 while at most one click in 400 is anomalous (the
      rounding absorbs the rest), and is 0 once at least half of them are. */
  lemma StabilityBounds(st: Stats)
    requires st.total > 0
    ensures CalculateStability(st) == 100 <==> 400 * st.anomalous <= st.total
    ensures st.anomalous == 0 ==> CalculateStability(st) == 100
    ensures 2 * st.anomalous >= st.total ==> CalculateStability(st) == 0
  {
    StabilityOfRatio(st.anomalous as real / st.total as real);
    RatioThresholds(st.anomalous, st.total);
  }

  lemma StabilityOfRatio(q: real)
    requires q >= 0.0
    ensures Round(RealMax(0.0, 100.0 - q * 200.0)) == 100 <==> q <= 0.0025
    ensures q >= 0.5 ==> Round(RealMax(0.0, 100.0 - q * 200.0)) == 0
  {
  }

  lemma RatioThresholds(a: nat, t: nat)
    requires t > 0
    ensures a as real / t as real <= 0.0025 <==> 400 * a <= t
    ensures 2 * a >= t ==> a as real / t as real >= 0.5
  {
    var q := a as real / t as real;
    assert q * t as real == a as real;
    RatioBelow(q, a as real, t as real, 400.0);
    RatioBelow(q, a as real, t as real, 2.0);
  }

  /** 100 when the average is 0, else `round(max(0, 100 - |max - min| / average * 100))`,
      with a missing bound taken as 0. */
  function CalculateConsistency(s: IntervalStats): (r: int)
    ensures s.average == 0 ==> r == 100
    ensures 0 <= r
    ensures s.average > 0 ==> r <= 100
  {
    if s.average == 0 then 100
    else
      var variance := Abs(OrZero(s.max) - OrZero(s.min));
      Round(RealMax(0.0, 100.0 - (variance as real / s.average as real) * 100.0))
  }

  /** Equal bounds give full consistency; a spread of at least the (positive)
      average gives none. */
  lemma ConsistencyBounds(s: IntervalStats)
    ensures s.min == s.max ==> CalculateConsistency(s) == 100
    ensures s.average > 0 && Abs(OrZero(s.max) - OrZero(s.min)) >= s.average ==> CalculateConsistency(s) == 0
  {
    if s.average > 0 && Abs(OrZero(s.max) - OrZero(s.min)) >= s.average {
      var v := Abs(OrZero(s.max) - OrZero(s.min)) as real;
      var a := s.average as real;
      var q := v / a;
      assert q * a == v;
      RatioBelow(q, v, a, 1.0);
    }
  }

  /** A negative average (intervals go negative when a click's time is before
      the previous one's) passes the `!average` guard, and the score is then
      at least 100, and can exceed it. */
  lemma ConsistencyNegativeAverage(s: IntervalStats)
    requires s.average < 0
    ensures CalculateConsistency(s) >= 100
    ensures CalculateConsistency(IntervalStats(-10, Some(-20), Some(0), Some(0))) == 300
  {
    var v := Abs(OrZero(s.max) - OrZero(s.min)) as real;
    var a := s.average as real;
    var q := v / a;
    assert q * a == v;
    assert q <= 0.0;
    assert (20 as real / -10 as real) == -2.0;
  }

  /** On the detector's own interval statistics the bounds are present exactly
      when there is an interval to average. */
  lemma ConsistencyOfHistory(history: seq<ClickRecord>)
    ensures Intervals(history) == [] ==> CalculateConsistency(IntervalStatsOf(history)) == 100
    ensures Intervals(history) != [] && SeqMin(Intervals(history)) == SeqMax(Intervals(history))
            ==> CalculateConsistency(IntervalStatsOf(history)) == 100
  {
    if Intervals(history) != [] {
      ConsistencyBounds(IntervalStatsOf(history));
    }
  }

  // ---------------------------------------------------------------------
  // Anomaly details text

  /** A nullable number as a template literal prints it. */
  function NullableText(v: Option<int>): string
  {
    if v.Some? then IntToString(v.value) else "null"
  }

  /** The `interval`, `window`, `threshold` and `count` fields of the details
      object, as the template prints them; a field the object lacks prints as
      `undefined`. */
  function IntervalField(d: Details): string
  {
    match d
    case IntervalWindow(i, _) => NullableText(i)
    case IntervalThreshold(i, _) => NullableText(i)
    case CountWindow(_, _) => "undefined"
  }

  function WindowField(d: Details): string
  {
    match d
    case IntervalWindow(_, w) => IntToString(w)
    case IntervalThreshold(_, _) => "undefined"
    case CountWindow(_, w) => IntToString(w)
  }

  function ThresholdField(d: Details): string
  {
    if d.IntervalThreshold? then IntToString(d.threshold) else "undefined"
  }

  function CountField(d: Details): string
  {
    if d.CountWindow? then IntToString(d.count) else "undefined"
  }

  /** The one-line text of a log entry, chosen by its kind. `None` stands for the
      fallback that serialises the details object, which only a timeout entry reaches. */
  function FormatAnomalyDetails(e: AnomalyEvent): (r: Option<string>)
    ensures r.None? <==> e.kind == Timeout
  {
    match e.kind
    case Duplicate => Some("間隔: " + IntervalField(e.details) + "ms (< " + WindowField(e.details) + "ms)")
    case Interval => Some("間隔: " + IntervalField(e.details) + "ms (< " + ThresholdField(e.details) + "ms)")
    case Burst => Some("連擊次數: " + CountField(e.details) + " (在 " + WindowField(e.details) + "ms 內)")
    case Timeout => None
  }

  /** Decimal text is never one of the words a template prints for a missing
      value. */
  lemma NumberTextIsNoWord(i: int)
    ensures IntToString(i) != "undefined" && IntToString(i) != "null"
  {
    var s := IntToString(i);
    assert s[0] == '-' || IsDigit(s[0]);
  }

  /** The text of an entry a rule logs (for duplicate and interval entries
      there was a previous click, as the rules require): the interval since
      that click with the duplicate window or the interval threshold, or the
      number of clicks in the burst with the burst window, each printed as a
      number, so no field of a logged entry prints as `undefined` or `null`. */
  lemma LoggedEntryText(kind: AnomalyType, cfg: DetectionConfig, history: seq<ClickRecord>, last: Option<int>, timestamp: int)
    requires kind != Timeout
    requires kind != Burst ==> last.Some?
    ensures var text := FormatAnomalyDetails(EventFor(kind, cfg, history, last, timestamp));
      && (kind == Duplicate ==> text == Some("間隔: " + IntToString(timestamp - last.value) + "ms (< " + IntToString(cfg.duplicateWindow) + "ms)"))
      && (kind == Interval ==> text == Some("間隔: " + IntToString(timestamp - last.value) + "ms (< " + IntToString(cfg.intervalThreshold) + "ms)"))
      && (kind == Burst ==> text == Some("連擊次數: " + IntToString(RecentCount(cfg, history, timestamp) + 1) + " (在 " + IntToString(cfg.burstWindow) + "ms 內)"))
  {
  }

  /** A template with one varying field determines that field. */
  lemma TemplateUnique(p: string, a: string, b: string, q: string, w: string, r: string)
    requires p + a + q + w + r == p + b + q + w + r
    ensures a == b
  {
    var ta := p + a + q + w + r;
    var tb := p + b + q + w + r;
    assert |a| == |b|;
    assert ta == p + (a + (q + w + r));
    assert tb == p + (b + (q + w + r));
    assert ta[|p|..|p| + |a|] == a;
    assert tb[|p|..|p| + |b|] == b;
  }

  /** Different nullable numbers print differently. */
  lemma NullableTextInjective(u: Option<int>, v: Option<int>)
    requires NullableText(u) == NullableText(v)
    ensures u == v
  {
    if u.Some? && v.Some? {
      IntToStringInjective(u.value, v.value);
    }
  }

  /** The text of a duplicate entry determines its interval, for a fixed window. */
  lemma DuplicateTextIdentifiesInterval(e1: AnomalyEvent, e2: AnomalyEvent)
    requires e1.kind == Duplicate && e2.kind == Duplicate
    requires e1.details.IntervalWindow? && e2.details.IntervalWindow? && e1.details.window == e2.details.window
    requires FormatAnomalyDetails(e1) == FormatAnomalyDetails(e2)
    ensures e1.details.interval == e2.details.interval
  {
    TemplateUnique("間隔: ", IntervalField(e1.details), IntervalField(e2.details), "ms (< ", WindowField(e1.details), "ms)");
    NullableTextInjective(e1.details.interval, e2.details.interval);
  }

  /** The text of an interval entry determines its interval, for a fixed threshold. */
  lemma IntervalTextIdentifiesInterval(e1: AnomalyEvent, e2: AnomalyEvent)
    requires e1.kind == Interval && e2.kind == Interval
    requires e1.details.IntervalThreshold? && e2.details.IntervalThreshold? && e1.details.threshold == e2.details.threshold
    requires FormatAnomalyDetails(e1) == FormatAnomalyDetails(e2)
    ensures e1.details.interval == e2.details.interval
  {
    TemplateUnique("間隔: ", IntervalField(e1.details), IntervalField(e2.details), "ms (< ", ThresholdField(e1.details), "ms)");
    NullableTextInjective(e1.details.interval, e2.details.interval);
  }

  /** The text of a burst entry determines its count, for a fixed window. */
  lemma BurstTextIdentifiesCount(e1: AnomalyEvent, e2: AnomalyEvent)
    requires e1.kind == Burst && e2.kind == Burst
    requires e1.details.CountWindow? && e2.details.CountWindow? && e1.details.window == e2.details.window
    requires FormatAnomalyDetails(e1) == FormatAnomalyDetails(e2)
    ensures e1.details.count == e2.details.count
  {
    TemplateUnique("連擊次數: ", CountField(e1.details), CountField(e2.details), " (在 ", WindowField(e1.details), "ms 內)");
    IntToStringInjective(e1.details.count, e2.details.count);
  }

  lemma NumberTexts()
    ensures IntToString(30) == "30" && IntToString(50) == "50"
  {
    assert NatToString(3) == "3";
    assert NatToString(5) == "5";
    assert NatToString(0) == "0";
  }

  lemma FormatExample()
    ensures FormatAnomalyDetails(AnomalyEvent(Duplicate, 1030, IntervalWindow(Some(30), 50), "重複點擊"))
            == Some("間隔: 30ms (< 50ms)")
    ensures FormatAnomalyDetails(AnomalyEvent(Interval, 1030, IntervalThreshold(None, 50), "間隔異常"))
            == Some("間隔: nullms (< 50ms)")
  {
    NumberTexts();
    assert "間隔: " + "30" + "ms (< " + "50" + "ms)" == "間隔: 30ms (< 50ms)";
    assert "間隔: " + "null" + "ms (< " + "50" + "ms)" == "間隔: nullms (< 50ms)";
  }
}
