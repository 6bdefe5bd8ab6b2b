/** The mouse-click anomaly detector: a bounded-memory state machine that
    classifies each click against three independent rules (duplicate, short
    interval, burst), keeps a capped click history and a capped anomaly log,
    and counts clicks by outcome. Read-only views (health score and band,
    interval statistics, recent anomalies, a down-sampled timeline) are
    derived from that state. */
module Detector {
  import opened Common
  import opened Config

  /** Most clicks the history keeps; the oldest is dropped first. */
  const HistoryCap: nat := 1000

  /** One processed click. `interval` is `None` for the first click after
      construction or reset; `anomalies` lists the triggered rules' tags. */
  datatype ClickRecord = ClickRecord(
    timestamp: int,
    x: int,
    y: int,
    button: int,
    interval: Option<int>,
    anomalies: seq<AnomalyType>)

  /** The kind-specific context logged with an anomaly. */
  datatype Details =
    | IntervalWindow(interval: Option<int>, window: int)
    | IntervalThreshold(interval: Option<int>, threshold: int)
    | CountWindow(count: int, window: int)

  datatype AnomalyEvent = AnomalyEvent(kind: AnomalyType, timestamp: int, details: Details, description: string)

  datatype Stats = Stats(
    total: nat,
    valid: nat,
    anomalous: nat,
    duplicates: nat,
    intervalAnomalies: nat,
    bursts: nat,
    timeouts: nat)

  const ZeroStats := Stats(0, 0, 0, 0, 0, 0, 0)

  /** The counters with the values derived from them on every read. */
  datatype StatsView = StatsView(counters: Stats, anomalyRate: real, healthScore: real, healthLevel: HealthBand)

  datatype IntervalStats = IntervalStats(average: int, min: Option<int>, max: Option<int>, current: Option<int>)

  datatype TimelinePoint = TimelinePoint(timestamp: int, interval: Option<int>, hasAnomaly: bool, anomalyTypes: seq<AnomalyType>)

  /** A partial configuration: `None` fields keep their current value. */
  datatype ConfigPatch = ConfigPatch(
    duplicateWindow: Option<int>,
    burstWindow: Option<int>,
    burstThreshold: Option<int>,
    intervalThreshold: Option<int>,
    normalIntervalMin: Option<int>,
    normalIntervalMax: Option<int>,
    longIntervalMax: Option<int>)

  const EmptyPatch := ConfigPatch(None, None, None, None, None, None, None)

  // ---------------------------------------------------------------------
  // Configuration merge

  /** A given value, else the fallback: a patch field over the current one,
      and `v || 0` for a coordinate or button the event may lack. */
  function Pick(patch: Option<int>, current: int): int
  {
    if patch.Some? then patch.value else current
  }

  /** `{ ...config, ...patch }`. */
  function MergeConfig(cfg: DetectionConfig, patch: ConfigPatch): DetectionConfig
  {
    DetectionConfig(
      Pick(patch.duplicateWindow, cfg.duplicateWindow),
      Pick(patch.burstWindow, cfg.burstWindow),
      Pick(patch.burstThreshold, cfg.burstThreshold),
      Pick(patch.intervalThreshold, cfg.intervalThreshold),
      Pick(patch.normalIntervalMin, cfg.normalIntervalMin),
      Pick(patch.normalIntervalMax, cfg.normalIntervalMax),
      Pick(patch.longIntervalMax, cfg.longIntervalMax))
  }

  /** Fields the patch gives win, fields it leaves out are kept, and applying
      the same patch twice changes nothing more. */
  lemma MergeConfigSpec(cfg: DetectionConfig, patch: ConfigPatch)
    ensures MergeConfig(cfg, EmptyPatch) == cfg
    ensures patch.duplicateWindow.Some? ==> MergeConfig(cfg, patch).duplicateWindow == patch.duplicateWindow.value
    ensures patch.duplicateWindow.None? ==> MergeConfig(cfg, patch).duplicateWindow == cfg.duplicateWindow
    ensures patch.burstWindow.Some? ==> MergeConfig(cfg, patch).burstWindow == patch.burstWindow.value
    ensures patch.burstWindow.None? ==> MergeConfig(cfg, patch).burstWindow == cfg.burstWindow
    ensures patch.burstThreshold.Some? ==> MergeConfig(cfg, patch).burstThreshold == patch.burstThreshold.value
    ensures patch.burstThreshold.None? ==> MergeConfig(cfg, patch).burstThreshold == cfg.burstThreshold
    ensures patch.intervalThreshold.Some? ==> MergeConfig(cfg, patch).intervalThreshold == patch.intervalThreshold.value
    ensures patch.intervalThreshold.None? ==> MergeConfig(cfg, patch).intervalThreshold == cfg.intervalThreshold
    ensures MergeConfig(MergeConfig(cfg, patch), patch) == MergeConfig(cfg, patch)
  {
  }

  // ---------------------------------------------------------------------
  // The rules, evaluated against the state before the click is recorded

  /** `clickEvent.timestamp || Date.now()`: a zero timestamp takes the clock's. */
  function EffectiveTimestamp(raw: int, clock: int): (t: int)
    ensures clock != 0 ==> t != 0
    ensures raw != 0 ==> t == raw
    ensures raw == 0 ==> t == clock
  {
    if raw != 0 then raw else clock
  }

  /** Milliseconds since the previous click; `None` when there was none. */
  function IntervalSince(last: Option<int>, timestamp: int): (r: Option<int>)
    ensures r.Some? <==> last.Some?
    ensures r.Some? ==> last.value + r.value == timestamp
  {
    if last.Some? then Some(timestamp - last.value) else None
  }

  predicate DetectDuplicateClicks(cfg: DetectionConfig, last: Option<int>, timestamp: int)
  {
    last.Some? && timestamp - last.value < cfg.duplicateWindow
  }

  predicate DetectIntervalAnomaly(cfg: DetectionConfig, interval: int)
  {
    interval < cfg.intervalThreshold
  }

  /** The burst filter: no lower bound, so a click later than `timestamp` passes too. */
  predicate InBurstWindow(cfg: DetectionConfig, click: ClickRecord, timestamp: int)
  {
    timestamp - click.timestamp <= cfg.burstWindow
  }

  /** Number of history entries that pass the burst filter. */
  function RecentCount(cfg: DetectionConfig, history: seq<ClickRecord>, timestamp: int): (n: nat)
    ensures n <= |history|
  {
    if history == [] then 0
    else
      RecentCount(cfg, history[..|history| - 1], timestamp)
      + (if InBurstWindow(cfg, history[|history| - 1], timestamp) then 1 else 0)
  }

  /** The count equals the number of history positions whose entry passes the filter. */
  lemma {:induction false} RecentCountIsCardinality(cfg: DetectionConfig, history: seq<ClickRecord>, timestamp: int)
    ensures RecentCount(cfg, history, timestamp)
            == |set i | 0 <= i < |history| && InBurstWindow(cfg, history[i], timestamp)|
  {
    if history != [] {
      var n := |history| - 1;
      var init := history[..n];
      RecentCountIsCardinality(cfg, init, timestamp);
      var before := set i | 0 <= i < n && InBurstWindow(cfg, init[i], timestamp);
      var after := set i | 0 <= i < |history| && InBurstWindow(cfg, history[i], timestamp);
      if InBurstWindow(cfg, history[n], timestamp) {
        assert after == before + {n};
        assert n !in before;
      } else {
        assert after == before;
      }
    }
  }

  predicate DetectBurstClicks(cfg: DetectionConfig, history: seq<ClickRecord>, timestamp: int)
  {
    RecentCount(cfg, history, timestamp) >= cfg.burstThreshold - 1
  }

  /** Clicks in the burst, counting the current one, which is not yet in the history. */
  function GetBurstCount(cfg: DetectionConfig, history: seq<ClickRecord>, timestamp: int): (c: int)
    ensures 1 <= c <= |history| + 1
    ensures DetectBurstClicks(cfg, history, timestamp) <==> c >= cfg.burstThreshold
  {
    RecentCount(cfg, history, timestamp) + 1
  }

  /** Tags are listed in the order the rules run: duplicate, interval, burst. */
  function RuleRank(t: AnomalyType): nat
  {
    match t
    case Duplicate => 0
    case Interval => 1
    case Burst => 2
    case Timeout => 3
  }

  predicate InRuleOrder(tags: seq<AnomalyType>)
  {
    forall i, j :: 0 <= i < j < |tags| ==> RuleRank(tags[i]) < RuleRank(tags[j])
  }

  /** The tags of the click at `timestamp`, given the state before it. */
  function DetectedTags(cfg: DetectionConfig, history: seq<ClickRecord>, last: Option<int>, timestamp: int): seq<AnomalyType>
  {
    var interval := IntervalSince(last, timestamp);
    var t1 := TagIf([], DetectDuplicateClicks(cfg, last, timestamp), Duplicate);
    var t2 := TagIf(t1, interval.Some? && DetectIntervalAnomaly(cfg, interval.value), Interval);
    TagIf(t2, DetectBurstClicks(cfg, history, timestamp), Burst)
  }

  /** `anomalies.push(t)` when a rule fires. */
  function TagIf(tags: seq<AnomalyType>, fires: bool, t: AnomalyType): seq<AnomalyType>
  {
    if fires then tags + [t] else tags
  }

  /** A click is tagged duplicate exactly when it follows the previous one by
      less than the duplicate window, interval exactly when by less than the
      interval threshold, burst exactly when at least `burstThreshold - 1`
      history entries pass the burst filter; never timeout; tags in rule order. */
  lemma DetectedTagsSpec(cfg: DetectionConfig, history: seq<ClickRecord>, last: Option<int>, timestamp: int)
    ensures var tags := DetectedTags(cfg, history, last, timestamp);
      && (Duplicate in tags <==> last.Some? && timestamp - last.value < cfg.duplicateWindow)
      && (Interval in tags <==> last.Some? && timestamp - last.value < cfg.intervalThreshold)
      && (Burst in tags <==> RecentCount(cfg, history, timestamp) >= cfg.burstThreshold - 1)
      && Timeout !in tags
      && InRuleOrder(tags)
  {
  }

  /** The entry `addAnomaly` logs, with its description from the table. */
  function NewAnomaly(kind: AnomalyType, timestamp: int, details: Details): AnomalyEvent
  {
    AnomalyEvent(kind, timestamp, details, Description(kind))
  }

  /** Duplicate and interval entries carry an interval, burst entries a count. */
  predicate WellFormedEvent(e: AnomalyEvent)
  {
    match e.kind
    case Duplicate => e.details.IntervalWindow?
    case Interval => e.details.IntervalThreshold?
    case Burst => e.details.CountWindow?
    case Timeout => true
  }

  /** The entry logged for one triggered rule. Duplicate and interval entries
      carry the click's interval (a number or `null`), burst entries the burst
      count including the current click. */
  function EventFor(kind: AnomalyType, cfg: DetectionConfig, history: seq<ClickRecord>, last: Option<int>, timestamp: int): (e: AnomalyEvent)
    requires kind != Timeout
    ensures e.kind == kind && e.timestamp == timestamp && e.description == Description(kind)
    ensures WellFormedEvent(e)
  {
    match kind
    case Duplicate => NewAnomaly(Duplicate, timestamp, IntervalWindow(IntervalSince(last, timestamp), cfg.duplicateWindow))
    case Interval => NewAnomaly(Interval, timestamp, IntervalThreshold(IntervalSince(last, timestamp), cfg.intervalThreshold))
    case Burst => NewAnomaly(Burst, timestamp, CountWindow(GetBurstCount(cfg, history, timestamp), cfg.burstWindow))
  }

  /** One log entry per tag, in tag order. */
  function EventsFor(tags: seq<AnomalyType>, cfg: DetectionConfig, history: seq<ClickRecord>, last: Option<int>, timestamp: int): seq<AnomalyEvent>
    requires Timeout !in tags
  {
    if tags == [] then []
    else EventsFor(tags[..|tags| - 1], cfg, history, last, timestamp) + [EventFor(tags[|tags| - 1], cfg, history, last, timestamp)]
  }

  lemma {:induction false} EventsForAt(tags: seq<AnomalyType>, cfg: DetectionConfig, history: seq<ClickRecord>, last: Option<int>, timestamp: int)
    requires Timeout !in tags
    ensures |EventsFor(tags, cfg, history, last, timestamp)| == |tags|
    ensures forall i :: 0 <= i < |tags| ==> EventsFor(tags, cfg, history, last, timestamp)[i] == EventFor(tags[i], cfg, history, last, timestamp)
  {
    if tags != [] {
      EventsForAt(tags[..|tags| - 1], cfg, history, last, timestamp);
    }
  }

  /** The log entries the click at `timestamp` produces, given the state before it. */
  function DetectedEvents(cfg: DetectionConfig, history: seq<ClickRecord>, last: Option<int>, timestamp: int): seq<AnomalyEvent>
  {
    DetectedTagsSpec(cfg, history, last, timestamp);
    EventsFor(DetectedTags(cfg, history, last, timestamp), cfg, history, last, timestamp)
  }

  /** One entry per tag, in order, stamped with the click's time; duplicate and
      interval entries hold the (present) interval and the threshold compared
      against, burst entries the count of recent clicks plus one. */
  lemma EventsForSpec(tags: seq<AnomalyType>, cfg: DetectionConfig, history: seq<ClickRecord>, last: Option<int>, timestamp: int)
    requires Timeout !in tags
    requires Duplicate in tags || Interval in tags ==> last.Some?
    ensures var evs := EventsFor(tags, cfg, history, last, timestamp);
      && |evs| == |tags|
      && forall i :: 0 <= i < |evs| ==>
        && evs[i].kind == tags[i]
        && evs[i].timestamp == timestamp
        && evs[i].description == Description(tags[i])
        && (tags[i] == Duplicate ==> last.Some? && evs[i].details == IntervalWindow(Some(timestamp - last.value), cfg.duplicateWindow))
        && (tags[i] == Interval ==> last.Some? && evs[i].details == IntervalThreshold(Some(timestamp - last.value), cfg.intervalThreshold))
        && (tags[i] == Burst ==> evs[i].details == CountWindow(RecentCount(cfg, history, timestamp) + 1, cfg.burstWindow))
  {
    var evs := EventsFor(tags, cfg, history, last, timestamp);
    EventsForAt(tags, cfg, history, last, timestamp);
    forall i | 0 <= i < |evs|
      ensures evs[i] == EventFor(tags[i], cfg, history, last, timestamp) && tags[i] in tags
    {
    }
  }

  /** The first click after construction or reset has no interval, so neither
      interval rule can fire on it. */
  lemma FirstClickHasNoIntervalTags(cfg: DetectionConfig, history: seq<ClickRecord>, timestamp: int)
    ensures IntervalSince(None, timestamp) == None
    ensures DetectedTags(cfg, history, None, timestamp) == if DetectBurstClicks(cfg, history, timestamp) then [Burst] else []
  {
  }

  /** With the default thresholds (both 50 ms) the duplicate and interval rules
      fire together or not at all. */
  lemma DefaultRulesAgree(history: seq<ClickRecord>, last: Option<int>, timestamp: int)
    ensures var tags := DetectedTags(DefaultDetection, history, last, timestamp);
      Duplicate in tags <==> Interval in tags
  {
  }

  // ---------------------------------------------------------------------
  // Capped FIFO append (`push` then `shift` when over the cap)

  function PushCapped<T>(s: seq<T>, x: T, cap: nat): seq<T>
  {
    var t := s + [x];
    if |t| > cap then t[1..] else t
  }

  /** On a sequence within its cap, push-then-shift keeps exactly the newest `cap` entries. */
  lemma PushCappedIsLastN<T>(s: seq<T>, x: T, cap: nat)
    requires |s| <= cap
    ensures PushCapped(s, x, cap) == LastN(s + [x], cap)
  {
  }

  // ---------------------------------------------------------------------
  // Counters

  function Bump(st: Stats, t: AnomalyType): Stats
  {
    match t
    case Duplicate => st.(duplicates := st.duplicates + 1)
    case Interval => st.(intervalAnomalies := st.intervalAnomalies + 1)
    case Burst => st.(bursts := st.bursts + 1)
    case Timeout => st.(timeouts := st.timeouts + 1)
  }

  /** The per-kind part of `updateStats`: one bump per tag, in order. */
  function AddTags(st: Stats, tags: seq<AnomalyType>): Stats
  {
    if tags == [] then st else Bump(AddTags(st, tags[..|tags| - 1]), tags[|tags| - 1])
  }

  /** `updateStats`: counts one click with the given tags. */
  function CountClick(st: Stats, tags: seq<AnomalyType>): Stats
  {
    var counted := st.(total := st.total + 1);
    if |tags| == 0 then counted.(valid := counted.valid + 1)
    else AddTags(counted.(anomalous := counted.anomalous + 1), tags)
  }

  lemma {:induction false} AddTagsCounts(st: Stats, tags: seq<AnomalyType>)
    ensures AddTags(st, tags) == Stats(
      st.total, st.valid, st.anomalous,
      st.duplicates + Count(tags, Duplicate),
      st.intervalAnomalies + Count(tags, Interval),
      st.bursts + Count(tags, Burst),
      st.timeouts + Count(tags, Timeout))
  {
    if tags != [] {
      AddTagsCounts(st, tags[..|tags| - 1]);
    }
  }

  /** A tag list in rule order names each kind at most once. */
  lemma InRuleOrderCount(tags: seq<AnomalyType>, k: AnomalyType)
    requires InRuleOrder(tags)
    ensures Count(tags, k) == if k in tags then 1 else 0
  {
    if k in tags {
      var n := |tags| - 1;
      if tags[n] == k {
        assert k !in tags[..n];
        CountAbsent(tags[..n], k);
      } else {
        assert InRuleOrder(tags[..n]);
        assert k in tags[..n];
        InRuleOrderCount(tags[..n], k);
      }
    } else {
      CountAbsent(tags, k);
    }
  }

  /** Counting a click whose tags came from the rules: the total goes up by one,
      exactly one of valid/anomalous goes up (anomalous iff there is a tag), each
      tag bumps its own counter once, and the timeout counter never moves. */
  lemma CountClickSpec(st: Stats, tags: seq<AnomalyType>)
    requires InRuleOrder(tags) && Timeout !in tags
    ensures var r := CountClick(st, tags);
      && r.total == st.total + 1
      && r.valid == st.valid + (if tags == [] then 1 else 0)
      && r.anomalous == st.anomalous + (if tags == [] then 0 else 1)
      && r.duplicates == st.duplicates + (if Duplicate in tags then 1 else 0)
      && r.intervalAnomalies == st.intervalAnomalies + (if Interval in tags then 1 else 0)
      && r.bursts == st.bursts + (if Burst in tags then 1 else 0)
      && r.timeouts == st.timeouts
  {
    if tags != [] {
      var counted := st.(total := st.total + 1).(anomalous := st.anomalous + 1);
      AddTagsCounts(counted, tags);
      InRuleOrderCount(tags, Duplicate);
      InRuleOrderCount(tags, Interval);
      InRuleOrderCount(tags, Burst);
      InRuleOrderCount(tags, Timeout);
    }
  }

  /** A record as the detector produces it. */
  predicate WellFormedRecord(r: ClickRecord)
  {
    r.timestamp != 0 && InRuleOrder(r.anomalies) && Timeout !in r.anomalies
  }

  /** The counters after a whole click stream, from zero. */
  function StatsOf(clicks: seq<ClickRecord>): Stats
  {
    if clicks == [] then ZeroStats
    else CountClick(StatsOf(clicks[..|clicks| - 1]), clicks[|clicks| - 1].anomalies)
  }

  /** The balance the counters keep over every stream of detector-made records:
      `total == valid + anomalous`, no timeouts, each per-kind counter at most
      `anomalous`, and every anomalous click counted by some kind. */
  predicate Balanced(st: Stats)
  {
    && st.total == st.valid + st.anomalous
    && st.timeouts == 0
    && st.duplicates <= st.anomalous
    && st.intervalAnomalies <= st.anomalous
    && st.bursts <= st.anomalous
    && st.anomalous <= st.duplicates + st.intervalAnomalies + st.bursts
  }

  lemma {:induction false} StatsOfBalanced(clicks: seq<ClickRecord>)
    requires forall i :: 0 <= i < |clicks| ==> WellFormedRecord(clicks[i])
    ensures Balanced(StatsOf(clicks))
    ensures StatsOf(clicks).total == |clicks|
  {
    if clicks != [] {
      var n := |clicks| - 1;
      StatsOfBalanced(clicks[..n]);
      var tags := clicks[n].anomalies;
      assert WellFormedRecord(clicks[n]);
      CountClickSpec(StatsOf(clicks[..n]), tags);
      if tags != [] {
        assert tags[0] in tags;
      }
    }
  }

  // ---------------------------------------------------------------------
  // Health

  /** Anomalous clicks as a percentage of all clicks (0 before any click). */
  function AnomalyRate(st: Stats): (r: real)
    ensures st.total == 0 ==> r == 0.0
    ensures st.anomalous <= st.total ==> 0.0 <= r <= 100.0
  {
    if st.total > 0 then (st.anomalous as real / st.total as real) * 100.0 else 0.0
  }

  function RealMin(a: real, b: real): real { if a <= b then a else b }

  function RealMax(a: real, b: real): real { if a >= b then a else b }

  /** Valid-click percentage minus 2 points per anomalous click (at most 50),
      clamped into [0, 100]; exactly 100 before any click. */
  function CalculateHealthScore(st: Stats): (r: real)
    ensures 0.0 <= r <= 100.0
    ensures st.total == 0 ==> r == 100.0
  {
    if st.total == 0 then 100.0
    else
      var validRate := (st.valid as real / st.total as real) * 100.0;
      var anomalyPenalty := Min(st.anomalous * 2, 50) as real;
      RealMax(0.0, RealMin(100.0, validRate - anomalyPenalty))
  }

  /** On balanced counters the score is perfect exactly when no click was anomalous. */
  lemma HealthScorePerfect(st: Stats)
    requires st.total == st.valid + st.anomalous
    ensures CalculateHealthScore(st) == 100.0 <==> st.anomalous == 0
  {
    if st.total > 0 {
      var q := st.valid as real / st.total as real;
      assert q * st.total as real == st.valid as real;
      RatioBelow(q, st.valid as real, st.total as real, 1.0);
    }
  }

  /** With the total held fixed, more anomalous clicks never raise the score. */
  lemma HealthScoreMonotone(total: nat, a1: nat, a2: nat)
    requires a1 <= a2 <= total
    ensures CalculateHealthScore(Stats(total, total - a1, a1, 0, 0, 0, 0))
            >= CalculateHealthScore(Stats(total, total - a2, a2, 0, 0, 0, 0))
  {
    if total > 0 {
      var t := total as real;
      assert (total - a1) as real >= (total - a2) as real;
      assert (total - a1) as real / t >= (total - a2) as real / t;
      assert Min(a1 * 2, 50) <= Min(a2 * 2, 50);
    }
  }

  /** The index of the first band whose minimum the score reaches. */
  function FirstBand(bands: seq<HealthBand>, score: real): (r: Option<nat>)
    ensures r.Some? ==> r.value < |bands| && bands[r.value].min as real <= score
    ensures r.Some? ==> forall j :: 0 <= j < r.value ==> score < bands[j].min as real
    ensures r.None? ==> forall j :: 0 <= j < |bands| ==> score < bands[j].min as real
  {
    if bands == [] then None
    else if score >= bands[0].min as real then Some(0)
    else match FirstBand(bands[1..], score)
      case None => None
      case Some(k) => Some(k + 1)
  }

  /** The health band of a score; `Bad` when no band matches. */
  function GetHealthLevel(score: real): (band: HealthBand)
    ensures band in HealthBands
    ensures score >= 0.0 ==> band.min as real <= score
  {
    match FirstBand(HealthBands, score)
    case Some(i) => HealthBands[i]
    case None => Bad
  }

  /** The band table: each score range gets its band. */
  lemma HealthLevelTable(score: real)
    ensures 95.0 <= score ==> GetHealthLevel(score) == Excellent
    ensures 85.0 <= score < 95.0 ==> GetHealthLevel(score) == Good
    ensures 70.0 <= score < 85.0 ==> GetHealthLevel(score) == Fair
    ensures 50.0 <= score < 70.0 ==> GetHealthLevel(score) == Poor
    ensures score < 50.0 ==> GetHealthLevel(score) == Bad
  {
    var r := FirstBand(HealthBands, score);
    if r.Some? {
      var k := r.value;
      assert HealthBands[k].min as real <= score;
      if k >= 1 { assert score < HealthBands[0].min as real; }
      if k >= 2 { assert score < HealthBands[1].min as real; }
      if k >= 3 { assert score < HealthBands[2].min as real; }
      if k >= 4 { assert score < HealthBands[3].min as real; }
    } else {
      assert score < HealthBands[4].min as real;
    }
  }

  // ---------------------------------------------------------------------
  // Interval statistics

  /** The present intervals of the history, in history order. */
  function Intervals(history: seq<ClickRecord>): (r: seq<int>)
    ensures |r| <= |history|
  {
    if history == [] then []
    else
      var last := history[|history| - 1];
      Intervals(history[..|history| - 1]) + (if last.interval.Some? then [last.interval.value] else [])
  }

  function Sum(s: seq<int>): int
  {
    if s == [] then 0 else Sum(s[..|s| - 1]) + s[|s| - 1]
  }

  function SeqMin(s: seq<int>): (m: int)
    requires s != []
    ensures m in s && forall i :: 0 <= i < |s| ==> m <= s[i]
  {
    if |s| == 1 then s[0] else Min(SeqMin(s[..|s| - 1]), s[|s| - 1])
  }

  function SeqMax(s: seq<int>): (m: int)
    requires s != []
    ensures m in s && forall i :: 0 <= i < |s| ==> s[i] <= m
  {
    if |s| == 1 then s[0] else Max(SeqMax(s[..|s| - 1]), s[|s| - 1])
  }

  /** `Math.round(sum / n)`: the nearest integer, halves rounded up. So
      `r - 1/2 <= sum / n < r + 1/2`. */
  function RoundedMean(sum: int, n: nat): (r: int)
    requires n > 0
    ensures 2 * n * r <= 2 * sum + n < 2 * n * r + 2 * n
  {
    (2 * sum + n) / (2 * n)
  }

  lemma {:induction false} SumBounds(s: seq<int>, lo: int, hi: int)
    requires forall i :: 0 <= i < |s| ==> lo <= s[i] <= hi
    ensures |s| * lo <= Sum(s) <= |s| * hi
  {
    if s != [] {
      SumBounds(s[..|s| - 1], lo, hi);
      assert |s| * lo == (|s| - 1) * lo + lo;
      assert |s| * hi == (|s| - 1) * hi + hi;
    }
  }

  /** A rounded mean lies between any bounds of the values it averages. */
  lemma RoundedMeanBetween(sum: int, n: nat, lo: int, hi: int)
    requires n > 0 && n * lo <= sum <= n * hi
    ensures lo <= RoundedMean(sum, n) <= hi
  {
    var r := RoundedMean(sum, n);
    assert 2 * n * lo == 2 * (n * lo) && 2 * n * hi == 2 * (n * hi);
    assert 2 * n * (r + 1) == 2 * n * r + 2 * n;
    assert 2 * n * (hi + 1) == 2 * n * hi + 2 * n;
    MulCancel(2 * n, lo, r + 1);
    MulCancel(2 * n, r, hi + 1);
  }

  /** Multiplying by a positive factor keeps a strict order, read backwards. */
  lemma MulCancel(k: nat, a: int, b: int)
    requires k > 0
    ensures k * a < k * b ==> a < b
  {
    if a >= b {
      MulMono(k, b, a);
    }
  }

  lemma MulMono(k: nat, a: int, b: int)
    requires a <= b
    ensures k * a <= k * b
  {
  }

  /** `getIntervalStats` over a history. */
  function IntervalStatsOf(history: seq<ClickRecord>): (r: IntervalStats)
    ensures Intervals(history) == [] ==> r == IntervalStats(0, None, None, None)
    ensures Intervals(history) != [] ==>
      && r.min.Some? && r.max.Some? && r.current.Some?
      && r.min.value <= r.average <= r.max.value
      && r.min.value in Intervals(history) && r.max.value in Intervals(history)
      && (forall i :: 0 <= i < |Intervals(history)| ==> r.min.value <= Intervals(history)[i] <= r.max.value)
      && 2 * |Intervals(history)| * r.average <= 2 * Sum(Intervals(history)) + |Intervals(history)|
      && 2 * Sum(Intervals(history)) + |Intervals(history)| < 2 * |Intervals(history)| * r.average + 2 * |Intervals(history)|
  {
    var intervals := Intervals(history);
    if |intervals| == 0 then IntervalStats(0, None, None, None)
    else
      var lo := SeqMin(intervals);
      var hi := SeqMax(intervals);
      SumBounds(intervals, lo, hi);
      var average := RoundedMean(Sum(intervals), |intervals|);
      RoundedMeanBetween(Sum(intervals), |intervals|, lo, hi);
      IntervalStats(average, Some(lo), Some(hi), Some(intervals[|intervals| - 1]))
  }

  /** `current` is the interval of the newest click that has one. */
  lemma CurrentIsNewestInterval(history: seq<ClickRecord>)
    requires history != []
    ensures var last := history[|history| - 1];
      && (last.interval.Some? ==> IntervalStatsOf(history).current == last.interval)
      && (last.interval.None? ==> IntervalStatsOf(history).current == IntervalStatsOf(history[..|history| - 1]).current)
  {
  }

  // ---------------------------------------------------------------------
  // Recent anomalies

  /** `Array.prototype.slice(start)` with a single argument. */
  function SliceFrom<T>(s: seq<T>, start: int): (r: seq<T>)
    ensures |r| == if start >= 0 then Max(0, |s| - start) else Min(|s|, -start)
    ensures start >= 0 ==> r == s[Min(start, |s|)..]
    ensures start < 0 ==> r == s[Max(0, |s| + start)..]
  {
    if start >= 0 then (if start >= |s| then [] else s[start..])
    else s[Max(0, |s| + start)..]
  }

  /** `anomalies.slice(-limit).reverse()`. */
  function RecentAnomalies(log: seq<AnomalyEvent>, limit: int): (r: seq<AnomalyEvent>)
    ensures limit >= 1 ==> |r| == Min(limit, |log|)
    ensures limit == 0 ==> |r| == |log|
    ensures limit < 0 ==> |r| == Max(0, |log| + limit)
    ensures forall i :: 0 <= i < |r| ==> r[i] == log[|log| - 1 - i]
  {
    var suffix := SliceFrom(log, -limit);
    ReverseAt(suffix);
    Reverse(suffix)
  }

  // ---------------------------------------------------------------------
  // Timeline down-sampling

  /** `Math.max(1, Math.floor(n / maxPoints))`. A zero `maxPoints` gives an
      infinite step in the source, which samples only the first record, as a
      step of `n` does; a negative one gives 1. */
  function TimelineStep(n: nat, maxPoints: int): (step: nat)
    ensures step >= 1
    ensures maxPoints > 0 && n < 2 * maxPoints ==> step == 1
    ensures maxPoints > 0 && n >= 2 * maxPoints ==> step >= 2 && step * maxPoints <= n < (step + 1) * maxPoints
    ensures maxPoints == 0 && n > 0 ==> SampleCount(n, step) == 1
    ensures maxPoints < 0 ==> step == 1
  {
    if maxPoints > 0 then
      DivStep(n, maxPoints);
      Max(1, n / maxPoints)
    else if maxPoints == 0 then
      if n > 0 then SampleCountIs(n, n, 1); n else 1
    else 1
  }

  /** The floor of `n / m` is at most 1 below `2 * m`, and at least 2 from there on. */
  lemma DivStep(n: nat, m: int)
    requires m > 0
    ensures n < 2 * m ==> n / m <= 1
    ensures n >= 2 * m ==> n / m >= 2 && (n / m) * m <= n < (n / m + 1) * m
  {
    var q := n / m;
    assert m * q <= n < m * q + m;
    assert (q + 1) * m == m * q + m;
    MulCancel(m, q, 2);
    MulCancel(m, 1, q);
  }

  /** Number of indices `0, step, 2*step, ...` below `n`. */
  function SampleCount(n: nat, step: nat): nat
    requires step >= 1
  {
    (n + step - 1) / step
  }

  lemma SampleCountIs(n: nat, step: nat, c: nat)
    requires step >= 1
    requires n <= c * step
    requires c == 0 || (c - 1) * step < n
    ensures SampleCount(n, step) == c
  {
    var m := n + step - 1;
    var q := m / step;
    assert m == step * q + m % step && 0 <= m % step < step;
    assert step * (c + 1) == c * step + step;
    assert step * (q + 1) == step * q + step;
    assert step * c == (c - 1) * step + step;
    MulCancel(step, q, c + 1);
    MulCancel(step, c, q + 1);
  }

  function ToPoint(click: ClickRecord): TimelinePoint
  {
    TimelinePoint(click.timestamp, click.interval, |click.anomalies| > 0, click.anomalies)
  }

  /** Down-sampling a history no longer than `maxPoints` keeps every record. */
  lemma TimelineKeepsShortHistory(n: nat, maxPoints: int)
    requires 0 < n <= maxPoints
    ensures TimelineStep(n, maxPoints) == 1 && SampleCount(n, 1) == n
  {
  }

  /** The sample can be longer than `maxPoints`, but never reaches twice it. */
  lemma TimelineBound(n: nat, maxPoints: int)
    requires n > 0 && maxPoints > 0
    ensures SampleCount(n, TimelineStep(n, maxPoints)) <= 2 * maxPoints - 1
  {
    var step := TimelineStep(n, maxPoints);
    var c := SampleCount(n, step);
    if n < 2 * maxPoints {
      assert step == 1;
    } else {
      SampleCountBelow(n, step);
      assert n < step * maxPoints + maxPoints by {
        assert (step + 1) * maxPoints == step * maxPoints + maxPoints;
      }
      SampleBoundCore(n, step, maxPoints, c);
    }
  }

  lemma SampleCountBelow(n: nat, step: nat)
    requires step >= 1
    ensures step * SampleCount(n, step) <= n + step - 1
  {
    var m := n + step - 1;
    assert m == step * (m / step) + m % step && 0 <= m % step;
  }

  /** The arithmetic behind the bound, for a step of at least 2. */
  lemma SampleBoundCore(n: int, step: nat, maxPoints: nat, c: int)
    requires step >= 2 && maxPoints >= 1
    requires n < step * maxPoints + maxPoints
    requires step * c <= n + step - 1
    ensures c < 2 * maxPoints
  {
    MulMono(maxPoints - 1, 0, step - 1);
    assert (maxPoints - 1) * (step - 1) == step * maxPoints - maxPoints - step + 1;
    assert step * (2 * maxPoints) == 2 * (step * maxPoints);
    MulCancel(step, c, 2 * maxPoints);
  }

  lemma TimelineExample()
    ensures TimelineStep(95, 10) == 9 && SampleCount(95, 9) == 11
  {
  }

  // ---------------------------------------------------------------------
  // The detector object

  function LastTimestamp(clicks: seq<ClickRecord>): Option<int>
  {
    if clicks == [] then None else Some(clicks[|clicks| - 1].timestamp)
  }

  /** The entry a rule adds to the log: one when it fires, none otherwise. */
  function EventIf(fires: bool, kind: AnomalyType, cfg: DetectionConfig, history: seq<ClickRecord>,
                   last: Option<int>, timestamp: int): seq<AnomalyEvent>
    requires kind != Timeout
  {
    if fires then [EventFor(kind, cfg, history, last, timestamp)] else []
  }

  /** A rule that fires appends its tag, and its entry follows the others. */
  lemma EventsForTagIf(tags: seq<AnomalyType>, fires: bool, t: AnomalyType,
                       cfg: DetectionConfig, history: seq<ClickRecord>, last: Option<int>, timestamp: int)
    requires Timeout !in tags && t != Timeout
    ensures Timeout !in TagIf(tags, fires, t)
    ensures EventsFor(TagIf(tags, fires, t), cfg, history, last, timestamp)
            == EventsFor(tags, cfg, history, last, timestamp) + EventIf(fires, t, cfg, history, last, timestamp)
  {
    if fires {
      assert (tags + [t])[..|tags|] == tags;
    }
  }

  /** The log entries of a click, rule by rule, after any earlier log `p`. */
  lemma DetectedEventsSteps(p: seq<AnomalyEvent>, cfg: DetectionConfig, history: seq<ClickRecord>, last: Option<int>, timestamp: int)
    ensures var interval := IntervalSince(last, timestamp);
      p + DetectedEvents(cfg, history, last, timestamp)
      == p + EventIf(DetectDuplicateClicks(cfg, last, timestamp), Duplicate, cfg, history, last, timestamp)
           + EventIf(interval.Some? && DetectIntervalAnomaly(cfg, interval.value), Interval, cfg, history, last, timestamp)
           + EventIf(DetectBurstClicks(cfg, history, timestamp), Burst, cfg, history, last, timestamp)
  {
    var interval := IntervalSince(last, timestamp);
    var b1, b2, b3 := DetectDuplicateClicks(cfg, last, timestamp),
                      interval.Some? && DetectIntervalAnomaly(cfg, interval.value),
                      DetectBurstClicks(cfg, history, timestamp);
    var t1 := TagIf([], b1, Duplicate);
    var t2 := TagIf(t1, b2, Interval);
    EventsForTagIf([], b1, Duplicate, cfg, history, last, timestamp);
    EventsForTagIf(t1, b2, Interval, cfg, history, last, timestamp);
    EventsForTagIf(t2, b3, Burst, cfg, history, last, timestamp);
    var e1 := EventIf(b1, Duplicate, cfg, history, last, timestamp);
    var e2 := EventIf(b2, Interval, cfg, history, last, timestamp);
    var e3 := EventIf(b3, Burst, cfg, history, last, timestamp);
    assert DetectedEvents(cfg, history, last, timestamp) == [] + e1 + e2 + e3;
    assert p + ([] + e1 + e2 + e3) == p + e1 + e2 + e3;
  }

  /** The click-side state is a function of the click stream: the newest 1000
      clicks, the counters over all of them and the newest click's time; every
      record is detector-made and only the first lacks an interval. */
  ghost predicate ClicksAgree(clicks: seq<ClickRecord>, history: seq<ClickRecord>, stats: Stats, last: Option<int>)
  {
    && history == LastN(clicks, HistoryCap)
    && stats == StatsOf(clicks)
    && last == LastTimestamp(clicks)
    && (forall i :: 0 <= i < |clicks| ==> WellFormedRecord(clicks[i]))
    && (forall i :: 0 <= i < |clicks| ==> (clicks[i].interval.None? <==> i == 0))
  }

  /** Recording one more detector-made click keeps the click-side state in step
      with the stream, and the counters balanced. */
  lemma ClicksAgreeStep(clicks: seq<ClickRecord>, history: seq<ClickRecord>, stats: Stats, last: Option<int>, rec: ClickRecord)
    requires ClicksAgree(clicks, history, stats, last)
    requires WellFormedRecord(rec) && (rec.interval.None? <==> clicks == [])
    ensures ClicksAgree(clicks + [rec], PushCapped(history, rec, HistoryCap), CountClick(stats, rec.anomalies), Some(rec.timestamp))
    ensures PushCapped(history, rec, HistoryCap) == LastN(history + [rec], HistoryCap)
    ensures Balanced(CountClick(stats, rec.anomalies)) && CountClick(stats, rec.anomalies).total == |clicks| + 1
  {
    var all := clicks + [rec];
    PushCappedIsLastN(history, rec, HistoryCap);
    LastNAppend(clicks, [rec], HistoryCap);
    assert all[..|all| - 1] == clicks;
    assert forall i :: 0 <= i < |clicks| ==> all[i] == clicks[i];
    StatsOfBalanced(all);
  }

  /** The log is the newest 50 entries of the anomaly stream, all well formed. */
  ghost predicate EventsAgree(events: seq<AnomalyEvent>, log: seq<AnomalyEvent>)
  {
    && log == LastN(events, EventListMaxItems)
    && (forall i :: 0 <= i < |events| ==> WellFormedEvent(events[i]))
  }

  class MouseAnomalyDetector {
    var config: DetectionConfig
    var clickHistory: seq<ClickRecord>
    var anomalies: seq<AnomalyEvent>
    var lastClickTime: Option<int>
    var stats: Stats

    /** Every click and every anomaly since construction or the last reset. */
    ghost var clicks: seq<ClickRecord>
    ghost var events: seq<AnomalyEvent>

    ghost predicate Valid()
      reads this
    {
      && ClicksAgree(clicks, clickHistory, stats, lastClickTime)
      && EventsAgree(events, anomalies)
    }

    constructor(cfg: DetectionConfig := DefaultDetection)
      ensures Valid()
      ensures config == cfg
      ensures clickHistory == [] && anomalies == [] && lastClickTime == None && stats == ZeroStats
      ensures clicks == [] && events == []
    {
      config := cfg;
      clickHistory := [];
      anomalies := [];
      lastClickTime := None;
      stats := ZeroStats;
      clicks := [];
      events := [];
    }

    /** Empties history and log, forgets the previous click and zeroes every
        counter; the configuration stays. */
    method Reset()
      modifies this
      ensures Valid()
      ensures clickHistory == [] && anomalies == [] && lastClickTime == None && stats == ZeroStats
      ensures clicks == [] && events == []
      ensures config == old(config)
    {
      clickHistory := [];
      anomalies := [];
      lastClickTime := None;
      stats := ZeroStats;
      clicks := [];
      events := [];
    }

    method ClearHistory()
      modifies this
      ensures Valid()
      ensures clickHistory == [] && anomalies == [] && lastClickTime == None && stats == ZeroStats
      ensures clicks == [] && events == []
      ensures config == old(config)
    {
      Reset();
    }

    /** Replaces the configuration by a partial merge; nothing recorded changes. */
    method UpdateConfig(patch: ConfigPatch)
      requires Valid()
      modifies this
      ensures Valid()
      ensures config == MergeConfig(old(config), patch)
      ensures clickHistory == old(clickHistory) && anomalies == old(anomalies)
      ensures lastClickTime == old(lastClickTime) && stats == old(stats)
      ensures clicks == old(clicks) && events == old(events)
    {
      config := MergeConfig(config, patch);
    }

    /** Logs one anomaly, dropping the oldest entry when the log is over its cap. */
    method AddAnomaly(kind: AnomalyType, timestamp: int, details: Details)
      requires EventsAgree(events, anomalies)
      requires WellFormedEvent(NewAnomaly(kind, timestamp, details))
      modifies this
      ensures EventsAgree(events, anomalies)
      ensures anomalies == PushCapped(old(anomalies), NewAnomaly(kind, timestamp, details), EventListMaxItems)
      ensures events == old(events) + [NewAnomaly(kind, timestamp, details)]
      ensures config == old(config) && clickHistory == old(clickHistory)
      ensures lastClickTime == old(lastClickTime) && stats == old(stats) && clicks == old(clicks)
    {
      var anomaly := AnomalyEvent(kind, timestamp, details, Description(kind));
      anomalies := anomalies + [anomaly];
      events := events + [anomaly];
      if |anomalies| > EventListMaxItems {
        anomalies := anomalies[1..];
      }
      PushCappedIsLastN(old(anomalies), anomaly, EventListMaxItems);
      LastNAppend(old(events), [anomaly], EventListMaxItems);
      assert anomalies == LastN(events, EventListMaxItems);
      assert forall i :: 0 <= i < |events| ==> WellFormedEvent(events[i]) by {
        forall i | 0 <= i < |events| ensures WellFormedEvent(events[i]) {
          if i < |old(events)| {
            assert events[i] == old(events)[i];
          }
        }
      }
    }

    /** One rule's branch: when it fires, the tag is pushed and the entry logged. */
    method ApplyRule(fires: bool, kind: AnomalyType, timestamp: int, details: Details, tags: seq<AnomalyType>)
      returns (next: seq<AnomalyType>)
      requires EventsAgree(events, anomalies)
      requires WellFormedEvent(NewAnomaly(kind, timestamp, details))
      modifies this
      ensures EventsAgree(events, anomalies)
      ensures next == TagIf(tags, fires, kind)
      ensures events == old(events) + (if fires then [NewAnomaly(kind, timestamp, details)] else [])
      ensures config == old(config) && clickHistory == old(clickHistory)
      ensures lastClickTime == old(lastClickTime) && stats == old(stats) && clicks == old(clicks)
    {
      next := tags;
      if fires {
        next := next + [kind];
        AddAnomaly(kind, timestamp, details);
      }
    }

    /** Runs the three rules against the state before the click and logs one
        entry per rule that fires; returns the click's tags. */
    method DetectAnomalies(timestamp: int, interval: Option<int>) returns (tags: seq<AnomalyType>)
      requires EventsAgree(events, anomalies)
      requires interval == IntervalSince(lastClickTime, timestamp)
      modifies this
      ensures EventsAgree(events, anomalies)
      ensures tags == DetectedTags(config, clickHistory, lastClickTime, timestamp)
      ensures events == old(events) + DetectedEvents(config, clickHistory, lastClickTime, timestamp)
      ensures anomalies == LastN(old(anomalies) + DetectedEvents(config, clickHistory, lastClickTime, timestamp), EventListMaxItems)
      ensures config == old(config) && clickHistory == old(clickHistory)
      ensures lastClickTime == old(lastClickTime) && stats == old(stats) && clicks == old(clicks)
    {
      // None of the three rules reads the log, so the fields they read can be
      // taken once, before any entry is added.
      var cfg, hist, last := config, clickHistory, lastClickTime;
      var duplicate := IntervalWindow(interval, cfg.duplicateWindow);
      var slow := IntervalThreshold(interval, cfg.intervalThreshold);
      var burst := CountWindow(GetBurstCount(cfg, hist, timestamp), cfg.burstWindow);
      assert NewAnomaly(Duplicate, timestamp, duplicate) == EventFor(Duplicate, cfg, hist, last, timestamp);
      assert NewAnomaly(Interval, timestamp, slow) == EventFor(Interval, cfg, hist, last, timestamp);
      assert NewAnomaly(Burst, timestamp, burst) == EventFor(Burst, cfg, hist, last, timestamp);
      tags := ApplyRule(DetectDuplicateClicks(cfg, last, timestamp), Duplicate, timestamp, duplicate, []);
      tags := ApplyRule(interval.Some? && DetectIntervalAnomaly(cfg, interval.value), Interval, timestamp, slow, tags);
      tags := ApplyRule(DetectBurstClicks(cfg, hist, timestamp), Burst, timestamp, burst, tags);
      DetectedEventsSteps(old(events), cfg, hist, last, timestamp);
      LastNAppend(old(events), DetectedEvents(cfg, hist, last, timestamp), EventListMaxItems);
    }

    /** `updateStats`: the total, then valid or anomalous, then one bump per tag. */
    method UpdateStats(click: ClickRecord)
      modifies this
      ensures stats == CountClick(old(stats), click.anomalies)
      ensures config == old(config) && clickHistory == old(clickHistory) && anomalies == old(anomalies)
      ensures lastClickTime == old(lastClickTime) && clicks == old(clicks) && events == old(events)
    {
      stats := stats.(total := stats.total + 1);
      if |click.anomalies| == 0 {
        stats := stats.(valid := stats.valid + 1);
      } else {
        stats := stats.(anomalous := stats.anomalous + 1);
        ghost var base := stats;
        var tags := click.anomalies;
        for i := 0 to |tags|
          invariant stats == AddTags(base, tags[..i])
          invariant config == old(config) && clickHistory == old(clickHistory) && anomalies == old(anomalies)
          invariant lastClickTime == old(lastClickTime) && clicks == old(clicks) && events == old(events)
        {
          assert tags[..i + 1][..i] == tags[..i];
          match tags[i]
          case Duplicate => stats := stats.(duplicates := stats.duplicates + 1);
          case Interval => stats := stats.(intervalAnomalies := stats.intervalAnomalies + 1);
          case Burst => stats := stats.(bursts := stats.bursts + 1);
          case Timeout => stats := stats.(timeouts := stats.timeouts + 1);
        }
        assert tags[..|tags|] == tags;
      }
    }

    /** Classifies one click against the state before it, records it (history
        capped at 1000, oldest first out), logs one entry per tag (log capped at
        50), remembers its time and counts it. A missing position or button
        is recorded as 0. */
    method ProcessClick(rawTimestamp: int, clock: int, x: Option<int>, y: Option<int>, button: Option<int>)
      returns (rec: ClickRecord)
      requires Valid()
      requires clock > 0
      modifies this
      ensures Valid()
      ensures rec.timestamp == EffectiveTimestamp(rawTimestamp, clock)
      ensures rec == ClickRecord(rec.timestamp, Pick(x, 0), Pick(y, 0), Pick(button, 0),
                                 IntervalSince(old(lastClickTime), rec.timestamp),
                                 DetectedTags(old(config), old(clickHistory), old(lastClickTime), rec.timestamp))
      ensures clickHistory == LastN(old(clickHistory) + [rec], HistoryCap)
      ensures anomalies == LastN(old(anomalies) + DetectedEvents(old(config), old(clickHistory), old(lastClickTime), rec.timestamp), EventListMaxItems)
      ensures lastClickTime == Some(rec.timestamp)
      ensures stats == CountClick(old(stats), rec.anomalies)
      ensures config == old(config)
      ensures clicks == old(clicks) + [rec]
      ensures events == old(events) + DetectedEvents(old(config), old(clickHistory), old(lastClickTime), rec.timestamp)
      ensures |clickHistory| <= HistoryCap && |anomalies| <= EventListMaxItems
      ensures Balanced(stats) && stats.total == |clicks|
    {
      var timestamp := if rawTimestamp != 0 then rawTimestamp else clock;
      var interval := if lastClickTime.Some? && lastClickTime.value != 0 then Some(timestamp - lastClickTime.value) else None;
      assert interval == IntervalSince(lastClickTime, timestamp) by {
        if clicks != [] {
          assert WellFormedRecord(clicks[|clicks| - 1]);
        }
      }
      var tags := DetectAnomalies(timestamp, interval);
      rec := ClickRecord(timestamp, Pick(x, 0), Pick(y, 0), Pick(button, 0), interval, tags);
      clickHistory := clickHistory + [rec];
      clicks := clicks + [rec];
      lastClickTime := Some(timestamp);
      if |clickHistory| > HistoryCap {
        clickHistory := clickHistory[1..];
      }
      assert clickHistory == PushCapped(old(clickHistory), rec, HistoryCap);
      UpdateStats(rec);
      DetectedTagsSpec(old(config), old(clickHistory), old(lastClickTime), timestamp);
      ClicksAgreeStep(old(clicks), old(clickHistory), old(stats), old(lastClickTime), rec);
    }

    /** The counters with anomaly rate, health score and band computed on read. */
    function GetStats(): StatsView
      reads this
    {
      var score := CalculateHealthScore(stats);
      StatsView(stats, AnomalyRate(stats), score, GetHealthLevel(score))
    }

    function GetIntervalStats(): IntervalStats
      reads this
    {
      IntervalStatsOf(clickHistory)
    }

    function GetRecentAnomalies(limit: int := 10): seq<AnomalyEvent>
      reads this
    {
      RecentAnomalies(anomalies, limit)
    }

    /** Every `step`-th record from index 0, projected for the chart. */
    method GetTimelineData(maxPoints: int := ChartMaxPoints) returns (data: seq<TimelinePoint>)
      ensures clickHistory == [] ==> data == []
      ensures |data| == SampleCount(|clickHistory|, TimelineStep(|clickHistory|, maxPoints))
      ensures forall k :: 0 <= k < |data| ==>
        && k * TimelineStep(|clickHistory|, maxPoints) < |clickHistory|
        && data[k] == ToPoint(clickHistory[k * TimelineStep(|clickHistory|, maxPoints)])
    {
      var history := clickHistory;
      if |history| == 0 {
        return [];
      }
      data := SampleEvery(history, TimelineStep(|history|, maxPoints));
    }
  }

  /** The loop of `getTimelineData`: the records at indices `0, step, 2*step, ...`. */
  method SampleEvery(history: seq<ClickRecord>, step: nat) returns (data: seq<TimelinePoint>)
    requires step >= 1
    ensures |data| == SampleCount(|history|, step)
    ensures forall k :: 0 <= k < |data| ==> k * step < |history| && data[k] == ToPoint(history[k * step])
  {
    var n := |history|;
    data := [];
    var i := 0;
    while i < n
      invariant i == |data| * step
      invariant |data| > 0 ==> (|data| - 1) * step < n
      invariant forall k :: 0 <= k < |data| ==> k * step < n && data[k] == ToPoint(history[k * step])
      decreases n - i
    {
      var click := history[i];
      data := data + [ToPoint(click)];
      i := i + step;
    }
    SampleCountIs(n, step, |data|);
  }

  /** Between resets, the interval statistics are empty exactly while the
      history holds at most one click. */
  lemma NoIntervalsIffAtMostOneClick(d: MouseAnomalyDetector)
    requires d.Valid()
    ensures Intervals(d.clickHistory) == [] <==> |d.clickHistory| <= 1
  {
    var h := d.clickHistory;
    var n := |d.clicks|;
    if |h| >= 2 {
      assert h[|h| - 1] == d.clicks[n - 1];
      assert n - 1 != 0;
      IntervalsNonEmpty(h);
    } else if |h| == 1 {
      assert n == 1;
      assert h == [d.clicks[0]];
      assert Intervals(h) == Intervals([]) + [];
    }
  }

  lemma IntervalsNonEmpty(history: seq<ClickRecord>)
    requires history != [] && history[|history| - 1].interval.Some?
    ensures Intervals(history) != []
  {
  }

  // ---------------------------------------------------------------------
  // Worked examples (non-zero times: `ProcessClick` replaces a 0 timestamp by the clock)

  function At(t: int): ClickRecord { ClickRecord(t, 0, 0, 0, None, []) }

  lemma DuplicateExample()
    ensures Duplicate in DetectedTags(DefaultDetection, [At(1000)], Some(1000), 1030)
    ensures Duplicate !in DetectedTags(DefaultDetection, [At(1000)], Some(1000), 1060)
  {
  }

  lemma BurstExample()
    ensures Burst in DetectedTags(DefaultDetection, [At(1000), At(1100)], Some(1100), 1200)
    ensures Burst !in DetectedTags(DefaultDetection, [At(1000)], Some(1000), 1600)
    ensures Burst !in DetectedTags(DefaultDetection, [At(1000), At(1600)], Some(1600), 2200)
  {
    assert RecentCount(DefaultDetection, [At(1000), At(1100)], 1200) == 2 by {
      assert [At(1000), At(1100)][..1] == [At(1000)];
    }
    assert RecentCount(DefaultDetection, [At(1000), At(1600)], 2200) == 0 by {
      assert [At(1000), At(1600)][..1] == [At(1000)];
    }
  }
}
