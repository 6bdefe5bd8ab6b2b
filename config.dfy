/** The application's constant configuration: default detection thresholds,
    the user-interface limits the detector relies on, the ordered health bands
    and the anomaly kinds with their descriptions. */
module Config {

  /** Detection thresholds, all in milliseconds except `burstThreshold`
      (a click count). The last three are carried along but no rule reads them. */
  datatype DetectionConfig = DetectionConfig(
    duplicateWindow: int,
    burstWindow: int,
    burstThreshold: int,
    intervalThreshold: int,
    normalIntervalMin: int,
    normalIntervalMax: int,
    longIntervalMax: int)

  const DefaultDetection := DetectionConfig(50, 500, 3, 50, 100, 2000, 5000)

  /** User-interface limits: refresh period, chart points, feedback duration,
      and the length of the anomaly list (which also caps the detector's log). */
  const UpdateInterval: nat := 100
  const ChartMaxPoints: nat := 100
  const FeedbackDuration: nat := 600
  const EventListMaxItems: nat := 50

  /** One health band: its key, the least score it accepts, its display colour and label. */
  datatype HealthBand = HealthBand(level: string, min: int, color: string, text: string)

  const Excellent := HealthBand("excellent", 95, "#28a745", "優秀")
  const Good := HealthBand("good", 85, "#20c997", "良好")
  const Fair := HealthBand("fair", 70, "#ffc107", "普通")
  const Poor := HealthBand("poor", 50, "#fd7e14", "較差")
  const Bad := HealthBand("bad", 0, "#dc3545", "異常")

  /** The bands in the order the health lookup scans them. */
  const HealthBands: seq<HealthBand> := [Excellent, Good, Fair, Poor, Bad]

  lemma HealthBandsDescending()
    ensures forall i, j :: 0 <= i < j < |HealthBands| ==> HealthBands[i].min > HealthBands[j].min
    ensures HealthBands[|HealthBands| - 1] == Bad && Bad.min == 0
  {
  }

  datatype AnomalyType = Duplicate | Interval | Burst | Timeout

  /** The tag strings of `ANOMALY_TYPES`. */
  function TypeName(t: AnomalyType): (s: string)
    ensures |s| > 0
  {
    match t
    case Duplicate => "duplicate"
    case Interval => "interval"
    case Burst => "burst"
    case Timeout => "timeout"
  }

  /** `ANOMALY_DESCRIPTIONS`: every kind has a label. */
  function Description(t: AnomalyType): (s: string)
    ensures |s| > 0
  {
    match t
    case Duplicate => "重複點擊"
    case Interval => "間隔異常"
    case Burst => "連擊異常"
    case Timeout => "超時異常"
  }

  lemma TypeNamesDistinct(a: AnomalyType, b: AnomalyType)
    ensures TypeName(a) == TypeName(b) <==> a == b
    ensures Description(a) == Description(b) <==> a == b
  {
  }

  /** Tag strings contain neither CSV separator nor a line break. */
  lemma TypeNameCharacters(t: AnomalyType)
    ensures forall i :: 0 <= i < |TypeName(t)| ==> 'a' <= TypeName(t)[i] <= 'z'
  {
  }
}
