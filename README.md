# Mouse click tester: a verified Dafny model

The mouse click tester is a browser application for checking whether a mouse
button misbehaves. The user clicks inside a test zone. Every click is
timestamped and classified by three rules:

- **duplicate**: the click follows the previous one too closely.
- **interval**: the gap since the previous click is below a threshold.
- **burst**: too many clicks fall inside a sliding window.

The application keeps several things:

- a capped click history and a capped anomaly log;
- counters for every kind of click;
- a health score, a health band, interval statistics and a down-sampled timeline for the chart;
- a session clock with an `MM:SS` timer, and stability and consistency scores;
- a range check on the settings form, and a test on/off state for the control buttons;
- a CSV export of the history, and a list of saved sessions capped at 100.

This project models that logic in Dafny and proves what the code promises.

| file | module | models |
|---|---|---|
| `common.dfy` | `Common` | `Option`, "newest n" (`LastN`), reverse, occurrence count, real-ratio lemmas |
| `numtext.dfy` | `NumText` | integer to decimal text as JavaScript prints it, parsing back, `padStart(2, '0')`, `join` |
| `config.dfy` | `Config` | default thresholds, UI limits, health bands, anomaly kinds and descriptions |
| `detector.dfy` | `Detector` | the rules, the counters, health, interval statistics, the timeline, and the class `MouseAnomalyDetector` |
| `statistics.dfy` | `Statistics` | the session clock class `StatisticsManager`, the timer text, stability, consistency, the anomaly-detail text |
| `ui.dfy` | `Ui` | the settings validation, and the class `UIManager` with its test state and buttons |
| `app.dfy` | `App` | the CSV export, and the capped saved-session list |

How the detector class is modelled:

- It keeps the source's fields: `config`, `clickHistory`, `anomalies`, `lastClickTime` and `stats`.
- It adds two ghost streams: every click since the last reset (`clicks`) and every anomaly logged (`events`).
- `Valid()` ties the real fields to the ghost streams:
  - the history is the newest 1000 clicks;
  - the log is the newest 50 events;
  - the counters are a function of all the clicks (`StatsOf`);
  - `lastClickTime` is the newest click's timestamp.
- `ProcessClick` keeps `Valid()`. Its `ensures` gives the new state as functions of the old state: `DetectedTags`, `DetectedEvents`, `CountClick` and `LastN`.
- Lemmas about those functions carry the properties the program promises.

JavaScript semantics are written out where they matter:

- `||` treats both a missing value (`null`, `undefined`) and `0` as absent.
- `%` is truncating (`JsRem`).
- `null` counts as 0 in arithmetic (`OrZero`).
- A template literal prints `null` and `undefined` literally.
- `Math.round` rounds halves up.
- `slice(-k)` may take a negative or zero `k`.
- Integers are unbounded. Scores and rates are exact `real`s.

## Model

| member | source | states |
|---|---|---|
| `Config.HealthBandsDescending` | js/config.js:44-50 | the band minimums strictly decrease in scan order, and the last band is `bad` with minimum 0 |
| `Config.TypeNamesDistinct` | js/config.js:61-74 | the four tag strings are pairwise distinct, and so are the four descriptions |
| `NumText.IntToStringRoundTrip` | js/app.js:299-308 | a number's decimal text, as `join` prints it, parses back to the same integer, negative values included |
| `NumText.Pad2` | js/statistics.js:102 | `padStart(2, '0')`: text of length 2 or more is unchanged; shorter text gets leading zeros up to exactly two characters |
| `Detector.MergeConfigSpec` | js/detector.js:26-28 | each field the patch gives replaces the old value, each field it omits is kept, an empty patch changes nothing, and applying a patch twice equals applying it once |
| `Detector.EffectiveTimestamp` | js/detector.js:32 | a non-zero event timestamp is kept; otherwise the non-zero clock value is used, so the result is never 0 |
| `Detector.IntervalSince` | js/detector.js:33 | there is an interval exactly when there was a previous click, and then the previous time plus the interval is the new time |
| `Detector.RecentCountIsCardinality` | js/detector.js:110-116 | the burst count equals the number of history positions whose click is at most `burstWindow` ms before the new click |
| `Detector.GetBurstCount` | js/detector.js:110-123 | the count lies between 1 and the history length plus one, and the burst rule fires exactly when the count reaches `burstThreshold` |
| `Detector.DetectedTagsSpec` | js/detector.js:64-116 | the click is tagged duplicate iff it is less than `duplicateWindow` after the previous click, interval iff less than `intervalThreshold` after it, and burst iff at least `burstThreshold - 1` history clicks are in the window; it is never tagged timeout; tags come in rule order |
| `Detector.EventFor` | js/detector.js:69-92 | the logged entry has the rule's kind, the click's timestamp, the kind's description, and details of the shape that kind needs |
| `Detector.EventsForSpec` | js/detector.js:64-94 | one log entry per tag, in tag order; duplicate and interval entries hold the actual interval and the threshold compared against; burst entries hold the recent count plus one and the window |
| `Detector.FirstClickHasNoIntervalTags` | js/detector.js:33-78 | with no previous click there is no interval, and only the burst rule can fire |
| `Detector.DefaultRulesAgree` | js/config.js:5-8 | with the default thresholds (both 50 ms), duplicate and interval fire together or not at all |
| `Detector.PushCappedIsLastN` | js/detector.js:134-139 | push-then-shift on a list within its cap keeps exactly the newest `cap` entries |
| `Detector.AddTagsCounts` | js/detector.js:152-167 | after the per-tag loop, each kind's counter went up by that kind's number of occurrences, and nothing else changed |
| `Detector.CountClickSpec` | js/detector.js:143-169 | for a rule-ordered tag list the total goes up by one; exactly one of valid/anomalous goes up (anomalous iff there is a tag); each tagged kind goes up by one; timeouts never change |
| `Detector.StatsOfBalanced` | js/detector.js:143-169 | over any stream of detector-made clicks: total equals valid plus anomalous and equals the number of clicks; no timeouts; each kind's counter is at most anomalous; every anomalous click is counted by some kind |
| `Detector.AnomalyRate` | js/detector.js:176-177 | the rate is 0 before any click, and between 0 and 100 percent whenever anomalous is at most total |
| `Detector.CalculateHealthScore` | js/detector.js:187-194 | the score is always within [0, 100], and exactly 100 before any click |
| `Detector.HealthScorePerfect` | js/detector.js:187-194 | on counters where total equals valid plus anomalous, the score is 100 exactly when no click was anomalous |
| `Detector.HealthScoreMonotone` | js/detector.js:187-194 | for a fixed total, more anomalous clicks never raise the score |
| `Detector.GetHealthLevel` | js/detector.js:197-207 | the band returned is one of the configured bands, and a non-negative score reaches its minimum |
| `Detector.HealthLevelTable` | js/detector.js:197-207 | scores of 95 or more map to excellent, [85,95) to good, [70,85) to fair, [50,70) to poor, and below 50 to bad |
| `Detector.RoundedMean` | js/detector.js:225 | the result `r` satisfies `r - 1/2 <= sum/n < r + 1/2`, which is `Math.round` of the mean |
| `Detector.IntervalStatsOf` | js/detector.js:210-231 | with no interval the result is `{0, null, null, null}`; otherwise min and max are members of the intervals and bound all of them, the average is the rounded mean and lies between min and max, and current is present |
| `Detector.CurrentIsNewestInterval` | js/detector.js:228 | `current` is the newest click's interval; when the newest click has none, it is the previous history's `current` |
| `Detector.RecentAnomalies` | js/detector.js:234-238 | the result is the newest `limit` log entries, newest first; its length follows `slice` for positive, zero and negative `limit` |
| `Detector.TimelineStep` | js/detector.js:244 | `max(1, floor(n / maxPoints))`: the step is 1 below `2 * maxPoints`; from there on it is at least 2 and `step * maxPoints <= n < (step + 1) * maxPoints`; a zero `maxPoints` (an infinite step in the source) samples exactly one record of a non-empty history; a negative one gives step 1 |
| `Detector.TimelineKeepsShortHistory` | js/detector.js:241-258 | a history no longer than `maxPoints` is sampled completely |
| `Detector.TimelineBound` | js/detector.js:241-258 | the sample has at most `2 * maxPoints - 1` points |
| `Detector.TimelineExample` | js/detector.js:241-258 | 95 records with `maxPoints` 10 give step 9 and 11 points |
| `Detector.DetectedEventsSteps` | js/detector.js:64-94 | a click's log entries are the duplicate, interval and burst rules' entries, in that order, each present exactly when its rule fires |
| `Detector.ClicksAgreeStep` | js/detector.js:49-58 | recording one more click keeps history, counters and last time in step with the click stream, and the counters balanced |
| `Detector.MouseAnomalyDetector.constructor` | js/detector.js:3-8 | starts with the given configuration, an empty history and log, no previous click and zero counters |
| `Detector.MouseAnomalyDetector.Reset` | js/detector.js:10-23 | empties history and log, forgets the previous click and zeroes the counters; the configuration is kept |
| `Detector.MouseAnomalyDetector.ClearHistory` | js/detector.js:261-263 | the same new state as `Reset` |
| `Detector.MouseAnomalyDetector.UpdateConfig` | js/detector.js:26-28 | the configuration becomes the merge of the old one with the patch; nothing recorded changes |
| `Detector.MouseAnomalyDetector.AddAnomaly` | js/detector.js:126-140 | appends the entry with its description, and drops the oldest entry when the log exceeds 50 |
| `Detector.MouseAnomalyDetector.DetectAnomalies` | js/detector.js:64-94 | returns the tags of `DetectedTags`; the log becomes the newest 50 of the old log plus `DetectedEvents`; nothing else changes |
| `Detector.MouseAnomalyDetector.UpdateStats` | js/detector.js:143-169 | the counters become `CountClick` of the old counters and the click's tags; nothing else changes |
| `Detector.MouseAnomalyDetector.ProcessClick` | js/detector.js:31-61 | returns a record with the effective timestamp, the position and button (0 when missing), the interval since the previous click and the detected tags; the history is the newest 1000 records, the log the newest 50 entries, the counters are updated and balanced, and the last time is this click's |
| `Detector.MouseAnomalyDetector.GetTimelineData` | js/detector.js:241-258 | one point per `step`-th record from index 0, each point projected from its record; empty for an empty history |
| `Detector.SampleEvery` | js/detector.js:247-255 | the stepping loop yields `ceil(n / step)` points, the `k`-th being the record at index `k * step`, projected |
| `Detector.NoIntervalsIffAtMostOneClick` | js/detector.js:210-222 | for a valid detector, the interval list is empty exactly when the history holds at most one click |
| `Detector.DuplicateExample` | js/detector.js:97-102 | a click 30 ms after the previous one is a duplicate; one 60 ms after is not |
| `Detector.BurstExample` | js/detector.js:110-116 | three clicks within 500 ms form a burst; clicks 600 ms apart do not |
| `Statistics.StatisticsManager.constructor` | js/statistics.js:3-6 | starts with no start time, no end time, and not running |
| `Statistics.StatisticsManager.Start` | js/statistics.js:36-41 | the start time becomes now, the end time is cleared, and the session is running |
| `Statistics.StatisticsManager.Stop` | js/statistics.js:44-48 | the end time becomes now, the session stops, and the start time is kept |
| `Statistics.StatisticsManager.Reset` | js/statistics.js:51-55 | both times are cleared and the session is not running |
| `Statistics.StatisticsManager.Elapsed` | js/statistics.js:94-96 | while running, now minus start; once stopped, end minus start; with both times cleared, 0 |
| `Statistics.SessionLength` | js/statistics.js:36-96 | a session started at `t0` and stopped at `t1` reports `t1 - t0`, whatever the time now |
| `Statistics.TimerArithmetic` | js/statistics.js:98-100 | for a non-negative elapsed time, minutes times 60 plus the remainder is the whole seconds, the remainder is below 60, and the seconds are the floor of elapsed over 1000 |
| `Statistics.TimerTextRoundTrip` | js/statistics.js:98-102 | below 100 minutes the text is five characters `MM:SS`, and the two fields read back as the minutes and the remaining seconds |
| `Statistics.TimerExamples` | js/statistics.js:98-102 | 0 ms shows `00:00`, and 65000 ms shows `01:05` |
| `Statistics.CalculateStability` | js/statistics.js:282-287 | 100 with no clicks, and otherwise between 0 and 100 |
| `Statistics.StabilityBounds` | js/statistics.js:282-287 | stability is 100 exactly when `400 * anomalous <= total`, and 0 once at least half the clicks are anomalous |
| `Statistics.CalculateConsistency` | js/statistics.js:272-279 | 100 when the average is 0; always at least 0, and at most 100 when the average is positive |
| `Statistics.ConsistencyNegativeAverage` | js/statistics.js:273-278 | a negative average (intervals go negative when a click's time is before the previous one's) passes the `!average` guard and gives a score of at least 100; an average of -10 with bounds -20 and 0 gives 300 |
| `Statistics.ConsistencyBounds` | js/statistics.js:272-279 | equal min and max give 100; a spread of at least the positive average gives 0 |
| `Statistics.ConsistencyOfHistory` | js/statistics.js:272-279 | on the detector's own statistics, no intervals or all-equal intervals give 100 |
| `Statistics.LoggedEntryText` | js/statistics.js:201-210 | for an entry a rule logs, the text is the kind's template with the actual numbers: the interval since the previous click and the duplicate window or interval threshold, or the recent-click count plus one and the burst window |
| `Statistics.NumberTextIsNoWord` | js/statistics.js:206-210 | a number's text is never `undefined` or `null`, so no field of a logged entry prints as either |
| `Statistics.DuplicateTextIdentifiesInterval` | js/statistics.js:206 | two duplicate entries with the same window and the same text have the same interval |
| `Statistics.IntervalTextIdentifiesInterval` | js/statistics.js:208 | two interval entries with the same threshold and the same text have the same interval |
| `Statistics.BurstTextIdentifiesCount` | js/statistics.js:210 | two burst entries with the same window and the same text have the same count |
| `Statistics.FormatExample` | js/statistics.js:206-208 | a 30 ms duplicate prints `間隔: 30ms (< 50ms)`, and a missing interval prints as `null` |
| `Ui.FailingSpec` | js/ui.js:238-255 | the failing fields are exactly the out-of-range ones, each listed once; there are none exactly when every field is in range |
| `Ui.MessagesDistinct` | js/ui.js:241-255 | each error message belongs to exactly one field |
| `Ui.Messages` | js/ui.js:238-255 | one message per listed field, in the same order |
| `Ui.ErrorsAreFailingMessages` | js/ui.js:238-255 | the four checks, run in order, produce the messages of the failing fields; there are none exactly when all four ranges hold |
| `Ui.ValidateSettings` | js/ui.js:238-263 | returns the failing fields' messages in field order, and accepts exactly when there is none, that is, when all four values are within their inclusive ranges |
| `Ui.ValidIffNoFailingField` | js/ui.js:238-263 | the settings are accepted exactly when no field fails, that is, when every field is in range |
| `Ui.DefaultsAreValid` | js/config.js:4-8 | the default thresholds pass the form's check |
| `Ui.UIManager.UpdateControlButtons` | js/ui.js:140-144 | start is disabled exactly while a test is active, stop exactly while none is, and reset is enabled; the state is kept |
| `Ui.UIManager.StartTest` | js/ui.js:101-103 | the test becomes active and the buttons follow |
| `Ui.UIManager.StopTest` | js/ui.js:113-115 | the test becomes inactive and the buttons follow |
| `Ui.UIManager.ResetTest` | js/ui.js:125-127 | the test becomes inactive and the buttons follow |
| `Ui.UIManager.HandleClick` | js/ui.js:157-173 | reports a click exactly while a test is active; the report holds the click's time, the position relative to the target's box, the button and the modifier keys |
| `Ui.UIManager.HandleKeydown` | js/ui.js:347-368 | Ctrl+R always ends inactive; otherwise Space outside a text input toggles the test; any other key changes nothing; the buttons follow the state |
| `Ui.ToggleTwice` | js/ui.js:354-361 | two presses of Space restore the test state, with the buttons in step |
| `App.ConvertToCsv` | js/app.js:290-312 | the export is the header line followed by one row per history record, in history order |
| `App.HeaderText` | js/app.js:291-296 | the header line is the seven column names joined by commas, then a line break |
| `App.CsvStartsWithHeader` | js/app.js:296 | every export begins with exactly the header line |
| `App.CsvLineCount` | js/app.js:296-309 | an export of `n` records has exactly `n + 1` line breaks |
| `App.RowShape` | js/app.js:299-308 | every row has six commas and exactly one line break, which comes last |
| `App.TagsCellSemicolons` | js/app.js:306 | a non-empty tag list of `n` tags is written with `n - 1` semicolons |
| `App.IntervalCell` | js/app.js:304 | the interval cell is empty exactly when the interval is missing or 0 |
| `App.RowCellsRoundTrip` | js/app.js:299-307 | timestamp, x, y and button cells parse back to the record's values; a non-empty interval cell parses back to the interval; the flag is `true` exactly when the click has a tag |
| `App.CellIntervalsRoundTrip` | js/app.js:298-309 | when no record has a 0 interval, the parsed non-empty interval cells are exactly the intervals the live statistics use, in order |
| `App.ZeroIntervalLost` | js/app.js:304 | a 0 interval and a missing one give the same export, while the live intervals keep the 0 |
| `App.ZeroIntervalExample` | js/app.js:304 | two clicks at the same time: the live minimum interval is 0, but the export equals that of a history with no interval |
| `App.SaveToHistory` | js/app.js:233-251 | the new session is last, the list keeps the newest `min(n + 1, 100)` sessions in order, and it equals the newest 100 of the old list plus the new entry |
| `App.SavesKeepNewest` | js/app.js:248-251 | saving two sessions in a row keeps the newest 100 of all of them, in order |

## Left out

- Rendering, the DOM, the chart and notifications are not modelled. Only the state the logic keeps is modelled. The chart module (`js/chart.js`) is not part of this model.
- Clocks are not modelled. `Date.now()` becomes a caller-supplied `clock`/`now` parameter. `ProcessClick` requires `clock > 0`, which the wall clock always satisfies.
- `setInterval`, `clearInterval` and the one-second timer callback are not modelled. The timer text is modelled as a function of the elapsed time.
- `localStorage`, `JSON.parse` and `JSON.stringify` are not modelled. `SaveToHistory` works on the list the storage would hold and returns the new list. Storage errors, and the JSON branch of `exportData`, are left out.
- FormatAnomalyDetails: the fallback that serialises the details object is `None`; the JSON text itself is not modelled.
- Re-deriving the interval statistics from an exported history concerns the structured (JSON) export, which is left out. The CSV export writes a 0 interval as an empty cell, like a missing one, so a CSV reader loses it. `ZeroIntervalLost` shows this; `CellIntervalsRoundTrip` proves they all come back whenever none of them is 0.
- The application's event bus (`dispatchEvent` and its listeners), test modes (`changeMode`, the mode table) and the settings dialog are not modelled. HandleKeydown leaves out Escape, which only closes the dialog.
- Ui.UIManager.constructor: the initial button states come from the page, so they are parameters.
- ProcessClick: coordinates and buttons are integers or missing. `NaN` and non-numeric values are not modelled, and neither is the truthiness of a non-number timestamp.
- AnomalyRate: `toFixed(1)` and the later `parseFloat` are not modelled. The rate is an exact real rather than a one-decimal string.
- CalculateHealthScore: scores and rates use exact reals, not IEEE doubles. Floating-point rounding is left out.
- ValidateSettings: `parseInt` giving `NaN` for a non-numeric field is not modelled. The fields are integers.
- GetHealthLevel: the fallback after the scan returns the `bad` band without its `level` key in the source. Here it returns `Bad` with its key. The scan never reaches the fallback for a score of at least 0, which is every score the detector computes.
- TimerTextRoundTrip: the round trip is stated for non-negative times below 100 minutes. For a negative elapsed time the text behaves like the source's, with a minus sign inside the padded field, but nothing is proved about it.
- Statistics.ConsistencyNegativeAverage: a negative average interval makes the consistency score exceed 100, as the source computes it; the model keeps that behaviour and promises 0 to 100 only for a positive average.
- TimelineBound: the documentation describes the timeline as at most `maxPoints` points. The code can return more, up to `2 * maxPoints - 1` (95 records with 10 points give 11). The model follows the code.
- Detector.MouseAnomalyDetector.GetStats, GetIntervalStats and GetRecentAnomalies: these read methods return the functions above. Their properties are stated on `AnomalyRate`, `CalculateHealthScore`, `GetHealthLevel`, `IntervalStatsOf` and `RecentAnomalies`.
- The mode metadata and the storage keys in the configuration are not modelled; no modelled logic reads them.
