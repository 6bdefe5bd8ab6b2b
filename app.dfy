/** The application controller's data logic: the CSV export of the click
    history and the capped list of saved sessions. */
module App {
  import opened Common
  import opened NumText
  import opened Config
  import opened Detector

  // ---------------------------------------------------------------------
  // CSV export

  const CsvColumns: seq<string> := ["timestamp", "x", "y", "button", "interval", "hasAnomaly", "anomalyTypes"]

  /** The header line: the column names joined by commas, then a line break. */
  function HeaderLine(): string
  {
    Join(CsvColumns, ",") + "\n"
  }

  /** `click.interval || ''`: both `null` and 0 give an empty cell. */
  function IntervalCell(interval: Option<int>): (cell: string)
    ensures cell == [] <==> interval.None? || interval.value == 0
  {
    if interval.Some? && interval.value != 0 then IntToString(interval.value) else ""
  }

  function BoolText(b: bool): string
  {
    if b then "true" else "false"
  }

  function TagNames(tags: seq<AnomalyType>): (names: seq<string>)
    ensures |names| == |tags|
    ensures forall i :: 0 <= i < |tags| ==> names[i] == TypeName(tags[i])
  {
    seq(|tags|, i requires 0 <= i < |tags| => TypeName(tags[i]))
  }

  /** The tags joined by semicolons. */
  function TagsCell(tags: seq<AnomalyType>): string
  {
    Join(TagNames(tags), ";")
  }

  /** The seven cells of a record's row, in column order. */
  function RowCells(c: ClickRecord): (cells: seq<string>)
    ensures |cells| == |CsvColumns|
  {
    [IntToString(c.timestamp), IntToString(c.x), IntToString(c.y), IntToString(c.button),
     IntervalCell(c.interval), BoolText(|c.anomalies| > 0), TagsCell(c.anomalies)]
  }

  function CsvRow(c: ClickRecord): string
  {
    Join(RowCells(c), ",") + "\n"
  }

  /** The export of a history: the header line, then one row per record, in
      history order. */
  function Csv(history: seq<ClickRecord>): string
  {
    if history == [] then HeaderLine() else Csv(history[..|history| - 1]) + CsvRow(history[|history| - 1])
  }

  /** `convertToCSV`: the header line, then one row per record. */
  method ConvertToCsv(history: seq<ClickRecord>) returns (csv: string)
    ensures csv == Csv(history)
  {
    csv := Join(CsvColumns, ",") + "\n";
    for i := 0 to |history|
      invariant csv == Csv(history[..i])
    {
      assert history[..i + 1][..i] == history[..i];
      var click := history[i];
      var row := [IntToString(click.timestamp), IntToString(click.x), IntToString(click.y), IntToString(click.button),
                  IntervalCell(click.interval), BoolText(|click.anomalies| > 0), TagsCell(click.anomalies)];
      csv := csv + (Join(row, ",") + "\n");
    }
    assert history[..|history|] == history;
  }

  /** The header line spelled out: the seven column names, comma-separated. */
  lemma HeaderText()
    ensures HeaderLine() == "timestamp" + "," + "x" + "," + "y" + "," + "button" + "," + "interval"
                            + "," + "hasAnomaly" + "," + "anomalyTypes" + "\n"
  {
    var c := CsvColumns;
    assert c[..1] == ["timestamp"] && Join(c[..1], ",") == "timestamp";
    assert c[..2][..1] == c[..1] && Join(c[..2], ",") == "timestamp" + "," + "x";
    assert c[..3][..2] == c[..2] && Join(c[..3], ",") == "timestamp" + "," + "x" + "," + "y";
    assert c[..4][..3] == c[..3] && Join(c[..4], ",") == "timestamp" + "," + "x" + "," + "y" + "," + "button";
    assert c[..5][..4] == c[..4] && Join(c[..5], ",") == "timestamp" + "," + "x" + "," + "y" + "," + "button"
                                                        + "," + "interval";
    assert c[..6][..5] == c[..5] && Join(c[..6], ",") == "timestamp" + "," + "x" + "," + "y" + "," + "button"
                                                        + "," + "interval" + "," + "hasAnomaly";
    assert c[..7][..6] == c[..6] && c[..7] == c;
  }

  /** Every export begins with exactly the header line. */
  lemma {:induction false} CsvStartsWithHeader(history: seq<ClickRecord>)
    ensures |HeaderLine()| <= |Csv(history)|
    ensures Csv(history)[..|HeaderLine()|] == HeaderLine()
  {
    if history != [] {
      var init := history[..|history| - 1];
      CsvStartsWithHeader(init);
      var row := CsvRow(history[|history| - 1]);
      assert (Csv(init) + row)[..|HeaderLine()|] == Csv(init)[..|HeaderLine()|];
    }
  }

  // Character content of the cells

  lemma LettersOnly(s: string, c: char)
    requires forall i :: 0 <= i < |s| ==> 'a' <= s[i] <= 'z' || 'A' <= s[i] <= 'Z'
    requires !('a' <= c <= 'z') && !('A' <= c <= 'Z')
    ensures CharCount(s, c) == 0
  {
    CharCountAbsent(s, c);
  }

  /** No cell holds a comma or a line break. */
  lemma CellsPlain(cell: string, c: ClickRecord, ch: char)
    requires cell in RowCells(c)
    requires ch == ',' || ch == '\n'
    ensures CharCount(cell, ch) == 0
  {
    var cells := RowCells(c);
    if cell == cells[0] || cell == cells[1] || cell == cells[2] || cell == cells[3] {
      IntToStringHasNo(if cell == cells[0] then c.timestamp else if cell == cells[1] then c.x
                       else if cell == cells[2] then c.y else c.button, ch);
    } else if cell == cells[4] {
      if c.interval.Some? && c.interval.value != 0 {
        IntToStringHasNo(c.interval.value, ch);
      }
    } else if cell == cells[5] {
      LettersOnly(cell, ch);
    } else {
      TagsCellPlain(c.anomalies, ch);
    }
  }

  lemma TagsCellPlain(tags: seq<AnomalyType>, ch: char)
    requires ch == ',' || ch == '\n'
    ensures CharCount(TagsCell(tags), ch) == 0
  {
    var names := TagNames(tags);
    forall k | 0 <= k < |names| ensures CharCount(names[k], ch) == 0 {
      TypeNameCharacters(tags[k]);
      LettersOnly(names[k], ch);
    }
    CharCountAbsent(";", ch);
    JoinCharAbsent(names, ";", ch);
  }

  /** A tag list of `n > 0` tags is written with `n - 1` semicolons. */
  lemma TagsCellSemicolons(tags: seq<AnomalyType>)
    requires tags != []
    ensures CharCount(TagsCell(tags), ';') == |tags| - 1
  {
    var names := TagNames(tags);
    forall k | 0 <= k < |names| ensures CharCount(names[k], ';') == 0 {
      TypeNameCharacters(tags[k]);
      LettersOnly(names[k], ';');
    }
    JoinCharCount(names, ';');
  }

  /** Every row has seven cells separated by six commas and ends with its only line break. */
  lemma RowShape(c: ClickRecord)
    ensures CharCount(CsvRow(c), ',') == |CsvColumns| - 1
    ensures CharCount(CsvRow(c), '\n') == 1
    ensures CsvRow(c)[|CsvRow(c)| - 1] == '\n'
  {
    var cells := RowCells(c);
    forall k | 0 <= k < |cells| ensures CharCount(cells[k], ',') == 0 && CharCount(cells[k], '\n') == 0 {
      CellsPlain(cells[k], c, ',');
      CellsPlain(cells[k], c, '\n');
    }
    JoinCharCount(cells, ',');
    assert CharCount(",", '\n') == 0 by {
      CharCountAbsent(",", '\n');
    }
    JoinCharAbsent(cells, ",", '\n');
    var line := Join(cells, ",");
    CharCountConcat(line, "\n", ',');
    CharCountConcat(line, "\n", '\n');
    assert CharCount("\n", ',') == 0 && CharCount("\n", '\n') == 1 by {
      assert "\n"[..0] == [];
    }
  }

  /** The column names are plain letters. */
  lemma ColumnsLetters(k: int)
    requires 0 <= k < |CsvColumns|
    ensures forall i :: 0 <= i < |CsvColumns[k]| ==> 'a' <= CsvColumns[k][i] <= 'z' || 'A' <= CsvColumns[k][i] <= 'Z'
  {
  }

  /** The header holds exactly one line break, at its end. */
  lemma HeaderLineBreaks()
    ensures CharCount(HeaderLine(), '\n') == 1
  {
    forall k | 0 <= k < |CsvColumns| ensures CharCount(CsvColumns[k], '\n') == 0 {
      ColumnsLetters(k);
      LettersOnly(CsvColumns[k], '\n');
    }
    CharCountAbsent(",", '\n');
    JoinCharAbsent(CsvColumns, ",", '\n');
    CharCountConcat(Join(CsvColumns, ","), "\n", '\n');
    assert CharCount("\n", '\n') == 1 by {
      assert "\n"[..0] == [];
    }
  }

  /** One line break per record after the header's: the export has `n + 1` lines. */
  lemma {:induction false} CsvLineCount(history: seq<ClickRecord>)
    ensures CharCount(Csv(history), '\n') == |history| + 1
  {
    if history == [] {
      HeaderLineBreaks();
    } else {
      var init := history[..|history| - 1];
      CsvLineCount(init);
      RowShape(history[|history| - 1]);
      CharCountConcat(Csv(init), CsvRow(history[|history| - 1]), '\n');
    }
  }

  /** The numeric cells read back as the record's values, and the flag as its tag test. */
  lemma RowCellsRoundTrip(c: ClickRecord)
    ensures ParseInt(RowCells(c)[0]) == c.timestamp
    ensures ParseInt(RowCells(c)[1]) == c.x && ParseInt(RowCells(c)[2]) == c.y
    ensures ParseInt(RowCells(c)[3]) == c.button
    ensures RowCells(c)[4] != [] ==> c.interval.Some? && ParseInt(RowCells(c)[4]) == c.interval.value
    ensures RowCells(c)[5] == "true" <==> c.anomalies != []
  {
    IntToStringRoundTrip(c.timestamp);
    IntToStringRoundTrip(c.x);
    IntToStringRoundTrip(c.y);
    IntToStringRoundTrip(c.button);
    if c.interval.Some? {
      IntToStringRoundTrip(c.interval.value);
    }
  }

  // Reading the intervals back

  /** The intervals a reader of the export recovers: the non-empty interval
      cells, parsed, in row order. */
  function CellIntervals(history: seq<ClickRecord>): seq<int>
  {
    if history == [] then []
    else
      var cell := IntervalCell(history[|history| - 1].interval);
      CellIntervals(history[..|history| - 1]) + (if cell != [] then [ParseInt(cell)] else [])
  }

  /** When no record has a 0 interval, the export's interval cells give back
      exactly the intervals the live statistics are computed from. */
  lemma {:induction false} CellIntervalsRoundTrip(history: seq<ClickRecord>)
    requires forall i :: 0 <= i < |history| ==> history[i].interval != Some(0)
    ensures CellIntervals(history) == Intervals(history)
  {
    if history != [] {
      var n := |history| - 1;
      CellIntervalsRoundTrip(history[..n]);
      if history[n].interval.Some? {
        IntToStringRoundTrip(history[n].interval.value);
      }
    }
  }

  /** A 0 interval is written as an empty cell, like a missing one: the export
      cannot tell them apart, although the live statistics count the 0. */
  lemma ZeroIntervalLost(history: seq<ClickRecord>, c: ClickRecord)
    requires c.interval == Some(0)
    ensures Csv(history + [c]) == Csv(history + [c.(interval := None)])
    ensures Intervals(history + [c]) == Intervals(history) + [0]
    ensures Intervals(history + [c.(interval := None)]) == Intervals(history)
    ensures CellIntervals(history + [c]) == CellIntervals(history)
  {
    var missing := c.(interval := None);
    assert (history + [c])[..|history|] == history;
    assert (history + [missing])[..|history|] == history;
    assert RowCells(c) == RowCells(missing);
  }

  /** Two clicks at the same time: the live minimum interval is 0, while the
      same export with the interval missing yields no interval at all. */
  lemma ZeroIntervalExample()
    ensures var first := ClickRecord(1000, 0, 0, 0, None, []);
      && IntervalStatsOf([first, first.(interval := Some(0))]).min == Some(0)
      && IntervalStatsOf([first, first]).min == None
      && Csv([first, first.(interval := Some(0))]) == Csv([first, first])
  {
    var first := ClickRecord(1000, 0, 0, 0, None, []);
    ZeroIntervalLost([first], first.(interval := Some(0)));
    assert [first] + [first.(interval := Some(0))] == [first, first.(interval := Some(0))];
    assert [first] + [first] == [first, first];
    assert Intervals([first]) == [] by {
      assert [first][..0] == [];
    }
  }

  // ---------------------------------------------------------------------
  // Saved sessions

  /** One saved session: an id from the clock, the session time, its duration,
      its click count, anomaly rate, health score and test mode. */
  datatype HistoryEntry = HistoryEntry(id: int, timestamp: int, duration: int, totalClicks: nat,
                                       anomalyRate: real, healthScore: real, mode: string)

  const SessionHistoryCap: nat := 100

  /** Appends a session and keeps only the newest 100. */
  method SaveToHistory(history: seq<HistoryEntry>, entry: HistoryEntry) returns (saved: seq<HistoryEntry>)
    ensures |saved| == Min(|history| + 1, SessionHistoryCap)
    ensures saved != [] && saved[|saved| - 1] == entry
    ensures saved == (history + [entry])[|history| + 1 - |saved|..]
    ensures saved == LastN(history + [entry], SessionHistoryCap)
  {
    saved := history + [entry];
    if |saved| > SessionHistoryCap {
      saved := saved[|saved| - SessionHistoryCap..];
    }
  }

  /** Saving one session after another keeps the newest 100 of all of them,
      in order. */
  lemma SavesKeepNewest(history: seq<HistoryEntry>, a: HistoryEntry, b: HistoryEntry)
    ensures LastN(LastN(history + [a], SessionHistoryCap) + [b], SessionHistoryCap)
            == LastN(history + [a, b], SessionHistoryCap)
  {
    LastNAppend(history + [a], [b], SessionHistoryCap);
    assert history + [a] + [b] == history + [a, b];
  }
}
