// The silence line chart (src/components/charts/silence-line.jsx): each row of
// silences-new.csv becomes a point (minute, number of silences) and, in a
// parallel array, the text shown when that point is clicked.

module SilenceLine {
  import opened JsCollections
  import opened JsStrings

  /**
   * One row of silences-new.csv. The durations cell is `None` when the column
   * is absent (JavaScript `undefined`) and `Some("")` when the cell is empty.
   */
  datatype SilenceRow = SilenceRow(
    minute: string,               // "Minute"
    numSilences: string,          // "Number of Silences"
    durations: Option<string>)    // "Silence Durations (seconds)"

  /** An entry of `data1`: the JavaScript pair `[minute, numSilences]`. */
  datatype Point = Point(minute: real, silences: real)

  /** An entry of `silences`: `{ silenceInfo }`. */
  datatype SilenceEntry = SilenceEntry(silenceInfo: string)

  /** The text shown for a minute without recorded durations. */
  const NoData: string := "No silence data available"

  /**
   * The durations of one row: a missing or empty cell gives none; otherwise the
   * cell is split on ',' and each piece is trimmed and converted by `Number`
   * (passed in as `toNumber`), so there is one duration more than there are
   * commas, and the k-th is the k-th comma-separated piece, trimmed.
   */
  function Durations(cell: Option<string>, toNumber: string -> real): (ds: seq<real>)
    ensures cell == None || cell == Some("") ==> ds == []
    ensures cell.Some? && cell.value != "" ==>
              |ds| == CountChar(cell.value, ',') + 1 && |ds| == |Split(cell.value, ",")| &&
              forall k :: 0 <= k < |ds| ==> ds[k] == toNumber(Trim(Split(cell.value, ",")[k]))
  {
    match cell
    case None => []
    case Some(text) =>
      if text == "" then []
      else
        var pieces := Split(text, ",");
        SplitCharCount(text, ',');
        seq(|pieces|, k requires 0 <= k < |pieces| => toNumber(Trim(pieces[k])))
  }

  /**
   * `durations.length ? durations.join('\n') : NoData`, where each number is
   * turned into text by JavaScript's number-to-string conversion, passed in as
   * `show`.
   */
  function SilenceInfo(ds: seq<real>, show: real -> string): (info: string)
    ensures ds == [] ==> info == NoData
    ensures ds != [] && (forall k :: 0 <= k < |ds| ==> '\n' !in show(ds[k])) ==>
              Split(info, "\n") == Shown(ds, show)
  {
    if |ds| == 0 then NoData
    else
      var texts := Shown(ds, show);
      SplitJoin(texts, '\n');
      Join(texts, "\n")
  }

  /** `ds` with every number turned into text, as `join` does. */
  function Shown(ds: seq<real>, show: real -> string): (texts: seq<string>)
    ensures |texts| == |ds| && forall k :: 0 <= k < |ds| ==> texts[k] == show(ds[k])
  {
    seq(|ds|, k requires 0 <= k < |ds| => show(ds[k]))
  }

  /** The default message appears exactly when the row has no durations. */
  lemma SilenceInfoNoDataIff(ds: seq<real>, show: real -> string)
    requires forall k :: 0 <= k < |ds| ==> show(ds[k]) != NoData
    ensures SilenceInfo(ds, show) == NoData <==> ds == []
  {
    var shown := Shown(ds, show);
    if |ds| == 1 {
      assert SilenceInfo(ds, show) == show(ds[0]);
    } else if |ds| >= 2 {
      var info := SilenceInfo(ds, show);
      assert info == shown[0] + "\n" + Join(shown[1..], "\n");
      assert info[|shown[0]|] == '\n';
      assert forall k :: 0 <= k < |NoData| ==> NoData[k] != '\n';
    }
  }

  /** A row's text is never empty, so the click fallback never hides real durations. */
  lemma SilenceInfoNonEmpty(ds: seq<real>, show: real -> string)
    requires forall k :: 0 <= k < |ds| ==> show(ds[k]) != ""
    ensures SilenceInfo(ds, show) != ""
  {
    var shown := Shown(ds, show);
    if |ds| == 1 {
      assert SilenceInfo(ds, show) == show(ds[0]);
    } else if |ds| >= 2 {
      assert SilenceInfo(ds, show) == shown[0] + "\n" + Join(shown[1..], "\n");
    }
  }

  /** The point a row contributes: `[+row['Minute'], +row['Number of Silences']]`. */
  function RowPoint(row: SilenceRow, toNumber: string -> real): Point {
    Point(toNumber(row.minute), toNumber(row.numSilences))
  }

  /** The entry a row contributes. */
  function RowEntry(row: SilenceRow, toNumber: string -> real, show: real -> string): SilenceEntry {
    SilenceEntry(SilenceInfo(Durations(row.durations, toNumber), show))
  }

  /** `data1` after the loop: one point per row, in row order. */
  function Points(rows: seq<SilenceRow>, toNumber: string -> real): (data1: seq<Point>)
    ensures |data1| == |rows|
    ensures forall i :: 0 <= i < |rows| ==>
              data1[i].minute == toNumber(rows[i].minute) && data1[i].silences == toNumber(rows[i].numSilences)
  {
    seq(|rows|, i requires 0 <= i < |rows| => RowPoint(rows[i], toNumber))
  }

  /** `silences` after the loop: one entry per row, in row order. */
  function Entries(rows: seq<SilenceRow>, toNumber: string -> real, show: real -> string): (silences: seq<SilenceEntry>)
    ensures |silences| == |rows|
    ensures forall i :: 0 <= i < |rows| ==> silences[i] == RowEntry(rows[i], toNumber, show)
  {
    seq(|rows|, i requires 0 <= i < |rows| => RowEntry(rows[i], toNumber, show))
  }

  /**
   * `csvData.forEach(row => { parsedData1.push(...); parsedSilences.push(...); })`:
   * the two arrays are pushed in step, so after every row they have the same
   * length and entry `i` of each comes from row `i`.
   */
  method ParseSilences(rows: seq<SilenceRow>, toNumber: string -> real, show: real -> string)
    returns (data1: seq<Point>, silences: seq<SilenceEntry>)
    ensures data1 == Points(rows, toNumber)
    ensures silences == Entries(rows, toNumber, show)
  {
    data1, silences := [], [];
    for i := 0 to |rows|
      invariant data1 == Points(rows[..i], toNumber)
      invariant silences == Entries(rows[..i], toNumber, show)
    {
      var row := rows[i];
      var minute := toNumber(row.minute);
      var numSilences := toNumber(row.numSilences);
      var durations := Durations(row.durations, toNumber);
      data1 := data1 + [Point(minute, numSilences)];
      silences := silences + [SilenceEntry(SilenceInfo(durations, show))];
      assert rows[..i + 1] == rows[..i] + [row];
    }
    assert rows[..|rows|] == rows;
  }


  /**
   * `silences[index]?.silenceInfo || NoData`: the entry's text when the index
   * is in range and the text is not empty, the default message otherwise; the
   * result is never empty.
   */
  function ClickDetails(silences: seq<SilenceEntry>, index: int): (details: string)
    ensures details != ""
    ensures 0 <= index < |silences| && silences[index].silenceInfo != "" ==> details == silences[index].silenceInfo
    ensures 0 <= index < |silences| && silences[index].silenceInfo == "" ==> details == NoData
    ensures !(0 <= index < |silences|) ==> details == NoData
  {
    if 0 <= index < |silences| && silences[index].silenceInfo != "" then silences[index].silenceInfo
    else NoData
  }

  /**
   * Clicking the point of row `i` (`data1.indexOf(d)` finds the clicked datum
   * itself, at `i`) shows that row's durations, one per line, and the default
   * message exactly when the row has none.
   */
  lemma ClickShowsOwnRow(rows: seq<SilenceRow>, i: nat, toNumber: string -> real, show: real -> string)
    requires i < |rows|
    requires forall x :: show(x) != "" && show(x) != NoData
    ensures var details := ClickDetails(Entries(rows, toNumber, show), i);
            var ds := Durations(rows[i].durations, toNumber);
            details == SilenceInfo(ds, show) && (details == NoData <==> ds == [])
  {
    var ds := Durations(rows[i].durations, toNumber);
    SilenceInfoNonEmpty(ds, show);
    SilenceInfoNoDataIff(ds, show);
  }

  /** `if (!data1.length || !silences.length) return;`: the chart is drawn only when both arrays have entries. */
  predicate ShouldDraw(data1: seq<Point>, silences: seq<SilenceEntry>) {
    |data1| > 0 && |silences| > 0
  }

  /** Since the arrays are built in step, the chart is drawn exactly when the CSV has rows. */
  lemma DrawnIffRows(rows: seq<SilenceRow>, toNumber: string -> real, show: real -> string)
    ensures ShouldDraw(Points(rows, toNumber), Entries(rows, toNumber, show)) <==> rows != []
  {
  }
}
