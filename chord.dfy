// The directed chord diagram (src/components/charts/chord.jsx): the list of
// jurors, the name-to-index table, the square influence matrix filled in place
// from the rows, and the rule that places and flips each group's label. The
// angular layout of groups and ribbons is computed by d3 and is an input here.

module ChordDiagram {
  import opened JsCollections
  import opened InfluenceData

  // ---------------------------------------------------------------------------
  // Jurors and their indices

  /**
   * `Array.from(new Set(data.flatMap(d => [d.Influencer, d.Influenced])))`:
   * every label once, in order of first occurrence.
   */
  function Jurors(rows: seq<InfluenceRow>): (jurors: seq<string>)
    ensures NoDuplicates(jurors)
    ensures forall name :: name in jurors <==> Mentions(rows, name)
    ensures forall i, j :: 0 <= i < j < |jurors| ==>
              FirstIndex(Endpoints(rows), jurors[i]) < FirstIndex(Endpoints(rows), jurors[j])
  {
    DistinctFirstOccurrenceOrder(Endpoints(rows));
    Distinct(Endpoints(rows))
  }

  /** There are jurors exactly when there are rows, so the early return on no rows skips an empty diagram only. */
  lemma NoJurorsIffNoRows(rows: seq<InfluenceRow>)
    ensures Jurors(rows) == [] <==> rows == []
  {
    if rows != [] {
      assert Mentions(rows, rows[0].influencer);
      assert rows[0].influencer in Jurors(rows);
    }
  }

  /** `jurors.map((juror, index) => [juror, index])`. */
  function Enumerate(jurors: seq<string>): (entries: seq<(string, nat)>)
    ensures |entries| == |jurors|
    ensures forall i :: 0 <= i < |jurors| ==> entries[i] == (jurors[i], i)
  {
    seq(|jurors|, i requires 0 <= i < |jurors| => (jurors[i], i))
  }

  /**
   * `Object.fromEntries(...)`: for a duplicate-free juror list, a bijection
   * between the names and 0..n-1 that sends `jurors[i]` to `i`.
   */
  function JurorIndex(jurors: seq<string>): (index: map<string, nat>)
    ensures forall name :: name in index <==> name in jurors
    ensures NoDuplicates(jurors) ==> forall i :: 0 <= i < |jurors| ==> index[jurors[i]] == i
    ensures NoDuplicates(jurors) ==>
              forall name :: name in index ==> index[name] < |jurors| && jurors[index[name]] == name
  {
    var entries := Enumerate(jurors);
    var index := FromEntries(entries);
    assert forall name :: name in index <==> name in jurors by {
      forall name | name in jurors ensures name in index {
        var i :| 0 <= i < |jurors| && jurors[i] == name;
        assert entries[i].0 == name;
      }
    }
    if NoDuplicates(jurors) then
      assert forall i :: 0 <= i < |jurors| ==> index[jurors[i]] == i by {
        forall i | 0 <= i < |jurors| ensures index[jurors[i]] == i {
          FromEntriesLastWins(entries, i);
        }
      }
      index
    else
      index
  }

  // ---------------------------------------------------------------------------
  // The influence matrix

  /**
   * The value the fill leaves in the cell from `a` to `b`: the strength of the
   * last row from `a` to `b`, or 0 when no row has that pair.
   */
  function WrittenValue(rows: seq<InfluenceRow>, a: string, b: string, toNumber: string -> real): real {
    if rows == [] then 0.0
    else
      var last := rows[|rows| - 1];
      if last.influencer == a && last.influenced == b then UnaryPlus(last.strength, toNumber)
      else WrittenValue(rows[..|rows| - 1], a, b, toNumber)
  }

  /** A pair that no row names keeps its initial 0. */
  lemma {:induction false} UnwrittenCellIsZero(rows: seq<InfluenceRow>, a: string, b: string, toNumber: string -> real)
    requires forall k :: 0 <= k < |rows| ==> !(rows[k].influencer == a && rows[k].influenced == b)
    ensures WrittenValue(rows, a, b, toNumber) == 0.0
  {
    if rows != [] {
      UnwrittenCellIsZero(rows[..|rows| - 1], a, b, toNumber);
    }
  }

  /**
   * Last write wins: the cell holds the strength of the last row naming the
   * pair; earlier rows with the same pair are overwritten, not added.
   */
  lemma {:induction false} LastWriteWins(rows: seq<InfluenceRow>, k: nat, toNumber: string -> real)
    requires k < |rows|
    requires forall j :: k < j < |rows| ==>
               !(rows[j].influencer == rows[k].influencer && rows[j].influenced == rows[k].influenced)
    ensures WrittenValue(rows, rows[k].influencer, rows[k].influenced, toNumber) == UnaryPlus(rows[k].strength, toNumber)
  {
    if k < |rows| - 1 {
      LastWriteWins(rows[..|rows| - 1], k, toNumber);
    }
  }

  /** A self-influence row is kept: it writes the diagonal cell of its juror. */
  lemma SelfInfluenceOnDiagonal(rows: seq<InfluenceRow>, k: nat, toNumber: string -> real)
    requires k < |rows| && rows[k].influencer == rows[k].influenced
    requires forall j :: k < j < |rows| ==>
               !(rows[j].influencer == rows[k].influencer && rows[j].influenced == rows[k].influencer)
    ensures var a := rows[k].influencer;
            WrittenValue(rows, a, a, toNumber) == UnaryPlus(rows[k].strength, toNumber)
  {
    LastWriteWins(rows, k, toNumber);
  }

  /** `Array.from({ length: n }, () => Array(n).fill(0))`: n fresh rows of n zeros. */
  method ZeroMatrix(n: nat) returns (matrix: array2<real>)
    ensures fresh(matrix) && matrix.Length0 == n && matrix.Length1 == n
    ensures forall i, j :: 0 <= i < n && 0 <= j < n ==> matrix[i, j] == 0.0
  {
    matrix := new real[n, n]((i, j) => 0.0);
  }

  /** `data.forEach(d => { matrix[jurorIndex[d.Influencer]][jurorIndex[d.Influenced]] = +d["Influence strength"]; })`. */
  method FillMatrix(rows: seq<InfluenceRow>, jurors: seq<string>, matrix: array2<real>, toNumber: string -> real)
    requires NoDuplicates(jurors)
    requires forall k :: 0 <= k < |rows| ==> rows[k].influencer in jurors && rows[k].influenced in jurors
    requires matrix.Length0 == |jurors| && matrix.Length1 == |jurors|
    requires forall i, j :: 0 <= i < |jurors| && 0 <= j < |jurors| ==> matrix[i, j] == 0.0
    modifies matrix
    ensures forall i, j :: 0 <= i < |jurors| && 0 <= j < |jurors| ==>
              matrix[i, j] == WrittenValue(rows, jurors[i], jurors[j], toNumber)
  {
    var index := JurorIndex(jurors);
    var n := |jurors|;
    for k := 0 to |rows|
      invariant forall i, j :: 0 <= i < n && 0 <= j < n ==>
                  matrix[i, j] == WrittenValue(rows[..k], jurors[i], jurors[j], toNumber)
    {
      var row := rows[k];
      var from := index[row.influencer];
      var to := index[row.influenced];
      matrix[from, to] := UnaryPlus(row.strength, toNumber);
      assert rows[..k + 1][..k] == rows[..k];
      forall i, j | 0 <= i < n && 0 <= j < n
        ensures matrix[i, j] == WrittenValue(rows[..k + 1], jurors[i], jurors[j], toNumber)
      {
        if i == from && j == to {
        } else {
          assert jurors[i] != row.influencer || jurors[j] != row.influenced;
        }
      }
    }
    assert rows[..|rows|] == rows;
  }

  /**
   * The matrix handed to `d3.chordDirected()`: n x n over the jurors, and the
   * cell for `jurors[i]` to `jurors[j]` holds the last strength written for
   * that ordered pair, 0 if none.
   */
  method BuildMatrix(rows: seq<InfluenceRow>, toNumber: string -> real)
    returns (jurors: seq<string>, matrix: array2<real>)
    ensures jurors == Jurors(rows)
    ensures fresh(matrix) && matrix.Length0 == |jurors| && matrix.Length1 == |jurors|
    ensures forall i, j :: 0 <= i < |jurors| && 0 <= j < |jurors| ==>
              matrix[i, j] == WrittenValue(rows, jurors[i], jurors[j], toNumber)
  {
    jurors := Jurors(rows);
    assert forall k :: 0 <= k < |rows| ==> Mentions(rows, rows[k].influencer) && Mentions(rows, rows[k].influenced);
    matrix := ZeroMatrix(|jurors|);
    FillMatrix(rows, jurors, matrix, toNumber);
  }

  /** The drawing effect: nothing is computed or drawn when there are no rows. */
  method ChordEffect(rows: seq<InfluenceRow>, toNumber: string -> real)
    returns (drawn: bool, jurors: seq<string>, matrix: array2<real>)
    ensures drawn <==> rows != []
    ensures jurors == Jurors(rows)
    ensures fresh(matrix) && matrix.Length0 == |jurors| && matrix.Length1 == |jurors|
    ensures forall i, j :: 0 <= i < |jurors| && 0 <= j < |jurors| ==>
              matrix[i, j] == WrittenValue(rows, jurors[i], jurors[j], toNumber)
  {
    if |rows| == 0 {
      NoJurorsIffNoRows(rows);
      drawn, jurors := false, [];
      matrix := new real[0, 0];
      return;
    }
    drawn := true;
    jurors, matrix := BuildMatrix(rows, toNumber);
  }

  // ---------------------------------------------------------------------------
  // Group labels

  /** `Math.PI`, the double nearest to pi, as an exact fraction. */
  const Pi: real := 884279719003555.0 / 281474976710656.0

  /**
   * A group's label: its angle, the `rotate(...)` in degrees that turns the
   * text out to the group, whether it gets the extra `rotate(180)`, and its
   * `text-anchor` (null when absent).
   */
  datatype Label = Label(angle: real, rotation: real, flipped: bool, anchor: Option<string>)

  /**
   * The label for a group spanning `startAngle` to `endAngle` (d3 angles in
   * radians, clockwise from twelve o'clock): placed at the middle of the arc,
   * and turned over and anchored at its end exactly when it sits past pi,
   * that is exactly when its outward rotation exceeds 90 degrees.
   */
  function GroupLabel(startAngle: real, endAngle: real): (l: Label)
    ensures l.angle - startAngle == endAngle - l.angle
    ensures l.rotation == l.angle * 180.0 / Pi - 90.0
    ensures l.flipped <==> l.angle > Pi
    ensures l.flipped <==> l.rotation > 90.0
    ensures l.anchor == (if l.flipped then Some("end") else None)
  {
    var angle := (startAngle + endAngle) / 2.0;
    var rotation := angle * 180.0 / Pi - 90.0;
    var flipped := angle > Pi;
    Label(angle, rotation, flipped, if flipped then Some("end") else None)
  }

  /** The rotation the text ends up with, with the flip included. */
  function NetRotation(l: Label): (r: real)
    ensures r == l.rotation || r == l.rotation + 180.0
    ensures r != l.rotation <==> l.flipped
  {
    l.rotation + (if l.flipped then 180.0 else 0.0)
  }

  /**
   * The point of the flip: for any group inside the circle, the label's final
   * rotation, taken into (-180, 180], lies within 90 degrees of horizontal, so
   * no label is drawn upside down.
   */
  lemma LabelsReadUpright(startAngle: real, endAngle: real)
    requires 0.0 <= startAngle <= endAngle <= 2.0 * Pi
    ensures var r := NetRotation(GroupLabel(startAngle, endAngle));
            var normal := if r > 180.0 then r - 360.0 else r;
            -90.0 <= normal <= 90.0
  {
    var l := GroupLabel(startAngle, endAngle);
    assert 0.0 <= l.angle <= 2.0 * Pi;
    assert l.rotation == l.angle * 180.0 / Pi - 90.0;
    assert -90.0 <= l.rotation <= 270.0;
  }
}
