// The rows of influence.csv, read by both the network diagram and the chord
// diagram: who influenced whom, how strongly, by what method and when.

module InfluenceData {

  /**
   * A CSV cell as JavaScript holds it: d3.csv yields text, and the network
   * diagram overwrites the numeric columns with numbers in place.
   */
  datatype Field = Text(text: string) | Numeric(value: real)

  datatype InfluenceRow = InfluenceRow(
    influencer: string,
    influenced: string,
    strength: Field,   // "Influence strength"
    means: string,     // "Method of influence"
    time: Field)       // "Time"

  /**
   * JavaScript's unary `+`: text goes through `Number(text)`, which is not part
   * of this model and is passed in as `toNumber`; a number is left as it is.
   */
  function UnaryPlus(f: Field, toNumber: string -> real): (v: real)
    ensures f.Numeric? ==> v == f.value
    ensures f.Text? ==> v == toNumber(f.text)
  {
    match f
    case Text(t) => toNumber(t)
    case Numeric(n) => n
  }

  /** The row names `name` on either side. */
  predicate Mentions(rows: seq<InfluenceRow>, name: string) {
    exists i :: 0 <= i < |rows| && (rows[i].influencer == name || rows[i].influenced == name)
  }

  /**
   * `rows.flatMap(d => [d.Influencer, d.Influenced])`: both labels of every
   * row, influencer first, in row order.
   */
  function Endpoints(rows: seq<InfluenceRow>): (labels: seq<string>)
    ensures |labels| == 2 * |rows|
    ensures forall i :: 0 <= i < |rows| ==>
              labels[2 * i] == rows[i].influencer && labels[2 * i + 1] == rows[i].influenced
    ensures forall name :: name in labels <==> Mentions(rows, name)
  {
    if rows == [] then []
    else
      var init := rows[..|rows| - 1];
      var last := rows[|rows| - 1];
      var labels := Endpoints(init) + [last.influencer, last.influenced];
      assert forall i :: 0 <= i < |init| ==> init[i] == rows[i];
      assert forall name :: name in labels ==> Mentions(rows, name) by {
        forall name | name in labels ensures Mentions(rows, name) {
          if name in Endpoints(init) {
            var i :| 0 <= i < |init| && (init[i].influencer == name || init[i].influenced == name);
            assert rows[i] == init[i];
          } else {
            assert rows[|rows| - 1] == last;
          }
        }
      }
      assert forall name :: Mentions(rows, name) ==> name in labels by {
        forall name | Mentions(rows, name) ensures name in labels {
          var i :| 0 <= i < |rows| && (rows[i].influencer == name || rows[i].influenced == name);
          if i < |init| {
            assert init[i] == rows[i];
            assert Mentions(init, name);
          }
        }
      }
      labels
  }
}
