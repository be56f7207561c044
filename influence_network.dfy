// The influence network diagram (src/components/charts/influence-network.jsx):
// the numeric coercion of the CSV rows, the node and link lists handed to the
// force simulation, the drag handlers that pin a node, and the tooltip with its
// auto-hide timer. The force physics itself belongs to d3 and is not modelled.

module InfluenceNetwork {
  import opened JsCollections
  import opened InfluenceData

  // ---------------------------------------------------------------------------
  // Numeric coercion of the rows, done in place before anything is built

  /** `d.Time = +d.Time; d["Influence strength"] = +d["Influence strength"]` on one row. */
  function Coerce(row: InfluenceRow, toNumber: string -> real): (r: InfluenceRow)
    ensures r.strength.Numeric? && r.time.Numeric?
    ensures r.strength.value == UnaryPlus(row.strength, toNumber)
    ensures r.time.value == UnaryPlus(row.time, toNumber)
    ensures r.influencer == row.influencer && r.influenced == row.influenced && r.means == row.means
  {
    row.(strength := Numeric(UnaryPlus(row.strength, toNumber)),
         time := Numeric(UnaryPlus(row.time, toNumber)))
  }

  /** Coercing a row that was already coerced changes nothing. */
  lemma CoerceIdempotent(row: InfluenceRow, toNumber: string -> real)
    ensures Coerce(Coerce(row, toNumber), toNumber) == Coerce(row, toNumber)
  {
  }

  /** `csvData.forEach(d => { ... })`: every row is coerced where it stands. */
  method CoerceRows(rows: array<InfluenceRow>, toNumber: string -> real)
    modifies rows
    ensures forall i :: 0 <= i < rows.Length ==> rows[i] == Coerce(old(rows[i]), toNumber)
  {
    var i := 0;
    while i < rows.Length
      invariant 0 <= i <= rows.Length
      invariant forall k :: 0 <= k < i ==> rows[k] == Coerce(old(rows[k]), toNumber)
      invariant forall k :: i <= k < rows.Length ==> rows[k] == old(rows[k])
    {
      rows[i] := Coerce(rows[i], toNumber);
      i := i + 1;
    }
  }

  // ---------------------------------------------------------------------------
  // Nodes and links

  /** The portrait table `nodeImages`. */
  const NodeImages: map<string, string> := map[
    "Juror 1" := "/data/pics/12angrymenjuror1.jpg",
    "Juror 2" := "/data/pics/12angrymenjuror2.jpg",
    "Juror 3" := "/data/pics/12angrymenjuror3.jpg",
    "Juror 4" := "/data/pics/12angrymenjuror4.jpg",
    "Juror 5" := "/data/pics/12angrymenjuror5.jpg",
    "Juror 6" := "/data/pics/12angrymenjuror6.jpg",
    "Juror 7" := "/data/pics/12angrymenjuror7.jpg",
    "Juror 8" := "/data/pics/12angrymenjuror8.jpg",
    "Juror 9" := "/data/pics/12angrymenjuror9.jpg",
    "Juror 10" := "/data/pics/12angrymenjuror10.jpg",
    "Juror 11" := "/data/pics/12angrymenjuror11.jpg",
    "Juror 12" := "/data/pics/12angrymenjuror12.jpg"
  ]

  /** `nodeImages[name] || null`: every table entry is a non-empty path, so only a missing name gives null. */
  function ImageUrl(name: string): (url: Option<string>)
    ensures url.Some? <==> name in NodeImages
    ensures url.Some? ==> url.value == NodeImages[name] && url.value != ""
  {
    if name in NodeImages then Some(NodeImages[name]) else None
  }

  datatype Node = Node(id: string, imageUrl: Option<string>)

  /** A link holds the node objects `find` returned (undefined when none matched). */
  datatype Link = Link(source: Option<Node>, target: Option<Node>, strength: Field, means: string, time: Field)

  datatype Graph = Graph(nodes: seq<Node>, links: seq<Link>)

  predicate HasId(nodes: seq<Node>, name: string) {
    exists k :: 0 <= k < |nodes| && nodes[k].id == name
  }

  /**
   * `Array.from(new Set(rows.flatMap(d => [d.Influencer, d.Influenced])), name => ...)`:
   * one node per distinct label, no two with the same id, ordered by where the
   * label first occurs, each carrying its portrait if the table has one.
   */
  function BuildNodes(rows: seq<InfluenceRow>): (nodes: seq<Node>)
    ensures forall i, j :: 0 <= i < j < |nodes| ==> nodes[i].id != nodes[j].id
    ensures forall name :: HasId(nodes, name) <==> Mentions(rows, name)
    ensures forall i, j :: 0 <= i < j < |nodes| ==>
              nodes[i].id in Endpoints(rows) && nodes[j].id in Endpoints(rows) &&
              FirstIndex(Endpoints(rows), nodes[i].id) < FirstIndex(Endpoints(rows), nodes[j].id)
    ensures forall i :: 0 <= i < |nodes| ==> nodes[i].imageUrl == ImageUrl(nodes[i].id)
  {
    var names := Distinct(Endpoints(rows));
    DistinctFirstOccurrenceOrder(Endpoints(rows));
    var nodes := seq(|names|, i requires 0 <= i < |names| => Node(names[i], ImageUrl(names[i])));
    assert forall name :: HasId(nodes, name) <==> name in names by {
      forall name | name in names ensures HasId(nodes, name) {
        var k :| 0 <= k < |names| && names[k] == name;
        assert nodes[k].id == name;
      }
    }
    nodes
  }

  /** `nodes.find(node => node.id === name)`. */
  function NodeNamed(nodes: seq<Node>, name: string): (r: Option<Node>)
    ensures r.None? <==> !HasId(nodes, name)
    ensures r.Some? ==> r.value in nodes && r.value.id == name
  {
    Find(nodes, (n: Node) => n.id == name)
  }

  /**
   * `rows.map(d => ({ source: find(...), target: find(...), strength, method, time }))`:
   * exactly one link per row, in row order, never merging rows that repeat a
   * pair; each endpoint is the node with the row's label when there is one,
   * and the metadata is copied unchanged.
   */
  function BuildLinks(rows: seq<InfluenceRow>, nodes: seq<Node>): (links: seq<Link>)
    ensures |links| == |rows|
    ensures forall i :: 0 <= i < |rows| ==>
              links[i].strength == rows[i].strength && links[i].means == rows[i].means &&
              links[i].time == rows[i].time
    ensures forall i :: 0 <= i < |rows| ==>
              (links[i].source.None? <==> !HasId(nodes, rows[i].influencer)) &&
              (links[i].target.None? <==> !HasId(nodes, rows[i].influenced))
    ensures forall i :: 0 <= i < |rows| ==>
              (links[i].source.Some? ==> links[i].source.value in nodes &&
                                         links[i].source.value.id == rows[i].influencer) &&
              (links[i].target.Some? ==> links[i].target.value in nodes &&
                                         links[i].target.value.id == rows[i].influenced)
  {
    seq(|rows|, i requires 0 <= i < |rows| =>
      Link(NodeNamed(nodes, rows[i].influencer), NodeNamed(nodes, rows[i].influenced),
           rows[i].strength, rows[i].means, rows[i].time))
  }

  /**
   * What the loading effect passes to `setData({ nodes, links })`: one node per
   * distinct label and one link per row, with the row's metadata.
   */
  function BuildGraph(rows: seq<InfluenceRow>): (g: Graph)
    ensures forall i, j :: 0 <= i < j < |g.nodes| ==> g.nodes[i].id != g.nodes[j].id
    ensures forall name :: HasId(g.nodes, name) <==> Mentions(rows, name)
    ensures |g.links| == |rows|
    ensures forall i :: 0 <= i < |rows| ==>
              g.links[i].strength == rows[i].strength && g.links[i].means == rows[i].means &&
              g.links[i].time == rows[i].time
  {
    var nodes := BuildNodes(rows);
    Graph(nodes, BuildLinks(rows, nodes))
  }

  /**
   * Referential integrity: because the nodes come from the same labels, no
   * lookup fails; every link's source and target is a node of the graph whose
   * id is the row's influencer and influenced label.
   */
  lemma {:induction false} GraphIntegrity(rows: seq<InfluenceRow>)
    ensures var g := BuildGraph(rows);
            |g.links| == |rows| &&
            forall i :: 0 <= i < |rows| ==>
              g.links[i].source.Some? && g.links[i].source.value in g.nodes &&
              g.links[i].source.value.id == rows[i].influencer &&
              g.links[i].target.Some? && g.links[i].target.value in g.nodes &&
              g.links[i].target.value.id == rows[i].influenced
  {
    var nodes := BuildNodes(rows);
    var links := BuildLinks(rows, nodes);
    forall i | 0 <= i < |rows|
      ensures HasId(nodes, rows[i].influencer) && HasId(nodes, rows[i].influenced)
    {
      assert Mentions(rows, rows[i].influencer) && Mentions(rows, rows[i].influenced);
    }
  }

  /** The loading effect's callback: coerce the rows in place, then build the graph from them. */
  method LoadGraph(rows: array<InfluenceRow>, toNumber: string -> real) returns (g: Graph)
    modifies rows
    ensures forall i :: 0 <= i < rows.Length ==> rows[i] == Coerce(old(rows[i]), toNumber)
    ensures g == BuildGraph(rows[..])
    ensures forall l :: l in g.links ==> l.strength.Numeric? && l.time.Numeric?
  {
    CoerceRows(rows, toNumber);
    g := BuildGraph(rows[..]);
  }

  // ---------------------------------------------------------------------------
  // Dragging a node

  /** The fields d3 keeps on a node object: its position and its pin. */
  class SimNode {
    const id: string
    var x: real
    var y: real
    var fx: Option<real>
    var fy: Option<real>

    constructor (id: string, x: real, y: real)
      ensures this.id == id && this.x == x && this.y == y && fx == None && fy == None
    {
      this.id, this.x, this.y := id, x, y;
      fx, fy := None, None;
    }
  }

  /** The part of the force simulation the drag handlers touch. */
  class Simulation {
    var alphaTarget: real
    var running: bool

    /** A new d3 simulation starts its timer with an alpha target of 0. */
    constructor ()
      ensures alphaTarget == 0.0 && running
    {
      alphaTarget, running := 0.0, true;
    }

    /** `simulation.alphaTarget(t)`. */
    method SetAlphaTarget(t: real)
      modifies this
      ensures alphaTarget == t && running == old(running)
    {
      alphaTarget := t;
    }

    /** `simulation.restart()`: the timer runs again. */
    method Restart()
      modifies this
      ensures running && alphaTarget == old(alphaTarget)
    {
      running := true;
    }
  }

  /** The alpha target a drag gesture holds the simulation at. */
  const ReheatTarget: real := 0.01

  /**
   * `dragstarted`: `eventActive` is the number of other gestures in progress.
   * The first gesture reheats the simulation; the node is pinned where it is.
   */
  method DragStarted(sim: Simulation, subject: SimNode, eventActive: nat)
    modifies sim, subject
    ensures subject.fx == Some(old(subject.x)) && subject.fy == Some(old(subject.y))
    ensures subject.x == old(subject.x) && subject.y == old(subject.y)
    ensures eventActive == 0 ==> sim.alphaTarget == ReheatTarget && sim.running
    ensures eventActive != 0 ==> sim.alphaTarget == old(sim.alphaTarget) && sim.running == old(sim.running)
  {
    if eventActive == 0 {
      sim.SetAlphaTarget(ReheatTarget);
      sim.Restart();
    }
    subject.fx := Some(subject.x);
    subject.fy := Some(subject.y);
  }

  /**
   * `dragged`: the pin follows the event's position (`event.x`, `event.y`,
   * which d3-drag reports as the pointer plus the offset at which the node
   * was grabbed).
   */
  method Dragged(subject: SimNode, eventX: real, eventY: real)
    modifies subject
    ensures subject.fx == Some(eventX) && subject.fy == Some(eventY)
    ensures subject.x == old(subject.x) && subject.y == old(subject.y)
  {
    subject.fx := Some(eventX);
    subject.fy := Some(eventY);
  }

  /**
   * `dragended`: the pin is released; the last gesture to end lets the
   * simulation cool back down.
   */
  method DragEnded(sim: Simulation, subject: SimNode, eventActive: nat)
    modifies sim, subject
    ensures subject.fx == None && subject.fy == None
    ensures subject.x == old(subject.x) && subject.y == old(subject.y)
    ensures eventActive == 0 ==> sim.alphaTarget == 0.0
    ensures eventActive != 0 ==> sim.alphaTarget == old(sim.alphaTarget)
    ensures sim.running == old(sim.running)
  {
    if eventActive == 0 {
      sim.SetAlphaTarget(0.0);
    }
    subject.fx := None;
    subject.fy := None;
  }

  /**
   * How `d3.drag()` drives the three handlers: it counts the gestures in
   * progress and reports, on start and end, how many others are active. Under
   * that protocol the simulation is held warm exactly while some node is
   * being dragged.
   */
  class DragGestures {
    const sim: Simulation
    var active: nat

    ghost predicate Valid()
      reads this, sim
    {
      sim.alphaTarget == if active > 0 then ReheatTarget else 0.0
    }

    constructor (sim: Simulation)
      requires sim.alphaTarget == 0.0
      ensures Valid() && this.sim == sim && active == 0
    {
      this.sim := sim;
      active := 0;
    }

    method Start(subject: SimNode)
      requires Valid()
      modifies this, sim, subject
      ensures Valid() && active == old(active) + 1
      ensures subject.fx == Some(old(subject.x)) && subject.fy == Some(old(subject.y))
      ensures subject.x == old(subject.x) && subject.y == old(subject.y)
      ensures old(active) == 0 ==> sim.running
      ensures old(active) > 0 ==> sim.running == old(sim.running)
    {
      var others := active;
      active := active + 1;
      DragStarted(sim, subject, others);
    }

    method Move(subject: SimNode, eventX: real, eventY: real)
      requires Valid() && active > 0
      modifies subject
      ensures Valid() && active == old(active)
      ensures subject.fx == Some(eventX) && subject.fy == Some(eventY)
      ensures subject.x == old(subject.x) && subject.y == old(subject.y)
    {
      Dragged(subject, eventX, eventY);
    }

    method End(subject: SimNode)
      requires Valid() && active > 0
      modifies this, sim, subject
      ensures Valid() && active == old(active) - 1
      ensures subject.fx == None && subject.fy == None
      ensures subject.x == old(subject.x) && subject.y == old(subject.y)
      ensures sim.running == old(sim.running)
    {
      active := active - 1;
      DragEnded(sim, subject, active);
    }
  }

  // ---------------------------------------------------------------------------
  // The tooltip and its auto-hide timer

  datatype TooltipInfo =
    | LinkInfo(source: string, target: string, strength: Field, means: string, time: Field)
    | NodeInfo(id: string, imageUrl: Option<string>)

  /** How long, in milliseconds, the tooltip stays after a click on a link or a node. */
  const LinkHideDelay: nat := 1200
  const NodeHideDelay: nat := 3000

  /**
   * The tooltip state: whether it shows, what it shows, the handle kept in
   * `tooltipTimeoutRef`, and the hide timers that are armed and have neither
   * fired nor been cleared (handle to delay). Timer handles are numbered in
   * the order `setTimeout` hands them out.
   */
  class Tooltip {
    var visible: bool
    var info: Option<TooltipInfo>
    var timeoutRef: Option<nat>
    var pending: map<nat, nat>
    var nextHandle: nat

    /** Every armed hide timer is the one the ref holds, so at most one is pending. */
    ghost predicate Valid()
      reads this
    {
      forall h :: h in pending ==> timeoutRef == Some(h) && h < nextHandle
    }

    constructor ()
      ensures Valid() && !visible && info == None && timeoutRef == None && pending == map[]
      ensures nextHandle == 0
    {
      visible, info, timeoutRef, pending, nextHandle := false, None, None, map[], 0;
    }

    /** `clearTimeout(tooltipTimeoutRef.current)`; clearing null or a spent handle does nothing. */
    method ClearTimeout()
      modifies this
      ensures pending == if old(timeoutRef).Some? then old(pending) - {old(timeoutRef).value} else old(pending)
      ensures visible == old(visible) && info == old(info) && timeoutRef == old(timeoutRef)
      ensures nextHandle == old(nextHandle)
    {
      if timeoutRef.Some? {
        pending := pending - {timeoutRef.value};
      }
    }

    /** `tooltipTimeoutRef.current = setTimeout(() => setTooltipVisible(false), delay)`. */
    method ArmHide(delay: nat)
      modifies this
      ensures timeoutRef == Some(old(nextHandle)) && nextHandle == old(nextHandle) + 1
      ensures pending == old(pending)[old(nextHandle) := delay]
      ensures visible == old(visible) && info == old(info)
    {
      pending := pending[nextHandle := delay];
      timeoutRef := Some(nextHandle);
      nextHandle := nextHandle + 1;
    }

    /** The click handler on a link; its endpoints were resolved when the graph was built. */
    method ClickLink(link: Link)
      requires Valid()
      requires link.source.Some? && link.target.Some?
      modifies this
      ensures Valid() && visible
      ensures info == Some(LinkInfo(link.source.value.id, link.target.value.id, link.strength, link.means, link.time))
      ensures pending == map[old(nextHandle) := LinkHideDelay]
      ensures timeoutRef == Some(old(nextHandle)) && nextHandle == old(nextHandle) + 1
    {
      info := Some(LinkInfo(link.source.value.id, link.target.value.id, link.strength, link.means, link.time));
      visible := true;
      ClearTimeout();
      ArmHide(LinkHideDelay);
    }

    /** The click handler on a node. */
    method ClickNode(node: Node)
      requires Valid()
      modifies this
      ensures Valid() && visible
      ensures info == Some(NodeInfo(node.id, node.imageUrl))
      ensures pending == map[old(nextHandle) := NodeHideDelay]
      ensures timeoutRef == Some(old(nextHandle)) && nextHandle == old(nextHandle) + 1
    {
      info := Some(NodeInfo(node.id, node.imageUrl));
      visible := true;
      ClearTimeout();
      ArmHide(NodeHideDelay);
    }

    /** The pointer leaves the drawing: hide at once and cancel the pending hide. */
    method MouseLeave()
      requires Valid()
      modifies this
      ensures Valid() && !visible && pending == map[]
      ensures info == old(info) && timeoutRef == old(timeoutRef) && nextHandle == old(nextHandle)
    {
      visible := false;
      ClearTimeout();
    }

    /** A pending hide timer runs out (a cleared one never does). */
    method HideTimerFires(handle: nat)
      requires Valid() && handle in pending
      modifies this
      ensures Valid() && !visible && pending == map[]
      ensures info == old(info) && timeoutRef == old(timeoutRef) && nextHandle == old(nextHandle)
    {
      visible := false;
      pending := pending - {handle};
    }
  }

  /** Whatever clicks and timeouts came before, no more than one hide is pending. */
  lemma AtMostOnePendingHide(t: Tooltip)
    requires t.Valid()
    ensures |t.pending.Keys| <= 1
    ensures t.pending != map[] ==> t.timeoutRef.Some? && t.pending.Keys == {t.timeoutRef.value}
  {
    if t.timeoutRef.Some? {
      var h := t.timeoutRef.value;
      if h in t.pending {
        assert t.pending.Keys == {h};
      } else {
        assert t.pending.Keys == {};
      }
    } else {
      assert t.pending.Keys == {};
    }
  }
}
