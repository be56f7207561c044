// The topic co-occurrence graph (src/components/charts/vintage_graph.jsx): each
// argument topic of arguments.csv lists the jurors involved; every two jurors
// named by the same topic are linked, and clicking a juror highlights it and
// its neighbours.

module TopicGraph {
  import opened JsCollections
  import opened JsStrings

  // ---------------------------------------------------------------------------
  // Parsing the rows

  /** One row of arguments.csv as d3.csv yields it: every cell is text. */
  datatype ArgumentRow = ArgumentRow(
    topic: string,          // "Topic"
    timeStart: string,      // "Time Start (min)"
    timeEnd: string,        // "Time End (min)"
    duration: string,       // "Duration (min)"
    intensity: string,      // "Intensity (1-5)"
    keyJurors: string,      // "Key Jurors Involved"
    description: string)    // "Description"

  datatype Topic = Topic(
    id: nat, topic: string, start: real, end: real, duration: real, intensity: real,
    keyJurors: seq<string>, description: string)

  /** The separator between names in the "Key Jurors Involved" column. */
  const JurorSeparator: string := ", "

  /**
   * `parsedData.map((d, i) => ({ id: i, ... }))`: one topic per row, numbered by
   * row; the numeric columns go through `Number`, passed in as `toNumber`; the
   * juror list is the column split on ", ", so it has at least one name, no
   * name contains the separator, and joining the names back gives the column.
   */
  function ParseTopics(rows: seq<ArgumentRow>, toNumber: string -> real): (topics: seq<Topic>)
    ensures |topics| == |rows|
    ensures forall i :: 0 <= i < |rows| ==> topics[i].id == i
    ensures forall i :: 0 <= i < |rows| ==>
              topics[i].topic == rows[i].topic && topics[i].description == rows[i].description &&
              topics[i].start == toNumber(rows[i].timeStart) && topics[i].end == toNumber(rows[i].timeEnd) &&
              topics[i].duration == toNumber(rows[i].duration) && topics[i].intensity == toNumber(rows[i].intensity)
    ensures forall i :: 0 <= i < |rows| ==>
              |topics[i].keyJurors| >= 1 && Join(topics[i].keyJurors, JurorSeparator) == rows[i].keyJurors
    ensures forall i, k :: 0 <= i < |rows| && 0 <= k < |topics[i].keyJurors| ==>
              !Contains(topics[i].keyJurors[k], JurorSeparator)
  {
    var topics := seq(|rows|, i requires 0 <= i < |rows| =>
      var d := rows[i];
      Topic(i, d.topic, toNumber(d.timeStart), toNumber(d.timeEnd), toNumber(d.duration),
            toNumber(d.intensity), Split(d.keyJurors, JurorSeparator), d.description));
    forall i | 0 <= i < |rows|
      ensures Join(topics[i].keyJurors, JurorSeparator) == rows[i].keyJurors
      ensures forall k :: 0 <= k < |topics[i].keyJurors| ==> !Contains(topics[i].keyJurors[k], JurorSeparator)
    {
      JoinSplit(rows[i].keyJurors, JurorSeparator);
      SplitPiecesLackSeparator(rows[i].keyJurors, JurorSeparator);
    }
    topics
  }

  // ---------------------------------------------------------------------------
  // Juror nodes

  datatype JurorNode = JurorNode(id: string)

  /** The juror list of every topic, in topic order. */
  function KeyJurorLists(topics: seq<Topic>): (lists: seq<seq<string>>)
    ensures |lists| == |topics| && forall i :: 0 <= i < |topics| ==> lists[i] == topics[i].keyJurors
  {
    seq(|topics|, i requires 0 <= i < |topics| => topics[i].keyJurors)
  }

  /** `data.flatMap(d => d.keyJurors)`. */
  function AllKeyJurors(topics: seq<Topic>): (names: seq<string>)
    ensures forall name :: name in names <==> Involved(topics, name)
  {
    var lists := KeyJurorLists(topics);
    assert forall name :: name in Flatten(lists) <==> Involved(topics, name) by {
      forall name | Involved(topics, name) ensures name in Flatten(lists) {
        var i :| 0 <= i < |topics| && name in topics[i].keyJurors;
        assert name in lists[i];
      }
    }
    Flatten(lists)
  }

  /**
   * `flatMap` keeps topic order: the names of an added topic follow, in their
   * own order, all names of the topics before it.
   */
  lemma AllKeyJurorsAppend(topics: seq<Topic>, t: Topic)
    ensures AllKeyJurors([]) == []
    ensures AllKeyJurors(topics + [t]) == AllKeyJurors(topics) + t.keyJurors
  {
    assert KeyJurorLists(topics + [t]) == KeyJurorLists(topics) + [t.keyJurors];
    FlattenAppend(KeyJurorLists(topics), [t.keyJurors]);
  }

  /** Some topic names `name` among its key jurors. */
  predicate Involved(topics: seq<Topic>, name: string) {
    exists i :: 0 <= i < |topics| && name in topics[i].keyJurors
  }

  predicate HasJuror(nodes: seq<JurorNode>, name: string) {
    exists k :: 0 <= k < |nodes| && nodes[k].id == name
  }

  /**
   * `Array.from(new Set(data.flatMap(d => d.keyJurors))).map(juror => ({ id: juror }))`:
   * one node per juror named anywhere, none twice, in order of first mention.
   */
  function JurorNodes(topics: seq<Topic>): (nodes: seq<JurorNode>)
    ensures forall i, j :: 0 <= i < j < |nodes| ==> nodes[i].id != nodes[j].id
    ensures forall name :: HasJuror(nodes, name) <==> Involved(topics, name)
    ensures forall i, j :: 0 <= i < j < |nodes| ==>
              nodes[i].id in AllKeyJurors(topics) && nodes[j].id in AllKeyJurors(topics) &&
              FirstIndex(AllKeyJurors(topics), nodes[i].id) < FirstIndex(AllKeyJurors(topics), nodes[j].id)
  {
    var names := Distinct(AllKeyJurors(topics));
    DistinctFirstOccurrenceOrder(AllKeyJurors(topics));
    var nodes := seq(|names|, i requires 0 <= i < |names| => JurorNode(names[i]));
    assert forall name :: HasJuror(nodes, name) <==> name in names by {
      forall name | name in names ensures HasJuror(nodes, name) {
        var k :| 0 <= k < |names| && names[k] == name;
        assert nodes[k].id == name;
      }
    }
    nodes
  }

  // ---------------------------------------------------------------------------
  // Co-occurrence links

  datatype CoLink = CoLink(source: string, target: string, intensity: real, time: real, topic: string)

  /** The link pushed for jurors `i < j` of one topic. */
  function PairLink(t: Topic, i: nat, j: nat): (l: CoLink)
    requires i < j < |t.keyJurors|
    ensures l.source == t.keyJurors[i] && l.target == t.keyJurors[j]
    ensures l.intensity == t.intensity && l.time == t.start && l.topic == t.topic
  {
    CoLink(t.keyJurors[i], t.keyJurors[j], t.intensity, t.start, t.topic)
  }

  /** The links the inner loop pushes for a fixed `i`: `j` from `i + 1` up. */
  function LinksFrom(t: Topic, i: nat): (links: seq<CoLink>)
    requires i < |t.keyJurors|
    ensures |links| == |t.keyJurors| - i - 1
  {
    seq(|t.keyJurors| - i - 1, m requires 0 <= m < |t.keyJurors| - i - 1 => PairLink(t, i, i + 1 + m))
  }

  /** The links pushed for one topic before the outer loop reaches `i`. */
  function LinksBefore(t: Topic, i: nat): seq<CoLink>
    requires i <= |t.keyJurors|
  {
    if i == 0 then [] else LinksBefore(t, i - 1) + LinksFrom(t, i - 1)
  }

  /** All links of one topic. */
  function TopicLinks(t: Topic): seq<CoLink> {
    LinksBefore(t, |t.keyJurors|)
  }

  /** All links, topic after topic. */
  function AllLinks(topics: seq<Topic>): seq<CoLink> {
    if topics == [] then []
    else AllLinks(topics[..|topics| - 1]) + TopicLinks(topics[|topics| - 1])
  }

  /**
   * `data.forEach(topic => { for (i ...) for (j = i + 1 ...) links.push(...) })`:
   * the links array grown by `push` is exactly `AllLinks(topics)`.
   */
  method BuildLinks(topics: seq<Topic>) returns (links: seq<CoLink>)
    ensures links == AllLinks(topics)
  {
    links := [];
    for ti := 0 to |topics|
      invariant links == AllLinks(topics[..ti])
    {
      var t := topics[ti];
      var n := |t.keyJurors|;
      ghost var before := links;
      for i := 0 to n
        invariant links == before + LinksBefore(t, i)
      {
        for j := i + 1 to n
          invariant links == before + LinksBefore(t, i) + LinksFrom(t, i)[..j - i - 1]
        {
          links := links + [CoLink(t.keyJurors[i], t.keyJurors[j], t.intensity, t.start, t.topic)];
          assert LinksFrom(t, i)[..j - i] == LinksFrom(t, i)[..j - i - 1] + [PairLink(t, i, j)];
        }
        assert LinksFrom(t, i)[..n - i - 1] == LinksFrom(t, i);
      }
      assert topics[..ti + 1][..ti] == topics[..ti];
    }
    assert topics[..|topics|] == topics;
  }

  /** Where the link for jurors `i < j` of a topic with `k` jurors sits among that topic's links. */
  function PairIndex(k: nat, i: nat, j: nat): int {
    i * (2 * k - i - 1) / 2 + (j - i - 1)
  }

  /** Twice the number of links pushed before row `i` is `i * (2k - i - 1)`. */
  lemma {:induction false} LinksBeforeLength(t: Topic, i: nat)
    requires i <= |t.keyJurors|
    ensures 2 * |LinksBefore(t, i)| == i * (2 * |t.keyJurors| - i - 1)
  {
    if i > 0 {
      LinksBeforeLength(t, i - 1);
      var k := |t.keyJurors|;
      assert 2 * |LinksBefore(t, i)| == (i - 1) * (2 * k - i) + 2 * (k - i);
      assert (i - 1) * (2 * k - i) + 2 * (k - i) == i * (2 * k - i - 1);
    }
  }

  /** A topic naming k jurors contributes exactly k(k-1)/2 links. */
  lemma TopicLinkCount(t: Topic)
    ensures |TopicLinks(t)| == |t.keyJurors| * (|t.keyJurors| - 1) / 2
  {
    LinksBeforeLength(t, |t.keyJurors|);
  }

  /** Later rows only append: the links pushed before row `i` are a prefix of those before row `i'`. */
  lemma {:induction false} LinksBeforePrefix(t: Topic, i: nat, i': nat)
    requires i <= i' <= |t.keyJurors|
    ensures |LinksBefore(t, i)| <= |LinksBefore(t, i')|
    ensures LinksBefore(t, i) == LinksBefore(t, i')[..|LinksBefore(t, i)|]
  {
    if i < i' {
      LinksBeforePrefix(t, i, i' - 1);
    }
  }

  /**
   * The link for jurors `i < j` is at position `PairIndex(k, i, j)` of its
   * topic's links, runs from `keyJurors[i]` to `keyJurors[j]` and carries the
   * topic's intensity, start time and name.
   */
  lemma TopicLinkAt(t: Topic, i: nat, j: nat)
    requires i < j < |t.keyJurors|
    ensures 0 <= PairIndex(|t.keyJurors|, i, j) < |TopicLinks(t)|
    ensures TopicLinks(t)[PairIndex(|t.keyJurors|, i, j)] ==
              CoLink(t.keyJurors[i], t.keyJurors[j], t.intensity, t.start, t.topic)
  {
    PairIndexIsOffset(t, i, j);
    LinksBeforePrefix(t, i + 1, |t.keyJurors|);
    RowLinkAt(t, i, j);
  }

  /** The closed form counts the links of the rows before `i`, then the place within row `i`. */
  lemma PairIndexIsOffset(t: Topic, i: nat, j: nat)
    requires i < j < |t.keyJurors|
    ensures PairIndex(|t.keyJurors|, i, j) == |LinksBefore(t, i)| + (j - i - 1)
  {
    LinksBeforeLength(t, i);
  }

  /** Within the links up to row `i`, the link for `i < j` sits right after the earlier rows. */
  lemma RowLinkAt(t: Topic, i: nat, j: nat)
    requires i < j < |t.keyJurors|
    ensures |LinksBefore(t, i)| + (j - i - 1) < |LinksBefore(t, i + 1)|
    ensures LinksBefore(t, i + 1)[|LinksBefore(t, i)| + (j - i - 1)] == PairLink(t, i, j)
  {
    assert LinksBefore(t, i + 1) == LinksBefore(t, i) + LinksFrom(t, i);
    assert LinksFrom(t, i)[j - i - 1] == PairLink(t, i, j);
  }

  /**
   * The positions follow the lexicographic order of the pairs: the links of a
   * topic are ordered by `i`, then by `j`.
   */
  lemma PairIndexLexicographic(k: nat, i: nat, j: nat, i': nat, j': nat)
    requires i < j < k && i' < j' < k
    requires i < i' || (i == i' && j < j')
    ensures PairIndex(k, i, j) < PairIndex(k, i', j')
  {
    if i < i' {
      var t := Topic(0, "", 0.0, 0.0, 0.0, 0.0, seq(k, _ => ""), "");
      LinksBeforeLength(t, i);
      LinksBeforeLength(t, i + 1);
      LinksBeforeLength(t, i');
      LinksBeforePrefix(t, i + 1, i');
      assert PairIndex(k, i, j) == |LinksBefore(t, i)| + (j - i - 1);
      assert PairIndex(k, i', j') == |LinksBefore(t, i')| + (j' - i' - 1);
      assert |LinksBefore(t, i + 1)| == |LinksBefore(t, i)| + (k - i - 1);
    }
  }

  /** Every link of a topic joins two of its jurors and carries its intensity, start and name. */
  lemma {:induction false} TopicLinkFields(t: Topic, i: nat)
    requires i <= |t.keyJurors|
    ensures forall l :: l in LinksBefore(t, i) ==>
              l.source in t.keyJurors && l.target in t.keyJurors &&
              l.intensity == t.intensity && l.time == t.start && l.topic == t.topic
  {
    if i > 0 {
      TopicLinkFields(t, i - 1);
      forall l | l in LinksFrom(t, i - 1)
        ensures l.source in t.keyJurors && l.target in t.keyJurors
        ensures l.intensity == t.intensity && l.time == t.start && l.topic == t.topic
      {
        var m :| 0 <= m < |LinksFrom(t, i - 1)| && LinksFrom(t, i - 1)[m] == l;
        assert l == PairLink(t, i - 1, i + m);
      }
    }
  }

  /** Total number of links: the sum over topics of k(k-1)/2. */
  function LinkCount(topics: seq<Topic>): nat {
    if topics == [] then 0
    else
      var k := |topics[|topics| - 1].keyJurors|;
      LinkCount(topics[..|topics| - 1]) + k * (k - 1) / 2
  }

  /** The link list has one link per pair of jurors of each topic, and no other. */
  lemma {:induction false} AllLinksCount(topics: seq<Topic>)
    ensures |AllLinks(topics)| == LinkCount(topics)
  {
    if topics != [] {
      AllLinksCount(topics[..|topics| - 1]);
      TopicLinkCount(topics[|topics| - 1]);
    }
  }

  /** Adding topics only appends links. */
  lemma {:induction false} AllLinksPrefix(topics: seq<Topic>, m: nat)
    requires m <= |topics|
    ensures |AllLinks(topics[..m])| <= |AllLinks(topics)|
    ensures AllLinks(topics[..m]) == AllLinks(topics)[..|AllLinks(topics[..m])|]
  {
    if m < |topics| {
      var init := topics[..|topics| - 1];
      assert init[..m] == topics[..m];
      AllLinksPrefix(init, m);
    } else {
      assert topics[..m] == topics;
    }
  }

  /**
   * Links are ordered by topic: topic `m`'s links form the block right after
   * those of the topics before it.
   */
  lemma TopicBlock(topics: seq<Topic>, m: nat)
    requires m < |topics|
    ensures var lo := LinkCount(topics[..m]);
            lo + |TopicLinks(topics[m])| <= |AllLinks(topics)| &&
            AllLinks(topics)[lo..lo + |TopicLinks(topics[m])|] == TopicLinks(topics[m])
  {
    AllLinksPrefix(topics, m + 1);
    AllLinksCount(topics[..m]);
    var upTo := topics[..m + 1];
    assert upTo[..m] == topics[..m] && upTo[m] == topics[m];
    assert AllLinks(upTo) == AllLinks(topics[..m]) + TopicLinks(topics[m]);
  }

  /** Every link of the graph joins two jurors that have nodes, and carries the data of a topic. */
  lemma {:induction false} LinksJoinJurorNodes(topics: seq<Topic>)
    ensures forall l :: l in AllLinks(topics) ==>
              HasJuror(JurorNodes(topics), l.source) && HasJuror(JurorNodes(topics), l.target) &&
              exists m :: 0 <= m < |topics| && l.intensity == topics[m].intensity &&
                          l.time == topics[m].start && l.topic == topics[m].topic
  {
    if topics != [] {
      var init, last := topics[..|topics| - 1], topics[|topics| - 1];
      LinksJoinJurorNodes(init);
      TopicLinkFields(last, |last.keyJurors|);
      forall l | l in AllLinks(topics)
        ensures Involved(topics, l.source) && Involved(topics, l.target)
        ensures exists m :: 0 <= m < |topics| && l.intensity == topics[m].intensity &&
                            l.time == topics[m].start && l.topic == topics[m].topic
      {
        if l in AllLinks(init) {
          assert HasJuror(JurorNodes(init), l.source) && HasJuror(JurorNodes(init), l.target);
          var a :| 0 <= a < |init| && l.source in init[a].keyJurors;
          var b :| 0 <= b < |init| && l.target in init[b].keyJurors;
          assert init[a] == topics[a] && init[b] == topics[b];
          var m :| 0 <= m < |init| && l.intensity == init[m].intensity &&
                   l.time == init[m].start && l.topic == init[m].topic;
          assert init[m] == topics[m];
        } else {
          assert l in TopicLinks(last);
          assert topics[|topics| - 1] == last;
        }
      }
    }
  }

  // ---------------------------------------------------------------------------
  // Selection and highlighting

  /** `setSelectedNodeId(selectedNodeId === d.id ? null : d.id)`: clicking the selected juror clears the selection, any other selects it. */
  function Toggle(selected: Option<string>, clicked: string): (next: Option<string>)
    ensures next == None <==> selected == Some(clicked)
    ensures next != None ==> next == Some(clicked)
  {
    if selected == Some(clicked) then None else Some(clicked)
  }

  /** Clicking the same juror twice returns to no selection, unless it was the one selected to begin with. */
  lemma ToggleTwice(selected: Option<string>, clicked: string)
    ensures Toggle(Toggle(selected, clicked), clicked) == if selected == Some(clicked) then selected else None
  {
  }

  predicate Touches(l: CoLink, name: string) {
    l.source == name || l.target == name
  }

  /** Some link runs between `a` and `b`, in either direction. */
  predicate Adjacent(links: seq<CoLink>, a: string, b: string) {
    exists k :: 0 <= k < |links| &&
      ((links[k].source == a && links[k].target == b) || (links[k].source == b && links[k].target == a))
  }

  const FullLinkOpacity: real := 0.8
  const FullNodeOpacity: real := 1.0
  const DimOpacity: real := 0.2

  /** A link is drawn at 0.8 when nothing is selected or it touches the selected juror, else at 0.2. */
  function LinkOpacity(selected: Option<string>, l: CoLink): (o: real)
    ensures o == FullLinkOpacity <==> selected.None? || Touches(l, selected.value)
    ensures o == FullLinkOpacity || o == DimOpacity
  {
    if selected == None || l.source == selected.value || l.target == selected.value
    then FullLinkOpacity else DimOpacity
  }

  /** `links.some(link => (link touches a) && (link touches b))`. */
  function SomeLinkTouchesBoth(links: seq<CoLink>, a: string, b: string): (found: bool)
    ensures found <==> exists k :: 0 <= k < |links| && Touches(links[k], a) && Touches(links[k], b)
  {
    if links == [] then false
    else if Touches(links[0], a) && Touches(links[0], b) then true
    else
      var found := SomeLinkTouchesBoth(links[1..], a, b);
      assert forall k :: 1 <= k < |links| ==> links[k] == links[1..][k - 1];
      found
  }

  /**
   * A juror is drawn at full opacity when nothing is selected, when it is the
   * selected juror, or when a link joins it to the selected juror; else at 0.2.
   */
  function NodeOpacity(selected: Option<string>, id: string, links: seq<CoLink>): (o: real)
    ensures o == FullNodeOpacity <==> selected.None? || id == selected.value || Adjacent(links, selected.value, id)
    ensures o == FullNodeOpacity || o == DimOpacity
  {
    if selected == None || id == selected.value || SomeLinkTouchesBoth(links, selected.value, id)
    then FullNodeOpacity else DimOpacity
  }

  /** Highlighting is consistent: both ends of a highlighted link are highlighted nodes. */
  lemma {:induction false} HighlightedLinkEndsHighlighted(selected: Option<string>, links: seq<CoLink>, k: nat)
    requires k < |links|
    requires LinkOpacity(selected, links[k]) == FullLinkOpacity
    ensures NodeOpacity(selected, links[k].source, links) == FullNodeOpacity
    ensures NodeOpacity(selected, links[k].target, links) == FullNodeOpacity
  {
    if selected.Some? {
      var x, l := selected.value, links[k];
      if l.source != x {
        assert l.target == x;
        assert Adjacent(links, x, l.source);
      }
      if l.target != x {
        assert l.source == x;
        assert Adjacent(links, x, l.target);
      }
    }
  }
}
