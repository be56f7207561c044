# Twelve Angry Men charts: verified model of the data preparation and interaction state

The repository draws a set of d3 charts about the jury deliberation in *12 Angry Men*. Most of each chart is d3 rendering. This project models what the repository's own code computes in front of the d3 calls. It proves the properties that code promises.

- **Influence network** (`influence-network.jsx`):
  - the rows of `influence.csv` are coerced to numbers in place;
  - nodes are the distinct juror labels in first-occurrence order, each with its portrait;
  - there is one link per row, with endpoints resolved by id;
  - the drag handlers pin a node and warm or cool the simulation's `alphaTarget`;
  - a tooltip keeps at most one pending auto-hide timer, and the last click wins.
- **Chord diagram** (`chord.jsx`):
  - the distinct jurors and their name-to-index table;
  - an n×n zero matrix (`array2`), filled in place from the rows, where the last write wins;
  - the rule that places and flips each group's label.
- **Topic graph** (`vintage_graph.jsx`):
  - each row of `arguments.csv` becomes a topic, with its juror list split on `", "`;
  - the distinct jurors;
  - one link per pair `i < j` of a topic's jurors, grown by `push` in nested loops and proved equal to a specification of the link list;
  - the selection toggle;
  - the link and node opacity rules.
- **Silence line** (`silence-line.jsx`):
  - each row of `silences-new.csv` is pushed, in lockstep, onto two parallel arrays: points and detail texts;
  - the click lookup, with its fallback text.

Two shared modules model the JavaScript built-ins that this code relies on:

- `JsCollections`: `Array.from(new Set(...))`, `flatMap`, `find` and `Object.fromEntries`.
- `JsStrings`: `split` with a non-empty separator, `join` and `trim` with the ECMAScript whitespace set.

Some functions cannot be seen or have no exact counterpart here, so they are parameters:

- `Number(text)` is `toNumber: string -> real`.
- JavaScript's number-to-text conversion is `show: real -> string`.
- The count of other drag gestures, `event.active`, is a natural-number argument.
- Drag event positions (`event.x`, `event.y`) are arguments.

Some facts about the code that the model keeps:

- The code does not reject a row with a missing label; such a row still becomes a node, a link or a matrix write.
- A repeated ordered pair overwrites the earlier chord matrix cell rather than adding to it.

## Model

| member | source | states |
|---|---|---|
| JsCollections.Distinct | src/components/charts/influence-network.jsx:34-35 | `Array.from(new Set(xs))` has no duplicates, holds exactly the elements of `xs`, and is no longer than `xs` |
| JsCollections.DistinctFirstOccurrenceOrder | src/components/charts/chord.jsx:19 | the de-duplicated list is ordered by each element's first occurrence in the input |
| JsCollections.DistinctUnique | src/components/charts/chord.jsx:19 | any duplicate-free list with the same elements, ordered by first occurrence, equals `Distinct(xs)`, so the three properties fully characterise Set-insertion order |
| JsCollections.Flatten | src/components/charts/vintage_graph.jsx:39 | `flatMap` of the lists holds exactly the elements of some list, and flattening one list gives that list |
| JsCollections.FlattenAppend | src/components/charts/vintage_graph.jsx:39 | flattening is in order: `Flatten(a + b)` is `Flatten(a)` followed by `Flatten(b)` |
| JsCollections.Find | src/components/charts/influence-network.jsx:43-44 | `find` gives undefined iff no element satisfies the test; otherwise the first one that does |
| JsCollections.FromEntries | src/components/charts/chord.jsx:20 | `Object.fromEntries` has exactly the entries' keys as keys |
| JsCollections.FromEntriesLastWins | src/components/charts/chord.jsx:20 | a key maps to the value of its last entry |
| JsStrings.Split | src/components/charts/vintage_graph.jsx:18 | `split` with a non-empty separator always gives at least one piece |
| JsStrings.SplitPiecesLackSeparator | src/components/charts/vintage_graph.jsx:18 | no piece contains the separator |
| JsStrings.JoinSplit | src/components/charts/vintage_graph.jsx:18 | joining the pieces with the separator gives back the input, so nothing is lost |
| JsStrings.SplitJoin | src/components/charts/silence-line.jsx:29 | `join` with a one-character separator is undone by `split` on it when no piece contains that character |
| JsStrings.SplitJoinOverlap | src/components/charts/vintage_graph.jsx:18 | with a separator that overlaps itself, such as "aa", that converse fails: `["a", ""].join("aa")` is "aaa", which splits as `["", "a"]`; the `", "` split here does not overlap itself |
| JsStrings.SplitHeadIsPrefix | src/components/charts/silence-line.jsx:25 | the first piece of a split is a prefix of the input |
| JsStrings.SplitCharCount | src/components/charts/silence-line.jsx:25 | splitting on one character gives one piece more than that character occurs |
| JsStrings.TrimStart | src/components/charts/silence-line.jsx:25 | the result is the input minus a leading run of whitespace, and does not begin with whitespace |
| JsStrings.TrimEnd | src/components/charts/silence-line.jsx:25 | the result is the input minus a trailing run of whitespace, and does not end with whitespace |
| JsStrings.Trim | src/components/charts/silence-line.jsx:25 | `trim` is the middle of the input between two runs of whitespace and neither starts nor ends with whitespace |
| JsStrings.TrimIdempotent | src/components/charts/silence-line.jsx:25 | trimming twice is trimming once |
| InfluenceData.UnaryPlus | src/components/charts/influence-network.jsx:30-31 | unary `+` leaves a number unchanged and sends text through `Number` |
| InfluenceData.Endpoints | src/components/charts/influence-network.jsx:35 | `flatMap(d => [d.Influencer, d.Influenced])` has both labels of each row at positions 2i and 2i+1, and a name occurs in it iff some row mentions it |
| InfluenceNetwork.Coerce | src/components/charts/influence-network.jsx:29-32 | after coercion, strength and time are numbers given by unary `+`; the labels and the method are unchanged |
| InfluenceNetwork.CoerceIdempotent | src/components/charts/influence-network.jsx:30-31 | coercing an already-coerced row changes nothing |
| InfluenceNetwork.CoerceRows | src/components/charts/influence-network.jsx:29-32 | the `forEach` replaces every array slot in place by its coerced row |
| InfluenceNetwork.ImageUrl | src/components/charts/influence-network.jsx:12-38 | `nodeImages[name] or null` gives a portrait iff the name is one of the twelve keys, and then a non-empty path |
| InfluenceNetwork.BuildNodes | src/components/charts/influence-network.jsx:34-40 | node ids are pairwise distinct, exist exactly for the labels the rows mention, are in first-occurrence order, and each node carries its own name's portrait |
| InfluenceNetwork.NodeNamed | src/components/charts/influence-network.jsx:43-44 | `nodes.find(node => node.id === name)` fails iff no node has that id; otherwise it is a node with that id |
| InfluenceNetwork.BuildLinks | src/components/charts/influence-network.jsx:42-48 | exactly one link per row, in row order, so repeated pairs are never merged; strength, method and time are copied; an endpoint is missing iff no node has the label, and otherwise is that node |
| InfluenceNetwork.BuildGraph | src/components/charts/influence-network.jsx:34-50 | the data handed to `setData` has pairwise distinct node ids, exactly one node per mentioned label, and one link per row carrying that row's strength, method and time |
| InfluenceNetwork.GraphIntegrity | src/components/charts/influence-network.jsx:34-44 | in the built graph, every link's source and target is a node of the graph whose id is the row's Influencer and Influenced label; no lookup fails |
| InfluenceNetwork.LoadGraph | src/components/charts/influence-network.jsx:29-50 | the rows are coerced in place, then the graph is built from them, so every link's strength and time are numbers |
| InfluenceNetwork.SimNode.constructor | src/components/charts/influence-network.jsx:65-66 | a node the simulation places starts at its position, not pinned |
| InfluenceNetwork.Simulation.constructor | src/components/charts/influence-network.jsx:65-66 | a new simulation runs its timer with an alpha target of 0 |
| InfluenceNetwork.Simulation.SetAlphaTarget | src/components/charts/influence-network.jsx:159 | `alphaTarget(t)` sets the target and leaves the timer alone |
| InfluenceNetwork.Simulation.Restart | src/components/charts/influence-network.jsx:159 | `restart()` runs the timer and leaves the target alone |
| InfluenceNetwork.DragStarted | src/components/charts/influence-network.jsx:158-162 | the subject is pinned at its current x and y; the target becomes 0.01 and the timer restarts only when no other gesture is active; otherwise the simulation is untouched |
| InfluenceNetwork.Dragged | src/components/charts/influence-network.jsx:164-167 | the pin moves to the event position (`event.x`, `event.y`: the pointer plus the offset at which the node was grabbed); x and y are untouched |
| InfluenceNetwork.DragEnded | src/components/charts/influence-network.jsx:169-173 | the pin is cleared to null; the target is reset to 0 only when no other gesture is active |
| InfluenceNetwork.DragGestures.constructor | src/components/charts/influence-network.jsx:175-178 | no gesture is active and the simulation is cool |
| InfluenceNetwork.DragGestures.Start | src/components/charts/influence-network.jsx:158-178 | one more gesture is active; the subject is pinned at its x and y, which stay unchanged; the target is 0.01 exactly while some gesture is active; the timer runs after the first start, and is untouched by a start while another gesture is active |
| InfluenceNetwork.DragGestures.Move | src/components/charts/influence-network.jsx:164-178 | the subject's pin follows the event position; its x and y and the gesture count are unchanged |
| InfluenceNetwork.DragGestures.End | src/components/charts/influence-network.jsx:169-178 | one gesture fewer; the subject is unpinned and its x and y are unchanged; the target returns to 0 when the last gesture ends; the timer is untouched |
| InfluenceNetwork.Tooltip.constructor | src/components/charts/influence-network.jsx:8-10 | the tooltip starts hidden, with no info, no timer reference and no pending hide |
| InfluenceNetwork.Tooltip.ClearTimeout | src/components/charts/influence-network.jsx:96 | `clearTimeout` cancels the referenced timer, if it is still pending, and nothing else |
| InfluenceNetwork.Tooltip.ArmHide | src/components/charts/influence-network.jsx:97-99 | `setTimeout` arms one new hide timer under a fresh handle and stores it in the ref |
| InfluenceNetwork.Tooltip.ClickLink | src/components/charts/influence-network.jsx:79-99 | the tooltip shows the link's endpoints and metadata; the earlier hide is cancelled; exactly one hide of 1200 ms is pending |
| InfluenceNetwork.Tooltip.ClickNode | src/components/charts/influence-network.jsx:112-129 | the tooltip shows the node's id and portrait; the earlier hide is cancelled; exactly one hide of 3000 ms is pending |
| InfluenceNetwork.Tooltip.MouseLeave | src/components/charts/influence-network.jsx:134-137 | the tooltip is hidden and no hide is pending; the info, the ref and the handle counter are unchanged |
| InfluenceNetwork.Tooltip.HideTimerFires | src/components/charts/influence-network.jsx:97-98 | the pending hide runs: the tooltip is hidden and nothing stays pending; the info, the ref and the handle counter are unchanged |
| InfluenceNetwork.AtMostOnePendingHide | src/components/charts/influence-network.jsx:96-136 | under the tooltip's invariant at most one hide is pending, and it is the one the ref holds |
| ChordDiagram.Jurors | src/components/charts/chord.jsx:19 | `jurors` has no duplicates, holds exactly the labels the rows mention, and is in first-occurrence order |
| ChordDiagram.NoJurorsIffNoRows | src/components/charts/chord.jsx:16-19 | there are no jurors iff there are no rows |
| ChordDiagram.Enumerate | src/components/charts/chord.jsx:20 | `jurors.map((juror, index) => [juror, index])` pairs each juror with its position |
| ChordDiagram.JurorIndex | src/components/charts/chord.jsx:20 | `jurorIndex` has exactly the jurors as keys, maps `jurors[i]` to `i`, and is a bijection onto `0..n-1` |
| ChordDiagram.UnwrittenCellIsZero | src/components/charts/chord.jsx:35-42 | a cell whose ordered pair no row names keeps its initial 0 |
| ChordDiagram.LastWriteWins | src/components/charts/chord.jsx:38-42 | a cell holds the strength of the last row with that ordered pair; earlier rows are overwritten, not summed |
| ChordDiagram.SelfInfluenceOnDiagonal | src/components/charts/chord.jsx:39-41 | a row whose influencer and influenced agree writes the diagonal cell |
| ChordDiagram.ZeroMatrix | src/components/charts/chord.jsx:35 | a fresh n×n matrix of zeros |
| ChordDiagram.FillMatrix | src/components/charts/chord.jsx:38-42 | after the in-place fill, cell (i, j) holds the last strength written for `jurors[i]` to `jurors[j]`, or 0 |
| ChordDiagram.BuildMatrix | src/components/charts/chord.jsx:19-42 | the matrix is n×n over `jurors` and holds the last-written strengths |
| ChordDiagram.ChordEffect | src/components/charts/chord.jsx:16-42 | something is drawn iff there are rows, and the matrix is then the one `BuildMatrix` describes |
| ChordDiagram.NetRotation | src/components/charts/chord.jsx:65-68 | the text's final rotation adds a half turn (`rotate(180)`) to the outward rotation exactly when the label is flipped |
| ChordDiagram.GroupLabel | src/components/charts/chord.jsx:63-70 | the label sits at the arc's midpoint, with outward rotation `angle * 180 / Math.PI - 90` degrees; it is flipped and anchored "end" exactly when that angle exceeds π, which is exactly when its outward rotation exceeds 90° |
| ChordDiagram.LabelsReadUpright | src/components/charts/chord.jsx:65-69 | for any group inside the circle, the label's final rotation lies within 90° of horizontal, so no label is upside down |
| TopicGraph.ParseTopics | src/components/charts/vintage_graph.jsx:11-20 | one topic per row, with `id` equal to the row index and the numeric columns converted; the juror list has at least one name, no name contains ", ", and joined with ", " it gives back the column |
| TopicGraph.AllKeyJurors | src/components/charts/vintage_graph.jsx:39 | `data.flatMap(d => d.keyJurors)` holds exactly the names some topic involves |
| TopicGraph.AllKeyJurorsAppend | src/components/charts/vintage_graph.jsx:39 | the flattened names keep topic order: no topics give no names, and an added topic's jurors follow, in their own order, all names of the topics before it |
| TopicGraph.JurorNodes | src/components/charts/vintage_graph.jsx:39 | the juror nodes are pairwise distinct, exist exactly for the involved names, and are in first-mention order |
| TopicGraph.LinksFrom | src/components/charts/vintage_graph.jsx:46-54 | the inner loop for row `i` pushes k - i - 1 links |
| TopicGraph.BuildLinks | src/components/charts/vintage_graph.jsx:42-56 | the array grown by `push` in the `forEach` and nested loops equals the specified link list `AllLinks` |
| TopicGraph.LinksBeforeLength | src/components/charts/vintage_graph.jsx:45-55 | before outer row `i`, a topic with k jurors has pushed i(2k - i - 1)/2 links |
| TopicGraph.TopicLinkCount | src/components/charts/vintage_graph.jsx:43-55 | a topic with k jurors adds exactly k(k-1)/2 links |
| TopicGraph.LinksBeforePrefix | src/components/charts/vintage_graph.jsx:45-55 | later rows only append to a topic's links |
| TopicGraph.PairLink | src/components/charts/vintage_graph.jsx:47-53 | the link pushed for jurors `i < j` goes from `keyJurors[i]` to `keyJurors[j]` and carries the topic's intensity, its start as `time`, and its name |
| TopicGraph.TopicLinkAt | src/components/charts/vintage_graph.jsx:45-53 | the link for pair `i < j` sits at position `PairIndex(k, i, j)`, goes from `keyJurors[i]` to `keyJurors[j]`, and carries the topic's intensity, start and name |
| TopicGraph.PairIndexIsOffset | src/components/charts/vintage_graph.jsx:45-46 | the closed-form position counts the earlier rows' links plus the place within row `i` |
| TopicGraph.RowLinkAt | src/components/charts/vintage_graph.jsx:46-53 | in the links up to row `i`, the link for `(i, j)` follows all earlier rows' links |
| TopicGraph.PairIndexLexicographic | src/components/charts/vintage_graph.jsx:45-46 | positions increase with the pairs in lexicographic order `(i, j)` |
| TopicGraph.TopicLinkFields | src/components/charts/vintage_graph.jsx:47-53 | every link of a topic joins two of its jurors and carries its intensity, its start (as `time`) and its name |
| TopicGraph.AllLinksCount | src/components/charts/vintage_graph.jsx:42-56 | the total number of links is the sum of k(k-1)/2 over all topics |
| TopicGraph.AllLinksPrefix | src/components/charts/vintage_graph.jsx:43-56 | later topics only append links |
| TopicGraph.TopicBlock | src/components/charts/vintage_graph.jsx:43-56 | links are ordered by topic: topic `m`'s links form one contiguous block, right after the links of the topics before it |
| TopicGraph.LinksJoinJurorNodes | src/components/charts/vintage_graph.jsx:39-53 | every link's endpoints are juror nodes, and its data is that of some topic |
| TopicGraph.Toggle | src/components/charts/vintage_graph.jsx:98 | clicking clears the selection iff the clicked juror was the one selected; otherwise it selects that juror |
| TopicGraph.ToggleTwice | src/components/charts/vintage_graph.jsx:97-98 | clicking the same juror twice returns to no selection, unless it was already selected, in which case it ends selected |
| TopicGraph.LinkOpacity | src/components/charts/vintage_graph.jsx:83 | a link is at 0.8 iff nothing is selected or it touches the selected juror; otherwise it is at 0.2 |
| TopicGraph.SomeLinkTouchesBoth | src/components/charts/vintage_graph.jsx:96 | `links.some(...)` holds iff some link touches both names |
| TopicGraph.NodeOpacity | src/components/charts/vintage_graph.jsx:96 | a juror is at 1 iff nothing is selected, it is the selected juror, or a link joins it to the selected juror (either direction); otherwise it is at 0.2 |
| TopicGraph.HighlightedLinkEndsHighlighted | src/components/charts/vintage_graph.jsx:83-96 | both ends of a highlighted link are highlighted nodes |
| SilenceLine.Durations | src/components/charts/silence-line.jsx:25 | a missing or empty cell gives no durations; otherwise there is one duration more than there are commas, and the k-th is `Number` of the k-th piece, trimmed |
| SilenceLine.SilenceInfo | src/components/charts/silence-line.jsx:29 | no durations give "No silence data available"; otherwise, when no shown number contains a newline, splitting the text on newlines gives back the shown durations, one per line |
| SilenceLine.SilenceInfoNoDataIff | src/components/charts/silence-line.jsx:29 | the text is "No silence data available" exactly when the row has no durations |
| SilenceLine.SilenceInfoNonEmpty | src/components/charts/silence-line.jsx:130 | a row's text is never empty |
| SilenceLine.Points | src/components/charts/silence-line.jsx:22-27 | `data1` has one `[Minute, Number of Silences]` pair per row, in row order |
| SilenceLine.Entries | src/components/charts/silence-line.jsx:22-30 | `silences` has one entry per row, in row order, made from that row's durations |
| SilenceLine.ParseSilences | src/components/charts/silence-line.jsx:19-34 | the two arrays pushed in lockstep end equal to `Points` and `Entries`, so they have the same length and entry i of each comes from row i |
| SilenceLine.ClickDetails | src/components/charts/silence-line.jsx:130 | the lookup is never empty; it is the entry's text when the index is in range and the text is non-empty, and the fallback when the index is out of range or the text is empty, as `?.silenceInfo ||` does |
| SilenceLine.ClickShowsOwnRow | src/components/charts/silence-line.jsx:128-130 | clicking row i's point shows row i's durations one per line, and the fallback exactly when the row has none |
| SilenceLine.DrawnIffRows | src/components/charts/silence-line.jsx:39 | the chart is drawn exactly when the CSV has rows |

## Left out

- The d3 force simulation is not modelled: forces, tick integration and alpha decay (`influence-network.jsx:65-69,139-147`). Only `alphaTarget` and whether the timer runs are kept, as fields. d3's timer stops itself once alpha falls below `alphaMin`; that self-stop is not modelled, so `running` is true from the constructor on and never becomes false in the model.
- The d3 chord geometry is not modelled: `chordDirected`, `padAngle`, `sortSubgroups`, ribbons and arcs. Group start and end angles are inputs to the label rule. The code itself adds nothing to the angles d3 computes; in particular it gives a zero-weight group no minimum slice.
- d3 zoom and its `scaleExtent([0.5, 3])` clamp are not modelled; the clamp happens inside d3.
- CSV loading is not modelled. Nor are React state and effects, SVG construction, tooltip markup and styling, scales, axes, colours, or `d3.pointer` positioning. The rows are inputs, and the effects' outputs are results.
- The static topic table `data2` and the hover tooltips of `silence-line.jsx` are rendering only.
- The topic graph's `if (data.length === 0) return;` guard is not modelled (`vintage_graph.jsx:26`). It only skips drawing.
- `Number(text)` is a parameter, so NaN and the parsing rules are not modelled.
- JavaScript's number-to-text conversion is a parameter. The lemmas about the silence text assume only that it never yields "", never yields the fallback message, and never yields text containing a newline; `SilenceInfo`'s round trip needs the newline assumption.
- Numbers are exact reals, not IEEE doubles.
- ChordDiagram.GroupLabel: the midpoint and the degree conversion are computed exactly, without double rounding. `Math.PI` is the exact value of the double nearest π.
- ChordDiagram.LabelsReadUpright: requires the group's angles to lie within [0, 2π]. The d3 chord layout guarantees this, and it is not part of this model.
- InfluenceNetwork.ImageUrl: treats the portrait table as a plain map. A label equal to an inherited `Object.prototype` key (such as "constructor") would find a function in JavaScript; the model gives null.
- InfluenceNetwork.Tooltip.ClickLink: requires both endpoints to be resolved. `GraphIntegrity` proves this holds for every link the diagram builds.
- Real timer timing is not modelled. A hide timer is a numbered pending entry, and `HideTimerFires` is the event of one running out.
- The d3-drag gesture count is modelled as `DragGestures.active`. `event.active` is the number of other gestures: the count before a start, and the count after decrementing on an end.
- The chord matrix is a 2-D `array2`. The code builds an array of separately allocated rows, so no two rows alias; the model does not represent row objects.
- SilenceLine.ClickDetails: receives the clicked point's position. `data1.indexOf(d)` compares by identity, so it always finds the clicked datum itself, even when two points have equal values.
- `scene-line.jsx` is not part of this model: its only non-rendering step hands a string to `JSON.parse`.
- `frame-intense.jsx`, `topics-heatmap.jsx`, `scatter.jsx` and `radarchart.js` are not part of this model. They hold scale and geometry code on floats and a one-line name truncation.
- `personality-radar.jsx`, `dashboard.jsx` and `App.js` are static data and component composition, and are not part of this model.
