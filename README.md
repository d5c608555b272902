# Bellman-Ford visualiser: a Dafny model

This project models the computational core of a small web application that runs the
Bellman-Ford single-source shortest-path algorithm on a graph typed in by the user.

- **Backend route** (`POST /bellman-ford`). It checks the request body, initialises the
  `distances` and `predecessors` objects, runs `|vertices| - 1` rounds of edge
  relaxation, and then makes one read-only pass that sets `hasNegativeCycle`. The
  route is modelled twice:
  - imperatively, as the loops the route runs (`BellmanFordRoute`);
  - as specification functions (`BellmanFordSpec`) that the loops are proved equal to.
  On top of these, the model proves the algorithm's theory:
  - soundness: every finite distance is the weight of a walk;
  - without the flag, the distances are shortest;
  - a reachable negative cycle is always flagged;
  - the flag is correct whenever the source is a listed vertex.
- **Login route** (`POST /login`). A required-field check, then the first entry of the
  in-memory user table that matches both username and password (`Auth`).
- **Frontend helpers**:
  - `getPath`, the backward walk over the predecessors that fills the "Caminho" column
    (`PathReconstruction`, `PathDistance`, `PathScenarios`);
  - the graph-editing handlers (`GraphEditor`);
  - the step cursor (`StepCursor`);
  - node layout, edge ids, predecessor-edge extraction and highlighting in the graph
    view (`Visualization`).

Conventions:

- JavaScript strings are sequences of UTF-16 code units (`JsValues.JsString`), so
  `String.fromCharCode` wraps modulo 2^16 as it does in JavaScript.
- `Infinity` becomes the `Inf` case of an extended integer.
- An edge that names a vertex that is not a key never relaxes. In JavaScript that
  comparison is `NaN < x`, which is false.
- `jwt.sign` is an opaque token constructor.
- HTTP, React state plumbing and console output are not modelled.

The code and its documented intent disagree in two places, and in both the model
follows the code. First, when a negative cycle passes through the source, the route only keeps
`distances[source] <= 0`; it does not keep `distances[source] == 0` and
`predecessors[source] == null`. `BellmanFordScenarios.TwoCycleRun` shows the source at
-1 with a predecessor. The model proves `== 0` and "no predecessor" only for answers
without the flag (`BellmanFordCorrectness.NoFlagSourceUnchanged`).

Second, the predecessor object gets a key for `source` when the source is
not a listed vertex and is relaxed. So its keys lie between the listed vertices and the
listed vertices plus the source (`BellmanFordProps.RunKeys`). The distance object's keys
are exactly the listed vertices plus the source.

## Model

| member | source | states |
|---|---|---|
| JsValues.FromCharCode | frontend/src/components/BellmanFord.jsx:54 | one code unit, the argument reduced modulo 2^16 |
| JsValues.ToUpperCase | frontend/src/components/BellmanFord.jsx:49 | same length; each unit upper-cased; no lower-case letter remains |
| JsValues.ToUpperCaseIdempotent | frontend/src/components/BellmanFord.jsx:49 | upper-casing twice equals upper-casing once |
| JsValues.Decimal | frontend/src/components/GraphVisualization.jsx:72 | a non-empty numeral of decimal digits whose last digit is n mod 10 |
| JsValues.DecimalInjective | frontend/src/components/GraphVisualization.jsx:72 | different indices have different numerals |
| JsValues.Join | frontend/src/components/BellmanFord.jsx:453 | no parts give the empty text, a single part gives itself, and the text begins with the first part |
| JsValues.JoinAppend | frontend/src/components/BellmanFord.jsx:453 | joining one more part appends the separator and that part |
| JsValues.JoinSplit | frontend/src/components/BellmanFord.jsx:453 | joining two non-empty lists of parts is each joined, with the separator between them |
| BellmanFordSpec.Relax | backend/src/routes/algorithmRoutes.js:28-35 | keys of distances kept; distances never rise and change only at the destination, strictly downwards; a predecessor changes only with that decrease and to the edge origin; an edge that cannot relax changes nothing; afterwards the edge is not improvable |
| BellmanFordSpec.CanRelax | backend/src/routes/algorithmRoutes.js:31 | the test `distances[u] + weight < distances[v]`: false when an endpoint is not a key or `distances[u]` is infinite; its consequences are stated by `Relax` |
| BellmanFordSpec.RelaxSeq | backend/src/routes/algorithmRoutes.js:28-35 | one `forEach` round, the edges visited in declaration order; its properties are the `RelaxSeq…` lemmas below |
| BellmanFordSpec.Rounds | backend/src/routes/algorithmRoutes.js:27-36 | k rounds in a row; its properties are the `Rounds…` lemmas below |
| BellmanFordSpec.HasRelaxable | backend/src/routes/algorithmRoutes.js:39-48 | the flag: some edge still passes the test; `BellmanFordRoute.DetectNegativeCycle` is proved equal to it |
| BellmanFordSpec.Run | backend/src/routes/algorithmRoutes.js:17-56 | the answer body computed from the input; its meaning is given by the `Run…` lemmas and `BellmanFordCorrectness` |
| BellmanFordSpec.MissingFields | backend/src/routes/algorithmRoutes.js:12 | the test on `!vertices`, `!edges` and `!source`: an absent list, or an absent or empty source; `Handle`'s 400 holds exactly then |
| BellmanFordSpec.RoundCount | backend/src/routes/algorithmRoutes.js:27 | zero rounds for at most one vertex, otherwise one fewer than the vertices |
| BellmanFordSpec.Initial | backend/src/routes/algorithmRoutes.js:17-24 | distance keys are the vertices plus the source; predecessor keys are the vertices; source at 0, other listed vertices at infinity, all predecessors null |
| BellmanFordSpec.Handle | backend/src/routes/algorithmRoutes.js:9-56 | status 400 exactly when a field is missing or falsy, with the route's error text; an answer echoes the source |
| BellmanFordRoute.Initialise | backend/src/routes/algorithmRoutes.js:17-24 | the initialisation loop produces `Initial(vertices, source)` |
| BellmanFordRoute.RelaxRound | backend/src/routes/algorithmRoutes.js:28-35 | one `forEach` round equals relaxing the edges in declaration order |
| BellmanFordRoute.DetectNegativeCycle | backend/src/routes/algorithmRoutes.js:39-48 | the flag is set exactly when some edge is still relaxable; the pass changes nothing |
| BellmanFordRoute.BellmanFord | backend/src/routes/algorithmRoutes.js:7-62 | the handler's loops compute `Handle(req)`; 400 exactly for missing fields |
| BellmanFordProps.RelaxSeqNoHigher | backend/src/routes/algorithmRoutes.js:28-35 | a round never raises a distance; predecessor keys only grow, and only with distance keys |
| BellmanFordProps.RoundsNoHigher | backend/src/routes/algorithmRoutes.js:27-36 | the same for any number of rounds |
| BellmanFordProps.RelaxSeqAppend | backend/src/routes/algorithmRoutes.js:28-35 | relaxing a + b is relaxing a, then b |
| BellmanFordProps.RelaxConsistent | backend/src/routes/algorithmRoutes.js:31-34 | a vertex with a predecessor keeps a finite distance after a relaxation |
| BellmanFordProps.RelaxSeqConsistent | backend/src/routes/algorithmRoutes.js:28-35 | the same through a round |
| BellmanFordProps.RoundsConsistent | backend/src/routes/algorithmRoutes.js:27-36 | the same through all rounds |
| BellmanFordProps.RunKeys | backend/src/routes/algorithmRoutes.js:20-36 | answer distance keys are exactly the vertices plus the source; predecessor keys lie between the vertices and the vertices plus the source |
| BellmanFordProps.RunNoHigherThanInitial | backend/src/routes/algorithmRoutes.js:24-36 | no answer distance is above its initial value; the source's distance is finite and at most 0 |
| BellmanFordProps.RunPredecessorsConsistent | backend/src/routes/algorithmRoutes.js:31-34 | every vertex of the answer with a predecessor has a finite distance |
| BellmanFordProps.RunWithoutRounds | backend/src/routes/algorithmRoutes.js:27 | with at most one vertex the answer is the initial tables |
| BellmanFordProps.StableRoundChangesNothing | backend/src/routes/algorithmRoutes.js:28-35 | a round over edges none of which can relax changes nothing |
| BellmanFordProps.StableRoundsChangeNothing | backend/src/routes/algorithmRoutes.js:27-36 | once nothing is relaxable, further rounds change nothing |
| BellmanFordProps.InertEdgesChangeNothing | backend/src/routes/algorithmRoutes.js:31 | edges whose endpoints are not keys never change the tables |
| BellmanFordProps.RoundsShift | backend/src/routes/algorithmRoutes.js:27-36 | k + 1 rounds are one round followed by k rounds |
| BellmanFordProps.RelaxSeqBelow | backend/src/routes/algorithmRoutes.js:31-34 | a vertex with a predecessor stays strictly below its initial distance through a round |
| BellmanFordProps.RoundsBelow | backend/src/routes/algorithmRoutes.js:22-36 | the same through all rounds, starting from all-null predecessors |
| BellmanFordProps.RunPredecessorsBelow | backend/src/routes/algorithmRoutes.js:22-36 | in the answer, every vertex with a predecessor is strictly below its initial distance |
| BellmanFordProps.RelaxPredecessorEdges | backend/src/routes/algorithmRoutes.js:31-34 | after a relaxation every stored predecessor u of v is backed by an edge u→v of the request, with both distances finite |
| BellmanFordProps.RelaxSeqPredecessorEdges | backend/src/routes/algorithmRoutes.js:28-35 | the same through any prefix of a round |
| BellmanFordProps.RoundsPredecessorEdges | backend/src/routes/algorithmRoutes.js:27-36 | the same through all rounds |
| BellmanFordProps.RunPredecessorEdges | backend/src/routes/algorithmRoutes.js:20-36 | every predecessor in the answer is the origin of an edge of the request into that vertex |
| BellmanFordCorrectness.RelaxSound | backend/src/routes/algorithmRoutes.js:31-34 | relaxation keeps every finite distance the weight of a walk from the source |
| BellmanFordCorrectness.RelaxSeqSound | backend/src/routes/algorithmRoutes.js:28-35 | the same through a round |
| BellmanFordCorrectness.RoundsSound | backend/src/routes/algorithmRoutes.js:27-36 | the same through all rounds |
| BellmanFordCorrectness.RunSound | backend/src/routes/algorithmRoutes.js:17-36 | every finite answer distance is the weight of some walk from the source |
| BellmanFordCorrectness.StableBound | backend/src/routes/algorithmRoutes.js:39-48 | when no edge is relaxable, each distance is at most the weight of every walk to it |
| BellmanFordCorrectness.RoundsBound | backend/src/routes/algorithmRoutes.js:27-36 | after k rounds each distance is at most the weight of every walk of at most k edges |
| BellmanFordCorrectness.NoFlagMeansShortest | backend/src/routes/algorithmRoutes.js:27-48 | without the flag each answer distance is the minimum walk weight, and infinity exactly when no walk exists |
| BellmanFordCorrectness.NegativeCycleFlagged | backend/src/routes/algorithmRoutes.js:39-48 | a negative cycle reachable from the source is always flagged |
| BellmanFordCorrectness.EdgeStable | backend/src/routes/algorithmRoutes.js:27-48 | with enough rounds and no reachable negative cycle, no edge is relaxable at the end |
| BellmanFordCorrectness.NoNegativeCycleStable | backend/src/routes/algorithmRoutes.js:27-48 | with enough rounds and no reachable negative cycle, the flag is false |
| BellmanFordCorrectness.ListedSourceNoNegativeCycleNoFlag | backend/src/routes/algorithmRoutes.js:27-48 | for a listed source the flag is false when no negative cycle is reachable |
| BellmanFordCorrectness.NoFlagSourceUnchanged | backend/src/routes/algorithmRoutes.js:24-48 | without the flag the source keeps distance 0 and has no predecessor |
| BellmanFordCorrectness.NoFlagPredecessorEdgesTight | backend/src/routes/algorithmRoutes.js:31-48 | without the flag every predecessor link is an edge of the request on which the distances are tight |
| BellmanFordScenarios.DefaultGraphRun | frontend/src/components/BellmanFord.jsx:8-17 | on the editor's default graph the answer is A:0, B:3, C:2, D:5 with predecessors B←C, C←A, D←B, and no flag |
| BellmanFordScenarios.TwoCycleRun | backend/src/routes/algorithmRoutes.js:20-48 | on X→Y with weight 1 and Y→X with weight -2, from X, the answer leaves the source at -1 with a predecessor, and it is flagged |
| BellmanFordScenarios.TwoCycleFlagged | backend/src/routes/algorithmRoutes.js:39-48 | the same flag, obtained from the general negative-cycle theorem |
| BellmanFordScenarios.UnreachedVertexRun | backend/src/routes/algorithmRoutes.js:20-36 | a vertex with no incoming walk stays at infinity with a null predecessor |
| BellmanFordScenarios.NoEdgesRun | backend/src/routes/algorithmRoutes.js:20-36 | without edges the answer is the initial tables |
| BellmanFordScenarios.UnlistedSourceFalseAlarm | backend/src/routes/algorithmRoutes.js:12-48 | an acyclic graph whose source is not listed is answered with the negative-cycle flag set |
| BellmanFordScenarios.HandleValidated | backend/src/routes/algorithmRoutes.js:12-14 | corrected route: 400 exactly for missing fields or an unlisted source; otherwise the route's answer |
| BellmanFordScenarios.HandleValidatedFlagCorrect | backend/src/routes/algorithmRoutes.js:39-48 | for the corrected route the flag is set exactly when a negative cycle is reachable from the source |
| BellmanFordScenarios.HandleValidatedRejectsFalseAlarm | backend/src/routes/algorithmRoutes.js:12-14 | the corrected route rejects the false-alarm input |
| PathReconstruction.Lookup | frontend/src/components/BellmanFord.jsx:448 | `predecessors[current]`: a name's entry, `null` for a null entry, `undefined` for a missing key |
| PathReconstruction.GetPath | frontend/src/components/BellmanFord.jsx:439-454 | the vertex itself exactly for the source; "unreachable" exactly for a null predecessor; otherwise a list from the source to the vertex without repeats or null, linked by predecessors and stopped at null, the source or a revisit; the loop always terminates |
| PathReconstruction.TracedBackUnique | frontend/src/components/BellmanFord.jsx:444-453 | that description admits exactly one list, so it fixes the result |
| PathReconstruction.Texts | frontend/src/components/BellmanFord.jsx:453 | each entry prints as its name, `null`/`undefined` as nothing |
| PathReconstruction.Render | frontend/src/components/BellmanFord.jsx:439-454 | the text is the vertex for the source and the unreachable text for a null predecessor |
| PathReconstruction.TextsAppend | frontend/src/components/BellmanFord.jsx:453 | the printed entries of a concatenation are those of each part in turn |
| PathReconstruction.RenderWalk | frontend/src/components/BellmanFord.jsx:443-453 | for a traced walk the text is the source, an arrow and the rest; it ends with an arrow and the vertex; and at every cut between consecutive entries it is the text before, an arrow and the text after |
| PathDistance.PathWeightIsDistance | frontend/src/components/BellmanFord.jsx:395-402 | without the flag, a path that reaches the source lists the vertices of a walk of the request whose weight is the distance shown beside it |
| PathDistance.TracedNamesFinite | frontend/src/components/BellmanFord.jsx:446-450 | for a vertex other than the source with a finite distance, every entry the walk collects is such a vertex and has a non-null predecessor |
| PathDistance.WalkReachesSource | frontend/src/components/BellmanFord.jsx:446-452 | without the flag, the walk for a vertex other than the source with a finite distance ends by reaching the source, never on `null` or a revisit |
| PathDistance.FinitePathWeightIsDistance | frontend/src/components/BellmanFord.jsx:395-402 | without the flag, the path shown for every vertex other than the source with a finite distance lists the vertices of a walk of the request whose weight is the distance shown |
| PredecessorCycles.ChainWalk | backend/src/routes/algorithmRoutes.js:31-34 | following predecessor links forwards walks over request edges weighing at most the rise of the distance along the chain |
| PredecessorCycles.ClosedWalkThrough | backend/src/routes/algorithmRoutes.js:31-34 | a relaxation that closes a cycle of links makes the cycle's edges a negative closed walk |
| PredecessorCycles.RelaxCyclesNegative | backend/src/routes/algorithmRoutes.js:31-34 | after a relaxation every cycle of links is still backed by a negative closed walk |
| PredecessorCycles.RelaxSeqCyclesNegative | backend/src/routes/algorithmRoutes.js:28-35 | the same through a round |
| PredecessorCycles.RoundLinksBacked | backend/src/routes/algorithmRoutes.js:28-35 | a round keeps together that every link names a relaxed request edge, that linked vertices have distances, and that every cycle of links is backed by a negative closed walk |
| PredecessorCycles.RoundsLinksBacked | backend/src/routes/algorithmRoutes.js:27-36 | the same through all rounds |
| PredecessorCycles.RunCyclesNegative | backend/src/routes/algorithmRoutes.js:20-36 | in the answer every cycle of predecessor links is backed by a negative closed walk |
| PredecessorCycles.RelaxSeqFinite | backend/src/routes/algorithmRoutes.js:28-35 | through a round, every non-source vertex with a finite distance keeps a non-null predecessor |
| PredecessorCycles.RoundsFinite | backend/src/routes/algorithmRoutes.js:27-36 | the same through all rounds |
| PredecessorCycles.RunFiniteHavePredecessors | backend/src/routes/algorithmRoutes.js:20-36 | in the answer every vertex other than the source with a finite distance has a non-null predecessor |
| PredecessorCycles.NoFlagNoPredecessorCycle | backend/src/routes/algorithmRoutes.js:20-48 | without the flag the predecessor links of the answer form no cycle |
| PathScenarios.DefaultGraphPathToD | frontend/src/components/BellmanFord.jsx:439-454 | on the default graph the path of D is "A → C → B → D" |
| PathScenarios.UnreachedVertexPaths | frontend/src/components/BellmanFord.jsx:440-441 | an unreached vertex shows "Inalcançável"; the source shows itself |
| PathScenarios.CyclePath | frontend/src/components/BellmanFord.jsx:446-450 | a predecessor cycle P⇄Q stops at the revisit and gives "S → Q → P" |
| StepCursor.NextIndex | frontend/src/components/BellmanFord.jsx:121-125 | moves by exactly one or not at all; moves exactly when there is a result and a later step; stays below the step count |
| StepCursor.PrevIndex | frontend/src/components/BellmanFord.jsx:127-131 | moves back by exactly one exactly when above 0; never goes below 0 |
| StepCursor.StepsKeepRange | frontend/src/components/BellmanFord.jsx:121-131 | both buttons keep the cursor in 0 .. steps - 1 |
| StepCursor.StepsUndo | frontend/src/components/BellmanFord.jsx:121-131 | each button undoes the other whenever it moved |
| StepCursor.NextTimesReachesLast | frontend/src/components/BellmanFord.jsx:121-125 | n presses advance n steps, stopping at the last step |
| StepCursor.Cursor.constructor | frontend/src/components/BellmanFord.jsx:19-22 | starts at step 0 with no result |
| StepCursor.Cursor.NextStep | frontend/src/components/BellmanFord.jsx:121-125 | the new step is `NextIndex` of the old; the range is preserved |
| StepCursor.Cursor.PrevStep | frontend/src/components/BellmanFord.jsx:127-131 | the new step is `PrevIndex` of the old; the range is preserved |
| StepCursor.Cursor.Start | frontend/src/components/BellmanFord.jsx:97-98 | before a request: no result, step 0 |
| StepCursor.Cursor.Receive | frontend/src/components/BellmanFord.jsx:106 | an answer arrives; the step is kept |
| StepCursor.Cursor.Load | frontend/src/components/BellmanFord.jsx:36-37 | a loaded execution jumps to its last step, in range exactly when it has steps |
| StepCursor.Cursor.Reset | frontend/src/components/BellmanFord.jsx:133-135 | no result, step 0 |
| GraphEditor.WithoutIndex | frontend/src/components/BellmanFord.jsx:63 | drops exactly the entry at the index and keeps the others in order; an index outside the list changes nothing |
| GraphEditor.EdgesAvoiding | frontend/src/components/BellmanFord.jsx:64-66 | keeps exactly the edges not touching the vertex |
| GraphEditor.EdgesAvoidingAppend | frontend/src/components/BellmanFord.jsx:64-66 | the filter keeps the order of the edges |
| GraphEditor.ChangeVertex | frontend/src/components/BellmanFord.jsx:47-51 | only the entry at the index changes, to the upper-cased text; edges and source unchanged |
| GraphEditor.ChangeVertexIdempotent | frontend/src/components/BellmanFord.jsx:47-51 | repeating the same edit changes nothing more |
| GraphEditor.RenamingSourceUnlistsIt | frontend/src/components/BellmanFord.jsx:47-51 | renaming the source vertex leaves a source outside the vertex list |
| GraphEditor.AddVertex | frontend/src/components/BellmanFord.jsx:53-59 | appends the letter `fromCharCode(65 + length)`; edges and source unchanged |
| GraphEditor.RemoveVertex | frontend/src/components/BellmanFord.jsx:61-74 | removes exactly that vertex, drops the edges touching it, and resets the source to the first remaining vertex or '' only when it was removed |
| GraphEditor.RemoveVertexDropsIncidentEdges | frontend/src/components/BellmanFord.jsx:64-66 | an edge survives exactly when it does not touch the removed vertex |
| GraphEditor.RemoveVertexUndoesAddVertex | frontend/src/components/BellmanFord.jsx:53-74 | removing the vertex just added restores the graph when its letter was unused |
| GraphEditor.ChangeEdge | frontend/src/components/BellmanFord.jsx:76-80 | only the named field of the edge at the index changes |
| GraphEditor.AddEdge | frontend/src/components/BellmanFord.jsx:82-87 | appends `{'', '', 1}`; vertices and source unchanged |
| GraphEditor.RemoveEdge | frontend/src/components/BellmanFord.jsx:89-92 | exactly the edge at the index goes: the edges before it and after it stay, in order; an index outside the list changes nothing; vertices and source unchanged |
| GraphEditor.RemoveEdgeUndoesAddEdge | frontend/src/components/BellmanFord.jsx:82-92 | removing the row just added restores the graph |
| Visualization.Serialize | backend/src/routes/algorithmRoutes.js:50-56 | JSON turns a finite distance into that number and infinity into `null`, never into `Infinity` |
| Visualization.NumberText | frontend/src/components/GraphVisualization.jsx:42 | a non-empty text starting with a digit or a minus sign |
| Visualization.DistanceTextAsWritten | frontend/src/components/GraphVisualization.jsx:28-42 | the rendering as written: ∞ exactly for `Infinity`, nothing for `null`, the number for a number |
| Visualization.DistanceText | frontend/src/components/GraphVisualization.jsx:41-43 | corrected rendering: the number for a number, ∞ otherwise |
| Visualization.DistanceTextAfterJson | frontend/src/components/GraphVisualization.jsx:27-43 | after JSON, the corrected rendering shows ∞ exactly for infinite distances |
| Visualization.DistanceTextDiffersOnlyOnNull | frontend/src/components/GraphVisualization.jsx:28-42 | the rendering as written differs from the corrected one exactly on `null` |
| Visualization.UnreachedShowsBlank | frontend/src/components/GraphVisualization.jsx:27-43 | on an answer with an unreached vertex the rendering as written shows nothing where ∞ belongs |
| Visualization.Nodes | frontend/src/components/GraphVisualization.jsx:24-64 | one node per vertex, in order, at its grid position, with the badge as line 42 renders it |
| Visualization.NodeStyle | frontend/src/components/GraphVisualization.jsx:26-60 | the node is styled as the source exactly when its vertex is the source; it has a badge exactly when the vertex has a distance; the badge is ∞ exactly for `Infinity` and empty for `null` |
| Visualization.CorrectedNodes | frontend/src/components/GraphVisualization.jsx:24-64 | the nodes with the corrected badge of Finding 2, one per vertex in order |
| Visualization.CorrectedNodeStyle | frontend/src/components/GraphVisualization.jsx:27-43 | with the corrected badge, a node shows ∞ exactly when its distance is not a number |
| Visualization.NodesDifferOnlyOnNull | frontend/src/components/GraphVisualization.jsx:27-43 | the corrected node differs from the node as written exactly when its distance is `null`, and only in the badge |
| Visualization.PositionsDistinct | frontend/src/components/GraphVisualization.jsx:32-35 | different indices get different positions |
| Visualization.GridShape | frontend/src/components/GraphVisualization.jsx:33-34 | x is 100, 300 or 500; y never decreases as the index grows |
| Visualization.FlowEdges | frontend/src/components/GraphVisualization.jsx:66-90 | one record per edge with id `e{source}-{destination}-{index}`, colour #34495e, width 2 and a closed arrow |
| Visualization.EdgeId | frontend/src/components/GraphVisualization.jsx:72 | the id text `e{source}-{destination}-{index}`; its property is `EdgeIdsUnique` |
| Visualization.EdgeIdsUnique | frontend/src/components/GraphVisualization.jsx:72 | edge ids are pairwise different, whatever the vertex names contain |
| Visualization.PathEdgesOf | frontend/src/components/GraphVisualization.jsx:114-121 | no more path edges than entries; which edges, and in what order, is given by `PathEdgesOfMembership` and `ShortestPathEdges` |
| Visualization.PathEdgesOfMembership | frontend/src/components/GraphVisualization.jsx:114-121 | a path edge pred→v is listed exactly when an entry has vertex v and a truthy predecessor pred ≠ v |
| Visualization.ShortestPathEdges | frontend/src/components/GraphVisualization.jsx:110-124 | empty for a missing predecessor object; otherwise the pushed edges are exactly `PathEdgesOf` of the entries, so empty for no entries |
| Visualization.PathEdgesAreRequestEdges | frontend/src/components/GraphVisualization.jsx:114-121 | without the flag, every highlighted edge of a route answer is a tight edge of the request |
| Visualization.Highlight | frontend/src/components/GraphVisualization.jsx:130-145 | the style mapping of one record; stated by `HighlightMarks` and `HighlightIdempotent` |
| Visualization.HighlightEdges | frontend/src/components/GraphVisualization.jsx:127-150 | no path edges leaves the records alone; otherwise each record is highlighted in place |
| Visualization.HighlightMarks | frontend/src/components/GraphVisualization.jsx:129-145 | a record on a path edge turns green with width 4 and a green arrow; any other keeps colour, width and arrow colour; id, endpoints and weight never change |
| Visualization.HighlightGreenIffOnPath | frontend/src/components/GraphVisualization.jsx:130-143 | on the graph's records, an edge is green exactly when a path edge has its endpoints |
| Visualization.HighlightIdempotent | frontend/src/components/GraphVisualization.jsx:127-150 | re-running the effect on its own output changes nothing |
| Auth.Matches | backend/src/routes/authRoutes.js:26 | both username and password equal; used by `FindFrom` and `Login` |
| Auth.FindFrom | backend/src/routes/authRoutes.js:25-27 | finds the first entry matching both username and password, or reports that none does |
| Auth.Login | backend/src/routes/authRoutes.js:15-50 | 400 with the required-fields text exactly when a field is missing or empty; success exactly when some entry matches, answered from the first matching entry; otherwise 401 with the invalid-credentials text |
| Auth.LoginOkNamesCaller | backend/src/routes/authRoutes.js:29-45 | a successful answer names the caller's username and carries a token for it; the public user has no password |
| Auth.FirstMatchAnswers | backend/src/routes/authRoutes.js:25-27 | of two matching entries the earlier one answers |
| Auth.UsersTableLogins | backend/src/routes/authRoutes.js:8-29 | with the shipped table, login succeeds exactly for admin, user1 and user2 with password 123 |
| Auth.AdminLogin | backend/src/routes/authRoutes.js:8-45 | admin/123 receives the success message, admin@pi8.com and a token for admin |
| Auth.EmptyPasswordRejected | backend/src/routes/authRoutes.js:20-22 | an empty password is answered with 400 |

## Left out

- HTTP, Express, `try`/`catch` and the 500 answer; `console` output. `req.body` is modelled as a record of optional fields.
- Status route: `GET /status` (authRoutes.js:53-59) returns a constant and is not modelled.
- Server and history: server.js, neo4j.js, History.jsx, Login.jsx, Dashboard.jsx and App.jsx are not part of this model. They hold I/O and routing only.
- Body fields of the wrong type: non-array `vertices`/`edges`, non-string vertices and non-number weights are not modelled. Weights are integers; the edge editor passes `parseInt(...) || 0`. IEEE floating point and `NaN` are replaced by integers and `Inf`.
- Object keys: the key order of JavaScript objects and `Object.entries` is not modelled. Entries come as a given list with distinct keys. Prototype keys such as `constructor` are not modelled.
- JsValues.ToUpperCase: upper-cases the ASCII letters a-z only, whereas `toUpperCase` also maps other Unicode letters.
- JsValues.Literal: only represents characters in the Basic Multilingual Plane. Every literal of the program lies there.
- Steps: `result.steps`, `changed`, `negativeCycle` and `currentStep.edge` are read by the frontend but never produced by the route. The step cursor therefore takes the step count as a given number. The per-step edge highlight (GraphVisualization.jsx:68-69) is taken as never active.
- Steps and the route's answer: the route's real answer has no `steps`. `result.steps.length` (BellmanFord.jsx:122, 155, 321) would then fail at run time; this is not modelled.
- React: hooks, effects and rendering are not modelled, beyond the mapping each effect applies. Edges added through ReactFlow's `onConnect` also have no modelled style.
- GraphEditor.ChangeVertex, GraphEditor.ChangeEdge: both require an index into the list. The handlers are only called from rows of that list; in JavaScript an index past the end would append a hole.
- The source selector (BellmanFord.jsx:268) and the graph reset (BellmanFord.jsx:137-148): a plain assignment of the source, and a return to `GraphModel.DefaultGraph`.
- JWT: `jwt.sign`'s secret, expiry and encoding are not modelled. The token is the username in an opaque constructor.
- Idempotence of the route: two calls with the same body give the same answer. This holds because every member is a function of its inputs, and it has no lemma of its own.

## Findings

| source | as written | input that shows it | evidently intended | confidence | as-written member | corrected member |
|---|---|---|---|---|---|---|
| backend/src/routes/algorithmRoutes.js:12-27 | `source` is not required to be a listed vertex, and the loop runs `vertices.length - 1` rounds although the tables then have `vertices.length + 1` keys; the editor produces such a request after renaming the source vertex (`GraphEditor.RenamingSourceUnlistsIt`) | vertices [B, C], edges [B→C 1, A→B 1], source A: one round leaves B→C relaxable, so an acyclic graph is reported with `hasNegativeCycle: true` | the flag is set exactly when a negative cycle is reachable: reject an unlisted source | not executed | BellmanFordScenarios.UnlistedSourceFalseAlarm | BellmanFordScenarios.HandleValidated |
| frontend/src/components/GraphVisualization.jsx:28 | a distance is shown as ∞ only when it is `=== Infinity`, but the answer arrives as JSON, where `Infinity` is written as `null`; the same test is at BellmanFord.jsx:398 | graph A, B, C with the one edge A→B from A: C arrives as `null`, so the ∞ test fails and the badge and table cell would be empty; in the component as shipped, BellmanFord.jsx:155 reads `result.steps` on this step-less answer and fails before either is drawn, so the defect shows once an answer carries `steps` | show ∞ for an unreached vertex | not executed | Visualization.UnreachedShowsBlank, Visualization.Nodes | Visualization.DistanceText, Visualization.CorrectedNodes |
