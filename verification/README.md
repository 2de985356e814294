# Verified models of MaNGOS support code

Dafny models of the algorithmic parts of the repository, each proved against what its
documentation promises. `dafny verify dfyconfig.toml` checks everything. Concrete code that changes
things in place is modelled by classes and methods with loops; every such method is tied to a
specification function, and the theorems are about those functions and about whole runs.

* **Matrix inverse** (`LinearAlgebra`, `GaussJordan`, `Matrix`): in-place Gauss-Jordan elimination
  with full pivoting. The invariant is an exchange of inputs and outputs: on pivoted columns the
  array holds the transform, on the others the transformed input.
* **Condition compiler** (`ConditionTable`, `ConvertConditions`, `ConditionTheorems`): rows of up to
  three conditions are compiled into a table of leaves and binary ANDs in four passes.
* **Mesh adjacency** (`Mesh`, `EdgeTable`, `Pairing`, `FaceOrder`, `Adjacency`, `MeshCounts`): the signed
  half-edge structure of a triangle list. The normal comparison is an arbitrary function
  `similarity`, so the results hold for every choice of mates.
* **Welding** (`WeldEdges`, `WeldAdjacency`, `WeldCounts`, `MeshWeld`): pairing boundary edges whose
  vertices were welded, and the grid index behind the welder.
* **Copy on write** (`AnyValStore`, `AnyValRelease`, `AnyValChange`, `AnyVal`, `AnyValTheorems`,
  `AnyValProgram`, `AnyValReads`): nested arrays and tables shared by reference counts. The heap is explicit, so a
  freed container is really gone; a container and its counter, which always travel together, are one
  block. Deep values are finite trees: a store has a coherent reading only when no container
  contains itself.
* **MD5** (`MD5Block`, `MD5`, `MD5Vector`): the streaming state machine and the block function of RFC 1321,
  with one of its digests worked out.
* **Binary streams** (`BitStreams`, `BinaryStreams`, `BinaryItems`): bit groups among byte-aligned data.
* **Any text** (`AnyText`, `AnyTextIO`): printing and parsing at the level of tokens; besides the
  printed form, all ways to write arrays and tables by hand.
* **Culling** (`Culling`): boxes against planes with masks for hierarchies.
* **Height packing** (`Heights`): quantisation of height grids with error bounds.

## Where code and documentation differ

The models follow the code. Where a promise fails, a theorem gives the exact condition; where an input
for which it fails is not obvious from that, another theorem gives one:

* `MeshAlg.h` promises equations between old and new vertex arrays. They hold exactly when no two
  different positions are within the radius (`MeshWeld.DocumentedMapsIff`,
  `MeshWeld.DocumentedMapsDoFail`).
* A representative is said to be the first vertex nearby (`dep/g3dlite/MeshAlgAdjacency.cpp:628`). Each
  pass overwrites, so it is the first exactly when no two vertices are near each other
  (`MeshWeld.FirstOccurrenceIff`, `MeshWeld.DocumentedMapsDoFail`).
* The edges of a face are said to follow each other. A face with exactly two equal corners may be left
  out; whether it is can be told from the triangle list (`FaceOrder.LeftOutOfLoop`,
  `Adjacency.ComputeAdjacency`, `Adjacency.OneTriangleHasNoLoop`).
* A vertex is said to be the first one of every edge it lists. It is for forward references and for
  edges from a vertex to itself (`Mesh.FirstVertexIff`, `Mesh.FirstVertexCanFail`).
* `AnyVal` says assignment copies. It does exactly when neither handle is inside the other
  (`AnyValTheorems.AssignmentCopiesIff`, with `a[0] = a` and `a = a[0]` as witnesses). Appending keeps
  values exactly when the array is not inside what is appended (`AnyValTheorems.AppendKeepsValuesIff`,
  `AnyValTheorems.AppendingToItselfFails`).
* `Crypto::md5` takes a `size_t` but hashes all bytes exactly below 2^31 (`MD5.HashesAllIff`).
* `Any` prints a table name with an underscore in quotes and then reads it as a string; a name that
  spells "none" reads as the empty value (`AnyText.RoundTripIff`, `AnyText.UnderscoreDoesNotReadBack`,
  `AnyText.NoneDoesNotReadBack`).
* Groups of bits read back exactly when the stream does not end in a group of no bits, because the
  reader looks at a byte before the first bit (`BinaryItems.RoundTrip`, `BinaryItems.ReadableIff`).
* The dump of the condition table shows the initial entry exactly when no row has a condition
  (`ConditionTheorems.TableIsEmptyIff`).

`computeAdjacency` never joins two sides that run from a vertex to itself
(`MeshCounts.SelfEdgesStayOpen`), while `weldBoundaryEdges` does (`WeldCounts.WeldedSelfSides`).

## Preconditions taken from the source

The weld radius is less than one grid cell (stated, not checked, at
`dep/g3dlite/MeshAlgWeld.cpp:42`). Boxes have low at most high, and at most 30 planes are tested.
Condition tables keep their rows during a run, `loadOldConditions` is 0, and a database has the
tables of its expansion, and every row as many conditions as its table holds there. Array lengths
given to MD5 fit the signed arithmetic of the source.

## Model

| member | source | states |
|---|---|---|
| `Matrix.Impl.InverseInPlaceGaussJordan` | dep/g3dlite/Matrix.cpp:1351-1458 | the matrix left in place is the two-sided inverse of the input, for every size; the assertion on the pivot fails exactly for singular matrices |
| `Matrix.Impl.ReduceColumns` | dep/g3dlite/Matrix.cpp:1374-1445 | either the input is singular, or every column is pivoted and the array is the inverse of the row-swapped input recorded by the index arrays |
| `Matrix.Impl.UndoRowSwaps` | dep/g3dlite/Matrix.cpp:1448-1455 | swapping columns back in reverse order turns the inverse of the swapped input into the inverse of the input |
| `Matrix.Impl.PivotStep` | dep/g3dlite/Matrix.cpp:1382-1444 | one turn of the main loop keeps the exchange of inputs and outputs for one more pivot; a zero pivot proves the input singular |
| `Matrix.Impl.FindPivot` | dep/g3dlite/Matrix.cpp:1382-1403 | the chosen entry lies in an unpivoted row and column and has the largest magnitude among all of those |
| `Matrix.Impl.Eliminate` | dep/g3dlite/Matrix.cpp:1423-1444 | the array becomes the eliminated matrix of the specification |
| `Matrix.Impl.DividePivotRow` | dep/g3dlite/Matrix.cpp:1425-1430 | the pivot row becomes the solved pivot row, the pivot cell holding the inverse of the pivot |
| `Matrix.Impl.ReduceRow` | dep/g3dlite/Matrix.cpp:1437-1442 | one row loses its multiple of the solved pivot row |
| `Matrix.Impl.SwapRows` | dep/g3dlite/Matrix.cpp:1409-1413 | two rows change places, the rest stays |
| `Matrix.Impl.SwapColumnsInPlace` | dep/g3dlite/Matrix.cpp:1451-1453 | two columns change places, the rest stays |
| `Matrix.Impl.Mul` | dep/g3dlite/Matrix.cpp:632-651 | every entry of the product is the dot product of a row and a column |
| `GaussJordan.ExchangedAtStart` | dep/g3dlite/Matrix.cpp:1374-1380 | before the first pivot the array satisfies the exchange invariant for any input |
| `GaussJordan.PivotRowSolves` | dep/g3dlite/Matrix.cpp:1425-1430 | dividing the pivot row solves it for the pivoted unknown, also where the pivot cell is reused for the inverse |
| `GaussJordan.ReducedRowEliminates` | dep/g3dlite/Matrix.cpp:1437-1442 | subtracting the solved row eliminates the pivoted unknown from any other row |
| `GaussJordan.EliminationKeepsExchanged` | dep/g3dlite/Matrix.cpp:1425-1444 | a whole elimination step exchanges one more unknown with its output for every column of the input |
| `GaussJordan.RowSwapKeepsExchanged` | dep/g3dlite/Matrix.cpp:1409-1413 | swapping two unpivoted rows of the array is swapping rows of the input |
| `GaussJordan.AllPivotedIsInverse` | dep/g3dlite/Matrix.cpp:1445 | with all columns pivoted the in-place array is a left inverse of the swapped input |
| `GaussJordan.ColumnSwapUndoesRowSwap` | dep/g3dlite/Matrix.cpp:1448-1455 | a left inverse of a row-swapped matrix with the same columns swapped is a left inverse of the matrix |
| `GaussJordan.ZeroRowIsSingular` | dep/g3dlite/Matrix.cpp:1421 | an unpivoted row with only zeros left gives a nonzero vector that the input maps to zero |
| `GaussJordan.InverseOrSingular` | dep/g3dlite/Matrix.cpp:1351-1458 | every square matrix is singular or has a left inverse |
| `GaussJordan.LeftInverseIsInverse` | dep/g3dlite/Matrix.cpp:1351-1458 | a left inverse of a square matrix is a right inverse and the only one |
| `LinearAlgebra.ProductAssociates` | dep/g3dlite/Matrix.cpp:632-651 | vector times matrix times vector does not depend on the bracketing |
| `LinearAlgebra.RightInverseIsNotSingular` | dep/g3dlite/Matrix.cpp:1421 | a matrix with a right inverse is not singular |
| `ConvertConditions.Converter.Run` | contrib/convertConditions/ConvertConditions.py:303-313 | after all four passes over all databases the error branch was never taken, the table is canonical, the updates answer exactly the jobs of the passes in order, and no entry was inserted that no row asks for |
| `ConditionTheorems.SameIdIffSameConditions` | contrib/convertConditions/ConvertConditions.py:112-119 | two answered rows have the same condition_id exactly when their multisets of conditions are equal, whatever was processed in between |
| `ConditionTheorems.IdMeansTheRow` | contrib/convertConditions/ConvertConditions.py:152-220 | under every truth assignment the emitted id evaluates to the conjunction of the row's conditions |
| `ConditionTheorems.EveryRowAnsweredOnce` | contrib/convertConditions/ConvertConditions.py:268-292 | over the whole run every row with at least one condition, in any table of any database, gets exactly one UPDATE and no other row gets any |
| `ConvertConditions.ScannedIffCarries` | contrib/convertConditions/ConvertConditions.py:273-292 | the first passes scan a table exactly when it has condition columns in the expansion of its database |
| `ConditionTheorems.ScannedOnce` | contrib/convertConditions/ConvertConditions.py:273-292 | no table is scanned twice in a pass |
| `ConditionTheorems.ScansEnough` | contrib/convertConditions/ConvertConditions.py:273-292 | leaving narrow tables out of the later passes loses no row |
| `ConditionTheorems.EntriesAreAsked` | contrib/convertConditions/ConvertConditions.py:136-215 | every entry stands for one condition of a row, for all of them, or for two out of three |
| `ConditionTheorems.TableIsEmptyIff` | contrib/convertConditions/ConvertConditions.py:316-325 | the dump shows the initial entry exactly when no row of any table has a condition |
| `ConvertConditions.Converter.RunPass` | contrib/convertConditions/ConvertConditions.py:308-313 | pass 0 makes every leaf known; a later pass appends exactly the answers for the rows with that many conditions |
| `ConvertConditions.Converter.DoTables` | contrib/convertConditions/ConvertConditions.py:260-299 | one database in one pass: same statement for the tables its expansion has |
| `ConvertConditions.Converter.ProgressTable` | contrib/convertConditions/ConvertConditions.py:79-229 | one table in one pass: leaves become known in pass 0, rows are answered later, the table only grows |
| `ConvertConditions.Converter.ProgressRow` | contrib/convertConditions/ConvertConditions.py:94-220 | one row: what is inserted, answered or counted as an error in each pass, for every row |
| `ConvertConditions.Converter.RowConditions` | contrib/convertConditions/ConvertConditions.py:98-128 | the sorted triple loses no positive condition and keeps duplicates |
| `ConvertConditions.Converter.OrderConditions` | contrib/convertConditions/ConvertConditions.py:112-119 | the two or three compare-and-swap steps keep the multiset, put positive kinds first and leave the conditions in falling order |
| `ConvertConditions.GreaterIsLexicographic` | contrib/convertConditions/ConvertConditions.py:50-60 | the kind decides first, then the first value, then the second, and of two different conditions exactly one is greater |
| `ConvertConditions.Converter.InsertLeaves` | contrib/convertConditions/ConvertConditions.py:137-144 | pass 0 makes a leaf known for each condition of a row and keeps the table canonical |
| `ConvertConditions.Converter.FindLeaves` | contrib/convertConditions/ConvertConditions.py:151-164 | with all leaves known every lookup succeeds, so the error branch is unreachable |
| `ConvertConditions.Converter.EntryFor` | contrib/convertConditions/ConvertConditions.py:170-215 | the returned id denotes the row's multiset in the grown canonical table |
| `ConvertConditions.Converter.TwoVector` | contrib/convertConditions/ConvertConditions.py:203-211 | the id of a pair is found in either order, or exactly one AND of the second and the first leaf is appended |
| `ConvertConditions.Converter.ThreeVector` | contrib/convertConditions/ConvertConditions.py:172-200 | the id of a triple is found whichever way it was built, or built on any pair that is there |
| `ConvertConditions.Converter.FindTriple` | contrib/convertConditions/ConvertConditions.py:188-194 | the three searches return the triple's entry if the table has one and 0 otherwise |
| `ConvertConditions.Converter.FindCondition` | contrib/convertConditions/ConvertConditions.py:71-76 | the first entry with these fields, or 0 when there is none |
| `ConvertConditions.Converter.InsertCondition` | contrib/convertConditions/ConvertConditions.py:63-69 | ids stay dense and the table canonical; exactly one new multiset becomes known |
| `ConvertConditions.Converter.CreateDump` | contrib/convertConditions/ConvertConditions.py:316-325 | the dump lists entries 1 to old_max in order; with no condition at all it holds the initial entry |
| `ConditionTable.EvalIsConjunction` | contrib/convertConditions/ConvertConditions.py:63-69 | evaluating an entry is testing every leaf under it |
| `ConditionTable.EvalSurvivesInserts` | contrib/convertConditions/ConvertConditions.py:63-69 | later inserts change the value of no existing id |
| `ConditionTable.InsertKeepsCanonical` | contrib/convertConditions/ConvertConditions.py:63-69 | an entry for a multiset not yet known keeps all multisets of the table different |
| `ConditionTable.EntryIsUnique` | contrib/convertConditions/ConvertConditions.py:71-76 | a multiset of conditions has at most one entry |
| `ConditionTable.FoundPairIsEntry` | contrib/convertConditions/ConvertConditions.py:203-207 | looking a pair up in both orders finds its entry whenever it exists |
| `ConditionTable.SplitIsLookedUp` | contrib/convertConditions/ConvertConditions.py:175-183 | the entry of a triple is the AND of a leaf and of the pair that was looked up beside it, also with equal conditions |
| `ConditionTable.TripleIsFound` | contrib/convertConditions/ConvertConditions.py:188-194 | whichever way a triple was first built, one of the three searches finds it |
| `ConditionTable.MissingTriple` | contrib/convertConditions/ConvertConditions.py:195-200 | when the searches fail no entry denotes the triple |
| `Adjacency.ComputeAdjacency` | dep/g3dlite/MeshAlgAdjacency.cpp:188-422 | for every triangle list and every choice of mates the result is linked, traces the triangles, passes all consistency checks and keeps boundary edges last; the listed edges of a face follow each other exactly when the face is not one of those that FaceOrder.LeftOutOfLoop tells from the triangle list, and exactly when it does not end in the stuck listing; a vertex lists a face exactly as often as it is a corner of it |
| `Mesh.LinkedPassesDebugCheck` | dep/g3dlite/MeshAlgAdjacency.cpp:688-737 | the linking invariant implies every assertion of the consistency check |
| `Mesh.FirstVertexIff` | dep/g3dlite/G3D/MeshAlg.h:60-67 | a vertex that lists a reference is the first vertex of that edge, as documented, exactly when the reference is forward or both ends are the same vertex |
| `Mesh.FirstVertexCanFail` | dep/g3dlite/G3D/MeshAlg.h:60-67 | in the mesh of a single triangle it is not |
| `Mesh.RelabellingKeepsLinked` | dep/g3dlite/MeshAlgAdjacency.cpp:374-387 | renaming edges, possibly turning them round, keeps all links and every face's directed sides in order |
| `Adjacency.BuildFaces` | dep/g3dlite/MeshAlgAdjacency.cpp:211-249 | after the triangle loop the table holds each directed side of each face exactly once and vertices list their faces |
| `Adjacency.NewFaceCounted` | dep/g3dlite/MeshAlgAdjacency.cpp:215-226 | a new face is listed by each vertex once for each of its corners, and no other listing changes |
| `Adjacency.InsertTriangle` | dep/g3dlite/MeshAlgAdjacency.cpp:236-248 | the three sides of one face enter the table with the sign of their direction |
| `Adjacency.CollapseEdges` | dep/g3dlite/MeshAlgAdjacency.cpp:254-345 | all table entries become edges and every face ends with its three edges |
| `Adjacency.MoveBoundaryLast` | dep/g3dlite/MeshAlgAdjacency.cpp:352-370 | the new numbering is a permutation that puts interior edges first; both counters meet |
| `Adjacency.PermutationRelabels` | dep/g3dlite/MeshAlgAdjacency.cpp:361-370 | such a permutation is a renaming of edges |
| `Adjacency.OrderFaces` | dep/g3dlite/MeshAlgAdjacency.cpp:391-414 | each face gets the edge order of the specification |
| `Adjacency.OrderingMakesLoop` | dep/g3dlite/MeshAlgAdjacency.cpp:393-413 | the ordering step puts the three listed edges into a loop exactly when the listing is not the stuck one, which it leaves as it is |
| `FaceOrder.StuckExactlyThen` | dep/g3dlite/MeshAlgAdjacency.cpp:254-414 | a face ends in the stuck listing exactly when it has two equal corners and its side towards them is taken first, the side back second and the side that stays there last; a face with three different or three equal corners never does |
| `FaceOrder.OneTriangleIsLeftOut` | dep/g3dlite/MeshAlgAdjacency.cpp:211-414 | the list of one triangle 1, 1, 0 is such a case for every choice of mates, so its face does not get a loop |
| `Adjacency.OneTriangleHasNoLoop` | dep/g3dlite/MeshAlgAdjacency.cpp:188-414 | whatever computeAdjacency returns for that list, the edges of its face are in no loop |
| `FaceOrder.TakenFirstAsymmetric` | dep/g3dlite/MeshAlgAdjacency.cpp:256-345 | of two different sides of a face with two equal corners only one is taken first |
| `FaceOrder.EntryKeepsOrder` | dep/g3dlite/MeshAlgAdjacency.cpp:261-344 | an entry of the table gives each face its sides after all earlier ones, in the order in which the list is used up |
| `FaceOrder.EnterKeepsTable` | dep/g3dlite/MeshAlgAdjacency.cpp:67-81 | lists hold the signed faces in the order of the triangle list, and the entries of a row stand in the order of first use |
| `Adjacency.OrderDecidesStuck` | dep/g3dlite/MeshAlgAdjacency.cpp:391-414 | listings that follow the order of taking are stuck exactly for the faces left out |
| `Adjacency.StoreEdges` | dep/g3dlite/MeshAlgAdjacency.cpp:417-421 | every vertex lists exactly the edge references that leave it, each once |
| `Adjacency.NothingRemains` | dep/g3dlite/MeshAlgAdjacency.cpp:151-160 | when the table is used up every face has three edges; no fourth is ever assigned |
| `Pairing.AssignEdgeIndex` | dep/g3dlite/MeshAlgAdjacency.cpp:151-160 | the index goes to the first free slot of a face that has one |
| `Pairing.SlotIsFree` | dep/g3dlite/MeshAlgAdjacency.cpp:159 | a face with a side still to be processed has a free slot, so the assertion cannot fail |
| `Pairing.FindMate` | dep/g3dlite/MeshAlgAdjacency.cpp:269-305 | the mate is oppositely directed and the last of those with the closest normal; none is found only if none is opposite |
| `Pairing.BestMateIsOnly` | dep/g3dlite/MeshAlgAdjacency.cpp:278-305 | the choice of a mate is determined: only one position is the last of the best |
| `Pairing.TakingOrderIsPermutation` | dep/g3dlite/MeshAlgAdjacency.cpp:261-342 | every face in a list is taken exactly as often as it stands there |
| `Pairing.ListingsGrowTrans` | dep/g3dlite/MeshAlgAdjacency.cpp:307-340 | what faces list after two stretches of pairing is what both stretches take, one after the other |
| `Pairing.PairLast` | dep/g3dlite/MeshAlgAdjacency.cpp:261-342 | one turn keeps the bookkeeping of remaining sides; an edge stays open only if nothing opposite is left |
| `Pairing.JoinMate` | dep/g3dlite/MeshAlgAdjacency.cpp:329-341 | the mate leaves the list and takes the free side of the new edge |
| `Pairing.CreateEdge` | dep/g3dlite/MeshAlgAdjacency.cpp:307-327 | the popped face gets the new edge with the sign of its direction |
| `Pairing.ProcessEntry` | dep/g3dlite/MeshAlgAdjacency.cpp:258-342 | all sides between two vertices become edges, no two of them are left as mates, and each face gets its sides in the order in which the list is used up |
| `Pairing.OccupyKeepsPartial` | dep/g3dlite/MeshAlgAdjacency.cpp:311-340 | giving a free side of an edge to a face that needs its direction keeps signs, links and counts |
| `EdgeTable.MeshEdgeTable.Insert` | dep/g3dlite/MeshAlgAdjacency.cpp:67-81 | the face index is appended to the list of its pair and to no other |
| `EdgeTable.Iterator.Advance` | dep/g3dlite/MeshAlgAdjacency.cpp:108-126 | the iterator steps to the next entry in order and ends after the last |
| `MeshCounts.OpenEdgesAreTheSurplus` | dep/g3dlite/MeshAlgAdjacency.cpp:261-342 | between two vertices the boundary edges left number exactly the surplus of one direction over the other |
| `MeshCounts.SelfEdgesStayOpen` | dep/g3dlite/MeshAlgAdjacency.cpp:241-247 | each side from a vertex to itself becomes a boundary edge of its own |
| `MeshCounts.RunsAreSides` | dep/g3dlite/MeshAlgAdjacency.cpp:236-248 | the directed sides of the triangles are exactly the occupied sides of the edges |
| `MeshCounts.SidesPerEdge` | dep/g3dlite/MeshAlgAdjacency.cpp:251-345 | three times the faces is twice the interior edges plus the boundary edges |
| `WeldAdjacency.WeldBoundaryEdges` | dep/g3dlite/MeshAlgAdjacency.cpp:425-615 | all consistency checks are kept, every face keeps its directed sides, boundary edges stay last and no two of them are mates any more |
| `WeldAdjacency.WeldAdjacency` | dep/g3dlite/MeshAlgAdjacency.cpp:618-685 | vertices are merged by the closest vertex of a radius net of the given positions; moving every vertex to its representative and re-pairing keeps links, triangles and loops, passes all checks, leaves no mates, and a vertex lists a face exactly as often as it is a corner of it |
| `WeldAdjacency.ComputeCanonical` | dep/g3dlite/MeshAlgAdjacency.cpp:625-640 | there are new vertices that a weld of these positions with this radius gives, and every vertex goes to the last old vertex of its new one |
| `WeldAdjacency.WeldedIff` | dep/g3dlite/MeshAlgAdjacency.cpp:625-640 | two vertices are merged exactly when the same vertex of the radius net is closest to both and near |
| `WeldAdjacency.CanonicalRepresents` | dep/g3dlite/MeshAlgAdjacency.cpp:625-640 | going to the representative twice is going once, never to an earlier vertex, and moves no vertex by more than twice the radius |
| `WeldAdjacency.GroupsAreWelded` | dep/g3dlite/MeshAlgAdjacency.cpp:625-640 | where being near is transitive, exactly the near vertices are merged |
| `WeldAdjacency.ThreeVerticesWelded` | dep/g3dlite/MeshAlgAdjacency.cpp:625-640 | positions 0, 0.01 and 100 on an axis with radius 0.03: the first two become one vertex, the third stays |
| `WeldEdges.PairBoundaryEdges` | dep/g3dlite/MeshAlgAdjacency.cpp:440-587 | the new edges are a renaming of the old ones in which each mate keeps its face and direction, maximal and with boundary edges last |
| `WeldEdges.PairList` | dep/g3dlite/MeshAlgAdjacency.cpp:471-568 | the double loop with its two swap-removes ends and leaves a list without mates, having settled all it removed |
| `WeldEdges.MatchEdges` | dep/g3dlite/MeshAlgAdjacency.cpp:490-525 | in all four orientation cases: match exactly if the open sides are opposite, with the turn that follows |
| `WeldEdges.FindMateOf` | dep/g3dlite/MeshAlgAdjacency.cpp:477-566 | the first later edge that is the reverse of the given one |
| `WeldEdges.SettleJoin` | dep/g3dlite/MeshAlgAdjacency.cpp:528-553 | joining two mates keeps each one's own face on its own side, whichever way round they are |
| `WeldEdges.Collect` | dep/g3dlite/MeshAlgAdjacency.cpp:444-464 | interior edges are copied, boundary edges are filed under their lower vertex |
| `WeldEdges.CopyRemaining` | dep/g3dlite/MeshAlgAdjacency.cpp:572-587 | what is left is appended, so boundary edges come last |
| `WeldEdges.WaitingAreNotMates` | dep/g3dlite/MeshAlgAdjacency.cpp:467-570 | edges left in different lists are no mates either |
| `WeldAdjacency.RelabellingKeepsVertices` | dep/g3dlite/MeshAlgAdjacency.cpp:603-614 | renaming the references of the vertices keeps their agreement with the edges |
| `WeldAdjacency.MovingKeepsLinked` | dep/g3dlite/MeshAlgAdjacency.cpp:649-676 | moving vertices changes neither who refers to whom nor which edges form a loop |
| `WeldCounts.WeldedOpenSidesAreTheSurplus` | dep/g3dlite/MeshAlgAdjacency.cpp:467-570 | after welding, too, the open sides between two vertices are exactly the surplus of one direction |
| `WeldCounts.WeldedSelfSides` | dep/g3dlite/MeshAlgAdjacency.cpp:467-570 | sides from a vertex to itself pair up: at most one is left, by parity |
| `MeshWeld.Welder.Weld` | dep/g3dlite/MeshAlgWeld.cpp:180-197 | the new vertices are pairwise farther apart than the radius, every old one maps to the closest new one within the radius, every new one to the last old one mapped to it |
| `MeshWeld.Welder.GetIndex` | dep/g3dlite/MeshAlgWeld.cpp:122-177 | through the grid, exactly what a scan of all new vertices in order would answer, ties and the decision to add included |
| `MeshWeld.Welder.FindNear` | dep/g3dlite/MeshAlgWeld.cpp:124-144 | the list of one cell stands for all vertices |
| `MeshWeld.Welder.Register` | dep/g3dlite/MeshAlgWeld.cpp:152-173 | a new vertex enters each of its neighbouring cells once, whatever their order |
| `MeshWeld.Frame.NearIsNeighbor` | dep/g3dlite/MeshAlgWeld.cpp:130-163 | a vertex within the radius of a query is registered in the query's cell |
| `MeshWeld.ListScanIsFullScan` | dep/g3dlite/MeshAlgWeld.cpp:133-142 | scanning a list that covers all near vertices finds what a full scan finds |
| `MeshWeld.NearCell` | dep/g3dlite/MeshAlgWeld.cpp:114-119 | per axis, one of three shifts by the radius falls in the cell of any query within the radius |
| `MeshWeld.Welder.Remap` | dep/g3dlite/MeshAlgWeld.cpp:190-196 | the second pass adds no vertex and fills both maps |
| `MeshWeld.CanonicalIsRepresentative` | dep/g3dlite/MeshAlgAdjacency.cpp:637-641 | going through both maps is idempotent and moves no vertex by more than twice the radius |
| `MeshWeld.SameCanonical` | dep/g3dlite/MeshAlgAdjacency.cpp:637-641 | vertices share a representative exactly when they share a new vertex; equal positions always do |
| `MeshWeld.FirstOccurrenceIff` | dep/g3dlite/MeshAlgAdjacency.cpp:628-641 | the representative of every vertex is the first vertex nearby, as the comment says, exactly when no two vertices are near each other |
| `MeshWeld.DocumentedMapsIff` | dep/g3dlite/G3D/MeshAlg.h:400-408 | the documented equations between the arrays hold exactly when no two different positions are near each other |
| `MeshWeld.DocumentedMapsCanFail` | dep/g3dlite/G3D/MeshAlg.h:400-408 | for any two different near positions and one far from both, welding gives maps for which the documented equations fail, and a representative that is not the first vertex nearby |
| `MeshWeld.DocumentedMapsDoFail` | dep/g3dlite/MeshAlgWeld.cpp:180-197 | three positions for which the radius fits the grid are welded to such maps |
| `AnyValProgram.Run` | dep/g3dlite/AnyVal.cpp:182-297 | for every program of creations, destructions, stores and appends, from any element of any variable into any other that is not inside it nor around it, the variables hold what they would if each had a value of its own, with the same errors; variables not named as a destination keep their values |
| `AnyValProgram.Execute` | dep/g3dlite/AnyVal.cpp:182-297 | one command on shared containers does to all variables what it does to plain values, errors included |
| `AnyValProgram.OthersAreUntouched` | dep/g3dlite/G3D/AnyVal.h:92-93 | on plain values, no program changes a variable it does not name as a destination; Run carries this over to shared containers |
| `AnyValReads.StoreThenRead` | dep/g3dlite/AnyVal.cpp:282-297 | after a store the destination reads as the source did before, and everything that could be read and is neither inside nor around the destination reads as before |
| `AnyValReads.PushThenRead` | dep/g3dlite/AnyVal.cpp:948-956 | after an append the array has one more element, with the value the source had before, also when the source is inside the array |
| `AnyValReads.RunsKeepFitting` | dep/g3dlite/AnyVal.cpp:916-956 | in every run from variables whose tables have one key for each element they keep having one, which is what the two laws ask for |
| `AnyValProgram.Open` | dep/g3dlite/AnyVal.cpp:916-930 | a chain of element references makes missing elements on the way and leads to the right handle, or stops at the first key that does not fit |
| `AnyValProgram.OpeningStep` | dep/g3dlite/AnyVal.cpp:916-930 | nested replacement key by key is replacement in the whole value |
| `AnyValProgram.Take` | dep/g3dlite/AnyVal.cpp:933-945 | a chain of constant references reads the part the keys stand for or stops with the error of the first key that fails, and makes nothing |
| `AnyValProgram.PathsApart` | dep/g3dlite/AnyVal.cpp:1024-1031 | paths of which neither is inside the other lead to handles of which neither is inside the other |
| `AnyValProgram.OwnedPathIsOnly` | dep/g3dlite/AnyVal.cpp:1024-1031 | where nobody shares the containers passed there is only one way to a handle |
| `AnyVal.Memory.Assign` | dep/g3dlite/AnyVal.cpp:282-297 | assignment replaces exactly the value at the destination's path by the source's value; counts, links and other variables are kept |
| `AnyVal.Memory.DeleteValue` | dep/g3dlite/AnyVal.cpp:182-279 | giving up a handle frees exactly what loses its last reference, recursively, and changes nothing else |
| `AnyVal.Memory.Dismantle` | dep/g3dlite/AnyVal.cpp:266-272 | destroying a container's elements one by one frees only smaller values |
| `AnyVal.Memory.MakeMutable` | dep/g3dlite/AnyVal.cpp:1024-1031 | afterwards the handle alone refers to its container, and no deep value of any handle has changed |
| `AnyVal.Memory.CopyElements` | dep/g3dlite/AnyVal.cpp:300-363 | the copy has the same elements, each counted once more |
| `AnyVal.Memory.Append` | dep/g3dlite/AnyVal.cpp:948-956 | WrongType for anything but an array; otherwise one more element with the source's value, only there |
| `AnyVal.Memory.Element` | dep/g3dlite/AnyVal.cpp:989-1006 | WrongType, then IndexOutOfBounds for negative indices, then an array padded to the index, only there, and an unshared element |
| `AnyVal.PaddedKeepsElements` | dep/g3dlite/AnyVal.cpp:1001-1003 | a padded array is as long as asked or as it was, keeps its elements and is empty beyond them |
| `AnyVal.WithKeyKeepsEntries` | dep/g3dlite/AnyVal.cpp:916-930 | a new key comes last, with an empty value; nothing else changes |
| `AnyVal.Memory.Entry` | dep/g3dlite/AnyVal.cpp:916-930 | WrongType or an entry for the key, new ones empty, only there, and an unshared element |
| `AnyVal.Memory.ConstElement` | dep/g3dlite/AnyVal.cpp:1009-1021 | the element of the deep value or the error, without copying |
| `AnyVal.Memory.ConstEntry` | dep/g3dlite/AnyVal.cpp:933-945 | the entry of the deep value, KeyNotFound or WrongType |
| `AnyVal.Memory.Declare` | dep/g3dlite/AnyVal.cpp:51-52 | a new empty variable |
| `AnyVal.Memory.DeclarePlain` | dep/g3dlite/AnyVal.cpp:55-152 | a new variable with a plain value |
| `AnyVal.Memory.DeclareContainer` | dep/g3dlite/AnyVal.cpp:158-174 | a new variable with an empty container counted once |
| `AnyVal.Memory.Destroy` | dep/g3dlite/AnyVal.cpp:177-179 | the variable is gone and no other value changes |
| `AnyValTheorems.EveryContainerIsReachable` | dep/g3dlite/AnyVal.cpp:182-195 | no leak: every container on the heap is reached from some variable |
| `AnyValTheorems.NothingInsideItself` | dep/g3dlite/AnyVal.cpp:282-297 | no handle shares a container it is inside of |
| `AnyValTheorems.AppendKeepsValuesIff` | dep/g3dlite/AnyVal.cpp:948-956 | appending keeps sharing acyclic exactly when the source is neither the array nor something the array is inside of |
| `AnyValTheorems.AppendingAContainerMakesACycle` | dep/g3dlite/AnyVal.cpp:948-956 | otherwise no finite deep value is left |
| `AnyValTheorems.SourceSurvivesIff` | dep/g3dlite/AnyVal.cpp:282-297 | a source that only its own variable holds outlives the destroyed old value exactly when the destination is not on its way |
| `AnyValTheorems.AssignmentCopiesIff` | dep/g3dlite/AnyVal.cpp:282-297 | assignment arrives at a value exactly when some way to the source avoids the destination and the destination is not inside the source; an empty handle may be assigned to itself |
| `AnyValTheorems.OwnedSourceCopiesIff` | dep/g3dlite/AnyVal.cpp:282-297 | for a source reached by mutable references: exactly when neither handle is inside the other |
| `AnyValTheorems.CopyIntoItselfHasNoReading` | dep/g3dlite/AnyVal.cpp:282-297 | copying a container into something inside it leaves no finite value |
| `AnyValTheorems.AssigningToOwnElementFails` | dep/g3dlite/AnyVal.cpp:282-297 | a[0] = a does not copy |
| `AnyValTheorems.AssigningOwnElementFails` | dep/g3dlite/AnyVal.cpp:282-297 | a = a[0] does not copy |
| `AnyValTheorems.AppendingToItselfFails` | dep/g3dlite/AnyVal.cpp:948-956 | a.append(a) leaves no finite value |
| `AnyValStore.NoCycle` | dep/g3dlite/G3D/AnyVal.h:259-264 | with exact counts and coherent values no chain of containers closes |
| `AnyValStore.ReadingIsUnique` | dep/g3dlite/G3D/AnyVal.h:92-93 | a store determines the deep value of every referenced container |
| `AnyValStore.UnreferIsExact` | dep/g3dlite/AnyVal.cpp:183-195 | after a handle stops counting, every counter again equals the number of its handles |
| `AnyValStore.ReferIsExact` | dep/g3dlite/AnyVal.cpp:287-293 | after a handle starts counting, too |
| `AnyValStore.Raise` | dep/g3dlite/AnyVal.cpp:916-930 | a change of one owned handle reaches its variable as the replacement of that part and no other variable |
| `AnyValStore.OwnedPathsDiffer` | dep/g3dlite/AnyVal.cpp:1024-1031 | unshared paths of different lengths never end at the same handle |
| `AnyValStore.ReplaceIsLocal` | dep/g3dlite/AnyVal.cpp:916-930 | replacing a part leaves every part alone that is neither inside nor around it |
| `AnyValRelease.FreeingDeletes` | dep/g3dlite/AnyVal.cpp:182-279 | after the last reference goes, the destroyed container and handle leave a store in order |
| `AnyValChange.AssignmentCopiesValue` | dep/g3dlite/AnyVal.cpp:282-297 | the effect of an assignment on all variables |
| `AnyValChange.CopyingUnshares` | dep/g3dlite/AnyVal.cpp:1024-1031 | the finished copy unshares the handle and keeps all values |
| `AnyValChange.AppendReachesVariable` | dep/g3dlite/AnyVal.cpp:948-956 | the effect of an append on all variables |
| `MD5.State.Append` | dep/g3dlite/Crypto_md5.cpp:410-446 | the state absorbs exactly the bytes given: registers over all whole blocks, buffer with the rest, counter 8 times the length modulo 2^64 |
| `MD5.State.Finish` | dep/g3dlite/Crypto_md5.cpp:448-469 | the digest is that of the padded message, whatever was appended how |
| `MD5.HashPieces` | dep/g3dlite/Crypto_md5.cpp:410-469 | a message in any pieces has the digest of the whole |
| `MD5.SplitDoesNotMatter` | dep/g3dlite/Crypto_md5.cpp:410-446 | equal messages leave equal counters, registers and live buffer |
| `MD5.State.FillBlock` | dep/g3dlite/Crypto_md5.cpp:428-437 | an incomplete block goes on, stops or is processed |
| `MD5.State.AppendBlocks` | dep/g3dlite/Crypto_md5.cpp:440-441 | whole blocks are processed straight from the data |
| `MD5.State.AddLength` | dep/g3dlite/Crypto_md5.cpp:416-425 | the two-word counter adds modulo 2^64, carry included |
| `MD5.CarryIsRight` | dep/g3dlite/Crypto_md5.cpp:416-425 | the carry test on wrapped words is right for every length below 2^31 |
| `MD5.State.SaveLength` | dep/g3dlite/Crypto_md5.cpp:460-462 | the saved bytes are the counter, low end first |
| `MD5.PaddingFits` | dep/g3dlite/Crypto_md5.cpp:463-466 | RFC 1321, sections 3.1 and 3.2: padding of 1 to 64 bytes and the length make whole blocks |
| `MD5.PaddingIsForced` | dep/g3dlite/Crypto_md5.cpp:464 | no other number of bytes up to a block would do |
| `MD5.PaddingIsInjective` | dep/g3dlite/Crypto_md5.cpp:463-466 | messages of less than 2^61 bytes with the same padding are the same |
| `MD5.PadIsComputed` | dep/g3dlite/Crypto_md5.cpp:464 | the wrapped unsigned expression yields that number |
| `MD5.FoldConcat` | dep/g3dlite/Crypto_md5.cpp:440-441 | processing whole blocks composes |
| `MD5.Md5` | dep/g3dlite/Crypto_md5.cpp:65-73 | the one-call form hashes the part of the data its cast length lets through |
| `MD5.HashesAllIff` | dep/g3dlite/Crypto_md5.cpp:65-73 | that part is all of the data exactly when there are fewer than 2^31 bytes; of more it is as many bytes as the length modulo 2^32, or none if that is 2^31 or more |
| `MD5Block.ProcessBlock` | dep/g3dlite/Crypto_md5.cpp:219-398 | the unrolled sixty-four operations are the scheduled steps of RFC 1321, section 3.4, on rotating registers |
| `MD5Block.FChooses` | dep/g3dlite/Crypto_md5.cpp:290 | in every bit, F takes its second word where the first is set and the third elsewhere |
| `MD5Block.GChooses` | dep/g3dlite/Crypto_md5.cpp:316 | in every bit, G takes its first word where the third is set and the second elsewhere |
| `MD5Block.HIsParity` | dep/g3dlite/Crypto_md5.cpp:342 | every bit of H is the parity of the three |
| `MD5Block.IFlips` | dep/g3dlite/Crypto_md5.cpp:368 | in every bit, I is the second word, flipped where the first is set or the third is not |
| `MD5Block.RotatedBit` | dep/g3dlite/Crypto_md5.cpp:285 | rotation carries bit k to bit k + n, modulo 32 |
| `MD5Vector.LettersDigest` | dep/g3dlite/Crypto_md5.cpp:219-469 | RFC 1321, appendix A.5: the digest of the alphabet in small letters is c3fcd3d76192e4007dfb496cca67e13b |
| `MD5Block.FourSets` | dep/g3dlite/Crypto_md5.cpp:287-298 | four operations on permuted registers are four steps of the schedule |
| `BinaryItems.RoundTrip` | dep/g3dlite/BinaryOutput.cpp:492-528 | any list of bit groups, 64-bit numbers and strings reads back, in either byte order, every field cut to its width, exactly when the list does not end in a group of no bits |
| `BinaryItems.ReadAll` | dep/g3dlite/BinaryInput.cpp:410-619 | reading by form returns the items and stops exactly at the rest of the stream, or stops at a group of no bits with no byte after it |
| `BinaryItems.ReadableIff` | dep/g3dlite/BinaryInput.cpp:573-619 | only a group of no bits that nothing follows cannot be read back |
| `BinaryItems.WriteAll` | dep/g3dlite/BinaryOutput.cpp:402-528 | what is written is the concatenation of the items' bytes |
| `BinaryItems.ReadGroup` | dep/g3dlite/BinaryInput.cpp:573-619 | a group of bits consumes exactly its bytes; one of no bits can be read exactly when a further byte exists |
| `BinaryStreams.BinaryOutput.WriteBits` | dep/g3dlite/BinaryOutput.cpp:500-517 | appends the low bits, lowest first, across byte borders and the signed current byte |
| `BinaryStreams.BinaryOutput.EndBits` | dep/g3dlite/BinaryOutput.cpp:520-528 | the group becomes its packed bytes |
| `BinaryStreams.PartGrows` | dep/g3dlite/G3D/BinaryOutput.h:63 | a bit set in the signed 8-bit register keeps its meaning as an unsigned byte |
| `BinaryStreams.BinaryInput.ReadBits` | dep/g3dlite/BinaryInput.cpp:583-608 | the next bits as a number, the first one lowest, whatever was read before |
| `BinaryStreams.BinaryInput.EndBits` | dep/g3dlite/BinaryInput.cpp:611-619 | the position is the start plus the bits read rounded up to bytes; an unused byte is put back |
| `BinaryStreams.BinaryInput.BeginBits` | dep/g3dlite/BinaryInput.cpp:573-580 | looks at one byte, and answers false where there is none |
| `BinaryStreams.BinaryOutput.WriteUInt64` | dep/g3dlite/BinaryOutput.cpp:402-421 | eight bytes in the order of the stream |
| `BinaryStreams.BinaryInput.ReadUInt64` | dep/g3dlite/BinaryInput.cpp:410-429 | the number those eight bytes stand for |
| `BinaryStreams.NumberRoundTrip` | dep/g3dlite/BinaryOutput.cpp:382-421 | 4- and 8-byte numbers survive in either byte order |
| `BinaryStreams.BinaryOutput.WriteStringEven` | dep/g3dlite/BinaryOutput.cpp:435-447 | the string, its zero and a second zero for odd lengths |
| `BinaryStreams.BinaryInput.ReadStringEven` | dep/g3dlite/BinaryInput.cpp:517-523 | the same, and the padding after it where a byte is left |
| `BinaryStreams.BinaryInput.ReadString` | dep/g3dlite/BinaryInput.cpp:432-478 | on any stream: up to the first zero, which is consumed, or to the end, and false at the end |
| `BinaryStreams.BinaryOutput.WriteString32` | dep/g3dlite/BinaryOutput.cpp:450-453 | length with the zero, string, zero |
| `BinaryStreams.BinaryInput.ReadString32` | dep/g3dlite/BinaryInput.cpp:526-529 | the string in as many bytes as the number before it says, or false where that number or the stream is unfit |
| `BinaryStreams.EvenReadsBack` | dep/g3dlite/BinaryInput.cpp:455-523 | a padded string that was written reads back and leaves the rest of the stream |
| `BinaryStreams.CountedReadsBack` | dep/g3dlite/BinaryInput.cpp:526-529 | a counted string that was written reads back and leaves the rest of the stream |
| `BitStreams.FieldRoundTrip` | dep/g3dlite/BinaryInput.cpp:583-608 | the low bits of a number, put together again, are the number modulo a power of two |
| `BitStreams.PackRoundTrip` | dep/g3dlite/BinaryOutput.cpp:500-528 | packing bits into bytes loses none |
| `AnyText.RoundTripIff` | dep/g3dlite/Any.cpp:818-904 | parsing the printed tokens of a value returns it and leaves the following tokens, exactly when no table name in it has an underscore and no name spells "none" |
| `AnyText.UnderscoreDoesNotReadBack` | dep/g3dlite/Any.cpp:842-850 | an empty table called a_b does not read back |
| `AnyText.NoneDoesNotReadBack` | dep/g3dlite/Any.cpp:1046-1049 | an empty array called none does not read back |
| `AnyTextIO.PrintAndParse` | dep/g3dlite/Any.cpp:818-1210 | printing to a stream and parsing it again gives the value back exactly then |
| `AnyText.BareReadsBack` | dep/g3dlite/Any.cpp:962-1095 | what parsing a print gives in every case: the value, an error, or another value with an open bracket left |
| `AnyText.ElementsReadBack` | dep/g3dlite/Any.cpp:1133-1210 | arrays of any values come back from either pair of brackets, with commas or semicolons, also after the last element, and with comments |
| `AnyText.EntriesReadBack` | dep/g3dlite/Any.cpp:1133-1210 | entries written in any order, with repeated keys, quoted keys, comments on either side of a key and any separators, give the table in key order in which every key has the value written for it last |
| `AnyText.SetEntrySets` | dep/g3dlite/Any.cpp:1192 | setting a key keeps the entries in strict key order, gives that key its value and changes no other |
| `AnyText.OrderedIsOnly` | dep/g3dlite/Any.cpp:853-857 | entries in key order are determined by what the table holds |
| `AnyText.ArrayInAnyNotation` | dep/g3dlite/Any.cpp:1133-1210 | an array in any of these notations parses to the same value as its printed form |
| `AnyText.TableInAnyNotation` | dep/g3dlite/Any.cpp:1133-1210 | a table in any of these notations parses to the table of the last values, in key order |
| `AnyText.CommentReadsBack` | dep/g3dlite/Any.cpp:907-920 | a trimmed comment comes back from its padded print |
| `AnyText.CommentsReadTogether` | dep/g3dlite/Any.cpp:907-920 | comments in a row become paragraphs of one comment |
| `AnyText.QuotesIff` | dep/g3dlite/Any.cpp:788-814 | an identifier is quoted exactly when it has an underscore |
| `AnyText.NeedsQuotesIff` | dep/g3dlite/Any.cpp:788-814 | a name needs no quotes exactly when it starts with a letter and is made of letters, digits, full stops, arrows and double colons |
| `AnyTextIO.TextInput.ReadAny` | dep/g3dlite/Any.cpp:962-1095 | the token-by-token reader computes the parse of the specification, errors included |
| `AnyTextIO.TextInput.ReadElements` | dep/g3dlite/Any.cpp:1152-1209 | the loop over array elements |
| `AnyTextIO.TextInput.ReadEntries` | dep/g3dlite/Any.cpp:1152-1209 | the loop over table entries |
| `AnyTextIO.TextInput.ReadName` | dep/g3dlite/Any.cpp:934-949 | symbols up to an opening bracket, joined |
| `AnyTextIO.TextInput.ReadUntilSeparator` | dep/g3dlite/Any.cpp:1105-1130 | comments up to a separator or closing bracket |
| `AnyTextIO.TextOutput.WriteAny` | dep/g3dlite/Any.cpp:818-904 | the writer emits the tokens of the specification |
| `Culling.ChildMaskKeepsTheAnswer` | dep/g3dlite/AABox.cpp:142-219 | a box inside one that is not culled gets the same answer, plane and child mask from the mask left to it as from its parent's mask |
| `Culling.CulledParentCullsChild` | dep/g3dlite/AABox.cpp:194-203 | a box inside a culled one is culled by the mask left to it, by the same plane |
| `Culling.MasksKeepTheScene` | dep/g3dlite/G3D/AABox.h:149-167 | a whole hierarchy shows the same leaves with masks handed down as without |
| `Culling.CulledByWithChildMask` | dep/g3dlite/AABox.cpp:142-219 | answer, first culling plane and child mask, early exits included |
| `Culling.CulledBy` | dep/g3dlite/AABox.cpp:222-283 | the same answer and plane without a mask |
| `Culling.CountContained` | dep/g3dlite/AABox.cpp:168-192 | the early exit decides all-outside and all-inside as eight tests would |
| `Culling.InnerBox` | dep/g3dlite/AABox.cpp:176-181 | what holds of all corners of a box holds of all boxes inside it |
| `Culling.StraddledBits` | dep/g3dlite/AABox.cpp:205-209 | the child mask has exactly the bits of the tested planes that the box straddles |
| `Culling.EmptyAndFullMask` | dep/g3dlite/G3D/AABox.h:160-165 | mask zero tests no plane, all ones test every plane |
| `Heights.HeightMap.PackGrid` | contrib/extractor/System.cpp:430-527 | all heights are limited in place and the header holds their exact range when they were within 20000; without integer packing nothing but an even grid is reduced and every cell reads back exactly; with it the grid is flat exactly when the range is zero or below the flat limit, bytes exactly when it is not flat and below the 8-bit limit, words exactly when it is neither and below the 16-bit limit; every cell of both grids reads back exactly, within the flat limit, or within half a step of the range |
| `Heights.ReadBackIsClose` | contrib/extractor/System.cpp:477-527 | a height is read back exactly, within the flat limit, or within 1/510 or 1/131070 of the range |
| `Heights.StoredIsClose` | contrib/extractor/System.cpp:256-264 | a stored height fits its integer and is recovered within half a step |
| `Heights.StoredKeepsOrder` | contrib/extractor/System.cpp:505-523 | lowest and highest are stored exactly and order is kept |
| `Heights.HeightMap.FindRange` | contrib/extractor/System.cpp:430-449 | the range encloses all heights and each bound is a height or its starting value of 20000 below or above zero |
| `Heights.HeightMap.LimitRange` | contrib/extractor/System.cpp:430-466 | after limiting, the bounds enclose the grid as stored, and are heights of it when all were within 20000 |
| `Heights.ScanBounds` | contrib/extractor/System.cpp:430-449 | given bounds are widened to all heights and no further |
| `Heights.LimitHeights` | contrib/extractor/System.cpp:452-466 | every height below the limit is lifted to it |
| `Heights.PackHeights` | contrib/extractor/System.cpp:505-523 | every height becomes the nearest step above the lowest |

## Left out

- Floating-point rounding: matrices, positions, planes and heights are exact reals.
- Matrix.Impl.InverseInPlaceGaussJordan: answers `false` where the source stops in an assertion on a zero pivot.
- Files, databases and connection errors of the condition compiler; all updates form one log that names the database, and debug output is left out.
- ConvertConditions.Converter.Run: the inserted-rows message between databases is not modelled.
- Computing face normals: the comparison of normals is an arbitrary function.
- The conversion of vertex records to `adjacentFaceArray` at `dep/g3dlite/MeshAlgAdjacency.cpp:163-185`, an index copy.
- The hidden order of hash tables and sets: buckets and grid cells are visited in an arbitrary order.
- Hash order of AnyVal tables: entries are kept in the order of their creation.
- AnyVal.Memory.Assign: an element reference kept across a copy of its container is not modelled; the destination is reached by a fresh chain of references.
- AnyValProgram.Run: the destination is opened before the source is read, which is one of the orders of evaluation C++ allows; the source is read through constant references.
- AnyVal text input and output, whose printed and accepted forms differ, and the fields of the geometric value types, which are kept as lists of numbers.
- MD5Block.ProcessBlock: big-endian and unaligned copies of a block are one decoding of its words.
- MD5.State.Append: the signed overflow of an offset plus a length near 2^31 is excluded, not modelled.
- Compression, file windows and partial flushes of binary streams; writing before the end of a stream.
- BinaryStreams.BinaryInput.BeginBits, ReadString, ReadStringEven and ReadString32 answer `false` where the source stops in an assertion or copies a negative number of bytes.
- Characters of Any text: splitting text into tokens, escapes, number formatting, the `#include` pragma and source positions. A closing comment mark inside a comment would end it.
- AnyText.RoundTripIff: names and keys are identifiers; names made of several symbols and keys that would not lex as one symbol are not covered. Tables are equal when their entries in key order are.
- Culling: an infinite coordinate is a number beyond the largest finite one, which the test clamps.
- Heights.HeightMap.PackGrid: the grid is given; reading cells, area flags, liquids and the file layout are left out.
- MPQ and DBC readers, sockets, threads, logging, image and colour code, iterative numerics, GUI tools and the remaining g3dlite classes: I/O plumbing or properties that are easy or need convergence theory.
