# tsp — a Dafny model of a small travelling-salesman solver

The Java program reads a TSPLIB 95 instance with ATT pseudo-Euclidean coordinates
(`att532.tsp`). It computes, for every city, the other cities ranked by distance. It builds
a first tour with a nearest-neighbour construction started from every city and keeps the
shortest one. It then improves that tour by a tabu search, and cleans every step of the
search of crossing edges with `optimize`. A second, older entry point (`Route.greedy`,
`Route.calculateDistance`) builds and measures a single greedy route.

The model has one Dafny module per concern:

| module | file | models |
|---|---|---|
| `Wrappers` | wrappers.dfy | the `Option` type |
| `Util` | util.dfy | `Util.reverseList`, `Util.sublist` |
| `Nodes` | nodes.dfy | `Node`: the city record, `distanceTo` (ATT distance), `compareTo` |
| `Geometry` | geometry.dfy | `Line2D.relativeCCW` / `linesIntersect` on integer coordinates |
| `Routes` | routes.dfy | `Route`: `addNode`, `greedy`, `calculateDistance` |
| `TspReader` | reader.dfy | the line logic of `TSP.readFromFile` |
| `Ranking` | ranking.dfy | one round of `TSP.calculateDistances` and `ValueComparator` |
| `Construction` | construction.dfy | `TSP.greedy` |
| `Crossing` | crossing.dfy | `TSP.optimize` |
| `Tsp` | tsp.dfy | the `TSP` object: its fields and the methods that change them, and `tabuSearch` |

Code that changes state becomes imperative Dafny:
- `Route` and `TSP` become classes whose methods update their fields.
- The caller's `LinkedList` of `Route.greedy` is a `NodeList` object, emptied in place.
- Every Java loop is a `while` loop proved against a specification function.
- The recursions of `optimize` and `tabuSearch` become loops.
- The specification functions are then related by lemmas to the properties the program
  relies on:
  - a ranking holds every other city once, nearest first;
  - each greedy start yields a tour that visits every city once and, for cities with unique
    names, always moves to a nearest unvisited city;
  - `optimize` only reorders a route, and on a route without repeated cities the result has
    no crossing at any position a pass tests;
  - the best route of the tabu search never gets longer.

A Java `TreeMap` appears as the sequence of its entries in iteration order. A `HashMap`'s
key-set iteration appears as a sequence given by the caller. Java `int` arithmetic in the
distance computations is kept free of overflow by explicit preconditions (`Fits`,
`FitsFromFirst`, `ConsecutiveFit`, `AllFit`). The capacity `to - from` of `sublist` wraps
as a Java `int` does (`Util.Int32`). The segment test of `Line2D` is computed over exact
integers where Java computes in doubles (see Left out).

## Model

| member | source | states |
|---|---|---|
| Util.Reverse | src/de/metal_land/Util.java:22-30 | the reversal has the same length and element k is element \|s\|-1-k of the input |
| Util.ReverseInvolution | src/de/metal_land/Util.java:22-30 | reversing twice gives back the list |
| Util.ReversePermutes | src/de/metal_land/Util.java:22-30 | reversal keeps every element with its multiplicity |
| Util.ReverseList | src/de/metal_land/Util.java:22-30 | the backwards iterator loop returns the input reversed |
| Util.Int32 | src/de/metal_land/Util.java:41 | the int value of a difference: it lies in [-2^31, 2^31), differs from the exact value by a multiple of 2^32, and equals it when that fits |
| Util.Sublist | src/de/metal_land/Util.java:40-47 | IllegalArgument (negative ArrayList capacity) iff the 32-bit difference to - from is negative; success iff that capacity is not negative and either to <= from or from..to lies inside the list, with max(0, to-from) elements, element k being list[from+k]; IndexOutOfBounds otherwise; a range inside the list gives exactly that slice |
| Util.SublistCapacityWraps | src/de/metal_land/Util.java:41 | the range from -1 to 2^31-1 gets a negative capacity and throws although to > from, and the range from 2^31-1 to -2 gets a non-negative one |
| Util.SublistsReassemble | src/de/metal_land/Util.java:32-47 | the three sublists at split points i <= j concatenate to the whole list |
| Nodes.FloorSqrt | src/de/metal_land/tsp/Node.java:32 | the integer square root: r*r <= q < (r+1)*(r+1) |
| Nodes.RoundSqrt | src/de/metal_land/tsp/Node.java:33 | `Math.round(Math.sqrt(q))` is the integer nearest the square root: (2r-1)^2 < 4q < (2r+1)^2 |
| Nodes.DistanceTo | src/de/metal_land/tsp/Node.java:28-36 | the ATT distance is the ceiling of sqrt((dx*dx+dy*dy)/10) with integer division: the least r with r*r >= that quotient |
| Nodes.DistanceIs | src/de/metal_land/tsp/Node.java:28-36 | any r that is the least with r*r >= the quotient is the distance, so the distance is determined by that property |
| Nodes.SquaredSpanSymmetric | src/de/metal_land/tsp/Node.java:29-32 | dx*dx+dy*dy is the same in both directions |
| Nodes.DistanceSymmetric | src/de/metal_land/tsp/Node.java:28-36 | the distance from p to q equals the distance from q to p |
| Nodes.DistanceNearIsZero | src/de/metal_land/tsp/Node.java:28-36 | cities less than sqrt(10) apart are at distance 0 |
| Nodes.DistanceSelf | src/de/metal_land/tsp/Node.java:28-36 | a city is at distance 0 from itself |
| Nodes.CompareNames | src/de/metal_land/tsp/Node.java:38-41 | `String.compareTo` is 0 exactly for equal strings |
| Nodes.CompareTo | src/de/metal_land/tsp/Node.java:38-41 | two cities compare equal exactly when their names are equal |
| Nodes.CompareNamesAntisymmetric | src/de/metal_land/tsp/Node.java:38-41 | comparing b with a gives the negation of comparing a with b |
| Nodes.CompareNamesTransitive | src/de/metal_land/tsp/Node.java:38-41 | the name order is transitive, so it is a strict total order usable as TreeMap key order |
| Geometry.RelativeCcw | src/de/metal_land/tsp/TSP.java:234-237 | the orientation of a point is -1, 0 or 1, and 0 for either endpoint of the segment |
| Geometry.SharedEndpointIntersects | src/de/metal_land/tsp/TSP.java:234-237 | two segments that share an endpoint always intersect |
| Geometry.LinesIntersect | src/de/metal_land/tsp/TSP.java:234-237 | the `Line2D.linesIntersect` test from the four orientations; its meaning is stated by Geometry.SharedEndpointIntersects and, through Crossing.EdgesCross, by the scan lemmas below |
| Routes.NodeList.constructor | src/de/metal_land/tsp/Route.java:24 | the caller's list holds the given cities |
| Routes.Shortest | src/de/metal_land/tsp/Route.java:33-40 | the index the scan keeps is a valid entry index |
| Routes.ShortestIsFirstMinimum | src/de/metal_land/tsp/Route.java:33-40 | the scan keeps nothing iff no distance is below MAX_VALUE; otherwise it keeps the first entry of least distance |
| Routes.ShortestNode | src/de/metal_land/tsp/Route.java:32-40 | the loop returns the city of the first least-distance entry, or null when there is none |
| Routes.RemoveFirst | src/de/metal_land/tsp/Route.java:42 | `List.remove(Object)` removes one occurrence when present and changes nothing otherwise |
| Routes.RemoveFirstAt | src/de/metal_land/tsp/Route.java:42 | the occurrence removed is the first one, and the other cities keep their order |
| Routes.GreedyLoop | src/de/metal_land/tsp/Route.java:29-44 | the `while` loop of `greedy` as a recursion; what it does is stated by Routes.GreedyLoopStep, Routes.GreedyLoopConserves, Routes.GreedyLoopReverses and Routes.GreedyLoopPicksLast |
| Routes.GreedyResult | src/de/metal_land/tsp/Route.java:24-45 | the whole of `greedy` on a list; stated by Routes.GreedyConserves and Routes.GreedyWithSelfMapsReverses, and Routes.Route.Greedy is proved to compute it |
| Routes.GreedyLoopStep | src/de/metal_land/tsp/Route.java:29-44 | one iteration moves the picked city from the list to the end of the route |
| Routes.GreedyConserves | src/de/metal_land/tsp/Route.java:24-45 | however greedy ends, route and remaining list together hold exactly the caller's cities; the route starts with the first city; on normal termination the list is empty and the route is a permutation |
| Routes.GreedyLoopConserves | src/de/metal_land/tsp/Route.java:29-44 | the loop keeps the cities of route and list together, only extends the route, and empties the list when it finishes |
| Routes.SelfAtZeroIsPicked | src/de/metal_land/tsp/Route.java:33-40 | a map with no negative distance, in which the city itself and no other city is at distance 0, makes the scan pick that city itself |
| Routes.GreedyWithSelfMapsReverses | src/de/metal_land/tsp/Route.java:24-45 | with maps that include each city itself at distance 0 (as Main.calculateDistances builds them), greedy returns the first city followed by the others in reverse list order |
| Routes.GreedyLoopReverses | src/de/metal_land/tsp/Route.java:29-44 | when every remaining city picks itself, the loop appends the remaining cities in reverse |
| Routes.GreedyLoopPicksLast | src/de/metal_land/tsp/Route.java:30-43 | a last city that picks itself is moved to the route first |
| Routes.RemoveLastDistinct | src/de/metal_land/tsp/Route.java:42 | removing a city that occurs only at the end leaves the rest |
| Routes.StarLengthStep | src/de/metal_land/tsp/Route.java:51-58 | each further city adds its distance from the first city |
| Routes.StarLength | src/de/metal_land/tsp/Route.java:47-61 | what `calculateDistance` sums as written; stated by Routes.StarLengthStep and Routes.ThreeCityStar, compared with the tour length by Routes.CalculateDistanceCounterexample |
| Routes.PathLengthCons | src/de/metal_land/tsp/Route.java:47-61 | a tour's length is its first edge plus the length of the rest |
| Routes.PathLengthReversal | src/de/metal_land/tsp/Route.java:47-61 | a route travelled backwards has the same length |
| Routes.CalculateDistanceCounterexample | src/de/metal_land/tsp/Route.java:47-61 | on three collinear cities the method as written gives 14, and 17 reversed, while the tour is 11 long |
| Routes.ThreeCityLengths | src/de/metal_land/tsp/Route.java:47-61 | the star and path lengths of three cities in terms of their distances |
| Routes.ThreeCityStar | src/de/metal_land/tsp/Route.java:51-58 | the star length of three cities is the sum of the distances from the first |
| Routes.LineSpans | src/de/metal_land/tsp/Node.java:29-32 | the squared spans between the three cities of the counterexample |
| Routes.SpanDistances | src/de/metal_land/tsp/Node.java:28-36 | the ATT distances 4, 10 and 7 between those cities |
| Routes.Route.constructor | src/de/metal_land/tsp/Route.java:15-18 | a new route is empty |
| Routes.Route.AddNode | src/de/metal_land/tsp/Route.java:20-22 | the city is appended and the earlier cities stay |
| Routes.Route.Greedy | src/de/metal_land/tsp/Route.java:24-45 | route, the caller's list and the outcome are exactly those of the greedy specification, so GreedyConserves applies to them |
| Routes.Route.CalculateDistance | src/de/metal_land/tsp/Route.java:47-61 | the result is the sum of the distances from the first city to each other city (see Findings) |
| TspReader.Pieces | src/de/metal_land/tsp/TSP.java:82 | splitting yields at least one piece (TspReader.PiecesJoin states that the pieces give the line back) |
| TspReader.PiecesJoin | src/de/metal_land/tsp/TSP.java:82-87 | splitting at the separator loses nothing: joining the pieces with the separator gives the line back |
| TspReader.DropTrailingEmpty | src/de/metal_land/tsp/TSP.java:82 | the result is a prefix with no empty last piece, and every piece it drops is empty |
| TspReader.Split | src/de/metal_land/tsp/TSP.java:82-87 | `String.split`: a line without the separator gives itself; otherwise the pieces up to the last non-empty one, every dropped piece being empty (with TspReader.PiecesJoin, nothing else is lost) |
| TspReader.ParseCoordLine | src/de/metal_land/tsp/TSP.java:87-88 | a data line as `readFromFile` reads it: the name, then two `Integer.parseInt` fields, or the exception met first; stated through TspReader.ReadCoordLine, TspReader.ReadCoordinates and TspReader.ReadWellFormedFile |
| TspReader.ReadLines | src/de/metal_land/tsp/TSP.java:71-90 | the reading loop as a recursion over the lines; its meaning is stated by TspReader.ReadStopsAtEof, TspReader.ReadHeader, TspReader.ReadCoordinates and TspReader.ReadWellFormedFile |
| TspReader.ParseInt | src/de/metal_land/tsp/TSP.java:88 | a parsed coordinate always fits a Java int |
| TspReader.ReadStopsAtEof | src/de/metal_land/tsp/TSP.java:77-79 | lines after the first EOF line have no effect |
| TspReader.ReadHeaderLine | src/de/metal_land/tsp/TSP.java:81-85 | a specification line sets the name if its key is NAME and is otherwise skipped |
| TspReader.ReadHeader | src/de/metal_land/tsp/TSP.java:71-90 | the specification part leaves the cities alone and sets the name to its last NAME value |
| TspReader.ReadCoordLine | src/de/metal_land/tsp/TSP.java:86-89 | a data line appends its city; a repeated NODE_COORD_SECTION line changes nothing |
| TspReader.ReadCoordinates | src/de/metal_land/tsp/TSP.java:71-90 | the data part appends its cities in file order and changes nothing else |
| TspReader.ReadWellFormedFile | src/de/metal_land/tsp/TSP.java:68-90 | a well-formed file reads without exception: name from the last NAME line, the cities between NODE_COORD_SECTION and EOF appended in order, the rest ignored |
| Ranking.Others | src/de/metal_land/tsp/TSP.java:102-106 | the cities the inner loop puts are all cities of the list except the one ranked, with their multiplicities |
| Ranking.OthersUniqueNames | src/de/metal_land/tsp/TSP.java:102-106 | leaving out the ranked city keeps names unique |
| Ranking.Tagged | src/de/metal_land/tsp/TSP.java:104 | each city is paired with its distance from the ranked city |
| Ranking.InsertByName | src/de/metal_land/tsp/TSP.java:104 | one `TreeMap.put` into the name-ordered map; stated by Ranking.InsertByNameSorted |
| Ranking.ByName | src/de/metal_land/tsp/TSP.java:100-106 | the name-ordered map the inner loop fills; stated by Ranking.ByNameSorted, Ranking.ByNameSnoc and Ranking.ByNameStep |
| Ranking.InsertByNameSorted | src/de/metal_land/tsp/TSP.java:104 | putting a new key into the name-ordered map keeps it strictly ordered by name and adds exactly that entry |
| Ranking.ByNameSorted | src/de/metal_land/tsp/TSP.java:100-106 | with unique names the name-ordered map is ordered by name and holds exactly the entries put |
| Ranking.ValueCompare | src/de/metal_land/tsp/TSP.java:278-284 | the comparator answers 1 iff the first distance is greater, and -1 otherwise, never 0 |
| Ranking.InsertByValue | src/de/metal_land/tsp/TSP.java:108-109 | since the comparator never answers 0, each put adds an entry and nothing is overwritten |
| Ranking.ByValue | src/de/metal_land/tsp/TSP.java:108-109 | `putAll` keeps every entry with its multiplicity |
| Ranking.InsertByValueSorted | src/de/metal_land/tsp/TSP.java:108-109 | inserting an entry whose name exceeds all present keeps the order nearest first, ties by descending name |
| Ranking.ByValueSorted | src/de/metal_land/tsp/TSP.java:108-109 | copying the name-ordered map sorts by distance, cities at equal distance by descending name |
| Ranking.OthersFit | src/de/metal_land/tsp/TSP.java:102-106 | the distances from the ranked city to the others fit in an int |
| Ranking.OthersSnoc | src/de/metal_land/tsp/TSP.java:102-106 | one more city of the list joins the others unless it is the ranked city |
| Ranking.ByNameSnoc | src/de/metal_land/tsp/TSP.java:104 | one more put inserts that city with its distance |
| Ranking.ByNameStep | src/de/metal_land/tsp/TSP.java:102-106 | one iteration of the inner loop puts the next city unless it is the ranked one |
| Ranking.RankingOrder | src/de/metal_land/tsp/TSP.java:98-111 | with unique names the ranking holds every other city exactly once and never the city itself, nearest first, ties by descending name |
| Ranking.TaggedPermutation | src/de/metal_land/tsp/TSP.java:104-109 | any reordering of the put entries carries each city once with its own distance |
| Construction.FirstUnvisited | src/de/metal_land/tsp/TSP.java:133-138 | the scan finds the first city of the ranking not on the route, or none when all are on it |
| Construction.FirstUnvisitedNearest | src/de/metal_land/tsp/TSP.java:133-138 | over a ranking sorted by distance from a city, the city the scan finds is no farther from it than any ranked city off the route |
| Construction.Construct | src/de/metal_land/tsp/TSP.java:129-143 | the inner `while` loop of `greedy` as a recursion; stated by Construction.ConstructStep, Construction.BuildingMoves and Construction.ConstructCompletes |
| Construction.GreedyFrom | src/de/metal_land/tsp/TSP.java:119-143 | the route built from one start city; stated by Construction.GreedyFromTour and Tsp.GreedyNearest |
| Construction.KeepBest | src/de/metal_land/tsp/TSP.java:145-149 | the best-route update over the candidates; stated by Construction.KeepBestStep and Construction.KeepBestIsFirstMinimum |
| Construction.KeepBestStep | src/de/metal_land/tsp/TSP.java:145-149 | a route is kept when none is kept yet or it is strictly shorter |
| Construction.KeepBestIsFirstMinimum | src/de/metal_land/tsp/TSP.java:118-151 | the kept route is no longer than any candidate or than the earlier best, and it is the first candidate of least length unless the earlier best stays |
| Construction.ConstructStep | src/de/metal_land/tsp/TSP.java:129-143 | while cities remain, the last city has a ranking, the scan finds a city, and that city is still in the list |
| Construction.UnvisitedIsRanked | src/de/metal_land/tsp/TSP.java:130-138 | a city still in the list is off the route and in the ranking of the last city |
| Construction.BuildingMoves | src/de/metal_land/tsp/TSP.java:140-142 | moving that city from the list to the route keeps the loop invariant |
| Construction.ConstructCompletes | src/de/metal_land/tsp/TSP.java:129-143 | the loop finishes with a permutation of all cities in which each step goes to the first unvisited city of the previous city's ranking |
| Construction.FirstStep | src/de/metal_land/tsp/TSP.java:133-142 | the step just taken goes to the first unvisited city of the previous city's ranking |
| Construction.GreedyFromTour | src/de/metal_land/tsp/TSP.java:119-143 | over rankings that hold exactly the other cities, each start yields a tour that begins at its start city, visits every city exactly once and always moves to the first city of the previous city's ranking not yet visited |
| Crossing.IndexOf | src/de/metal_land/tsp/TSP.java:221 | `indexOf` gives the first position of the city, or -1 iff it is absent |
| Crossing.IndexOfDistinct | src/de/metal_land/tsp/TSP.java:221 | in a route without repeats each city is found at its own position |
| Crossing.EdgesCross | src/de/metal_land/tsp/TSP.java:234-237 | the test of edges (i, i+1) and (i+2, i+3); the scan lemmas Crossing.GuardedScanWindow, Crossing.GuardedFullScanWindow and Crossing.FullScanWindow state which positions it is asked at |
| Crossing.SwapAfter | src/de/metal_land/tsp/TSP.java:238-246 | the two middle cities exchanged; stated by Crossing.SwapAfterExchanges, and Crossing.ReassemblyIsSwap proves the rewrite as written equals it |
| Crossing.ReassemblyIsSwap | src/de/metal_land/tsp/TSP.java:238-246 | the reassembled list exchanges the two cities between the crossing edges |
| Crossing.SwapAfterExchanges | src/de/metal_land/tsp/TSP.java:238-246 | the rewrite changes only those two positions, so it is a permutation |
| Crossing.Scan | src/de/metal_land/tsp/TSP.java:220-252 | a reported crossing is a real crossing of edges (ci, ci+1) and (ci+2, ci+3) inside the route |
| Crossing.GuardedScan | src/de/metal_land/tsp/TSP.java:223-232 | the same for the pass that skips positions without an edge pair |
| Crossing.GuardedScanStep | src/de/metal_land/tsp/TSP.java:220-232 | on a route without repeats, with the look-ahead a full pass carries to position p, the pass breaks at position 25 + max(0, n-30), moves on where no edge pair is left or the edges do not cross, and reports the crossing at p otherwise |
| Crossing.GuardedScanWindow | src/de/metal_land/tsp/TSP.java:220-252 | on a route without repeats, from position p on the guarded pass finds no crossing iff no tested position has one, and a crossing it reports is the first tested one |
| Crossing.GuardedFullScanWindow | src/de/metal_land/tsp/TSP.java:215-252 | a full guarded pass over a route without repeats never throws, finds no crossing iff no tested position (i+3 < n and i < 25 + max(0, n-30)) has one, and reports the first crossing |
| Crossing.FullScanWindow | src/de/metal_land/tsp/TSP.java:215-252 | the same for the pass as written: its NoCrossing means no tested position crosses, and its crossing is the first one |
| Crossing.GuardedScanAgrees | src/de/metal_land/tsp/TSP.java:220-252 | wherever the pass as written does not throw, the guarded pass answers the same |
| Crossing.GuardedScanNeverThrows | src/de/metal_land/tsp/TSP.java:223-232 | the guarded pass never reads past the end |
| Crossing.GuardedScanCrossingFree | src/de/metal_land/tsp/TSP.java:220-252 | on a crossing-free route the guarded pass finds no crossing |
| Crossing.ShortRoutesThrow | src/de/metal_land/tsp/TSP.java:224-232 | every crossing-free route of 3 to 27 distinct cities makes the pass as written throw |
| Crossing.SquareCounterexample | src/de/metal_land/tsp/TSP.java:224-232 | the unit square is crossing-free, the pass as written throws on it, the guarded pass finds no crossing |
| Crossing.Reassemble | src/de/metal_land/tsp/TSP.java:238-246 | the three sublists and the reversal give the route with the two middle cities exchanged |
| Crossing.OptimizePass | src/de/metal_land/tsp/TSP.java:215-252 | the loops of one pass give the pass specification (as written, or guarded), and on a crossing the rewritten route |
| Crossing.ScanOf | src/de/metal_land/tsp/TSP.java:220-252 | a crossing reported by either pass is a real crossing inside the route |
| Crossing.VisitPosition | src/de/metal_land/tsp/TSP.java:220-251 | one outer iteration either ends the pass with its answer or continues it with the new look-ahead |
| Crossing.TestEdges | src/de/metal_land/tsp/TSP.java:229-249 | the inner loop: no test if the look-ahead is not positive; when the pair runs past the end, IndexOutOfBounds as written and no crossing when guarded; otherwise the crossing test at currentIndex and the rewrite on a crossing |
| Crossing.FullScan | src/de/metal_land/tsp/TSP.java:215-252 | a crossing found by a whole pass lies inside the route |
| Crossing.GuardedFullScan | src/de/metal_land/tsp/TSP.java:215-252 | the same for the guarded pass |
| Crossing.RepeatPermutes | src/de/metal_land/tsp/TSP.java:254-260 | repeating passes and rewrites returns a permutation of the input on which the pass finds no crossing |
| Crossing.RepeatNeverThrows | src/de/metal_land/tsp/TSP.java:254-260 | over a pass that never throws, the repetition never throws |
| Crossing.RepeatAgrees | src/de/metal_land/tsp/TSP.java:254-260 | two passes that agree where the first does not throw yield the same repetition |
| Crossing.OptimizePermutes | src/de/metal_land/tsp/TSP.java:214-261 | an optimized route is a permutation of the input with no crossing found by a further pass; from a route without repeats it has no repeats and no crossing at any tested position; a route whose pass finds no crossing is returned unchanged |
| Crossing.GuardedOptimizeSound | src/de/metal_land/tsp/TSP.java:214-261 | the guarded optimize never throws and returns a permutation on which a further pass finds no crossing; from a route without repeats it has no repeats and no crossing at any tested position |
| Crossing.GuardedOptimizeAgrees | src/de/metal_land/tsp/TSP.java:214-261 | whenever optimize as written does not throw, the guarded one returns the same |
| Crossing.Repeat | src/de/metal_land/tsp/TSP.java:254-260 | passes and rewrites repeated until a pass finds no crossing; stated by Crossing.RepeatPermutes, Crossing.RepeatNeverThrows and Crossing.RepeatAgrees |
| Crossing.OptimizeSpec | src/de/metal_land/tsp/TSP.java:214-261 | `optimize` as a recursion over passes; stated by Crossing.OptimizePermutes and Crossing.GuardedOptimizeAgrees, and Crossing.Optimize is proved to compute it |
| Crossing.OptimizeOf | src/de/metal_land/tsp/TSP.java:214-261 | optimize as written or guarded: guarded it never throws, and an optimized route is a permutation of the input |
| Crossing.Optimize | src/de/metal_land/tsp/TSP.java:214-261 | the loop over passes returns what the recursive specification returns, as written or guarded |
| Tsp.ClampTabuSize | src/de/metal_land/tsp/TSP.java:267-269 | the size is at least 20 and at least the request, and is either the request or 20 |
| Tsp.ClampTabuSizeStable | src/de/metal_land/tsp/TSP.java:267-269 | clamping twice equals clamping once, and requests of at least 20 are kept |
| Tsp.AllFitFrom | src/de/metal_land/tsp/TSP.java:99-106 | when all distances of the list fit, those from any one city fit |
| Tsp.RankingIn | src/de/metal_land/tsp/TSP.java:100-110 | the ranking one outer round puts; Ranking.RankingOrder states its content and order, and Tsp.Tsp.RankCity is proved to compute it |
| Tsp.RankingsOf | src/de/metal_land/tsp/TSP.java:98-113 | all rankings `calculateDistances` puts; stated by Tsp.RankingsOfLookup, Tsp.RankingsOfCover and Tsp.RankingsOfSorted |
| Tsp.PutAllHolds | src/de/metal_land/tsp/TSP.java:99-111 | after the puts, each key holds the value put for it |
| Tsp.RankingsUpToStep | src/de/metal_land/tsp/TSP.java:110 | one more round puts the next city's ranking |
| Tsp.RankingsOfLookup | src/de/metal_land/tsp/TSP.java:98-113 | after calculateDistances every city of the list has an entry, and it is that city's ranking |
| Tsp.RankingsOfCover | src/de/metal_land/tsp/TSP.java:98-113 | after calculateDistances on cities with unique names, every city is ranked and its ranking holds exactly the other cities |
| Tsp.RankingsOfSorted | src/de/metal_land/tsp/TSP.java:98-113 | after calculateDistances on cities with unique names, each city's ranking holds exactly the other cities, in ascending order of distance |
| Tsp.GreedyNearest | src/de/metal_land/tsp/TSP.java:118-143 | after calculateDistances on cities with unique names, each greedy route visits every city once and each step goes to a city no farther from the current one than any city not yet visited |
| Tsp.Advance | src/de/metal_land/tsp/TSP.java:170-186 | one round pushes the move's tabu entry in front of the tabu list; if optimize throws or runs out, that push is the only change; otherwise the optimized neighbour (a permutation of it) becomes current, the pushed list loses its last entry when it is longer than the maximum, a strictly shorter route becomes best and resets the bad-route count, any other increments it, and the search stops with Converged iff the count reaches maxBadRoutes; so best never gets longer and the tabu list grows past its maximum only by the entry of a failing round |
| Tsp.TabuRun | src/de/metal_land/tsp/TSP.java:168-188 | the recursion of `tabuSearch` over the supplied moves; stated by Tsp.TabuRunStep, Tsp.TabuBestNeverWorse, Tsp.TabuBestAtMostCurrent, Tsp.TabuListBounded, Tsp.TabuStopsAtMaxBadRoutes, Tsp.TabuCurrentFromNeighbor and Tsp.TabuNeverThrows |
| Tsp.TabuRunStep | src/de/metal_land/tsp/TSP.java:184-186 | the run over the remaining moves is one round followed, unless that round ends the search, by the run over the moves after it |
| Tsp.TabuBestNeverWorse | src/de/metal_land/tsp/TSP.java:177-179 | the best route never gets longer and is replaced only by a strictly shorter one |
| Tsp.TabuBestAtMostCurrent | src/de/metal_land/tsp/TSP.java:177-183 | the best route is never longer than the current one once that holds |
| Tsp.TabuListBounded | src/de/metal_land/tsp/TSP.java:171-175 | from a list within its maximum size, a whole run ends with the tabu list within that size, or at most one entry above it when the run ended because optimize threw or ran out of passes; the push and trim of each round are those Tsp.Advance states |
| Tsp.TabuStopsAtMaxBadRoutes | src/de/metal_land/tsp/TSP.java:177-187 | the search stops by itself exactly when the count without improvement reaches maxBadRoutes |
| Tsp.TabuCurrentFromNeighbor | src/de/metal_land/tsp/TSP.java:171 | every current route is a permutation of a neighbour the search was given |
| Tsp.TabuNeverThrows | src/de/metal_land/tsp/TSP.java:171 | with the guarded `optimize` selected, no step of the search ends in an exception |
| Tsp.Tsp.constructor | src/de/metal_land/tsp/TSP.java:22-33 | the field initialisers: empty lists and maps, tabu size 100, 2000 bad routes allowed |
| Tsp.Tsp.SetTabuListMaxSize | src/de/metal_land/tsp/TSP.java:267-269 | the field becomes the clamped size |
| Tsp.Tsp.ReadFromFile | src/de/metal_land/tsp/TSP.java:68-93 | name and cities are those of the line specification; after a complete read the tabu size is 15 % of the city count, clamped; an exception leaves it unchanged |
| Tsp.Tsp.CalculateDistances | src/de/metal_land/tsp/TSP.java:98-113 | each city's entry is replaced by its ranking and other entries stay |
| Tsp.Tsp.RankCity | src/de/metal_land/tsp/TSP.java:100-110 | one outer round yields the city's ranking |
| Tsp.Tsp.CityDistances | src/de/metal_land/tsp/TSP.java:100-106 | the inner loop builds the name-ordered map of the other cities |
| Tsp.Tsp.SortByDistance | src/de/metal_land/tsp/TSP.java:108-109 | `putAll` into the value-ordered map |
| Tsp.Tsp.Greedy | src/de/metal_land/tsp/TSP.java:118-151 | the best route is the first shortest of the per-start candidates, or the earlier best if none is strictly shorter |
| Tsp.Tsp.GreedyRouteFrom | src/de/metal_land/tsp/TSP.java:120-143 | the loop builds exactly the route GreedyFrom specifies from the start city, so GreedyFromTour and GreedyNearest apply to it |
| Tsp.Tsp.NextCity | src/de/metal_land/tsp/TSP.java:131-138 | the scan returns the first ranked city off the route, or null |
| Tsp.Tsp.SearchStep | src/de/metal_land/tsp/TSP.java:170-186 | one round leaves the fields and the outcome that Advance specifies, so Advance's properties hold of them |
| Tsp.Tsp.RunMoves | src/de/metal_land/tsp/TSP.java:170-186 | the loop over the moves ends in the state and with the outcome of the recursive specification |
| Tsp.Tsp.TabuSearch | src/de/metal_land/tsp/TSP.java:168-188 | without any route it ends at once, otherwise it starts from the current or best route and ends in the specification's state and outcome |

## Left out

- src/de/metal_land/tsp/Gui.java (drawing, the listener interface) and the listener calls
  `routeChanged`/`setBestRoute`'s event: no effect on the computed state.
- `TSP.main`, logging, the thread start and the resource lookup of `att532.tsp`: I/O.
- src/Main.java: a second copy of the reader and of `calculateDistances`. Its distance maps
  include each city itself at distance 0, and `Routes.GreedyWithSelfMapsReverses` states
  what `Route.greedy` does with such maps.
- The `Scanner` over an `InputStream` is replaced by the sequence of lines it yields.
- `Route(List)`, `Route.getDistance`, `Route.compareTo` and `Route.getBestNeighbor` are
  called by TSP.java but are not part of this model: Route.java shows none of them. The
  route order is the `length` parameter, and the neighbours with their tabu entries are
  the supplied `Move`s. The model assumes `getBestNeighbor` puts exactly one entry, the
  move's, in front of the tabu list in each round and changes nothing else in it.
- `HashMap.keySet` iteration order in `Route.greedy` is the order of the entry sequence the
  caller supplies.
- Floating point: `Math.sqrt`/`Math.round` are written as exact integer square roots.
- Java `String.compareTo` compares UTF-16 code units; Dafny characters stand for them.
- Stack depth of the recursive `optimize` and `tabuSearch` is not modelled.
- Nodes.DistanceTo: requires dx*dx+dy*dy below 2^31, because a Java int would wrap.
- Routes.Route.CalculateDistance: requires the distances from the first city to fit, and
  sums in unbounded integers; a wrapping int sum is not modelled.
- Tsp.RankingIn: the empty ranking stands for a city whose distances would overflow; nothing
  is claimed about it.
- Tsp.Tsp.CalculateDistances: requires every pairwise distance to fit in an int.
- Tsp.Tsp.ReadFromFile: the double product `(int)(n * 0.15)` is written as the integer quotient
  `n * 15 / 100`. The binary error of 0.15 is too small to move the product of an int n across an integer.
- TspReader.ParseInt: accepts ASCII digits only, where `Integer.parseInt` also accepts other
  Unicode digits.
- TspReader.Split: covers separators without regular-expression metacharacters, which
  covers the two separators the reader uses.
- Routes.Route.Greedy: the endless loop, when the scan keeps no city or one already removed,
  is reported as `Stuck` at its first repetition.
- Tsp.Tsp.Greedy: requires distinct cities whose rankings cover all other cities, the state
  `calculateDistances` leaves for cities with unique names whose distances fit an int
  (`Tsp.RankingsOfCover`). The model claims nothing about `greedy` on other lists, such as
  one with repeated cities or with two cities of the same name.
- Tsp.Tsp.GreedyRouteFrom: the same precondition as `Tsp.Tsp.Greedy`.
- Tsp.Tsp.TabuSearch: cleans each neighbour with `optimize` as written or, when `guarded` is
  set, with the guarded one (see Findings), which returns the same wherever the one as
  written does not throw. It requires that a current route implies a best route, and that
  every neighbour has fewer than 2^31 cities, as the size of a Java list does. The search
  ends when the supplied moves run out. `optimize` gets a pass budget (`fuel`), and ends as
  `OptimizeOutOfFuel` when the budget is used up.
- Crossing.Optimize: bounded by `fuel` rewrites; the source recurses without bound. It
  requires a route of fewer than 2^31 cities, as does `Crossing.Reassemble`, so that the
  `sublist` bounds are Java ints.
- Crossing.Scan: its own contract states only that a reported crossing is real. What its
  answer means for a route without repeated cities (no tested position crosses, or the
  first tested crossing) is stated by `Crossing.FullScanWindow`; for a route with repeated
  cities, where `indexOf` sends a position back to an earlier one, nothing more is claimed.
- Crossing.GuardedScan: the same; its meaning is stated by `Crossing.GuardedScanWindow` and
  `Crossing.GuardedFullScanWindow`.
- Geometry.RelativeCcw: computes over exact integers, where `Line2D` computes in doubles.
  The two agree while every coordinate difference stays below 2^26 in magnitude, since each
  product then stays below 2^53; the routes given to `optimize` are not required to meet
  that bound, and beyond it the model gives the exact answer, not the rounded one.
- Geometry.LinesIntersect: the same.

## Findings

| source | as written | input that shows it | evidently intended | confidence | as-written member | corrected member |
|---|---|---|---|---|---|---|
| src/de/metal_land/tsp/Route.java:47-61 | `lastNode` is set once and never advanced, so the sum is the distance from the first city to every other city | cities ("1",0,0), ("2",0,10), ("3",0,30): result 14, and 17 for the reversed route, while the tour is 11 long | the sum of the distances between consecutive cities, which is the same for a reversed route | not executed | Routes.CalculateDistanceCounterexample | Routes.PathLengthReversal |
| src/de/metal_land/tsp/TSP.java:224-232 | the "don't move over the end" guard only shrinks the look-ahead, by one per position from position n-30 on, so the break at 4 comes at position 25 + max(0, n-30) and positions 0 to 24 of a short route are all tested; near the end they read `get(index+1)` past the list | the crossing-free unit square (0,0),(1,0),(1,1),(0,1): at position 1 the pass reads index 4 of a 4-city list; the same happens on every crossing-free route of 3 to 27 distinct cities | skip positions that have no edge pair left to test | not executed | Crossing.SquareCounterexample | Crossing.GuardedOptimizeSound |
