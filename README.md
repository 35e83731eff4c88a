# graph-reconstruction, modelled in Dafny

The program hunts for counterexamples to a reconstruction-type conjecture for
bidegreed graphs, i.e. graphs whose vertices take one of two degrees. For a
vertex count and a degree sequence it works in five steps:

1. It enumerates every graph with that degree sequence (`generator.py`).
2. It keeps the connected ones (`traverse`).
3. It drops every graph whose *representative* an earlier graph already has
   (`filt`). The representative is an isomorphism invariant built by
   partition refinement (`isomorphisms.py`).
4. For every pair of survivors, it compares the *decks*: the multisets of
   representatives of the one-vertex-deleted *cards* (`deckComp`).
5. A pair whose decks match is reported as a counterexample.

The Dafny project models these parts of the program:

- **Graph storage** (`graph.dfy`, module `Graphs`). `Graph.py`'s adjacency-list
  classes become Dafny classes whose methods update `vertices` in place. Each
  method is specified by a function on the adjacency lists (`WithEdge`,
  `CopyRows`, `CardRows`). Lemmas give those functions their meaning:
  - the graph stays simple and symmetric;
  - a copy has the same neighbours;
  - a card is the graph with one vertex deleted and the rest renumbered.
- **Bit arithmetic** (`bits.dfy`, module `Bits`). Python's `&`, `>>` and `<<`
  on unbounded non-negative integers. The SWAR population count `bitCount` is
  proved equal to a bit-by-bit count on 32-bit inputs. The unit tests of
  `bitCount` are proved as lemmas.
- **Degree-sequence enumeration** (`generator.dfy`, module `Generator`).
  - `genSpecs` buckets the integers below 2^v by their number of one-bits.
  - `genValid` searches recursively for upper triangles of adjacency matrices,
    with each row written as an integer. It is specified by a recursive
    function, `Realise`, which is proved sound and complete: every description
    it returns realises the degree sequence, and every description that does is
    returned.
  - `individual` decodes a description into a graph with exactly those edges
    and degrees.
  - `genBiClass` composes the two.
  - `generator_examples.dfy` holds the unit tests of `genSpecs`, and those of
    `genValid` for two and three vertices, as lemmas.
- **Canonicalisation** (`isomorphisms.dfy` with `partition.dfy` and
  `order.dfy`).
  - `partAdjacencies` computes each vertex's *signature*: its neighbour count in
    each cell of a partition.
  - `initPartition` groups vertices by descending degree.
  - `quotient` splits cells by signature until a pass splits nothing, then
    orders the cells by signature. The result is proved to be an equitable
    partition refining the input.
  - `terminal` individualises each vertex of a cell in turn, splits the cell by
    the outcomes, and restarts. At the end no cell can be split.
  - `representative` builds a pair of signature lists in partition order. The
    source's dictionaries are keyed by vertex; the model drops those keys (see
    the list of departures below).
  - `isomorphic` compares two representatives.
- **Driver** (`prog.dfy`, module `Driver`).
  - `traverse` is proved to decide connectivity.
  - `filt` is proved to keep, in order, exactly one connected graph per
    representative: the first one.
  - `deckComp`'s greedy deck matching is proved to decide equality of card
    multisets for decks of equal size. Its pair scan reports the first
    matching pair in loop order, or passes the class unchanged.

## Model

| member | source | states |
|---|---|---|
| Graphs.Empty | Graph.py:7 | a new graph has `size` vertices, each with an empty adjacency list |
| Graphs.Graph.constructor | Graph.py:2-7 | the graph records `size` and starts with `size` empty lists |
| Graphs.Graph.AddEdge | Graph.py:9-12 | the graph stays valid (at most `size` lists, every listed vertex below `size`), the new lists are `WithEdge` of the old ones, and `size` is unchanged |
| Graphs.AddEdgeAdjacency | Graph.py:9-12 | adding an edge to a simple graph keeps it simple, and afterwards w is a neighbour of u exactly when it was before or {u, w} is the new edge |
| Graphs.AddEdgeFrame | Graph.py:10-12 | lists other than the two endpoints' are untouched, and an edge already present changes nothing |
| Graphs.WithEdgeSymmetric | Graph.py:9-12 | adding an edge keeps the adjacency relation symmetric, adds both directions and nothing else |
| Graphs.Graph.Copy | Graph.py:14-22 | the copy is a fresh graph of the same size whose lists are the replay of `addEdge` over every listed edge |
| Graphs.CopyAdjacency | Graph.py:14-22 | the copy of a simple graph has exactly the same neighbours per vertex, empty lists beyond the listed vertices, and is simple again |
| Graphs.CopyInRange | Graph.py:14-22 | copying never introduces a vertex number outside 0 .. size-1 |
| Graphs.AddRowAdjacency | Graph.py:20-21 | replaying one vertex's list adds exactly the edges from that vertex to the listed ones, keeping symmetry |
| Graphs.CopyRowsAdjacency | Graph.py:19-21 | replaying the first n lists yields a symmetric relation holding exactly the edges incident to those vertices |
| Graphs.RemoveFirstMembers | Graph.py:30-31 | `list.remove` of the deleted vertex leaves a duplicate-free list holding every other member |
| Graphs.RelabelMembers | Graph.py:32-34 | decrementing the neighbours above the deleted vertex maps the list one-to-one onto the renumbered vertices |
| Graphs.CardRowMembers | Graph.py:29-34 | one card list holds x exactly when the original list holds x's old number |
| Graphs.UpDown | Graph.py:32-35 | the renumbering of a card is a bijection between the remaining vertices and 0 .. n-2 |
| Graphs.Graph.Card | Graph.py:24-36 | the card is a fresh graph whose lists are those of the copy with vertex d removed and the others renumbered; `size` is not decremented |
| Graphs.CardAdjacency | Graph.py:24-36 | a card of a simple graph is simple, and card vertices u and w are adjacent exactly when their original numbers are |
| Graphs.CardOfCopy | Graph.py:24-36 | the same holds for the card of the copy, which is what `card` actually cuts |
| Graphs.Graph.Deck | Graph.py:38-45 | the deck has one fresh card per vertex, card v deleting vertex v |
| Graphs.Digraph.constructor | Graph.py:2-7 | a digraph, which inherits `Graph`'s constructor, starts with `size` empty lists |
| Graphs.Digraph.AddEdge | Graph.py:52-54 | only the source's list changes, by appending the target, duplicates included |
| Bits.BitCountIsPopCount | generator.py:4-14 | for every n below 2^32, `bitCount(n)` is the number of one-bits of n |
| Bits.BitCountStages | generator.py:9-13 | the five mask lines are the five SWAR stages of widths 1, 2, 4, 8, 16 |
| Bits.StageFields | generator.py:9-13 | one stage turns per-field counts of width w into per-field counts of width 2w |
| Bits.BitCountSmall | generator.py:140-142 | bitCount(0) == 0 and bitCount(1) == 1 |
| Bits.BitCountExamples | generator.py:143-144 | bitCount(1564687) == 11 and bitCount(4578) == 6 |
| Bits.PopCountBelow | generator.py:21-23 | a number below 2^v has at most v one-bits, so its bucket index exists |
| Bits.BitCountDropsHighBits | generator.py:9-13 | bitCount returns 0 on every multiple of 2^32, although such a number can have one-bits |
| Bits.ChunkedBitCount | generator.py:4-14 | the count taken 32 bits at a time equals the number of one-bits for every n |
| Generator.BucketMembers | generator.py:21-23 | the bucket filled from the integers below n holds exactly those with k one-bits, in ascending order |
| Generator.BucketsSpec | generator.py:16-24 | genSpecs(v) has v+1 buckets; bucket k holds exactly the integers below 2^v with k one-bits, ascending |
| Generator.GenSpecs | generator.py:16-24 | the loop builds exactly those buckets |
| GeneratorExamples.GenSpecsSmall | generator.py:147-148 | genSpecs(1) == [[0], [1]] and genSpecs(2) == [[0], [1, 2], [3]] |
| GeneratorExamples.GenSpecsFour | generator.py:149 | genSpecs(4) is the five buckets listed in the test |
| GeneratorExamples.GenValidTwo | generator.py:152-153 | genValid(2, [1, 1], ...) == [[1]] and genValid(2, [1, 0], ...) == [[]] |
| GeneratorExamples.GenSpecsThree | generator.py:16-24 | genSpecs(3) == [[0], [1, 2, 4], [3, 5, 6], [7]], the buckets the three-vertex tests pass |
| GeneratorExamples.ScanThree | generator.py:49-55 | on three vertices with vertex 0 of degree 1, the scan tries the first rows 1 and 2 and stops before 4 |
| GeneratorExamples.BranchThree | generator.py:57-76 | a first row on three vertices yields one description exactly when the remaining two degrees are (1, 1) or (0, 0), and none otherwise |
| GeneratorExamples.GenValidThreeNone | generator.py:154 | genValid(3, [1, 1, 1], genSpecs(3)) == [[]] |
| GeneratorExamples.GenValidThreeLast | generator.py:155 | genValid(3, [1, 1, 2], genSpecs(3)) == [[1, 1]] |
| GeneratorExamples.GenValidThreeMiddle | generator.py:156 | genValid(3, [1, 2, 1], genSpecs(3)) == [[2, 1]] |
| Generator.TargetsSpec | generator.py:87-89 | row x of a description joins x to exactly the y with x < y <= len(d) whose bit v-y-1 is set |
| Generator.JoinRow | generator.py:88-90 | the inner loop adds the edges of one row to the graph |
| Generator.Individual | generator.py:82-91 | `individual` returns a fresh graph of v vertices whose lists are the decoded description |
| Generator.IndividualValid | generator.py:82-91 | every decoded neighbour is a vertex of the graph |
| Generator.IndividualAdjacency | generator.py:82-91 | the decoded graph is simple, and b is a neighbour of a exactly when the description's bit for the pair {a, b} is set |
| Generator.IndividualDegree | generator.py:82-91 | each decoded vertex's degree is the number of set bits for its pairs |
| Generator.DegreeSplit | generator.py:57 | vertex 0's degree is the bit count of the first row, and vertex a's degree is its bit in the first row plus its degree in the rest |
| Generator.ModDegrees | generator.py:57 | each remaining degree drops by 0 or 1 |
| Generator.ModDegreesOk | generator.py:57-63 | when no remaining degree is -1, the recursive call's arguments are again well formed |
| Generator.Cut | generator.py:52-55 | the loop visits exactly the prefix of the pool that lies below 2^(v-1) |
| Generator.SentinelOnlyEmpty | generator.py:33 | `[[]]` arises exactly when no description exists, so `lower == [[]]` tests for "none" |
| Generator.ScanStep | generator.py:52-76 | scanning one more pool entry appends exactly that entry's descriptions |
| Generator.BranchMembers | generator.py:57-76 | a pool entry contributes exactly the vectors it heads whose tail is a description for the modified degrees |
| Generator.RealiseSound | generator.py:26-80 | every description genValid returns encodes a graph with exactly the given degrees |
| Generator.RealiseComplete | generator.py:26-80 | every encoding with exactly the given degrees is returned |
| Generator.BaseComplete | generator.py:35-43 | the two-vertex base case returns [1] or [0] exactly for degrees (1, 1) and (0, 0) |
| Generator.PrependSound | generator.py:74-76 | prefixing a valid number to a description for the modified degrees gives a description for the original ones |
| Generator.PrependComplete | generator.py:57-76 | conversely, any description splits into a valid first row and a description for the modified degrees |
| Generator.GenValidCorrect | generator.py:26-80 | genValid returns `[[]]` exactly when no graph has the degree sequence, and otherwise only descriptions whose graphs have those degrees |
| Generator.GenValid | generator.py:26-80 | the method computes the sentinel-marked `Realise` |
| Generator.ScanPool | generator.py:45-80 | the loop over the pool computes the scan of the cut pool |
| Generator.Visit | generator.py:56-76 | one pool entry appends its descriptions and drops the sentinel once one exists |
| Generator.AppendAll | generator.py:74-76 | every lower description is prefixed by num and appended |
| Generator.BiDegrees | generator.py:102 | the degree list has numDeg1 entries deg1 followed by deg2 up to v entries |
| Generator.GenBiClass | generator.py:96-106 | one fresh graph per description, each the decoded description; the empty graph alone when none exists |
| Generator.Individuals | generator.py:104-105 | the loop decodes every description in order |
| Orders.LexStrictTotal | isomorphisms.py:68 | Python's list comparison is a strict total order when its element order is |
| Orders.SortedSetSpec | isomorphisms.py:36 | `sorted(set(keys))` is strictly ascending and holds exactly the keys |
| Orders.GroupsSpec | isomorphisms.py:69-72 | grouping by sorted distinct key loses and adds no member and makes no empty group |
| Orders.SortedSetOne | isomorphisms.py:139-142 | there is one distinct key exactly when all keys are equal |
| Orders.FlattenGroupsOrdered | isomorphisms.py:69-73 | after regrouping, members appear in ascending key order |
| Orders.CollectKey | isomorphisms.py:70-72 | the scan collects exactly the members with one key, in order |
| Orders.GroupByKey | isomorphisms.py:68-72 | the loop builds exactly the key-sorted groups |
| Partitions.ReplaceCell | isomorphisms.py:144-151 | replacing a cell by nonempty cells holding its members keeps a partition |
| Partitions.PartitionSize | isomorphisms.py:90-95 | a partition of n vertices has at most n cells, which bounds refinement |
| Partitions.SigSum | isomorphisms.py:11-24 | under a partition, a vertex's signature sums to its degree |
| Partitions.SigListDegrees | isomorphisms.py:3-25 | the signature sums over all vertices are the degree multiset |
| Isomorphisms.VertexSignature | isomorphisms.py:14-24 | the counting loops compute the vertex's neighbour count in each cell |
| Isomorphisms.PartAdjacencies | isomorphisms.py:3-25 | the map has a key for exactly the vertices in the partition, each mapped to its signature |
| Isomorphisms.SignatureList | isomorphisms.py:3-25 | the signatures of all vertices in partition order |
| Isomorphisms.DegreeSequence | isomorphisms.py:33-35 | the degree of every vertex |
| Isomorphisms.Cells | isomorphisms.py:39-43 | cell t holds exactly the vertices of the t-th largest degree, ascending |
| Isomorphisms.InitPartition | isomorphisms.py:27-44 | the method computes the degree partition |
| Isomorphisms.InitPartitionSpec | isomorphisms.py:27-44 | it is a partition with one cell per distinct degree, in strictly descending degree order, with ascending vertices in each cell |
| Isomorphisms.SigOrder | isomorphisms.py:68 | comparing signatures as Python lists is a strict total order |
| Isomorphisms.SubcellsSpec | isomorphisms.py:62-89 | a cell's subcells are nonempty and hold exactly its members |
| Isomorphisms.SplitSpec | isomorphisms.py:59-95 | one pass yields a refining partition with no fewer cells, and one with equally many cells only when the partition is already equitable |
| Isomorphisms.Refine | isomorphisms.py:59-95 | iterating passes ends in an equitable partition refining the input |
| Isomorphisms.SortCellsSpec | isomorphisms.py:96-108 | ordering cells by their first vertex's signature rearranges whole cells and keeps a partition and equitability |
| Isomorphisms.QuotientPartition | isomorphisms.py:46-108 | quotient returns a partition of the vertices |
| Isomorphisms.QuotientSpec | isomorphisms.py:46-108 | quotient returns an equitable partition refining the input, with cells in ascending signature order |
| Isomorphisms.Lookup | isomorphisms.py:66-67 | each cell member's signature is read from the map |
| Isomorphisms.SortByStandard | isomorphisms.py:98-107 | the final loop builds exactly the signature-sorted cells |
| Isomorphisms.Pass | isomorphisms.py:60-89 | one pass reorders each cell by signature and returns the split partition and the signature map |
| Isomorphisms.Quotient | isomorphisms.py:46-108 | the method computes the quotient partition |
| Isomorphisms.OutcomeOrder | isomorphisms.py:143 | comparing trial outcomes as Python lists is a strict total order |
| Isomorphisms.IndividualiseSpec | isomorphisms.py:133-135 | a trial partition is again a partition, one cell longer, with the trial vertex alone at position i |
| Isomorphisms.TrialsOne | isomorphisms.py:139-142 | the trials leave a cell whole exactly when every outcome agrees |
| Isomorphisms.TrialsSpec | isomorphisms.py:143-151 | replacing the cell by its outcome groups keeps a partition of at most n cells |
| Isomorphisms.TrialsRefine | isomorphisms.py:143-151 | the replaced partition refines the old one |
| Isomorphisms.TerminalScanStable | isomorphisms.py:117-155 | when the scan ends, no cell can be split by individualisation |
| Isomorphisms.TerminalScanRefines | isomorphisms.py:119-153 | the scan's result refines its input and has no fewer cells |
| Isomorphisms.TerminalSpec | isomorphisms.py:110-169 | terminal returns a partition refining its input, no cell of the finished scan can be split, the result holds the scan's cells rearranged, and those cells come in non-decreasing order of their first vertex's signature |
| Isomorphisms.Trial | isomorphisms.py:133-137 | one trial's outcome is the signature list of the quotient of the individualised partition |
| Isomorphisms.TrialOutcomes | isomorphisms.py:132-138 | the outcome of every trial on the cell, in cell order |
| Isomorphisms.ScanCell | isomorphisms.py:122-153 | visiting one cell either moves on, or splits it and restarts from cell 0 with more cells, without changing the scan's result |
| Isomorphisms.Terminal | isomorphisms.py:110-169 | the method computes the terminal partition |
| Isomorphisms.CellTrial | isomorphisms.py:180-182 | each cell's trial is again a partition of the vertices |
| Isomorphisms.MakeEntry | isomorphisms.py:179-183 | a cell's entry is the signature list of the quotient of that cell's trial |
| Isomorphisms.MakeRepresentative | isomorphisms.py:171-184 | the pair of the partition's signature list and every cell's entry |
| Isomorphisms.TerminalPartition | isomorphisms.py:187 | initPartition, quotient and terminal composed yield a partition of the vertices |
| Isomorphisms.CanonicalOf | isomorphisms.py:187 | the composed computation of one graph's representative |
| Isomorphisms.Isomorphic | isomorphisms.py:186-187 | the verdict is true exactly when the two representatives are equal |
| Isomorphisms.CanonicalDegrees | isomorphisms.py:186-187 | graphs with equal representatives have equal vertex counts and degree multisets |
| Driver.Frontier | prog.py:13-18 | `available` holds exactly the neighbours of grabbed vertices that are not grabbed, each with a witness |
| Driver.GrabbingInit | prog.py:9-10 | grabbed = [0] and unused = [1 .. n-1] satisfy the traversal invariant |
| Driver.GrabbingStep | prog.py:21-22 | grabbing an available vertex keeps the invariant and shrinks `unused` |
| Driver.GrabbingStuck | prog.py:19-20 | an empty frontier with unused vertices left proves the graph disconnected |
| Driver.GrabbingDone | prog.py:12 | an empty `unused` proves the graph connected |
| Driver.NoneAvailable | prog.py:18-19 | the de-duplicated list is empty exactly when the list is |
| Driver.Traverse | prog.py:4-23 | traverse returns True exactly when every vertex is reachable from vertex 0 |
| Driver.FirstOccurrence | prog.py:35-40 | every representative occurs first at a position that no earlier position repeats |
| Driver.ConnectedPositionsSpec | prog.py:28-32 | the kept positions are increasing, connected, and include every connected graph |
| Driver.ConnectedOnes | prog.py:28-32 | the first loop keeps exactly the connected graphs in order, with their representatives |
| Driver.Duplicates | prog.py:33-43 | `rem` lists exactly the positions whose representative an earlier position has |
| Driver.Survivors | prog.py:44-48 | the last loop keeps, in order, exactly the positions not in `rem` |
| Driver.KeptDistinct | prog.py:35-48 | no two survivors share a representative |
| Driver.SurvivorsComplete | prog.py:35-48 | every connected graph's representative belongs to a survivor at or before it |
| Driver.SurvivorsFiltered | prog.py:25-50 | the survivors are connected, in order, pairwise distinct, and cover every connected graph |
| Driver.Filt | prog.py:25-50 | filt returns, in order, one connected graph per representative: the first |
| Driver.FiltCanonical | prog.py:25-50 | the same, with the representative of the canonicalisation module |
| Driver.PopMultiset | prog.py:63-64 | popping entry i removes exactly one copy of it |
| Driver.Search | prog.py:62-67 | a card present in b is popped once; a missing card leaves b whole and sets the miss flag when b is nonempty |
| Driver.MissRefutes | prog.py:66-68 | a card of `a` that the remaining cards of `b` lack refutes the match |
| Driver.DeckMatch | prog.py:58-69 | the greedy matching succeeds exactly when the decks match |
| Driver.MatchesSameLength | prog.py:61-69 | for decks of equal size, matching is multiset equality |
| Driver.DeckReps | prog.py:55 | one representative per card, in deck order |
| Driver.AllDecks | prog.py:53-55 | every graph's deck of representatives |
| Driver.FirstMatch | prog.py:56-70 | the pair scan finds the first pair (i < j, in loop order) whose decks match, or reports that no pair matches |
| Driver.DeckComp | prog.py:52-72 | deckComp passes the class unchanged when no two decks match, and otherwise reports the first matching pair |
| Driver.DeckCompCanonical | prog.py:52-72 | the same, with the representative of the canonicalisation module |

## Left out

- Printing is not modelled: `Graph.print`, the `print` calls of `filt`, and
  both `main` functions with their command-line and file output. The mains'
  loops over degree pairs only chain `genBiClass`, `filt` and `deckComp`, and
  are left out with them.
- The unit tests of `individual` and `genBiClass`, and the one of `genValid`
  for four vertices, are not stated as lemmas. The search is instead proved
  sound and complete for every input.
- `WeightedDigraph` (Graph.py:56-58) is not modelled: nothing in the program
  creates one.
- Graphs.Graph.AddEdge: negative vertex numbers, which Python reads from the
  end of the list, are excluded by the requires clause. The same holds for
  `Digraph`, `card` and `individual`.
- Graphs.Graph.AddEdge: a second endpoint b outside the graph is excluded as
  well. There the source appends b to a's list and then raises `IndexError`,
  leaving half an edge behind. Every caller in the program passes vertices of
  the graph.
- Generator.GenValid: requires every degree to index `possibilities`
  (`DegreesOk`). The source indexes only `degrees[0]`, so a negative first
  degree reads a bucket from the end of the list, and an out-of-range later
  degree raises nothing. The same requires holds for `ScanPool`, `Visit`,
  `Realise` and `GenBiClass`. Every caller in the program passes degrees
  between 0 and v-1 with genSpecs(v) as `possibilities`.
- Driver.Traverse: requires every neighbour to be a vertex of the graph. On
  other inputs the source raises `IndexError`.
- Driver.Traverse: takes any element of the de-duplicated frontier, where the
  source takes the first element of `list(set(...))`. Python's set order is
  an implementation detail, and the result does not depend on it.
- Python's dictionaries keyed by graph objects (`classReprs`, `classDecks`)
  are modelled as sequences by position. Two list entries holding the same
  object are therefore treated as two graphs.
- `deepcopy` in `deckComp` is implicit: representatives are values.
- Driver.DeckComp: `raise ValueError(...)` becomes the `Counterexample`
  verdict, naming the pair. The message text and its call to `terminal` are
  left out.
- The driver is generic over the representative function. `FiltCanonical`
  and `DeckCompCanonical` instantiate it with `Isomorphisms.Canonical`, the
  functional definition that `CanonicalOf` computes. The driver does not
  call the method.
- Isomorphisms.Canonical: invariance under relabelling of the vertices is not
  proved. `CanonicalDegrees` states only that equal representatives imply
  equal vertex counts and degree multisets. Whether the representative
  separates non-isomorphic graphs is an open conjecture of the program
  itself.
- Bits.BitCountIsPopCount: proved only below 2^32. Above that, `bitCount` is
  wrong (see Findings), so `GenSpecs` uses `ChunkedBitCount`.

`isomorphisms.py` cannot run as written. The model follows what its comments
and structure evidently mean. The lines it departs from are:

- isomorphisms.py:14: `[0 for i in len(part)]` iterates over an integer and
  raises `TypeError`. A signature starts as `len(part)` zeros.
- isomorphisms.py:39: `[list()*len(degSeq)]` is a single empty cell, so line 43
  fails for every degree but the largest. The model has one cell per distinct
  degree.
- isomorphisms.py:54: the initial `cellList` uses adjacency lists as dictionary
  keys, which are unhashable. The value is overwritten at line 61 anyway and is
  not modelled.
- isomorphisms.py:68, 139, 143: `set(...)` of lists is unhashable. The model
  uses the sorted distinct signatures or outcomes under Python's list order.
- isomorphisms.py:81-89: the vertex that sets the `standard` is marked updated
  before the scan, so it never enters its own subcell and vanishes from
  `newPart`. The model's subcell holds every vertex with the standard's
  signature, the standard included, in the order of the reordered cell.
- isomorphisms.py:98-107, 159-168: `pDict` is keyed by lists (unhashable), and
  two cells with equal first signatures would overwrite each other. The model
  sorts the cells by their first vertex's signature, stably, losing none.
- isomorphisms.py:133-134: `part.copy()` is shallow, so `del partTest[i][j]`
  would empty the cell being scanned. Each trial in the model starts from an
  unchanged partition.
- isomorphisms.py:136-137: the trial outcome is the signature list of the
  trial's quotient. The quotient's vertex lists differ between trials of
  different vertices, so they cannot serve as the outcome.
- isomorphisms.py:144-148: `subcells` has a single list, and `quotDict` is
  keyed by trial index but read by vertex. The model groups the cell's
  vertices by the outcome of their own trial, in ascending outcome order.
- isomorphisms.py:153: after a split the `for` loop breaks and the `while`
  loop restarts it from cell 0. The model restarts from cell 0 as the code
  does, not from the split cell.
- isomorphisms.py:155: `terminate == True` is a comparison, so a partition
  whose last cell is a singleton never ends the loop. In the model the scan
  ends once it passes the last cell without a split.
- isomorphisms.py:180-182: the source inserts a bare vertex instead of a cell
  and deletes from the caller's partition. The model individualises the first
  vertex of each cell with more than one vertex, on an independent copy. A
  singleton cell uses the partition itself.
- isomorphisms.py:25, 184: `partAdjacencies` returns a dictionary keyed by
  vertex, and `representative` stores such dictionaries. Python compares
  dictionaries by key as well as by value, so the source's `==` depends on
  the vertex labels. The model keeps only the signatures, as a list in
  partition order, and drops the labels. This is the comparison the comment
  at isomorphisms.py:157-158 describes, and relabelling the vertices cannot
  change it through the keys.
- isomorphisms.py:187: `initPartition` is passed uncalled for `g2`. The model
  applies it to both graphs.
- prog.py:31, 55: `representative` is called with the graph alone. The model
  composes `initPartition`, `quotient`, `terminal` and `representative`, as
  `isomorphic` does.

## Findings

| source | as written | input that shows it | evidently intended | confidence | as-written member | corrected member |
|---|---|---|---|---|---|---|
| generator.py:9-13 | the five masks are 32 bits wide, so every one-bit above bit 31 is discarded | n = 2^32: `bitCount` returns 0, but n has one one-bit | the number of one-bits of any n, as the docstring says | not executed; certain from the masks | Bits.BitCountDropsHighBits | Bits.ChunkedBitCount |
