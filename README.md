# CodeSort in Dafny: inferring an alphabet and sorting coded words

CodeSort reads a list of sample words that is already sorted under an unknown
alphabet, infers an order of the symbols from it, and sorts a second list of
words by that order. This project models the core of `CodeSort.java`:

- **Precedence extraction.** `generateRelationship` scans two adjacent sample
  words to their first difference and adds at most one edge, `curr[k] -> prev[k]`.
  `insertVertices` and `buildFollowsGraph` drive it over the sample list.
  Every symbol of a word is inserted as a vertex before that word is related
  to its predecessor.
- **Follows graph.** `Graph<V>` is the class `Graph.Graph` with one field,
  `edgeMap: map<V, seq<V>>`. `AddVertex` and `AddEdge` update that field.
  `TopoSort` is the source's iterative depth-first traversal. It uses an
  explicit stack and the `discovered` and `processed` sets, and it appends
  vertices in post-order. The body of its loop over start vertices, one
  search from a single start vertex, is the method `Visit`.
- **Rank table.** The loop in `main` gives each symbol its position in the
  traversal's output (`RankTable`, specified by the function `Ranks`).
- **Comparator.** `Word.compare` compares words position by position by rank.
  When the common prefix ties, it returns 1 only if the receiver is longer,
  so it never returns 0 and identical words give -1. It is modelled as the
  method `Word.Compare`, proved equal to the reference function `Cmp`.
- **Sorter.** `selectionSort` sorts an `ArrayList<Word>` in place
  (CodeSort.java:89). The model's `SelectionSort` sorts an `array<Word>` in
  place.

The files follow the source's structure. `graph.dfy` holds the `Graph` class,
`words.dfy` holds the `Word` datatype and its comparator, and `code_sort.dfy`
holds the static methods of `CodeSort` and the part of `main` that uses them.

Main results:
- `TopoSort` terminates on every closed graph, cyclic or not, and lists
  every vertex exactly once.
- On an acyclic graph, `TopoSort` lists the target of every edge before its
  source. So, for any sample whose follows graph is acyclic, the rank table
  gives `rank(prev[k]) < rank(curr[k])` for every extracted pair
  (`RanksRespectEvidence`). This holds even when a word is followed by one of
  its own proper prefixes.
- `SelectionSort` returns a permutation of its input in which every word
  compares as going first of every later word.
- Round trip: sort a sample list by the ranks it induces, and you get the
  list back unchanged. This needs an acyclic follows graph and no word
  directly followed by one of its own proper prefixes. The proof has two
  parts: the sample is already sorted (`SampleSorted`), and under an
  injective rank a sorted arrangement is unique (`SortedUnique`).

The model keeps these behaviours of CodeSort.java:
- An empty sample list makes `words.get(0)` fail (CodeSort.java:125).
  `BuildFollowsGraph`, `FindAlphaOrdering` and `OrderWords` therefore require
  a non-empty sample.
- `addEdge` only needs `from` to be a vertex (CodeSort.java:198-199). `to` is
  not checked there. Closure (every edge endpoint is a vertex) is a property
  of the built graph, proved in `BuildUpToClosed`, and `TopoSort` requires it.
- Start vertices are taken in the order of `HashMap.keySet()`
  (CodeSort.java:221). `TopoSort` picks each start vertex arbitrarily from
  the keys not yet visited, and no property depends on that order.
- Looking up a symbol that has no rank makes `map.get` return null, and
  unboxing it fails (CodeSort.java:288). The model makes each lookup a
  precondition: `Lookups` states exactly the lookups `compare` performs.
- Identical words compare as -1 (CodeSort.java:300). `compare` never
  returns 0.

## Model

| member | source | states |
|---|---|---|
| `Graph.Graph.constructor` | CodeSort.java:180 | a new graph has no vertices |
| `Graph.WithVertex` | CodeSort.java:186-190 | adding v adds key v; existing lists are kept; a new vertex gets the empty list |
| `Graph.Graph.AddVertex` | CodeSort.java:186-190 | the new map is `WithVertex` of the old one; adding an existing vertex changes nothing (idempotent) |
| `Graph.WithEdge` | CodeSort.java:197-200 | requires `from` to be a key; keys unchanged; `to` appended to the end of `from`'s list, duplicates kept; every other list unchanged |
| `Graph.Graph.AddEdge` | CodeSort.java:197-200 | requires `from` to be a vertex; the new map is `WithEdge` of the old one |
| `Graph.DiscoverStep` | CodeSort.java:228-233 | marking the stack top discovered and pushing its whole adjacency list keeps the traversal invariant |
| `Graph.PopDone` | CodeSort.java:234-236 | popping an already processed vertex keeps the traversal invariant without output |
| `Graph.PopOpen` | CodeSort.java:234-239 | popping a discovered, unprocessed vertex and appending it keeps the invariant; on an acyclic graph all its successors were already appended |
| `Graph.OpenTopClosed` | CodeSort.java:234-239 | on an acyclic graph, an open vertex on top of the stack was discovered at that position, so all its successors are processed |
| `Graph.StartAt` | CodeSort.java:226 | pushing a new start vertex on the empty stack keeps the invariant |
| `Graph.Drained` | CodeSort.java:227 | when the stack is empty no vertex is open, so every discovered vertex is processed |
| `Graph.Finished` | CodeSort.java:221-244 | once every vertex is visited, the output lists each vertex exactly once, and on an acyclic graph it respects every edge |
| `Graph.Graph.Visit` | CodeSort.java:226-241 | one search from an undiscovered start vertex keeps the invariant, discovers the start vertex and keeps all earlier discoveries |
| `Graph.Graph.TopoSort` | CodeSort.java:214-245 | terminates on every closed graph, cyclic ones included; output has no duplicates and holds exactly the vertices; on an acyclic graph, for every edge from -> to, `to` is listed before `from` |
| `CodeSort.FirstDiff` | CodeSort.java:157-163 | the scan stops at a position k no larger than either length |
| `CodeSort.FirstDiffMeaning` | CodeSort.java:157-163 | the words agree at every position below k; if k is below both lengths, they differ at k |
| `CodeSort.EdgeOf` | CodeSort.java:164-167 | an edge's source is a symbol of curr and its target a symbol of prev |
| `CodeSort.EdgeOfMeaning` | CodeSort.java:157-167 | no edge exactly when one word is a prefix of the other (identical words included); otherwise the words share the prefix before the first difference k, the edge is (curr[k], prev[k]), and it is never a self-loop |
| `CodeSort.WithVertices` | CodeSort.java:140-145 | keys become old keys plus the word's symbols; existing lists are kept; new vertices have empty lists |
| `CodeSort.InsertVertices` | CodeSort.java:140-145 | the graph becomes `WithVertices` of the old graph and the word |
| `CodeSort.GenerateRelationship` | CodeSort.java:155-168 | requires the edge's source vertex to be present; the graph gains the single edge `EdgeOf(prev, curr)` when there is one, otherwise it is unchanged |
| `CodeSort.BuildFollowsGraph` | CodeSort.java:123-133 | requires a non-empty sample; the graph becomes `BuildFrom` of the old graph and the words |
| `CodeSort.SymbolsMeaning` | CodeSort.java:140-145 | a symbol is among the symbols of the first n words exactly when one of those words contains it |
| `CodeSort.BuildUpToStep` | CodeSort.java:128-132 | reading one more word inserts its symbols, so the source of its edge is a vertex, and then relates it to the previous word |
| `CodeSort.BuildUpToKeys` | CodeSort.java:123-145 | after n words, the vertices are exactly the old vertices plus every symbol of those words |
| `CodeSort.BuildUpToClosed` | CodeSort.java:123-168 | if every edge endpoint was a vertex before building, it still is after any number of words |
| `CodeSort.WithVerticesEdges` | CodeSort.java:140-145 | inserting vertices adds no edge and removes none |
| `CodeSort.RelatedEdges` | CodeSort.java:155-168 | relating two words adds exactly the edge they contribute and no other |
| `CodeSort.BuildUpToEdges` | CodeSort.java:123-168 | after n words, from -> to is an edge if and only if it was one before or some adjacent pair among those words contributes it |
| `CodeSort.FindAlphaOrdering` | CodeSort.java:111-116 | the order lists every sample symbol exactly once; if the follows graph is acyclic, it respects every edge |
| `CodeSort.Ranks` | CodeSort.java:67-69 | keys are exactly the listed symbols; every rank r is a position with order[r] == c, so ranks are injective and lie in 0 .. length(order) - 1 |
| `CodeSort.RanksLatest` | CodeSort.java:67-69 | a later position overrides an earlier one: a symbol's rank is at least each of its positions |
| `CodeSort.RanksOfDistinct` | CodeSort.java:67-69 | on a duplicate-free order, the symbol at position k gets rank k, so the ranks are exactly 0 .. length(order) - 1 |
| `CodeSort.RanksSnoc` | CodeSort.java:68 | one more iteration of the loop stores the next position under the next symbol |
| `CodeSort.RankTable` | CodeSort.java:67-69 | the loop leaves the map `Ranks(order)` |
| `Words.Word.Compare` | CodeSort.java:274-301 | requires every lookup it performs to succeed; the result equals the reference `Cmp` |
| `Words.Cmp` | CodeSort.java:274-301 | the comparison only ever yields -1 or 1 |
| `Words.CmpDecidedAt` | CodeSort.java:287-294 | the first position below both lengths with unequal ranks decides: lower rank gives -1, higher gives 1 |
| `Words.CmpTie` | CodeSort.java:280-300 | with equal ranks on the common prefix, the result is 1 exactly when the receiver is strictly longer, so identical words give -1 |
| `Words.LookupsSymmetric` | CodeSort.java:288-291 | comparing b with a performs lookups that succeed whenever comparing a with b does |
| `Words.CmpTotal` | CodeSort.java:274-301 | if a compares as 1 against b, then b compares as -1 against a |
| `Words.CmpTransitive` | CodeSort.java:274-301 | "goes first" (-1) is transitive |
| `Words.CmpAntisymmetric` | CodeSort.java:274-301 | under an injective rank, two words that each go first of the other are equal |
| `Words.SortedUnique` | CodeSort.java:89-102 | under an injective rank, two sorted sequences with the same multiset of words are equal |
| `CodeSort.MinStep` | CodeSort.java:93-97 | one inner step keeps `minIndex` at a word that goes first of every other scanned word |
| `CodeSort.SwapComparable` | CodeSort.java:99-101 | the swap keeps the multiset of words and their pairwise comparability |
| `CodeSort.SwapStep` | CodeSort.java:91-102 | after pass i, positions 0..i are in order and go first of everything after them |
| `CodeSort.SelectionSort` | CodeSort.java:89-103 | the result is a permutation of the input; every word goes first of every later word; lists of length 0 or 1 are unchanged |
| `CodeSort.AdjacentInOrder` | CodeSort.java:155-168 | if the ranks put an adjacent pair's edge target before its source, and curr is not a proper prefix of prev, then prev goes first of curr |
| `CodeSort.RanksRespectEvidence` | CodeSort.java:64-69 | for any duplicate-free order of exactly the sample's symbols that respects the follows graph, every extracted edge from -> to has rank(to) < rank(from); no condition on prefixes |
| `CodeSort.SamplePairInOrder` | CodeSort.java:155-168 | in a consistent sample, each word goes first of the next one under the sample's own ranks |
| `CodeSort.SampleSorted` | CodeSort.java:64-71 | a consistent sample (acyclic evidence, no word followed by its proper prefix) is sorted under its own ranks |
| `CodeSort.SortedSampleUnchanged` | CodeSort.java:64-71 | any sorted permutation of a consistent sample under its own ranks is the sample itself |
| `CodeSort.OrderWords` | CodeSort.java:64-71 | the order and ranks are as above; the target is sorted in place as a permutation; sorting the sample itself leaves it unchanged when its graph is acyclic and no word is followed by its proper prefix |

## Left out

- The file I/O, argument check and printing in `main` (CodeSort.java:37-63, 72-81) are left out. They only move text between files and the core.
- `Graph.toString` (CodeSort.java:206-208) is left out: it only delegates to the library's map printing.
- The concrete iteration order of `HashMap.keySet()`, and hashing in general, are left out. Start vertices are chosen arbitrarily, and sets model `HashSet`.
- `Stack` and `LinkedList` are modelled as sequences, with the stack's top at the end.
- On cyclic graphs, `TopoSort` is proved to terminate and to list each vertex once. Nothing is claimed about its order there; the source does not detect cycles.
- SelectionSort: requires every two words at different positions to be comparable without a failed lookup. The source fails only on the pairs it actually compares.
- OrderWords: requires every symbol of the target list to occur in the sample. The source fails only when a comparison actually looks up an unknown symbol.
- Java `int` overflow is not modelled. Indices and ranks are unbounded integers, and the source's counts stay far below 2^31.
- A `Word` carries only its text, and the model's words are the lines as read.
- Java's `charAt` returns UTF-16 code units, so a character outside the Basic Multilingual Plane becomes two vertices in the source but is one Dafny `char` in the model.
