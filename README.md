# dfs-build: the depth-first searches of Build.java, verified

This project models the five graph traversals of `src/Build.java` and proves what they compute:

- `printShortWords` prints every reachable word shorter than `k`.
- `longestWord` returns the longest reachable word.
- `printSelfLoopers` prints the reachable vertices that list themselves as a neighbour.
- `canReach` decides whether a chain of flights leads from one airport to another.
- `unreachable` returns the keys of an adjacency map that cannot be reached from a start key.

Each operation has a recursive helper. The helper threads a mutable `HashSet` of visited nodes and loops over a node's neighbour list.

Layout:

- `runtime.dfy`, module `Runtime`: the Java runtime pieces the code relies on.
  - `Option`, where `None` stands for `null`.
  - `HashSet`, a class whose `elems` field `Add` updates in place.
  - `PrintStream`, standing for `System.out`; `Println` appends one line.
- `graphs.dfy`, module `Graphs`: graphs as maps from a key to its ordered neighbour list.
  - Paths and `Reachable`.
  - Closed sets, and the fact that a closed set holding `s` holds everything `s` reaches.
- `traversal.dfy`, module `Traversal`: the reference depth-first walk.
  - `Walk` is a function returning the trace of one helper call: each vertex entered and each edge followed, in order.
  - Lemmas prove the walk enters each vertex at most once, enters exactly the vertices reachable from the start, and reports self-loops with their multiplicity.
- `build.dfy`, module `Build`: the operations.
  - Vertices live in a sequence, and a vertex is named by its index. An index plays the role of a Java reference: the code compares vertices and airports by identity.
  - Each helper is a recursive `method` with a `while` loop over the neighbour list. It mutates a `HashSet` object and, if it prints, a `PrintStream`.
  - Each helper is proved against `Walk`: what it adds to `visited`, prints or returns is stated as a function of the trace.
  - Lemmas then state these results in terms of reachability.
- `fixtures.dfy`, module `Fixtures`: the graphs that `src/BuildTest.java` builds, and what the model says about them.

Where the documentation and the code disagree, the model follows the code:

- `printSelfLoopers` is documented as printing each self-looping vertex. The code prints the vertex once for each time it occurs in its own neighbour list (`src/Build.java:73-74`), and so does the model (`Build.SelfLoopersCounted`).
- `unreachableHelper` returns before marking a neighbour that is not a key of the map (`src/Build.java:129`). The model's `visited` therefore only ever holds keys. The result is the same either way.

## Model

| member | source | states |
|---|---|---|
| Build.PrintShortWordsHelper | src/Build.java:21-29 | nothing happens for a null or visited vertex; otherwise `visited` grows by exactly the vertices the depth-first walk enters, and the words of those vertices shorter than `k` are printed in the order entered |
| Build.PrintShortWords | src/Build.java:16-19 | prints exactly `ShortWords` of the start vertex, and nothing for a null vertex |
| Build.ShortVerticesReachable | src/Build.java:16-29 | the vertices whose words are printed are exactly the vertices reachable from the start with a word shorter than `k`, each once |
| Build.ShortWordsCorrect | src/Build.java:16-29 | line `i` printed is the word of the `i`-th such vertex in pre-order, and it is shorter than `k` |
| Build.ShortVerticesFilter | src/Build.java:25 | the filter keeps exactly the vertices of the list with a word shorter than `k`, and keeps no vertex twice if the list has none twice |
| Build.ShortPrintedIsData | src/Build.java:24-25 | what is printed along a trace is the word of each entered vertex passing the length test, in entry order |
| Build.LongestOfSpec | src/Build.java:47-51 | the strictly-longer fold returns a word at least as long as the start word and as every word met; it is the start word or the word of the first vertex with a word that long |
| Build.LongestIn | src/Build.java:47-52 | the running longest word is never replaced by a word that is not strictly longer |
| Build.LongestInIsOf | src/Build.java:43-55 | folding along a trace is folding along the vertices it enters, in order |
| Build.LongestWordHelper | src/Build.java:43-55 | `""` for a null or visited vertex; otherwise `visited` grows by the vertices the walk enters, and the result is the fold from `longest` over their words in entry order |
| Build.LongestWord | src/Build.java:37-41 | returns `LongestWordFrom` of the start vertex, and `""` for a null vertex |
| Build.LongestWordMaximal | src/Build.java:37-55 | no vertex reachable from the start has a word longer than the result |
| Build.LongestWordFirst | src/Build.java:37-55 | the result is the word of a vertex in the pre-order from the start, and every vertex met before it has a strictly shorter word: ties go to the first met |
| Build.LongestWordReachable | src/Build.java:37-55 | the result is the word of some vertex reachable from the start |
| Build.LongestWordIsolated | src/Build.java:43-47 | for a vertex without neighbours the result is its own word, including an empty word |
| Build.LoopPrintedIsData | src/Build.java:73-74 | what is printed along a trace is the data of the source of each self-loop edge followed, in order |
| Build.PrintSelfLoopersHelper | src/Build.java:69-77 | nothing happens for a null or visited vertex; otherwise `visited` grows by the vertices the walk enters, and the data of a vertex is printed each time the walk follows an edge from that vertex to itself |
| Build.PrintSelfLoopers | src/Build.java:64-67 | prints exactly `SelfLoopers` of the start vertex, and nothing for a null vertex |
| Build.SelfLoopersPrinted | src/Build.java:64-77 | line `i` printed is the data of the `i`-th self-loop source the walk meets |
| Build.SelfLoopersCounted | src/Build.java:64-77 | a vertex is reported as many times as it lists itself if it is reachable from the start, and never otherwise |
| Build.SelfLoopersSingle | src/Build.java:64-77 | if one reachable vertex lists itself, exactly once, and no other vertex lists itself, only that vertex's data is printed |
| Build.CanReachHelper | src/Build.java:93-104 | true only if a path of flights leads from `start` to `destination`; on false, `start` is visited and every flight out of an airport the call added ends at a visited airport; `visited` only grows, by airports other than `destination` |
| Build.CanReach | src/Build.java:87-91 | true exactly when both airports are non-null and `destination` is reachable from `start`; true when both are the same airport |
| Build.UnreachableHelper | src/Build.java:128-139 | returns null for a null, absent or visited start, and otherwise the `visited` object; `visited` grows by exactly what the walk enters, and only by keys |
| Build.VisitedIsReachable | src/Build.java:119-139 | from an empty set, a key ends up visited exactly when it is reachable from the start |
| Build.UnreachableFrom | src/Build.java:115-126 | the result is a subset of the map's keys |
| Build.Unreachable | src/Build.java:115-126 | returns a new set holding exactly the keys with no path from the start |
| Build.UnreachableAllKeys | src/Build.java:115-129 | for a null start, or a start that is not a key, every key is unreachable |
| Build.UnreachableExcludesStart | src/Build.java:115-131 | a start that is a key is never in the result |
| Build.UnreachableIgnoresOrder | src/Build.java:115-139 | two maps with the same keys and the same neighbours per key, in any order or repetition, give the same result |
| Build.UnreachableComplement | src/Build.java:115-139 | given a set of keys that holds the start, is closed under the edges and is all reachable, the result is exactly the other keys |
| Traversal.Walk | src/Build.java:22-28 | one helper call on `v`: nothing for a vertex that is not a key or is already visited; otherwise `v` is entered (marked), then each neighbour is followed and walked in list order, with everything entered so far counting as visited (also `:70-76` and `:129-137`) |
| Traversal.WalkEdges | src/Build.java:26-28 | the helper's loop over a neighbour list: each neighbour in order is followed, then walked with the visited set left by the earlier neighbours (also `:73-75` and `:134-136`) |
| Build.Adjacency | src/Build.java:132-133 | the edges have the same keys as the map; a key whose list is null has no neighbours, because the loop is skipped |
| Traversal.WalkFresh | src/Build.java:22-24 | the visited guard makes a walk enter only keys not yet visited, and none twice |
| Traversal.WalkCloses | src/Build.java:24-28 | after a call on a key, the key is visited, and every edge out of a newly entered vertex ends at a visited vertex |
| Traversal.WalkSound | src/Build.java:26-28 | everything a walk enters is reachable from its start |
| Traversal.PreorderIsReachable | src/Build.java:21-29 | the pre-order from `s` starts with `s`, lists no vertex twice, and lists exactly the vertices reachable from `s` |
| Traversal.WalkSelfLoops | src/Build.java:72-75 | a walk reports each entered vertex as a self-loop once per occurrence in its own neighbour list, and reports nothing else |
| Traversal.SelfLoopsOfWalk | src/Build.java:69-77 | from an empty visited set, the self-loop count of a vertex is its self-occurrence count if it is reachable, and zero otherwise |
| Graphs.ClosedContainsReachable | src/Build.java:93-104 | a set closed under the edges that holds `s` holds everything reachable from `s`, which is why a false `canReachHelper` is exact |
| Graphs.ReachableIgnoresOrder | src/Build.java:132-136 | reachability depends only on which neighbours each key lists, not on their order or repetition |
| Fixtures.AirportNetworkWellFormed | src/BuildTest.java:69-113 | every flight of the test network goes to one of its airports |
| Fixtures.AirportNetworkRoutes | src/BuildTest.java:69-113 | the flights of the test network are the routes written out, whatever the airport names |
| Fixtures.AtlReachesLas | src/BuildTest.java:84-105 | ATL reaches LAS, via JFK and DFW, so `canReach` is true for them |
| Fixtures.AtlMissesPhx | src/BuildTest.java:69-113 | no path leads from ATL to PHX, so `canReach` is false for them |
| Fixtures.NamedAirportNetwork | src/BuildTest.java:69-113 | with the full airport names of the test, ATL reaches LAS and does not reach PHX |
| Fixtures.ComplexMapUnreachable | src/BuildTest.java:158-172 | from key 3 the only unreachable key of the complex map is 67 |
| Fixtures.ComplexGraphSelfLoopers | src/BuildTest.java:132-156 | from v3, `printSelfLoopers` prints 34 and nothing else |

## Left out

- Printing: `System.out.println` is modelled as appending one line to a `PrintStream` object. The bytes written and the `TeeOutputStream` of `src/BuildTest.java` are not modelled.
- Word length: `String.length()` counts UTF-16 code units, while the model compares `|s|`, the number of characters. The two differ only for characters outside the Basic Multilingual Plane.
- Null neighbour entries are not modelled: a neighbour list holds only vertex or airport indices. In the code, most helpers skip such an entry. The guard of the call on it returns at once: `src/Build.java:22` in printShortWords, `:44` in longestWord (its `""` never replaces `longest` at `:51`), `:70` in printSelfLoopers (where `neighbor == vertex` at `:74` is false), and `:129` in unreachable. A null entry therefore prints, marks and returns nothing, and each of those results is the one for the same graph with the null entries removed. Only canReach throws: a null flight passes the tests at `:94-95`, is added at `:97`, and `getOutboundFlights()` on it at `:99` raises `NullPointerException`. `CanReach` rules this case out through `WellFormedNetwork`.
- Null keys are not modelled for unreachable: the key type `T` has no null. A `HashMap` accepts one null key, but `src/Build.java:129` tests `starting == null` before `containsKey`. So the code never visits a null key and always reports it as unreachable, even when a reached key lists `null` as a neighbour.
- A null neighbour list of a vertex (`src/Build.java:26, 49, 73`) or of an airport (`:99`) raises `NullPointerException` in the code. So does a null map passed to unreachable, at `graph.keySet()` on `:121`. Both are ruled out by the model's types. A null list as a value of the map is modelled (`Adjacency`): the code skips it at `:133`.
- PrintShortWordsHelper, LongestWordHelper: a reachable vertex whose `data` is null makes `vertex.data.length()` raise `NullPointerException` (`src/Build.java:25` and `:47`). The model's words are non-null strings, so this error path is not modelled.
- Recursion depth: a deep enough graph overflows the Java stack. The model has no stack bound.
- Equality and hashing: vertices and airports are compared by reference, which the model represents by indices. `unreachable` relies on the key type's `equals`/`hashCode`, which the model represents by Dafny equality.
- `Vertex.java` is not part of this model. Its two fields, `data` and `neighbors`, are known only from their use in `src/Build.java`.
- `Airport` keeps only its name, code and outbound flights. Its getters are read as field accesses.
- Iteration order of `graph.keySet()`: `Unreachable` picks the keys in an arbitrary order. Its result does not depend on the order.
- CanReachHelper: the contract does not pin down exactly which airports a call adds to `visited`. That set depends on where the search stops once a path is found. The contract states only that `visited` grows, the closure property on false, and the meaning of the result.
- Fixtures: the complex map of `src/BuildTest.java` holds `HashSet`s of neighbours, whose order is unspecified. `Fixtures.ComplexMap` lists them in the order written. `Build.UnreachableIgnoresOrder` shows that the order does not matter.
- Fixtures: vertex data in the test graphs are integers. The string operations `printShortWords` and `longestWord` have no fixture.
