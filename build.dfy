/**
  The five depth-first searches of Build.java.

  A vertex graph is a sequence of vertices and a vertex is named by its index:
  an index stands for a Java reference, so two vertices with equal data are
  still different vertices. `None` stands for a null vertex or airport. Every
  helper threads a `HashSet` of visited indices that it updates in place, and
  the printing helpers append to a `PrintStream` standing for System.out.

  Each helper is proved against the reference traversal `Walk` of the module
  Traversal: what it adds to `visited`, what it prints and what it returns are
  functions of the trace of the walk from its start vertex with the visited set
  it was given. The top-level operations then state their results in terms of
  reachability.
 */
module Build {
  import opened Runtime
  import opened Graphs
  import opened Traversal

  /** A vertex: its value and the vertices it lists as neighbours, in order. */
  datatype Vertex<T> = Vertex(data: T, neighbors: seq<nat>)

  /** An airport and the airports its outbound flights go to, in order. */
  datatype Airport = Airport(name: string, airportCode: string, outboundFlights: seq<nat>)

  /** Every neighbour is a vertex of the graph: no neighbour entry is null or dangling. */
  predicate WellFormed<T>(g: seq<Vertex<T>>)
  {
    forall v, i :: 0 <= v < |g| && 0 <= i < |g[v].neighbors| ==> g[v].neighbors[i] < |g|
  }

  /** Every outbound flight goes to an airport of the network. */
  predicate WellFormedNetwork(net: seq<Airport>)
  {
    forall a, i :: 0 <= a < |net| && 0 <= i < |net[a].outboundFlights| ==> net[a].outboundFlights[i] < |net|
  }

  /** The edges of a vertex graph, as an adjacency map over vertex indices. */
  function Edges<T>(g: seq<Vertex<T>>): (r: Graph<nat>)
    ensures forall v: nat :: v in r <==> v < |g|
    ensures forall v :: v in r ==> r[v] == g[v].neighbors
  {
    var edges := map v: nat | v < |g| :: g[v].neighbors;
    assert forall v: nat :: v < |g| ==> v in edges;
    edges
  }

  /** The flights of an airport network, as an adjacency map over airport indices. */
  function Flights(net: seq<Airport>): (r: Graph<nat>)
    ensures forall a: nat :: a in r <==> a < |net|
    ensures forall a :: a in r ==> r[a] == net[a].outboundFlights
  {
    var flights := map a: nat | a < |net| :: net[a].outboundFlights;
    assert forall a: nat :: a < |net| ==> a in flights;
    flights
  }

  /** The trace of a helper call on `vertex`: nothing for a null vertex. */
  function Trace<T>(g: seq<Vertex<T>>, vertex: Option<nat>, visited: set<nat>): seq<Event<nat>>
  {
    if vertex.None? then [] else Walk(Edges(g), vertex.value, visited)
  }

  /** The data of vertex `u` as one line of output (nothing for an index outside the graph). */
  function DataAt<T>(g: seq<Vertex<T>>, u: nat): seq<T>
  {
    if u < |g| then [g[u].data] else []
  }

  /** The data of the vertices `vs`, in order. */
  function DataOf<T>(g: seq<Vertex<T>>, vs: seq<nat>): seq<T>
  {
    if vs == [] then [] else DataAt(g, vs[0]) + DataOf(g, vs[1..])
  }

  /** For indices of the graph, `DataOf` is the data of each vertex in turn. */
  lemma {:induction false} DataOfIndex<T>(g: seq<Vertex<T>>, vs: seq<nat>)
    requires forall v :: v in vs ==> v < |g|
    ensures |DataOf(g, vs)| == |vs|
    ensures forall i :: 0 <= i < |vs| ==> vs[i] < |g| && DataOf(g, vs)[i] == g[vs[i]].data
  {
    if vs != [] {
      assert forall v :: v in vs[1..] ==> v in vs;
      DataOfIndex(g, vs[1..]);
      assert vs[0] in vs;
      assert DataOf(g, vs) == [g[vs[0]].data] + DataOf(g, vs[1..]);
      forall i | 0 <= i < |vs|
        ensures vs[i] < |g| && DataOf(g, vs)[i] == g[vs[i]].data
      {
        assert vs[i] in vs;
        if i > 0 {
          assert vs[1..][i - 1] == vs[i];
        }
      }
    }
  }

  lemma {:induction false} DataOfAppend<T>(g: seq<Vertex<T>>, a: seq<nat>, b: seq<nat>)
    ensures DataOf(g, a + b) == DataOf(g, a) + DataOf(g, b)
  {
    if a != [] {
      assert (a + b)[0] == a[0] && (a + b)[1..] == a[1..] + b;
      DataOfAppend(g, a[1..], b);
    } else {
      assert a + b == b;
    }
  }

  // printShortWords

  /** Vertex `u` holds a word strictly shorter than `k`. */
  predicate IsShort(g: seq<Vertex<string>>, u: nat, k: int)
  {
    u < |g| && |g[u].data| < k
  }

  /** The vertices among `vs` whose word is strictly shorter than `k`, in order. */
  function ShortVertices(g: seq<Vertex<string>>, vs: seq<nat>, k: int): seq<nat>
  {
    if vs == [] then []
    else (if IsShort(g, vs[0], k) then [vs[0]] else []) + ShortVertices(g, vs[1..], k)
  }

  lemma {:induction false} ShortVerticesAppend(g: seq<Vertex<string>>, a: seq<nat>, b: seq<nat>, k: int)
    ensures ShortVertices(g, a + b, k) == ShortVertices(g, a, k) + ShortVertices(g, b, k)
  {
    if a != [] {
      assert (a + b)[0] == a[0] && (a + b)[1..] == a[1..] + b;
      ShortVerticesAppend(g, a[1..], b, k);
    } else {
      assert a + b == b;
    }
  }

  /** `ShortVertices` keeps exactly the short-word vertices of `vs`, and no vertex twice if `vs` has none twice. */
  lemma {:induction false} ShortVerticesFilter(g: seq<Vertex<string>>, vs: seq<nat>, k: int)
    ensures forall u :: u in ShortVertices(g, vs, k) <==> u in vs && u < |g| && |g[u].data| < k
    ensures Distinct(vs) ==> Distinct(ShortVertices(g, vs, k))
  {
    if vs != [] {
      ShortVerticesFilter(g, vs[1..], k);
      var head := if IsShort(g, vs[0], k) then [vs[0]] else [];
      assert ShortVertices(g, vs, k) == head + ShortVertices(g, vs[1..], k);
      assert forall u :: u in vs <==> u == vs[0] || u in vs[1..];
      if Distinct(vs) {
        assert Distinct(vs[1..]) by {
          forall i, j | 0 <= i < j < |vs[1..]|
            ensures vs[1..][i] != vs[1..][j]
          {
            assert vs[1..][i] == vs[i + 1] && vs[1..][j] == vs[j + 1];
          }
        }
        assert vs[0] !in vs[1..] by {
          forall j | 0 <= j < |vs[1..]|
            ensures vs[1..][j] != vs[0]
          {
            assert vs[1..][j] == vs[j + 1];
          }
        }
        DistinctAppend(head, ShortVertices(g, vs[1..], k));
      }
    }
  }

  /** The words a traversal from `s` prints: those shorter than `k`, in pre-order. */
  function ShortWords(g: seq<Vertex<string>>, s: nat, k: int): seq<string>
  {
    ShortPrinted(g, k, Walk(Edges(g), s, {}))
  }

  /**
    printShortWords from a vertex `s` visits, in pre-order, every vertex
    reachable from `s` whose word is shorter than `k`, each exactly once, and
    no other vertex.
   */
  lemma ShortVerticesReachable(g: seq<Vertex<string>>, s: nat, k: int)
    requires s < |g|
    ensures Distinct(ShortVertices(g, Preorder(Edges(g), s), k))
    ensures forall u :: u in ShortVertices(g, Preorder(Edges(g), s), k) <==>
      u < |g| && Reachable(Edges(g), s, u) && |g[u].data| < k
  {
    var order := Preorder(Edges(g), s);
    PreorderIsReachable(Edges(g), s);
    ShortVerticesFilter(g, order, k);
  }

  /** printShortWords prints, one per line, the word of each of those vertices, all shorter than `k`. */
  lemma ShortWordsCorrect(g: seq<Vertex<string>>, s: nat, k: int)
    requires s < |g|
    ensures |ShortWords(g, s, k)| == |ShortVertices(g, Preorder(Edges(g), s), k)|
    ensures forall i :: 0 <= i < |ShortWords(g, s, k)| ==>
      var u := ShortVertices(g, Preorder(Edges(g), s), k)[i];
      u < |g| && ShortWords(g, s, k)[i] == g[u].data && |g[u].data| < k
  {
    var vs := ShortVertices(g, Preorder(Edges(g), s), k);
    ShortPrintedIsData(g, k, Walk(Edges(g), s, {}));
    ShortVerticesFilter(g, Preorder(Edges(g), s), k);
    DataOfIndex(g, vs);
    forall i | 0 <= i < |vs|
      ensures vs[i] < |g| && |g[vs[i]].data| < k
    {
      assert vs[i] in vs;
    }
  }

  /** What the helper of printShortWords prints along a trace: the word of each entered vertex shorter than `k`. */
  function ShortPrinted(g: seq<Vertex<string>>, k: int, t: seq<Event<nat>>): seq<string>
  {
    if t == [] then []
    else
      (if t[0].Enter? && IsShort(g, t[0].vertex, k) then DataAt(g, t[0].vertex) else []) +
      ShortPrinted(g, k, t[1..])
  }

  lemma {:induction false} ShortPrintedAppend(g: seq<Vertex<string>>, k: int, a: seq<Event<nat>>, b: seq<Event<nat>>)
    ensures ShortPrinted(g, k, a + b) == ShortPrinted(g, k, a) + ShortPrinted(g, k, b)
  {
    if a != [] {
      assert (a + b)[0] == a[0] && (a + b)[1..] == a[1..] + b;
      ShortPrintedAppend(g, k, a[1..], b);
    } else {
      assert a + b == b;
    }
  }

  /** Printing along a trace is printing the data of its short-word vertices in the order entered. */
  lemma {:induction false} ShortPrintedIsData(g: seq<Vertex<string>>, k: int, t: seq<Event<nat>>)
    ensures ShortPrinted(g, k, t) == DataOf(g, ShortVertices(g, Order(t), k))
  {
    if t != [] {
      ShortPrintedIsData(g, k, t[1..]);
      var head := if t[0].Enter? then [t[0].vertex] else [];
      assert Order(t) == head + Order(t[1..]);
      ShortVerticesAppend(g, head, Order(t[1..]), k);
      DataOfAppend(g, ShortVertices(g, head, k), ShortVertices(g, Order(t[1..]), k));
      if t[0].Enter? {
        assert head[1..] == [];
      }
    }
  }

  /** An edge followed prints nothing: the walk it leads to prints, then what comes after. */
  lemma ShortFollow(g: seq<Vertex<string>>, k: int, from: nat, to: nat, sub: seq<Event<nat>>,
                    rest: seq<Event<nat>>, lines: seq<string>)
    ensures lines + ShortPrinted(g, k, [Follow(from, to)] + sub + rest) ==
      (lines + ShortPrinted(g, k, sub)) + ShortPrinted(g, k, rest)
  {
    var head := [Follow(from, to)];
    assert head[1..] == [];
    assert ShortPrinted(g, k, head) == [];
    ShortPrintedAppend(g, k, head, sub);
    assert ShortPrinted(g, k, head + sub) == ShortPrinted(g, k, sub);
    ShortPrintedAppend(g, k, head + sub, rest);
  }

  /** One iteration of the loop of printShortWordsHelper: the walk from `ns[i]` prints first, then the edges after it. */
  lemma ShortStep(g: seq<Vertex<string>>, k: int, v: nat, ns: seq<nat>, i: nat, visited: set<nat>,
                  lines: seq<string>)
    requires i < |ns|
    ensures lines + ShortPrinted(g, k, WalkEdges(Edges(g), v, ns[i..], visited)) ==
      (lines + ShortPrinted(g, k, Walk(Edges(g), ns[i], visited))) +
      ShortPrinted(g, k, WalkEdges(Edges(g), v, ns[i + 1..], visited + Entered(Walk(Edges(g), ns[i], visited))))
  {
    var sub := Walk(Edges(g), ns[i], visited);
    var rest := WalkEdges(Edges(g), v, ns[i + 1..], visited + Entered(sub));
    WalkEdgesStep(Edges(g), v, ns, i, visited);
    ShortFollow(g, k, v, ns[i], sub, rest, lines);
  }

  /** A helper call that enters `v` prints its word if it is short, then what its loop prints. */
  lemma ShortEnter(g: seq<Vertex<string>>, k: int, v: nat, visited: set<nat>, lines: seq<string>)
    requires v < |g| && v !in visited
    ensures lines + ShortPrinted(g, k, Walk(Edges(g), v, visited)) ==
      (lines + (if |g[v].data| < k then [g[v].data] else [])) +
      ShortPrinted(g, k, WalkEdges(Edges(g), v, g[v].neighbors, visited + {v}))
  {
    var rest := WalkEdges(Edges(g), v, g[v].neighbors, visited + {v});
    ShortPrintedAppend(g, k, [Enter(v)], rest);
    assert [Enter(v)][1..] == [];
  }

  /**
    printShortWordsHelper: adds to `visited` what the walk from `vertex`
    enters and prints, in that order, the words of the entered vertices that
    are shorter than `k`.
   */
  method PrintShortWordsHelper(g: seq<Vertex<string>>, vertex: Option<nat>, k: int,
                               visited: HashSet<nat>, out: PrintStream<string>)
    requires WellFormed(g)
    requires vertex.Some? ==> vertex.value < |g|
    modifies visited, out
    ensures visited.elems == old(visited.elems) + Entered(Trace(g, vertex, old(visited.elems)))
    ensures out.lines == old(out.lines) + ShortPrinted(g, k, Trace(g, vertex, old(visited.elems)))
    decreases Edges(g).Keys - visited.elems
  {
    if vertex.None? || visited.Contains(vertex.value) {
      return;
    }
    var v := vertex.value;
    VisitedEnter(Edges(g), v, visited.elems);
    ghost var printed := out.lines + (if |g[v].data| < k then [g[v].data] else []);
    ShortEnter(g, k, v, visited.elems, out.lines);
    visited.Add(v);
    if |g[v].data| < k {
      out.Println(g[v].data);
      assert out.lines == printed;
    } else {
      assert out.lines == printed;
    }
    ghost var goalVisited := old(visited.elems) + Entered(Trace(g, vertex, old(visited.elems)));
    ghost var goalLines := old(out.lines) + ShortPrinted(g, k, Trace(g, vertex, old(visited.elems)));
    var ns := g[v].neighbors;
    assert ns[0..] == ns;
    var i := 0;
    while i < |ns|
      invariant 0 <= i <= |ns|
      invariant old(visited.elems) + {v} <= visited.elems
      invariant visited.elems + Entered(WalkEdges(Edges(g), v, ns[i..], visited.elems)) == goalVisited
      invariant out.lines + ShortPrinted(g, k, WalkEdges(Edges(g), v, ns[i..], visited.elems)) == goalLines
    {
      VisitedStep(Edges(g), v, ns, i, visited.elems);
      ShortStep(g, k, v, ns, i, visited.elems, out.lines);
      PrintShortWordsHelper(g, Some(ns[i]), k, visited, out);
      i := i + 1;
    }
    WalkEdgesDone(Edges(g), v, ns, visited.elems);
    assert out.lines + [] == out.lines;
  }

  /** printShortWords: prints, in pre-order, the reachable words shorter than `k`; nothing for a null vertex. */
  method PrintShortWords(g: seq<Vertex<string>>, vertex: Option<nat>, k: int, out: PrintStream<string>)
    requires WellFormed(g)
    requires vertex.Some? ==> vertex.value < |g|
    modifies out
    ensures out.lines == old(out.lines) + (if vertex.None? then [] else ShortWords(g, vertex.value, k))
  {
    var visited := new HashSet<nat>();
    PrintShortWordsHelper(g, vertex, k, visited, out);
  }

  // longestWord

  /** The running longest word after meeting vertex `u`: its word replaces `longest` only if strictly longer. */
  function Longer(g: seq<Vertex<string>>, longest: string, u: nat): string
  {
    if u < |g| && |g[u].data| > |longest| then g[u].data else longest
  }

  /** The longest word met along the vertices `vs`, starting from `longest`; on a tie the earlier word stays. */
  function LongestOf(g: seq<Vertex<string>>, longest: string, vs: seq<nat>): (r: string)
    ensures r == longest || |r| > |longest|
    decreases vs
  {
    if vs == [] then longest else LongestOf(g, Longer(g, longest, vs[0]), vs[1..])
  }

  /** `r` is the word of `vs[i]`, and every vertex before it along `vs` has a strictly shorter word. */
  ghost predicate FirstWithWord(g: seq<Vertex<string>>, vs: seq<nat>, i: int, r: string)
  {
    && 0 <= i < |vs| && vs[i] < |g| && r == g[vs[i]].data
    && forall j :: 0 <= j < i ==> vs[j] < |g| && |g[vs[j]].data| < |r|
  }

  /**
    The fold keeps the first longest word: its result is at least as long as
    `longest` and as every word along `vs`, and it is `longest` itself unless
    some word is strictly longer, in which case it is the word of the first
    vertex along `vs` with a word that long.
   */
  lemma {:induction false} LongestOfSpec(g: seq<Vertex<string>>, longest: string, vs: seq<nat>)
    requires forall v :: v in vs ==> v < |g|
    ensures |longest| <= |LongestOf(g, longest, vs)|
    ensures forall u :: u in vs ==> u < |g| && |g[u].data| <= |LongestOf(g, longest, vs)|
    ensures LongestOf(g, longest, vs) == longest ||
      (|LongestOf(g, longest, vs)| > |longest| &&
       exists i :: FirstWithWord(g, vs, i, LongestOf(g, longest, vs)))
    decreases vs
  {
    if vs != [] {
      var next := Longer(g, longest, vs[0]);
      var r := LongestOf(g, longest, vs);
      assert forall v :: v in vs[1..] ==> v in vs;
      assert vs[0] in vs;
      LongestOfSpec(g, next, vs[1..]);
      assert r == LongestOf(g, next, vs[1..]);
      assert forall u :: u in vs <==> u == vs[0] || u in vs[1..];
      if r != longest {
        if r == next {
          assert FirstWithWord(g, vs, 0, r);
        } else {
          var i' :| FirstWithWord(g, vs[1..], i', r);
          forall j | 0 <= j < i' + 1
            ensures vs[j] < |g| && |g[vs[j]].data| < |r|
          {
            if j > 0 {
              assert vs[1..][j - 1] == vs[j];
            }
          }
          assert vs[1..][i'] == vs[i' + 1];
          assert FirstWithWord(g, vs, i' + 1, r);
        }
      }
    }
  }

  /** What longestWordHelper keeps as `longest` along a trace: the fold over each entered vertex in turn. */
  function LongestIn(g: seq<Vertex<string>>, longest: string, t: seq<Event<nat>>): (r: string)
    ensures r == longest || |r| > |longest|
    decreases t
  {
    if t == [] then longest
    else LongestIn(g, if t[0].Enter? then Longer(g, longest, t[0].vertex) else longest, t[1..])
  }

  lemma {:induction false} LongestInAppend(g: seq<Vertex<string>>, longest: string, a: seq<Event<nat>>,
                                           b: seq<Event<nat>>)
    ensures LongestIn(g, longest, a + b) == LongestIn(g, LongestIn(g, longest, a), b)
    decreases a
  {
    if a != [] {
      assert (a + b)[0] == a[0] && (a + b)[1..] == a[1..] + b;
      LongestInAppend(g, if a[0].Enter? then Longer(g, longest, a[0].vertex) else longest, a[1..], b);
    } else {
      assert a + b == b;
    }
  }

  /** Folding along a trace is folding along the vertices it enters, in order. */
  lemma {:induction false} LongestInIsOf(g: seq<Vertex<string>>, longest: string, t: seq<Event<nat>>)
    ensures LongestIn(g, longest, t) == LongestOf(g, longest, Order(t))
    decreases t
  {
    if t != [] {
      LongestInIsOf(g, if t[0].Enter? then Longer(g, longest, t[0].vertex) else longest, t[1..]);
      if t[0].Enter? {
        assert Order(t) == [t[0].vertex] + Order(t[1..]);
        assert Order(t)[1..] == Order(t[1..]);
      } else {
        assert Order(t) == Order(t[1..]);
      }
    }
  }

  /** An edge followed changes nothing: the walk it leads to folds first, then what comes after. */
  lemma LongestFollow(g: seq<Vertex<string>>, longest: string, from: nat, to: nat, sub: seq<Event<nat>>,
                      rest: seq<Event<nat>>)
    ensures LongestIn(g, longest, [Follow(from, to)] + sub + rest) ==
      LongestIn(g, LongestIn(g, longest, sub), rest)
  {
    var head := [Follow(from, to)];
    assert head[1..] == [];
    assert LongestIn(g, longest, head) == longest;
    LongestInAppend(g, longest, head, sub);
    LongestInAppend(g, longest, head + sub, rest);
  }

  /** One iteration of the loop of longestWordHelper: the walk from `ns[i]` folds first, then the edges after it. */
  lemma LongestStep(g: seq<Vertex<string>>, longest: string, v: nat, ns: seq<nat>, i: nat, visited: set<nat>)
    requires i < |ns|
    ensures LongestIn(g, longest, WalkEdges(Edges(g), v, ns[i..], visited)) ==
      LongestIn(g, LongestIn(g, longest, Walk(Edges(g), ns[i], visited)),
        WalkEdges(Edges(g), v, ns[i + 1..], visited + Entered(Walk(Edges(g), ns[i], visited))))
  {
    var sub := Walk(Edges(g), ns[i], visited);
    var rest := WalkEdges(Edges(g), v, ns[i + 1..], visited + Entered(sub));
    WalkEdgesStep(Edges(g), v, ns, i, visited);
    LongestFollow(g, longest, v, ns[i], sub, rest);
  }

  /** A helper call that enters `v` first compares the word of `v`, then folds what its loop walks. */
  lemma LongestEnter(g: seq<Vertex<string>>, longest: string, v: nat, visited: set<nat>)
    requires v < |g| && v !in visited
    ensures LongestIn(g, longest, Walk(Edges(g), v, visited)) ==
      LongestIn(g, Longer(g, longest, v), WalkEdges(Edges(g), v, g[v].neighbors, visited + {v}))
  {
    var rest := WalkEdges(Edges(g), v, g[v].neighbors, visited + {v});
    assert Walk(Edges(g), v, visited) == [Enter(v)] + rest;
    assert ([Enter(v)] + rest)[1..] == rest;
  }

  /**
    longestWordHelper: adds to `visited` what the walk from `vertex` enters and
    returns the longest of `longest` and the words of the entered vertices,
    keeping the first met on a tie; `""` if `vertex` is null or visited.
   */
  method LongestWordHelper(g: seq<Vertex<string>>, vertex: Option<nat>, longest: string, visited: HashSet<nat>)
    returns (r: string)
    requires WellFormed(g)
    requires vertex.Some? ==> vertex.value < |g|
    modifies visited
    ensures visited.elems == old(visited.elems) + Entered(Trace(g, vertex, old(visited.elems)))
    ensures r == if vertex.None? || vertex.value in old(visited.elems) then ""
                 else LongestIn(g, longest, Trace(g, vertex, old(visited.elems)))
    decreases Edges(g).Keys - visited.elems
  {
    if vertex.None? || visited.Contains(vertex.value) {
      return "";
    }
    var v := vertex.value;
    ghost var goalVisited := old(visited.elems) + Entered(Trace(g, vertex, old(visited.elems)));
    ghost var goal := LongestIn(g, longest, Trace(g, vertex, old(visited.elems)));
    VisitedEnter(Edges(g), v, visited.elems);
    LongestEnter(g, longest, v, visited.elems);
    visited.Add(v);
    var best := longest;
    if |g[v].data| > |best| {
      best := g[v].data;
    }
    var ns := g[v].neighbors;
    assert ns[0..] == ns;
    var i := 0;
    while i < |ns|
      invariant 0 <= i <= |ns|
      invariant old(visited.elems) + {v} <= visited.elems
      invariant visited.elems + Entered(WalkEdges(Edges(g), v, ns[i..], visited.elems)) == goalVisited
      invariant LongestIn(g, best, WalkEdges(Edges(g), v, ns[i..], visited.elems)) == goal
    {
      VisitedStep(Edges(g), v, ns, i, visited.elems);
      LongestStep(g, best, v, ns, i, visited.elems);
      var compare := LongestWordHelper(g, Some(ns[i]), best, visited);
      if |compare| > |best| {
        best := compare;
      }
      i := i + 1;
    }
    WalkEdgesDone(Edges(g), v, ns, visited.elems);
    r := best;
  }

  /** The word longestWord returns for the vertex `s`. */
  function LongestWordFrom(g: seq<Vertex<string>>, s: nat): string
  {
    LongestIn(g, "", Walk(Edges(g), s, {}))
  }

  /** longestWord: the longest word reachable from `vertex`, the first met in pre-order on a tie; `""` for null. */
  method LongestWord(g: seq<Vertex<string>>, vertex: Option<nat>) returns (r: string)
    requires WellFormed(g)
    requires vertex.Some? ==> vertex.value < |g|
    ensures r == if vertex.None? then "" else LongestWordFrom(g, vertex.value)
  {
    var visited := new HashSet<nat>();
    r := LongestWordHelper(g, vertex, "", visited);
  }

  /** longestWord from `s` returns a word as long as the word of every vertex reachable from `s`. */
  lemma LongestWordMaximal(g: seq<Vertex<string>>, s: nat)
    ensures forall u :: u < |g| && Reachable(Edges(g), s, u) ==> |g[u].data| <= |LongestWordFrom(g, s)|
  {
    var order := Preorder(Edges(g), s);
    PreorderIsReachable(Edges(g), s);
    PreorderInGraph(g, s);
    LongestInIsOf(g, "", Walk(Edges(g), s, {}));
    LongestOfSpec(g, "", order);
  }

  /**
    longestWord from `s` returns the word of a vertex of the pre-order from
    `s`, and every vertex met before it has a strictly shorter word: of the
    longest words, the one met first.
   */
  lemma LongestWordFirst(g: seq<Vertex<string>>, s: nat)
    requires s < |g|
    ensures exists i :: FirstWithWord(g, Preorder(Edges(g), s), i, LongestWordFrom(g, s))
  {
    var order := Preorder(Edges(g), s);
    var r := LongestWordFrom(g, s);
    PreorderIsReachable(Edges(g), s);
    PreorderInGraph(g, s);
    LongestInIsOf(g, "", Walk(Edges(g), s, {}));
    LongestOfSpec(g, "", order);
    if r == "" {
      assert order[0] in order;
      assert FirstWithWord(g, order, 0, r);
    }
  }

  /** longestWord from `s` returns the word of a vertex reachable from `s`. */
  lemma LongestWordReachable(g: seq<Vertex<string>>, s: nat)
    requires s < |g|
    ensures exists u :: u < |g| && Reachable(Edges(g), s, u) && LongestWordFrom(g, s) == g[u].data
  {
    var order := Preorder(Edges(g), s);
    LongestWordFirst(g, s);
    var i :| FirstWithWord(g, order, i, LongestWordFrom(g, s));
    PreorderIsReachable(Edges(g), s);
    assert order[i] in order;
  }

  /** Every vertex of the pre-order from `s` is a vertex of the graph. */
  lemma PreorderInGraph<T>(g: seq<Vertex<T>>, s: nat)
    ensures forall x: nat :: x in Preorder(Edges(g), s) ==> x < |g|
  {
    var order := Preorder(Edges(g), s);
    WalkFresh(Edges(g), s, {});
    forall x: nat | x in order
      ensures x < |g|
    {
      assert x in Edges(g);
    }
  }

  /** For a vertex without neighbours longestWord returns the vertex's own word. */
  lemma LongestWordIsolated(g: seq<Vertex<string>>, s: nat)
    requires s < |g| && g[s].neighbors == []
    ensures LongestWordFrom(g, s) == g[s].data
  {
    var t := Walk(Edges(g), s, {});
    assert s in Edges(g) && Edges(g)[s] == [];
    assert t == [Enter(s)] + WalkEdges(Edges(g), s, [], {} + {s});
    assert t == [Enter(s)];
    assert t[1..] == [];
    assert LongestIn(g, "", t) == Longer(g, "", s);
    if |g[s].data| == 0 {
      assert g[s].data == "";
    }
  }

  // printSelfLoopers

  /** What following the edge `e` prints: the data of its source if the edge leads back to it. */
  function LoopLine<T>(g: seq<Vertex<T>>, e: Event<nat>): seq<T>
  {
    if e.Follow? && e.from == e.to then DataAt(g, e.from) else []
  }

  /** What printSelfLoopersHelper prints along a trace: a line for each self-loop edge followed. */
  function LoopPrinted<T>(g: seq<Vertex<T>>, t: seq<Event<nat>>): seq<T>
  {
    if t == [] then [] else LoopLine(g, t[0]) + LoopPrinted(g, t[1..])
  }

  lemma {:induction false} LoopPrintedAppend<T>(g: seq<Vertex<T>>, a: seq<Event<nat>>, b: seq<Event<nat>>)
    ensures LoopPrinted(g, a + b) == LoopPrinted(g, a) + LoopPrinted(g, b)
  {
    if a != [] {
      assert (a + b)[0] == a[0] && (a + b)[1..] == a[1..] + b;
      LoopPrintedAppend(g, a[1..], b);
    } else {
      assert a + b == b;
    }
  }

  /** Printing along a trace is printing the data of the source of each self-loop edge, in order. */
  lemma {:induction false} LoopPrintedIsData<T>(g: seq<Vertex<T>>, t: seq<Event<nat>>)
    ensures LoopPrinted(g, t) == DataOf(g, SelfLoops(t))
  {
    if t != [] {
      LoopPrintedIsData(g, t[1..]);
      var head := if t[0].Follow? && t[0].from == t[0].to then [t[0].from] else [];
      assert SelfLoops(t) == head + SelfLoops(t[1..]);
      DataOfAppend(g, head, SelfLoops(t[1..]));
      if head != [] {
        assert head[1..] == [];
      }
    }
  }

  /** Following the edge from `from` to `to` prints its line, then the walk it leads to prints, then what comes after. */
  lemma LoopFollow<T>(g: seq<Vertex<T>>, from: nat, to: nat, sub: seq<Event<nat>>, rest: seq<Event<nat>>,
                      lines: seq<T>)
    ensures lines + LoopPrinted(g, [Follow(from, to)] + sub + rest) ==
      ((lines + LoopLine(g, Follow(from, to))) + LoopPrinted(g, sub)) + LoopPrinted(g, rest)
  {
    var head := [Follow(from, to)];
    assert head[1..] == [];
    assert LoopPrinted(g, head) == LoopLine(g, Follow(from, to)) + [];
    LoopPrintedAppend(g, head, sub);
    LoopPrintedAppend(g, head + sub, rest);
  }

  /**
    One iteration of the loop of printSelfLoopersHelper over the neighbours
    `ns` of `v`: once it has printed the data of `v` if `ns[i]` is `v` itself,
    the walk from `ns[i]` prints, then the edges after it.
   */
  lemma LoopStep<T>(g: seq<Vertex<T>>, v: nat, ns: seq<nat>, i: nat, visited: set<nat>, lines: seq<T>,
                    printed: seq<T>)
    requires v < |g| && i < |ns|
    requires printed == lines + (if ns[i] == v then [g[v].data] else [])
    ensures lines + LoopPrinted(g, WalkEdges(Edges(g), v, ns[i..], visited)) ==
      (printed + LoopPrinted(g, Walk(Edges(g), ns[i], visited))) +
      LoopPrinted(g, WalkEdges(Edges(g), v, ns[i + 1..], visited + Entered(Walk(Edges(g), ns[i], visited))))
  {
    var sub := Walk(Edges(g), ns[i], visited);
    var rest := WalkEdges(Edges(g), v, ns[i + 1..], visited + Entered(sub));
    WalkEdgesStep(Edges(g), v, ns, i, visited);
    LoopFollow(g, v, ns[i], sub, rest, lines);
  }

  /** Entering `v` prints nothing: a helper call that enters `v` prints what its loop prints. */
  lemma LoopEnter<T>(g: seq<Vertex<T>>, v: nat, visited: set<nat>)
    requires v < |g| && v !in visited
    ensures LoopPrinted(g, Walk(Edges(g), v, visited)) ==
      LoopPrinted(g, WalkEdges(Edges(g), v, g[v].neighbors, visited + {v}))
  {
    var rest := WalkEdges(Edges(g), v, g[v].neighbors, visited + {v});
    assert Walk(Edges(g), v, visited) == [Enter(v)] + rest;
    assert ([Enter(v)] + rest)[1..] == rest;
  }

  /**
    printSelfLoopersHelper: adds to `visited` what the walk from `vertex`
    enters and prints the data of a vertex each time the walk follows an edge
    from that vertex to itself.
   */
  method PrintSelfLoopersHelper<T>(g: seq<Vertex<T>>, vertex: Option<nat>, visited: HashSet<nat>,
                                   out: PrintStream<T>)
    requires WellFormed(g)
    requires vertex.Some? ==> vertex.value < |g|
    modifies visited, out
    ensures visited.elems == old(visited.elems) + Entered(Trace(g, vertex, old(visited.elems)))
    ensures out.lines == old(out.lines) + LoopPrinted(g, Trace(g, vertex, old(visited.elems)))
    decreases Edges(g).Keys - visited.elems
  {
    if vertex.None? || visited.Contains(vertex.value) {
      return;
    }
    var v := vertex.value;
    ghost var goalVisited := old(visited.elems) + Entered(Trace(g, vertex, old(visited.elems)));
    ghost var goalLines := old(out.lines) + LoopPrinted(g, Trace(g, vertex, old(visited.elems)));
    VisitedEnter(Edges(g), v, visited.elems);
    LoopEnter(g, v, visited.elems);
    visited.Add(v);
    var ns := g[v].neighbors;
    assert ns[0..] == ns;
    var i := 0;
    while i < |ns|
      invariant 0 <= i <= |ns|
      invariant old(visited.elems) + {v} <= visited.elems
      invariant visited.elems + Entered(WalkEdges(Edges(g), v, ns[i..], visited.elems)) == goalVisited
      invariant out.lines + LoopPrinted(g, WalkEdges(Edges(g), v, ns[i..], visited.elems)) == goalLines
    {
      ghost var printed := out.lines + (if ns[i] == v then [g[v].data] else []);
      VisitedStep(Edges(g), v, ns, i, visited.elems);
      LoopStep(g, v, ns, i, visited.elems, out.lines, printed);
      if ns[i] == v {
        out.Println(g[v].data);
        assert out.lines == printed;
      } else {
        assert out.lines == printed;
      }
      PrintSelfLoopersHelper(g, Some(ns[i]), visited, out);
      i := i + 1;
    }
    WalkEdgesDone(Edges(g), v, ns, visited.elems);
    assert out.lines + [] == out.lines;
  }

  /** What printSelfLoopers prints for the vertex `s`. */
  function SelfLoopers<T>(g: seq<Vertex<T>>, s: nat): seq<T>
  {
    LoopPrinted(g, Walk(Edges(g), s, {}))
  }

  /** printSelfLoopers: prints the data of the reachable vertices that list themselves; nothing for null. */
  method PrintSelfLoopers<T>(g: seq<Vertex<T>>, vertex: Option<nat>, out: PrintStream<T>)
    requires WellFormed(g)
    requires vertex.Some? ==> vertex.value < |g|
    modifies out
    ensures out.lines == old(out.lines) + (if vertex.None? then [] else SelfLoopers(g, vertex.value))
  {
    var visited := new HashSet<nat>();
    PrintSelfLoopersHelper(g, vertex, visited, out);
  }

  /** The source of each self-loop edge printSelfLoopers follows from `s`, in order. */
  function LoopSources<T>(g: seq<Vertex<T>>, s: nat): seq<nat>
  {
    SelfLoops<nat>(Walk<nat>(Edges(g), s, {}))
  }

  /** printSelfLoopers from `s` prints, for each self-loop edge it follows, the data of the vertex the edge leaves. */
  lemma SelfLoopersPrinted<T>(g: seq<Vertex<T>>, s: nat)
    ensures |SelfLoopers(g, s)| == |LoopSources(g, s)|
    ensures forall i :: 0 <= i < |LoopSources(g, s)| ==>
      LoopSources(g, s)[i] < |g| && SelfLoopers(g, s)[i] == g[LoopSources(g, s)[i]].data
  {
    var loops := LoopSources(g, s);
    SelfLoopsOfWalk<nat>(Edges(g), s);
    LoopPrintedIsData(g, Walk<nat>(Edges(g), s, {}));
    forall v | v in loops
      ensures v < |g|
    {
      assert multiset(loops)[v] > 0;
    }
    DataOfIndex(g, loops);
  }

  /**
    The self-loop edges printSelfLoopers from `s` follows: those from a vertex
    `x` to itself as many times as `x` lists itself as a neighbour if `x` is
    reachable from `s`, and none otherwise.
   */
  lemma SelfLoopersCounted<T>(g: seq<Vertex<T>>, s: nat)
    ensures forall x: nat ::
      multiset(LoopSources(g, s))[x] ==
      (if x < |g| && Reachable(Edges(g), s, x) then multiset(g[x].neighbors)[x] else 0)
  {
    SelfLoopsOfWalk<nat>(Edges(g), s);
    forall x: nat
      ensures multiset(LoopSources(g, s))[x] ==
        (if x < |g| && Reachable(Edges(g), s, x) then multiset(g[x].neighbors)[x] else 0)
    {
      if x < |g| {
        assert x in Edges(g) && Edges(g)[x] == g[x].neighbors;
      } else {
        assert x !in Edges(g);
      }
    }
  }

  /**
    When exactly one reachable vertex lists itself, and lists itself once,
    printSelfLoopers prints that vertex's data and nothing else.
   */
  lemma SelfLoopersSingle<T>(g: seq<Vertex<T>>, s: nat, x: nat)
    requires x < |g| && Reachable(Edges(g), s, x) && multiset(g[x].neighbors)[x] == 1
    requires forall y: nat :: y < |g| && y != x ==> y !in g[y].neighbors
    ensures SelfLoopers(g, s) == [g[x].data]
  {
    var loops := LoopSources(g, s);
    SelfLoopersCounted(g, s);
    forall y: nat
      ensures multiset(loops)[y] == multiset{x}[y]
    {
      if y < |g| && y != x {
        assert multiset(g[y].neighbors)[y] == 0;
      }
    }
    assert multiset(loops) == multiset{x};
    assert |loops| == |multiset(loops)| == 1;
    assert loops[0] in multiset(loops);
    SelfLoopersPrinted(g, s);
  }

  // canReach

  /**
    canReachHelper: true only if `destination` is reachable from `start`. On
    false, `start` is visited, `destination` was not added, and every airport
    the call added has all its outbound flights visited. The call only adds
    airports of the network to `visited`.
   */
  method CanReachHelper(net: seq<Airport>, start: nat, destination: nat, visited: HashSet<nat>)
    returns (r: bool)
    requires WellFormedNetwork(net)
    requires start < |net| && destination < |net|
    modifies visited
    ensures old(visited.elems) <= visited.elems
    ensures forall a :: a in visited.elems && a !in old(visited.elems) ==> a < |net| && a != destination
    ensures r ==> Reachable(Flights(net), start, destination)
    ensures !r ==> start in visited.elems
    ensures !r ==> ClosedOver(Flights(net), visited.elems - old(visited.elems), visited.elems)
    decreases Flights(net).Keys - visited.elems
  {
    if start == destination {
      ReachableRefl(Flights(net), start);
      return true;
    }
    if visited.Contains(start) {
      return false;
    }
    visited.Add(start);
    var flights := net[start].outboundFlights;
    var i := 0;
    while i < |flights|
      invariant 0 <= i <= |flights|
      invariant old(visited.elems) + {start} <= visited.elems
      invariant forall a :: a in visited.elems && a !in old(visited.elems) ==> a < |net| && a != destination
      invariant forall j :: 0 <= j < i ==> flights[j] in visited.elems
      invariant ClosedOver(Flights(net), visited.elems - old(visited.elems) - {start}, visited.elems)
    {
      ghost var before := visited.elems;
      var found := CanReachHelper(net, flights[i], destination, visited);
      if found {
        ReachableStep(Flights(net), start, flights[i], destination);
        return true;
      }
      ClosedGrows(Flights(net), before - old(visited.elems) - {start}, visited.elems - before, before,
                  visited.elems);
      i := i + 1;
    }
    assert ClosedOver(Flights(net), {start}, visited.elems);
    ClosedGrows(Flights(net), visited.elems - old(visited.elems) - {start}, {start}, visited.elems,
                visited.elems);
    return false;
  }

  /** canReach: true exactly when both airports are non-null and a path of flights leads from `start` to `destination`. */
  method CanReach(net: seq<Airport>, start: Option<nat>, destination: Option<nat>) returns (r: bool)
    requires WellFormedNetwork(net)
    requires start.Some? ==> start.value < |net|
    requires destination.Some? ==> destination.value < |net|
    ensures r <==> start.Some? && destination.Some? && Reachable(Flights(net), start.value, destination.value)
    ensures start.Some? && start == destination ==> r
  {
    if start.None? || destination.None? {
      return false;
    }
    var visited := new HashSet<nat>();
    r := CanReachHelper(net, start.value, destination.value, visited);
    if !r && Reachable(Flights(net), start.value, destination.value) {
      ClosedContainsReachable(Flights(net), visited.elems, start.value, destination.value);
      assert false;
    }
    if start == destination {
      ReachableRefl(Flights(net), start.value);
    }
  }

  // unreachable

  /**
    A graph as a map from each vertex to its list of neighbours; a key whose
    list is null (`None`) has no neighbours.
   */
  type AdjacencyMap<T> = map<T, Option<seq<T>>>

  /** The edges of an adjacency map: a null list counts as no neighbours. */
  function Adjacency<T>(graph: AdjacencyMap<T>): (r: Graph<T>)
    ensures r.Keys == graph.Keys
    ensures forall k :: k in graph ==> r[k] == if graph[k].Some? then graph[k].value else []
  {
    map k | k in graph :: if graph[k].Some? then graph[k].value else []
  }

  /** The trace of an unreachableHelper call on `starting`: nothing for a null start. */
  function KeyTrace<T>(graph: AdjacencyMap<T>, starting: Option<T>, visited: set<T>): seq<Event<T>>
  {
    if starting.None? then [] else Walk(Adjacency(graph), starting.value, visited)
  }

  /**
    unreachableHelper: adds to `visited` what the walk from `starting` enters,
    which are keys only (a neighbour that is not a key is never marked), and
    returns `visited`, or null if `starting` is null, not a key or visited.
   */
  method UnreachableHelper<T>(graph: AdjacencyMap<T>, starting: Option<T>, visited: HashSet<T>)
    returns (r: HashSet?<T>)
    modifies visited
    ensures visited.elems == old(visited.elems) + Entered(KeyTrace(graph, starting, old(visited.elems)))
    ensures forall x :: x in visited.elems && x !in old(visited.elems) ==> x in graph
    ensures r == null <==> starting.None? || starting.value !in graph || starting.value in old(visited.elems)
    ensures r != null ==> r == visited
    decreases graph.Keys - visited.elems
  {
    if starting.None? || starting.value !in graph || visited.Contains(starting.value) {
      return null;
    }
    var v := starting.value;
    ghost var goalVisited := old(visited.elems) + Entered(KeyTrace(graph, starting, old(visited.elems)));
    VisitedEnter(Adjacency(graph), v, visited.elems);
    visited.Add(v);
    var neighbors := graph[v];
    if neighbors.Some? {
      var ns := neighbors.value;
      assert ns[0..] == ns;
      var i := 0;
      while i < |ns|
        invariant 0 <= i <= |ns|
        invariant old(visited.elems) + {v} <= visited.elems
        invariant forall x :: x in visited.elems && x !in old(visited.elems) ==> x in graph
        invariant visited.elems + Entered(WalkEdges(Adjacency(graph), v, ns[i..], visited.elems)) == goalVisited
      {
        VisitedStep(Adjacency(graph), v, ns, i, visited.elems);
        var _ := UnreachableHelper(graph, Some(ns[i]), visited);
        i := i + 1;
      }
      WalkEdgesDone(Adjacency(graph), v, ns, visited.elems);
    } else {
      assert WalkEdges(Adjacency(graph), v, [], visited.elems) == [];
    }
    return visited;
  }

  /** The keys of `graph` with no path from `starting`: all keys if `starting` is null. */
  ghost function UnreachableFrom<T(!new)>(graph: AdjacencyMap<T>, starting: Option<T>): (r: set<T>)
    ensures r <= graph.Keys
  {
    set k | k in graph && !(starting.Some? && Reachable(Adjacency(graph), starting.value, k))
  }

  /** unreachable: the set of keys of `graph` that cannot be reached from `starting`. */
  method Unreachable<T(!new)>(graph: AdjacencyMap<T>, starting: Option<T>) returns (unreachable: HashSet<T>)
    ensures fresh(unreachable)
    ensures unreachable.elems == UnreachableFrom(graph, starting)
  {
    unreachable := new HashSet<T>();
    var visited := new HashSet<T>();
    var _ := UnreachableHelper(graph, starting, visited);
    ghost var seen := visited.elems;
    VisitedIsReachable(graph, starting, seen);
    var keys := graph.Keys;
    while keys != {}
      invariant keys <= graph.Keys
      invariant visited.elems == seen
      invariant unreachable.elems == set k | k in graph.Keys - keys && k !in visited.elems
      decreases keys
    {
      var key :| key in keys;
      if !visited.Contains(key) {
        unreachable.Add(key);
      }
      keys := keys - {key};
    }
  }

  /** What unreachableHelper from `starting` visits, with nothing visited before, is exactly the keys reachable from it. */
  lemma VisitedIsReachable<T(!new)>(graph: AdjacencyMap<T>, starting: Option<T>, visited: set<T>)
    requires visited == Entered(KeyTrace(graph, starting, {}))
    ensures forall k :: k in graph ==> (k in visited <==> starting.Some? && Reachable(Adjacency(graph), starting.value, k))
  {
    if starting.Some? {
      PreorderIsReachable(Adjacency(graph), starting.value);
      EnteredIsOrder(Walk(Adjacency(graph), starting.value, {}));
    }
  }

  /** With a null start, or a start that is not a key, every key is unreachable. */
  lemma UnreachableAllKeys<T(!new)>(graph: AdjacencyMap<T>, starting: Option<T>)
    requires starting.None? || starting.value !in graph
    ensures UnreachableFrom(graph, starting) == graph.Keys
  {
    forall k | k in graph
      ensures k in UnreachableFrom(graph, starting)
    {
      if starting.Some? && Reachable(Adjacency(graph), starting.value, k) {
        ReachableEnds(Adjacency(graph), starting.value, k);
      }
    }
  }

  /** A start that is a key reaches itself, so it is never in the result. */
  lemma UnreachableExcludesStart<T(!new)>(graph: AdjacencyMap<T>, s: T)
    requires s in graph
    ensures s !in UnreachableFrom(graph, Some(s))
  {
    ReachableRefl(Adjacency(graph), s);
  }

  /**
    Two maps with the same keys whose lists hold the same neighbours, in any
    order and with any repetition, give the same result.
   */
  lemma UnreachableIgnoresOrder<T(!new)>(g1: AdjacencyMap<T>, g2: AdjacencyMap<T>, starting: Option<T>)
    requires g1.Keys == g2.Keys
    requires forall x, n :: x in g1 ==> (n in Adjacency(g1)[x] <==> n in Adjacency(g2)[x])
    ensures UnreachableFrom(g1, starting) == UnreachableFrom(g2, starting)
  {
    if starting.Some? {
      forall k
        ensures Reachable(Adjacency(g1), starting.value, k) <==> Reachable(Adjacency(g2), starting.value, k)
      {
        ReachableIgnoresOrder(Adjacency(g1), Adjacency(g2), starting.value, k);
      }
    }
  }

  /**
    A set of keys that holds `s`, is closed under the edges and is all
    reachable from `s` is exactly what `s` reaches: the result is the other keys.
   */
  lemma UnreachableComplement<T(!new)>(graph: AdjacencyMap<T>, s: T, reached: set<T>)
    requires s in reached && reached <= graph.Keys
    requires Closed(Adjacency(graph), reached)
    requires forall k :: k in reached ==> Reachable(Adjacency(graph), s, k)
    ensures UnreachableFrom(graph, Some(s)) == graph.Keys - reached
  {
    forall k | k in graph && Reachable(Adjacency(graph), s, k)
      ensures k in reached
    {
      ClosedContainsReachable(Adjacency(graph), reached, s, k);
    }
  }
}
