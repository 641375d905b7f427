/**
  The depth-first traversal shared by the helpers of Build.java, as a
  function that returns the trace of what the traversal does.

  `Walk(graph, v, visited)` mirrors one helper call: nothing happens if `v` is
  not a key or is already visited; otherwise `v` is entered (marked visited)
  and then each neighbour, in list order, is followed and walked in turn, with
  everything entered so far counting as visited. The trace records each entry
  (`Enter`) and each edge followed (`Follow`), so every helper's observable
  effect (what it prints, what it returns, what it adds to `visited`) is a
  function of this one trace.
 */
module Traversal {
  import opened Graphs

  datatype Event<T> = Enter(vertex: T) | Follow(from: T, to: T)

  function Walk<T(==)>(graph: Graph<T>, v: T, visited: set<T>): seq<Event<T>>
    decreases graph.Keys - visited, 0, 0
  {
    if v !in graph || v in visited then []
    else [Enter(v)] + WalkEdges(graph, v, graph[v], visited + {v})
  }

  /** Follows the edges from `from` to each of `ns` in order, walking each neighbour. */
  function WalkEdges<T(==)>(graph: Graph<T>, from: T, ns: seq<T>, visited: set<T>): seq<Event<T>>
    decreases graph.Keys - visited, 1, |ns|
  {
    if ns == [] then []
    else
      var sub := Walk(graph, ns[0], visited);
      [Follow(from, ns[0])] + sub + WalkEdges(graph, from, ns[1..], visited + Entered(sub))
  }

  /** The vertices a trace enters, in the order it enters them. */
  function Order<T>(t: seq<Event<T>>): seq<T>
  {
    if t == [] then []
    else (if t[0].Enter? then [t[0].vertex] else []) + Order(t[1..])
  }

  /** The set of vertices a trace enters. */
  function Entered<T(==)>(t: seq<Event<T>>): set<T>
  {
    if t == [] then {} else (if t[0].Enter? then {t[0].vertex} else {}) + Entered(t[1..])
  }

  /** The source of each edge of the trace that leads back to its own source. */
  function SelfLoops<T(==)>(t: seq<Event<T>>): seq<T>
  {
    if t == [] then []
    else (if t[0].Follow? && t[0].from == t[0].to then [t[0].from] else []) + SelfLoops(t[1..])
  }

  /** The order in which a traversal from `s` with nothing yet visited enters the vertices. */
  function Preorder<T(==)>(graph: Graph<T>, s: T): seq<T>
  {
    Order(Walk(graph, s, {}))
  }

  ghost predicate Distinct<T>(s: seq<T>)
  {
    forall i, j :: 0 <= i < j < |s| ==> s[i] != s[j]
  }

  lemma OrderAppend<T>(a: seq<Event<T>>, b: seq<Event<T>>)
    ensures Order(a + b) == Order(a) + Order(b)
  {
    if a != [] {
      assert (a + b)[0] == a[0] && (a + b)[1..] == a[1..] + b;
      OrderAppend(a[1..], b);
      var head := if a[0].Enter? then [a[0].vertex] else [];
      calc {
        Order(a + b);
        head + Order(a[1..] + b);
        head + (Order(a[1..]) + Order(b));
        (head + Order(a[1..])) + Order(b);
      }
    } else {
      assert a + b == b;
    }
  }

  lemma SelfLoopsAppend<T>(a: seq<Event<T>>, b: seq<Event<T>>)
    ensures SelfLoops(a + b) == SelfLoops(a) + SelfLoops(b)
  {
    if a != [] {
      assert (a + b)[0] == a[0] && (a + b)[1..] == a[1..] + b;
      SelfLoopsAppend(a[1..], b);
      var head := if a[0].Follow? && a[0].from == a[0].to then [a[0].from] else [];
      calc {
        SelfLoops(a + b);
        head + SelfLoops(a[1..] + b);
        head + (SelfLoops(a[1..]) + SelfLoops(b));
        (head + SelfLoops(a[1..])) + SelfLoops(b);
      }
    } else {
      assert a + b == b;
    }
  }

  lemma DistinctAppend<T>(a: seq<T>, b: seq<T>)
    requires Distinct(a) && Distinct(b)
    requires forall x :: x in a ==> x !in b
    ensures Distinct(a + b)
  {
    forall i, j | 0 <= i < j < |a + b|
      ensures (a + b)[i] != (a + b)[j]
    {
      if j < |a| {
      } else if i >= |a| {
        assert (a + b)[i] == b[i - |a|] && (a + b)[j] == b[j - |a|];
      } else {
        assert (a + b)[i] in a && (a + b)[j] in b;
      }
    }
  }

  /** A walk enters only keys that were not yet visited, and none of them twice. */
  lemma {:induction false} WalkFresh<T>(graph: Graph<T>, v: T, visited: set<T>)
    ensures Distinct(Order(Walk(graph, v, visited)))
    ensures forall x :: x in Order(Walk(graph, v, visited)) ==> x in graph && x !in visited
    decreases graph.Keys - visited, 0, 0
  {
    if v in graph && v !in visited {
      var rest := WalkEdges(graph, v, graph[v], visited + {v});
      WalkEdgesFresh(graph, v, graph[v], visited + {v});
      EnterSplit(v, rest);
      DistinctAppend([v], Order(rest));
    }
  }

  lemma {:induction false} WalkEdgesFresh<T>(graph: Graph<T>, from: T, ns: seq<T>, visited: set<T>)
    ensures Distinct(Order(WalkEdges(graph, from, ns, visited)))
    ensures forall x :: x in Order(WalkEdges(graph, from, ns, visited)) ==> x in graph && x !in visited
    decreases graph.Keys - visited, 1, |ns|
  {
    if ns != [] {
      var sub := Walk(graph, ns[0], visited);
      var rest := WalkEdges(graph, from, ns[1..], visited + Entered(sub));
      WalkFresh(graph, ns[0], visited);
      WalkEdgesFresh(graph, from, ns[1..], visited + Entered(sub));
      TraceSplit(from, ns[0], sub, rest);
      EnteredIsOrder(sub);
      DistinctAppend(Order(sub), Order(rest));
    }
  }

  /**
    After a walk from a key `v`, `v` is visited and every edge out of a newly
    entered vertex leads to a visited vertex.
   */
  lemma {:induction false} WalkCloses<T>(graph: Graph<T>, v: T, visited: set<T>)
    ensures v in graph ==> v in visited + Entered(Walk(graph, v, visited))
    ensures ClosedOver(graph, Entered(Walk(graph, v, visited)), visited + Entered(Walk(graph, v, visited)))
    decreases graph.Keys - visited, 0, 0
  {
    if v in graph && v !in visited {
      var rest := WalkEdges(graph, v, graph[v], visited + {v});
      WalkEdgesCloses(graph, v, graph[v], visited + {v});
      EnterSplit(v, rest);
    }
  }

  lemma {:induction false} WalkEdgesCloses<T>(graph: Graph<T>, from: T, ns: seq<T>, visited: set<T>)
    ensures forall n :: n in ns && n in graph ==> n in visited + Entered(WalkEdges(graph, from, ns, visited))
    ensures ClosedOver(graph, Entered(WalkEdges(graph, from, ns, visited)),
                       visited + Entered(WalkEdges(graph, from, ns, visited)))
    decreases graph.Keys - visited, 1, |ns|
  {
    if ns != [] {
      var sub := Walk(graph, ns[0], visited);
      var rest := WalkEdges(graph, from, ns[1..], visited + Entered(sub));
      WalkCloses(graph, ns[0], visited);
      WalkEdgesCloses(graph, from, ns[1..], visited + Entered(sub));
      TraceSplit(from, ns[0], sub, rest);
      assert Entered(WalkEdges(graph, from, ns, visited)) == Entered(sub) + Entered(rest);
      forall n | n in ns && n in graph
        ensures n in visited + Entered(sub) + Entered(rest)
      {
        if n != ns[0] {
          assert n in ns[1..];
        }
      }
    }
  }

  /** Everything a walk from `v` enters is reachable from `v`. */
  lemma {:induction false} WalkSound<T(!new)>(graph: Graph<T>, v: T, visited: set<T>)
    ensures forall x :: x in Order(Walk(graph, v, visited)) ==> Reachable(graph, v, x)
    decreases graph.Keys - visited, 0, 0
  {
    if v in graph && v !in visited {
      var rest := WalkEdges(graph, v, graph[v], visited + {v});
      WalkEdgesSound(graph, v, graph[v], visited + {v});
      EnterSplit(v, rest);
      ReachableRefl(graph, v);
    }
  }

  lemma {:induction false} WalkEdgesSound<T(!new)>(graph: Graph<T>, from: T, ns: seq<T>, visited: set<T>)
    requires from in graph && forall n :: n in ns ==> n in graph[from]
    ensures forall x :: x in Order(WalkEdges(graph, from, ns, visited)) ==> Reachable(graph, from, x)
    decreases graph.Keys - visited, 1, |ns|
  {
    if ns != [] {
      var sub := Walk(graph, ns[0], visited);
      var rest := WalkEdges(graph, from, ns[1..], visited + Entered(sub));
      WalkSound(graph, ns[0], visited);
      WalkEdgesSound(graph, from, ns[1..], visited + Entered(sub));
      TraceSplit(from, ns[0], sub, rest);
      forall x | x in Order(sub)
        ensures Reachable(graph, from, x)
      {
        ReachableStep(graph, from, ns[0], x);
      }
    }
  }

  /** How many times a vertex lists itself as a neighbour, if it is among `entered`. */
  ghost function LoopCount<T>(graph: Graph<T>, entered: set<T>, x: T): nat
  {
    if x in entered && x in graph then multiset(graph[x])[x] else 0
  }

  /**
    `loops` holds each vertex `x` once for every time `x` occurs in its own
    neighbour list when `x` is in `entered`, plus, for `from`, once for every
    time it occurs in `ns`.
   */
  ghost predicate LoopsCounted<T(!new)>(graph: Graph<T>, loops: seq<T>, from: T, ns: seq<T>, entered: set<T>)
  {
    forall x :: multiset(loops)[x] == (if x == from then multiset(ns)[x] else 0) + LoopCount(graph, entered, x)
  }

  /**
    A walk reports each vertex it enters as a self-loop once per occurrence of
    that vertex in its own neighbour list, and reports nothing else.
   */
  lemma {:induction false} WalkSelfLoops<T(!new)>(graph: Graph<T>, v: T, visited: set<T>)
    ensures LoopsCounted(graph, SelfLoops(Walk(graph, v, visited)), v, [], Entered(Walk(graph, v, visited)))
    decreases graph.Keys - visited, 0, 0
  {
    if v in graph && v !in visited {
      var t := Walk(graph, v, visited);
      var rest := WalkEdges(graph, v, graph[v], visited + {v});
      EnterSplit(v, rest);
      WalkEdgesFresh(graph, v, graph[v], visited + {v});
      EnteredIsOrder(rest);
      WalkEdgesSelfLoops(graph, v, graph[v], visited + {v});
      EnterCounts(graph, v, SelfLoops(rest), Entered(t), Entered(rest));
    }
  }

  lemma EnterCounts<T(!new)>(graph: Graph<T>, v: T, loops: seq<T>, entered: set<T>, later: set<T>)
    requires v in graph && v !in later && entered == {v} + later
    requires LoopsCounted(graph, loops, v, graph[v], later)
    ensures LoopsCounted(graph, loops, v, [], entered)
  {
  }

  lemma {:induction false} WalkEdgesSelfLoops<T(!new)>(graph: Graph<T>, from: T, ns: seq<T>, visited: set<T>)
    ensures LoopsCounted(graph, SelfLoops(WalkEdges(graph, from, ns, visited)), from, ns,
                         Entered(WalkEdges(graph, from, ns, visited)))
    decreases graph.Keys - visited, 1, |ns|
  {
    if ns != [] {
      var sub := Walk(graph, ns[0], visited);
      WalkSelfLoops(graph, ns[0], visited);
      WalkEdgesSelfLoops(graph, from, ns[1..], visited + Entered(sub));
      WalkEdgesCounts(graph, from, ns, visited);
    }
  }

  /** The self-loop count of following the edges to `ns`, from those of its two parts. */
  lemma WalkEdgesCounts<T(!new)>(graph: Graph<T>, from: T, ns: seq<T>, visited: set<T>)
    requires ns != []
    requires LoopsCounted(graph, SelfLoops(Walk(graph, ns[0], visited)), ns[0], [],
                          Entered(Walk(graph, ns[0], visited)))
    requires var rest := WalkEdges(graph, from, ns[1..], visited + Entered(Walk(graph, ns[0], visited)));
      LoopsCounted(graph, SelfLoops(rest), from, ns[1..], Entered(rest))
    ensures LoopsCounted(graph, SelfLoops(WalkEdges(graph, from, ns, visited)), from, ns,
                         Entered(WalkEdges(graph, from, ns, visited)))
  {
    var t := WalkEdges(graph, from, ns, visited);
    var sub := Walk(graph, ns[0], visited);
    var rest := WalkEdges(graph, from, ns[1..], visited + Entered(sub));
    WalkEdgesSplit(graph, from, ns, visited);
    FollowCounts(graph, from, ns, SelfLoops(t), SelfLoops(sub), SelfLoops(rest),
                 Entered(t), Entered(sub), Entered(rest));
  }

  /** How the trace of following the edges to `ns` splits into the first neighbour's walk and the rest. */
  lemma WalkEdgesSplit<T>(graph: Graph<T>, from: T, ns: seq<T>, visited: set<T>)
    requires ns != []
    ensures var t := WalkEdges(graph, from, ns, visited);
      var sub := Walk(graph, ns[0], visited);
      var rest := WalkEdges(graph, from, ns[1..], visited + Entered(sub));
      && SelfLoops(t) == (if from == ns[0] then [from] else []) + SelfLoops(sub) + SelfLoops(rest)
      && Order(t) == Order(sub) + Order(rest)
      && Entered(t) == Entered(sub) + Entered(rest)
      && Entered(sub) !! Entered(rest)
  {
    var sub := Walk(graph, ns[0], visited);
    var rest := WalkEdges(graph, from, ns[1..], visited + Entered(sub));
    TraceSplit(from, ns[0], sub, rest);
    WalkEdgesFresh(graph, from, ns[1..], visited + Entered(sub));
    EnteredIsOrder(rest);
  }

  lemma EnterSplit<T>(v: T, rest: seq<Event<T>>)
    ensures var t := [Enter(v)] + rest;
      && SelfLoops(t) == SelfLoops(rest)
      && Order(t) == [v] + Order(rest)
      && Entered(t) == {v} + Entered(rest)
  {
    var t := [Enter(v)] + rest;
    assert t[1..] == rest;
    forall x
      ensures x in Entered(t) <==> x in {v} + Entered(rest)
    {
      assert x in Order(t) <==> x == v || x in Order(rest);
    }
  }

  lemma TraceSplit<T>(from: T, to: T, sub: seq<Event<T>>, rest: seq<Event<T>>)
    ensures var t := [Follow(from, to)] + sub + rest;
      && SelfLoops(t) == (if from == to then [from] else []) + SelfLoops(sub) + SelfLoops(rest)
      && Order(t) == Order(sub) + Order(rest)
      && Entered(t) == Entered(sub) + Entered(rest)
  {
    var head := [Follow(from, to)];
    FollowAlone(from, to);
    SelfLoopsAppend(head + sub, rest);
    SelfLoopsAppend(head, sub);
    OrderAppend(head + sub, rest);
    OrderAppend(head, sub);
    assert [] + Order(sub) == Order(sub);
    EnteredAppend(head + sub, rest);
    EnteredAppend(head, sub);
  }

  /** A trace of one followed edge enters nothing and reports a self-loop only if the edge is one. */
  lemma FollowAlone<T>(from: T, to: T)
    ensures SelfLoops([Follow(from, to)]) == (if from == to then [from] else [])
    ensures Order([Follow(from, to)]) == [] && Entered([Follow(from, to)]) == {}
  {
    assert [Follow(from, to)][1..] == [];
  }

  /** One iteration of a helper's loop over the neighbours `ns`, from position `i`. */
  lemma WalkEdgesStep<T>(graph: Graph<T>, from: T, ns: seq<T>, i: nat, visited: set<T>)
    requires i < |ns|
    ensures WalkEdges(graph, from, ns[i..], visited) ==
      [Follow(from, ns[i])] + Walk(graph, ns[i], visited) +
      WalkEdges(graph, from, ns[i + 1..], visited + Entered(Walk(graph, ns[i], visited)))
  {
    assert ns[i..][0] == ns[i] && ns[i..][1..] == ns[i + 1..];
  }

  /**
    One iteration of a helper's loop over the neighbours `ns`, seen through the
    visited set: what the edges from position `i` onwards will have visited is
    what the walk from `ns[i]` visits and then what the edges after it visit.
   */
  lemma VisitedStep<T>(graph: Graph<T>, from: T, ns: seq<T>, i: nat, visited: set<T>)
    requires i < |ns|
    ensures visited + Entered(WalkEdges(graph, from, ns[i..], visited)) ==
      (visited + Entered(Walk(graph, ns[i], visited))) +
      Entered(WalkEdges(graph, from, ns[i + 1..], visited + Entered(Walk(graph, ns[i], visited))))
  {
    var sub := Walk(graph, ns[i], visited);
    var rest := WalkEdges(graph, from, ns[i + 1..], visited + Entered(sub));
    WalkEdgesStep(graph, from, ns, i, visited);
    TraceSplit(from, ns[i], sub, rest);
  }

  /** A helper call that enters `v` visits `v` and then what its loop over the neighbours of `v` visits. */
  lemma VisitedEnter<T>(graph: Graph<T>, v: T, visited: set<T>)
    requires v in graph && v !in visited
    ensures visited + Entered(Walk(graph, v, visited)) ==
      (visited + {v}) + Entered(WalkEdges(graph, v, graph[v], visited + {v}))
  {
    EnterSplit(v, WalkEdges(graph, v, graph[v], visited + {v}));
  }

  /** Once its loop has followed every edge, nothing remains to walk. */
  lemma WalkEdgesDone<T>(graph: Graph<T>, from: T, ns: seq<T>, visited: set<T>)
    ensures WalkEdges(graph, from, ns[|ns|..], visited) == []
    ensures Entered(WalkEdges(graph, from, ns[|ns|..], visited)) == {}
  {
    assert ns[|ns|..] == [];
  }

  lemma {:induction false} EnteredIsOrder<T>(t: seq<Event<T>>)
    ensures forall x :: x in Entered(t) <==> x in Order(t)
  {
    if t != [] {
      EnteredIsOrder(t[1..]);
    }
  }

  lemma EnteredAppend<T>(a: seq<Event<T>>, b: seq<Event<T>>)
    ensures Entered(a + b) == Entered(a) + Entered(b)
  {
    if a != [] {
      assert (a + b)[0] == a[0] && (a + b)[1..] == a[1..] + b;
      EnteredAppend(a[1..], b);
    } else {
      assert a + b == b;
    }
  }

  lemma FollowCounts<T(!new)>(graph: Graph<T>, from: T, ns: seq<T>, loops: seq<T>,
                        first: seq<T>, later: seq<T>,
                        entered: set<T>, enteredFirst: set<T>, enteredLater: set<T>)
    requires ns != []
    requires entered == enteredFirst + enteredLater
    requires loops == (if from == ns[0] then [from] else []) + first + later
    requires enteredFirst !! enteredLater
    requires LoopsCounted(graph, first, ns[0], [], enteredFirst)
    requires LoopsCounted(graph, later, from, ns[1..], enteredLater)
    ensures LoopsCounted(graph, loops, from, ns, entered)
  {
    assert ns == [ns[0]] + ns[1..];
  }

  /**
    The preorder of a traversal from `s` lists every vertex reachable from `s`
    exactly once, starting with `s` itself, and nothing else.
   */
  lemma PreorderIsReachable<T(!new)>(graph: Graph<T>, s: T)
    ensures s in graph ==> |Preorder(graph, s)| > 0 && Preorder(graph, s)[0] == s
    ensures Distinct(Preorder(graph, s))
    ensures forall x :: x in Preorder(graph, s) <==> Reachable(graph, s, x)
  {
    var t := Walk(graph, s, {});
    WalkFresh(graph, s, {});
    WalkCloses(graph, s, {});
    WalkSound(graph, s, {});
    if s in graph {
      EnterSplit(s, WalkEdges(graph, s, graph[s], {s}));
    }
    EnteredIsOrder(t);
    forall x | Reachable(graph, s, x)
      ensures x in Order(t)
    {
      ReachableEnds(graph, s, x);
      assert {} + Entered(t) == Entered(t);
      ClosedContainsReachable(graph, Entered(t), s, x);
    }
  }

  /**
    A traversal from `s` with nothing visited reports a vertex as a self-loop
    exactly as many times as it lists itself among its neighbours if it is
    reachable from `s`, and never if it is not.
   */
  lemma SelfLoopsOfWalk<T(!new)>(graph: Graph<T>, s: T)
    ensures forall x ::
      multiset(SelfLoops(Walk(graph, s, {})))[x] ==
        if x in graph && Reachable(graph, s, x) then multiset(graph[x])[x] else 0
  {
    WalkSelfLoops(graph, s, {});
    PreorderIsReachable(graph, s);
    EnteredIsOrder(Walk(graph, s, {}));
  }
}
