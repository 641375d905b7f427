/**
  The fixtures of BuildTest.java as values, with what the model says about
  them: the airport network (ATL, JFK, ... PHX) and the adjacency map of the
  "complex graph" with keys 3, 7, ... 67.
 */
module Fixtures {
  import opened Runtime
  import opened Graphs
  import opened Build

  const ATL: nat := 0
  const JFK: nat := 1
  const ORD: nat := 2
  const SFO: nat := 3
  const DEN: nat := 4
  const MIA: nat := 5
  const SEA: nat := 6
  const DFW: nat := 7
  const LAS: nat := 8
  const PHX: nat := 9

  /** The full names of the airports, in the order of the constants above. */
  const AirportNames: seq<string> := [
    "Hartsfield\U{2013}Jackson Atlanta International Airport", "John F. Kennedy International Airport",
    "O'Hare International Airport", "San Francisco International Airport", "Denver International Airport",
    "Miami International Airport", "Seattle-Tacoma International Airport",
    "Dallas/Fort Worth International Airport", "McCarran International Airport",
    "Phoenix Sky Harbor International Airport"]

  /**
    The airport network, each airport at the index of its constant above and
    named by `names`; the lemmas below hold whatever the names.
   */
  function AirportNetwork(names: seq<string>): seq<Airport>
    requires |names| == 10
  {
    [ Airport(names[ATL], "ATL", [JFK, SFO]),
      Airport(names[JFK], "JFK", [ORD, DFW, SFO, DEN]),
      Airport(names[ORD], "ORD", [JFK, DEN, MIA]),
      Airport(names[SFO], "SFO", [SEA]),
      Airport(names[DEN], "DEN", [MIA]),
      Airport(names[MIA], "MIA", [SEA]),
      Airport(names[SEA], "SEA", [DEN]),
      Airport(names[DFW], "DFW", [LAS]),
      Airport(names[LAS], "LAS", []),
      Airport(names[PHX], "PHX", [SEA]) ]
  }

  /** The flights of the network, written out. */
  function Routes(): Graph<nat>
  {
    map[ATL := [JFK, SFO], JFK := [ORD, DFW, SFO, DEN], ORD := [JFK, DEN, MIA], SFO := [SEA],
        DEN := [MIA], MIA := [SEA], SEA := [DEN], DFW := [LAS], LAS := [], PHX := [SEA]]
  }

  lemma AirportNetworkWellFormed(names: seq<string>)
    requires |names| == 10
    ensures WellFormedNetwork(AirportNetwork(names))
  {
  }

  lemma AirportNetworkRoutes(names: seq<string>)
    requires |names| == 10
    ensures Flights(AirportNetwork(names)) == Routes()
  {
  }

  /** ATL reaches LAS, through JFK and DFW. */
  lemma AtlReachesLas(names: seq<string>)
    requires |names| == 10
    ensures Reachable(Flights(AirportNetwork(names)), ATL, LAS)
  {
    AirportNetworkRoutes(names);
    assert IsPath(Routes(), [ATL, JFK, DFW, LAS]);
  }

  /** The airports other than PHX. */
  function NotPhx(): set<nat>
  {
    {ATL, JFK, ORD, SFO, DEN, MIA, SEA, DFW, LAS}
  }

  lemma NotPhxClosed()
    ensures Closed(Routes(), NotPhx())
  {
  }

  /** No flight leaves the airports other than PHX for PHX, so ATL does not reach PHX. */
  lemma AtlMissesPhx(names: seq<string>)
    requires |names| == 10
    ensures !Reachable(Flights(AirportNetwork(names)), ATL, PHX)
  {
    AirportNetworkRoutes(names);
    NotPhxClosed();
    if Reachable(Routes(), ATL, PHX) {
      ClosedContainsReachable(Routes(), NotPhx(), ATL, PHX);
    }
  }

  /** The network as the test builds it, with its full airport names: ATL reaches LAS but not PHX. */
  lemma NamedAirportNetwork()
    ensures |AirportNames| == 10
    ensures Reachable(Flights(AirportNetwork(AirportNames)), ATL, LAS)
    ensures !Reachable(Flights(AirportNetwork(AirportNames)), ATL, PHX)
  {
    AtlReachesLas(AirportNames);
    AtlMissesPhx(AirportNames);
  }

  /** The adjacency map of the complex graph; every key has a list. */
  function ComplexMap(): AdjacencyMap<int>
  {
    map[3 := Some([7, 34]), 7 := Some([12, 45, 34, 56]), 12 := Some([7, 56, 78]),
        34 := Some([34, 91]), 56 := Some([78]), 78 := Some([91]), 91 := Some([56]),
        45 := Some([23]), 23 := Some([]), 67 := Some([91])]
  }

  /** The edges of the complex map, written out. */
  function ComplexEdges(): Graph<int>
  {
    map[3 := [7, 34], 7 := [12, 45, 34, 56], 12 := [7, 56, 78], 34 := [34, 91], 56 := [78],
        78 := [91], 91 := [56], 45 := [23], 23 := [], 67 := [91]]
  }

  lemma ComplexMapEdges()
    ensures Adjacency(ComplexMap()) == ComplexEdges()
  {
  }

  /** What 3 reaches in the complex map. */
  function FromThree(): set<int>
  {
    {3, 7, 12, 34, 56, 78, 91, 45, 23}
  }

  lemma FromThreeReached()
    ensures forall k :: k in FromThree() ==> Reachable(ComplexEdges(), 3, k)
  {
    var edges := ComplexEdges();
    assert 7 in edges[3] && 34 in edges[3];
    assert 12 in edges[7] && 45 in edges[7] && 56 in edges[7];
    assert 78 in edges[12] && 91 in edges[34] && 23 in edges[45];
    ReachableRefl(edges, 3);
    ReachableExtend(edges, 3, 3, 7);
    ReachableExtend(edges, 3, 3, 34);
    ReachableExtend(edges, 3, 7, 12);
    ReachableExtend(edges, 3, 7, 45);
    ReachableExtend(edges, 3, 7, 56);
    ReachableExtend(edges, 3, 12, 78);
    ReachableExtend(edges, 3, 34, 91);
    ReachableExtend(edges, 3, 45, 23);
  }

  lemma FromThreeClosed()
    ensures Closed(ComplexEdges(), FromThree())
  {
  }

  /** From 3 every key but 67 is reachable: 67 is the only unreachable key. */
  lemma ComplexMapUnreachable()
    ensures UnreachableFrom(ComplexMap(), Some(3)) == {67}
  {
    ComplexMapEdges();
    FromThreeReached();
    FromThreeClosed();
    UnreachableComplement(ComplexMap(), 3, FromThree());
    assert ComplexMap().Keys - FromThree() == {67};
  }

  /** The complex graph as vertices: `V3` is the vertex holding 3, and so on. */
  const V3: nat := 0
  const V7: nat := 1
  const V12: nat := 2
  const V34: nat := 3
  const V56: nat := 4
  const V78: nat := 5
  const V91: nat := 6
  const V45: nat := 7
  const V23: nat := 8
  const V67: nat := 9

  function ComplexGraph(): seq<Vertex<int>>
  {
    [ Vertex(3, [V7, V34]), Vertex(7, [V12, V45, V34, V56]), Vertex(12, [V7, V56, V78]),
      Vertex(34, [V34, V91]), Vertex(56, [V78]), Vertex(78, [V91]), Vertex(91, [V56]),
      Vertex(45, [V23]), Vertex(23, []), Vertex(67, [V91]) ]
  }

  /** Only v34 lists itself, once, and v3 reaches it: printSelfLoopers from v3 prints 34 alone. */
  lemma ComplexGraphSelfLoopers()
    ensures SelfLoopers(ComplexGraph(), V3) == [34]
  {
    var g := ComplexGraph();
    assert Edges(g)[V3] == [V7, V34];
    assert IsPath(Edges(g), [V3, V34]);
    assert multiset(g[V34].neighbors)[V34] == 1;
    SelfLoopersSingle(g, V3, V34);
  }
}
