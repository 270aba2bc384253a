/**
 * The discrete parts of the System 4 and System 5 states: the 12-stage
 * cycle of System 4 with its expressive and regenerative stages, and the
 * tetrahedron of System 5 with its 4 vertices, 6 edges, 4 faces and 18
 * services, its three concurrent streams and its step triads.
 */
module Systems {
  import opened Decimal
  import opened Symmetries
  import opened Arith

  // ---------------------------------------------------------------------------
  // System 4: the 12-stage cycle
  // ---------------------------------------------------------------------------

  /** A System 4 state, reduced to its stage (the nine position weights are not modelled). */
  datatype System4State = System4State(stage: int)

  /** System4State(values, stage): the stage is stored modulo 12. */
  function NewSystem4State(stage: int): (s: System4State)
    ensures 0 <= s.stage < 12
    ensures (stage - s.stage) % 12 == 0
  {
    System4State(stage % 12)
  }

  /** advance_stage: a new state one stage on. */
  function AdvanceStage(s: System4State): System4State
  {
    NewSystem4State(s.stage + 1)
  }

  const ExpressiveStages: seq<int> := [0, 1, 2, 4, 5, 8, 9]

  predicate IsExpressive(stage: int)
  {
    stage in ExpressiveStages
  }

  /** expressive_regenerative_mode. */
  function Mode(s: System4State): string
  {
    if IsExpressive(s.stage) then "expressive" else "regenerative"
  }

  /** Advancing k times from a stored stage s gives stage (s + k) % 12. */
  function AdvanceTimes(s: System4State, k: nat): System4State
  {
    if k == 0 then s else AdvanceStage(AdvanceTimes(s, k - 1))
  }

  /** The number of expressive stages among 0..n-1. */
  function ExpressiveCount(n: nat): nat
  {
    if n == 0 then 0
    else ExpressiveCount(n - 1) + (if IsExpressive(n - 1) then 1 else 0)
  }

  /** A stored stage is the same as the stage reduced modulo 12. */
  lemma NewStateStage(stage: int)
    ensures NewSystem4State(stage).stage == stage % 12
    ensures 0 <= stage < 12 ==> NewSystem4State(stage).stage == stage
  {
  }

  /** Advancing once moves to the next stage, and from 11 back to 0. */
  lemma AdvanceNext(s: System4State)
    requires 0 <= s.stage < 12
    ensures AdvanceStage(s).stage == if s.stage == 11 then 0 else s.stage + 1
  {
  }

  /** k advances from a stored stage land on (stage + k) % 12, so twelve advances come back. */
  lemma {:induction false} AdvanceTimesStage(s: System4State, k: nat)
    requires 0 <= s.stage < 12
    ensures AdvanceTimes(s, k).stage == (s.stage + k) % 12
  {
    if k > 0 {
      AdvanceTimesStage(s, k - 1);
      var x := s.stage + k;
      var t := AdvanceTimes(s, k - 1);
      assert t.stage == (x - 1) % 12;
      assert AdvanceTimes(s, k).stage == (t.stage + 1) % 12;
      ModShiftTwice(x, -1, 1, 12);
    }
  }

  /** Twelve advances come back to the stage, and no fewer do. */
  lemma CycleOfTwelve(s: System4State)
    requires 0 <= s.stage < 12
    ensures AdvanceTimes(s, 12) == s
    ensures forall k :: 0 < k < 12 ==> AdvanceTimes(s, k) != s
  {
    AdvanceTimesStage(s, 12);
    DivModUnique(s.stage + 12, 12, 1, s.stage);
    forall k | 0 < k < 12
      ensures AdvanceTimes(s, k) != s
    {
      AdvanceTimesStage(s, k);
      var x := s.stage + k;
      var r := if x < 12 then x else x - 12;
      DivModUnique(x, 12, if x < 12 then 0 else 1, r);
      assert AdvanceTimes(s, k).stage == r != s.stage;
    }
  }

  /** A stage is expressive exactly when it is one of 0, 1, 2, 4, 5, 8, 9. */
  lemma ModeCases(s: System4State)
    ensures Mode(s) == "expressive" <==>
      (s.stage == 0 || s.stage == 1 || s.stage == 2 || s.stage == 4 || s.stage == 5 || s.stage == 8 || s.stage == 9)
    ensures Mode(s) != "expressive" ==> Mode(s) == "regenerative"
  {
  }

  /** Seven of the twelve stages are expressive and five regenerative. */
  lemma SevenExpressive()
    ensures ExpressiveCount(12) == 7
  {
    assert IsExpressive(0) && IsExpressive(1) && IsExpressive(2) && !IsExpressive(3);
    assert IsExpressive(4) && IsExpressive(5) && !IsExpressive(6) && !IsExpressive(7);
    assert IsExpressive(8) && IsExpressive(9) && !IsExpressive(10) && !IsExpressive(11);
    assert ExpressiveCount(3) == 3;
    assert ExpressiveCount(6) == 5;
    assert ExpressiveCount(9) == 6;
  }

  // ---------------------------------------------------------------------------
  // System 5: the tetrahedron
  // ---------------------------------------------------------------------------

  /** An edge between two vertex ids (its weight is not modelled). */
  datatype DyadicEdge = DyadicEdge(vertex1Id: int, vertex2Id: int)

  /** A face: its three vertex ids and the edges among them. */
  datatype TriadicFace = TriadicFace(vertexIds: seq<int>, edges: seq<DyadicEdge>)

  /** The edges (i, j), i < j < 4, for the first i rows of the double loop, in loop order. */
  function EdgesBelow(i: int): (r: seq<DyadicEdge>)
    requires 0 <= i <= 4
  {
    if i == 0 then [] else EdgesBelow(i - 1) + EdgeRow(i - 1, 4 - i)
  }

  /** The first n edges of row i: (i, i + 1), (i, i + 2), ... */
  function EdgeRow(i: int, n: nat): seq<DyadicEdge>
  {
    seq(n, k => DyadicEdge(i, i + 1 + k))
  }

  /** The edge list of a System 5 state. */
  function Edges(): seq<DyadicEdge>
  {
    EdgesBelow(4)
  }

  /** The ids 0..3 except the excluded one, ascending: tuple(i for i in range(4) if i != excluded). */
  function FaceVertexIds(excluded: int): seq<int>
  {
    IdsFrom(excluded, 0)
  }

  /** The ids i..3 except the excluded one, ascending. */
  function IdsFrom(excluded: int, i: nat): seq<int>
    decreases 4 - i
  {
    if i >= 4 then [] else (if i != excluded then [i] else []) + IdsFrom(excluded, i + 1)
  }

  /** The edges of es with both ends among ids, in the order of es. */
  function EdgesAmong(es: seq<DyadicEdge>, ids: seq<int>): seq<DyadicEdge>
  {
    EdgesAmongFrom(es, ids, 0)
  }

  /** The edges es[i..] with both ends among ids, in order. */
  function EdgesAmongFrom(es: seq<DyadicEdge>, ids: seq<int>, i: nat): seq<DyadicEdge>
    decreases |es| - i
  {
    if i >= |es| then []
    else (if es[i].vertex1Id in ids && es[i].vertex2Id in ids then [es[i]] else []) + EdgesAmongFrom(es, ids, i + 1)
  }

  /** The face opposite vertex excluded. */
  function Face(excluded: int, edges: seq<DyadicEdge>): TriadicFace
  {
    var ids := FaceVertexIds(excluded);
    TriadicFace(ids, EdgesAmong(edges, ids))
  }

  /** The three polarities of the services. */
  const Polarities: seq<string> := ["D-T", "P-O", "S-M"]

  /** The key f"{polarity}_{i+1}". */
  function ServiceKey(polarity: int, i: int): string
    requires 0 <= polarity < 3 && 0 <= i
  {
    Polarities[polarity] + "_" + NatToString(i + 1)
  }

  /** The service keys in insertion order: six per polarity. */
  function ServiceKeys(): (keys: seq<string>)
    ensures |keys| == 18
  {
    seq(18, k requires 0 <= k < 18 => ServiceKey(k / 6, k % 6))
  }

  /** Builds the six edges with the double loop over i < j < 4. */
  method BuildEdges() returns (edges: seq<DyadicEdge>)
    ensures edges == Edges()
  {
    edges := [];
    for i := 0 to 4
      invariant edges == EdgesBelow(i)
    {
      for j := i + 1 to 4
        invariant edges == EdgesBelow(i) + EdgeRow(i, j - (i + 1))
      {
        assert EdgeRow(i, j - i) == EdgeRow(i, j - (i + 1)) + [DyadicEdge(i, j)];
        edges := edges + [DyadicEdge(i, j)];
      }
    }
  }

  /** Builds the four faces, one per excluded vertex. */
  method BuildFaces(edges: seq<DyadicEdge>) returns (faces: seq<TriadicFace>)
    ensures faces == seq(4, e => Face(e, edges))
  {
    faces := [];
    for excluded := 0 to 4
      invariant faces == seq(excluded, e => Face(e, edges))
    {
      var vertexIds := FaceVertexIds(excluded);
      var faceEdges := EdgesAmong(edges, vertexIds);
      faces := faces + [TriadicFace(vertexIds, faceEdges)];
    }
  }

  /** _init_services: for each polarity, six keys numbered 1 to 6 (the weights 1/18 are not modelled). */
  method InitServices() returns (services: seq<string>)
    ensures services == ServiceKeys()
  {
    var polarities := Polarities;
    services := [];
    for p := 0 to 3
      invariant services == ServiceKeys()[..6 * p]
    {
      for i := 0 to 6
        invariant services == ServiceKeys()[..6 * p + i]
      {
        var key := polarities[p] + "_" + NatToString(i + 1);
        assert ServiceKeys()[6 * p + i] == ServiceKey(p, i) by {
          assert (6 * p + i) / 6 == p && (6 * p + i) % 6 == i;
        }
        assert ServiceKeys()[..6 * p + i + 1] == ServiceKeys()[..6 * p + i] + [key];
        services := services + [key];
      }
    }
  }

  /** A System 5 state as built by its constructor (vertex values and weights are not modelled). */
  class System5State {
    var vertices: seq<TetrahedralVertex<int>>
    var edges: seq<DyadicEdge>
    var faces: seq<TriadicFace>
    var services: seq<string>

    /** Four vertices carrying their thread ids, then the edges, the faces and the service keys. */
    constructor ()
      ensures vertices == seq(4, i => TetrahedralVertex(i, i))
      ensures edges == Edges()
      ensures faces == seq(4, e => Face(e, Edges()))
      ensures services == ServiceKeys()
    {
      vertices := seq(4, i => TetrahedralVertex(i, i));
      var es := BuildEdges();
      edges := es;
      var fs := BuildFaces(es);
      faces := fs;
      var keys := InitServices();
      services := keys;
    }
  }

  /** phase_angle(stream): (stream * 120) % 360. */
  function PhaseAngle(stream: int): (a: int)
  {
    (stream * 120) % 360
  }

  /** step_triad(step): the base (step - 1) % 4 + 1 and the steps four and eight after it. */
  function StepTriad(step: int): (int, int, int)
  {
    var base := (step - 1) % 4 + 1;
    (base, base + 4, base + 8)
  }

  // ---------------------------------------------------------------------------
  // Properties of the tetrahedron
  // ---------------------------------------------------------------------------

  /** The six edges of the tetrahedron, written out. */
  const TetraEdges: seq<DyadicEdge> :=
    [DyadicEdge(0, 1), DyadicEdge(0, 2), DyadicEdge(0, 3), DyadicEdge(1, 2), DyadicEdge(1, 3), DyadicEdge(2, 3)]

  /** The double loop lists the pairs i < j < 4 in lexicographic order. */
  lemma EdgesList()
    ensures Edges() == TetraEdges
  {
    assert EdgeRow(0, 3) == [DyadicEdge(0, 1), DyadicEdge(0, 2), DyadicEdge(0, 3)];
    assert EdgeRow(1, 2) == [DyadicEdge(1, 2), DyadicEdge(1, 3)];
    assert EdgeRow(2, 1) == [DyadicEdge(2, 3)];
    assert EdgeRow(3, 0) == [];
  }

  /** Lexicographic order on edges. */
  predicate EdgeBefore(a: DyadicEdge, b: DyadicEdge)
  {
    a.vertex1Id < b.vertex1Id || (a.vertex1Id == b.vertex1Id && a.vertex2Id < b.vertex2Id)
  }

  /** The written-out list: pairs i < j < 4, each pair once, in lexicographic order. */
  lemma TetraEdgesArePairs()
    ensures forall k :: 0 <= k < 6 ==> 0 <= TetraEdges[k].vertex1Id < TetraEdges[k].vertex2Id < 4
    ensures forall i, j :: 0 <= i < j < 4 ==> DyadicEdge(i, j) in TetraEdges
    ensures forall k :: 0 <= k < 5 ==> EdgeBefore(TetraEdges[k], TetraEdges[k + 1])
  {
    forall i, j | 0 <= i < j < 4
      ensures DyadicEdge(i, j) in TetraEdges
    {
      var k := if i == 0 then j - 1 else if i == 1 then j + 1 else 5;
      assert TetraEdges[k] == DyadicEdge(i, j);
    }
  }

  /** Every edge joins two different vertices i < j < 4, each such pair occurs, and each edge comes before the next. */
  lemma EdgesArePairs()
    ensures |Edges()| == 6
    ensures forall k :: 0 <= k < 6 ==> 0 <= Edges()[k].vertex1Id < Edges()[k].vertex2Id < 4
    ensures forall i, j :: 0 <= i < j < 4 ==> DyadicEdge(i, j) in Edges()
    ensures forall k :: 0 <= k < 5 ==> EdgeBefore(Edges()[k], Edges()[k + 1])
  {
    EdgesList();
    TetraEdgesArePairs();
  }

  /** The ids of the face opposite each vertex. */
  lemma FaceIds()
    ensures FaceVertexIds(0) == [1, 2, 3] && FaceVertexIds(1) == [0, 2, 3]
    ensures FaceVertexIds(2) == [0, 1, 3] && FaceVertexIds(3) == [0, 1, 2]
  {
  }

  /** The edges among three ids: the three pairs of them, in the order of the edge list. */
  lemma EdgesAmongTriple(a: int, b: int, c: int)
    requires 0 <= a < b < c < 4
    ensures EdgesAmong(TetraEdges, [a, b, c]) == [DyadicEdge(a, b), DyadicEdge(a, c), DyadicEdge(b, c)]
  {
    var ids := [a, b, c];
    var e := TetraEdges;
    assert EdgesAmongFrom(e, ids, 6) == [];
  }

  /** Face e has the three ids other than e in ascending order and exactly the three edges among them, in edge order. */
  lemma FacesList(edges: seq<DyadicEdge>)
    requires edges == Edges()
    ensures Face(0, edges) == TriadicFace([1, 2, 3], [DyadicEdge(1, 2), DyadicEdge(1, 3), DyadicEdge(2, 3)])
    ensures Face(1, edges) == TriadicFace([0, 2, 3], [DyadicEdge(0, 2), DyadicEdge(0, 3), DyadicEdge(2, 3)])
    ensures Face(2, edges) == TriadicFace([0, 1, 3], [DyadicEdge(0, 1), DyadicEdge(0, 3), DyadicEdge(1, 3)])
    ensures Face(3, edges) == TriadicFace([0, 1, 2], [DyadicEdge(0, 1), DyadicEdge(0, 2), DyadicEdge(1, 2)])
  {
    EdgesList();
    FaceIds();
    EdgesAmongTriple(1, 2, 3);
    EdgesAmongTriple(0, 2, 3);
    EdgesAmongTriple(0, 1, 3);
    EdgesAmongTriple(0, 1, 2);
  }

  /** The ids from i on are those in i..3 other than the excluded one, ascending. */
  lemma {:induction false} IdsFromSpec(excluded: int, i: nat)
    ensures forall x :: x in IdsFrom(excluded, i) <==> i <= x < 4 && x != excluded
    ensures forall m, l :: 0 <= m < l < |IdsFrom(excluded, i)| ==> IdsFrom(excluded, i)[m] < IdsFrom(excluded, i)[l]
    ensures |IdsFrom(excluded, i)| == if i >= 4 then 0 else if i <= excluded < 4 then 3 - i else 4 - i
    decreases 4 - i
  {
    if i < 4 {
      IdsFromSpec(excluded, i + 1);
    }
  }

  /** Everything the filter keeps has both ends among the ids. */
  lemma {:induction false} EdgesAmongFromSound(es: seq<DyadicEdge>, ids: seq<int>, i: nat, e: DyadicEdge)
    requires e in EdgesAmongFrom(es, ids, i)
    ensures e.vertex1Id in ids && e.vertex2Id in ids
    decreases |es| - i
  {
    if !(e == es[i] && es[i].vertex1Id in ids && es[i].vertex2Id in ids) {
      EdgesAmongFromSound(es, ids, i + 1, e);
    }
  }

  /** The filter keeps every edge from i on with both ends among the ids. */
  lemma {:induction false} EdgesAmongFromKeeps(es: seq<DyadicEdge>, ids: seq<int>, i: nat, j: nat)
    requires i <= j < |es| && es[j].vertex1Id in ids && es[j].vertex2Id in ids
    ensures es[j] in EdgesAmongFrom(es, ids, i)
    decreases j - i
  {
    if i < j {
      EdgesAmongFromKeeps(es, ids, i + 1, j);
    }
  }

  /**
   * An edge of the list lies on face f exactly when both of its ends are
   * vertices 0..3 other than f; so an edge i < j < 4 lies on the two faces
   * opposite the two vertices it misses.
   */
  lemma EdgeOnFace(edges: seq<DyadicEdge>, k: int, f: int)
    requires 0 <= k < |edges|
    ensures edges[k] in Face(f, edges).edges <==>
      (0 <= edges[k].vertex1Id < 4 && edges[k].vertex1Id != f && 0 <= edges[k].vertex2Id < 4 && edges[k].vertex2Id != f)
  {
    var ids := FaceVertexIds(f);
    IdsFromSpec(f, 0);
    if edges[k] in Face(f, edges).edges {
      EdgesAmongFromSound(edges, ids, 0, edges[k]);
    }
    if edges[k].vertex1Id in ids && edges[k].vertex2Id in ids {
      EdgesAmongFromKeeps(edges, ids, 0, k);
    }
  }

  /** A face of one of the four vertices has the three other ids, ascending, and only edges between them. */
  lemma FaceShape(edges: seq<DyadicEdge>, f: int, e: DyadicEdge)
    requires 0 <= f < 4
    ensures |Face(f, edges).vertexIds| == 3 && f !in Face(f, edges).vertexIds
    ensures forall x :: x in Face(f, edges).vertexIds <==> 0 <= x < 4 && x != f
    ensures Face(f, edges).vertexIds[0] < Face(f, edges).vertexIds[1] < Face(f, edges).vertexIds[2]
    ensures e in Face(f, edges).edges ==> e.vertex1Id in Face(f, edges).vertexIds && e.vertex2Id in Face(f, edges).vertexIds
  {
    IdsFromSpec(f, 0);
    if e in Face(f, edges).edges {
      EdgesAmongFromSound(edges, FaceVertexIds(f), 0, e);
    }
  }

  // ---------------------------------------------------------------------------
  // Properties of the services
  // ---------------------------------------------------------------------------

  /** The numbers 1..9 are written as one digit. */
  lemma SmallNatToString(d: nat)
    requires d < 10
    ensures NatToString(d) == [DigitChar(d)]
  {
  }

  /** A key is its polarity, "_" and one digit 1..6. */
  lemma ServiceKeyShape(p: int, i: int)
    requires 0 <= p < 3 && 0 <= i < 6
    ensures ServiceKey(p, i) == Polarities[p] + "_" + [DigitChar(i + 1)]
    ensures |ServiceKey(p, i)| == 5 && ServiceKey(p, i)[..3] == Polarities[p] && ServiceKey(p, i)[4] == DigitChar(i + 1)
  {
    SmallNatToString(i + 1);
  }

  /** Keys at different positions differ in their polarity or in their number. */
  lemma ServiceKeysDiffer(k: int, l: int)
    requires 0 <= k < l < 18
    ensures ServiceKeys()[k] != ServiceKeys()[l]
  {
    var keys := ServiceKeys();
    var p, i, q, j := k / 6, k % 6, l / 6, l % 6;
    ServiceKeyShape(p, i);
    ServiceKeyShape(q, j);
    if p != q {
      assert keys[k][..3] != keys[l][..3];
    } else {
      assert i != j;
      assert DigitChar(i + 1) != DigitChar(j + 1) by {
        DigitRoundTrip(i + 1);
        DigitRoundTrip(j + 1);
      }
      assert keys[k][4] != keys[l][4];
    }
  }

  /** The 18 keys are pairwise different, from "D-T_1" to "S-M_6". */
  lemma ServiceKeysDistinct()
    ensures forall k, l :: 0 <= k < l < 18 ==> ServiceKeys()[k] != ServiceKeys()[l]
    ensures ServiceKeys()[0] == "D-T_1" && ServiceKeys()[17] == "S-M_6"
  {
    forall k, l | 0 <= k < l < 18
      ensures ServiceKeys()[k] != ServiceKeys()[l]
    {
      ServiceKeysDiffer(k, l);
    }
    ServiceKeyShape(0, 0);
    ServiceKeyShape(2, 5);
  }

  // ---------------------------------------------------------------------------
  // Streams and triads
  // ---------------------------------------------------------------------------

  /** The phase angle is a multiple of 120 in [0, 360), repeats every three streams, and streams 0, 1, 2 get 0, 120, 240. */
  lemma PhaseAngleSpec(stream: int)
    ensures 0 <= PhaseAngle(stream) < 360 && PhaseAngle(stream) % 120 == 0
    ensures PhaseAngle(stream) == 120 * (stream % 3)
    ensures PhaseAngle(stream + 3) == PhaseAngle(stream)
  {
    var q := stream / 3;
    var r := stream % 3;
    assert stream * 120 == 360 * q + 120 * r;
    assert (stream + 3) * 120 == 360 * (q + 1) + 120 * r;
  }

  lemma PhaseAngleStreams()
    ensures PhaseAngle(0) == 0 && PhaseAngle(1) == 120 && PhaseAngle(2) == 240
  {
  }

  /** The triad of a step holds three steps in 1..12, four apart, the first in 1..4 and congruent to the step modulo 4. */
  lemma StepTriadSpec(step: int)
    ensures 1 <= StepTriad(step).0 <= 4
    ensures StepTriad(step).1 == StepTriad(step).0 + 4 && StepTriad(step).2 == StepTriad(step).0 + 8
    ensures (StepTriad(step).0 - step) % 4 == 0
  {
    var b := (step - 1) % 4;
    var q := (step - 1) / 4;
    assert step - 1 == 4 * q + b;
    assert (b + 1) - step == 4 * (-q);
  }

  /** Two steps share a triad exactly when they are congruent modulo 4, and every step 1..12 is in its own triad. */
  lemma StepTriadGroups(s: int, t: int)
    ensures StepTriad(s) == StepTriad(t) <==> (s - t) % 4 == 0
    ensures 1 <= s <= 12 ==> s == StepTriad(s).0 || s == StepTriad(s).1 || s == StepTriad(s).2
  {
    var qs, qt := (s - 1) / 4, (t - 1) / 4;
    var bs, bt := (s - 1) % 4, (t - 1) % 4;
    assert s - 1 == 4 * qs + bs && t - 1 == 4 * qt + bt;
    assert s - t == 4 * (qs - qt) + (bs - bt);
    if (s - t) % 4 == 0 {
      var d := (s - t) / 4;
      assert 4 * d == 4 * (qs - qt) + (bs - bt);
      assert bs - bt == 4 * (d - qs + qt);
    }
  }
}
