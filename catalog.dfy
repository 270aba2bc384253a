/**
 * The catalog of the six Cosmos systems, levels 0 to 5: one constant record
 * per system, the quantities derived from its level (Pascal row, simplex
 * face table, nested tuple, topological surfaces, Catalan number), and the
 * analysis view that collects them.
 */
module Catalog {
  import opened Binomial
  import opened Simplex
  import opened NestedTuples
  import opened Partitions
  import opened Tables
  import opened Decimal
  import Systems

  /** A system's constant record. */
  datatype CosmosSystem = CosmosSystem(
    number: int,
    name: string,
    terms: int,
    partitions: int,
    universalCount: int,
    particularCount: int,
    simplexDim: int,
    simplexName: string,
    concurrency: int,
    concurrencyName: string,
    matulaNumbers: seq<int>,
    properties: seq<string>)

  const System0: CosmosSystem := CosmosSystem(
    0, "Void (Hole)", 1, 0, 0, 0, -1, "vo-id", -1, "0-Sets (Category/Spin)",
    [1], ["Category", "Spin", "Unmarked State"])

  const System1: CosmosSystem := CosmosSystem(
    1, "Monad (Whole)", 1, 1, 1, 0, 0, "mon-ad", 0, "1-Nest (Degree/Point)",
    [2], ["Degree", "Point", "Universal Wholeness"])

  const System2: CosmosSystem := CosmosSystem(
    2, "Diasect (Term)", 2, 2, 1, 1, 1, "dia-sect", 1, "2-Vert (Metric/Line)",
    [4, 3], ["Metric", "Line", "Perceptive Wholeness"])

  const System3: CosmosSystem := CosmosSystem(
    3, "Triagon (Relations)", 4, 3, 1, 2, 2, "tria-gon", 2, "3-Edge (Triangle)",
    [8, 6, 7, 5], ["Triangle", "Four Relations", "Discretion-Means-Goal-Consequence"])

  const System4: CosmosSystem := CosmosSystem(
    4, "Tetrahedron (Creative Process)", 9, 5, 2, 3, 3, "tetra-hedron", 3, "4-Face (Tetrahedron)",
    [16, 12, 9, 14, 10, 19, 13, 17, 11],
    ["Tetrahedron", "Enneagram", "Primary Creative Process", "12-Stage Cycle"])

  const System5: CosmosSystem := CosmosSystem(
    5, "Pentachoron (Integration)", 20, 7, 3, 4, 4, "penta-choron", 4, "5-Cell (Convolution 2×2)",
    [32, 34, 18, 28, 21, 20, 15, 38, 26, 34, 22, 53, 37, 23, 43, 29, 67, 41, 53, 31],
    ["Pentachoron", "5-Cell", "3 Concurrent Streams", "[[D-T]-[P-O]-[S-M]]"])

  const AllSystems: seq<CosmosSystem> := [System0, System1, System2, System3, System4, System5]

  // ---------------------------------------------------------------------------
  // Derived quantities
  // ---------------------------------------------------------------------------

  /** pascal_coefficients: (1,) for a negative level, else pascal_row(number). */
  function PascalCoefficients(s: CosmosSystem): seq<nat>
  {
    if s.number < 0 then [1] else PascalRow(s.number)
  }

  /** simplex_elements: the face table of the system's simplex. */
  function SimplexElementsOf(s: CosmosSystem): seq<(string, nat)>
  {
    FaceTable(s.simplexDim)
  }

  /** nested_tuple: the level-number tuple. */
  function NestedTupleOf(s: CosmosSystem): NestedTuple
  {
    SystemNestedTuple(s.number)
  }

  /** "{" + p + "}". */
  function Wrap(p: string): string
  {
    "{" + p + "}"
  }

  /** topological_surfaces: ["{}"] up to level 0, else every generated partition wrapped in braces. */
  function TopologicalSurfaces(s: CosmosSystem): seq<string>
  {
    if s.number <= 0 then ["{}"]
    else
      var ps := GeneratePartitions(s.number);
      seq(|ps|, i requires 0 <= i < |ps| => Wrap(ps[i]))
  }

  /** catalan: 1 up to level 0, else catalan_number(number - 1), which cannot fail there. */
  function Catalan(s: CosmosSystem): nat
  {
    if s.number <= 0 then 1
    else
      CatalanBallot(s.number - 1);
      CatalanNumber(s.number - 1).value
  }

  /** The dictionary analyze_system returns; its nested simplex and concurrency dicts are flattened into their keys. */
  datatype Analysis = Analysis(
    system: int,
    name: string,
    terms: int,
    partitions: int,
    universal: int,
    particular: int,
    pascalRow: seq<nat>,
    pascalSum: nat,
    simplexDimension: int,
    simplexName: string,
    simplexElements: seq<(string, nat)>,
    concurrencyLevel: int,
    concurrencyName: string,
    matulaNumbers: seq<int>,
    nestedTuple: string,
    catalanNumber: nat,
    surfaceCount: nat,
    properties: seq<string>)

  /** analyze_system: the record's own fields and the quantities derived from them. */
  function AnalyzeSystem(s: CosmosSystem): Analysis
  {
    Analysis(
      s.number, s.name, s.terms, s.partitions, s.universalCount, s.particularCount,
      PascalCoefficients(s), Sum(PascalCoefficients(s)),
      s.simplexDim, s.simplexName, SimplexElementsOf(s),
      s.concurrency, s.concurrencyName,
      s.matulaNumbers,
      Repr(NestedTupleOf(s)),
      Catalan(s),
      |TopologicalSurfaces(s)|,
      s.properties)
  }

  // ---------------------------------------------------------------------------
  // Properties of the derived quantities
  // ---------------------------------------------------------------------------

  /** The Pascal row lists C(number, k) and sums to 2^number; a negative level gives (1,) and sum 1. */
  lemma PascalOfSystem(s: CosmosSystem)
    ensures s.number >= 0 ==>
      |AnalyzeSystem(s).pascalRow| == s.number + 1 &&
      (forall k :: 0 <= k <= s.number ==> AnalyzeSystem(s).pascalRow[k] == Binom(s.number, k))
    ensures s.number >= 0 ==> AnalyzeSystem(s).pascalSum == Pow2(s.number)
    ensures s.number < 0 ==> AnalyzeSystem(s).pascalRow == [1] && AnalyzeSystem(s).pascalSum == 1
  {
    if s.number >= 0 {
      PascalRowBinom(s.number);
      PascalRowSum(s.number);
    } else {
      assert Sum([1]) == 1 + Sum([]);
    }
  }

  /** From level 1 on, the surfaces are exactly the Dyck words with number pairs, each wrapped in braces. */
  lemma SurfacesAreWrappedDyckWords(s: CosmosSystem, w: string)
    requires s.number >= 1
    ensures w in TopologicalSurfaces(s) <==>
      |w| >= 2 && w[0] == '{' && w[|w| - 1] == '}' && DyckWord(w[1..|w| - 1], s.number)
  {
    var ps := GeneratePartitions(s.number);
    GenerateExactly(s.number);
    if w in TopologicalSurfaces(s) {
      var i :| 0 <= i < |ps| && TopologicalSurfaces(s)[i] == w;
      assert w[1..|w| - 1] == ps[i];
      assert ps[i] in ps;
    }
    if |w| >= 2 && w[0] == '{' && w[|w| - 1] == '}' && DyckWord(w[1..|w| - 1], s.number) {
      var p := w[1..|w| - 1];
      assert p in ps;
      var i :| 0 <= i < |ps| && ps[i] == p;
      assert Wrap(p) == w;
      assert TopologicalSurfaces(s)[i] == w;
    }
  }

  /** surface_count is catalan_number(number) from level 1 on, and 1 below. */
  lemma SurfaceCount(s: CosmosSystem)
    ensures s.number >= 1 ==> CatalanNumber(s.number) == CombValue(AnalyzeSystem(s).surfaceCount)
    ensures s.number <= 0 ==> AnalyzeSystem(s).surfaceCount == 1
  {
    if s.number >= 1 {
      PartitionCount(s.number);
    }
  }

  /**
   * catalan counts the partitions one level down: catalan_number(number - 1)
   * from level 1 on, so it is the surface count of the previous level, not of
   * this one.
   */
  lemma CatalanOfSystem(s: CosmosSystem)
    ensures s.number >= 1 ==> CombValue(AnalyzeSystem(s).catalanNumber) == CatalanNumber(s.number - 1)
    ensures s.number >= 1 ==> AnalyzeSystem(s).catalanNumber == |GeneratePartitions(s.number - 1)|
    ensures s.number <= 0 ==> AnalyzeSystem(s).catalanNumber == 1
  {
    if s.number >= 1 {
      CatalanBallot(s.number - 1);
      PartitionCount(s.number - 1);
    }
  }

  /** The nested tuple of a system prints as "[number]", so different levels print differently. */
  lemma NestedTupleOfSystem(s: CosmosSystem, t: CosmosSystem)
    ensures AnalyzeSystem(s).nestedTuple == "[" + IntToString(s.number) + "]"
    ensures AnalyzeSystem(s).nestedTuple == AnalyzeSystem(t).nestedTuple ==> s.number == t.number
  {
    SystemRepr(t.number, s.number);
  }

  /** The simplex table is {"void": 1} for a negative dimension, else dim + 1 named counts C(dim + 1, k + 1). */
  lemma SimplexOfSystem(s: CosmosSystem)
    ensures s.simplexDim < 0 ==> AnalyzeSystem(s).simplexElements == [("void", 1)]
    ensures s.simplexDim >= 0 ==>
      |AnalyzeSystem(s).simplexElements| == s.simplexDim + 1 &&
      forall k :: 0 <= k <= s.simplexDim ==>
        AnalyzeSystem(s).simplexElements[k] == (Label(k), Binom(s.simplexDim + 1, k + 1))
  {
    if s.simplexDim >= 0 {
      FaceTableShape(s.simplexDim);
    }
  }

  // ---------------------------------------------------------------------------
  // The catalog
  // ---------------------------------------------------------------------------

  /** The record invariants the catalog keeps. */
  predicate WellFormed(s: CosmosSystem)
  {
    |s.matulaNumbers| == s.terms &&
    s.universalCount + s.particularCount == s.partitions &&
    s.simplexDim == s.number - 1 && s.concurrency == s.number - 1
  }

  /**
   * System k is at level k, lists one Matula code per term, splits its
   * partitions into universal and particular ones, has a simplex and a
   * concurrency one below its level, and has as many terms as there are rooted
   * trees with k + 1 nodes.
   */
  lemma SystemShape(k: int)
    requires 0 <= k < |AllSystems|
    ensures AllSystems[k].number == k && WellFormed(AllSystems[k])
    ensures AllSystems[k].terms == RootedTrees(AllSystems[k].number + 1)
  {
    var s := AllSystems[k];
    var r := RootedTrees(s.number + 1);
    if k == 0 {
      assert s == System0 && r == 1;
    } else if k == 1 {
      assert s == System1 && r == 1;
    } else if k == 2 {
      assert s == System2 && r == 2;
    } else if k == 3 {
      assert s == System3 && r == 4;
    } else if k == 4 {
      assert s == System4 && r == 9;
    } else {
      assert s == System5 && r == 20;
    }
    assert s.terms == r;
  }

  /** The Matula codes of systems 0 to 4 are pairwise distinct. */
  lemma CodesDistinctBelowFive(k: int)
    requires 0 <= k < 5
    ensures forall i, j :: 0 <= i < j < |AllSystems[k].matulaNumbers| ==>
      AllSystems[k].matulaNumbers[i] != AllSystems[k].matulaNumbers[j]
  {
    var m := AllSystems[k].matulaNumbers;
    if k == 4 {
      assert m == [16, 12, 9, 14, 10, 19, 13, 17, 11];
      forall i, j | 0 <= i < j < 9
        ensures m[i] != m[j]
      {
        assert m[i] == [16, 12, 9, 14, 10, 19, 13, 17, 11][i];
      }
    }
  }

  /** System 5 lists the codes 34 and 53 twice each, so its twenty codes are not twenty trees. */
  lemma CodesRepeatInSystemFive()
    ensures |System5.matulaNumbers| == 20
    ensures System5.matulaNumbers[1] == System5.matulaNumbers[9] == 34
    ensures System5.matulaNumbers[11] == System5.matulaNumbers[18] == 53
  {
  }

  /** A system at level 0 to 5 has the surface count and Catalan value of that level. */
  lemma CountsAtLevel(s: CosmosSystem)
    requires 0 <= s.number <= 5
    ensures AnalyzeSystem(s).surfaceCount == [1, 1, 2, 5, 14, 42][s.number]
    ensures AnalyzeSystem(s).catalanNumber == [1, 1, 1, 2, 5, 14][s.number]
  {
    CatalanExamples();
    SurfaceCount(s);
    CatalanOfSystem(s);
  }

  /** The surface counts 1, 1, 2, 5, 14, 42 and the Catalan values 1, 1, 1, 2, 5, 14 of the six systems. */
  lemma CatalogCounts(k: int)
    requires 0 <= k < |AllSystems|
    ensures AnalyzeSystem(AllSystems[k]).surfaceCount == [1, 1, 2, 5, 14, 42][k]
    ensures AnalyzeSystem(AllSystems[k]).catalanNumber == [1, 1, 1, 2, 5, 14][k]
  {
    SystemShape(k);
    CountsAtLevel(AllSystems[k]);
  }

  /** Each system's Catalan value is the surface count of the system one level down. */
  lemma CatalanIsPreviousSurfaceCount(k: int)
    requires 1 <= k < |AllSystems|
    ensures AnalyzeSystem(AllSystems[k]).catalanNumber == AnalyzeSystem(AllSystems[k - 1]).surfaceCount
  {
    CatalogCounts(k);
    CatalogCounts(k - 1);
    var now, before := AnalyzeSystem(AllSystems[k]).catalanNumber, AnalyzeSystem(AllSystems[k - 1]).surfaceCount;
    assert now == [1, 1, 1, 2, 5, 14][k] && before == [1, 1, 2, 5, 14, 42][k - 1];
  }

  /**
   * System 4's simplex is the tetrahedron of System 5's state: 4 vertices,
   * 6 edges, 4 faces and 1 cell, the edge and face counts being the lengths
   * the System 5 constructor builds.
   */
  lemma TetrahedronOfSystemFour()
    ensures SimplexElementsOf(System4) == [("vertices", 4), ("edges", 6), ("faces", 4), ("cells", 1)]
    ensures |Systems.Edges()| == SimplexElementsOf(System4)[1].1
  {
    assert System4.simplexDim == 3;
    TetrahedronTable();
    Systems.EdgesArePairs();
  }

  /** The table of dimension 3 counts 4 vertices, 6 edges, 4 faces and 1 cell. */
  lemma TetrahedronTable()
    ensures FaceTable(3) == [("vertices", 4), ("edges", 6), ("faces", 4), ("cells", 1)]
  {
    FaceTableShape(3);
    CentralValues();
    var t := FaceTable(3);
    assert t[0] == ("vertices", 4) && t[1] == ("edges", 6) && t[2] == ("faces", 4) && t[3] == ("cells", 1);
  }
}
