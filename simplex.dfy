/**
 * simplex_elements: how many k-dimensional faces an n-simplex has, as an
 * insertion-ordered table from face names to counts (a Python dict).
 */
module Simplex {
  import opened Binomial
  import opened Decimal

  /** The face-name table: six fixed names, then "k-elements". */
  function Label(k: nat): string
  {
    var names := ["vertices", "edges", "faces", "cells", "hypercells", "5-faces"];
    if k < |names| then names[k] else NatToString(k) + "-elements"
  }

  /**
   * The dict simplex_elements builds, in insertion order: {"void": 1} for a
   * negative dimension, else one entry per k = 0..dim with count C(dim + 1, k + 1).
   */
  function FaceTable(dim: int): seq<(string, nat)>
  {
    if dim < 0 then [("void", 1)]
    else seq(dim + 1, k requires 0 <= k < dim + 1 => (Label(k), Binom(dim + 1, k + 1)))
  }

  /** The keys of a table. */
  function Keys(t: seq<(string, nat)>): seq<string>
  {
    seq(|t|, i requires 0 <= i < |t| => t[i].0)
  }

  /** No two entries share a key, so the table is a faithful dict. */
  ghost predicate DistinctKeys(t: seq<(string, nat)>)
  {
    forall i, j :: 0 <= i < j < |t| ==> t[i].0 != t[j].0
  }

  function Counts(t: seq<(string, nat)>): seq<nat>
  {
    seq(|t|, i requires 0 <= i < |t| => t[i].1)
  }

  /** simplex_elements: the dim < 0 case, else a loop adding one entry per face dimension. */
  method SimplexElements(dim: int) returns (elements: seq<(string, nat)>)
    ensures elements == FaceTable(dim)
  {
    if dim < 0 {
      return [("void", 1)];
    }
    elements := [];
    for k := 0 to dim + 1
      invariant |elements| == k
      invariant forall i :: 0 <= i < k ==> elements[i] == (Label(i), Binom(dim + 1, i + 1))
    {
      var count := Binom(dim + 1, k + 1);
      var name := Label(k);
      elements := elements + [(name, count)];
    }
  }

  // ---------------------------------------------------------------------------
  // Properties
  // ---------------------------------------------------------------------------

  /** The face names are pairwise different. */
  lemma LabelInjective(j: nat, k: nat)
    requires Label(j) == Label(k)
    ensures j == k
  {
    if j >= 6 && k >= 6 {
      var a, b := NatToString(j), NatToString(k);
      assert |a| == |b| by {
        assert |a| + 9 == |Label(j)| == |Label(k)| == |b| + 9;
      }
      assert a == Label(j)[..|a|] == Label(k)[..|b|] == b;
      NatToStringInjective(j, k);
    } else if j < 6 && k >= 6 {
      LabelFixedVsNumbered(j, k);
    } else if j >= 6 && k < 6 {
      LabelFixedVsNumbered(k, j);
    }
  }

  /** None of the six fixed names ends in "-elements" after digits. */
  lemma LabelFixedVsNumbered(j: nat, k: nat)
    requires j < 6 && k >= 6
    ensures Label(j) != Label(k)
  {
    var s := NatToString(k);
    var l := Label(k);
    assert l == s + "-elements";
    assert '0' <= l[0] <= '9';
    if j == 5 {
      // "5-faces" and a numbered label both start with a digit, but a numbered label is longer.
      assert |l| >= 10;
    }
  }

  /** For a dimension >= 0: dim + 1 entries with distinct names, the k-th counting C(dim + 1, k + 1). */
  lemma FaceTableShape(dim: int)
    requires dim >= 0
    ensures |FaceTable(dim)| == dim + 1 && DistinctKeys(FaceTable(dim))
    ensures forall k :: 0 <= k <= dim ==> FaceTable(dim)[k] == (Label(k), Binom(dim + 1, k + 1))
    ensures FaceTable(dim)[0].1 == dim + 1 && FaceTable(dim)[dim].1 == 1
  {
    var t := FaceTable(dim);
    forall i, j | 0 <= i < j < |t|
      ensures t[i].0 != t[j].0
    {
      if t[i].0 == t[j].0 {
        LabelInjective(i, j);
      }
    }
    Absorption(dim + 1, 1);
  }

  /** A negative dimension gives exactly {"void": 1}. */
  lemma FaceTableVoid(dim: int)
    requires dim < 0
    ensures Keys(FaceTable(dim)) == ["void"] && Counts(FaceTable(dim)) == [1]
  {
  }

  /** The counts of all faces of a dim-simplex add up to 2^(dim + 1) - 1. */
  lemma FaceTableTotal(dim: int)
    requires dim >= 0
    ensures Sum(Counts(FaceTable(dim))) == Pow2(dim + 1) - 1
  {
    var m := dim + 1;
    var row := PascalRow(m);
    PascalRowBinom(m);
    PascalRowSum(m);
    assert row == [row[0]] + row[1..];
    SumAppend([row[0]], row[1..]);
    assert Counts(FaceTable(dim)) == row[1..];
  }

  /** The fixed names, then numbered ones: k = 6 is "6-elements". */
  lemma LabelExamples()
    ensures Label(0) == "vertices" && Label(3) == "cells" && Label(5) == "5-faces"
    ensures Label(6) == "6-elements" && Label(12) == "12-elements"
  {
    assert NatToString(6) == "6";
    assert NatToString(12) == NatToString(1) + [DigitChar(2)] == "12";
    assert Label(6) == "6" + "-elements";
    assert Label(12) == "12" + "-elements";
  }
}
