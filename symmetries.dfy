/**
 * The two symmetry operations of the systems model.
 *
 * enneagram_rotation moves the nine enneagram positions along the cycle
 * 1 -> 4 -> 2 -> 8 -> 5 -> 7 -> 3 -> 6 -> 9 (0-indexed below) by a number of
 * steps; tetrahedral_rotation keeps the vertex on the axis and rotates the
 * other vertices one place to the left. Both only move values around, so
 * the values are of any type.
 */
module Symmetries {
  import opened Arith

  // ---------------------------------------------------------------------------
  // Enneagram rotation
  // ---------------------------------------------------------------------------

  /** The rotation order of the nine positions, 0-indexed. */
  const Cycle: seq<int> := [0, 3, 1, 7, 4, 6, 2, 5, 8]

  /** Where position k stands in the cycle: the inverse of Cycle. */
  function CycleIndex(k: int): (i: int)
    requires 0 <= k < 9
    ensures 0 <= i < 9 && Cycle[i] == k
  {
    [0, 2, 6, 1, 4, 7, 5, 3, 8][k]
  }

  lemma CycleInRange()
    ensures |Cycle| == 9 && forall i :: 0 <= i < 9 ==> 0 <= Cycle[i] < 9
  {
  }

  /** CycleIndex undoes Cycle, so the cycle visits every position exactly once. */
  lemma CycleBijective()
    ensures forall i :: 0 <= i < 9 ==> CycleIndex(Cycle[i]) == i
    ensures forall i, j :: 0 <= i < 9 && 0 <= j < 9 && Cycle[i] == Cycle[j] ==> i == j
  {
  }

  /** The position whose value lands on position k after the rotation. */
  function Source(k: int, steps: int): (j: int)
    requires 0 <= k < 9
    ensures 0 <= j < 9
  {
    CycleInRange();
    Cycle[(CycleIndex(k) - steps) % 9]
  }

  /** The position that the value at place i of the cycle moves to. */
  function Target(i: int, steps: int): (k: int)
    requires 0 <= i < 9
    ensures 0 <= k < 9
  {
    CycleInRange();
    Cycle[(i + steps) % 9]
  }

  /** The rotated positions: position k receives the value steps places back along the cycle. */
  function Rotated<T>(positions: seq<T>, steps: int): (r: seq<T>)
    requires |positions| >= 9
    ensures |r| == 9
  {
    seq(9, k requires 0 <= k < 9 => positions[Source(k, steps)])
  }

  /** Going steps places back from k and then steps places forward returns to k. */
  lemma TargetOfSource(k: int, steps: int)
    requires 0 <= k < 9
    ensures Target((CycleIndex(k) - steps) % 9, steps) == k
  {
    ModShiftBack(CycleIndex(k), steps, 9);
  }

  /** The value at place i of the cycle is read from position Cycle[i]. */
  lemma SourceOfTarget(i: int, steps: int)
    requires 0 <= i < 9
    ensures Source(Target(i, steps), steps) == Cycle[i]
  {
    CycleBijective();
    var m := (i + steps) % 9;
    assert CycleIndex(Cycle[m]) == m;
    ModShiftForth(i, steps, 9);
  }

  /** Different places of the cycle move to different positions. */
  lemma TargetInjective(m: int, i: int, steps: int)
    requires 0 <= m < 9 && 0 <= i < 9 && Target(m, steps) == Target(i, steps)
    ensures m == i
  {
    SourceOfTarget(m, steps);
    SourceOfTarget(i, steps);
    CycleBijective();
  }

  /** Different positions draw from different positions. */
  lemma SourceInjective(k: int, l: int, steps: int)
    requires 0 <= k < 9 && 0 <= l < 9 && Source(k, steps) == Source(l, steps)
    ensures k == l
  {
    CycleBijective();
    var a, b := (CycleIndex(k) - steps) % 9, (CycleIndex(l) - steps) % 9;
    assert a == b;
    TargetOfSource(k, steps);
    TargetOfSource(l, steps);
  }

  /**
   * enneagram_rotation: a fresh array of nine zeros, then for each place i of
   * the cycle the value at position Cycle[i] is written to position
   * Cycle[(i + steps) % 9].
   */
  method EnneagramRotation<T>(positions: seq<T>, steps: int, zero: T) returns (r: seq<T>)
    requires |positions| >= 9
    ensures r == Rotated(positions, steps)
    ensures forall i :: 0 <= i < 9 ==> r[Target(i, steps)] == positions[Cycle[i]]
  {
    CycleInRange();
    var sequence := Cycle;
    var newPositions := new T[9](_ => zero);
    for i := 0 to 9
      invariant forall m :: 0 <= m < i ==> newPositions[..][Target(m, steps)] == positions[sequence[m]]
    {
      var pos := sequence[i];
      var newIdx := (i + steps) % 9;
      var t := sequence[newIdx];
      ghost var before := newPositions[..];
      PlaceNext(before, positions, steps, i);
      newPositions[t] := positions[pos];
      assert newPositions[..] == before[t := positions[pos]];
    }
    r := newPositions[..];
    PlacedIsRotated(r, positions, steps);
  }

  /** The places before i of the cycle move elsewhere than place i. */
  lemma TargetsBefore(i: int, steps: int)
    requires 0 <= i < 9
    ensures forall m :: 0 <= m < i ==> Target(m, steps) != Target(i, steps)
  {
    forall m | 0 <= m < i
      ensures Target(m, steps) != Target(i, steps)
    {
      if Target(m, steps) == Target(i, steps) {
        TargetInjective(m, i, steps);
      }
    }
  }

  /** Writing the value at place i of the cycle to its target keeps the values written for the places before i. */
  lemma PlaceNext<T>(before: seq<T>, positions: seq<T>, steps: int, i: int)
    requires |before| == 9 && |positions| >= 9 && 0 <= i < 9
    requires forall m :: 0 <= m < i ==> before[Target(m, steps)] == positions[Cycle[m]]
    ensures Cycle[(i + steps) % 9] == Target(i, steps)
    ensures forall m :: 0 <= m <= i ==>
      before[Target(i, steps) := positions[Cycle[i]]][Target(m, steps)] == positions[Cycle[m]]
  {
    TargetsBefore(i, steps);
  }

  /** Nine values placed along the cycle, steps places on, are the rotated positions. */
  lemma PlacedIsRotated<T>(r: seq<T>, positions: seq<T>, steps: int)
    requires |r| == 9 && |positions| >= 9
    requires forall i :: 0 <= i < 9 ==> r[Target(i, steps)] == positions[Cycle[i]]
    ensures r == Rotated(positions, steps)
  {
    forall k | 0 <= k < 9
      ensures r[k] == positions[Source(k, steps)]
    {
      TargetOfSource(k, steps);
    }
  }

  /** Rotating by a multiple of nine steps changes nothing. */
  lemma RotatedFullTurn<T>(positions: seq<T>, steps: int)
    requires |positions| >= 9 && steps % 9 == 0
    ensures Rotated(positions, steps) == positions[..9]
  {
    forall k | 0 <= k < 9
      ensures Source(k, steps) == k
    {
      var i := CycleIndex(k);
      ModOffset(steps, 9);
      assert i - steps == i + 9 * (steps / 9) * -1;
      ModMultiple(i, -(steps / 9), 9);
      DivModUnique(i, 9, 0, i);
    }
  }

  /** Going b places back and then a places back is going a + b places back. */
  lemma SourceCompose(k: int, a: int, b: int)
    requires 0 <= k < 9
    ensures Source(Source(k, b), a) == Source(k, a + b)
  {
    var i := CycleIndex(k);
    var j := (i - b) % 9;
    CycleBijective();
    assert Source(k, b) == Cycle[j];
    assert CycleIndex(Cycle[j]) == j;
    ModShiftTwice(i, a, b, 9);
  }

  /** Two rotations make one rotation by the sum of the steps. */
  lemma RotatedCompose<T>(positions: seq<T>, a: int, b: int)
    requires |positions| >= 9
    ensures Rotated(Rotated(positions, a), b) == Rotated(positions, a + b)
  {
    forall k | 0 <= k < 9
      ensures Rotated(Rotated(positions, a), b)[k] == Rotated(positions, a + b)[k]
    {
      SourceCompose(k, a, b);
    }
  }

  /** The output rearranges the first nine inputs: the value at each position lands on exactly one position. */
  lemma RotatedPermutes<T>(positions: seq<T>, steps: int)
    requires |positions| >= 9
    ensures forall k, l :: 0 <= k < 9 && 0 <= l < 9 && Source(k, steps) == Source(l, steps) ==> k == l
    ensures forall j :: 0 <= j < 9 ==> Rotated(positions, steps)[Target(CycleIndex(j), steps)] == positions[j]
  {
    forall k, l | 0 <= k < 9 && 0 <= l < 9 && Source(k, steps) == Source(l, steps)
      ensures k == l
    {
      SourceInjective(k, l, steps);
    }
    forall j | 0 <= j < 9
      ensures Source(Target(CycleIndex(j), steps), steps) == j
    {
      SourceOfTarget(CycleIndex(j), steps);
    }
  }

  /** One step moves the value at 1 (index 0) to 4 (index 3), and so on along the cycle; 9 (index 8) returns to 1. */
  lemma RotatedOneStep<T>(positions: seq<T>)
    requires |positions| >= 9
    ensures Rotated(positions, 1)[3] == positions[0] && Rotated(positions, 1)[1] == positions[3]
    ensures Rotated(positions, 1)[0] == positions[8]
  {
  }

  // ---------------------------------------------------------------------------
  // Tetrahedral rotation
  // ---------------------------------------------------------------------------

  /** A tetrahedron vertex: its id and whatever it carries. */
  datatype TetrahedralVertex<P> = TetrahedralVertex(id: int, data: P)

  /** The off-axis vertices among vs[..i], in order. */
  function OthersUpTo<P>(vs: seq<TetrahedralVertex<P>>, axis: int, i: int): (r: seq<TetrahedralVertex<P>>)
    requires 0 <= i <= |vs|
    ensures |r| <= i
  {
    if i == 0 then []
    else OthersUpTo(vs, axis, i - 1) + (if vs[i - 1].id != axis then [vs[i - 1]] else [])
  }

  /** [v for v in vs if v.id != axis]. */
  function Others<P>(vs: seq<TetrahedralVertex<P>>, axis: int): seq<TetrahedralVertex<P>>
  {
    OthersUpTo(vs, axis, |vs|)
  }

  /** others[1:] + others[:1]. */
  function RotateLeft<X>(xs: seq<X>): (r: seq<X>)
    ensures |r| == |xs|
  {
    if xs == [] then [] else xs[1..] + xs[..1]
  }

  /** The off-axis vertices before i are a prefix of all of them, and vs[i], if off the axis, comes next. */
  lemma {:induction false} OthersUpToPrefix<P>(vs: seq<TetrahedralVertex<P>>, axis: int, i: int, j: int)
    requires 0 <= i <= j <= |vs|
    ensures |OthersUpTo(vs, axis, i)| <= |OthersUpTo(vs, axis, j)|
    ensures OthersUpTo(vs, axis, i) == OthersUpTo(vs, axis, j)[..|OthersUpTo(vs, axis, i)|]
    ensures i < j && vs[i].id != axis ==>
      |OthersUpTo(vs, axis, i)| < |OthersUpTo(vs, axis, j)| &&
      OthersUpTo(vs, axis, j)[|OthersUpTo(vs, axis, i)|] == vs[i]
    decreases j - i
  {
    if i < j {
      OthersUpToPrefix(vs, axis, i, j - 1);
      var a, b := OthersUpTo(vs, axis, i), OthersUpTo(vs, axis, j - 1);
      assert OthersUpTo(vs, axis, j)[..|b|] == b;
      if i == j - 1 && vs[i].id != axis {
        assert OthersUpTo(vs, axis, j) == a + [vs[i]];
      }
    }
  }

  /** The off-axis vertices of vs[..i] number fewer than all of them when vs[i] is off the axis. */
  lemma OffAxisSlot<P>(vs: seq<TetrahedralVertex<P>>, axis: int, i: int)
    requires 0 <= i < |vs| && vs[i].id != axis
    ensures |OthersUpTo(vs, axis, i)| < |Others(vs, axis)|
    ensures Others(vs, axis)[|OthersUpTo(vs, axis, i)|] == vs[i]
  {
    OthersUpToPrefix(vs, axis, i, |vs|);
  }

  /** The result of tetrahedral_rotation: axis entries kept, the k-th off-axis place gets the k-th rotated vertex. */
  function Rotation<P>(vs: seq<TetrahedralVertex<P>>, axis: int): (r: seq<TetrahedralVertex<P>>)
    ensures |r| == |vs|
  {
    var q := RotateLeft(Others(vs, axis));
    seq(|vs|, i requires 0 <= i < |vs| =>
      if vs[i].id == axis then vs[i]
      else OffAxisSlot(vs, axis, i); q[|OthersUpTo(vs, axis, i)|])
  }

  /**
   * tetrahedral_rotation: copy the list, rotate the off-axis vertices left by
   * one, and write them back over the off-axis places in order.
   */
  method TetrahedralRotation<P>(vertices: seq<TetrahedralVertex<P>>, axis: int) returns (r: seq<TetrahedralVertex<P>>)
    ensures r == Rotation(vertices, axis)
  {
    var newVertices := vertices;
    var others := Others(vertices, axis);
    others := RotateLeft(others);
    var j := 0;
    for i := 0 to |newVertices|
      invariant |newVertices| == |vertices|
      invariant j == |OthersUpTo(vertices, axis, i)|
      invariant forall k :: 0 <= k < i ==> newVertices[k] == Rotation(vertices, axis)[k]
      invariant forall k :: i <= k < |vertices| ==> newVertices[k] == vertices[k]
    {
      var v := newVertices[i];
      if v.id != axis {
        OffAxisSlot(vertices, axis, i);
        newVertices := newVertices[i := others[j]];
        j := j + 1;
      }
    }
    r := newVertices;
  }

  // ---------------------------------------------------------------------------
  // What the rotation keeps and what it moves
  // ---------------------------------------------------------------------------

  /** No vertex of Others lies on the axis, nor does any of its rotation. */
  lemma {:induction false} OthersOffAxis<P>(vs: seq<TetrahedralVertex<P>>, axis: int, i: int)
    requires 0 <= i <= |vs|
    ensures forall k :: 0 <= k < |OthersUpTo(vs, axis, i)| ==> OthersUpTo(vs, axis, i)[k].id != axis
    decreases i
  {
    if i > 0 {
      OthersOffAxis(vs, axis, i - 1);
    }
  }

  lemma RotateLeftOffAxis<P>(o: seq<TetrahedralVertex<P>>, axis: int)
    requires forall k :: 0 <= k < |o| ==> o[k].id != axis
    ensures forall k :: 0 <= k < |o| ==> RotateLeft(o)[k].id != axis
  {
    if o != [] {
      forall k | 0 <= k < |o|
        ensures RotateLeft(o)[k].id != axis
      {
        if k < |o| - 1 {
          assert RotateLeft(o)[k] == o[k + 1];
        } else {
          assert RotateLeft(o)[k] == o[0];
        }
      }
    }
  }

  /** Both lists keep the axis entries in the same places and agree on them. */
  ghost predicate SameAxisEntries<P>(a: seq<TetrahedralVertex<P>>, b: seq<TetrahedralVertex<P>>, axis: int)
  {
    |a| == |b| &&
    (forall i {:trigger a[i], b[i]} :: 0 <= i < |a| ==> (a[i].id == axis <==> b[i].id == axis)) &&
    (forall i {:trigger a[i], b[i]} :: 0 <= i < |a| && a[i].id == axis ==> a[i] == b[i])
  }

  /** With the same axis places, the off-axis vertices of two lists correspond place by place. */
  lemma {:induction false} OthersUpToSameShape<P>(a: seq<TetrahedralVertex<P>>, b: seq<TetrahedralVertex<P>>, axis: int, i: int)
    requires SameAxisEntries(a, b, axis) && 0 <= i <= |a|
    ensures |OthersUpTo(a, axis, i)| == |OthersUpTo(b, axis, i)|
    decreases i
  {
    if i > 0 {
      OthersUpToSameShape(a, b, axis, i - 1);
    }
  }

  /** Every off-axis place k of r holds entry number |OthersUpTo(vs, axis, k)| of q. */
  ghost predicate Placed<P>(vs: seq<TetrahedralVertex<P>>, r: seq<TetrahedralVertex<P>>, q: seq<TetrahedralVertex<P>>, axis: int)
    requires |r| == |vs|
  {
    forall k {:trigger r[k]} :: 0 <= k < |vs| && vs[k].id != axis ==>
      |OthersUpTo(vs, axis, k)| < |q| && r[k] == q[|OthersUpTo(vs, axis, k)|]
  }

  /** If r places the entries of q in order, reading the off-axis entries of r back up to place i gives the first entries of q. */
  lemma {:induction false} OthersOfPlaced<P>(vs: seq<TetrahedralVertex<P>>, r: seq<TetrahedralVertex<P>>,
                                             q: seq<TetrahedralVertex<P>>, axis: int, i: int)
    requires 0 <= i <= |vs| && SameAxisEntries(vs, r, axis) && Placed(vs, r, q, axis)
    ensures |OthersUpTo(vs, axis, i)| <= |q|
    ensures OthersUpTo(r, axis, i) == q[..|OthersUpTo(vs, axis, i)|]
    decreases i
  {
    if i > 0 {
      OthersOfPlaced(vs, r, q, axis, i - 1);
      var n := |OthersUpTo(vs, axis, i - 1)|;
      var a := OthersUpTo(r, axis, i - 1);
      var v, w := vs[i - 1], r[i - 1];
      assert v.id == axis <==> w.id == axis;
      if v.id != axis {
        assert n < |q| && w == q[n];
        assert OthersUpTo(r, axis, i) == a + [w];
        assert |OthersUpTo(vs, axis, i)| == n + 1;
        assert q[..n + 1] == q[..n] + [q[n]];
      } else {
        assert OthersUpTo(r, axis, i) == a;
        assert |OthersUpTo(vs, axis, i)| == n;
      }
    }
  }

  /**
   * tetrahedral_rotation keeps the length and every entry on the axis, no
   * other entry lands on the axis, and the off-axis entries of the result
   * are those of the input rotated left by one.
   */
  lemma RotationSpec<P>(vs: seq<TetrahedralVertex<P>>, axis: int)
    ensures SameAxisEntries(vs, Rotation(vs, axis), axis)
    ensures Others(Rotation(vs, axis), axis) == RotateLeft(Others(vs, axis))
  {
    var r, q := Rotation(vs, axis), RotateLeft(Others(vs, axis));
    OthersOffAxis(vs, axis, |vs|);
    RotateLeftOffAxis(Others(vs, axis), axis);
    forall k | 0 <= k < |vs| && vs[k].id != axis
      ensures |OthersUpTo(vs, axis, k)| < |q| && r[k] == q[|OthersUpTo(vs, axis, k)|] && r[k].id != axis
    {
      OffAxisSlot(vs, axis, k);
    }
    assert SameAxisEntries(vs, r, axis);
    assert Placed(vs, r, q, axis);
    OthersOfPlaced(vs, r, q, axis, |vs|);
  }

  /** A list is determined by its axis entries and its off-axis vertices. */
  lemma Determined<P>(a: seq<TetrahedralVertex<P>>, b: seq<TetrahedralVertex<P>>, axis: int)
    requires SameAxisEntries(a, b, axis) && Others(a, axis) == Others(b, axis)
    ensures a == b
  {
    forall i | 0 <= i < |a|
      ensures a[i] == b[i]
    {
      if a[i].id != axis {
        OffAxisSlot(a, axis, i);
        OffAxisSlot(b, axis, i);
        OthersUpToSameShape(a, b, axis, i);
      }
    }
  }

  lemma SameAxisTrans<P>(a: seq<TetrahedralVertex<P>>, b: seq<TetrahedralVertex<P>>, c: seq<TetrahedralVertex<P>>, axis: int)
    requires SameAxisEntries(a, b, axis) && SameAxisEntries(b, c, axis)
    ensures SameAxisEntries(a, c, axis)
  {
    forall i | 0 <= i < |a|
      ensures (a[i].id == axis <==> c[i].id == axis) && (a[i].id == axis ==> a[i] == c[i])
    {
      var middle := b[i];
    }
  }

  /** Three left rotations of three elements give them back. */
  lemma RotateLeftThrice<X>(o: seq<X>)
    requires |o| == 3
    ensures RotateLeft(RotateLeft(RotateLeft(o))) == o
  {
    assert RotateLeft(o) == [o[1], o[2], o[0]];
    assert RotateLeft([o[1], o[2], o[0]]) == [o[2], o[0], o[1]];
    assert RotateLeft([o[2], o[0], o[1]]) == o;
  }

  /** With three vertices off the axis, as in a tetrahedron, three rotations are the identity. */
  lemma RotationThrice<P>(vs: seq<TetrahedralVertex<P>>, axis: int)
    requires |Others(vs, axis)| == 3
    ensures Rotation(Rotation(Rotation(vs, axis), axis), axis) == vs
  {
    var r1 := Rotation(vs, axis);
    var r2 := Rotation(r1, axis);
    var r3 := Rotation(r2, axis);
    RotationSpec(vs, axis);
    RotationSpec(r1, axis);
    RotationSpec(r2, axis);
    SameAxisTrans(vs, r1, r2, axis);
    SameAxisTrans(vs, r2, r3, axis);
    RotateLeftThrice(Others(vs, axis));
    Determined(vs, r3, axis);
  }
}
