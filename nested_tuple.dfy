/**
 * Nested tuple expressions of the systems: a level with optional children.
 *
 * `Repr` is how such an expression prints, `Expand` writes out the
 * self-similar form in which system L holds L copies of system L - 1, and
 * `ToArray` builds that form as a nested list. The expanded text is the
 * nested list written compactly, and both printed forms balance their
 * square brackets.
 */
module NestedTuples {
  import opened Decimal
  import opened Brackets
  import opened Binomial
  import Primes

  datatype NestedTuple = NestedTuple(level: int, children: seq<NestedTuple>)

  /** A Python list whose leaves are integers. */
  datatype PyList = Atom(value: int) | Items(items: seq<PyList>)

  /** sep.join(parts). */
  function Join(parts: seq<string>, sep: string): string
    decreases |parts|
  {
    if parts == [] then ""
    else if |parts| == 1 then parts[0]
    else parts[0] + sep + Join(parts[1..], sep)
  }

  /** __repr__: "[level]" without children, else "[level[c1,c2,...]]". */
  function Repr(t: NestedTuple): string
    decreases t
  {
    if t.children == [] then "[" + IntToString(t.level) + "]"
    else
      var parts := seq(|t.children|, i requires 0 <= i < |t.children| => Repr(t.children[i]));
      "[" + IntToString(t.level) + "[" + Join(parts, ",") + "]]"
  }

  /** expand: "[1]" up to level 1, else level comma-joined copies of the expansion one level down, in brackets. */
  function Expand(t: NestedTuple): string
    decreases t.level
  {
    if t.level <= 1 then "[1]"
    else
      var prev := Expand(NestedTuple(t.level - 1, []));
      "[" + Join(seq(t.level, _ => prev), ",") + "]"
  }

  /** to_array: [1] up to level 1, else a list of level copies of the array one level down. */
  function ToArray(t: NestedTuple): PyList
    decreases t.level
  {
    if t.level <= 1 then Items([Atom(1)])
    else
      var prev := ToArray(NestedTuple(t.level - 1, []));
      Items(seq(t.level, _ => prev))
  }

  /** system_nested_tuple(n): the level-n tuple, with no children. */
  function SystemNestedTuple(n: int): (t: NestedTuple)
    ensures t.level == n && t.children == []
  {
    NestedTuple(n, [])
  }

  /** A nested list written with "," between items and no spaces. */
  function Compact(p: PyList): string
    decreases p
  {
    match p
    case Atom(v) => IntToString(v)
    case Items(xs) =>
      "[" + Join(seq(|xs|, i requires 0 <= i < |xs| => Compact(xs[i])), ",") + "]"
  }

  /** The number of integers in a nested list. */
  function Leaves(p: PyList): nat
    decreases p
  {
    match p
    case Atom(_) => 1
    case Items(xs) => Sum(seq(|xs|, i requires 0 <= i < |xs| => Leaves(xs[i])))
  }

  // ---------------------------------------------------------------------------
  // Expansion and arrays
  // ---------------------------------------------------------------------------

  /** to_array is [1] up to level 1, else exactly level equal items, each the array one level down; children play no part. */
  lemma ToArrayShape(t: NestedTuple)
    ensures ToArray(t) == ToArray(NestedTuple(t.level, []))
    ensures t.level <= 1 ==> ToArray(t) == Items([Atom(1)])
    ensures t.level > 1 ==>
      (ToArray(t).Items? && |ToArray(t).items| == t.level &&
       forall i :: 0 <= i < t.level ==> ToArray(t).items[i] == ToArray(NestedTuple(t.level - 1, [])))
  {
  }

  /** The expanded text is exactly the array written compactly. */
  lemma {:induction false} ExpandIsCompactArray(t: NestedTuple)
    ensures Expand(t) == Compact(ToArray(t))
    decreases t.level
  {
    if t.level <= 1 {
      assert Compact(Atom(1)) == "1";
      assert Compact(Items([Atom(1)])) == "[" + Join(["1"], ",") + "]";
    } else {
      var down := NestedTuple(t.level - 1, []);
      ExpandIsCompactArray(down);
      var xs := ToArray(t).items;
      assert seq(t.level, _ => Expand(down)) == seq(|xs|, i requires 0 <= i < |xs| => Compact(xs[i]));
    }
  }

  lemma {:induction false} SumConstant(n: nat, x: nat)
    ensures Sum(seq(n, _ => x)) == n * x
  {
    if n > 0 {
      assert seq(n, _ => x)[1..] == seq(n - 1, _ => x);
      SumConstant(n - 1, x);
    }
  }

  /** The array of level L holds L! ones (one for levels up to 1). */
  lemma {:induction false} ToArrayLeaves(t: NestedTuple)
    ensures Leaves(ToArray(t)) == Primes.Factorial(if t.level <= 1 then 1 else t.level)
    decreases t.level
  {
    if t.level <= 1 {
      var xs := [Atom(1)];
      assert seq(|xs|, i requires 0 <= i < |xs| => Leaves(xs[i])) == [1];
      assert Sum([1]) == 1 + Sum([]);
    } else {
      var down := NestedTuple(t.level - 1, []);
      ToArrayLeaves(down);
      var xs := ToArray(t).items;
      var prev := ToArray(down);
      assert seq(|xs|, i requires 0 <= i < |xs| => Leaves(xs[i])) == seq(t.level, _ => Leaves(prev));
      SumConstant(t.level, Leaves(prev));
    }
  }

  // ---------------------------------------------------------------------------
  // Balanced square brackets
  // ---------------------------------------------------------------------------

  lemma IntToStringNoBrackets(n: int)
    ensures forall i :: 0 <= i < |IntToString(n)| ==> IntToString(n)[i] != '[' && IntToString(n)[i] != ']'
  {
    var s := IntToString(n);
    if n < 0 {
      forall i | 0 < i < |s|
        ensures s[i] != '[' && s[i] != ']'
      {
        assert s[i] == s[1..][i - 1];
      }
    }
  }

  /** Joining balanced parts with a balanced separator gives a balanced word. */
  lemma {:induction false} JoinBalanced(parts: seq<string>, sep: string)
    requires forall i :: 0 <= i < |parts| ==> Balanced(parts[i], '[', ']')
    requires Balanced(sep, '[', ']')
    ensures Balanced(Join(parts, sep), '[', ']')
    decreases |parts|
  {
    if parts == [] {
      EmptyBalanced('[', ']');
    } else if |parts| > 1 {
      JoinBalanced(parts[1..], sep);
      BalancedConcat(parts[0], sep, '[', ']');
      BalancedConcat(parts[0] + sep, Join(parts[1..], sep), '[', ']');
    }
  }

  lemma CommaBalanced()
    ensures Balanced(",", '[', ']')
  {
    BalancedFree(",", '[', ']');
  }

  /** The expansion balances its square brackets. */
  lemma {:induction false} ExpandBalanced(t: NestedTuple)
    ensures Balanced(Expand(t), '[', ']')
    decreases t.level
  {
    if t.level <= 1 {
      BalancedFree("1", '[', ']');
      BalancedWrap("1", '[', ']');
      assert ['['] + "1" + [']'] == "[1]";
    } else {
      var down := NestedTuple(t.level - 1, []);
      ExpandBalanced(down);
      CommaBalanced();
      var parts := seq(t.level, _ => Expand(down));
      JoinBalanced(parts, ",");
      BalancedWrap(Join(parts, ","), '[', ']');
      assert ['['] + Join(parts, ",") + [']'] == "[" + Join(parts, ",") + "]";
    }
  }

  /** "[" + x + "]" balances when x does. */
  lemma Bracketed(x: string)
    requires Balanced(x, '[', ']')
    ensures Balanced("[" + x + "]", '[', ']')
  {
    BalancedWrap(x, '[', ']');
    assert ['['] + x + [']'] == "[" + x + "]";
  }

  /** "[" + l + "[" + j + "]]" balances when l and j do. */
  lemma BracketedItems(l: string, j: string)
    requires Balanced(l, '[', ']') && Balanced(j, '[', ']')
    ensures Balanced("[" + l + "[" + j + "]]", '[', ']')
  {
    var inner := "[" + j + "]";
    Bracketed(j);
    BalancedConcat(l, inner, '[', ']');
    Bracketed(l + inner);
    assert "[" + (l + inner) + "]" == "[" + l + "[" + j + "]]";
  }

  /** The printed form balances its square brackets, whatever the children. */
  lemma {:induction false} ReprBalanced(t: NestedTuple)
    ensures Balanced(Repr(t), '[', ']')
    decreases t
  {
    var l := IntToString(t.level);
    IntToStringNoBrackets(t.level);
    BalancedFree(l, '[', ']');
    if t.children == [] {
      Bracketed(l);
    } else {
      var parts := seq(|t.children|, i requires 0 <= i < |t.children| => Repr(t.children[i]));
      forall i | 0 <= i < |parts|
        ensures Balanced(parts[i], '[', ']')
      {
        ReprBalanced(t.children[i]);
      }
      CommaBalanced();
      JoinBalanced(parts, ",");
      BracketedItems(l, Join(parts, ","));
    }
  }

  // ---------------------------------------------------------------------------
  // system_nested_tuple
  // ---------------------------------------------------------------------------

  /** The system tuple prints as "[n]", and different systems print differently. */
  lemma SystemRepr(m: int, n: int)
    ensures Repr(SystemNestedTuple(n)) == "[" + IntToString(n) + "]"
    ensures Repr(SystemNestedTuple(m)) == Repr(SystemNestedTuple(n)) ==> m == n
  {
    var a, b := IntToString(m), IntToString(n);
    if Repr(SystemNestedTuple(m)) == Repr(SystemNestedTuple(n)) {
      assert a == Repr(SystemNestedTuple(m))[1..|a| + 1];
      assert b == Repr(SystemNestedTuple(n))[1..|b| + 1];
      IntToStringInjective(m, n);
    }
  }

  lemma JoinCopies(x: string, sep: string)
    ensures Join(seq(2, _ => x), sep) == x + sep + x
    ensures Join(seq(3, _ => x), sep) == x + sep + x + sep + x
  {
    assert seq(2, _ => x) == [x, x] && [x, x][1..] == [x];
    assert seq(3, _ => x) == [x, x, x] && [x, x, x][1..] == [x, x];
  }

  /** Level 2 expands to two copies of "[1]". */
  lemma ExpandLevel2()
    ensures Expand(NestedTuple(2, [])) == "[[1],[1]]"
  {
    var one := Expand(NestedTuple(1, []));
    JoinCopies(one, ",");
    assert "[" + (one + "," + one) + "]" == "[[1],[1]]";
  }

  /** Level 3 expands to three copies of the level-2 expansion. */
  lemma ExpandLevel3()
    ensures Expand(NestedTuple(3, [])) == "[[[1],[1]],[[1],[1]],[[1],[1]]]"
  {
    ExpandLevel2();
    var two := Expand(NestedTuple(2, []));
    JoinCopies(two, ",");
    assert "[" + (two + "," + two + "," + two) + "]" == "[[[1],[1]],[[1],[1]],[[1],[1]]]";
  }
}
