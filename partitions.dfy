/**
 * Topological surfaces as bracket words: generate_partitions, the
 * backtracking enumeration of the Dyck words with n pairs, and
 * catalan_number, which counts them.
 *
 * The enumeration is sound (every word it yields is balanced), complete
 * (every balanced word of that length is yielded), yields no word twice,
 * and yields exactly catalan_number(n) words.
 */
module Partitions {
  import opened Arith
  import opened Brackets
  import opened Binomial

  /**
   * backtrack(s, open_count, close_count): the words generated from the
   * prefix s, in the order the generator yields them.
   */
  function Backtrack(n: int, s: string, open: nat, close: nat): seq<string>
    requires close <= open && |s| == open + close && (open <= n || open == 0)
    decreases 2 * n - open - close
  {
    if |s| == 2 * n then [s]
    else if open < n && close < open then
      Backtrack(n, s + "(", open + 1, close) + Backtrack(n, s + ")", open, close + 1)
    else if open < n then Backtrack(n, s + "(", open + 1, close)
    else if close < open then Backtrack(n, s + ")", open, close + 1)
    else []
  }

  /** generate_partitions(n): backtrack from the empty prefix. */
  function GeneratePartitions(n: int): seq<string>
  {
    Backtrack(n, "", 0, 0)
  }

  /** A Dyck word with n pairs. */
  ghost predicate DyckWord(w: string, n: int)
  {
    |w| == 2 * n && ParensOnly(w) && Balanced(w, '(', ')')
  }

  /** The prefix s has open '(' and close ')' and never dips below zero. */
  ghost predicate PrefixState(s: string, open: nat, close: nat)
  {
    ParensOnly(s) && NoDip(s, '(', ')') && Count(s, '(') == open && Count(s, ')') == close
  }

  /** No two positions hold the same word. */
  ghost predicate Distinct(r: seq<string>)
  {
    forall i, j :: 0 <= i < j < |r| ==> r[i] != r[j]
  }

  /** The ballot number: monotone lattice paths with a opens and b closes left that never dip. */
  function Ballot(a: int, b: int): int
  {
    Binom(a + b, a) - Binom(a + b, a - 1)
  }

  /**
   * catalan_number(n): math.comb(2n, n) floor-divided by n + 1; math.comb
   * raises ValueError for a negative n.
   */
  function CatalanNumber(n: int): Comb
  {
    match MathComb(2 * n, n)
    case CombError => CombError
    case CombValue(c) => CombValue(c / (n + 1))
  }

  // ---------------------------------------------------------------------------
  // Prefixes
  // ---------------------------------------------------------------------------

  /** Appending one bracket: the counts move by one and the depth stays >= 0 if it does at the end. */
  lemma StepState(s: string, open: nat, close: nat, x: char)
    requires PrefixState(s, open, close) && close <= open && (x == '(' || x == ')')
    requires x == ')' ==> close < open
    ensures PrefixState(s + [x], if x == '(' then open + 1 else open, if x == ')' then close + 1 else close)
  {
    var t := s + [x];
    CountAppend(s, [x], '(');
    CountAppend(s, [x], ')');
    CountSingle(x, '(');
    CountSingle(x, ')');
    ParensOnlyAppend(s, [x]);
    forall k | 0 <= k <= |t|
      ensures Depth(t[..k], '(', ')') >= 0
    {
      if k <= |s| {
        assert t[..k] == s[..k];
        assert Depth(s[..k], '(', ')') >= 0;
      } else {
        assert t[..k] == t;
      }
    }
  }

  /** Every prefix of a Dyck word is a valid prefix state. */
  lemma PrefixOfDyck(w: string, n: int, k: int)
    requires DyckWord(w, n) && 0 <= k <= |w|
    ensures PrefixState(w[..k], Count(w[..k], '('), Count(w[..k], ')'))
  {
    var p := w[..k];
    forall j | 0 <= j <= |p|
      ensures Depth(p[..j], '(', ')') >= 0
    {
      assert p[..j] == w[..j];
    }
    assert ParensOnly(p) by {
      forall i | 0 <= i < |p|
        ensures p[i] == '(' || p[i] == ')'
      {
        assert p[i] == w[i];
      }
    }
  }

  /** A word of round brackets has as many characters as brackets of either kind. */
  lemma {:induction false} CountBoth(s: string)
    requires ParensOnly(s)
    ensures Count(s, '(') + Count(s, ')') == |s|
  {
    if s != [] {
      assert ParensOnly(s[1..]) by {
        forall i | 0 <= i < |s[1..]|
          ensures s[1..][i] == '(' || s[1..][i] == ')'
        {
          assert s[1..][i] == s[i + 1];
        }
      }
      CountBoth(s[1..]);
    }
  }

  // ---------------------------------------------------------------------------
  // Soundness and completeness
  // ---------------------------------------------------------------------------

  /** A generated word is s itself at full length, else it comes from the '(' branch or the ')' branch. */
  lemma BacktrackMember(n: int, s: string, open: nat, close: nat, w: string)
    requires close <= open && |s| == open + close && (open <= n || open == 0)
    requires w in Backtrack(n, s, open, close)
    ensures |s| == 2 * n ==> w == s
    ensures |s| != 2 * n ==>
      (open < n && w in Backtrack(n, s + "(", open + 1, close)) ||
      (close < open && w in Backtrack(n, s + ")", open, close + 1))
  {
  }

  /** Every word of either branch is generated from s. */
  lemma BacktrackBranch(n: int, s: string, open: nat, close: nat, w: string)
    requires close <= open && |s| == open + close && (open <= n || open == 0) && |s| != 2 * n
    requires (open < n && w in Backtrack(n, s + "(", open + 1, close)) ||
      (close < open && w in Backtrack(n, s + ")", open, close + 1))
    ensures w in Backtrack(n, s, open, close)
  {
  }

  /** A word extending t = s + [x] extends s. */
  lemma ExtendsShorter(w: string, s: string, t: string)
    requires |t| == |s| + 1 && t[..|s|] == s && |t| <= |w| && w[..|t|] == t
    ensures |s| <= |w| && w[..|s|] == s
  {
    assert w[..|s|] == w[..|t|][..|s|];
  }

  /** Every word generated from s extends s. */
  lemma {:induction false} BacktrackExtends(n: int, s: string, open: nat, close: nat, w: string)
    requires close <= open && |s| == open + close && (open <= n || open == 0)
    requires w in Backtrack(n, s, open, close)
    ensures |s| <= |w| && w[..|s|] == s
    decreases 2 * n - open - close
  {
    BacktrackMember(n, s, open, close, w);
    if |s| != 2 * n {
      if open < n && w in Backtrack(n, s + "(", open + 1, close) {
        var t := s + "(";
        BacktrackExtends(n, t, open + 1, close, w);
        ExtendsShorter(w, s, t);
      } else {
        var t := s + ")";
        BacktrackExtends(n, t, open, close + 1, w);
        ExtendsShorter(w, s, t);
      }
    }
  }

  /** Every word generated from a valid prefix is a Dyck word. */
  lemma {:induction false} BacktrackSound(n: int, s: string, open: nat, close: nat, w: string)
    requires close <= open && |s| == open + close && (open <= n || open == 0)
    requires PrefixState(s, open, close) && w in Backtrack(n, s, open, close)
    ensures DyckWord(w, n)
    decreases 2 * n - open - close
  {
    BacktrackMember(n, s, open, close, w);
    if |s| == 2 * n {
      // open + close = 2n with close <= open <= n: both are n.
      assert DyckWord(s, n);
    } else if open < n && w in Backtrack(n, s + "(", open + 1, close) {
      StepState(s, open, close, '(');
      BacktrackSound(n, s + "(", open + 1, close, w);
    } else {
      StepState(s, open, close, ')');
      BacktrackSound(n, s + ")", open, close + 1, w);
    }
  }

  /** w is a Dyck word with n pairs and s a valid prefix of it with open '(' and close ')'. */
  ghost predicate OnTheWay(n: int, s: string, open: nat, close: nat, w: string)
  {
    close <= open && |s| == open + close && (open <= n || open == 0) &&
    PrefixState(s, open, close) && DyckWord(w, n) && |s| <= |w| && w[..|s|] == s
  }

  /** The next character of w is a bracket the generator may add after s. */
  lemma CompleteStep(n: int, s: string, open: nat, close: nat, w: string)
    requires OnTheWay(n, s, open, close, w) && |s| != 2 * n
    ensures |s| < |w|
    ensures w[|s|] == '(' ==> open < n && OnTheWay(n, s + "(", open + 1, close, w)
    ensures w[|s|] != '(' ==> close < open && OnTheWay(n, s + ")", open, close + 1, w)
  {
    var k := |s| + 1;
    var x := w[|s|];
    assert w[..k] == s + [x];
    PrefixOfDyck(w, n, k);
    CountAppend(s, [x], '(');
    CountAppend(s, [x], ')');
    CountSingle(x, '(');
    CountSingle(x, ')');
    // The whole word has n of each bracket, so no prefix has more than n of either.
    CountBoth(w);
    assert w == w[..k] + w[k..];
    CountAppend(w[..k], w[k..], '(');
    if x != '(' {
      assert Depth(w[..k], '(', ')') >= 0;
    }
  }

  /** Every Dyck word with n pairs that extends a valid prefix s is generated from s. */
  lemma {:induction false} BacktrackComplete(n: int, s: string, open: nat, close: nat, w: string)
    requires OnTheWay(n, s, open, close, w)
    ensures w in Backtrack(n, s, open, close)
    decreases 2 * n - open - close
  {
    if |s| == 2 * n {
      assert w == w[..|s|];
    } else {
      CompleteStep(n, s, open, close, w);
      if w[|s|] == '(' {
        BacktrackComplete(n, s + "(", open + 1, close, w);
      } else {
        BacktrackComplete(n, s + ")", open, close + 1, w);
      }
      BacktrackBranch(n, s, open, close, w);
    }
  }

  /** Python's string order: the first differing character decides, and a proper prefix comes first. */
  predicate LexLess(a: string, b: string)
    decreases |a|
  {
    if a == [] then b != []
    else b != [] && (a[0] < b[0] || (a[0] == b[0] && LexLess(a[1..], b[1..])))
  }

  /** Each word of r is smaller than every later one. */
  ghost predicate Increasing(r: seq<string>)
  {
    forall i, j :: 0 <= i < j < |r| ==> LexLess(r[i], r[j])
  }

  lemma {:induction false} LexIrreflexive(a: string)
    ensures !LexLess(a, a)
    decreases |a|
  {
    if a != [] {
      LexIrreflexive(a[1..]);
    }
  }

  /** A word extending s + "(" comes before a word extending s + ")". */
  lemma {:induction false} LexAtFork(a: string, b: string, s: string)
    requires |s| < |a| && |s| < |b|
    requires a[..|s| + 1] == s + "(" && b[..|s| + 1] == s + ")"
    ensures LexLess(a, b)
    decreases |s|
  {
    var k := |s| + 1;
    if s == [] {
      assert a[0] == a[..k][0] && b[0] == b[..k][0];
    } else {
      assert a[0] == a[..k][0] && b[0] == b[..k][0];
      assert a[1..][..|s|] == a[..k][1..] == s[1..] + "(";
      assert b[1..][..|s|] == b[..k][1..] == s[1..] + ")";
      LexAtFork(a[1..], b[1..], s[1..]);
    }
  }

  /** Joining the increasing '(' branch and the increasing ')' branch keeps the order. */
  lemma IncreasingFork(n: int, s: string, open: nat, close: nat)
    requires close <= open && |s| == open + close && open < n && close < open
    requires Increasing(Backtrack(n, s + "(", open + 1, close))
    requires Increasing(Backtrack(n, s + ")", open, close + 1))
    ensures Increasing(Backtrack(n, s + "(", open + 1, close) + Backtrack(n, s + ")", open, close + 1))
  {
    var sl, sr := s + "(", s + ")";
    var left, right := Backtrack(n, sl, open + 1, close), Backtrack(n, sr, open, close + 1);
    var r := left + right;
    forall i, j | 0 <= i < j < |r|
      ensures LexLess(r[i], r[j])
    {
      if j < |left| {
        assert r[i] == left[i] && r[j] == left[j];
      } else if i >= |left| {
        assert r[i] == right[i - |left|] && r[j] == right[j - |left|];
      } else {
        assert r[i] == left[i] && r[j] == right[j - |left|];
        BacktrackExtends(n, sl, open + 1, close, r[i]);
        BacktrackExtends(n, sr, open, close + 1, r[j]);
        LexAtFork(r[i], r[j], s);
      }
    }
  }

  /** backtrack yields its words in increasing order. */
  lemma {:induction false} BacktrackIncreasing(n: int, s: string, open: nat, close: nat)
    requires close <= open && |s| == open + close && (open <= n || open == 0)
    ensures Increasing(Backtrack(n, s, open, close))
    decreases 2 * n - open - close
  {
    if |s| == 2 * n {
    } else if open < n && close < open {
      BacktrackIncreasing(n, s + "(", open + 1, close);
      BacktrackIncreasing(n, s + ")", open, close + 1);
      IncreasingFork(n, s, open, close);
    } else if open < n {
      BacktrackIncreasing(n, s + "(", open + 1, close);
    } else if close < open {
      BacktrackIncreasing(n, s + ")", open, close + 1);
    }
  }

  /** An increasing list has no repeats. */
  lemma IncreasingDistinct(r: seq<string>)
    requires Increasing(r)
    ensures Distinct(r)
  {
    forall i, j | 0 <= i < j < |r|
      ensures r[i] != r[j]
    {
      LexIrreflexive(r[i]);
    }
  }

  /** generate_partitions(n) yields exactly the Dyck words with n pairs, in increasing order, each once. */
  lemma GenerateExactly(n: int)
    ensures Increasing(GeneratePartitions(n)) && Distinct(GeneratePartitions(n))
    ensures forall w :: w in GeneratePartitions(n) <==> DyckWord(w, n)
  {
    var e: string := [];
    EmptyBalanced('(', ')');
    assert PrefixState(e, 0, 0);
    BacktrackIncreasing(n, e, 0, 0);
    IncreasingDistinct(GeneratePartitions(n));
    forall w | w in GeneratePartitions(n)
      ensures DyckWord(w, n)
    {
      BacktrackSound(n, e, 0, 0, w);
    }
    forall w | DyckWord(w, n)
      ensures w in GeneratePartitions(n)
    {
      assert OnTheWay(n, e, 0, 0, w);
      BacktrackComplete(n, e, 0, 0, w);
    }
  }

  // ---------------------------------------------------------------------------
  // Counting
  // ---------------------------------------------------------------------------

  /** The ballot recurrence: the last step is an open or a close. */
  lemma BallotStep(a: int, b: int)
    requires 0 <= a <= b && 0 < b
    ensures Ballot(a, b) == (if a > 0 then Ballot(a - 1, b) else 0) + Ballot(a, b - 1)
  {
    if a > 0 {
      PascalRule(a + b, a);
      PascalRule(a + b, a - 1);
      if a == b {
        BinomSymmetric(a + b - 1, a);
      }
    }
  }

  /** With as many closes left as opens, a path may not start with a close. */
  lemma BallotDiagonal(a: int)
    requires a >= 1
    ensures Ballot(a, a - 1) == 0
  {
    BinomSymmetric(2 * a - 1, a - 1);
  }

  /** From a prefix with open '(' and close ')', n - open opens and n - close closes remain. */
  lemma {:induction false} BacktrackCount(n: int, s: string, open: nat, close: nat)
    requires close <= open && |s| == open + close && (open <= n || open == 0)
    ensures |Backtrack(n, s, open, close)| == Ballot(n - open, n - close)
    decreases 2 * n - open - close
  {
    var a, b := n - open, n - close;
    if |s| == 2 * n {
      assert a == 0 && b == 0;
    } else if open < n && close < open {
      BacktrackCount(n, s + "(", open + 1, close);
      BacktrackCount(n, s + ")", open, close + 1);
      BallotStep(a, b);
    } else if open < n {
      BacktrackCount(n, s + "(", open + 1, close);
      assert a == b;
      BallotDiagonal(a);
      BallotStep(a, b);
    } else if close < open {
      BacktrackCount(n, s + ")", open, close + 1);
      assert a == 0;
      BallotStep(a, b);
    } else {
      // Only a negative n leaves nothing to do before the full length.
      assert n < 0 && a == n && b == n;
      assert Binom(a + b, a) == 0 && Binom(a + b, a - 1) == 0;
    }
  }

  /** The floor division in catalan_number is exact: C(2n, n) = (n + 1)(C(2n, n) - C(2n, n - 1)). */
  lemma CatalanExact(n: int)
    requires n >= 0
    ensures Binom(2 * n, n) == (n + 1) * Ballot(n, n)
  {
    if n >= 1 {
      var c, d, e := Binom(2 * n, n), Binom(2 * n, n - 1), Binom(2 * n - 1, n - 1);
      Absorption(2 * n, n);
      assert n * c == 2 * n * e;
      AbsorptionLow(2 * n, n - 1);
      assert 2 * n - (n - 1) == n + 1;
      assert (n + 1) * d == 2 * n * e;
      CancelStep(n, c, d);
    }
  }

  /** catalan_number(n) is the ballot number C(2n, n) - C(2n, n - 1), and an error for n < 0. */
  lemma CatalanBallot(n: int)
    ensures CatalanNumber(n).CombError? <==> n < 0
    ensures n >= 0 ==> CatalanNumber(n).CombValue? && CatalanNumber(n).value == Ballot(n, n)
  {
    if n >= 0 {
      CatalanExact(n);
      DivModUnique(Binom(2 * n, n), n + 1, Ballot(n, n), 0);
    }
  }

  /** generate_partitions(n) yields catalan_number(n) words. */
  lemma PartitionCount(n: int)
    requires n >= 0
    ensures CatalanNumber(n) == CombValue(|GeneratePartitions(n)|)
  {
    BacktrackCount(n, "", 0, 0);
    CatalanBallot(n);
  }

  /** For n < 0 nothing is generated, and catalan_number raises. */
  lemma PartitionNegative(n: int)
    requires n < 0
    ensures GeneratePartitions(n) == [] && CatalanNumber(n) == CombError
  {
  }

  /** The words for zero, one and two pairs. */
  lemma PartitionExamples()
    ensures GeneratePartitions(0) == [""] && GeneratePartitions(1) == ["()"]
    ensures GeneratePartitions(2) == ["(())", "()()"]
  {
    assert "(" + ")" == "()" && "" + "(" == "(";
    assert Backtrack(1, "(", 1, 0) == ["()"];
    assert "(" + "(" == "((" && "((" + ")" == "(()" && "(()" + ")" == "(())";
    assert Backtrack(2, "(()", 2, 1) == ["(())"];
    assert Backtrack(2, "((", 2, 0) == ["(())"];
    assert "()" + "(" == "()(" && "()(" + ")" == "()()";
    assert Backtrack(2, "()(", 2, 1) == ["()()"];
    assert Backtrack(2, "()", 1, 1) == ["()()"];
    assert Backtrack(2, "(", 1, 0) == ["(())", "()()"];
  }

  /** The first Catalan numbers: 1, 1, 2, 5, 14, 42. */
  lemma CatalanExamples()
    ensures CatalanNumber(0) == CombValue(1) && CatalanNumber(1) == CombValue(1)
    ensures CatalanNumber(2) == CombValue(2) && CatalanNumber(3) == CombValue(5)
    ensures CatalanNumber(4) == CombValue(14) && CatalanNumber(5) == CombValue(42)
  {
    CentralValues();
  }
}
