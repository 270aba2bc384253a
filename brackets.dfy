/**
 * Bracket words: counting, nesting depth, balance and the projection onto
 * the bracket characters. The open and close characters are parameters so
 * that the same facts serve round brackets (tree renderings, partitions) and
 * square brackets (nested tuple expansions).
 */
module Brackets {

  /** The number of occurrences of c in s. */
  function Count(s: string, c: char): (n: nat)
    ensures n <= |s|
  {
    if s == [] then 0 else (if s[0] == c then 1 else 0) + Count(s[1..], c)
  }

  /** Opening minus closing brackets. */
  function Depth(s: string, o: char, c: char): int
  {
    Count(s, o) - Count(s, c)
  }

  /** No prefix closes more brackets than it opens. */
  ghost predicate NoDip(s: string, o: char, c: char)
  {
    forall k :: 0 <= k <= |s| ==> Depth(s[..k], o, c) >= 0
  }

  /** Equal numbers of opening and closing brackets, and no prefix dips below zero. */
  ghost predicate Balanced(s: string, o: char, c: char)
  {
    NoDip(s, o, c) && Depth(s, o, c) == 0
  }

  /** Every character is a round bracket. */
  predicate ParensOnly(s: string)
  {
    forall i :: 0 <= i < |s| ==> s[i] == '(' || s[i] == ')'
  }

  /** The round brackets of s, in order; every other character is dropped. */
  function Strip(s: string): (r: string)
    ensures ParensOnly(r) && |r| <= |s|
  {
    if s == [] then []
    else if s[0] == '(' || s[0] == ')' then [s[0]] + Strip(s[1..])
    else Strip(s[1..])
  }

  // ---------------------------------------------------------------------------
  // Counting
  // ---------------------------------------------------------------------------

  lemma {:induction false} CountAppend(a: string, b: string, c: char)
    ensures Count(a + b, c) == Count(a, c) + Count(b, c)
  {
    if a != [] {
      assert (a + b)[0] == a[0];
      assert (a + b)[1..] == a[1..] + b;
      CountAppend(a[1..], b, c);
    } else {
      assert a + b == b;
    }
  }

  lemma CountSingle(x: char, c: char)
    ensures Count([x], c) == if x == c then 1 else 0
  {
    assert [x][1..] == [];
  }

  lemma DepthAppend(a: string, b: string, o: char, c: char)
    ensures Depth(a + b, o, c) == Depth(a, o, c) + Depth(b, o, c)
  {
    CountAppend(a, b, o);
    CountAppend(a, b, c);
  }

  /** A single character moves the depth by at most one. */
  lemma DepthSingle(x: char, o: char, c: char)
    requires o != c
    ensures Depth([x], o, c) == if x == o then 1 else if x == c then -1 else 0
  {
    CountSingle(x, o);
    CountSingle(x, c);
  }

  /** Stripping keeps the round brackets, so it keeps their counts. */
  lemma {:induction false} StripCount(s: string, c: char)
    requires c == '(' || c == ')'
    ensures Count(Strip(s), c) == Count(s, c)
  {
    if s != [] {
      StripCount(s[1..], c);
      if s[0] == '(' || s[0] == ')' {
        assert ([s[0]] + Strip(s[1..]))[1..] == Strip(s[1..]);
      }
    }
  }

  lemma {:induction false} StripAppend(a: string, b: string)
    ensures Strip(a + b) == Strip(a) + Strip(b)
  {
    if a != [] {
      assert (a + b)[0] == a[0];
      assert (a + b)[1..] == a[1..] + b;
      StripAppend(a[1..], b);
    } else {
      assert a + b == b;
    }
  }

  /** A word of round brackets only is its own projection. */
  lemma {:induction false} StripParensOnly(s: string)
    requires ParensOnly(s)
    ensures Strip(s) == s
  {
    if s != [] {
      assert ParensOnly(s[1..]) by {
        forall i | 0 <= i < |s[1..]|
          ensures s[1..][i] == '(' || s[1..][i] == ')'
        {
          assert s[1..][i] == s[i + 1];
        }
      }
      StripParensOnly(s[1..]);
    }
  }

  lemma StripIdempotent(s: string)
    ensures Strip(Strip(s)) == Strip(s)
  {
    StripParensOnly(Strip(s));
  }

  lemma ParensOnlyAppend(a: string, b: string)
    requires ParensOnly(a) && ParensOnly(b)
    ensures ParensOnly(a + b)
  {
    forall i | 0 <= i < |a + b|
      ensures (a + b)[i] == '(' || (a + b)[i] == ')'
    {
      if i < |a| {
        assert (a + b)[i] == a[i];
      } else {
        assert (a + b)[i] == b[i - |a|];
      }
    }
  }

  // ---------------------------------------------------------------------------
  // Balance
  // ---------------------------------------------------------------------------

  lemma EmptyBalanced(o: char, c: char)
    ensures Balanced([], o, c)
  {
    var e: string := [];
    assert e[..0] == e;
  }

  lemma {:induction false} CountAbsent(s: string, c: char)
    requires forall i :: 0 <= i < |s| ==> s[i] != c
    ensures Count(s, c) == 0
  {
    if s != [] {
      assert forall i :: 0 <= i < |s[1..]| ==> s[1..][i] == s[i + 1];
      CountAbsent(s[1..], c);
    }
  }

  /** A word holding neither bracket is balanced. */
  lemma BalancedFree(s: string, o: char, c: char)
    requires forall i :: 0 <= i < |s| ==> s[i] != o && s[i] != c
    ensures Balanced(s, o, c)
  {
    forall k | 0 <= k <= |s|
      ensures Depth(s[..k], o, c) == 0
    {
      assert forall i :: 0 <= i < |s[..k]| ==> s[..k][i] == s[i];
      CountAbsent(s[..k], o);
      CountAbsent(s[..k], c);
    }
    CountAbsent(s, o);
    CountAbsent(s, c);
  }

  /** Balanced words are closed under concatenation. */
  lemma BalancedConcat(a: string, b: string, o: char, c: char)
    requires Balanced(a, o, c) && Balanced(b, o, c)
    ensures Balanced(a + b, o, c)
  {
    DepthAppend(a, b, o, c);
    forall k | 0 <= k <= |a + b|
      ensures Depth((a + b)[..k], o, c) >= 0
    {
      if k <= |a| {
        assert (a + b)[..k] == a[..k];
      } else {
        assert (a + b)[..k] == a + b[..k - |a|];
        DepthAppend(a, b[..k - |a|], o, c);
      }
    }
  }

  /** Wrapping a balanced word in one pair of brackets keeps it balanced. */
  lemma BalancedWrap(a: string, o: char, c: char)
    requires o != c && Balanced(a, o, c)
    ensures Balanced([o] + a + [c], o, c)
  {
    var w := [o] + a + [c];
    DepthSingle(o, o, c);
    DepthSingle(c, o, c);
    DepthAppend([o] + a, [c], o, c);
    DepthAppend([o], a, o, c);
    forall k | 0 <= k <= |w|
      ensures Depth(w[..k], o, c) >= 0
    {
      if k == 0 {
        assert w[..k] == [];
      } else if k <= |a| + 1 {
        assert w[..k] == [o] + a[..k - 1];
        DepthAppend([o], a[..k - 1], o, c);
      } else {
        assert w[..k] == w;
      }
    }
  }

  /** A balanced word cannot start with a closing bracket. */
  lemma FirstNotClose(u: string, o: char, c: char)
    requires o != c && Balanced(u, o, c) && u != []
    ensures u[0] != c
  {
    assert u[..1] == [u[0]];
    DepthSingle(u[0], o, c);
  }

  /** Dropping a leading non-bracket keeps a word balanced. */
  lemma BalancedDropOther(u: string, o: char, c: char)
    requires o != c && Balanced(u, o, c) && u != [] && u[0] != o && u[0] != c
    ensures Balanced(u[1..], o, c)
  {
    var v := u[1..];
    DepthSingle(u[0], o, c);
    assert u == [u[0]] + v;
    DepthAppend([u[0]], v, o, c);
    forall k | 0 <= k <= |v|
      ensures Depth(v[..k], o, c) >= 0
    {
      assert u[..k + 1] == [u[0]] + v[..k];
      DepthAppend([u[0]], v[..k], o, c);
    }
  }

  /** The first position after the start where the depth is back at zero. */
  lemma {:induction false} FirstReturn(u: string, o: char, c: char, m: int) returns (k: int)
    requires Balanced(u, o, c) && 1 <= m <= |u|
    requires forall j :: 1 <= j < m ==> Depth(u[..j], o, c) >= 1
    ensures m <= k <= |u| && Depth(u[..k], o, c) == 0
    ensures forall j :: 1 <= j < k ==> Depth(u[..j], o, c) >= 1
    decreases |u| - m
  {
    if Depth(u[..m], o, c) == 0 {
      k := m;
    } else {
      assert u[..|u|] == u;
      k := FirstReturn(u, o, c, m + 1);
    }
  }

  /**
   * A balanced word that starts with an opening bracket splits as
   * o v c x, with v and x balanced: c closes the first bracket.
   */
  lemma BalancedSplit(u: string, o: char, c: char) returns (k: int)
    requires o != c && Balanced(u, o, c) && u != [] && u[0] == o
    ensures 2 <= k <= |u| && u[k - 1] == c
    ensures Balanced(u[1..k - 1], o, c) && Balanced(u[k..], o, c)
  {
    k := FirstReturn(u, o, c, 1);
    assert u[..1] == [o];
    DepthSingle(o, o, c);
    assert u[..k] == u[..k - 1] + [u[k - 1]];
    DepthAppend(u[..k - 1], [u[k - 1]], o, c);
    DepthSingle(u[k - 1], o, c);
    var v, x := u[1..k - 1], u[k..];
    assert u[..k - 1] == [o] + v;
    DepthAppend([o], v, o, c);
    forall m | 0 <= m <= |v|
      ensures Depth(v[..m], o, c) >= 0
    {
      assert u[..m + 1] == [o] + v[..m];
      DepthAppend([o], v[..m], o, c);
    }
    assert u == u[..k] + x;
    DepthAppend(u[..k], x, o, c);
    forall m | 0 <= m <= |x|
      ensures Depth(x[..m], o, c) >= 0
    {
      assert u[..k + m] == u[..k] + x[..m];
      DepthAppend(u[..k], x[..m], o, c);
    }
  }
}
