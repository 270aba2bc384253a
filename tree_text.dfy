/**
 * Trees as bracket text: the renderer tree_to_nested_parens and the lenient
 * recursive-descent parser behind partition_to_tree.
 *
 * The parser never fails. It skips every character that is not a round
 * bracket, and a stray ')' simply ends the current list of children. It only
 * builds childful-or-childless nodes, so its trees are all `Node`s.
 */
module TreeText {
  import opened Matula
  import opened Brackets

  /** tree_to_nested_parens: the empty tree is "", a childless tree "()", otherwise its children in brackets. */
  function TreeToNestedParens(t: Tree): string
    decreases t, 1
  {
    match t
    case Empty => ""
    case Leaf => "()"
    case Node(cs) => "(" + ParensAll(cs) + ")"
  }

  /** The renderings of the children, concatenated. */
  function ParensAll(cs: seq<Tree>): string
    decreases cs, 0
  {
    if cs == [] then "" else TreeToNestedParens(cs[0]) + ParensAll(cs[1..])
  }

  /** The number of nodes: the empty tree has none. */
  function Size(t: Tree): nat
    decreases t, 1
  {
    match t
    case Empty => 0
    case Leaf => 1
    case Node(cs) => 1 + SizeAll(cs)
  }

  function SizeAll(cs: seq<Tree>): nat
    decreases cs, 0
  {
    if cs == [] then 0 else Size(cs[0]) + SizeAll(cs[1..])
  }

  // ---------------------------------------------------------------------------
  // Rendering
  // ---------------------------------------------------------------------------

  /** Every rendering is a balanced word of round brackets with one '(' per node. */
  lemma {:induction false} RenderWellFormed(t: Tree)
    ensures var r := TreeToNestedParens(t);
      Balanced(r, '(', ')') && ParensOnly(r) && Count(r, '(') == Size(t)
    decreases t, 1
  {
    match t
    case Empty =>
      EmptyBalanced('(', ')');
    case Leaf =>
      EmptyBalanced('(', ')');
      BalancedWrap([], '(', ')');
      assert "()" == ['('] + [] + [')'];
      CountAppend("(", ")", '(');
      CountSingle('(', '(');
      CountSingle(')', '(');
    case Node(cs) =>
      var inner := ParensAll(cs);
      ParensAllWellFormed(cs);
      BalancedWrap(inner, '(', ')');
      assert "(" + inner + ")" == ['('] + inner + [')'];
      ParensOnlyAppend("(", inner);
      ParensOnlyAppend("(" + inner, ")");
      CountAppend("(" + inner, ")", '(');
      CountAppend("(", inner, '(');
      CountSingle('(', '(');
      CountSingle(')', '(');
  }

  lemma {:induction false} ParensAllWellFormed(cs: seq<Tree>)
    ensures var r := ParensAll(cs);
      Balanced(r, '(', ')') && ParensOnly(r) && Count(r, '(') == SizeAll(cs)
    decreases cs, 0
  {
    if cs == [] {
      EmptyBalanced('(', ')');
    } else {
      var head, rest := TreeToNestedParens(cs[0]), ParensAll(cs[1..]);
      RenderWellFormed(cs[0]);
      ParensAllWellFormed(cs[1..]);
      BalancedConcat(head, rest, '(', ')');
      ParensOnlyAppend(head, rest);
      CountAppend(head, rest, '(');
    }
  }

  lemma ParensAllCons(c: Tree, cs: seq<Tree>)
    ensures ParensAll([c] + cs) == TreeToNestedParens(c) + ParensAll(cs)
  {
    assert ([c] + cs)[0] == c;
    assert ([c] + cs)[1..] == cs;
  }

  // ---------------------------------------------------------------------------
  // Parsing
  // ---------------------------------------------------------------------------

  /**
   * What parse(s, idx) returns, with the nested loop written as recursion:
   * the children found from index i and the index where it stops. A '('
   * parses one child and carries on after it, a ')' ends the list (and is
   * consumed), the end of the text ends it too, and any other character is
   * skipped.
   */
  function ParseAt(s: string, i: int): (r: (seq<Tree>, int))
    requires 0 <= i <= |s|
    ensures i <= r.1 <= |s|
    ensures i < |s| ==> i < r.1
    decreases |s| - i
  {
    if i == |s| then ([], i)
    else if s[i] == '(' then
      var a := ParseAt(s, i + 1);
      var b := ParseAt(s, a.1);
      ([Node(a.0)] + b.0, b.1)
    else if s[i] == ')' then ([], i + 1)
    else ParseAt(s, i + 1)
  }

  /** partition_to_tree: "" is a childless root; otherwise parse "(" + parens + ")" from index 1. */
  function PartitionTree(parens: string): Tree
  {
    if parens == [] then Node([])
    else Node(ParseAt("(" + parens + ")", 1).0)
  }

  /** The parse loop's invariant: the children collected so far, then what the rest of the text yields. */
  ghost predicate ParseLoop(s: string, idx: int, i: int, children: seq<Tree>)
    requires 0 <= idx <= i <= |s|
  {
    ParseAt(s, idx) == (children + ParseAt(s, i).0, ParseAt(s, i).1)
  }

  lemma ParseLoopOpen(s: string, idx: int, i: int, children: seq<Tree>, child: Tree, j: int)
    requires 0 <= idx <= i < |s| && s[i] == '(' && ParseLoop(s, idx, i, children)
    requires child == Node(ParseAt(s, i + 1).0) && j == ParseAt(s, i + 1).1
    ensures i < j <= |s| && ParseLoop(s, idx, j, children + [child])
  {
    assert children + ParseAt(s, i).0 == (children + [child]) + ParseAt(s, j).0;
  }

  /** parse(s, idx): the node for the children found from idx on, and the index after them. */
  method Parse(s: string, idx: int) returns (node: Tree, next: int)
    requires 0 <= idx <= |s|
    ensures node == Node(ParseAt(s, idx).0) && next == ParseAt(s, idx).1
    decreases |s| - idx
  {
    var children: seq<Tree> := [];
    var i := idx;
    assert children + ParseAt(s, i).0 == ParseAt(s, i).0;
    while i < |s|
      invariant idx <= i <= |s| && ParseLoop(s, idx, i, children)
      decreases |s| - i
    {
      if s[i] == '(' {
        var child, j := Parse(s, i + 1);
        ParseLoopOpen(s, idx, i, children, child, j);
        children := children + [child];
        i := j;
      } else if s[i] == ')' {
        assert children + [] == children;
        return Node(children), i + 1;
      } else {
        i := i + 1;
      }
    }
    assert children + [] == children;
    return Node(children), i;
  }

  /** partition_to_tree, calling the parse loop. */
  method PartitionToTree(parens: string) returns (t: Tree)
    ensures t == PartitionTree(parens)
  {
    if parens == [] {
      return Node([]);
    }
    var wrapped := "(" + parens + ")";
    var result, _ := Parse(wrapped, 1);
    return result;
  }

  // ---------------------------------------------------------------------------
  // What the parser reads
  // ---------------------------------------------------------------------------

  lemma StripCons(t: string)
    requires t != []
    ensures Strip(t) == if t[0] == '(' || t[0] == ')' then [t[0]] + Strip(t[1..]) else Strip(t[1..])
  {
  }

  /** Where index i of s lands in the bracket projection of s. */
  function StripPos(s: string, i: int): (p: nat)
    requires 0 <= i <= |s|
    ensures p <= |Strip(s)|
  {
    assert s == s[..i] + s[i..];
    StripAppend(s[..i], s[i..]);
    |Strip(s[..i])|
  }

  /** One character moves the projected position by one if it is a bracket, else not at all. */
  lemma StripStep(s: string, i: int)
    requires 0 <= i < |s|
    ensures StripPos(s, |s|) == |Strip(s)|
    ensures s[i] == '(' || s[i] == ')' ==>
      StripPos(s, i) < |Strip(s)| && Strip(s)[StripPos(s, i)] == s[i] && StripPos(s, i + 1) == StripPos(s, i) + 1
    ensures s[i] != '(' && s[i] != ')' ==> StripPos(s, i + 1) == StripPos(s, i)
  {
    assert s[..|s|] == s;
    assert s[..i + 1] == s[..i] + [s[i]];
    StripAppend(s[..i], [s[i]]);
    assert s == s[..i + 1] + s[i + 1..];
    StripAppend(s[..i + 1], s[i + 1..]);
  }

  /**
   * Characters other than round brackets make no difference to the parse:
   * parsing the bracket projection from the matching position gives the same
   * children and stops at the matching position.
   */
  lemma {:induction false} ParseStrip(s: string, i: int)
    requires 0 <= i <= |s|
    ensures ParseAt(Strip(s), StripPos(s, i)) == (ParseAt(s, i).0, StripPos(s, ParseAt(s, i).1))
    decreases |s| - i
  {
    if i == |s| {
      assert s[..|s|] == s;
    } else {
      StripStep(s, i);
      if s[i] == '(' {
        var a := ParseAt(s, i + 1);
        ParseStrip(s, i + 1);
        ParseStrip(s, a.1);
      } else if s[i] != ')' {
        ParseStrip(s, i + 1);
      }
    }
  }

  /** partition_to_tree only looks at the round brackets of its input. */
  lemma PartitionIgnoresOthers(parens: string)
    ensures PartitionTree(parens) == PartitionTree(Strip(parens))
  {
    if parens != [] {
      var w := "(" + parens + ")";
      StripAppend("(" + parens, ")");
      StripAppend("(", parens);
      assert Strip("(") == "(" && Strip(")") == ")";
      assert w[..1] == "(";
      ParseStrip(w, 1);
      if Strip(parens) == [] {
        assert Strip(w) == "()";
      }
    }
  }

  /** In particular a text without round brackets parses to a childless root. */
  lemma PartitionNoBrackets(parens: string)
    requires Strip(parens) == []
    ensures PartitionTree(parens) == Node([])
  {
    PartitionIgnoresOthers(parens);
  }

  /** The parse from i closes at the ')' at index n, and its children render to the brackets in between. */
  ghost predicate ClosesAt(s: string, i: int, n: int)
    requires 0 <= i <= n < |s|
  {
    && ParseAt(s, i).1 == n + 1
    && ParensAll(ParseAt(s, i).0) == Strip(s[i..n])
  }

  /**
   * On a balanced stretch s[i..n] followed by a ')', the parse consumes
   * exactly that stretch and the bracket, and the children it returns render
   * back to the brackets of the stretch.
   */
  lemma {:induction false} ParseBalanced(s: string, i: int, n: int)
    requires 0 <= i <= n < |s| && s[n] == ')' && Balanced(s[i..n], '(', ')')
    ensures ClosesAt(s, i, n)
    decreases n - i
  {
    var u := s[i..n];
    if i == n {
      assert u == [];
    } else {
      assert u[0] == s[i];
      FirstNotClose(u, '(', ')');
      if s[i] == '(' {
        var k := BalancedSplit(u, '(', ')');
        SliceOfSlice(s, i, n, 1, k - 1);
        SliceOfSlice(s, i, n, k, n - i);
        ParseBalanced(s, i + 1, i + k - 1);
        ParseBalanced(s, i + k, n);
        ParseBalancedOpen(s, i, n, k);
      } else {
        BalancedDropOther(u, '(', ')');
        SliceOfSlice(s, i, n, 1, n - i);
        ParseBalanced(s, i + 1, n);
        StripCons(u);
      }
    }
  }

  lemma SliceOfSlice(s: string, i: int, n: int, a: int, b: int)
    requires 0 <= i <= n <= |s| && 0 <= a <= b <= n - i
    ensures s[i..n][a..b] == s[i + a..i + b]
  {
    forall j | 0 <= j < b - a
      ensures s[i..n][a..b][j] == s[i + a..i + b][j]
    {
      assert s[i..n][a..b][j] == s[i..n][a + j] == s[i + a + j];
    }
  }

  lemma ParseBalancedOpen(s: string, i: int, n: int, k: int)
    requires 0 <= i && i + 2 <= i + k <= n < |s| && s[i] == '(' && s[i + k - 1] == ')'
    requires ClosesAt(s, i + 1, i + k - 1) && ClosesAt(s, i + k, n)
    ensures ClosesAt(s, i, n)
  {
    var a, b := ParseAt(s, i + 1), ParseAt(s, i + k);
    ParensAllCons(Node(a.0), b.0);
    var v, x := s[i + 1..i + k - 1], s[i + k..n];
    assert s[i..i + 1] == "(" && s[i + k - 1..i + k] == ")";
    assert s[i..n] == s[i..i + 1] + v + s[i + k - 1..i + k] + x;
    StripAppend("(" + v + ")", x);
    StripAppend("(" + v, ")");
    StripAppend("(", v);
    assert Strip("(") == "(" && Strip(")") == ")";
  }

  /**
   * For a balanced input the children of the result render back to the
   * brackets of the input, and there is one node per '(' of the input.
   */
  lemma PartitionBalanced(parens: string)
    requires Balanced(parens, '(', ')')
    ensures ParensAll(PartitionTree(parens).children) == Strip(parens)
    ensures SizeAll(PartitionTree(parens).children) == Count(parens, '(')
  {
    var cs := PartitionTree(parens).children;
    if parens != [] {
      var w := "(" + parens + ")";
      assert w[1..|parens| + 1] == parens;
      ParseBalanced(w, 1, |parens| + 1);
    }
    ParensAllWellFormed(cs);
    StripCount(parens, '(');
  }

  /** Parsing a rendering gives back children that render to the same text. */
  lemma ParseRender(t: Tree)
    ensures ParensAll(PartitionTree(TreeToNestedParens(t)).children) == TreeToNestedParens(t)
  {
    var r := TreeToNestedParens(t);
    RenderWellFormed(t);
    PartitionBalanced(r);
    StripParensOnly(r);
  }
}
