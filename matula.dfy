/**
 * The Matula-style tree code: a positive integer n names a rooted tree by the
 * prime factorisation of n. This module's convention differs from the usual
 * Matula-Goebel one: 1 is the empty tree and 2 is a single leaf; for any
 * other n the root gets one child per prime factor p of n (with
 * multiplicity, ascending), namely the tree of p's position among the primes.
 * Encoding multiplies the k-th primes of the children's codes.
 */
module Matula {
  import opened Arith
  import opened Primes

  /** A rooted tree: no nodes at all, a single node, or a node with ordered children. */
  datatype Tree = Empty | Leaf | Node(children: seq<Tree>)

  /** m has no divisor in [2, p). */
  ghost predicate NoFactorBelow(m: int, p: int)
  {
    forall d :: 2 <= d < p ==> m % d != 0
  }

  ghost function Product(fs: seq<int>): int
  {
    if fs == [] then 1 else fs[0] * Product(fs[1..])
  }

  lemma ModSelf(m: int)
    ensures m != 0 ==> m % m == 0
  {
    if m != 0 {
      MulModZero(if m > 0 then m else -m, 1);
    }
  }

  /** A number of at least 2 without a divisor below p is at least p. */
  lemma CandidateBound(m: int, p: int)
    requires m >= 2 && NoFactorBelow(m, p)
    ensures p <= m
  {
    ModSelf(m);
  }

  /** The smallest divisor (at least 2) of a number is prime. */
  lemma LeastFactorIsPrime(m: int, p: int)
    requires m >= 2 && p >= 2 && m % p == 0 && NoFactorBelow(m, p)
    ensures Prime(p)
  {
    forall d | 2 <= d < p
      ensures p % d != 0
    {
      if p % d == 0 {
        DividesTrans(d, p, m);
      }
    }
  }

  /** The quotient by a divisor p >= 1 is a divisor too, and p times it is m. */
  lemma Quotient(m: int, p: int)
    requires m >= 1 && p >= 1 && m % p == 0
    ensures m == p * (m / p) && 1 <= m / p && m % (m / p) == 0
  {
    var q := m / p;
    assert m == p * q;
    if q <= 0 {
      MulMonotone(q, 0, p);
    }
    MulModZero(q, p);
  }

  /** Dividing out a factor keeps every divisor-freeness below p. */
  lemma NoFactorBelowQuotient(m: int, p: int)
    requires m >= 1 && p >= 2 && m % p == 0 && NoFactorBelow(m, p)
    ensures NoFactorBelow(m / p, p) && 1 <= m / p < m
  {
    Quotient(m, p);
    var q := m / p;
    forall d | 2 <= d < p
      ensures q % d != 0
    {
      if q % d == 0 {
        DividesTrans(d, q, m);
      }
    }
    if q >= m {
      MulMonotone(1, p, q);
    }
  }

  /** Putting the least prime factor p in front of the factors of temp / p lists the factors of temp. */
  lemma ConsFactor(temp: int, p: int, rest: seq<int>)
    requires p >= 2 && Prime(p) && p <= temp && temp % p == 0 && 1 <= temp / p < temp
    requires forall i :: 0 <= i < |rest| ==> Prime(rest[i]) && p <= rest[i] <= temp / p
    requires forall i, j :: 0 <= i <= j < |rest| ==> rest[i] <= rest[j]
    requires Product(rest) == temp / p
    ensures var fs := [p] + rest;
      && (forall i :: 0 <= i < |fs| ==> Prime(fs[i]) && p <= fs[i] <= temp)
      && (forall i, j :: 0 <= i <= j < |fs| ==> fs[i] <= fs[j])
      && Product(fs) == temp
  {
    var fs := [p] + rest;
    assert fs[1..] == rest;
    Quotient(temp, p);
    forall i | 0 <= i < |fs|
      ensures Prime(fs[i]) && p <= fs[i] <= temp
    {
      if i > 0 {
        assert fs[i] == rest[i - 1];
      }
    }
    forall i, j | 0 <= i <= j < |fs|
      ensures fs[i] <= fs[j]
    {
      if i > 0 {
        assert fs[i] == rest[i - 1] && fs[j] == rest[j - 1];
      } else if j > 0 {
        assert fs[j] == rest[j - 1];
      }
    }
  }

  /**
   * The factors the source's loop finds, starting from divisor candidate p:
   * while temp > 1, divide out p as often as it goes, then try p + 1.
   * They are primes, at least p, ascending, and multiply to temp.
   */
  ghost function Factorization(temp: int, p: int): (fs: seq<int>)
    requires temp >= 1 && p >= 2 && NoFactorBelow(temp, p)
    ensures forall i :: 0 <= i < |fs| ==> Prime(fs[i]) && p <= fs[i] <= temp
    ensures forall i, j :: 0 <= i <= j < |fs| ==> fs[i] <= fs[j]
    ensures Product(fs) == temp
    decreases temp, temp - p
  {
    if temp <= 1 then []
    else
      CandidateBound(temp, p);
      if temp % p == 0 then
        LeastFactorIsPrime(temp, p);
        NoFactorBelowQuotient(temp, p);
        var rest := Factorization(temp / p, p);
        ConsFactor(temp, p, rest);
        [p] + rest
      else
        Factorization(temp, p + 1)
  }

  /** matula_to_tree as a function: 1, 2 and the factorisation case; below 1 a childless node. */
  ghost function Decode(n: int): Tree
    decreases if n < 1 then 0 else n, 1, 0
  {
    if n == 1 then Empty
    else if n == 2 then Leaf
    else if n < 1 then Node([])
    else
      assert NoFactorBelow(n, 2);
      Node(DecodeFactors(n, Factorization(n, 2)))
  }

  /** One child per listed factor f: the tree of f's position among the primes. */
  ghost function DecodeFactors(n: int, fs: seq<int>): seq<Tree>
    requires forall i :: 0 <= i < |fs| ==> 2 <= fs[i] <= n
    decreases n, 0, |fs|
  {
    if fs == [] then [] else [Decode(PrimeCount(fs[0]))] + DecodeFactors(n, fs[1..])
  }

  /** tree_to_matula as a function: childless trees are 1 (empty) or 2, others multiply primes. */
  ghost function Encode(t: Tree): (m: nat)
    ensures m >= 1
  {
    match t
    case Empty => 1
    case Leaf => 2
    case Node(cs) => if cs == [] then 2 else EncodeAll(cs)
  }

  /** The product of the k-th primes, k ranging over the children's codes. */
  ghost function EncodeAll(cs: seq<Tree>): (m: nat)
    ensures m >= 1
  {
    if cs == [] then 1
    else
      var head, rest := PrimeAt(Encode(cs[0])), EncodeAll(cs[1..]);
      MulMonotone(1, head, rest);
      head * rest
  }

  // ---------------------------------------------------------------------------
  // Properties
  // ---------------------------------------------------------------------------

  /** The headline round trip: encoding the decoded tree gives back n, for every n >= 1. */
  lemma {:induction false} RoundTrip(n: int)
    requires n >= 1
    ensures Encode(Decode(n)) == n
    decreases n, 1
  {
    if n > 2 {
      var fs := Factorization(n, 2);
      EncodeDecodeFactors(n, fs);
      assert fs != [];
    }
  }

  lemma {:induction false} EncodeDecodeFactors(n: int, fs: seq<int>)
    requires n >= 1
    requires forall i :: 0 <= i < |fs| ==> Prime(fs[i]) && 2 <= fs[i] <= n
    ensures EncodeAll(DecodeFactors(n, fs)) == Product(fs)
    decreases n, 0, |fs|
  {
    if fs != [] {
      var k := PrimeCount(fs[0]);
      PrimeAtCount(fs[0]);
      RoundTrip(k);
      EncodeDecodeFactors(n, fs[1..]);
      assert DecodeFactors(n, fs)[1..] == DecodeFactors(n, fs[1..]);
    }
  }

  /**
   * For n > 2 the root has exactly one child per prime factor, counted with
   * multiplicity and in ascending order: the children are the trees of the
   * positions of the primes listed by the factor loop, whose product is n.
   */
  lemma DecodeChildren(n: int)
    requires n > 2
    ensures Decode(n).Node?
    ensures var fs := Factorization(n, 2);
      && |Decode(n).children| == |fs| > 0
      && Product(fs) == n
      && (forall i :: 0 <= i < |fs| ==> Prime(fs[i]))
      && (forall i, j :: 0 <= i <= j < |fs| ==> fs[i] <= fs[j])
      && (forall i :: 0 <= i < |fs| ==> Decode(n).children[i] == Decode(PrimeCount(fs[i])))
  {
    var fs := Factorization(n, 2);
    DecodeFactorsAt(n, fs);
  }

  lemma {:induction false} DecodeFactorsAt(n: int, fs: seq<int>)
    requires forall i :: 0 <= i < |fs| ==> 2 <= fs[i] <= n
    ensures |DecodeFactors(n, fs)| == |fs|
    ensures forall i :: 0 <= i < |fs| ==> DecodeFactors(n, fs)[i] == Decode(PrimeCount(fs[i]))
    decreases |fs|
  {
    if fs != [] {
      DecodeFactorsAt(n, fs[1..]);
    }
  }

  /** The code is not injective: a leaf, a childless node and a node over the empty tree all encode to 2. */
  lemma EncodeNotInjective()
    ensures Encode(Leaf) == Encode(Node([])) == Encode(Node([Empty])) == 2
    ensures Leaf != Node([]) && Node([]) != Node([Empty])
  {
    assert PrimeAt(1) == 2;
  }

  /** decode(4) is a node over two empty trees, since 4 = 2 * 2 and 2 is the first prime. */
  lemma DecodeFour()
    ensures Decode(4) == Node([Empty, Empty])
    ensures Encode(Node([Empty, Empty])) == 4
  {
    assert Prime(2);
    assert PrimeCount(2) == 1;
    assert NoFactorBelow(4, 2);
    assert Factorization(4, 2) == [2] + Factorization(2, 2);
    assert NoFactorBelow(2, 2);
    assert Factorization(2, 2) == [2] + Factorization(1, 2);
    assert Factorization(4, 2) == [2, 2];
    assert DecodeFactors(4, [2, 2]) == [Empty, Empty];
    RoundTrip(4);
  }

  // ---------------------------------------------------------------------------
  // Implementation
  // ---------------------------------------------------------------------------

  /**
   * matula_to_tree: nested loops divide out candidate divisors p = 2, 3, ...;
   * each division appends the decoded tree of p's prime index. Every p that
   * divides is prime, so the index lookup never fails.
   */
  method MatulaToTree(n: int) returns (t: Tree)
    ensures t == Decode(n)
    decreases if n < 1 then 0 else n
  {
    if n == 1 {
      return Empty;
    }
    if n == 2 {
      return Leaf;
    }
    var children: seq<Tree> := [];
    var temp := n;
    var p := 2;
    if n < 1 {
      return Node(children);
    }
    ghost var found: seq<int> := [];
    FactorLoopStart(n);
    while temp > 1
      invariant FactorLoop(n, found, temp, p)
      invariant children == DecodeFactors(n, found)
      decreases temp, temp - p
    {
      CandidateBound(temp, p);
      temp, found, children := DivideOut(n, p, temp, found, children);
      FactorLoopNext(n, found, temp, p);
      p := p + 1;
    }
    FactorLoopDone(n, found, temp, p);
    return Node(children);
  }

  /** The inner loop of matula_to_tree: divide p out of temp as often as it goes, one child per division. */
  method DivideOut(n: int, p: int, temp0: int, ghost found0: seq<int>, children0: seq<Tree>)
    returns (temp: int, ghost found: seq<int>, children: seq<Tree>)
    requires FactorLoop(n, found0, temp0, p) && children0 == DecodeFactors(n, found0)
    ensures FactorLoop(n, found, temp, p) && children == DecodeFactors(n, found)
    ensures temp % p != 0 && temp <= temp0
    decreases n, temp0
  {
    temp, found, children := temp0, found0, children0;
    while temp % p == 0
      invariant FactorLoop(n, found, temp, p) && temp <= temp0
      invariant children == DecodeFactors(n, found)
      decreases temp
    {
      FactorLoopDivide(n, found, temp, p);
      var index := PrimeIndex(p);
      var child := MatulaToTree(index.value);
      DecodeFactorsAppend(n, found, p);
      found := found + [p];
      temp := temp / p;
      children := children + [child];
    }
  }

  /** The state of the factor loop: found, followed by what is still to be found, is n's factor list. */
  ghost predicate FactorLoop(n: int, found: seq<int>, temp: int, p: int)
  {
    && 2 <= p && 1 <= temp <= n
    && NoFactorBelow(temp, p)
    && (forall i :: 0 <= i < |found| ==> 2 <= found[i] <= n)
    && Factorization(n, 2) == found + Factorization(temp, p)
  }

  lemma FactorLoopStart(n: int)
    requires n > 2
    ensures FactorLoop(n, [], n, 2)
  {
    assert NoFactorBelow(n, 2);
  }

  /** Dividing temp by p appends the prime p to the factors found. */
  lemma FactorLoopDivide(n: int, found: seq<int>, temp: int, p: int)
    requires FactorLoop(n, found, temp, p) && temp % p == 0 && temp > 1
    ensures Prime(p) && 2 <= p <= n
    ensures FactorLoop(n, found + [p], temp / p, p) && temp / p < temp
  {
    CandidateBound(temp, p);
    LeastFactorIsPrime(temp, p);
    NoFactorBelowQuotient(temp, p);
    FactorizationDivide(temp, p);
    AppendShift(found, p, Factorization(temp / p, p));
  }

  lemma FactorizationDivide(temp: int, p: int)
    requires temp > 1 && p >= 2 && temp % p == 0 && NoFactorBelow(temp, p)
    requires NoFactorBelow(temp / p, p) && 1 <= temp / p
    ensures Factorization(temp, p) == [p] + Factorization(temp / p, p)
  {
  }

  lemma AppendShift(xs: seq<int>, x: int, ys: seq<int>)
    ensures xs + ([x] + ys) == (xs + [x]) + ys
  {
  }

  /** A candidate that no longer divides temp is passed over. */
  lemma FactorLoopNext(n: int, found: seq<int>, temp: int, p: int)
    requires FactorLoop(n, found, temp, p) && temp % p != 0
    ensures FactorLoop(n, found, temp, p + 1)
  {
    if temp > 1 {
      CandidateBound(temp, p);
    } else {
      OneHasNoFactor(p + 1);
    }
  }

  lemma OneHasNoFactor(q: int)
    ensures NoFactorBelow(1, q)
  {
    forall d | 2 <= d < q
      ensures 1 % d != 0
    {
      DivModUnique(1, d, 0, 1);
    }
  }

  lemma FactorLoopDone(n: int, found: seq<int>, temp: int, p: int)
    requires FactorLoop(n, found, temp, p) && temp <= 1
    ensures found == Factorization(n, 2)
  {
    assert Factorization(temp, p) == [];
  }

  /** Appending a factor appends the decoded tree of its prime index. */
  lemma {:induction false} DecodeFactorsAppend(n: int, fs: seq<int>, f: int)
    requires forall i :: 0 <= i < |fs| ==> 2 <= fs[i] <= n
    requires 2 <= f <= n
    ensures DecodeFactors(n, fs + [f]) == DecodeFactors(n, fs) + [Decode(PrimeCount(f))]
    decreases |fs|
  {
    if fs != [] {
      assert (fs + [f])[1..] == fs[1..] + [f];
      DecodeFactorsAppend(n, fs[1..], f);
    } else {
      assert [f][1..] == [];
    }
  }

  /** tree_to_matula: childless trees give 1 or 2; otherwise multiply nth_prime of each child's code. */
  method TreeToMatula(t: Tree) returns (m: int)
    ensures m == Encode(t)
    decreases t
  {
    match t
    case Empty =>
      return 1;
    case Leaf =>
      return 2;
    case Node(cs) =>
      if cs == [] {
        return 2;
      }
      var result := 1;
      for i := 0 to |cs|
        invariant result == EncodeAll(cs[..i])
      {
        var childMatula := TreeToMatula(cs[i]);
        var prime := NthPrime(childMatula);
        EncodeAllPrefix(cs, i, result, prime.value);
        result := result * prime.value;
      }
      assert cs[..|cs|] == cs;
      return result;
  }

  lemma EncodeAllPrefix(cs: seq<Tree>, i: int, result: int, prime: int)
    requires 0 <= i < |cs| && result == EncodeAll(cs[..i]) && prime == PrimeAt(Encode(cs[i]))
    ensures result * prime == EncodeAll(cs[..i + 1])
  {
    EncodeAllSnoc(cs[..i], cs[i]);
    assert cs[..i] + [cs[i]] == cs[..i + 1];
  }

  /** Appending a child multiplies the code by that child's prime. */
  lemma {:induction false} EncodeAllSnoc(cs: seq<Tree>, c: Tree)
    ensures EncodeAll(cs + [c]) == EncodeAll(cs) * PrimeAt(Encode(c))
  {
    if cs == [] {
      assert cs + [c] == [c];
      EncodeAllSingle(c);
      MulOne(PrimeAt(Encode(c)), EncodeAll(cs));
    } else {
      EncodeAllSnoc(cs[1..], c);
      EncodeAllSnocStep(cs, c);
    }
  }

  lemma EncodeAllUnfold(cs: seq<Tree>)
    requires cs != []
    ensures EncodeAll(cs) == PrimeAt(Encode(cs[0])) * EncodeAll(cs[1..])
  {
  }

  lemma EncodeAllSingle(c: Tree)
    ensures EncodeAll([c]) == PrimeAt(Encode(c))
  {
    EncodeAllUnfold([c]);
    assert [c][1..] == [];
    MulOne(PrimeAt(Encode(c)), EncodeAll([c][1..]));
  }

  lemma EncodeAllSnocStep(cs: seq<Tree>, c: Tree)
    requires cs != []
    requires EncodeAll(cs[1..] + [c]) == EncodeAll(cs[1..]) * PrimeAt(Encode(c))
    ensures EncodeAll(cs + [c]) == EncodeAll(cs) * PrimeAt(Encode(c))
  {
    var cs' := cs + [c];
    assert cs'[0] == cs[0];
    assert cs'[1..] == cs[1..] + [c];
    EncodeAllUnfold(cs');
    EncodeAllUnfold(cs);
    Regroup(EncodeAll(cs'), PrimeAt(Encode(cs[0])), EncodeAll(cs[1..]), PrimeAt(Encode(c)), EncodeAll(cs[1..] + [c]));
  }

}
