# Cosmos systems: projective geometry and discrete systems mathematics in Dafny

This project models the combinatorial engine behind the Cosmos Systems 0-5
(`src/models/projective_geometry.py`) and the discrete parts of the systems
mathematics (`src/models/systems_math.py`), and proves what they promise.

- **Primes** (`primes.dfy`): the trial-division test `is_prime` and the
  counting scans `nth_prime` and `prime_index`. They are methods with the
  source's loops, proved against a prime predicate and the count of primes
  below a bound. Their ValueErrors are a `Result`.
- **Matula-style tree code** (`matula.dfy`): `matula_to_tree` keeps its
  nested factor loop and `tree_to_matula` its product loop. This code's
  convention is that 1 is the empty tree and 2 a leaf. Both methods are
  proved equal to the functions `Decode` and `Encode`. The round trip
  `Encode(Decode(n)) == n` is proved for every n >= 1.
- **Bracket texts** (`brackets.dfy`, `tree_text.dfy`): balanced words,
  `tree_to_nested_parens`, and the lenient parser `partition_to_tree`. The
  parser never fails, skips every other character and stops on a stray
  `)`.
- **Pascal rows and simplex tables** (`binomial.dfy`, `simplex.dfy`):
  `pascal_row`, binomial coefficients, the `math.comb` error case, and the
  dict `simplex_elements` builds, as an ordered list of entries.
- **Dyck words and Catalan numbers** (`partitions.dfy`): the backtracking
  generator `generate_partitions`, and `catalan_number`. The generated list
  has exactly catalan_number(n) words. The proof goes through the ballot
  numbers of the generator's `(open, close)` state.
- **Nested tuples** (`nested_tuple.dfy`): `NestedTuple.__repr__`,
  `expand`, `to_array` and `system_nested_tuple`. Python lists and
  `str()` of integers (`decimal.dfy`) are modelled as well.
- **The catalog** (`catalog.dfy`): the six `CosmosSystem` records with
  their exact field values, their derived properties, and `analyze_system`.
- **Systems 4 and 5** (`systems.dfy`, `symmetries.dfy`, `tables.dfy`):
  - the 12-stage counter and the expressive/regenerative mode;
  - the tetrahedron's edges, faces and service keys, built by loops in the
    `System5State` constructor;
  - `phase_angle` and `step_triad`;
  - the permutations `enneagram_rotation` and `tetrahedral_rotation`;
  - the lookup tables `rooted_trees` and `nesting_to_terms`.

Where the code and its documentation disagree, the model follows the code:

- `matula_to_tree` returns a childless node for n < 1 instead of failing.
- `tree_to_matula` is not injective (`Matula.EncodeNotInjective`).
- `CosmosSystem.catalan` counts the partitions one level below
  `topological_surfaces`.
- System 5 lists two Matula codes twice.
- The docstring of `enneagram_rotation` names the cycle 1 -> 4 -> 2 -> 8 -> 5 -> 7, but
  the code's sequence runs through all nine positions, 3, 6 and 9
  included (`Symmetries.RotatedOneStep`).
- `nesting_to_terms(5)` is 18, whereas the rooted-tree count it is said to
  follow is 20 (`Tables.NestingAgainstRootedTrees`).

## Model

| member | source | states |
|---|---|---|
| Primes.PrimeAt | src/models/projective_geometry.py:36-46 | the k-th prime is a prime p with exactly k primes in [2, p] |
| Primes.PrimeAtCount | src/models/projective_geometry.py:36-57 | nth_prime inverts prime_index: the prime at the position of a prime p is p |
| Primes.PrimeIndexBelow | src/models/projective_geometry.py:49-57 | the position of a prime p lies in 1..p-1 |
| Primes.PrimeAbove | src/models/projective_geometry.py:42-45 | there is a prime above every number (Euclid), so the scan of nth_prime ends |
| Primes.PrimeCountStrict | src/models/projective_geometry.py:54-56 | passing a prime strictly raises the count of primes |
| Primes.NoSmallDivisorMeansPrime | src/models/projective_geometry.py:30-33 | trial division up to the square root suffices: with no divisor below i and i*i > n, n is prime |
| Primes.TrialStep | src/models/projective_geometry.py:30-32 | one odd trial division extends "no divisor below i" to i + 2 for an odd n |
| Primes.IsPrime | src/models/projective_geometry.py:22-33 | is_prime(n) is true exactly when n >= 2 and no d in 2..n-1 divides n |
| Primes.NthPrime | src/models/projective_geometry.py:36-46 | nth_prime(k) is an error for k < 1, else the k-th prime |
| Primes.PrimeIndex | src/models/projective_geometry.py:49-57 | prime_index(p) is an error unless p is prime, else the number of primes in [2, p] |
| Primes.FifthPrime | src/models/projective_geometry.py:36-57 | the fifth prime is 11 and 11 is at position 5 |
| Matula.LeastFactorIsPrime | src/models/projective_geometry.py:79-85 | the first candidate p that divides temp is prime, so prime_index never fails inside the decoder |
| Matula.Factorization | src/models/projective_geometry.py:78-85 | the factors the loop finds from p on are primes >= p, ascending, and multiply to temp |
| Matula.ConsFactor | src/models/projective_geometry.py:81-84 | dividing out the least prime factor p and listing the rest keeps the factor list prime, ascending and with product temp |
| Matula.RoundTrip | src/models/projective_geometry.py:60-101 | tree_to_matula(matula_to_tree(n)) == n for every n >= 1 |
| Matula.EncodeDecodeFactors | src/models/projective_geometry.py:80-84 | encoding the children decoded from a list of primes multiplies those primes |
| Matula.DecodeChildren | src/models/projective_geometry.py:76-87 | for n > 2 the root has one child per prime factor, with multiplicity and ascending, each the tree of that prime's index |
| Matula.DecodeFactorsAt | src/models/projective_geometry.py:83-84 | the i-th child is the decoded tree of the i-th factor's prime index |
| Matula.EncodeNotInjective | src/models/projective_geometry.py:92-101 | a leaf, a childless node and a node over the empty tree all encode to 2 |
| Matula.DecodeFour | src/models/projective_geometry.py:60-87 | matula_to_tree(4) is a node over two empty trees, and it encodes back to 4 |
| Matula.MatulaToTree | src/models/projective_geometry.py:60-87 | the nested factor loop returns exactly Decode(n): Empty for 1, Leaf for 2, a childless node below 1 |
| Matula.DivideOut | src/models/projective_geometry.py:81-84 | the inner loop divides p out completely, and one child per division is appended |
| Matula.DecodeFactorsAppend | src/models/projective_geometry.py:83-84 | each division appends one child, the decoded tree of the prime index of p |
| Matula.FactorLoopDivide | src/models/projective_geometry.py:81-84 | a division by p appends the prime p to the factors found, and temp decreases |
| Matula.FactorLoopNext | src/models/projective_geometry.py:85 | a candidate that no longer divides temp is passed over without losing a factor |
| Matula.FactorLoopDone | src/models/projective_geometry.py:80 | when temp reaches 1 the factors found are the whole factorisation of n |
| Matula.TreeToMatula | src/models/projective_geometry.py:90-101 | the product loop returns Encode(t): 1 for Empty, 2 for a childless tree, else the product of nth_prime of the child codes |
| Matula.EncodeAllSnoc | src/models/projective_geometry.py:98-100 | each further child multiplies the code by the prime at its own code |
| TreeText.RenderWellFormed | src/models/projective_geometry.py:104-112 | tree_to_nested_parens gives a balanced word of round brackets only, with one '(' per node |
| TreeText.ParensAllCons | src/models/projective_geometry.py:111 | the children's texts are concatenated in order |
| TreeText.ParseAt | src/models/projective_geometry.py:181-192 | the parse from index i stops at an index in i..|s|, strictly after i when text remains |
| TreeText.Parse | src/models/projective_geometry.py:181-192 | the parse loop returns the children and end index of ParseAt |
| TreeText.ParseLoopOpen | src/models/projective_geometry.py:185-187 | parsing a child at '(' and appending it keeps the loop invariant, and moves the index forward |
| TreeText.PartitionToTree | src/models/projective_geometry.py:179-199 | partition_to_tree is total: "" gives a childless root, else the parse of "(" + parens + ")" from index 1 |
| TreeText.ParseStrip | src/models/projective_geometry.py:190-191 | characters other than round brackets are skipped: the parse of the bracket projection is the same |
| TreeText.PartitionIgnoresOthers | src/models/projective_geometry.py:179-199 | partition_to_tree depends only on the round brackets of its input |
| TreeText.PartitionNoBrackets | src/models/projective_geometry.py:179-199 | a text without round brackets yields a childless root |
| TreeText.ParseBalanced | src/models/projective_geometry.py:184-189 | on a balanced stretch followed by ')', the parse consumes exactly the stretch and the ')' and its children's bracket rendering (`TreeToNestedParens`) is the stretch |
| TreeText.ParseBalancedOpen | src/models/projective_geometry.py:185-187 | a '(' whose child closes at a ')' continues with the parse that follows that ')' |
| TreeText.PartitionBalanced | src/models/projective_geometry.py:179-199 | for balanced input the children's bracket rendering (`TreeToNestedParens`) is its brackets, and there is one node per '(' |
| TreeText.ParseRender | src/models/projective_geometry.py:104-112 | parsing a rendered tree gives children whose bracket rendering (`TreeToNestedParens`) is the same text |
| TreeText.StripStep | src/models/projective_geometry.py:184-191 | each bracket advances the position in the bracket projection by one, and each other character leaves it unchanged |
| Brackets.BalancedConcat | src/models/projective_geometry.py:111 | concatenating balanced words gives a balanced word |
| Brackets.BalancedWrap | src/models/projective_geometry.py:112 | wrapping a balanced word in a bracket pair keeps it balanced |
| Brackets.BalancedSplit | src/models/projective_geometry.py:185-189 | a balanced word starting with '(' splits into '(' v ')' x with v and x balanced |
| Brackets.StripIdempotent | src/models/projective_geometry.py:184-191 | projecting onto the round brackets twice is projecting once |
| Brackets.StripCount | src/models/projective_geometry.py:184-191 | the projection keeps the number of each round bracket |
| Binomial.MathComb | src/models/projective_geometry.py:146 | math.comb fails exactly for a negative argument, and otherwise counts subsets (0 when k > n) |
| Binomial.PascalRule | src/models/projective_geometry.py:125 | C(n, k) = C(n-1, k-1) + C(n-1, k) for every n >= 1 and every k |
| Binomial.BinomSymmetric | src/models/projective_geometry.py:119-125 | C(n, k) == C(n, n-k) |
| Binomial.Absorption | src/models/projective_geometry.py:176 | k C(n, k) == n C(n-1, k-1) |
| Binomial.AbsorptionLow | src/models/projective_geometry.py:176 | (n - j) C(n, j) == n C(n-1, j) |
| Binomial.PascalRow | src/models/projective_geometry.py:119-125 | pascal_row(n) has n + 1 entries |
| Binomial.PascalRowBinom | src/models/projective_geometry.py:119-125 | pascal_row(n)[k] == C(n, k) for every k in 0..n |
| Binomial.PascalRowShape | src/models/projective_geometry.py:122-125 | each row begins and ends with 1, reads the same backwards, and its interior entry k is prev[k-1] + prev[k] |
| Binomial.AdjacentSum | src/models/projective_geometry.py:125 | the adjacent sums of a row count every entry twice except the two ends |
| Binomial.PascalRowSum | src/models/projective_geometry.py:119-125 | pascal_row(n) sums to 2^n |
| Binomial.BinomRowSum | src/models/projective_geometry.py:119-125 | the sum of C(n, k) over k = 0..n is 2^n |
| Binomial.PascalRowFrom | src/models/projective_geometry.py:122-125 | a row that begins and ends with 1 and has the adjacent sums of row n - 1 in between is pascal_row(n) |
| Binomial.FirstRows | src/models/projective_geometry.py:119-125 | rows 0 to 5 are [1], [1,1], [1,2,1], [1,3,3,1], [1,4,6,4,1], [1,5,10,10,5,1] |
| Binomial.CentralValues | src/models/projective_geometry.py:176 | C(2,1), C(4,2), C(6,3), C(8,4), C(10,5) are 2, 6, 20, 70, 252 |
| Simplex.SimplexElements | src/models/projective_geometry.py:128-150 | the loop builds the table: {"void": 1} for dim < 0, else entry k named Label(k) with count C(dim+1, k+1) |
| Simplex.FaceTableShape | src/models/projective_geometry.py:139-150 | for dim >= 0: dim + 1 entries with distinct names, the k-th counting C(dim+1, k+1), the first dim + 1 and the last 1 |
| Simplex.FaceTableVoid | src/models/projective_geometry.py:139-140 | a negative dimension gives exactly {"void": 1} |
| Simplex.FaceTableTotal | src/models/projective_geometry.py:128-150 | the face counts of a dim-simplex add up to 2^(dim+1) - 1 |
| Simplex.LabelInjective | src/models/projective_geometry.py:143-147 | different face dimensions get different names, so no dict entry is overwritten |
| Simplex.LabelFixedVsNumbered | src/models/projective_geometry.py:143-147 | no fixed name equals a "k-elements" name |
| Simplex.LabelExamples | src/models/projective_geometry.py:143-147 | the six fixed names come first, then "6-elements", "12-elements" |
| Partitions.BacktrackMember | src/models/projective_geometry.py:162-169 | a generated word is the prefix itself at full length, else it comes from an allowed '(' or ')' branch |
| Partitions.BacktrackBranch | src/models/projective_geometry.py:166-169 | every word of an allowed branch is generated |
| Partitions.BacktrackExtends | src/models/projective_geometry.py:162-169 | every word generated from s extends s |
| Partitions.BacktrackSound | src/models/projective_geometry.py:162-169 | every word generated from a valid prefix is a Dyck word with n pairs |
| Partitions.CompleteStep | src/models/projective_geometry.py:166-169 | the next character of a Dyck word extending s is a bracket the generator may add |
| Partitions.BacktrackComplete | src/models/projective_geometry.py:162-169 | every Dyck word with n pairs extending a valid prefix is generated |
| Partitions.LexAtFork | src/models/projective_geometry.py:166-169 | words from the '(' branch come before words from the ')' branch |
| Partitions.IncreasingFork | src/models/projective_geometry.py:166-169 | joining the two increasing branches keeps the list increasing |
| Partitions.BacktrackIncreasing | src/models/projective_geometry.py:162-169 | backtrack yields its words in strictly increasing order |
| Partitions.IncreasingDistinct | src/models/projective_geometry.py:157-171 | a strictly increasing list has no repeats |
| Partitions.GenerateExactly | src/models/projective_geometry.py:157-171 | generate_partitions(n) yields exactly the Dyck words with n pairs, increasing and without repeats |
| Partitions.BallotStep | src/models/projective_geometry.py:166-169 | the ballot count is the sum over the open and the close step |
| Partitions.BacktrackCount | src/models/projective_geometry.py:162-169 | from a prefix with open '(' and close ')', the generator yields Ballot(n - open, n - close) words |
| Partitions.CatalanExact | src/models/projective_geometry.py:174-176 | the floor division in catalan_number is exact: C(2n, n) == (n + 1) Ballot(n, n) |
| Partitions.CatalanBallot | src/models/projective_geometry.py:174-176 | catalan_number fails exactly for n < 0, and otherwise equals the ballot number |
| Partitions.PartitionCount | src/models/projective_geometry.py:157-176 | generate_partitions(n) yields catalan_number(n) words |
| Partitions.PartitionNegative | src/models/projective_geometry.py:157-176 | for n < 0 nothing is generated and catalan_number fails |
| Partitions.PartitionExamples | src/models/projective_geometry.py:157-171 | the words for 0, 1, 2 pairs are [""], ["()"], ["(())", "()()"] |
| Partitions.CatalanExamples | src/models/projective_geometry.py:174-176 | catalan_number(0..5) is 1, 1, 2, 5, 14, 42 |
| Decimal.NatToStringRoundTrip | src/models/projective_geometry.py:214 | reading the decimal digits of n back gives n |
| Decimal.IntToStringInjective | src/models/projective_geometry.py:214 | different integers print differently |
| Decimal.MinusSign | src/models/projective_geometry.py:214 | a printed integer starts with '-' exactly when it is negative |
| NestedTuples.SystemNestedTuple | src/models/projective_geometry.py:236-238 | system_nested_tuple(n) has level n and no children |
| NestedTuples.ToArrayShape | src/models/projective_geometry.py:227-233 | to_array is [1] up to level 1, else exactly level equal items, each the array one level down; children play no part |
| NestedTuples.ExpandIsCompactArray | src/models/projective_geometry.py:218-233 | expand() is to_array() written as a list without spaces |
| NestedTuples.ToArrayLeaves | src/models/projective_geometry.py:227-233 | the array of level L holds L! ones |
| NestedTuples.ExpandBalanced | src/models/projective_geometry.py:218-225 | expand() balances its square brackets |
| NestedTuples.JoinBalanced | src/models/projective_geometry.py:215 | a comma join of balanced parts is balanced |
| NestedTuples.ReprBalanced | src/models/projective_geometry.py:212-216 | repr() balances its square brackets, whatever the children |
| NestedTuples.SystemRepr | src/models/projective_geometry.py:212-214 | a system's tuple prints as "[n]", and different levels print differently |
| NestedTuples.ExpandLevel2 | src/models/projective_geometry.py:218-225 | level 2 expands to "[[1],[1]]" |
| NestedTuples.ExpandLevel3 | src/models/projective_geometry.py:218-225 | level 3 expands to three copies of the level-2 expansion |
| Catalog.PascalOfSystem | src/models/projective_geometry.py:268-273 | pascal_row lists C(number, k) and pascal_sum is 2^number; a negative level gives (1,) and sum 1 |
| Catalog.SurfacesAreWrappedDyckWords | src/models/projective_geometry.py:285-290 | from level 1 on, the surfaces are exactly the Dyck words with number pairs, each wrapped in braces |
| Catalog.SurfaceCount | src/models/projective_geometry.py:285-290 | surface_count is catalan_number(number) from level 1 on, and 1 below |
| Catalog.CatalanOfSystem | src/models/projective_geometry.py:292-297 | catalan is catalan_number(number - 1) from level 1 on, the size of the level below, and 1 below |
| Catalog.NestedTupleOfSystem | src/models/projective_geometry.py:280-283 | a system's nested tuple prints as "[number]", so different levels print differently |
| Catalog.SimplexOfSystem | src/models/projective_geometry.py:275-278 | the simplex table is {"void": 1} below dimension 0, else dim + 1 entries counting C(dim+1, k+1) |
| Catalog.SystemShape | src/models/projective_geometry.py:304-394 | system k of ALL_SYSTEMS has level k, one code per term, universal + particular = partitions, simplex and concurrency one below the level, and rooted_trees(k + 1) terms |
| Catalog.CodesDistinctBelowFive | src/models/projective_geometry.py:315-375 | the Matula codes of systems 0 to 4 are pairwise distinct |
| Catalog.CodesRepeatInSystemFive | src/models/projective_geometry.py:390 | System 5 lists 34 twice and 53 twice among its 20 codes |
| Catalog.CountsAtLevel | src/models/projective_geometry.py:401-426 | at levels 0 to 5, analyze_system's surface counts are 1, 1, 2, 5, 14, 42 and its catalan values 1, 1, 1, 2, 5, 14 |
| Catalog.CatalogCounts | src/models/projective_geometry.py:394 | the six systems of ALL_SYSTEMS have those surface counts and catalan values |
| Catalog.CatalanIsPreviousSurfaceCount | src/models/projective_geometry.py:290-297 | each system's catalan value is the surface count of the system one level down |
| Catalog.TetrahedronOfSystemFour | src/models/projective_geometry.py:364-377 | System 4's simplex has 4 vertices, 6 edges, 4 faces and 1 cell, and its edges are as many as System 5's state builds |
| Catalog.TetrahedronTable | src/models/projective_geometry.py:128-150 | the table of dimension 3 counts 4 vertices, 6 edges, 4 faces, 1 cell |
| Systems.NewSystem4State | src/models/systems_math.py:179-184 | the stored stage lies in 0..11 and is congruent to the given stage modulo 12 |
| Systems.NewStateStage | src/models/systems_math.py:183 | the stored stage is stage % 12, and a stage in 0..11 is kept |
| Systems.AdvanceNext | src/models/systems_math.py:223-227 | advance_stage moves to the next stage, and from 11 back to 0 |
| Systems.AdvanceTimesStage | src/models/systems_math.py:223-227 | k advances land on (stage + k) % 12 |
| Systems.CycleOfTwelve | src/models/systems_math.py:223-227 | twelve advances return to the state, and no fewer do |
| Systems.ModeCases | src/models/systems_math.py:229-233 | the mode is "expressive" exactly for the stages 0, 1, 2, 4, 5, 8, 9, and "regenerative" otherwise |
| Systems.SevenExpressive | src/models/systems_math.py:231-232 | seven of the twelve stages are expressive |
| Systems.BuildEdges | src/models/systems_math.py:280-284 | the double loop builds the edge list |
| Systems.BuildFaces | src/models/systems_math.py:286-294 | the loop builds one face per excluded vertex |
| Systems.InitServices | src/models/systems_math.py:299-307 | _init_services builds the 18 keys in insertion order |
| Systems.System5State.constructor | src/models/systems_math.py:274-297 | the new state holds vertices 0..3 with their thread ids, the edge list, the four faces and the service keys |
| Systems.ServiceKeys | src/models/systems_math.py:299-307 | there are 18 service keys |
| Systems.EdgesList | src/models/systems_math.py:280-284 | the edge list is (0,1), (0,2), (0,3), (1,2), (1,3), (2,3) |
| Systems.EdgesArePairs | src/models/systems_math.py:280-284 | exactly 6 edges, each joining i < j < 4; every such pair occurs, in lexicographic order |
| Systems.FaceIds | src/models/systems_math.py:289 | the face opposite e has the vertex ids other than e, ascending |
| Systems.FacesList | src/models/systems_math.py:286-294 | face e has the three other ids and exactly the three edges among them, in edge order |
| Systems.FaceShape | src/models/systems_math.py:286-294 | face f has 3 ascending ids, exactly those in 0..3 other than f, and only edges between them |
| Systems.EdgeOnFace | src/models/systems_math.py:290-293 | an edge lies on face f exactly when both its ends are vertices 0..3 other than f |
| Systems.IdsFromSpec | src/models/systems_math.py:289 | the id filter keeps exactly the ids other than the excluded one, ascending |
| Systems.EdgesAmongFromSound | src/models/systems_math.py:290-293 | every edge the face filter keeps has both ends on the face |
| Systems.EdgesAmongFromKeeps | src/models/systems_math.py:290-293 | the face filter keeps every edge with both ends on the face |
| Systems.ServiceKeyShape | src/models/systems_math.py:305 | a key is the polarity, "_" and a digit 1..6 |
| Systems.ServiceKeysDiffer | src/models/systems_math.py:303-306 | keys at different positions differ |
| Systems.ServiceKeysDistinct | src/models/systems_math.py:299-307 | the 18 keys are pairwise different, from "D-T_1" to "S-M_6", so no key is overwritten |
| Systems.PhaseAngleSpec | src/models/systems_math.py:309-314 | the angle is a multiple of 120 in [0, 360), equals 120 (stream mod 3), and repeats every three streams |
| Systems.PhaseAngleStreams | src/models/systems_math.py:309-314 | streams 0, 1, 2 get 0, 120, 240 |
| Systems.StepTriadSpec | src/models/systems_math.py:316-322 | the triad is (b, b + 4, b + 8) with b in 1..4 congruent to the step modulo 4 |
| Systems.StepTriadGroups | src/models/systems_math.py:316-322 | two steps share a triad exactly when they are congruent modulo 4, and each step 1..12 is in its own triad |
| Symmetries.CycleIndex | src/models/systems_math.py:362 | every position 0..8 occurs in the rotation sequence |
| Symmetries.CycleBijective | src/models/systems_math.py:362 | the rotation sequence visits every position exactly once |
| Symmetries.EnneagramRotation | src/models/systems_math.py:357-367 | the loop writes the value at Cycle[i] to Cycle[(i + steps) % 9] for every i, which is the rotated positions |
| Symmetries.PlaceNext | src/models/systems_math.py:364-366 | one write keeps the values written before |
| Symmetries.PlacedIsRotated | src/models/systems_math.py:364-367 | nine values placed along the cycle are the rotated positions |
| Symmetries.TargetInjective | src/models/systems_math.py:365-366 | different places of the cycle are written to different positions, so no write is lost |
| Symmetries.RotatedPermutes | src/models/systems_math.py:357-367 | the output rearranges the first nine inputs: each input value lands on exactly one position |
| Symmetries.RotatedFullTurn | src/models/systems_math.py:357-367 | a multiple of nine steps returns the input |
| Symmetries.RotatedCompose | src/models/systems_math.py:357-367 | rotating by a and then by b is rotating by a + b |
| Symmetries.RotatedOneStep | src/models/systems_math.py:357-367 | one step moves the value at 1 to 4 and the value at 9 back to 1 |
| Symmetries.TetrahedralRotation | src/models/systems_math.py:370-385 | the loop writes the rotated off-axis vertices back over the off-axis places in order |
| Symmetries.OffAxisSlot | src/models/systems_math.py:381-384 | the counter j at an off-axis place i is that vertex's position among the off-axis vertices |
| Symmetries.RotationSpec | src/models/systems_math.py:370-385 | the length and every axis entry are kept, the off-axis entries are the originals rotated left by one, and nothing else changes |
| Symmetries.Determined | src/models/systems_math.py:370-385 | a list is fixed by its axis entries and its off-axis vertices |
| Symmetries.RotationThrice | src/models/systems_math.py:375-379 | with three vertices off the axis, as in a tetrahedron, three rotations are the identity |
| Tables.RootedTreesRange | src/models/systems_math.py:392-414 | rooted_trees is 0 for n <= 0, the A000081 entry (at least 1) for 1..9, and -1 from 10 on |
| Tables.DivisorSums | src/models/systems_math.py:409 | the divisor sums of the table entries for k = 1..8 |
| Tables.RecurrenceSmall | src/models/systems_math.py:392-414 | the table satisfies the rooted-tree recurrence n a(n+1) = sum for n = 1..4 |
| Tables.RecurrenceMiddle | src/models/systems_math.py:392-414 | the same recurrence for n = 5 and 6 |
| Tables.RecurrenceLarge | src/models/systems_math.py:392-414 | the same recurrence for n = 7 and 8, so the whole table is A000081 |
| Tables.NestingToTermsDomain | src/models/systems_math.py:417-423 | nesting_to_terms is -1 exactly outside 1..5, and positive inside |
| Tables.NestingAgainstRootedTrees | src/models/systems_math.py:397-423 | levels 1 to 4 give the rooted-tree counts one node up; level 5 gives 18 where A000081 has 20 |

## Left out

- Floating point and numpy: the position values of System 4 and their
  normalisation, `transformation_matrix`, and the position update in
  `advance_stage`. The model keeps only the stage.
- The vertex and edge weights (0.25, 1/6) and the service weights 1/18.
  The services dict is modelled as its ordered list of keys.
- `TetrahedralVertex.value` is dropped. The vertex payload is generic, and
  the constructor stores the thread id there.
- `six_pointed_positions` and `mediating_positions` are constant lists
  that no modelled operation reads.
- `System1State` to `System3State`, `transition`, `energy_conservation`,
  `flow_rate` and `transformation_energy` are float code and are not
  modelled.
- `src/animations/systems_animator.py` and the visualisations are plotting
  and file output, not discrete logic.
- `@lru_cache` on `pascal_row` is memoisation only. `pascal_row` is a plain
  function.
- `math.sqrt` in `is_prime` is a float bound. It is modelled as the integer
  condition i * i <= n.
- `math.comb` is a library call. It is defined in `Binomial` from Pascal's
  rule.
- Generator laziness: `generate_partitions` is a finite sequence.
- `print_system_summary`, the `__main__` demos and other printing are not
  modelled. Python's `str()` is modelled only for integers.
- Error types: a ValueError is a `Result` or `Comb` error value. The
  message texts are not modelled.
- `phase_angle` and `step_triad` are `System5State` methods that do not
  read the state, so they are modelled as functions.
- The trees of `partition_to_tree` carry no "value" tag in the source.
  They are modelled as nodes with children only. In the source,
  `tree_to_nested_parens` and `tree_to_matula` read `tree["value"]` first
  and so raise KeyError on the parser's dicts, the root of
  `partition_to_tree("")` included. `TreeText` renders parsed trees with
  the model's `TreeToNestedParens`, the bracket rendering the parser
  inverts; that KeyError is not modelled.
- `topological_surfaces` and `analyze_system` are modelled on the
  catalog's records. The dict `analyze_system` returns is a datatype; its
  nested "simplex" dict (three keys) and "concurrency" dict (two keys) are
  flattened into one field per inner key.
- Symmetries.EnneagramRotation: requires at least nine positions, so the
  IndexError the source raises for a shorter input is not modelled. The
  `zero` argument stands for `np.zeros(9)`; the conversion of the moved
  values to float64 is not modelled, nor is the default `steps = 1`.
- Binomial.PascalRow: takes n >= 0. For a negative n the source recurses
  past its only base case n == 0 until RecursionError; that error is not
  modelled. Its caller `pascal_coefficients` returns (1,) for a negative
  level before calling it, which `Catalog.PascalOfSystem` states.
- Systems.EdgesArePairs: states the lexicographic order as "each edge comes
  before the next", on adjacent entries, rather than for every pair of
  positions.
- Matula.Encode and Matula.Decode are ghost functions. The methods
  `MatulaToTree` and `TreeToMatula` carry out the source's loops.
