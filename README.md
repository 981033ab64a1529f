# editFST: edit distance through a factored edit transducer

editFST computes a normalised Levenshtein distance between two strings with
weighted finite-state transducers over the tropical (min, +) semiring. It does
not use dynamic programming. This project models its two own classes:

- `EditTransducer` builds two single-state, self-loop machines over an alphabet:
  - The left factor rewrites a symbol into itself, into `<sub>` or into `<del>`, and rewrites the empty label into `<ins>`.
  - The right factor rewrites a symbol into itself, rewrites `<sub>` or `<ins>` into a symbol, and rewrites `<del>` into the empty label.
  - Composed, the two factors replace the "flower" transducer. The flower has an arc for every pair of symbols, so it grows with the square of the alphabet; the factors grow linearly.
- `EditDistance` sets up the symbol table:
  - by default the 96 characters with codes 32..127, each at its own code;
  - the empty label at 0, `<ins>` at 11, `<del>` at 12 and `<sub>` at 13.
- `EditDistance` also turns each string into a linear acceptor and cleans the best-path automaton:
  - identity arcs get weight 0;
  - duplicate arcs of a state collapse to one.
- Finally it sums every arc weight and divides by the length of the longer string.

Files:
- `wfst.dfy` (module `Wfst`) models the parts of the automaton library that the code calls directly:
  - arcs, states with final weights, an automaton value `Fst`;
  - a mutable automaton class `MutableFst`;
  - a symbol table class `SymbolTable` mapping names to integer codes.
- `transducer.dfy` (module `Transducer`) holds:
  - the `EditTransducer` class;
  - the factors as values (`LeftFactor`, `RightFactor`);
  - the flower transducer written in the commented-out `generateTransducer`;
  - a reference composition of single-state machines (`ComposeLoops`);
  - the factoring theorems.
- `distance.dfy` (module `Distance`) holds:
  - the `EditDistance` class;
  - the acceptor as a value (`Acceptor`);
  - the cleaned automaton as a value (`NonRedundant`);
  - the cost of an automaton (`TotalArcWeight`);
  - the division with its zero-divisor cases (`Divide`).

Each state-changing method is proved against one of these value-level
functions. The lemmas state the properties of those functions.

## Model

| member | source | states |
|---|---|---|
| Transducer.EditTransducer.constructor | src/main/java/alexbogatu/github/editFST/EditTransducer.java:38-53 | Keeps the given alphabet and table and uses costs id 0, sub 1, ins 1, del 1. Builds two fresh, distinct, well-formed factors equal to `LeftFactor` and `RightFactor` of the alphabet's codes and the markers' codes. |
| Transducer.EditTransducer.WithWeights | src/main/java/alexbogatu/github/editFST/EditTransducer.java:66-77 | Stores the four given costs before building either factor. Both factors are built with exactly those costs. |
| Transducer.EditTransducer.GenerateLeftFactor | src/main/java/alexbogatu/github/editFST/EditTransducer.java:105-128 | Returns a fresh well-formed automaton equal to `LeftFactor`. The `for` loop over the alphabet keeps the arcs added so far equal to `LeftArcs` of the alphabet prefix. |
| Transducer.EditTransducer.GenerateRightFactor | src/main/java/alexbogatu/github/editFST/EditTransducer.java:136-159 | Returns a fresh well-formed automaton equal to `RightFactor`. The loop invariant is the same as the left factor's, mirrored. |
| Transducer.EditTransducer.SetAlphabet | src/main/java/alexbogatu/github/editFST/EditTransducer.java:171-173 | Replaces only the alphabet. The table, the four costs and both factors (references and contents) are unchanged. |
| Transducer.LeftLoopsAt | src/main/java/alexbogatu/github/editFST/EditTransducer.java:115-124 | The loop adds 3 arcs per symbol. The k-th symbol's arcs (s,s,id), (s,`<sub>`,sub/2), (s,`<del>`,del/2) sit at positions 3k..3k+2. |
| Transducer.LeftFactorShape | src/main/java/alexbogatu/github/editFST/EditTransducer.java:106-124 | The left factor has one state, which is the start state and is final with weight 0. It has 1+3\|A\| self-loops: the ε→`<ins>` arc (ins/2) first, then each symbol's three arcs in alphabet order. |
| Transducer.RightLoopsAt | src/main/java/alexbogatu/github/editFST/EditTransducer.java:146-155 | Three arcs per symbol: (s,s,id), (`<sub>`,s,sub/2), (`<ins>`,s,ins/2) at positions 3k..3k+2. |
| Transducer.RightFactorShape | src/main/java/alexbogatu/github/editFST/EditTransducer.java:137-155 | The right factor has one start state, final with weight 0. It has 1+3\|A\| self-loops: `<del>`→ε (del/2) first, then each symbol's three arcs. |
| Transducer.LeftArcsExact | src/main/java/alexbogatu/github/editFST/EditTransducer.java:113-124 | An arc is in the left factor if and only if it is ε→`<ins>` at ins/2, or a self-loop from an alphabet symbol to itself (id), to `<sub>` (sub/2) or to `<del>` (del/2). |
| Transducer.RightArcsExact | src/main/java/alexbogatu/github/editFST/EditTransducer.java:144-155 | An arc is in the right factor if and only if it is `<del>`→ε at del/2, or a self-loop into an alphabet symbol from itself (id), from `<sub>` (sub/2) or from `<ins>` (ins/2). |
| Transducer.WeightSplit | src/main/java/alexbogatu/github/editFST/EditTransducer.java:113-154 | When the markers are reserved: a left arc and a right arc meeting on `<sub>`, `<ins>` or `<del>` add up to the full sub, ins or del cost. |
| Transducer.SharedTapeEpsilonFree | src/main/java/alexbogatu/github/editFST/EditTransducer.java:113-154 | No left arc outputs the empty label and no right arc reads it. Composing on the shared tape therefore only matches labels. |
| Transducer.FactoredComposition | src/main/java/alexbogatu/github/editFST/EditTransducer.java:13-16 | Composing left with right gives exactly a→b at sub, a→ε at del, ε→b at ins, and a→a at twice the identity cost, for alphabet symbols a and b. Both directions are proved. |
| Transducer.IdentityComposed | src/main/java/alexbogatu/github/editFST/EditTransducer.java:117-148 | a→a is produced by the two identity arcs, at cost id+id. |
| Transducer.SubstitutionComposed | src/main/java/alexbogatu/github/editFST/EditTransducer.java:120-151 | a→b is produced through `<sub>`, at cost sub/2+sub/2. |
| Transducer.DeletionComposed | src/main/java/alexbogatu/github/editFST/EditTransducer.java:123-144 | a→ε is produced through `<del>`, at cost del/2+del/2. |
| Transducer.InsertionComposed | src/main/java/alexbogatu/github/editFST/EditTransducer.java:113-154 | ε→b is produced through `<ins>`, at cost ins/2+ins/2. |
| Transducer.FlowerRowExact | src/main/java/alexbogatu/github/editFST/EditTransducer.java:87-94 | The inner loop adds one arc s1→s2 per symbol s2, with weight 0 when s1 = s2 and 1 otherwise. |
| Transducer.FlowerLoopsLength | src/main/java/alexbogatu/github/editFST/EditTransducer.java:84-95 | Each outer iteration adds \|A\|+2 arcs. |
| Transducer.FlowerLoopsExact | src/main/java/alexbogatu/github/editFST/EditTransducer.java:84-95 | Arc membership after the outer loop over a prefix of the alphabet. |
| Transducer.FlowerArcsExact | src/main/java/alexbogatu/github/editFST/EditTransducer.java:79-97 | The flower has \|A\|²+2\|A\| arcs. Its arcs are exactly deletions and insertions at 1, identities at 0 and substitutions at 1. |
| Transducer.FactorsAreLinear | src/main/java/alexbogatu/github/editFST/EditTransducer.java:15 | The factors have 2(1+3\|A\|) arcs together. For 95 symbols the flower has 9215 arcs and the factors 572. From 5 symbols up, the factors are smaller than the flower. |
| Transducer.FactoringMatchesWeightedFlower | src/main/java/alexbogatu/github/editFST/EditTransducer.java:56-77 | Take any costs with identity 0 (as the constructor documents) and substitution ≥ 0. Then, for each label pair, the cheapest composed arc is exactly the arc of a flower with those costs. |
| Transducer.FactoringMatchesFlower | src/main/java/alexbogatu/github/editFST/EditTransducer.java:79-97 | With the default costs, the cheapest composed arcs are exactly the arcs of the commented-out flower transducer. |
| Distance.EditDistance.constructor | src/main/java/alexbogatu/github/editFST/EditDistance.java:45-61 | The loop over 32..127 builds the alphabet `DefaultAlphabet` and a table satisfying `IsDefaultTable`. It then builds the edit transducer with default costs, whose factors are `LeftFactor` and `RightFactor` over codes 32..127 and markers (0, 11, 12, 13). |
| Distance.EditDistance.WithAlphabet | src/main/java/alexbogatu/github/editFST/EditDistance.java:63-73 | Writes the four reserved codes into the caller's table, keeps the table shared, and builds the factors over the resulting codes. |
| Distance.DefaultAlphabetShape | src/main/java/alexbogatu/github/editFST/EditDistance.java:47-52 | The default alphabet is 96 one-character symbols with codes 32..127 in strictly ascending order. |
| Distance.DefaultTableCodes | src/main/java/alexbogatu/github/editFST/EditDistance.java:48-57 | In the default table every alphabet symbol maps to its own code. The markers are (0, 11, 12, 13), pairwise distinct and outside 32..127. |
| Distance.DefaultFactoringMatchesFlower | src/main/java/alexbogatu/github/editFST/EditDistance.java:45-61 | For the default comparator, the composed factors give exactly the flower's arcs. The flower would have 9408 arcs and the factors have 578. |
| Distance.EditDistance.CreateAcceptor | src/main/java/alexbogatu/github/editFST/EditDistance.java:80-96 | Succeeds if and only if every character has a symbol, and then returns a fresh well-formed `Acceptor` of the string's codes. Otherwise it reports the first position whose character is unknown. |
| Distance.AcceptorShape | src/main/java/alexbogatu/github/editFST/EditDistance.java:85-95 | States 0..n, start 0. Each i<n has exactly one arc i→i+1 labelled (s[i], s[i]) with weight 0 and is not final. State n is final with weight 0 and has no arcs. |
| Distance.EmptyAcceptor | src/main/java/alexbogatu/github/editFST/EditDistance.java:89-94 | The empty string gives one state that is both start and final with weight 0. |
| Distance.AcceptorRoundTrip | src/main/java/alexbogatu/github/editFST/EditDistance.java:85-95 | Reading the labels back along the chain gives the codes the acceptor was built from. |
| Distance.AcceptorCostsNothing | src/main/java/alexbogatu/github/editFST/EditDistance.java:91 | The total arc weight of an acceptor is 0. |
| Distance.EditDistance.RemoveRedundancy | src/main/java/alexbogatu/github/editFST/EditDistance.java:105-135 | Returns a fresh well-formed automaton equal to `NonRedundant` of the input. As a side effect, the input's identity arcs are set to weight 0 in place; nothing else in the input changes. |
| Distance.EditDistance.ZeroIdentityArcs | src/main/java/alexbogatu/github/editFST/EditDistance.java:119-123 | In place, every arc of state i with equal labels gets weight 0. The other arcs and states are untouched. |
| Distance.EditDistance.CopyDistinctArcs | src/main/java/alexbogatu/github/editFST/EditDistance.java:125-129 | State i of the copy receives each distinct arc once, in first-occurrence order. |
| Distance.DistinctExact | src/main/java/alexbogatu/github/editFST/EditDistance.java:126 | Collapsing duplicates keeps exactly the same set of arcs, with none repeated and no more arcs than before. |
| Distance.DistinctOfDistinct | src/main/java/alexbogatu/github/editFST/EditDistance.java:126 | An arc list without duplicates is unchanged by collapsing. |
| Distance.NonRedundantState | src/main/java/alexbogatu/github/editFST/EditDistance.java:119-129 | Per state, after cleaning: identity arcs, ε:ε included, weigh 0, and an arc with differing labels is present exactly when it was before. No arc occurs twice, and the final weight is kept. |
| Distance.NonRedundantShape | src/main/java/alexbogatu/github/editFST/EditDistance.java:108-132 | Cleaning keeps the state count, every final weight, the start index and well-formedness. |
| Distance.NonRedundantIdempotent | src/main/java/alexbogatu/github/editFST/EditDistance.java:105-135 | Cleaning twice is the same as cleaning once. |
| Distance.NonRedundantAcceptor | src/main/java/alexbogatu/github/editFST/EditDistance.java:80-135 | Cleaning leaves an acceptor unchanged. |
| Distance.ZeroIdentitiesLowersWeight | src/main/java/alexbogatu/github/editFST/EditDistance.java:119-123 | With non-negative weights, zeroing identity arcs never raises a state's arc weight. |
| Distance.DistinctLowersWeight | src/main/java/alexbogatu/github/editFST/EditDistance.java:126-129 | With non-negative weights, collapsing duplicates never raises a state's arc weight. |
| Distance.NonRedundantLowersWeight | src/main/java/alexbogatu/github/editFST/EditDistance.java:105-135 | With non-negative weights, the cleaned automaton's total arc weight is at most the input's. |
| Distance.EditDistance.PathCost | src/main/java/alexbogatu/github/editFST/EditDistance.java:172-178 | The nested loops return `TotalArcWeight`: the sum of every arc weight of every state. |
| Distance.TotalIgnoresFinalWeights | src/main/java/alexbogatu/github/editFST/EditDistance.java:174-178 | Two automata with the same arcs per state have the same cost, whatever their final weights. |
| Distance.ArcsWeightNonNegative | src/main/java/alexbogatu/github/editFST/EditDistance.java:175-177 | Non-negative arc weights sum to a non-negative amount. |
| Distance.StatesWeightNonNegative | src/main/java/alexbogatu/github/editFST/EditDistance.java:174-178 | The same over all states. |
| Distance.DistanceNonNegative | src/main/java/alexbogatu/github/editFST/EditDistance.java:170-180 | For a best path with non-negative weights and strings not both empty, the normalised distance is a finite number ≥ 0. |
| Distance.EmptyStringsHaveNoDistance | src/main/java/alexbogatu/github/editFST/EditDistance.java:180 | The divisor has no guard. For two empty strings the result is NaN (zero cost) or an infinity, never a number. |
| Distance.EditDistance.Compare | src/main/java/alexbogatu/github/editFST/EditDistance.java:158-182 | Succeeds if and only if both strings have only known characters and the best path has a start state. The result is then `Divide(TotalArcWeight(NonRedundant(path)), max(len1, len2))`, where `path` is the library pipeline applied to the first acceptor, the two factors and the second acceptor. |

## Left out

- The automaton library's operations are not modelled: composition, arc sorting, n-shortest paths, reversal and epsilon removal. `Compare` takes them as one function parameter `pipeline` and only assumes it returns a well-formed automaton. So no claim is made that `compare` equals the Levenshtein distance end to end.
- Distance.EditDistance.Compare: because of that parameter, the best-path automaton is an input. Only the acceptors, the factors, the cleanup and the arithmetic after it are modelled.
- Distance.EditDistance.PathCost: sums exact reals. The source accumulates in a 32-bit `float` and halves costs in `Double`; rounding is not modelled, and weights are `real` throughout.
- Distance.EditDistance.RemoveRedundancy: the source copies arcs through a `HashSet`, whose iteration order is unspecified. The model keeps first-occurrence order, so the result is specified up to that order. Arcs are equal when all four fields (labels, target, weight) are equal.
- A best path without a start state makes the source fail with a null dereference. The model returns `Failure(NoStartState)` instead.
- `Distance.EditDistance.CreateAcceptor`: what the library's `addArc` does with an unknown symbol name is not part of this model. An unknown character is reported as `Failure(UnsupportedCharacter(position))` at the first such position.
- `Transducer.EditTransducer.constructor`, `Transducer.EditTransducer.WithWeights` and `Distance.EditDistance.WithAlphabet` require the table to know every alphabet symbol; the transducer constructors also require it to know the empty label and the three markers. What the library's `addArc` does with a symbol name missing from the table is not part of this model.
- Distance.EditDistance.CreateAcceptor: a Dafny `string` is a sequence of Unicode scalar values, while the source splits a string into UTF-16 code units (`toCharArray`). For a character outside the Basic Multilingual Plane the source looks up two lone-surrogate symbols where the model looks up one one-character symbol, so for an alphabet holding such characters the model can succeed where the source finds no symbol, and the chain lengths differ.
- Distance.EditDistance.Compare: for the same reason the divisor is the number of Unicode scalar values, where the source's `String.length()` counts UTF-16 code units; the two agree only on strings inside the Basic Multilingual Plane (every default-alphabet string among them).
- The library's symbol table is a map: `put` of an existing name replaces its code. `new MutableSymbolTable()` is taken to be empty.
- The source creates states by name. The model relies on the library giving states consecutive ids in creation order, so the state named "i" has id i.
- Symbol tables attached to automata, `useStateSymbols` and `emptyWithCopyOfSymbols` are not modelled: labels are integer codes throughout.
- `exportEditTransducer` writes files; it is not modelled.
- The getters `getAlphabet`, `getLeftFactor`, `getRightFactor` and `getEditTransducer`, and the setters `setLeftFactor` and `setRightFactor`, are plain field accesses. The model reads and writes the fields directly.
- `Collections.unmodifiableList` wrappers are not modelled: sequences are values.
- `App.java` (a demonstration entry point that prints) is not part of this model. Neither is the test class, which needs the whole library pipeline.

Facts about the code that the model keeps as they are:
- `compare` divides by `max(len1, len2)` with no guard, so two empty strings give NaN, or an infinity for a non-zero cost (`EmptyStringsHaveNoDistance`).
- The constructors check neither for an empty alphabet nor for alphabet symbols at the reserved codes. The factoring lemmas take `Reserved` as a hypothesis, and `DefaultTableCodes` proves it for the default table.
- `removeRedundancy` does more than copy: besides zeroing identity arcs it collapses duplicate arcs of a state through a `HashSet`.
- The class comment speaks of 95 characters and 9215 flower arcs. The default alphabet has 96 characters (codes 32..127, DEL included), for which the flower would have 9408 arcs (`DefaultFactoringMatchesFlower`). `FactorsAreLinear` proves the 95-character figure.
- Identity arcs are not halved. Composed, an identity costs twice the identity weight, so the factoring reproduces the flower exactly only when the identity weight is 0 (`FactoredComposition`, `FactoringMatchesWeightedFlower`). The constructor documents that this weight should be 0.
