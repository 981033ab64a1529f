/**
 * Normalised edit distance through the edit transducer. A comparator owns a
 * symbol table (printable characters by default, plus the empty label and the
 * three operation markers at fixed codes) and an edit transducer built over it.
 * Comparing two strings turns each into a linear acceptor, lets the automaton
 * library compose and search them, removes redundant arcs from the best path,
 * sums the arc weights and divides by the length of the longer string.
 */
module Distance {
  import opened Wfst
  import opened Transducer

  /** Reserved codes of the empty label and of the three markers. */
  const EPS_CODE: int := 0
  const INS_CODE: int := 11
  const DEL_CODE: int := 12
  const SUB_CODE: int := 13

  const DefaultMarkers: Markers := Markers(EPS_CODE, INS_CODE, DEL_CODE, SUB_CODE)

  /** The one-character symbol name of a character. */
  function Symbol(ch: char): string
  {
    [ch]
  }

  /** The 96 one-character symbols with codes 32 .. 127, in ascending order. */
  function DefaultAlphabet(): seq<string>
  {
    seq(96, i requires 0 <= i < 96 => Symbol((32 + i) as char))
  }

  /** The codes of the default alphabet, 32 .. 127 in ascending order. */
  function DefaultCodes(): seq<int>
  {
    seq(96, i requires 0 <= i < 96 => 32 + i)
  }

  /** The default alphabet is 96 one-character symbols whose characters strictly ascend from 32 to 127. */
  lemma DefaultAlphabetShape()
    ensures |DefaultAlphabet()| == 96
    ensures forall i :: 0 <= i < 96 ==> |DefaultAlphabet()[i]| == 1 && DefaultAlphabet()[i][0] as int == 32 + i
    ensures forall i, j :: 0 <= i < j < 96 ==> DefaultAlphabet()[i][0] < DefaultAlphabet()[j][0]
  {
  }

  /** The default symbol table: each printable character at its own code, plus the reserved names. */
  predicate IsDefaultTable(t: map<string, int>)
  {
    && (forall ch: char :: 32 <= ch as int < 128 ==> Symbol(ch) in t && t[Symbol(ch)] == ch as int)
    && EPS in t && t[EPS] == EPS_CODE
    && INS in t && t[INS] == INS_CODE
    && DEL in t && t[DEL] == DEL_CODE
    && SUB in t && t[SUB] == SUB_CODE
    && t.Keys == (set ch: char | 32 <= ch as int < 128 :: Symbol(ch)) + {EPS, INS, DEL, SUB}
  }

  /**
   * The default configuration: the reserved codes are pairwise distinct and
   * none of them is the code of an alphabet symbol; the alphabet's codes are
   * 32 .. 127, in order.
   */
  lemma DefaultTableCodes(t: map<string, int>)
    requires IsDefaultTable(t)
    ensures KnowsSymbols(t, DefaultAlphabet())
    ensures CodesOf(t, DefaultAlphabet()) == DefaultCodes()
    ensures MarkersOf(t) == DefaultMarkers
    ensures Reserved(DefaultMarkers, DefaultCodes())
  {
  }

  /**
   * With the default configuration, composing the two factors keeps for
   * every pair of labels exactly the arc of the flower transducer.
   */
  lemma DefaultFactoringMatchesFlower()
    ensures forall x :: (CheapestArc(ComposeLoops(LeftArcs(DefaultCodes(), DefaultMarkers, DefaultWeights),
                                                  RightArcs(DefaultCodes(), DefaultMarkers, DefaultWeights)), x)
                         <==> x in FlowerArcs(DefaultCodes(), EPS_CODE))
    ensures |FlowerArcs(DefaultCodes(), EPS_CODE)| == 9408
    ensures |LeftArcs(DefaultCodes(), DefaultMarkers, DefaultWeights)|
            + |RightArcs(DefaultCodes(), DefaultMarkers, DefaultWeights)| == 578
  {
    forall c | c in DefaultCodes()
      ensures 32 <= c < 128
    {
    }
    FactoringMatchesFlower(DefaultCodes(), DefaultMarkers);
    FactorsAreLinear(DefaultCodes(), DefaultMarkers, DefaultWeights);
    FlowerArcsExact(DefaultCodes(), EPS_CODE);
    assert |DefaultCodes()| == 96;
  }

  // ---------------------------------------------------------------------------
  // Acceptors

  datatype Error = UnsupportedCharacter(position: nat) | NoStartState

  datatype Result<T> = Success(value: T) | Failure(error: Error)

  /** Every character of s before position n has a symbol in the table. */
  predicate KnownUpTo(t: map<string, int>, s: string, n: nat)
    requires n <= |s|
  {
    forall j :: 0 <= j < n ==> Symbol(s[j]) in t
  }

  /** The label code of each character of s. */
  function StringCodes(t: map<string, int>, s: string): (codes: seq<int>)
    requires KnownUpTo(t, s, |s|)
    ensures |codes| == |s|
    ensures forall j :: 0 <= j < |s| ==> codes[j] == t[Symbol(s[j])]
  {
    seq(|s|, j requires 0 <= j < |s| => t[Symbol(s[j])])
  }

  /** States 0 .. n, none final; state i < n has one zero-weight arc (codes[i], codes[i]) to i + 1. */
  function ChainStates(codes: seq<int>): seq<State>
  {
    seq(|codes| + 1, i requires 0 <= i <= |codes| =>
      State(NotFinal, if i < |codes| then [Arc(codes[i], codes[i], i + 1, 0.0)] else []))
  }

  /** The linear acceptor of a label sequence: the chain, with its last state final at weight 0. */
  function Acceptor(codes: seq<int>): Fst
  {
    Fst(ChainStates(codes)[|codes| := State(Final(0.0), [])], Some(0))
  }

  /** A chain automaton read back into its label sequence: the inverse of Acceptor. */
  function ChainLabels(f: Fst): seq<int>
    requires |f.states| >= 1
    requires forall i :: 0 <= i < |f.states| - 1 ==> |f.states[i].arcs| >= 1
  {
    seq(|f.states| - 1, i requires 0 <= i < |f.states| - 1 => f.states[i].arcs[0].ilabel)
  }

  /** Appending a label to a chain adds one state and one arc into it. */
  lemma ChainStep(codes: seq<int>, c: int)
    ensures ChainStates(codes + [c])
            == ChainStates(codes)[|codes| := State(NotFinal, [Arc(c, c, |codes| + 1, 0.0)])] + [State(NotFinal, [])]
  {
  }

  /**
   * The acceptor of n labels has states 0 .. n with start 0; state i < n is
   * not final and has exactly one arc, to i + 1, labelled (codes[i], codes[i])
   * with weight 0; state n is final with weight 0 and has no arcs.
   */
  lemma AcceptorShape(codes: seq<int>)
    ensures var f := Acceptor(codes);
      && WellFormed(f) && f.start == Some(0) && |f.states| == |codes| + 1
      && f.states[|codes|] == State(Final(0.0), [])
      && forall i :: 0 <= i < |codes| ==>
           f.states[i] == State(NotFinal, [Arc(codes[i], codes[i], i + 1, 0.0)])
  {
  }

  /** The empty string's acceptor is one state that is both start and final with weight 0. */
  lemma EmptyAcceptor()
    ensures Acceptor([]) == Fst([State(Final(0.0), [])], Some(0))
  {
  }

  /** Reading the labels back off an acceptor gives the labels it was built from. */
  lemma AcceptorRoundTrip(codes: seq<int>)
    ensures var f := Acceptor(codes);
      && |f.states| >= 1
      && (forall i :: 0 <= i < |f.states| - 1 ==> |f.states[i].arcs| >= 1)
      && ChainLabels(f) == codes
  {
  }

  // ---------------------------------------------------------------------------
  // Redundancy removal

  /** An arc whose input equals its output is an identity step and costs nothing. */
  function ZeroIdentity(a: Arc): Arc
  {
    if a.ilabel == a.olabel then a.(weight := 0.0) else a
  }

  function ZeroIdentities(arcs: seq<Arc>): seq<Arc>
  {
    seq(|arcs|, k requires 0 <= k < |arcs| => ZeroIdentity(arcs[k]))
  }

  /** The first occurrence of each arc, in order. */
  function Distinct(arcs: seq<Arc>): seq<Arc>
  {
    if arcs == [] then []
    else
      var d := Distinct(arcs[..|arcs| - 1]);
      if arcs[|arcs| - 1] in d then d else d + [arcs[|arcs| - 1]]
  }

  predicate NoDuplicates(arcs: seq<Arc>)
  {
    forall i, j :: 0 <= i < j < |arcs| ==> arcs[i] != arcs[j]
  }

  function ZeroState(s: State): State
  {
    State(s.final, ZeroIdentities(s.arcs))
  }

  function ZeroStates(states: seq<State>): seq<State>
  {
    seq(|states|, i requires 0 <= i < |states| => ZeroState(states[i]))
  }

  function CleanState(s: State): State
  {
    State(s.final, Distinct(ZeroIdentities(s.arcs)))
  }

  /** The automaton with identity arcs at weight 0 and duplicate arcs collapsed, state by state. */
  function NonRedundant(f: Fst): Fst
  {
    Fst(CleanStates(f.states), f.start)
  }

  function CleanStates(states: seq<State>): seq<State>
  {
    seq(|states|, i requires 0 <= i < |states| => CleanState(states[i]))
  }

  lemma {:induction false} DistinctExact(arcs: seq<Arc>)
    ensures forall a :: a in Distinct(arcs) <==> a in arcs
    ensures NoDuplicates(Distinct(arcs))
    ensures |Distinct(arcs)| <= |arcs|
  {
    if arcs != [] {
      var init := arcs[..|arcs| - 1];
      DistinctExact(init);
      assert arcs == init + [arcs[|arcs| - 1]];
    }
  }

  /** Collapsing duplicates changes nothing when there are none. */
  lemma {:induction false} DistinctOfDistinct(arcs: seq<Arc>)
    requires NoDuplicates(arcs)
    ensures Distinct(arcs) == arcs
  {
    if arcs != [] {
      var init := arcs[..|arcs| - 1];
      DistinctOfDistinct(init);
      assert arcs[|arcs| - 1] !in init by {
        forall j | 0 <= j < |init|
          ensures init[j] != arcs[|arcs| - 1]
        {
          assert init[j] == arcs[j];
        }
      }
      assert arcs == init + [arcs[|arcs| - 1]];
    }
  }

  /**
   * Each state of the result: identity arcs (including eps:eps) weigh 0; an
   * arc whose labels differ is present exactly when it was present before;
   * no arc occurs twice; the final weight is kept.
   */
  lemma NonRedundantState(s: State)
    ensures CleanState(s).final == s.final
    ensures forall a :: a in CleanState(s).arcs && a.ilabel == a.olabel ==> a.weight == 0.0
    ensures forall a: Arc :: a.ilabel != a.olabel ==> (a in CleanState(s).arcs <==> a in s.arcs)
    ensures forall a :: a in CleanState(s).arcs <==> a in ZeroIdentities(s.arcs)
    ensures NoDuplicates(CleanState(s).arcs)
  {
    var z := ZeroIdentities(s.arcs);
    DistinctExact(z);
    forall a: Arc | a.ilabel != a.olabel
      ensures a in z <==> a in s.arcs
    {
      if a in s.arcs {
        var k :| 0 <= k < |s.arcs| && s.arcs[k] == a;
        assert z[k] == a;
      }
    }
  }

  /**
   * Redundancy removal keeps the number of states, every final weight and
   * the start state, and rewrites each state as NonRedundantState describes.
   */
  lemma NonRedundantShape(f: Fst)
    ensures |NonRedundant(f).states| == |f.states|
    ensures NonRedundant(f).start == f.start
    ensures forall i :: 0 <= i < |f.states| ==> NonRedundant(f).states[i].final == f.states[i].final
    ensures WellFormed(f) ==> WellFormed(NonRedundant(f))
  {
    var g := NonRedundant(f);
    if WellFormed(f) {
      forall i, k | 0 <= i < |g.states| && 0 <= k < |g.states[i].arcs|
        ensures g.states[i].arcs[k].target < |g.states|
      {
        NonRedundantState(f.states[i]);
        var z := ZeroIdentities(f.states[i].arcs);
        assert g.states[i].arcs[k] in z;
        var j :| 0 <= j < |z| && z[j] == g.states[i].arcs[k];
        assert z[j].target == f.states[i].arcs[j].target;
      }
    }
  }

  /** Removing redundancy a second time changes nothing. */
  lemma NonRedundantIdempotent(f: Fst)
    ensures NonRedundant(NonRedundant(f)) == NonRedundant(f)
  {
    var g := NonRedundant(f);
    forall i | 0 <= i < |f.states|
      ensures CleanState(g.states[i]) == g.states[i]
    {
      var arcs := g.states[i].arcs;
      NonRedundantState(f.states[i]);
      assert ZeroIdentities(arcs) == arcs by {
        forall k | 0 <= k < |arcs|
          ensures ZeroIdentity(arcs[k]) == arcs[k]
        {
          assert arcs[k] in arcs;
        }
      }
      DistinctOfDistinct(arcs);
    }
  }

  /** An acceptor has nothing redundant: its arcs weigh 0 and each state has at most one. */
  lemma NonRedundantAcceptor(codes: seq<int>)
    ensures NonRedundant(Acceptor(codes)) == Acceptor(codes)
  {
    var f := Acceptor(codes);
    forall i | 0 <= i < |f.states|
      ensures CleanState(f.states[i]) == f.states[i]
    {
      var arcs := f.states[i].arcs;
      assert ZeroIdentities(arcs) == arcs;
      if arcs != [] {
        assert Distinct(arcs) == Distinct([]) + [arcs[0]];
      }
    }
  }

  // ---------------------------------------------------------------------------
  // Cost of a path automaton and normalisation

  /** The sum of the weights of a sequence of arcs. */
  function ArcsWeight(arcs: seq<Arc>): real
  {
    if arcs == [] then 0.0 else ArcsWeight(arcs[..|arcs| - 1]) + arcs[|arcs| - 1].weight
  }

  /** The sum of the weights of all arcs of all states; final weights do not count. */
  function StatesWeight(states: seq<State>): real
  {
    if states == [] then 0.0
    else StatesWeight(states[..|states| - 1]) + ArcsWeight(states[|states| - 1].arcs)
  }

  function TotalArcWeight(f: Fst): real
  {
    StatesWeight(f.states)
  }

  /** Every arc weight is non-negative. */
  predicate NonNegative(f: Fst)
  {
    forall i, k :: 0 <= i < |f.states| && 0 <= k < |f.states[i].arcs| ==> f.states[i].arcs[k].weight >= 0.0
  }

  /** A 32-bit float as a value: a real number or one of the results of dividing by zero. */
  datatype Float = Finite(value: real) | NaN | PositiveInfinity | NegativeInfinity

  /** Floating division of x by a length n; dividing by 0 follows the floating-point rules. */
  function Divide(x: real, n: nat): Float
  {
    if n > 0 then Finite(x / n as real)
    else if x == 0.0 then NaN
    else if x > 0.0 then PositiveInfinity
    else NegativeInfinity
  }

  function Max(a: nat, b: nat): nat
  {
    if a >= b then a else b
  }

  lemma {:induction false} ArcsWeightNonNegative(arcs: seq<Arc>)
    requires forall k :: 0 <= k < |arcs| ==> arcs[k].weight >= 0.0
    ensures ArcsWeight(arcs) >= 0.0
  {
    if arcs != [] {
      ArcsWeightNonNegative(arcs[..|arcs| - 1]);
    }
  }

  lemma {:induction false} StatesWeightNonNegative(states: seq<State>)
    requires forall i, k :: 0 <= i < |states| && 0 <= k < |states[i].arcs| ==> states[i].arcs[k].weight >= 0.0
    ensures StatesWeight(states) >= 0.0
  {
    if states != [] {
      StatesWeightNonNegative(states[..|states| - 1]);
      ArcsWeightNonNegative(states[|states| - 1].arcs);
    }
  }

  /** Identity arcs weigh nothing, so zeroing them never adds cost. */
  lemma {:induction false} ZeroIdentitiesLowersWeight(arcs: seq<Arc>)
    requires forall k :: 0 <= k < |arcs| ==> arcs[k].weight >= 0.0
    ensures ArcsWeight(ZeroIdentities(arcs)) <= ArcsWeight(arcs)
  {
    if arcs != [] {
      var init := arcs[..|arcs| - 1];
      ZeroIdentitiesLowersWeight(init);
      assert ZeroIdentities(arcs)[..|arcs| - 1] == ZeroIdentities(init);
    }
  }

  /** With non-negative weights, dropping duplicate arcs never adds cost. */
  lemma {:induction false} DistinctLowersWeight(arcs: seq<Arc>)
    requires forall k :: 0 <= k < |arcs| ==> arcs[k].weight >= 0.0
    ensures ArcsWeight(Distinct(arcs)) <= ArcsWeight(arcs)
  {
    if arcs != [] {
      DistinctLowersWeight(arcs[..|arcs| - 1]);
    }
  }

  /**
   * With non-negative arc weights, redundancy removal never raises the total
   * arc weight of an automaton.
   */
  lemma NonRedundantLowersWeight(f: Fst)
    requires NonNegative(f)
    ensures TotalArcWeight(NonRedundant(f)) <= TotalArcWeight(f)
  {
    CleanStatesLowerWeight(f.states);
  }

  lemma {:induction false} CleanStatesLowerWeight(states: seq<State>)
    requires forall i, k :: 0 <= i < |states| && 0 <= k < |states[i].arcs| ==> states[i].arcs[k].weight >= 0.0
    ensures StatesWeight(CleanStates(states)) <= StatesWeight(states)
  {
    if states != [] {
      var n := |states|;
      var init := states[..n - 1];
      var cleaned := CleanStates(states);
      CleanStatesLowerWeight(init);
      assert cleaned[..n - 1] == CleanStates(init);
      var last := states[n - 1].arcs;
      assert forall k :: 0 <= k < |last| ==> last[k].weight >= 0.0;
      ZeroIdentitiesLowersWeight(last);
      var z := ZeroIdentities(last);
      assert forall k :: 0 <= k < |z| ==> z[k].weight >= 0.0;
      DistinctLowersWeight(z);
    }
  }

  /** The total arc weight depends on the arcs only, never on the final weights. */
  lemma TotalIgnoresFinalWeights(f: Fst, g: Fst)
    requires |f.states| == |g.states|
    requires forall i :: 0 <= i < |f.states| ==> f.states[i].arcs == g.states[i].arcs
    ensures TotalArcWeight(f) == TotalArcWeight(g)
  {
    StatesWeightByArcs(f.states, g.states);
  }

  lemma {:induction false} StatesWeightByArcs(a: seq<State>, b: seq<State>)
    requires |a| == |b|
    requires forall i :: 0 <= i < |a| ==> a[i].arcs == b[i].arcs
    ensures StatesWeight(a) == StatesWeight(b)
  {
    if a != [] {
      StatesWeightByArcs(a[..|a| - 1], b[..|b| - 1]);
    }
  }

  /** An acceptor costs nothing: all of its arcs weigh 0. */
  lemma AcceptorCostsNothing(codes: seq<int>)
    ensures TotalArcWeight(Acceptor(codes)) == 0.0
  {
    var states := Acceptor(codes).states;
    ZeroStatesWeigh(states, |states|);
    assert states[..|states|] == states;
  }

  lemma {:induction false} ZeroStatesWeigh(states: seq<State>, n: nat)
    requires n <= |states|
    requires forall i, k :: 0 <= i < |states| && 0 <= k < |states[i].arcs| ==> states[i].arcs[k].weight == 0.0
    ensures StatesWeight(states[..n]) == 0.0
  {
    if n > 0 {
      ZeroStatesWeigh(states, n - 1);
      assert states[..n][..n - 1] == states[..n - 1];
      ZeroArcsWeigh(states[n - 1].arcs);
    }
  }

  lemma {:induction false} ZeroArcsWeigh(arcs: seq<Arc>)
    requires forall k :: 0 <= k < |arcs| ==> arcs[k].weight == 0.0
    ensures ArcsWeight(arcs) == 0.0
  {
    if arcs != [] {
      ZeroArcsWeigh(arcs[..|arcs| - 1]);
    }
  }

  /**
   * The normalised distance of a best path with non-negative weights, for
   * two strings not both empty, is a non-negative finite number.
   */
  lemma DistanceNonNegative(sp: Fst, len1: nat, len2: nat)
    requires NonNegative(sp) && Max(len1, len2) > 0
    ensures Divide(TotalArcWeight(NonRedundant(sp)), Max(len1, len2)).Finite?
    ensures Divide(TotalArcWeight(NonRedundant(sp)), Max(len1, len2)).value >= 0.0
  {
    var g := NonRedundant(sp);
    forall i, k | 0 <= i < |g.states| && 0 <= k < |g.states[i].arcs|
      ensures g.states[i].arcs[k].weight >= 0.0
    {
      var z := ZeroIdentities(sp.states[i].arcs);
      DistinctExact(z);
      assert g.states[i].arcs[k] in z;
      var j :| 0 <= j < |z| && z[j] == g.states[i].arcs[k];
      assert sp.states[i].arcs[j].weight >= 0.0;
    }
    StatesWeightNonNegative(g.states);
  }

  /**
   * There is no guard on the divisor: two empty strings give a zero length,
   * and the result is NaN (zero cost) or an infinity, never a number.
   */
  lemma EmptyStringsHaveNoDistance(raw: real)
    ensures !Divide(raw, Max(0, 0)).Finite?
    ensures raw == 0.0 ==> Divide(raw, Max(0, 0)) == NaN
  {
  }

  // ---------------------------------------------------------------------------
  // The comparator object

  class EditDistance {
    var alphabet: seq<string>
    var symbolTable: SymbolTable
    var et: EditTransducer

    /** The edit transducer's factors exist, and the comparator shares its table. */
    predicate Valid()
      reads this, et, et.leftFactor, et.rightFactor
    {
      && et.symbolTable == symbolTable
      && et.leftFactor != null && et.rightFactor != null
      && et.leftFactor.Valid() && et.rightFactor.Valid()
    }

    /** The default comparator: printable characters 32 .. 127 and the reserved codes. */
    constructor ()
      ensures Valid() && fresh(symbolTable) && fresh(et)
      ensures alphabet == DefaultAlphabet() && IsDefaultTable(symbolTable.symbols)
      ensures et.alphabet == alphabet && et.OpWeights() == DefaultWeights
      ensures et.leftFactor.Model() == LeftFactor(DefaultCodes(), DefaultMarkers, DefaultWeights)
      ensures et.rightFactor.Model() == RightFactor(DefaultCodes(), DefaultMarkers, DefaultWeights)
    {
      var table := new SymbolTable();
      var charlist: seq<string> := [];
      for c := 32 to 128
        invariant |charlist| == c - 32
        invariant forall i :: 0 <= i < c - 32 ==> charlist[i] == Symbol((32 + i) as char)
        invariant forall ch: char :: 32 <= ch as int < c ==>
                    Symbol(ch) in table.symbols && table.symbols[Symbol(ch)] == ch as int
        invariant table.symbols.Keys == set ch: char | 32 <= ch as int < c :: Symbol(ch)
      {
        var stringRepr := Symbol(c as char);
        charlist := charlist + [stringRepr];
        table.Put(stringRepr, c);
      }
      table.Put(EPS, EPS_CODE);
      table.Put(INS, INS_CODE);
      table.Put(DEL, DEL_CODE);
      table.Put(SUB, SUB_CODE);
      assert charlist == DefaultAlphabet();
      assert IsDefaultTable(table.symbols);
      DefaultTableCodes(table.symbols);
      alphabet := charlist;
      symbolTable := table;
      et := new EditTransducer(charlist, table);
    }

    /**
     * A comparator over a caller's alphabet and symbol table. The reserved
     * codes are written into the caller's table, which stays shared.
     */
    constructor WithAlphabet(alphabet: seq<string>, symbolTable: SymbolTable)
      requires forall s :: s in alphabet ==> s in symbolTable.symbols
      modifies symbolTable
      ensures Valid() && fresh(et)
      ensures symbolTable.symbols
              == old(symbolTable.symbols)[EPS := EPS_CODE][INS := INS_CODE][DEL := DEL_CODE][SUB := SUB_CODE]
      ensures this.alphabet == alphabet && this.symbolTable == symbolTable
      ensures et.alphabet == alphabet && et.OpWeights() == DefaultWeights
      ensures et.leftFactor.Model()
              == LeftFactor(CodesOf(symbolTable.symbols, alphabet), DefaultMarkers, DefaultWeights)
      ensures et.rightFactor.Model()
              == RightFactor(CodesOf(symbolTable.symbols, alphabet), DefaultMarkers, DefaultWeights)
    {
      this.alphabet := alphabet;
      this.symbolTable := symbolTable;
      symbolTable.Put(EPS, EPS_CODE);
      symbolTable.Put(INS, INS_CODE);
      symbolTable.Put(DEL, DEL_CODE);
      symbolTable.Put(SUB, SUB_CODE);
      et := new EditTransducer(alphabet, symbolTable);
    }

    /**
     * The linear acceptor of a string, or the position of its first character
     * that has no symbol in the table.
     */
    method CreateAcceptor(inputString: string) returns (r: Result<MutableFst>)
      ensures r.Success? <==> KnownUpTo(symbolTable.symbols, inputString, |inputString|)
      ensures r.Failure? ==>
                && r.error.UnsupportedCharacter?
                && r.error.position < |inputString|
                && Symbol(inputString[r.error.position]) !in symbolTable.symbols
                && KnownUpTo(symbolTable.symbols, inputString, r.error.position)
      ensures r.Success? ==>
                && fresh(r.value) && r.value.Valid()
                && r.value.Model() == Acceptor(StringCodes(symbolTable.symbols, inputString))
    {
      var t := symbolTable.symbols;
      var acceptor := new MutableFst();
      var st := acceptor.NewStartState();
      ghost var codes: seq<int> := [];
      for i := 0 to |inputString|
        invariant fresh(acceptor) && acceptor.Valid()
        invariant KnownUpTo(t, inputString, i)
        invariant |codes| == i && forall j :: 0 <= j < i ==> codes[j] == t[Symbol(inputString[j])]
        invariant acceptor.Model() == Fst(ChainStates(codes), Some(0))
      {
        var symbol := Symbol(inputString[i]);
        if symbol !in t {
          return Failure(UnsupportedCharacter(i));
        }
        ghost var chain := ChainStates(codes);
        assert acceptor.states == chain;
        var next := acceptor.AddState(NotFinal);
        assert next == i + 1 && acceptor.states == chain + [State(NotFinal, [])];
        acceptor.AddArc(i, Arc(t[symbol], t[symbol], next, 0.0));
        ChainStep(codes, t[symbol]);
        assert chain[i] == State(NotFinal, []);
        ghost var arc := Arc(t[symbol], t[symbol], i + 1, 0.0);
        assert [] + [arc] == [arc];
        assert acceptor.states == (chain + [State(NotFinal, [])])[i := State(NotFinal, [arc])];
        assert acceptor.states
               == chain[i := State(NotFinal, [Arc(t[symbol], t[symbol], i + 1, 0.0)])] + [State(NotFinal, [])];
        codes := codes + [t[symbol]];
      }
      assert codes == StringCodes(t, inputString);
      acceptor.SetFinalWeight(|inputString|, 0.0);
      return Success(acceptor);
    }

    /**
     * A copy of an automaton with identity arcs at weight 0 and duplicate arcs
     * of a state collapsed to one. As a side effect, the identity arcs of the
     * argument itself are set to weight 0.
     */
    static method RemoveRedundancy(redundantFst: MutableFst) returns (nonredundantFst: MutableFst)
      requires redundantFst.Valid() && redundantFst.start.Some?
      modifies redundantFst
      ensures redundantFst.Valid()
      ensures redundantFst.start == old(redundantFst.start)
      ensures redundantFst.states == ZeroStates(old(redundantFst.states))
      ensures fresh(nonredundantFst) && nonredundantFst.Valid()
      ensures nonredundantFst.Model() == NonRedundant(old(redundantFst.Model()))
    {
      ghost var before := redundantFst.states;
      var n := |redundantFst.states|;
      nonredundantFst := new MutableFst();
      for i := 0 to n
        invariant fresh(nonredundantFst) && nonredundantFst.Valid() && nonredundantFst.start == None
        invariant |nonredundantFst.states| == i
        invariant forall j :: 0 <= j < i ==> nonredundantFst.states[j] == State(before[j].final, [])
        invariant redundantFst.states == before && redundantFst.start == old(redundantFst.start)
      {
        var id := nonredundantFst.AddState(redundantFst.states[i].final);
      }
      for i := 0 to n
        invariant fresh(nonredundantFst) && nonredundantFst.Valid() && nonredundantFst.start == None
        invariant redundantFst.Valid() && redundantFst.start == old(redundantFst.start)
        invariant |redundantFst.states| == n && |nonredundantFst.states| == n
        invariant forall j :: 0 <= j < n ==>
                    redundantFst.states[j] == if j < i then ZeroState(before[j]) else before[j]
        invariant forall j :: 0 <= j < n ==>
                    nonredundantFst.states[j] == if j < i then CleanState(before[j]) else State(before[j].final, [])
      {
        ZeroIdentityArcs(redundantFst, i);
        CopyDistinctArcs(nonredundantFst, i, redundantFst.states[i].arcs);
      }
      nonredundantFst.SetStart(redundantFst.start.value);
    }

    /** Sets the weight of every identity arc leaving state i to 0. */
    static method ZeroIdentityArcs(fst: MutableFst, i: nat)
      requires fst.Valid() && i < |fst.states|
      modifies fst
      ensures fst.Valid() && fst.start == old(fst.start)
      ensures fst.states == old(fst.states)[i := ZeroState(old(fst.states)[i])]
    {
      var arcs := fst.states[i].arcs;
      ghost var before := fst.states;
      for k := 0 to |arcs|
        invariant fst.Valid() && fst.start == old(fst.start) && |fst.states| == |before|
        invariant fst.states == before[i := State(before[i].final, fst.states[i].arcs)]
        invariant |fst.states[i].arcs| == |arcs|
        invariant forall m :: 0 <= m < |arcs| ==>
                    fst.states[i].arcs[m] == if m < k then ZeroIdentity(arcs[m]) else arcs[m]
      {
        if arcs[k].ilabel == arcs[k].olabel {
          fst.SetArcWeight(i, k, 0.0);
        }
      }
      assert fst.states[i].arcs == ZeroIdentities(arcs);
    }

    /** Adds the arcs to state i, each distinct arc once, keeping a set of those already added. */
    static method CopyDistinctArcs(fst: MutableFst, i: nat, arcs: seq<Arc>)
      requires fst.Valid() && i < |fst.states| && fst.states[i].arcs == []
      requires forall k :: 0 <= k < |arcs| ==> arcs[k].target < |fst.states|
      modifies fst
      ensures fst.Valid() && fst.start == old(fst.start)
      ensures fst.states == old(fst.states)[i := State(old(fst.states)[i].final, Distinct(arcs))]
    {
      var seen: set<Arc> := {};
      ghost var before := fst.states;
      for k := 0 to |arcs|
        invariant fst.Valid() && fst.start == old(fst.start)
        invariant fst.states == before[i := State(before[i].final, Distinct(arcs[..k]))]
        invariant forall a :: a in seen <==> a in Distinct(arcs[..k])
      {
        var a := arcs[k];
        DistinctExact(arcs[..k]);
        assert arcs[..k + 1][..k] == arcs[..k];
        if a !in seen {
          seen := seen + {a};
          fst.AddArc(i, a);
        }
      }
      assert arcs[..|arcs|] == arcs;
    }

    /** The sum of the weights of all arcs of all states of a path automaton. */
    static method PathCost(sp: MutableFst) returns (distance: real)
      ensures distance == TotalArcWeight(sp.Model())
    {
      distance := 0.0;
      for i := 0 to |sp.states|
        invariant distance == StatesWeight(sp.states[..i])
      {
        var arcs := sp.states[i].arcs;
        ghost var sofar := distance;
        for k := 0 to |arcs|
          invariant distance == sofar + ArcsWeight(arcs[..k])
        {
          distance := distance + arcs[k].weight;
          assert arcs[..k + 1][..k] == arcs[..k];
        }
        assert arcs[..|arcs|] == arcs;
        assert sp.states[..i + 1][..i] == sp.states[..i];
      }
      assert sp.states[..|sp.states|] == sp.states;
    }

    /**
     * Compares two strings. The automaton library's composition, best-path
     * search, reversal and epsilon removal are the parameter `pipeline`,
     * applied to the first acceptor, the two factors and the second acceptor.
     */
    method Compare(firstString: string, secondString: string, pipeline: (Fst, Fst, Fst, Fst) -> Fst)
      returns (r: Result<Float>)
      requires Valid()
      requires forall a, b, c, d :: WellFormed(pipeline(a, b, c, d))
      ensures r.Success? <==>
                && KnownUpTo(symbolTable.symbols, firstString, |firstString|)
                && KnownUpTo(symbolTable.symbols, secondString, |secondString|)
                && pipeline(Acceptor(StringCodes(symbolTable.symbols, firstString)), et.leftFactor.Model(),
                            et.rightFactor.Model(), Acceptor(StringCodes(symbolTable.symbols, secondString))).start.Some?
      ensures r.Success? ==>
                r.value == Divide(TotalArcWeight(NonRedundant(pipeline(
                                    Acceptor(StringCodes(symbolTable.symbols, firstString)), et.leftFactor.Model(),
                                    et.rightFactor.Model(), Acceptor(StringCodes(symbolTable.symbols, secondString))))),
                                  Max(|firstString|, |secondString|))
    {
      var firstAcceptor := CreateAcceptor(firstString);
      if firstAcceptor.Failure? {
        return Failure(firstAcceptor.error);
      }
      var secondAcceptor := CreateAcceptor(secondString);
      if secondAcceptor.Failure? {
        return Failure(secondAcceptor.error);
      }
      var path := pipeline(firstAcceptor.value.Model(), et.leftFactor.Model(),
                           et.rightFactor.Model(), secondAcceptor.value.Model());
      if path.start.None? {
        return Failure(NoStartState);
      }
      var shortest := new MutableFst.Copy(path);
      var sp := RemoveRedundancy(shortest);
      var distance := PathCost(sp);
      r := Success(Divide(distance, Max(|firstString|, |secondString|)));
    }
  }
}
