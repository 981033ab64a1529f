/**
 * The factored edit transducer. Instead of one "flower" machine with an arc
 * for every pair of alphabet symbols, the edit operations are split across two
 * single-state machines that meet on three marker symbols: the left factor
 * rewrites a symbol into itself or into a marker (and the empty label into the
 * insertion marker), the right factor rewrites itself or a marker into a symbol
 * (and the deletion marker into the empty label). The cost of each edit
 * operation other than identity is split in halves between the two factors.
 */
module Transducer {
  import opened Wfst

  /** Names of the three operation markers. */
  const INS: string := "<ins>"
  const DEL: string := "<del>"
  const SUB: string := "<sub>"

  /** The costs of the four edit operations. */
  datatype Weights = Weights(id: real, sub: real, ins: real, del: real)

  /** Identity is free; substitution, insertion and deletion cost 1. */
  const DefaultWeights: Weights := Weights(0.0, 1.0, 1.0, 1.0)

  /** The label codes of the empty label and of the three markers. */
  datatype Markers = Markers(eps: int, ins: int, del: int, sub: int)

  /** The empty label and the markers are pairwise distinct and are not alphabet codes. */
  predicate Reserved(m: Markers, codes: seq<int>)
  {
    && m.eps != m.ins && m.eps != m.del && m.eps != m.sub
    && m.ins != m.del && m.ins != m.sub && m.del != m.sub
    && m.eps !in codes && m.ins !in codes && m.del !in codes && m.sub !in codes
  }

  /** The table names the empty label, the three markers and every alphabet symbol. */
  predicate KnowsSymbols(t: map<string, int>, alphabet: seq<string>)
  {
    && EPS in t && INS in t && DEL in t && SUB in t
    && forall s :: s in alphabet ==> s in t
  }

  function MarkersOf(t: map<string, int>): Markers
    requires EPS in t && INS in t && DEL in t && SUB in t
  {
    Markers(t[EPS], t[INS], t[DEL], t[SUB])
  }

  /** The label code of each alphabet symbol, in alphabet order. */
  function CodesOf(t: map<string, int>, alphabet: seq<string>): (codes: seq<int>)
    requires forall s :: s in alphabet ==> s in t
    ensures |codes| == |alphabet|
    ensures forall i :: 0 <= i < |alphabet| ==> codes[i] == t[alphabet[i]]
  {
    seq(|alphabet|, i requires 0 <= i < |alphabet| => t[alphabet[i]])
  }

  // ---------------------------------------------------------------------------
  // The two factors as values

  /** The three self-loops the left factor adds for alphabet symbol s. */
  function LeftTriple(s: int, m: Markers, w: Weights): seq<Arc>
  {
    [Arc(s, s, 0, w.id), Arc(s, m.sub, 0, w.sub / 2.0), Arc(s, m.del, 0, w.del / 2.0)]
  }

  function LeftLoops(codes: seq<int>, m: Markers, w: Weights): seq<Arc>
  {
    if codes == [] then []
    else LeftLoops(codes[..|codes| - 1], m, w) + LeftTriple(codes[|codes| - 1], m, w)
  }

  /** The arcs of the left factor's only state, in the order they are added. */
  function LeftArcs(codes: seq<int>, m: Markers, w: Weights): seq<Arc>
  {
    [Arc(m.eps, m.ins, 0, w.ins / 2.0)] + LeftLoops(codes, m, w)
  }

  function LeftFactor(codes: seq<int>, m: Markers, w: Weights): Fst
  {
    Fst([State(Final(0.0), LeftArcs(codes, m, w))], Some(0))
  }

  /** The three self-loops the right factor adds for alphabet symbol s. */
  function RightTriple(s: int, m: Markers, w: Weights): seq<Arc>
  {
    [Arc(s, s, 0, w.id), Arc(m.sub, s, 0, w.sub / 2.0), Arc(m.ins, s, 0, w.ins / 2.0)]
  }

  function RightLoops(codes: seq<int>, m: Markers, w: Weights): seq<Arc>
  {
    if codes == [] then []
    else RightLoops(codes[..|codes| - 1], m, w) + RightTriple(codes[|codes| - 1], m, w)
  }

  /** The arcs of the right factor's only state, in the order they are added. */
  function RightArcs(codes: seq<int>, m: Markers, w: Weights): seq<Arc>
  {
    [Arc(m.del, m.eps, 0, w.del / 2.0)] + RightLoops(codes, m, w)
  }

  function RightFactor(codes: seq<int>, m: Markers, w: Weights): Fst
  {
    Fst([State(Final(0.0), RightArcs(codes, m, w))], Some(0))
  }

  /** Membership in the left factor, stated without reference to arc order. */
  predicate IsLeftArc(a: Arc, codes: seq<int>, m: Markers, w: Weights)
  {
    || a == Arc(m.eps, m.ins, 0, w.ins / 2.0)
    || (&& a.ilabel in codes && a.target == 0
        && (|| (a.olabel == a.ilabel && a.weight == w.id)
            || (a.olabel == m.sub && a.weight == w.sub / 2.0)
            || (a.olabel == m.del && a.weight == w.del / 2.0)))
  }

  /** Membership in the right factor, stated without reference to arc order. */
  predicate IsRightArc(a: Arc, codes: seq<int>, m: Markers, w: Weights)
  {
    || a == Arc(m.del, m.eps, 0, w.del / 2.0)
    || (&& a.olabel in codes && a.target == 0
        && (|| (a.ilabel == a.olabel && a.weight == w.id)
            || (a.ilabel == m.sub && a.weight == w.sub / 2.0)
            || (a.ilabel == m.ins && a.weight == w.ins / 2.0)))
  }

  // ---------------------------------------------------------------------------
  // Exact arc lists of the factors

  /** The left factor's per-symbol arcs: three for each symbol, in alphabet order. */
  lemma {:induction false} LeftLoopsAt(codes: seq<int>, m: Markers, w: Weights)
    ensures |LeftLoops(codes, m, w)| == 3 * |codes|
    ensures forall k :: 0 <= k < |codes| ==>
              LeftLoops(codes, m, w)[3 * k .. 3 * k + 3] == LeftTriple(codes[k], m, w)
  {
    if codes != [] {
      var init := codes[..|codes| - 1];
      LeftLoopsAt(init, m, w);
      forall k | 0 <= k < |codes|
        ensures LeftLoops(codes, m, w)[3 * k .. 3 * k + 3] == LeftTriple(codes[k], m, w)
      {
        if k < |init| {
          assert LeftLoops(init, m, w)[3 * k .. 3 * k + 3] == LeftTriple(init[k], m, w);
        }
      }
    }
  }

  /**
   * The left factor: the insertion arc first, then for the k-th alphabet symbol
   * s the arcs (s, s, id), (s, <sub>, sub/2), (s, <del>, del/2) at positions
   * 3k+1 .. 3k+3, all of them self-loops on state 0; 1 + 3|alphabet| arcs.
   */
  lemma LeftFactorShape(codes: seq<int>, m: Markers, w: Weights)
    ensures var f := LeftFactor(codes, m, w);
      && |f.states| == 1 && f.start == Some(0) && f.states[0].final == Final(0.0)
      && WellFormed(f)
      && |f.states[0].arcs| == 1 + 3 * |codes|
      && f.states[0].arcs[0] == Arc(m.eps, m.ins, 0, w.ins / 2.0)
      && forall k :: 0 <= k < |codes| ==>
           f.states[0].arcs[3 * k + 1 .. 3 * k + 4] == LeftTriple(codes[k], m, w)
  {
    LeftLoopsAt(codes, m, w);
    var arcs := LeftArcs(codes, m, w);
    forall k | 0 <= k < |codes|
      ensures arcs[3 * k + 1 .. 3 * k + 4] == LeftTriple(codes[k], m, w)
    {
      assert arcs[3 * k + 1 .. 3 * k + 4] == LeftLoops(codes, m, w)[3 * k .. 3 * k + 3];
    }
    LeftArcsExact(codes, m, w);
    forall k | 0 <= k < |arcs|
      ensures arcs[k].target == 0
    {
      assert arcs[k] in arcs;
    }
  }

  /** The right factor's per-symbol arcs: three for each symbol, in alphabet order. */
  lemma {:induction false} RightLoopsAt(codes: seq<int>, m: Markers, w: Weights)
    ensures |RightLoops(codes, m, w)| == 3 * |codes|
    ensures forall k :: 0 <= k < |codes| ==>
              RightLoops(codes, m, w)[3 * k .. 3 * k + 3] == RightTriple(codes[k], m, w)
  {
    if codes != [] {
      var init := codes[..|codes| - 1];
      RightLoopsAt(init, m, w);
      forall k | 0 <= k < |codes|
        ensures RightLoops(codes, m, w)[3 * k .. 3 * k + 3] == RightTriple(codes[k], m, w)
      {
        if k < |init| {
          assert RightLoops(init, m, w)[3 * k .. 3 * k + 3] == RightTriple(init[k], m, w);
        }
      }
    }
  }

  /**
   * The right factor: the deletion arc (<del>, eps, del/2) first, then for the
   * k-th alphabet symbol s the arcs (s, s, id), (<sub>, s, sub/2),
   * (<ins>, s, ins/2), all of them self-loops on state 0; 1 + 3|alphabet| arcs.
   */
  lemma RightFactorShape(codes: seq<int>, m: Markers, w: Weights)
    ensures var f := RightFactor(codes, m, w);
      && |f.states| == 1 && f.start == Some(0) && f.states[0].final == Final(0.0)
      && WellFormed(f)
      && |f.states[0].arcs| == 1 + 3 * |codes|
      && f.states[0].arcs[0] == Arc(m.del, m.eps, 0, w.del / 2.0)
      && forall k :: 0 <= k < |codes| ==>
           f.states[0].arcs[3 * k + 1 .. 3 * k + 4] == RightTriple(codes[k], m, w)
  {
    RightLoopsAt(codes, m, w);
    var arcs := RightArcs(codes, m, w);
    forall k | 0 <= k < |codes|
      ensures arcs[3 * k + 1 .. 3 * k + 4] == RightTriple(codes[k], m, w)
    {
      assert arcs[3 * k + 1 .. 3 * k + 4] == RightLoops(codes, m, w)[3 * k .. 3 * k + 3];
    }
    RightArcsExact(codes, m, w);
    forall k | 0 <= k < |arcs|
      ensures arcs[k].target == 0
    {
      assert arcs[k] in arcs;
    }
  }

  /** An arc is in the left factor exactly when it is one of the arcs IsLeftArc describes. */
  lemma {:induction false} LeftArcsExact(codes: seq<int>, m: Markers, w: Weights)
    ensures forall a :: a in LeftArcs(codes, m, w) <==> IsLeftArc(a, codes, m, w)
  {
    if codes == [] {
      assert LeftArcs(codes, m, w) == [Arc(m.eps, m.ins, 0, w.ins / 2.0)];
    } else {
      var init, s := codes[..|codes| - 1], codes[|codes| - 1];
      LeftArcsExact(init, m, w);
      assert codes == init + [s];
      assert LeftArcs(codes, m, w) == LeftArcs(init, m, w) + LeftTriple(s, m, w);
      forall a
        ensures a in LeftArcs(codes, m, w) <==> IsLeftArc(a, codes, m, w)
      {
        assert a.ilabel in codes <==> a.ilabel in init || a.ilabel == s;
      }
    }
  }

  /** An arc is in the right factor exactly when it is one of the arcs IsRightArc describes. */
  lemma {:induction false} RightArcsExact(codes: seq<int>, m: Markers, w: Weights)
    ensures forall a :: a in RightArcs(codes, m, w) <==> IsRightArc(a, codes, m, w)
  {
    if codes == [] {
      assert RightArcs(codes, m, w) == [Arc(m.del, m.eps, 0, w.del / 2.0)];
    } else {
      var init, s := codes[..|codes| - 1], codes[|codes| - 1];
      RightArcsExact(init, m, w);
      assert codes == init + [s];
      assert RightArcs(codes, m, w) == RightArcs(init, m, w) + RightTriple(s, m, w);
      forall a
        ensures a in RightArcs(codes, m, w) <==> IsRightArc(a, codes, m, w)
      {
        assert a.olabel in codes <==> a.olabel in init || a.olabel == s;
      }
    }
  }

  /**
   * Halving: an arc of the left factor and an arc of the right factor that
   * meet on the same marker add up to the full cost of that marker's operation.
   */
  lemma WeightSplit(codes: seq<int>, m: Markers, w: Weights)
    requires Reserved(m, codes)
    ensures forall l, r :: l in LeftArcs(codes, m, w) && r in RightArcs(codes, m, w) ==>
              && (l.olabel == m.sub && r.ilabel == m.sub ==> l.weight + r.weight == w.sub)
              && (l.olabel == m.ins && r.ilabel == m.ins ==> l.weight + r.weight == w.ins)
              && (l.olabel == m.del && r.ilabel == m.del ==> l.weight + r.weight == w.del)
  {
    LeftArcsExact(codes, m, w);
    RightArcsExact(codes, m, w);
  }

  /** Neither factor has the empty label on the tape the two factors share. */
  lemma SharedTapeEpsilonFree(codes: seq<int>, m: Markers, w: Weights)
    requires Reserved(m, codes)
    ensures forall l :: l in LeftArcs(codes, m, w) ==> l.olabel != m.eps
    ensures forall r :: r in RightArcs(codes, m, w) ==> r.ilabel != m.eps
  {
    LeftArcsExact(codes, m, w);
    RightArcsExact(codes, m, w);
  }

  // ---------------------------------------------------------------------------
  // Composition of the two factors

  /**
   * Composition of two single-state machines whose shared tape carries no
   * empty label (see SharedTapeEpsilonFree): every pair of arcs whose labels
   * meet on the shared tape yields one self-loop, with the weights added.
   */
  function ComposeLoops(left: seq<Arc>, right: seq<Arc>): set<Arc>
  {
    set l, r | l in left && r in right && l.olabel == r.ilabel ::
      Arc(l.ilabel, r.olabel, 0, l.weight + r.weight)
  }

  /** The edit operations a single step of the composed machine performs. */
  predicate IsEditArc(x: Arc, codes: seq<int>, m: Markers, w: Weights)
  {
    && x.target == 0
    && (|| (x.ilabel in codes && x.olabel == x.ilabel && x.weight == w.id + w.id)
        || (x.ilabel in codes && x.olabel in codes && x.weight == w.sub)
        || (x.ilabel in codes && x.olabel == m.eps && x.weight == w.del)
        || (x.ilabel == m.eps && x.olabel in codes && x.weight == w.ins))
  }

  /**
   * The factoring claim: composing the left factor with the right factor
   * gives exactly a -> b at the substitution cost for any two symbols,
   * a -> eps at the deletion cost, eps -> b at the insertion cost, and
   * a -> a through both identity arcs (so at twice the identity weight).
   */
  lemma FactoredComposition(codes: seq<int>, m: Markers, w: Weights)
    requires Reserved(m, codes)
    ensures forall x :: (x in ComposeLoops(LeftArcs(codes, m, w), RightArcs(codes, m, w))
                         <==> IsEditArc(x, codes, m, w))
  {
    ComposedArcsAreEdits(codes, m, w);
    EditsAreComposedArcs(codes, m, w);
  }

  lemma ComposedArcsAreEdits(codes: seq<int>, m: Markers, w: Weights)
    requires Reserved(m, codes)
    ensures forall x :: x in ComposeLoops(LeftArcs(codes, m, w), RightArcs(codes, m, w))
                        ==> IsEditArc(x, codes, m, w)
  {
    var left, right := LeftArcs(codes, m, w), RightArcs(codes, m, w);
    LeftArcsExact(codes, m, w);
    RightArcsExact(codes, m, w);
    forall x | x in ComposeLoops(left, right)
      ensures IsEditArc(x, codes, m, w)
    {
      var l, r :| l in left && r in right && l.olabel == r.ilabel
                  && x == Arc(l.ilabel, r.olabel, 0, l.weight + r.weight);
      assert IsLeftArc(l, codes, m, w) && IsRightArc(r, codes, m, w);
      if l.olabel == m.ins {
        // insertion: eps -> <ins> then <ins> -> b
        assert l == Arc(m.eps, m.ins, 0, w.ins / 2.0);
        assert r.olabel in codes && r.weight == w.ins / 2.0;
      } else if l.olabel == m.sub {
        // substitution: a -> <sub> then <sub> -> b
        assert l.ilabel in codes && l.weight == w.sub / 2.0;
        assert r.olabel in codes && r.weight == w.sub / 2.0;
      } else if l.olabel == m.del {
        // deletion: a -> <del> then <del> -> eps
        assert l.ilabel in codes && l.weight == w.del / 2.0;
        assert r == Arc(m.del, m.eps, 0, w.del / 2.0);
      } else {
        // identity on both sides
        assert l.olabel == l.ilabel && l.ilabel in codes && l.weight == w.id;
        assert r.olabel == r.ilabel && r.weight == w.id;
      }
    }
  }

  lemma EditsAreComposedArcs(codes: seq<int>, m: Markers, w: Weights)
    ensures forall x :: IsEditArc(x, codes, m, w)
                        ==> x in ComposeLoops(LeftArcs(codes, m, w), RightArcs(codes, m, w))
  {
    forall x | IsEditArc(x, codes, m, w)
      ensures x in ComposeLoops(LeftArcs(codes, m, w), RightArcs(codes, m, w))
    {
      var a, b := x.ilabel, x.olabel;
      if a in codes && b == a && x.weight == w.id + w.id {
        IdentityComposed(codes, m, w, a);
      } else if a in codes && b in codes && x.weight == w.sub {
        SubstitutionComposed(codes, m, w, a, b);
      } else if a in codes && b == m.eps && x.weight == w.del {
        DeletionComposed(codes, m, w, a);
      } else {
        InsertionComposed(codes, m, w, b);
      }
    }
  }

  lemma IdentityComposed(codes: seq<int>, m: Markers, w: Weights, a: int)
    requires a in codes
    ensures Arc(a, a, 0, w.id + w.id) in ComposeLoops(LeftArcs(codes, m, w), RightArcs(codes, m, w))
  {
    var l, r := Arc(a, a, 0, w.id), Arc(a, a, 0, w.id);
    FactorsHave(codes, m, w, l, r);
    Meet(LeftArcs(codes, m, w), RightArcs(codes, m, w), l, r);
    assert Arc(l.ilabel, r.olabel, 0, l.weight + r.weight) == Arc(a, a, 0, w.id + w.id);
  }

  lemma SubstitutionComposed(codes: seq<int>, m: Markers, w: Weights, a: int, b: int)
    requires a in codes && b in codes
    ensures Arc(a, b, 0, w.sub) in ComposeLoops(LeftArcs(codes, m, w), RightArcs(codes, m, w))
  {
    var l, r := Arc(a, m.sub, 0, w.sub / 2.0), Arc(m.sub, b, 0, w.sub / 2.0);
    FactorsHave(codes, m, w, l, r);
    Meet(LeftArcs(codes, m, w), RightArcs(codes, m, w), l, r);
    assert Arc(l.ilabel, r.olabel, 0, l.weight + r.weight) == Arc(a, b, 0, w.sub);
  }

  lemma DeletionComposed(codes: seq<int>, m: Markers, w: Weights, a: int)
    requires a in codes
    ensures Arc(a, m.eps, 0, w.del) in ComposeLoops(LeftArcs(codes, m, w), RightArcs(codes, m, w))
  {
    var l, r := Arc(a, m.del, 0, w.del / 2.0), Arc(m.del, m.eps, 0, w.del / 2.0);
    FactorsHave(codes, m, w, l, r);
    Meet(LeftArcs(codes, m, w), RightArcs(codes, m, w), l, r);
    assert Arc(l.ilabel, r.olabel, 0, l.weight + r.weight) == Arc(a, m.eps, 0, w.del);
  }

  lemma InsertionComposed(codes: seq<int>, m: Markers, w: Weights, b: int)
    requires b in codes
    ensures Arc(m.eps, b, 0, w.ins) in ComposeLoops(LeftArcs(codes, m, w), RightArcs(codes, m, w))
  {
    var l, r := Arc(m.eps, m.ins, 0, w.ins / 2.0), Arc(m.ins, b, 0, w.ins / 2.0);
    FactorsHave(codes, m, w, l, r);
    Meet(LeftArcs(codes, m, w), RightArcs(codes, m, w), l, r);
    assert Arc(l.ilabel, r.olabel, 0, l.weight + r.weight) == Arc(m.eps, b, 0, w.ins);
  }

  /** A pair of arcs the factors contain, by their descriptions. */
  lemma FactorsHave(codes: seq<int>, m: Markers, w: Weights, l: Arc, r: Arc)
    requires IsLeftArc(l, codes, m, w) && IsRightArc(r, codes, m, w)
    ensures l in LeftArcs(codes, m, w) && r in RightArcs(codes, m, w)
  {
    LeftArcsExact(codes, m, w);
    RightArcsExact(codes, m, w);
  }

  /** Two arcs that meet on the shared tape give an arc of the composition. */
  lemma Meet(left: seq<Arc>, right: seq<Arc>, l: Arc, r: Arc)
    requires l in left && r in right && l.olabel == r.ilabel
    ensures Arc(l.ilabel, r.olabel, 0, l.weight + r.weight) in ComposeLoops(left, right)
  {
  }

  // ---------------------------------------------------------------------------
  // The unfactored flower transducer, as a size and behaviour reference

  /** The inner loop of the flower: one arc from s1 to each alphabet symbol. */
  function FlowerRow(s1: int, codes: seq<int>): seq<Arc>
  {
    if codes == [] then []
    else
      var s2 := codes[|codes| - 1];
      FlowerRow(s1, codes[..|codes| - 1]) + [Arc(s1, s2, 0, if s1 == s2 then 0.0 else 1.0)]
  }

  function FlowerLoops(rows: seq<int>, codes: seq<int>, eps: int): seq<Arc>
  {
    if rows == [] then []
    else
      var s1 := rows[|rows| - 1];
      FlowerLoops(rows[..|rows| - 1], codes, eps)
        + [Arc(s1, eps, 0, 1.0), Arc(eps, s1, 0, 1.0)] + FlowerRow(s1, codes)
  }

  /** The arcs of the single-state flower transducer with unit costs. */
  function FlowerArcs(codes: seq<int>, eps: int): seq<Arc>
  {
    FlowerLoops(codes, codes, eps)
  }

  predicate IsFlowerArc(x: Arc, codes: seq<int>, eps: int)
  {
    && x.target == 0
    && (|| (x.ilabel in codes && x.olabel == eps && x.weight == 1.0)
        || (x.ilabel == eps && x.olabel in codes && x.weight == 1.0)
        || (x.ilabel in codes && x.olabel in codes
            && x.weight == if x.ilabel == x.olabel then 0.0 else 1.0))
  }

  lemma {:induction false} FlowerRowExact(s1: int, codes: seq<int>)
    ensures |FlowerRow(s1, codes)| == |codes|
    ensures forall x :: x in FlowerRow(s1, codes) <==>
              x.ilabel == s1 && x.olabel in codes && x.target == 0
              && x.weight == if s1 == x.olabel then 0.0 else 1.0
  {
    if codes != [] {
      var init := codes[..|codes| - 1];
      FlowerRowExact(s1, init);
      assert codes == init + [codes[|codes| - 1]];
    }
  }

  lemma {:induction false} FlowerLoopsLength(rows: seq<int>, codes: seq<int>, eps: int)
    ensures |FlowerLoops(rows, codes, eps)| == |rows| * (|codes| + 2)
  {
    if rows != [] {
      var init := rows[..|rows| - 1];
      FlowerLoopsLength(init, codes, eps);
      FlowerRowExact(rows[|rows| - 1], codes);
      assert |rows| * (|codes| + 2) == |init| * (|codes| + 2) + (|codes| + 2);
    }
  }

  lemma {:induction false} FlowerLoopsExact(rows: seq<int>, codes: seq<int>, eps: int)
    ensures forall x :: x in FlowerLoops(rows, codes, eps) <==>
              && x.target == 0
              && (|| (x.ilabel in rows && x.olabel == eps && x.weight == 1.0)
                  || (x.ilabel == eps && x.olabel in rows && x.weight == 1.0)
                  || (x.ilabel in rows && x.olabel in codes
                      && x.weight == if x.ilabel == x.olabel then 0.0 else 1.0))
  {
    if rows != [] {
      var init, s1 := rows[..|rows| - 1], rows[|rows| - 1];
      FlowerLoopsExact(init, codes, eps);
      FlowerRowExact(s1, codes);
      assert rows == init + [s1];
      forall x: Arc
        ensures x.ilabel in rows <==> x.ilabel in init || x.ilabel == s1
        ensures x.olabel in rows <==> x.olabel in init || x.olabel == s1
      {
      }
    }
  }

  /**
   * The flower transducer has |A|^2 + 2|A| arcs: an insertion and a deletion
   * arc per symbol and an arc for every ordered pair of symbols.
   */
  lemma FlowerArcsExact(codes: seq<int>, eps: int)
    ensures |FlowerArcs(codes, eps)| == |codes| * |codes| + 2 * |codes|
    ensures forall x :: x in FlowerArcs(codes, eps) <==> IsFlowerArc(x, codes, eps)
  {
    FlowerLoopsLength(codes, codes, eps);
    FlowerLoopsExact(codes, codes, eps);
  }

  /**
   * Size comparison: for 95 symbols the flower has 9215 arcs, while the two
   * factors together have 2(1 + 3|A|) arcs, growing linearly in |A|.
   */
  lemma FactorsAreLinear(codes: seq<int>, m: Markers, w: Weights)
    ensures |LeftArcs(codes, m, w)| + |RightArcs(codes, m, w)| == 2 * (1 + 3 * |codes|)
    ensures |codes| == 95 ==> |FlowerArcs(codes, m.eps)| == 9215
    ensures |codes| == 95 ==> |LeftArcs(codes, m, w)| + |RightArcs(codes, m, w)| == 572
    ensures |codes| >= 5 ==>
              |LeftArcs(codes, m, w)| + |RightArcs(codes, m, w)| < |FlowerArcs(codes, m.eps)|
  {
    LeftLoopsAt(codes, m, w);
    RightLoopsAt(codes, m, w);
    FlowerArcsExact(codes, m.eps);
    var n := |codes|;
    if n >= 5 {
      assert n * n >= 5 * n by {
        assert n * n == n * (n - 5) + 5 * n;
        assert n * (n - 5) >= 0;
      }
    }
  }

  /** The cheapest arc of a set for its pair of labels: what the tropical semiring keeps. */
  predicate CheapestArc(arcs: set<Arc>, x: Arc)
  {
    && x in arcs
    && forall y :: y in arcs && y.ilabel == x.ilabel && y.olabel == x.olabel && y.target == x.target
         ==> x.weight <= y.weight
  }

  /** The flower transducer with arbitrary costs per operation. */
  predicate IsWeightedFlowerArc(x: Arc, codes: seq<int>, eps: int, w: Weights)
  {
    && x.target == 0
    && (|| (x.ilabel in codes && x.olabel == eps && x.weight == w.del)
        || (x.ilabel == eps && x.olabel in codes && x.weight == w.ins)
        || (x.ilabel in codes && x.olabel in codes
            && x.weight == if x.ilabel == x.olabel then w.id else w.sub))
  }

  /**
   * Factoring is sound for any costs with a free identity and a non-negative
   * substitution cost: for every pair of labels, the cheapest arc of the
   * composed factors is exactly the arc of the weighted flower transducer.
   */
  lemma FactoringMatchesWeightedFlower(codes: seq<int>, m: Markers, w: Weights)
    requires Reserved(m, codes)
    requires w.id == 0.0 && w.sub >= 0.0
    ensures forall x :: (CheapestArc(ComposeLoops(LeftArcs(codes, m, w), RightArcs(codes, m, w)), x)
                         <==> IsWeightedFlowerArc(x, codes, m.eps, w))
  {
    var c := ComposeLoops(LeftArcs(codes, m, w), RightArcs(codes, m, w));
    FactoredComposition(codes, m, w);
    forall x | IsWeightedFlowerArc(x, codes, m.eps, w)
      ensures CheapestArc(c, x)
    {
      assert IsEditArc(x, codes, m, w);
      forall y | y in c && y.ilabel == x.ilabel && y.olabel == x.olabel && y.target == x.target
        ensures x.weight <= y.weight
      {
        assert IsEditArc(y, codes, m, w);
      }
    }
    forall x | CheapestArc(c, x)
      ensures IsWeightedFlowerArc(x, codes, m.eps, w)
    {
      assert IsEditArc(x, codes, m, w);
      if x.ilabel in codes && x.olabel == x.ilabel {
        var y := Arc(x.ilabel, x.olabel, 0, w.id + w.id);
        assert IsEditArc(y, codes, m, w);
        assert x.weight <= y.weight;
      }
    }
  }

  /**
   * With the default costs (0, 1, 1, 1), the composed factors keep, for every
   * pair of labels, exactly the arc of the unfactored flower transducer.
   */
  lemma FactoringMatchesFlower(codes: seq<int>, m: Markers)
    requires Reserved(m, codes)
    ensures forall x :: (CheapestArc(ComposeLoops(LeftArcs(codes, m, DefaultWeights),
                                                  RightArcs(codes, m, DefaultWeights)), x)
                         <==> x in FlowerArcs(codes, m.eps))
  {
    FactoringMatchesWeightedFlower(codes, m, DefaultWeights);
    FlowerArcsExact(codes, m.eps);
    forall x: Arc
      ensures IsWeightedFlowerArc(x, codes, m.eps, DefaultWeights) <==> IsFlowerArc(x, codes, m.eps)
    {
    }
  }

  // ---------------------------------------------------------------------------
  // The transducer object

  class EditTransducer {
    var alphabet: seq<string>
    var symbolTable: SymbolTable
    var leftFactor: MutableFst?
    var rightFactor: MutableFst?

    var subweight: real
    var insweight: real
    var delweight: real
    var idweight: real

    function OpWeights(): Weights
      reads this
    {
      Weights(idweight, subweight, insweight, delweight)
    }

    /** The symbol table can resolve every label the factors use. */
    predicate Ready()
      reads this, symbolTable
    {
      KnowsSymbols(symbolTable.symbols, alphabet)
    }

    function Codes(): seq<int>
      reads this, symbolTable
      requires Ready()
    {
      CodesOf(symbolTable.symbols, alphabet)
    }

    function Labels(): Markers
      reads this, symbolTable
      requires Ready()
    {
      MarkersOf(symbolTable.symbols)
    }

    /** Builds both factors with the default costs (0, 1, 1, 1). */
    constructor (alphabet: seq<string>, symbolTable: SymbolTable)
      requires KnowsSymbols(symbolTable.symbols, alphabet)
      ensures this.alphabet == alphabet && this.symbolTable == symbolTable
      ensures OpWeights() == DefaultWeights
      ensures leftFactor != null && rightFactor != null
      ensures fresh(leftFactor) && fresh(rightFactor) && leftFactor != rightFactor
      ensures leftFactor.Valid() && rightFactor.Valid()
      ensures leftFactor.Model() == LeftFactor(Codes(), Labels(), DefaultWeights)
      ensures rightFactor.Model() == RightFactor(Codes(), Labels(), DefaultWeights)
    {
      this.alphabet := alphabet;
      this.symbolTable := symbolTable;
      subweight, insweight, delweight, idweight := 1.0, 1.0, 1.0, 0.0;
      new;
      leftFactor := GenerateLeftFactor();
      rightFactor := GenerateRightFactor();
    }

    /** Stores the four given costs, then builds both factors with them. */
    constructor WithWeights(alphabet: seq<string>, symbolTable: SymbolTable,
                            idw: real, subw: real, insw: real, delw: real)
      requires KnowsSymbols(symbolTable.symbols, alphabet)
      ensures this.alphabet == alphabet && this.symbolTable == symbolTable
      ensures OpWeights() == Weights(idw, subw, insw, delw)
      ensures leftFactor != null && rightFactor != null
      ensures fresh(leftFactor) && fresh(rightFactor) && leftFactor != rightFactor
      ensures leftFactor.Valid() && rightFactor.Valid()
      ensures leftFactor.Model() == LeftFactor(Codes(), Labels(), OpWeights())
      ensures rightFactor.Model() == RightFactor(Codes(), Labels(), OpWeights())
    {
      this.alphabet := alphabet;
      this.symbolTable := symbolTable;
      idweight := idw;
      subweight := subw;
      insweight := insw;
      delweight := delw;
      new;
      leftFactor := GenerateLeftFactor();
      rightFactor := GenerateRightFactor();
    }

    /** Builds the left factor: one start state, final with weight 0, and its self-loops. */
    method GenerateLeftFactor() returns (f: MutableFst)
      requires Ready()
      ensures fresh(f) && f.Valid()
      ensures f.Model() == LeftFactor(Codes(), Labels(), OpWeights())
    {
      var t := symbolTable.symbols;
      ghost var codes, m, w := Codes(), Labels(), OpWeights();
      f := new MutableFst();
      var st := f.NewStartState();
      f.SetFinalWeight(st, 0.0);
      f.AddArc(st, Arc(t[EPS], t[INS], st, insweight / 2.0));
      assert codes[..0] == [];
      for i := 0 to |alphabet|
        invariant f.Valid() && f.start == Some(0) && |f.states| == 1
        invariant f.states[0] == State(Final(0.0), LeftArcs(codes[..i], m, w))
      {
        ghost var before := f.states[0].arcs;
        var s := t[alphabet[i]];
        f.AddArc(st, Arc(s, s, st, idweight));
        f.AddArc(st, Arc(s, t[SUB], st, subweight / 2.0));
        f.AddArc(st, Arc(s, t[DEL], st, delweight / 2.0));
        assert f.states[0].arcs == before + LeftTriple(codes[i], m, w);
        assert codes[..i + 1][..i] == codes[..i];
      }
      assert codes[..|alphabet|] == codes;
      assert f.states == [State(Final(0.0), LeftArcs(codes, m, w))];
    }

    /** Builds the right factor: one start state, final with weight 0, and its self-loops. */
    method GenerateRightFactor() returns (f: MutableFst)
      requires Ready()
      ensures fresh(f) && f.Valid()
      ensures f.Model() == RightFactor(Codes(), Labels(), OpWeights())
    {
      var t := symbolTable.symbols;
      ghost var codes, m, w := Codes(), Labels(), OpWeights();
      f := new MutableFst();
      var st := f.NewStartState();
      f.SetFinalWeight(st, 0.0);
      f.AddArc(st, Arc(t[DEL], t[EPS], st, delweight / 2.0));
      assert codes[..0] == [];
      for i := 0 to |alphabet|
        invariant f.Valid() && f.start == Some(0) && |f.states| == 1
        invariant f.states[0] == State(Final(0.0), RightArcs(codes[..i], m, w))
      {
        ghost var before := f.states[0].arcs;
        var s := t[alphabet[i]];
        f.AddArc(st, Arc(s, s, st, idweight));
        f.AddArc(st, Arc(t[SUB], s, st, subweight / 2.0));
        f.AddArc(st, Arc(t[INS], s, st, insweight / 2.0));
        assert f.states[0].arcs == before + RightTriple(codes[i], m, w);
        assert codes[..i + 1][..i] == codes[..i];
      }
      assert codes[..|alphabet|] == codes;
      assert f.states == [State(Final(0.0), RightArcs(codes, m, w))];
    }

    /** Replaces the alphabet only; the factors already built are left as they are. */
    method SetAlphabet(alphabet: seq<string>)
      modifies this`alphabet
      ensures this.alphabet == alphabet
      ensures symbolTable == old(symbolTable) && OpWeights() == old(OpWeights())
      ensures leftFactor == old(leftFactor) && rightFactor == old(rightFactor)
      ensures leftFactor != null ==> leftFactor.Model() == old(leftFactor.Model())
      ensures rightFactor != null ==> rightFactor.Model() == old(rightFactor.Model())
    {
      this.alphabet := alphabet;
    }
  }
}
