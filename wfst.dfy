/**
 * The weighted finite-state transducer type the edit-distance code builds on,
 * fixed to the tropical (min, +) semiring. Only the parts of the automaton
 * library that the edit-distance code calls directly are modelled: states with
 * final weights, arcs, a start state, and a symbol table from symbol names to
 * integer label codes. Composition, sorting, shortest paths, reversal and
 * epsilon removal are not modelled here.
 */
module Wfst {

  datatype Option<T> = None | Some(value: T)

  /** The name of the empty label in every symbol table. */
  const EPS: string := "<eps>"

  /** A transition: input label, output label, id of the target state, weight. */
  datatype Arc = Arc(ilabel: int, olabel: int, target: nat, weight: real)

  /** The final weight of a state; NotFinal is the semiring's zero (+infinity). */
  datatype FinalWeight = NotFinal | Final(weight: real)

  datatype State = State(final: FinalWeight, arcs: seq<Arc>)

  /** An automaton as a value: its states, indexed by id, and its start state. */
  datatype Fst = Fst(states: seq<State>, start: Option<nat>)

  /** Every arc and the start state refer to an existing state. */
  predicate WellFormed(f: Fst)
  {
    && (f.start.Some? ==> f.start.value < |f.states|)
    && forall i, k :: 0 <= i < |f.states| && 0 <= k < |f.states[i].arcs| ==>
         f.states[i].arcs[k].target < |f.states|
  }

  /**
   * A mutable automaton. States get consecutive ids in the order they are
   * created, so a state created n-th has id n.
   */
  class MutableFst {
    var states: seq<State>
    var start: Option<nat>

    function Model(): Fst
      reads this
    {
      Fst(states, start)
    }

    predicate Valid()
      reads this
    {
      WellFormed(Model())
    }

    /** An empty automaton: no states, no start state. */
    constructor ()
      ensures Valid() && Model() == Fst([], None)
    {
      states := [];
      start := None;
    }

    /** An automaton holding a copy of the given value. */
    constructor Copy(f: Fst)
      requires WellFormed(f)
      ensures Valid() && Model() == f
    {
      states := f.states;
      start := f.start;
    }

    /** Adds a non-final state without arcs and makes it the start state. */
    method NewStartState() returns (id: nat)
      requires Valid()
      modifies this
      ensures Valid()
      ensures id == |old(states)|
      ensures states == old(states) + [State(NotFinal, [])] && start == Some(id)
    {
      id := |states|;
      states := states + [State(NotFinal, [])];
      start := Some(id);
    }

    /** Adds a state without arcs and with the given final weight. */
    method AddState(final: FinalWeight) returns (id: nat)
      requires Valid()
      modifies this
      ensures Valid()
      ensures id == |old(states)|
      ensures states == old(states) + [State(final, [])] && start == old(start)
    {
      id := |states|;
      states := states + [State(final, [])];
    }

    method SetFinalWeight(s: nat, w: real)
      requires Valid() && s < |states|
      modifies this
      ensures Valid()
      ensures states == old(states)[s := State(Final(w), old(states)[s].arcs)]
      ensures start == old(start)
    {
      states := states[s := State(Final(w), states[s].arcs)];
    }

    /** Appends an arc to the arcs leaving state s. */
    method AddArc(s: nat, a: Arc)
      requires Valid() && s < |states| && a.target < |states|
      modifies this
      ensures Valid()
      ensures states == old(states)[s := State(old(states)[s].final, old(states)[s].arcs + [a])]
      ensures start == old(start)
    {
      states := states[s := State(states[s].final, states[s].arcs + [a])];
    }

    /** Overwrites the weight of the k-th arc leaving state s. */
    method SetArcWeight(s: nat, k: nat, w: real)
      requires Valid() && s < |states| && k < |states[s].arcs|
      modifies this
      ensures Valid()
      ensures states == old(states)[s := State(old(states)[s].final,
                                               old(states)[s].arcs[k := old(states)[s].arcs[k].(weight := w)])]
      ensures start == old(start)
    {
      var arcs := states[s].arcs;
      states := states[s := State(states[s].final, arcs[k := arcs[k].(weight := w)])];
    }

    method SetStart(s: nat)
      requires Valid() && s < |states|
      modifies this
      ensures Valid()
      ensures states == old(states) && start == Some(s)
    {
      start := Some(s);
    }
  }

  /**
   * A symbol table from symbol names to integer codes. Putting a symbol that
   * is already present replaces its code; other symbols are kept.
   */
  class SymbolTable {
    var symbols: map<string, int>

    constructor ()
      ensures symbols == map[]
    {
      symbols := map[];
    }

    method Put(symbol: string, code: int)
      modifies this
      ensures symbols == old(symbols)[symbol := code]
    {
      symbols := symbols[symbol := code];
    }
  }
}
