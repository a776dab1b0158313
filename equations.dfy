/** The five global predicates of Lazy Code Motion for one term, as the per-node
    equations that the memoised recursive functions `DSafe`, `Earliest`, `Delay`, `Latest`
    and `Isolated` encode. Each `...At` function is one evaluation of the function's body
    with the recursive calls and the memo lookups read from maps; each `...Rec` function
    is the recursion itself, under a rank that decreases along every call the body can
    make, which holds exactly when the recursion, started at any node, terminates
    whatever order the successor and predecessor sets iterate in (the sweeps start it only
    at reachable nodes, so they may terminate without such a rank); each `...Agrees` lemma says that every solution of
    the equations gives the recursion's value wherever such a rank exists. */
module Equations {
  import opened IR
  import opened Local
  import opened Fixpoint

  function Rank(rank: map<Node, nat>, n: Node): nat {
    if n in rank then rank[n] else 0
  }

  // ---------------------------------------------------------------- DSafe

  /** Body of `DSafe`: false at the exit node, true where the term is used, false where
      it is killed, otherwise the conjunction over the successors. */
  function DSafeAt(g: CFG, t: Term, D: map<Node, bool>, n: Node): bool
    requires g.Valid() && g.IsNode(n)
  {
    if n == g.Exit() then false
    else if Used(g, n, t) then true
    else if Transp(g, n, t) then forall m | m in g.Succs(n) :: Get(D, m)
    else false
  }

  function DSafeRule(g: CFG, t: Term): Rule {
    (D: map<Node, bool>, n: Node) requires g.Valid() && g.IsNode(n) => DSafeAt(g, t, D, n)
  }

  lemma DSafeMonotone(g: CFG, t: Term)
    requires g.Valid()
    ensures Monotone(g.Nodes(), DSafeRule(g, t))
  {
    forall A, B, n | n in g.Nodes() && Below(g.Nodes(), A, B)
      ensures DSafeRule(g, t)(A, n) ==> DSafeRule(g, t)(B, n)
    {
    }
  }

  /** `D` is what `getDSafes` leaves in `mem_dsafe`: the greatest solution. */
  ghost predicate IsDSafe(g: CFG, t: Term, D: map<Node, bool>)
    requires g.Valid()
  {
    IsGreatest(g.Nodes(), DSafeRule(g, t), D)
  }

  /** The nodes through which the `DSafe` recursion descends are ranked. */
  ghost predicate DSafeRanked(g: CFG, t: Term, rank: map<Node, nat>)
    requires g.Valid()
  {
    forall n, m | && g.IsNode(n) && n != g.Exit() && !Used(g, n, t) && Transp(g, n, t)
                  && m in g.Succs(n)
      :: Rank(rank, m) < Rank(rank, n)
  }

  /** `DSafe` (PRE.cpp:190-216) as written, without its memo. */
  function DSafeRec(g: CFG, t: Term, rank: map<Node, nat>, n: Node): bool
    requires g.Valid() && g.IsNode(n) && DSafeRanked(g, t, rank)
    decreases Rank(rank, n)
  {
    if n == g.Exit() then false
    else if Used(g, n, t) then true
    else if Transp(g, n, t) then forall m | m in g.Succs(n) :: DSafeRec(g, t, rank, m)
    else false
  }

  lemma {:induction false} DSafeAgrees(g: CFG, t: Term, rank: map<Node, nat>, D: map<Node, bool>, n: Node)
    requires g.Valid() && g.IsNode(n) && DSafeRanked(g, t, rank)
    requires IsFixpoint(g.Nodes(), DSafeRule(g, t), D)
    ensures D[n] == DSafeRec(g, t, rank, n)
    decreases Rank(rank, n)
  {
    assert D[n] == DSafeAt(g, t, D, n);
    if n != g.Exit() && !Used(g, n, t) && Transp(g, n, t) {
      forall m | m in g.Succs(n)
        ensures Get(D, m) == DSafeRec(g, t, rank, m)
      {
        DSafeAgrees(g, t, rank, D, m);
      }
    }
  }

  // ---------------------------------------------------------------- Earliest

  /** Body of `Earliest`: true at the entry node, otherwise true iff some predecessor
      kills the term, or is not down-safe and is itself earliest. */
  function EarliestAt(g: CFG, t: Term, D: map<Node, bool>, E: map<Node, bool>, n: Node): bool
    requires g.Valid() && g.IsNode(n)
  {
    if n == g.Entry() then true
    else exists m | m in g.Preds(n) :: !Transp(g, m, t) || (!Get(D, m) && Get(E, m))
  }

  function EarliestRule(g: CFG, t: Term, D: map<Node, bool>): Rule {
    (E: map<Node, bool>, n: Node) requires g.Valid() && g.IsNode(n) => EarliestAt(g, t, D, E, n)
  }

  lemma EarliestMonotone(g: CFG, t: Term, D: map<Node, bool>)
    requires g.Valid()
    ensures Monotone(g.Nodes(), EarliestRule(g, t, D))
  {
    forall A, B, n | n in g.Nodes() && Below(g.Nodes(), A, B)
      ensures EarliestRule(g, t, D)(A, n) ==> EarliestRule(g, t, D)(B, n)
    {
      if n != g.Entry() && EarliestAt(g, t, D, A, n) {
        var m :| m in g.Preds(n) && (!Transp(g, m, t) || (!Get(D, m) && Get(A, m)));
        assert !Transp(g, m, t) || (!Get(D, m) && Get(B, m));
      }
    }
  }

  /** `E` is what `getEarliests` leaves in `mem_earliest` given `mem_dsafe == D`: the
      least solution. */
  ghost predicate IsEarliest(g: CFG, t: Term, D: map<Node, bool>, E: map<Node, bool>)
    requires g.Valid()
  {
    IsLeast(g.Nodes(), EarliestRule(g, t, D), E)
  }

  ghost predicate EarliestRanked(g: CFG, t: Term, D: map<Node, bool>, rank: map<Node, nat>)
    requires g.Valid()
  {
    forall n, m | && g.IsNode(n) && n != g.Entry() && m in g.Preds(n)
                  && Transp(g, m, t) && !Get(D, m)
      :: Rank(rank, m) < Rank(rank, n)
  }

  /** `Earliest` (PRE.cpp:218-244) as written, without its memo. */
  function EarliestRec(g: CFG, t: Term, D: map<Node, bool>, rank: map<Node, nat>, n: Node): bool
    requires g.Valid() && g.IsNode(n) && EarliestRanked(g, t, D, rank)
    decreases Rank(rank, n)
  {
    if n == g.Entry() then true
    else exists m | m in g.Preds(n) :: !Transp(g, m, t) || (!Get(D, m) && EarliestRec(g, t, D, rank, m))
  }

  lemma {:induction false} EarliestAgrees(g: CFG, t: Term, D: map<Node, bool>, rank: map<Node, nat>,
                                          E: map<Node, bool>, n: Node)
    requires g.Valid() && g.IsNode(n) && EarliestRanked(g, t, D, rank)
    requires IsFixpoint(g.Nodes(), EarliestRule(g, t, D), E)
    ensures E[n] == EarliestRec(g, t, D, rank, n)
    decreases Rank(rank, n)
  {
    assert E[n] == EarliestAt(g, t, D, E, n);
    if n != g.Entry() {
      forall m | m in g.Preds(n) && Transp(g, m, t) && !Get(D, m)
        ensures Get(E, m) == EarliestRec(g, t, D, rank, m)
      {
        EarliestAgrees(g, t, D, rank, E, m);
      }
    }
  }

  // ---------------------------------------------------------------- Delay

  /** Body of `Delay`: true where down-safe and earliest; otherwise false at the entry
      node and elsewhere true iff every predecessor does not use the term and is
      delayed. */
  function DelayAt(g: CFG, t: Term, D: map<Node, bool>, E: map<Node, bool>, DL: map<Node, bool>, n: Node): bool
    requires g.Valid() && g.IsNode(n)
  {
    if Get(D, n) && Get(E, n) then true
    else if n == g.Entry() then false
    else forall m | m in g.Preds(n) :: !Used(g, m, t) && Get(DL, m)
  }

  function DelayRule(g: CFG, t: Term, D: map<Node, bool>, E: map<Node, bool>): Rule {
    (DL: map<Node, bool>, n: Node) requires g.Valid() && g.IsNode(n) => DelayAt(g, t, D, E, DL, n)
  }

  lemma DelayMonotone(g: CFG, t: Term, D: map<Node, bool>, E: map<Node, bool>)
    requires g.Valid()
    ensures Monotone(g.Nodes(), DelayRule(g, t, D, E))
  {
    forall A, B, n | n in g.Nodes() && Below(g.Nodes(), A, B)
      ensures DelayRule(g, t, D, E)(A, n) ==> DelayRule(g, t, D, E)(B, n)
    {
    }
  }

  ghost predicate IsDelay(g: CFG, t: Term, D: map<Node, bool>, E: map<Node, bool>, DL: map<Node, bool>)
    requires g.Valid()
  {
    IsGreatest(g.Nodes(), DelayRule(g, t, D, E), DL)
  }

  ghost predicate DelayRanked(g: CFG, t: Term, D: map<Node, bool>, E: map<Node, bool>, rank: map<Node, nat>)
    requires g.Valid()
  {
    forall n, m | && g.IsNode(n) && !(Get(D, n) && Get(E, n)) && n != g.Entry()
                  && m in g.Preds(n) && !Used(g, m, t)
      :: Rank(rank, m) < Rank(rank, n)
  }

  /** `Delay` (PRE.cpp:246-273) as written, without its memo. */
  function DelayRec(g: CFG, t: Term, D: map<Node, bool>, E: map<Node, bool>, rank: map<Node, nat>, n: Node): bool
    requires g.Valid() && g.IsNode(n) && DelayRanked(g, t, D, E, rank)
    decreases Rank(rank, n)
  {
    if Get(D, n) && Get(E, n) then true
    else if n == g.Entry() then false
    else forall m | m in g.Preds(n) :: !Used(g, m, t) && DelayRec(g, t, D, E, rank, m)
  }

  lemma {:induction false} DelayAgrees(g: CFG, t: Term, D: map<Node, bool>, E: map<Node, bool>,
                                       rank: map<Node, nat>, DL: map<Node, bool>, n: Node)
    requires g.Valid() && g.IsNode(n) && DelayRanked(g, t, D, E, rank)
    requires IsFixpoint(g.Nodes(), DelayRule(g, t, D, E), DL)
    ensures DL[n] == DelayRec(g, t, D, E, rank, n)
    decreases Rank(rank, n)
  {
    assert DL[n] == DelayAt(g, t, D, E, DL, n);
    if !(Get(D, n) && Get(E, n)) && n != g.Entry() {
      forall m | m in g.Preds(n) && !Used(g, m, t)
        ensures Get(DL, m) == DelayRec(g, t, D, E, rank, m)
      {
        DelayAgrees(g, t, D, E, rank, DL, m);
      }
    }
  }

  // ---------------------------------------------------------------- Latest

  /** Body of `Latest` (PRE.cpp:275-298), which does not recurse on itself: false where
      not delayed, true where delayed and used, otherwise true iff some successor is not
      delayed. */
  function LatestAt(g: CFG, t: Term, DL: map<Node, bool>, n: Node): bool
    requires g.Valid() && g.IsNode(n)
  {
    if !Get(DL, n) then false
    else if Used(g, n, t) then true
    else !(forall m | m in g.Succs(n) :: Get(DL, m))
  }

  /** `L` is what `getLatests` leaves in `mem_latest` given `mem_delay == DL`. */
  ghost predicate IsLatest(g: CFG, t: Term, DL: map<Node, bool>, L: map<Node, bool>)
    requires g.Valid()
  {
    L.Keys == g.Nodes() && forall n | n in g.Nodes() :: L[n] == LatestAt(g, t, DL, n)
  }

  // ---------------------------------------------------------------- Isolated

  /** Body of `Isolated`: true iff every successor is latest, or does not use the term
      and is itself isolated. */
  function IsolatedAt(g: CFG, t: Term, L: map<Node, bool>, I: map<Node, bool>, n: Node): bool
    requires g.Valid() && g.IsNode(n)
  {
    forall m | m in g.Succs(n) :: Get(L, m) || (!Used(g, m, t) && Get(I, m))
  }

  function IsolatedRule(g: CFG, t: Term, L: map<Node, bool>): Rule {
    (I: map<Node, bool>, n: Node) requires g.Valid() && g.IsNode(n) => IsolatedAt(g, t, L, I, n)
  }

  lemma IsolatedMonotone(g: CFG, t: Term, L: map<Node, bool>)
    requires g.Valid()
    ensures Monotone(g.Nodes(), IsolatedRule(g, t, L))
  {
    forall A, B, n | n in g.Nodes() && Below(g.Nodes(), A, B)
      ensures IsolatedRule(g, t, L)(A, n) ==> IsolatedRule(g, t, L)(B, n)
    {
    }
  }

  ghost predicate IsIsolated(g: CFG, t: Term, L: map<Node, bool>, I: map<Node, bool>)
    requires g.Valid()
  {
    IsGreatest(g.Nodes(), IsolatedRule(g, t, L), I)
  }

  ghost predicate IsolatedRanked(g: CFG, t: Term, L: map<Node, bool>, rank: map<Node, nat>)
    requires g.Valid()
  {
    forall n, m | g.IsNode(n) && m in g.Succs(n) && !Get(L, m) && !Used(g, m, t)
      :: Rank(rank, m) < Rank(rank, n)
  }

  /** `Isolated` (PRE.cpp:300-318) as written, without its memo. */
  function IsolatedRec(g: CFG, t: Term, L: map<Node, bool>, rank: map<Node, nat>, n: Node): bool
    requires g.Valid() && g.IsNode(n) && IsolatedRanked(g, t, L, rank)
    decreases Rank(rank, n)
  {
    forall m | m in g.Succs(n) :: Get(L, m) || (!Used(g, m, t) && IsolatedRec(g, t, L, rank, m))
  }

  lemma {:induction false} IsolatedAgrees(g: CFG, t: Term, L: map<Node, bool>, rank: map<Node, nat>,
                                          I: map<Node, bool>, n: Node)
    requires g.Valid() && g.IsNode(n) && IsolatedRanked(g, t, L, rank)
    requires IsFixpoint(g.Nodes(), IsolatedRule(g, t, L), I)
    ensures I[n] == IsolatedRec(g, t, L, rank, n)
    decreases Rank(rank, n)
  {
    assert I[n] == IsolatedAt(g, t, L, I, n);
    forall m | m in g.Succs(n) && !Get(L, m) && !Used(g, m, t)
      ensures Get(I, m) == IsolatedRec(g, t, L, rank, m)
    {
      IsolatedAgrees(g, t, L, rank, I, m);
    }
  }

  // ---------------------------------------------------------------- Consequences

  /** The DSafe equations read node by node: false at the exit node, true at any other
      node that uses the term, false at any other node that kills it, otherwise the
      conjunction over the successors. */
  lemma DSafeCases(g: CFG, t: Term, D: map<Node, bool>, n: Node)
    requires g.Valid() && g.IsNode(n) && IsDSafe(g, t, D)
    ensures n == g.Exit() ==> !D[n]
    ensures n != g.Exit() && Used(g, n, t) ==> D[n]
    ensures n != g.Exit() && !Used(g, n, t) && !Transp(g, n, t) ==> !D[n]
    ensures n != g.Exit() && !Used(g, n, t) && Transp(g, n, t) ==>
              (D[n] <==> forall m | m in g.Succs(n) :: D[m])
  {
    assert D[n] == DSafeAt(g, t, D, n);
  }

  /** The Earliest equations: true at the entry node, elsewhere true iff some predecessor
      kills the term or is not down-safe and earliest. */
  lemma EarliestCases(g: CFG, t: Term, D: map<Node, bool>, E: map<Node, bool>, n: Node)
    requires g.Valid() && g.IsNode(n) && D.Keys == g.Nodes() && IsEarliest(g, t, D, E)
    ensures n == g.Entry() ==> E[n]
    ensures n != g.Entry() ==>
              (E[n] <==> exists m | m in g.Preds(n) :: !Transp(g, m, t) || (!D[m] && E[m]))
  {
    assert E[n] == EarliestAt(g, t, D, E, n);
  }

  /** The Delay equations: down-safe and earliest implies delayed; otherwise false at the
      entry node, and elsewhere true iff every predecessor does not use the term and is
      delayed. */
  lemma DelayCases(g: CFG, t: Term, D: map<Node, bool>, E: map<Node, bool>, DL: map<Node, bool>, n: Node)
    requires g.Valid() && g.IsNode(n) && D.Keys == g.Nodes() && E.Keys == g.Nodes()
    requires IsDelay(g, t, D, E, DL)
    ensures D[n] && E[n] ==> DL[n]
    ensures !(D[n] && E[n]) && n == g.Entry() ==> !DL[n]
    ensures !(D[n] && E[n]) && n != g.Entry() ==>
              (DL[n] <==> forall m | m in g.Preds(n) :: !Used(g, m, t) && DL[m])
  {
    assert DL[n] == DelayAt(g, t, D, E, DL, n);
  }

  /** Latest implies Delay, Delay and Used imply Latest, and otherwise Latest holds iff
      some successor is not delayed. */
  lemma LatestCases(g: CFG, t: Term, DL: map<Node, bool>, L: map<Node, bool>, n: Node)
    requires g.Valid() && g.IsNode(n) && DL.Keys == g.Nodes() && IsLatest(g, t, DL, L)
    ensures L[n] ==> DL[n]
    ensures DL[n] && Used(g, n, t) ==> L[n]
    ensures DL[n] && !Used(g, n, t) ==> (L[n] <==> exists m | m in g.Succs(n) :: !DL[m])
  {
  }

  /** Isolated holds iff every successor is latest or does not use the term and is
      isolated; in particular a node without successors is isolated. */
  lemma IsolatedCases(g: CFG, t: Term, L: map<Node, bool>, I: map<Node, bool>, n: Node)
    requires g.Valid() && g.IsNode(n) && L.Keys == g.Nodes() && IsIsolated(g, t, L, I)
    ensures I[n] <==> forall m | m in g.Succs(n) :: L[m] || (!Used(g, m, t) && I[m])
    ensures g.Succs(n) == {} ==> I[n]
  {
    assert I[n] == IsolatedAt(g, t, L, I, n);
  }

  /** Where the recursion of `DSafe` terminates whatever order the sets iterate in, the
      equations have a single solution: the memo maps filled by the recursion and by the
      sweeps coincide. */
  lemma {:induction false} DSafeUniqueWhenRanked(g: CFG, t: Term, rank: map<Node, nat>,
                                                 D1: map<Node, bool>, D2: map<Node, bool>)
    requires g.Valid() && DSafeRanked(g, t, rank)
    requires IsFixpoint(g.Nodes(), DSafeRule(g, t), D1)
    requires IsFixpoint(g.Nodes(), DSafeRule(g, t), D2)
    ensures D1 == D2
  {
    forall n | n in g.Nodes() ensures D1[n] == D2[n] {
      DSafeAgrees(g, t, rank, D1, n);
      DSafeAgrees(g, t, rank, D2, n);
    }
    SameValues(g.Nodes(), D1, D2);
  }

  lemma {:induction false} EarliestUniqueWhenRanked(g: CFG, t: Term, D: map<Node, bool>, rank: map<Node, nat>,
                                                    E1: map<Node, bool>, E2: map<Node, bool>)
    requires g.Valid() && EarliestRanked(g, t, D, rank)
    requires IsFixpoint(g.Nodes(), EarliestRule(g, t, D), E1)
    requires IsFixpoint(g.Nodes(), EarliestRule(g, t, D), E2)
    ensures E1 == E2
  {
    forall n | n in g.Nodes() ensures E1[n] == E2[n] {
      EarliestAgrees(g, t, D, rank, E1, n);
      EarliestAgrees(g, t, D, rank, E2, n);
    }
    SameValues(g.Nodes(), E1, E2);
  }

  lemma {:induction false} DelayUniqueWhenRanked(g: CFG, t: Term, D: map<Node, bool>, E: map<Node, bool>,
                                                 rank: map<Node, nat>, DL1: map<Node, bool>, DL2: map<Node, bool>)
    requires g.Valid() && DelayRanked(g, t, D, E, rank)
    requires IsFixpoint(g.Nodes(), DelayRule(g, t, D, E), DL1)
    requires IsFixpoint(g.Nodes(), DelayRule(g, t, D, E), DL2)
    ensures DL1 == DL2
  {
    forall n | n in g.Nodes() ensures DL1[n] == DL2[n] {
      DelayAgrees(g, t, D, E, rank, DL1, n);
      DelayAgrees(g, t, D, E, rank, DL2, n);
    }
    SameValues(g.Nodes(), DL1, DL2);
  }

  lemma {:induction false} IsolatedUniqueWhenRanked(g: CFG, t: Term, L: map<Node, bool>, rank: map<Node, nat>,
                                                    I1: map<Node, bool>, I2: map<Node, bool>)
    requires g.Valid() && IsolatedRanked(g, t, L, rank)
    requires IsFixpoint(g.Nodes(), IsolatedRule(g, t, L), I1)
    requires IsFixpoint(g.Nodes(), IsolatedRule(g, t, L), I2)
    ensures I1 == I2
  {
    forall n | n in g.Nodes() ensures I1[n] == I2[n] {
      IsolatedAgrees(g, t, L, rank, I1, n);
      IsolatedAgrees(g, t, L, rank, I2, n);
    }
    SameValues(g.Nodes(), I1, I2);
  }

  // ---------------------------------------------------------------- Candidate sets

  /** OCP: the nodes that are latest but not isolated. */
  function OCPOf(g: CFG, L: map<Node, bool>, I: map<Node, bool>): set<Node>
    requires g.Valid()
  {
    set n | n in g.Nodes() && Get(L, n) && !Get(I, n)
  }

  /** RO: the nodes that use the term and are not both latest and isolated. */
  function ROOf(g: CFG, t: Term, L: map<Node, bool>, I: map<Node, bool>): set<Node>
    requires g.Valid()
  {
    set n | n in g.Nodes() && Used(g, n, t) && !(Get(L, n) && Get(I, n))
  }

  /** Every redundant occurrence uses the term; an occurrence is optimal computation point
      and redundant at once exactly when it is a non-isolated latest use. */
  lemma CandidateSets(g: CFG, t: Term, L: map<Node, bool>, I: map<Node, bool>)
    requires g.Valid()
    ensures forall n | n in ROOf(g, t, L, I) :: g.IsNode(n) && Used(g, n, t)
    ensures forall n | n in OCPOf(g, L, I) :: g.IsNode(n) && Get(L, n) && !Get(I, n)
    ensures forall n | g.IsNode(n) :: n in OCPOf(g, L, I) && n in ROOf(g, t, L, I) <==> Used(g, n, t) && Get(L, n) && !Get(I, n)
  {
  }

  // ---------------------------------------------------------------- the whole analysis

  /** The five memo maps after `getDSafes` .. `getIsolateds` have run in this order. */
  ghost predicate Analysis(g: CFG, t: Term, D: map<Node, bool>, E: map<Node, bool>, DL: map<Node, bool>,
                           L: map<Node, bool>, I: map<Node, bool>)
    requires g.Valid()
  {
    && IsDSafe(g, t, D) && IsEarliest(g, t, D, E) && IsDelay(g, t, D, E, DL)
    && IsLatest(g, t, DL, L) && IsIsolated(g, t, L, I)
  }

  /** The analysis of a term is determined by the function alone; in particular it does
      not depend on the order in which the sweeps visit the blocks. */
  lemma AnalysisUnique(g: CFG, t: Term,
                       D1: map<Node, bool>, E1: map<Node, bool>, DL1: map<Node, bool>, L1: map<Node, bool>, I1: map<Node, bool>,
                       D2: map<Node, bool>, E2: map<Node, bool>, DL2: map<Node, bool>, L2: map<Node, bool>, I2: map<Node, bool>)
    requires g.Valid()
    requires Analysis(g, t, D1, E1, DL1, L1, I1) && Analysis(g, t, D2, E2, DL2, L2, I2)
    ensures D1 == D2 && E1 == E2 && DL1 == DL2 && L1 == L2 && I1 == I2
  {
    assert D1 == D2 by {
      GreatestUnique(g.Nodes(), DSafeRule(g, t), D1, D2);
    }
    assert E1 == E2 by {
      LeastUnique(g.Nodes(), EarliestRule(g, t, D1), E1, E2);
    }
    assert DL1 == DL2 by {
      GreatestUnique(g.Nodes(), DelayRule(g, t, D1, E1), DL1, DL2);
    }
    assert L1 == L2 by {
      LatestUnique(g, t, DL1, L1, L2);
    }
    assert I1 == I2 by {
      GreatestUnique(g.Nodes(), IsolatedRule(g, t, L1), I1, I2);
    }
  }

  lemma LatestUnique(g: CFG, t: Term, DL: map<Node, bool>, L1: map<Node, bool>, L2: map<Node, bool>)
    requires g.Valid() && IsLatest(g, t, DL, L1) && IsLatest(g, t, DL, L2)
    ensures L1 == L2
  {
  }
}
