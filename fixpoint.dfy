/** Boolean maps over the nodes of a function and the sweeps that solve a monotone
    per-node equation `M[n] == rule(M, n)` by chaotic iteration: every node is
    re-evaluated in a given sweep order, in place, and full sweeps repeat until one
    changes nothing. */
module Fixpoint {
  import opened IR

  /** Reading a memo map the way `std::map::operator[]` does: a missing key reads false. */
  function Get(M: map<Node, bool>, n: Node): bool {
    n in M && M[n]
  }

  /** A per-node equation: the value of a node given the values of all nodes. */
  type Rule = (map<Node, bool>, Node) --> bool

  ghost predicate Defined(nodes: set<Node>, rule: Rule) {
    forall M, n | n in nodes :: rule.requires(M, n)
  }

  /** Pointwise order on the values at `nodes` (false below true). */
  ghost predicate Below(nodes: set<Node>, A: map<Node, bool>, B: map<Node, bool>) {
    forall n | n in nodes :: Get(A, n) ==> Get(B, n)
  }

  ghost predicate Monotone(nodes: set<Node>, rule: Rule) {
    && Defined(nodes, rule)
    && forall A, B, n | n in nodes && Below(nodes, A, B) :: rule(A, n) ==> rule(B, n)
  }

  /** `M` is total on `nodes` and satisfies the equation at every node. */
  ghost predicate IsFixpoint(nodes: set<Node>, rule: Rule, M: map<Node, bool>) {
    && Defined(nodes, rule)
    && M.Keys == nodes
    && forall n | n in nodes :: M[n] == rule(M, n)
  }

  ghost predicate IsGreatest(nodes: set<Node>, rule: Rule, M: map<Node, bool>) {
    && IsFixpoint(nodes, rule, M)
    && forall S | IsFixpoint(nodes, rule, S) :: Below(nodes, S, M)
  }

  ghost predicate IsLeast(nodes: set<Node>, rule: Rule, M: map<Node, bool>) {
    && IsFixpoint(nodes, rule, M)
    && forall S | IsFixpoint(nodes, rule, S) :: Below(nodes, M, S)
  }

  function TrueNodes(M: map<Node, bool>): set<Node> {
    set n | n in M.Keys && M[n]
  }

  function FalseNodes(M: map<Node, bool>): set<Node> {
    set n | n in M.Keys && !M[n]
  }

  /** `M` lies above its own image: the equation never asks a node to rise. */
  ghost predicate AboveImage(nodes: set<Node>, rule: Rule, M: map<Node, bool>)
    requires Defined(nodes, rule)
  {
    M.Keys == nodes && forall n | n in nodes :: rule(M, n) ==> M[n]
  }

  /** `M` lies below its own image: the equation never asks a node to fall. */
  ghost predicate BelowImage(nodes: set<Node>, rule: Rule, M: map<Node, bool>)
    requires Defined(nodes, rule)
  {
    M.Keys == nodes && forall n | n in nodes :: M[n] ==> rule(M, n)
  }

  ghost predicate AboveAllFixpoints(nodes: set<Node>, rule: Rule, M: map<Node, bool>) {
    forall S | IsFixpoint(nodes, rule, S) :: Below(nodes, S, M)
  }

  ghost predicate BelowAllFixpoints(nodes: set<Node>, rule: Rule, M: map<Node, bool>) {
    forall S | IsFixpoint(nodes, rule, S) :: Below(nodes, M, S)
  }

  /** Lowering one node whose equation already yields false keeps `M` above its own
      image and above every fixpoint. */
  lemma {:induction false} LowerStep(nodes: set<Node>, rule: Rule, M: map<Node, bool>, n: Node)
    requires Monotone(nodes, rule) && M.Keys == nodes && n in nodes
    requires AboveImage(nodes, rule, M) && AboveAllFixpoints(nodes, rule, M)
    requires !rule(M, n)
    ensures AboveImage(nodes, rule, M[n := false]) && AboveAllFixpoints(nodes, rule, M[n := false])
  {
    var M' := M[n := false];
    assert Below(nodes, M', M);
    forall k | k in nodes
      ensures rule(M', k) ==> M'[k]
    {
      assert rule(M', k) ==> rule(M, k);
    }
    forall S | IsFixpoint(nodes, rule, S)
      ensures Below(nodes, S, M')
    {
      assert Below(nodes, S, M);
      assert !rule(S, n);
    }
  }

  /** Raising one node whose equation already yields true keeps `M` below its own image
      and below every fixpoint. */
  lemma {:induction false} RaiseStep(nodes: set<Node>, rule: Rule, M: map<Node, bool>, n: Node)
    requires Monotone(nodes, rule) && M.Keys == nodes && n in nodes
    requires BelowImage(nodes, rule, M) && BelowAllFixpoints(nodes, rule, M)
    requires rule(M, n)
    ensures BelowImage(nodes, rule, M[n := true]) && BelowAllFixpoints(nodes, rule, M[n := true])
  {
    var M' := M[n := true];
    assert Below(nodes, M, M');
    forall k | k in nodes
      ensures M'[k] ==> rule(M', k)
    {
      assert rule(M, k) ==> rule(M', k);
    }
    forall S | IsFixpoint(nodes, rule, S)
      ensures Below(nodes, M', S)
    {
      assert Below(nodes, M, S);
      assert rule(S, n);
    }
  }

  /** One full sweep of `getDSafes`-style lowering over `order`. */
  method SweepDown(nodes: set<Node>, order: seq<Node>, rule: Rule, M0: map<Node, bool>)
    returns (M: map<Node, bool>, changed: bool)
    requires forall n | n in nodes :: n in order
    requires forall k | 0 <= k < |order| :: order[k] in nodes
    requires Monotone(nodes, rule) && M0.Keys == nodes
    requires AboveImage(nodes, rule, M0) && AboveAllFixpoints(nodes, rule, M0)
    ensures M.Keys == nodes
    ensures AboveImage(nodes, rule, M) && AboveAllFixpoints(nodes, rule, M)
    ensures changed ==> |TrueNodes(M)| < |TrueNodes(M0)|
    ensures !changed ==> M == M0 && IsFixpoint(nodes, rule, M)
  {
    M, changed := M0, false;
    var k := 0;
    while k < |order|
      invariant 0 <= k <= |order|
      invariant M.Keys == nodes
      invariant AboveImage(nodes, rule, M) && AboveAllFixpoints(nodes, rule, M)
      invariant |TrueNodes(M)| <= |TrueNodes(M0)|
      invariant changed ==> |TrueNodes(M)| < |TrueNodes(M0)|
      invariant !changed ==> M == M0
      invariant !changed ==> forall j | 0 <= j < k :: M[order[j]] == rule(M, order[j])
    {
      var n := order[k];
      if M[n] != rule(M, n) {
        LowerStep(nodes, rule, M, n);
        assert TrueNodes(M[n := false]) == TrueNodes(M) - {n};
        M := M[n := false];
        changed := true;
      }
      k := k + 1;
    }
  }

  /** One full sweep of `getEarliests`-style raising over `order`. */
  method SweepUp(nodes: set<Node>, order: seq<Node>, rule: Rule, M0: map<Node, bool>)
    returns (M: map<Node, bool>, changed: bool)
    requires forall n | n in nodes :: n in order
    requires forall k | 0 <= k < |order| :: order[k] in nodes
    requires Monotone(nodes, rule) && M0.Keys == nodes
    requires BelowImage(nodes, rule, M0) && BelowAllFixpoints(nodes, rule, M0)
    ensures M.Keys == nodes
    ensures BelowImage(nodes, rule, M) && BelowAllFixpoints(nodes, rule, M)
    ensures changed ==> |FalseNodes(M)| < |FalseNodes(M0)|
    ensures !changed ==> M == M0 && IsFixpoint(nodes, rule, M)
  {
    M, changed := M0, false;
    var k := 0;
    while k < |order|
      invariant 0 <= k <= |order|
      invariant M.Keys == nodes
      invariant BelowImage(nodes, rule, M) && BelowAllFixpoints(nodes, rule, M)
      invariant |FalseNodes(M)| <= |FalseNodes(M0)|
      invariant changed ==> |FalseNodes(M)| < |FalseNodes(M0)|
      invariant !changed ==> M == M0
      invariant !changed ==> forall j | 0 <= j < k :: M[order[j]] == rule(M, order[j])
    {
      var n := order[k];
      if M[n] != rule(M, n) {
        RaiseStep(nodes, rule, M, n);
        assert FalseNodes(M[n := true]) == FalseNodes(M) - {n};
        M := M[n := true];
        changed := true;
      }
      k := k + 1;
    }
  }

  /** Sweeps starting from all-true until one changes nothing: the greatest solution. */
  method Greatest(nodes: set<Node>, order: seq<Node>, rule: Rule) returns (M: map<Node, bool>)
    requires forall n | n in nodes :: n in order
    requires forall k | 0 <= k < |order| :: order[k] in nodes
    requires Monotone(nodes, rule)
    ensures IsGreatest(nodes, rule, M)
  {
    M := map n | n in nodes :: true;
    var changed := true;
    while changed
      invariant M.Keys == nodes
      invariant AboveImage(nodes, rule, M) && AboveAllFixpoints(nodes, rule, M)
      invariant !changed ==> IsFixpoint(nodes, rule, M)
      decreases if changed then |TrueNodes(M)| + 1 else 0
    {
      M, changed := SweepDown(nodes, order, rule, M);
    }
  }

  /** Sweeps starting from all-false until one changes nothing: the least solution. */
  method Least(nodes: set<Node>, order: seq<Node>, rule: Rule) returns (M: map<Node, bool>)
    requires forall n | n in nodes :: n in order
    requires forall k | 0 <= k < |order| :: order[k] in nodes
    requires Monotone(nodes, rule)
    ensures IsLeast(nodes, rule, M)
  {
    M := map n | n in nodes :: false;
    var changed := true;
    while changed
      invariant M.Keys == nodes
      invariant BelowImage(nodes, rule, M) && BelowAllFixpoints(nodes, rule, M)
      invariant !changed ==> IsFixpoint(nodes, rule, M)
      decreases if changed then |FalseNodes(M)| + 1 else 0
    {
      M, changed := SweepUp(nodes, order, rule, M);
    }
  }

  /** Two maps on `nodes` that agree at every node are equal. */
  lemma SameValues(nodes: set<Node>, A: map<Node, bool>, B: map<Node, bool>)
    requires A.Keys == nodes && B.Keys == nodes
    requires forall n | n in nodes :: A[n] == B[n]
    ensures A == B
  {
  }

  /** An extremal solution is unique. */
  lemma GreatestUnique(nodes: set<Node>, rule: Rule, M1: map<Node, bool>, M2: map<Node, bool>)
    requires IsGreatest(nodes, rule, M1) && IsGreatest(nodes, rule, M2)
    ensures M1 == M2
  {
    assert Below(nodes, M1, M2) && Below(nodes, M2, M1);
    assert forall n | n in nodes :: M1[n] == M2[n];
  }

  lemma LeastUnique(nodes: set<Node>, rule: Rule, M1: map<Node, bool>, M2: map<Node, bool>)
    requires IsLeast(nodes, rule, M1) && IsLeast(nodes, rule, M2)
    ensures M1 == M2
  {
    assert Below(nodes, M1, M2) && Below(nodes, M2, M1);
    assert forall n | n in nodes :: M1[n] == M2[n];
  }
}
