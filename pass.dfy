/** The pass object: the function it rewrites in place, the five memo tables it fills,
    the sweeps that fill them, the candidate sets, the code-motion rewrite and the
    per-function driver. */
module Pass {
  import opened IR
  import opened Local
  import opened Fixpoint
  import opened Equations
  import opened Rewrite

  /** The function being optimised. Its blocks and instruction table change in place;
      `stamp` is the next allocation epoch, so that every rewrite allocates identities
      nobody has used before. */
  class Func {
    var blocks: seq<seq<InstId>>
    var body: map<InstId, Inst>
    const succ: seq<seq<nat>>
    var stamp: nat

    function Graph(): CFG
      reads this
    {
      CFG(blocks, body, succ)
    }

    ghost predicate Valid()
      reads this
    {
      WellFormed(Graph(), stamp)
    }

    constructor (g: CFG)
      requires WellFormed(g, 0)
      ensures Graph() == g && stamp == 0 && Valid()
    {
      blocks, body, succ, stamp := g.blocks, g.body, g.succ, 0;
    }
  }

  /** The nodes already treated by the rewrite: those of the blocks `bs`, and the first
      `i` of block `b`. */
  ghost function Done(g: CFG, bs: seq<nat>, b: nat, i: nat): set<Node> {
    set n | n in g.Nodes() && (n.block in bs || (n.block == b && n.index < i))
  }

  /** The blocks `bs` are rewritten, the others only carry the slot (in the entry block). */
  ghost predicate BlocksSoFar(g: CFG, ocp: set<Node>, e: nat, bs: seq<nat>, blocks: seq<seq<InstId>>) {
    && |blocks| == |g.blocks|
    && forall c | 0 <= c < |g.blocks| ::
         blocks[c] == if c in bs then NewBlock(g, c, ocp, e) else Prologue(c, e) + g.blocks[c]
  }

  lemma DoneStep(g: CFG, bs: seq<nat>, b: nat, i: nat)
    requires g.IsNode(Node(b, i))
    ensures Done(g, bs, b, i + 1) == Done(g, bs, b, i) + {Node(b, i)}
  {
  }

  lemma DoneAdd(g: CFG, bs: seq<nat>, b: nat, i: nat, S: set<Node>)
    requires g.IsNode(Node(b, i))
    ensures S * Done(g, bs, b, i + 1) == if Node(b, i) in S then S * Done(g, bs, b, i) + {Node(b, i)} else S * Done(g, bs, b, i)
  {
    DoneStep(g, bs, b, i);
  }

  /** Once its last instruction is treated, block `b` counts as rewritten. */
  lemma FinishBlock(g: CFG, ocp: set<Node>, e: nat, bs: seq<nat>, b: nat, before: seq<seq<InstId>>, after: seq<seq<InstId>>)
    requires b < |g.blocks| && b !in bs
    requires BlocksSoFar(g, ocp, e, bs, before)
    requires |after| == |g.blocks|
    requires forall c | 0 <= c < |g.blocks| && c != b :: after[c] == before[c]
    requires after[b] == Prologue(b, e) + Expand(g, b, ocp, e, |g.blocks[b]|) + g.blocks[b][|g.blocks[b]|..]
    ensures BlocksSoFar(g, ocp, e, bs + [b], after)
  {
    assert g.blocks[b][|g.blocks[b]|..] == [];
    assert after[b] == NewBlock(g, b, ocp, e);
  }

  lemma DoneStart(g: CFG, bs: seq<nat>, b: nat)
    ensures Done(g, bs, b, 0) == Done(g, bs, 0, 0)
  {
  }

  lemma DoneBlock(g: CFG, bs: seq<nat>, b: nat)
    requires b < |g.blocks|
    ensures Done(g, bs, b, |g.blocks[b]|) == Done(g, bs + [b], 0, 0)
  {
  }

  /** Inserting `ins` at the live position `|pre| + |prev|` of a block whose untreated
      rest is `rest`, and stepping over the instruction found there. */
  lemma Splice(pre: seq<InstId>, prev: seq<InstId>, ins: seq<InstId>, rest: seq<InstId>)
    requires |rest| > 0
    ensures var live := pre + prev + rest;
            var k := |pre| + |prev|;
            && live[k] == rest[0]
            && live[..k] + ins + live[k..] == pre + (prev + ins + [rest[0]]) + rest[1..]
            && (pre + (prev + ins + [rest[0]]) + rest[1..])[k + |ins|] == rest[0]
  {
    var live := pre + prev + rest;
    var k := |pre| + |prev|;
    assert live[..k] == pre + prev;
    assert live[k..] == rest;
    assert rest == [rest[0]] + rest[1..];
  }

  /** The state of the rewrite of block `b` once its first `i` original instructions are
      treated: `pos` is the live position of the `i`-th one. */
  ghost predicate Midway(g: CFG, t: Term, ocp: set<Node>, ro: set<Node>, e: nat, bs: seq<nat>, b: nat,
                         i: nat, pos: nat, before: seq<seq<InstId>>, blocks: seq<seq<InstId>>,
                         body: map<InstId, Inst>)
    requires b < |g.blocks|
    requires forall n | n in ro :: g.IsNode(n)
  {
    && i <= |g.blocks[b]|
    && |blocks| == |g.blocks| == |before|
    && (forall c | 0 <= c < |g.blocks| && c != b :: blocks[c] == before[c])
    && blocks[b] == Prologue(b, e) + Expand(g, b, ocp, e, i) + g.blocks[b][i..]
    && pos == |Prologue(b, e)| + |Expand(g, b, ocp, e, i)|
    && body == NewBody(g, t, ocp * Done(g, bs, b, i), ro * Done(g, bs, b, i), e)
  }

  /** One turn of the inner loop of the rewrite: the instruction at the live position
      `pos` is the `i`-th original one of block `b`; a group goes in front of it if it is
      an OCP node, it becomes a load of the slot if it is an RO node, and the loop steps
      over it. */
  method TreatNode(F: Func, ghost g: CFG, t: Term, ocp: set<Node>, ro: set<Node>, e: nat,
                   ghost bs: seq<nat>, b: nat, i: nat, pos: nat, ghost before: seq<seq<InstId>>)
    returns (pos': nat)
    requires WellFormed(g, e)
    requires forall n | n in ro :: g.IsNode(n)
    requires b < |g.blocks| && i < |g.blocks[b]|
    requires Midway(g, t, ocp, ro, e, bs, b, i, pos, before, F.blocks, F.body)
    modifies F`blocks, F`body
    ensures Midway(g, t, ocp, ro, e, bs, b, i + 1, pos', before, F.blocks, F.body)
  {
    var n := Node(b, i);
    LayoutStep(g, b, ocp, e, i, F.blocks[b]);
    pos' := pos;
    if n in ocp {
      F.body := F.body[Remat(e, n, 0) := Load(t.operand1)]
                      [Remat(e, n, 1) := Load(t.operand2)]
                      [Remat(e, n, 2) := BinOp(t.opcode, Result(Remat(e, n, 0)), Result(Remat(e, n, 1)), t.ty)]
                      [Remat(e, n, 3) := Store(Result(Remat(e, n, 2)), Result(Slot(e)))];
      F.blocks := F.blocks[b := F.blocks[b][..pos] + Group(e, n) + F.blocks[b][pos..]];
      pos' := pos + 4;
    }
    ghost var mid := F.body;
    if n in ro {
      F.body := F.body[F.blocks[b][pos'] := Load(Result(Slot(e)))];
    }
    pos' := pos' + 1;
    TreatStep(g, t, ocp, ro, e, bs, b, i, pos, before, old(F.blocks), old(F.body), F.blocks, mid, F.body);
  }

  /** The effect of one turn of the inner loop on the blocks and the instruction table. */
  lemma TreatStep(g: CFG, t: Term, ocp: set<Node>, ro: set<Node>, e: nat, bs: seq<nat>, b: nat,
                  i: nat, pos: nat, before: seq<seq<InstId>>, blocks: seq<seq<InstId>>,
                  body: map<InstId, Inst>, blocks': seq<seq<InstId>>, mid: map<InstId, Inst>,
                  body': map<InstId, Inst>)
    requires WellFormed(g, e)
    requires forall n | n in ro :: g.IsNode(n)
    requires b < |g.blocks| && i < |g.blocks[b]|
    requires Midway(g, t, ocp, ro, e, bs, b, i, pos, before, blocks, body)
    requires var n := Node(b, i);
             && blocks' == (if n in ocp then blocks[b := blocks[b][..pos] + Group(e, n) + blocks[b][pos..]] else blocks)
             && mid == (if n in ocp then body[Remat(e, n, 0) := Load(t.operand1)]
                                              [Remat(e, n, 1) := Load(t.operand2)]
                                              [Remat(e, n, 2) := BinOp(t.opcode, Result(Remat(e, n, 0)), Result(Remat(e, n, 1)), t.ty)]
                                              [Remat(e, n, 3) := Store(Result(Remat(e, n, 2)), Result(Slot(e)))]
                        else body)
             && body' == (if n in ro then mid[g.IdAt(n) := Load(Result(Slot(e)))] else mid)
    ensures Midway(g, t, ocp, ro, e, bs, b, i + 1, pos + |Inserted(b, ocp, e, i)| + 1, before, blocks', body')
  {
    var n := Node(b, i);
    var ins := Inserted(b, ocp, e, i);
    assert blocks'[b] == Prologue(b, e) + Expand(g, b, ocp, e, i + 1) + g.blocks[b][i + 1..]
        && |Prologue(b, e)| + |Expand(g, b, ocp, e, i + 1)| == pos + |ins| + 1 by {
      LayoutStep(g, b, ocp, e, i, blocks[b]);
      if n !in ocp {
        assert blocks[b][..pos] + [] + blocks[b][pos..] == blocks[b];
      }
    }
    assert body' == NewBody(g, t, ocp * Done(g, bs, b, i + 1), ro * Done(g, bs, b, i + 1), e) by {
      var S, R := ocp * Done(g, bs, b, i), ro * Done(g, bs, b, i);
      DoneAdd(g, bs, b, i, ocp);
      DoneAdd(g, bs, b, i, ro);
      if n in ocp {
        BodyAddGroup(g, t, S, R, e, n);
      }
      if n in ro {
        BodyAddRo(g, t, ocp * Done(g, bs, b, i + 1), R, e, n);
      }
    }
  }

  /** Stepping over the `i`-th original instruction of block `b`, with its insertion in
      front of it. */
  lemma LayoutStep(g: CFG, b: nat, ocp: set<Node>, e: nat, i: nat, row: seq<InstId>)
    requires b < |g.blocks| && i < |g.blocks[b]|
    requires row == Prologue(b, e) + Expand(g, b, ocp, e, i) + g.blocks[b][i..]
    ensures var p := |Prologue(b, e)| + |Expand(g, b, ocp, e, i)|;
            var ins := Inserted(b, ocp, e, i);
            && row[..p] + ins + row[p..] == Prologue(b, e) + Expand(g, b, ocp, e, i + 1) + g.blocks[b][i + 1..]
            && (row[..p] + ins + row[p..])[p + |ins|] == g.blocks[b][i]
            && |Prologue(b, e)| + |Expand(g, b, ocp, e, i + 1)| == p + |ins| + 1
  {
    var rest := g.blocks[b][i..];
    assert rest[1..] == g.blocks[b][i + 1..];
    Splice(Prologue(b, e), Expand(g, b, ocp, e, i), Inserted(b, ocp, e, i), rest);
  }

  /** The rewrite of one block `b` of the analysed function `g`: walks the live block,
      treating every original instruction in turn. */
  method RewriteBlock(F: Func, ghost g: CFG, t: Term, ocp: set<Node>, ro: set<Node>, e: nat,
                      ghost bs: seq<nat>, b: nat)
    requires WellFormed(g, e)
    requires forall n | n in ro :: g.IsNode(n)
    requires b < |g.blocks| && b !in bs
    requires BlocksSoFar(g, ocp, e, bs, F.blocks)
    requires F.body == NewBody(g, t, ocp * Done(g, bs, 0, 0), ro * Done(g, bs, 0, 0), e)
    modifies F`blocks, F`body
    ensures BlocksSoFar(g, ocp, e, bs + [b], F.blocks)
    ensures F.body == NewBody(g, t, ocp * Done(g, bs + [b], 0, 0), ro * Done(g, bs + [b], 0, 0), e)
  {
    // the slot put at the head of the entry block is neither OCP nor RO
    var pos: nat := if b == 0 then 1 else 0;
    var i: nat := 0;
    DoneStart(g, bs, b);
    assert g.blocks[b][0..] == g.blocks[b];
    ghost var before := F.blocks;
    while pos < |F.blocks[b]|
      invariant Midway(g, t, ocp, ro, e, bs, b, i, pos, before, F.blocks, F.body)
      decreases |g.blocks[b]| - i
    {
      pos := TreatNode(F, g, t, ocp, ro, e, bs, b, i, pos, before);
      i := i + 1;
    }
    LeaveBlock(g, t, ocp, ro, e, bs, b, i, pos, before, F.blocks, F.body);
  }

  lemma LeaveBlock(g: CFG, t: Term, ocp: set<Node>, ro: set<Node>, e: nat, bs: seq<nat>, b: nat,
                   i: nat, pos: nat, before: seq<seq<InstId>>, blocks: seq<seq<InstId>>,
                   body: map<InstId, Inst>)
    requires b < |g.blocks| && b !in bs
    requires forall n | n in ro :: g.IsNode(n)
    requires BlocksSoFar(g, ocp, e, bs, before)
    requires Midway(g, t, ocp, ro, e, bs, b, i, pos, before, blocks, body)
    requires pos >= |blocks[b]|
    ensures BlocksSoFar(g, ocp, e, bs + [b], blocks)
    ensures body == NewBody(g, t, ocp * Done(g, bs + [b], 0, 0), ro * Done(g, bs + [b], 0, 0), e)
  {
    assert i == |g.blocks[b]|;
    FinishBlock(g, ocp, e, bs, b, before, blocks);
    DoneBlock(g, bs, b);
  }

  /** The code-motion part of `perform_OCP_RO_Transformation`: the slot first in the
      entry block, then every block in the visiting order. */
  method Transform(F: Func, t: Term, ocp: set<Node>, ro: set<Node>, rpo: seq<nat>)
    requires F.Valid() && IsBlockOrder(F.Graph(), rpo)
    requires forall n | n in ocp :: F.Graph().IsNode(n)
    requires forall n | n in ro :: F.Graph().IsNode(n)
    modifies F
    ensures F.Graph() == Rewritten(old(F.Graph()), t, ocp, ro, old(F.stamp))
    ensures F.stamp == old(F.stamp) + 1
    ensures F.Valid()
  {
    ghost var g := F.Graph();
    var e := F.stamp;
    F.body := F.body[Slot(e) := Alloca(t.ty)];
    F.blocks := F.blocks[0 := [Slot(e)] + F.blocks[0]];
    StartRewrite(g, t, ocp, ro, e, F.blocks, F.body);
    RewriteBlocks(F, g, t, ocp, ro, e, rpo);
    F.stamp := e + 1;
    EndRewrite(g, t, ocp, ro, e, rpo, F.blocks, F.body);
    RewriteWellFormed(g, t, ocp, ro, e);
  }

  /** The blocks in the visiting order, one after the other. */
  method RewriteBlocks(F: Func, ghost g: CFG, t: Term, ocp: set<Node>, ro: set<Node>, e: nat, rpo: seq<nat>)
    requires WellFormed(g, e) && IsBlockOrder(g, rpo)
    requires forall n | n in ro :: g.IsNode(n)
    requires BlocksSoFar(g, ocp, e, [], F.blocks)
    requires F.body == NewBody(g, t, ocp * Done(g, [], 0, 0), ro * Done(g, [], 0, 0), e)
    modifies F`blocks, F`body
    ensures BlocksSoFar(g, ocp, e, rpo, F.blocks)
    ensures F.body == NewBody(g, t, ocp * Done(g, rpo, 0, 0), ro * Done(g, rpo, 0, 0), e)
  {
    assert rpo[..0] == [];
    for r := 0 to |rpo|
      invariant BlocksSoFar(g, ocp, e, rpo[..r], F.blocks)
      invariant F.body == NewBody(g, t, ocp * Done(g, rpo[..r], 0, 0), ro * Done(g, rpo[..r], 0, 0), e)
    {
      assert rpo[r] !in rpo[..r];
      RewriteBlock(F, g, t, ocp, ro, e, rpo[..r], rpo[r]);
      TakeNext(rpo, r);
    }
    assert rpo[..|rpo|] == rpo;
  }

  lemma TakeNext(s: seq<nat>, r: nat)
    requires r < |s|
    ensures s[..r + 1] == s[..r] + [s[r]]
  {
  }

  lemma StartRewrite(g: CFG, t: Term, ocp: set<Node>, ro: set<Node>, e: nat,
                     blocks: seq<seq<InstId>>, body: map<InstId, Inst>)
    requires WellFormed(g, e)
    requires forall n | n in ro :: g.IsNode(n)
    requires blocks == g.blocks[0 := [Slot(e)] + g.blocks[0]]
    requires body == g.body[Slot(e) := Alloca(t.ty)]
    ensures BlocksSoFar(g, ocp, e, [], blocks)
    ensures body == NewBody(g, t, ocp * Done(g, [], 0, 0), ro * Done(g, [], 0, 0), e)
  {
    BodyStart(g, t, e);
    assert Done(g, [], 0, 0) == {};
    assert ocp * {} == {} && ro * {} == {};
  }

  lemma EndRewrite(g: CFG, t: Term, ocp: set<Node>, ro: set<Node>, e: nat, rpo: seq<nat>,
                   blocks: seq<seq<InstId>>, body: map<InstId, Inst>)
    requires g.Valid() && IsBlockOrder(g, rpo)
    requires forall n | n in ocp :: g.IsNode(n)
    requires forall n | n in ro :: g.IsNode(n)
    requires BlocksSoFar(g, ocp, e, rpo, blocks)
    requires body == NewBody(g, t, ocp * Done(g, rpo, 0, 0), ro * Done(g, rpo, 0, 0), e)
    ensures CFG(blocks, body, g.succ) == Rewritten(g, t, ocp, ro, e)
  {
    assert Done(g, rpo, 0, 0) == g.Nodes();
    assert ocp * g.Nodes() == ocp && ro * g.Nodes() == ro;
    assert blocks == NewBlocks(g, ocp, e);
  }

  class PRE {
    var memDSafe: map<Node, bool>
    var memEarliest: map<Node, bool>
    var memDelay: map<Node, bool>
    var memLatest: map<Node, bool>
    var memIsolated: map<Node, bool>

    constructor ()
      ensures memDSafe == memEarliest == memDelay == memLatest == memIsolated == map[]
    {
      memDSafe, memEarliest, memDelay, memLatest, memIsolated := map[], map[], map[], map[], map[];
    }

    /** `getDSafes`: `mem_dsafe` is refilled by backward sweeps (post-order, each block
        from its end) with the greatest solution of the DSafe equations. */
    method GetDSafes(F: Func, t: Term, rpo: seq<nat>)
      requires F.Valid() && IsBlockOrder(F.Graph(), rpo)
      modifies this`memDSafe
      ensures IsDSafe(F.Graph(), t, memDSafe)
    {
      var g := F.Graph();
      DSafeMonotone(g, t);
      memDSafe := Greatest(g.Nodes(), BackwardOrder(g, rpo), DSafeRule(g, t));
    }

    /** `getEarliests`: forward sweeps (reverse post-order) compute the least solution of
        the Earliest equations over the current `mem_dsafe`. */
    method GetEarliests(F: Func, t: Term, rpo: seq<nat>)
      requires F.Valid() && IsBlockOrder(F.Graph(), rpo)
      modifies this`memEarliest
      ensures IsEarliest(F.Graph(), t, memDSafe, memEarliest)
    {
      var g := F.Graph();
      EarliestMonotone(g, t, memDSafe);
      memEarliest := Least(g.Nodes(), ForwardOrder(g, rpo), EarliestRule(g, t, memDSafe));
    }

    /** `getDelays`: forward sweeps compute the greatest solution of the Delay equations
        over the current `mem_dsafe` and `mem_earliest`. */
    method GetDelays(F: Func, t: Term, rpo: seq<nat>)
      requires F.Valid() && IsBlockOrder(F.Graph(), rpo)
      modifies this`memDelay
      ensures IsDelay(F.Graph(), t, memDSafe, memEarliest, memDelay)
    {
      var g := F.Graph();
      DelayMonotone(g, t, memDSafe, memEarliest);
      memDelay := Greatest(g.Nodes(), ForwardOrder(g, rpo), DelayRule(g, t, memDSafe, memEarliest));
    }

    /** `getLatests`: one backward sweep evaluates Latest at every node from the current
        `mem_delay`. */
    method GetLatests(F: Func, t: Term, rpo: seq<nat>)
      requires F.Valid() && IsBlockOrder(F.Graph(), rpo)
      modifies this`memLatest
      ensures IsLatest(F.Graph(), t, memDelay, memLatest)
    {
      var g := F.Graph();
      var order := BackwardOrder(g, rpo);
      var DL := memDelay;
      var M: map<Node, bool> := map[];
      for k := 0 to |order|
        invariant forall n | n in M :: g.IsNode(n) && M[n] == LatestAt(g, t, DL, n)
        invariant forall j | 0 <= j < k :: order[j] in M
      {
        var n := order[k];
        M := M[n := LatestAt(g, t, DL, n)];
      }
      forall n | n in g.Nodes() ensures n in M {
        var j :| 0 <= j < |order| && order[j] == n;
      }
      assert M.Keys == g.Nodes();
      memLatest := M;
    }

    /** `getIsolateds`: backward sweeps compute the greatest solution of the Isolated
        equations over the current `mem_latest`. */
    method GetIsolateds(F: Func, t: Term, rpo: seq<nat>)
      requires F.Valid() && IsBlockOrder(F.Graph(), rpo)
      modifies this`memIsolated
      ensures IsIsolated(F.Graph(), t, memLatest, memIsolated)
    {
      var g := F.Graph();
      IsolatedMonotone(g, t, memLatest);
      memIsolated := Greatest(g.Nodes(), BackwardOrder(g, rpo), IsolatedRule(g, t, memLatest));
    }

    /** `getOCP`: the nodes that are latest and not isolated. */
    method GetOCP(F: Func) returns (ocp: set<Node>)
      requires F.Valid()
      ensures ocp == OCPOf(F.Graph(), memLatest, memIsolated)
    {
      var g := F.Graph();
      var all := AllNodes(g);
      ocp := {};
      for k := 0 to |all|
        invariant forall n | n in ocp :: n in g.Nodes() && Get(memLatest, n) && !Get(memIsolated, n)
        invariant forall j | 0 <= j < k && Get(memLatest, all[j]) && !Get(memIsolated, all[j]) :: all[j] in ocp
      {
        var n := all[k];
        if Get(memLatest, n) && !Get(memIsolated, n) {
          ocp := ocp + {n};
        }
      }
      forall n | n in OCPOf(g, memLatest, memIsolated) ensures n in ocp {
        var j :| 0 <= j < |all| && all[j] == n;
      }
    }

    /** `getRO`: the nodes that use the term and are not both latest and isolated. */
    method GetRO(F: Func, t: Term) returns (ro: set<Node>)
      requires F.Valid()
      ensures ro == ROOf(F.Graph(), t, memLatest, memIsolated)
    {
      var g := F.Graph();
      var all := AllNodes(g);
      ro := {};
      for k := 0 to |all|
        invariant forall n | n in ro :: n in g.Nodes() && Used(g, n, t) && !(Get(memLatest, n) && Get(memIsolated, n))
        invariant forall j | 0 <= j < k && Used(g, all[j], t) && !(Get(memLatest, all[j]) && Get(memIsolated, all[j])) :: all[j] in ro
      {
        var n := all[k];
        if Used(g, n, t) && !(Get(memLatest, n) && Get(memIsolated, n)) {
          ro := ro + {n};
        }
      }
      forall n | n in ROOf(g, t, memLatest, memIsolated) ensures n in ro {
        var j :| 0 <= j < |all| && all[j] == n;
      }
    }

    /** The five analyses of `perform_OCP_RO_Transformation`, in the order it runs them. */
    method Analyse(F: Func, t: Term, rpo: seq<nat>)
      requires F.Valid() && IsBlockOrder(F.Graph(), rpo)
      modifies this
      ensures Analysis(F.Graph(), t, memDSafe, memEarliest, memDelay, memLatest, memIsolated)
    {
      GetDSafes(F, t, rpo);
      GetEarliests(F, t, rpo);
      GetDelays(F, t, rpo);
      GetLatests(F, t, rpo);
      GetIsolateds(F, t, rpo);
    }

    /** `perform_OCP_RO_Transformation`: the five sweeps, the two candidate sets, and the
        rewrite when both sets are non-empty. */
    method PerformTransformation(F: Func, t: Term, rpo: seq<nat>) returns (changed: bool)
      requires F.Valid() && IsBlockOrder(F.Graph(), rpo)
      modifies this, F
      ensures F.Valid() && |F.Graph().blocks| == |old(F.Graph()).blocks|
      ensures RoundBy(old(F.Graph()), old(F.stamp), t, F.Graph(), F.stamp, changed,
                      memDSafe, memEarliest, memDelay, memLatest, memIsolated)
    {
      ghost var g := F.Graph();
      Analyse(F, t, rpo);
      var ocp := GetOCP(F);
      var ro := GetRO(F, t);
      changed := false;
      if |ocp| > 0 && |ro| > 0 {
        changed := true;
        CandidateSets(g, t, memLatest, memIsolated);
        Transform(F, t, ocp, ro, rpo);
      }
    }

    /** One iteration of `runOnFunction`'s loop: `perform_OCP_RO_Transformation` on `t`,
        seen as one step of the run. */
    method TakeTerm(F: Func, t: Term, rpo: seq<nat>) returns (c: bool)
      requires F.Valid() && IsBlockOrder(F.Graph(), rpo)
      modifies this, F
      ensures F.Valid() && IsBlockOrder(F.Graph(), rpo)
      ensures Step((old(F.Graph()), old(F.stamp)), t, (F.Graph(), F.stamp), c)
    {
      ghost var before := (F.Graph(), F.stamp);
      c := PerformTransformation(F, t, rpo);
      RoundWitness(before, t, (F.Graph(), F.stamp), c,
                   memDSafe, memEarliest, memDelay, memLatest, memIsolated);
    }

    /** `runOnFunction`: the candidate terms are extracted once, then each term in turn
        is analysed and moved; the result is whether any of them changed the function.
        The ghost results record the terms in the order they were taken and the state of
        the function before and after each. */
    method RunOnFunction(F: Func, rpo: seq<nat>)
      returns (changed: bool, ghost trace: seq<Term>, ghost states: seq<(CFG, nat)>, ghost flags: seq<bool>)
      requires F.Valid() && IsBlockOrder(F.Graph(), rpo)
      modifies this, F
      ensures F.Valid()
      ensures NoRepeats(trace) && forall u :: u in trace <==> u in Candidates(old(F.Graph()))
      ensures Run(old(F.Graph()), old(F.stamp), trace, states, flags)
      ensures states[|trace|] == (F.Graph(), F.stamp)
      ensures changed <==> true in flags
    {
      var terms := GetPartialRedundantExpressions(F.Graph());
      assert terms == Candidates(F.Graph());
      changed, trace, states, flags := TakeAll(F, terms, rpo);
    }

    /** The loop of `runOnFunction` over the extracted terms, in an order left open. */
    method TakeAll(F: Func, terms: set<Term>, rpo: seq<nat>)
      returns (changed: bool, ghost trace: seq<Term>, ghost states: seq<(CFG, nat)>, ghost flags: seq<bool>)
      requires F.Valid() && IsBlockOrder(F.Graph(), rpo)
      modifies this, F
      ensures F.Valid()
      ensures NoRepeats(trace) && forall u :: u in trace <==> u in terms
      ensures Run(old(F.Graph()), old(F.stamp), trace, states, flags)
      ensures states[|trace|] == (F.Graph(), F.stamp)
      ensures changed <==> true in flags
    {
      ghost var g0 := F.Graph();
      changed := false;
      trace, states, flags := [], [(F.Graph(), F.stamp)], [];
      var rest := terms;
      while rest != {}
        invariant F.Valid() && IsBlockOrder(F.Graph(), rpo)
        invariant rest <= terms && NoRepeats(trace)
        invariant forall u :: u in trace <==> u in terms && u !in rest
        invariant Run(g0, old(F.stamp), trace, states, flags)
        invariant states[|trace|].0 == F.Graph() && states[|trace|].1 == F.stamp
        invariant changed <==> true in flags
        decreases |rest|
      {
        var t :| t in rest;
        TraceExtend(trace, terms, rest, t);
        rest := rest - {t};
        var c := TakeTerm(F, t, rpo);
        RunExtend(g0, old(F.stamp), trace, states, flags, t, F.Graph(), F.stamp, c);
        if c {
          changed := true;
        }
        trace, states, flags := trace + [t], states + [(F.Graph(), F.stamp)], flags + [c];
      }
    }
  }

  ghost predicate NoRepeats(trace: seq<Term>) {
    forall k, j | 0 <= k < j < |trace| :: trace[k] != trace[j]
  }

  /** `trace` lists the terms taken so far, starting from `s0`: each one took the
      function from one state to the next by `step`. Stated on the last term, so that a
      chain grows one step at a time. */
  ghost predicate Chain(step: ((CFG, nat), Term, (CFG, nat), bool) -> bool, s0: (CFG, nat),
                        trace: seq<Term>, states: seq<(CFG, nat)>, flags: seq<bool>)
    decreases |trace|
  {
    && |states| == |trace| + 1 && |flags| == |trace|
    && if trace == [] then states[0] == s0
       else
         var k := |trace| - 1;
         && Chain(step, s0, trace[..k], states[..k + 1], flags[..k])
         && step(states[k], trace[k], states[k + 1], flags[k])
  }

  /** The terms `trace` taken one after the other from `g0` at epoch `e0`. */
  ghost predicate Run(g0: CFG, e0: nat, trace: seq<Term>, states: seq<(CFG, nat)>, flags: seq<bool>) {
    Chain(Step, (g0, e0), trace, states, flags)
  }

  lemma {:induction false} ChainSteps(step: ((CFG, nat), Term, (CFG, nat), bool) -> bool, s0: (CFG, nat),
                                      trace: seq<Term>, states: seq<(CFG, nat)>, flags: seq<bool>, k: nat)
    requires Chain(step, s0, trace, states, flags) && k < |trace|
    ensures states[0] == s0
    ensures step(states[k], trace[k], states[k + 1], flags[k])
    decreases |trace|
  {
    var m := |trace| - 1;
    if k < m {
      ChainSteps(step, s0, trace[..m], states[..m + 1], flags[..m], k);
    } else if m > 0 {
      ChainSteps(step, s0, trace[..m], states[..m + 1], flags[..m], 0);
    }
  }

  lemma ChainExtend(step: ((CFG, nat), Term, (CFG, nat), bool) -> bool, s0: (CFG, nat),
                    trace: seq<Term>, states: seq<(CFG, nat)>, flags: seq<bool>,
                    t: Term, s': (CFG, nat), c: bool)
    requires Chain(step, s0, trace, states, flags)
    requires step(states[|trace|], t, s', c)
    ensures Chain(step, s0, trace + [t], states + [s'], flags + [c])
  {
    assert (trace + [t])[..|trace|] == trace;
    assert (states + [s'])[..|trace| + 1] == states;
    assert (flags + [c])[..|trace|] == flags;
  }

  /** A run starts at `(g0, e0)` and each of its terms is one step. */
  lemma RunSteps(g0: CFG, e0: nat, trace: seq<Term>, states: seq<(CFG, nat)>, flags: seq<bool>, k: nat)
    requires Run(g0, e0, trace, states, flags) && k < |trace|
    ensures states[0] == (g0, e0)
    ensures Step(states[k], trace[k], states[k + 1], flags[k])
  {
    ChainSteps(Step, (g0, e0), trace, states, flags, k);
  }

  /** Analysing and moving the term `t` took the well-formed state `s` to `s'`. */
  ghost predicate Step(s: (CFG, nat), t: Term, s': (CFG, nat), c: bool) {
    WellFormed(s.0, s.1) && Round(s.0, s.1, t, s'.0, s'.1, c)
  }

  lemma TraceExtend(trace: seq<Term>, terms: set<Term>, rest: set<Term>, t: Term)
    requires rest <= terms && t in rest && NoRepeats(trace)
    requires forall u :: u in trace <==> u in terms && u !in rest
    ensures rest - {t} <= terms && NoRepeats(trace + [t])
    ensures forall u :: u in trace + [t] <==> u in terms && u !in rest - {t}
    ensures |rest - {t}| < |rest|
  {
  }

  lemma RunExtend(g0: CFG, e0: nat, trace: seq<Term>, states: seq<(CFG, nat)>, flags: seq<bool>,
                  t: Term, g': CFG, e': nat, c: bool)
    requires Run(g0, e0, trace, states, flags)
    requires Step(states[|trace|], t, (g', e'), c)
    ensures Run(g0, e0, trace + [t], states + [(g', e')], flags + [c])
  {
    ChainExtend(Step, (g0, e0), trace, states, flags, t, (g', e'), c);
  }

  /** The terms `getPartialRedundantExpressions` extracts from `g`. */
  ghost function Candidates(g: CFG): set<Term>
    requires g.Valid()
  {
    set n | n in g.Nodes() && TermAt(g, n).Some? :: TermAt(g, n).value
  }

  /** One term's analysis and rewrite took the function `g` at epoch `e` to `g'` at epoch
      `e'`, reporting `changed`. */
  ghost predicate Round(g: CFG, e: nat, t: Term, g': CFG, e': nat, changed: bool)
    requires g.Valid()
  {
    exists D, E, DL, L, I :: RoundBy(g, e, t, g', e', changed, D, E, DL, L, I)
  }

  /** The analysis of `t` in `g` produced the memo maps `D` .. `I`; the function was
      rewritten with the resulting OCP and RO sets, and the epoch advanced, exactly when
      both sets are non-empty, and was left alone otherwise. */
  ghost predicate RoundBy(g: CFG, e: nat, t: Term, g': CFG, e': nat, changed: bool,
                          D: map<Node, bool>, E: map<Node, bool>, DL: map<Node, bool>,
                          L: map<Node, bool>, I: map<Node, bool>)
    requires g.Valid()
  {
    && Analysis(g, t, D, E, DL, L, I)
    && var ocp := OCPOf(g, L, I);
       var ro := ROOf(g, t, L, I);
       && (changed <==> ocp != {} && ro != {})
       && (changed ==> g' == Rewritten(g, t, ocp, ro, e) && e' == e + 1)
       && (!changed ==> g' == g && e' == e)
  }

  lemma RoundWitness(s: (CFG, nat), t: Term, s': (CFG, nat), changed: bool,
                     D: map<Node, bool>, E: map<Node, bool>, DL: map<Node, bool>,
                     L: map<Node, bool>, I: map<Node, bool>)
    requires WellFormed(s.0, s.1) && RoundBy(s.0, s.1, t, s'.0, s'.1, changed, D, E, DL, L, I)
    ensures Step(s, t, s', changed)
  {
  }

  /** A round is a function of the function, the epoch and the term: the outcome does
      not depend on the block visiting order or on how the sweeps reached their
      solutions. */
  lemma RoundDeterministic(g: CFG, e: nat, t: Term, g1: CFG, e1: nat, c1: bool, g2: CFG, e2: nat, c2: bool)
    requires g.Valid()
    requires Round(g, e, t, g1, e1, c1) && Round(g, e, t, g2, e2, c2)
    ensures g1 == g2 && e1 == e2 && c1 == c2
  {
    var D1, E1, DL1, L1, I1 :| RoundBy(g, e, t, g1, e1, c1, D1, E1, DL1, L1, I1);
    var D2, E2, DL2, L2, I2 :| RoundBy(g, e, t, g2, e2, c2, D2, E2, DL2, L2, I2);
    AnalysisUnique(g, t, D1, E1, DL1, L1, I1, D2, E2, DL2, L2, I2);
  }
}
