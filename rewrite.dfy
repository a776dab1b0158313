/** The code-motion rewrite of one term, as a function of the function before it, the
    two candidate sets and the allocation epoch:
    - a cache slot `Slot(e)` (an `alloca` of the term's type) becomes the first
      instruction of the entry block;
    - before each OCP node four instructions are inserted: a load of the first operand,
      a load of the second operand, the binary operation on the two loads, and a store of
      its result into the slot;
    - each RO node becomes a load of the slot (its identity is kept, so every former use
      of it now uses the load, as replacing an instruction in place does);
    - nothing else changes. */
module Rewrite {
  import opened IR

  /** The identities of the four instructions inserted before `at`. */
  function Group(e: nat, at: Node): seq<InstId> {
    [Remat(e, at, 0), Remat(e, at, 1), Remat(e, at, 2), Remat(e, at, 3)]
  }

  /** The instruction of each part of a group. */
  function RematInst(t: Term, e: nat, at: Node, part: nat): Inst {
    if part == 0 then Load(t.operand1)
    else if part == 1 then Load(t.operand2)
    else if part == 2 then BinOp(t.opcode, Result(Remat(e, at, 0)), Result(Remat(e, at, 1)), t.ty)
    else Store(Result(Remat(e, at, 2)), Result(Slot(e)))
  }

  /** What goes in front of block `b`: the slot, in the entry block only. */
  function Prologue(b: nat, e: nat): seq<InstId> {
    if b == 0 then [Slot(e)] else []
  }

  /** What goes in front of the `i`-th instruction of block `b`. */
  function Inserted(b: nat, ocp: set<Node>, e: nat, i: nat): seq<InstId> {
    if Node(b, i) in ocp then Group(e, Node(b, i)) else []
  }

  /** The first `k` instructions of block `b`, each preceded by what is inserted before it. */
  function Expand(g: CFG, b: nat, ocp: set<Node>, e: nat, k: nat): (s: seq<InstId>)
    requires b < |g.blocks| && k <= |g.blocks[b]|
    ensures |s| >= k
  {
    if k == 0 then []
    else Expand(g, b, ocp, e, k - 1) + Inserted(b, ocp, e, k - 1) + [g.blocks[b][k - 1]]
  }

  function NewBlock(g: CFG, b: nat, ocp: set<Node>, e: nat): seq<InstId>
    requires b < |g.blocks|
  {
    Prologue(b, e) + Expand(g, b, ocp, e, |g.blocks[b]|)
  }

  function NewBlocks(g: CFG, ocp: set<Node>, e: nat): (bs: seq<seq<InstId>>)
    ensures |bs| == |g.blocks|
    ensures forall b | 0 <= b < |bs| :: bs[b] == NewBlock(g, b, ocp, e)
  {
    seq(|g.blocks|, (b: int) requires 0 <= b < |g.blocks| => NewBlock(g, b, ocp, e))
  }

  /** Position, in the rewritten block, of the `i`-th instruction of block `b`. */
  function Pos(g: CFG, b: nat, ocp: set<Node>, e: nat, i: nat): nat
    requires b < |g.blocks| && i < |g.blocks[b]|
  {
    |Prologue(b, e)| + |Expand(g, b, ocp, e, i)| + |Inserted(b, ocp, e, i)|
  }

  ghost function RematIds(ocp: set<Node>, e: nat): set<InstId> {
    set n, p | n in ocp && 0 <= p < 4 :: Remat(e, n, p)
  }

  ghost function RoIds(g: CFG, ro: set<Node>): set<InstId>
    requires forall n | n in ro :: g.IsNode(n)
  {
    set n | n in ro :: g.IdAt(n)
  }

  ghost function NewInst(g: CFG, t: Term, roIds: set<InstId>, e: nat, id: InstId): Inst
    requires id in g.body || id == Slot(e) || (id.Remat? && id.epoch == e)
  {
    if id == Slot(e) then Alloca(t.ty)
    else if id.Remat? && id.epoch == e then RematInst(t, e, id.at, id.part)
    else if id in roIds then Load(Result(Slot(e)))
    else g.body[id]
  }

  ghost function NewBody(g: CFG, t: Term, ocp: set<Node>, ro: set<Node>, e: nat): map<InstId, Inst>
    requires forall n | n in ro :: g.IsNode(n)
  {
    map id | id in g.body.Keys + {Slot(e)} + RematIds(ocp, e) :: NewInst(g, t, RoIds(g, ro), e, id)
  }

  /** The function after the rewrite of epoch `e`. */
  ghost function Rewritten(g: CFG, t: Term, ocp: set<Node>, ro: set<Node>, e: nat): CFG
    requires forall n | n in ro :: g.IsNode(n)
  {
    CFG(NewBlocks(g, ocp, e), NewBody(g, t, ocp, ro, e), g.succ)
  }

  /** The invariant the pass keeps between rewrites: a valid function whose positions
      identify instructions and whose identities were all allocated before epoch `e`. */
  ghost predicate WellFormed(g: CFG, e: nat) {
    g.Valid() && g.Distinct() && g.IssuedBeforeAll(e)
  }

  // ---------------------------------------------------------------- layout of a block

  /** Every position of an expanded prefix holds either a part of the group inserted
      before some earlier instruction, at that group's offset, or an original instruction,
      at its own offset. */
  lemma {:induction false} ExpandAt(g: CFG, b: nat, ocp: set<Node>, e: nat, k: nat, j: nat)
    requires b < |g.blocks| && k <= |g.blocks[b]| && j < |Expand(g, b, ocp, e, k)|
    ensures var id := Expand(g, b, ocp, e, k)[j];
            || (&& id.Remat? && id.epoch == e && id.at.block == b && id.at.index < k
                && id.at in ocp && id.part < 4
                && j == |Expand(g, b, ocp, e, id.at.index)| + id.part)
            || (exists i | 0 <= i < k :: id == g.blocks[b][i] && j == |Expand(g, b, ocp, e, i)| + |Inserted(b, ocp, e, i)|)
  {
    var m := k - 1;
    var prev := Expand(g, b, ocp, e, m);
    var ins := Inserted(b, ocp, e, m);
    var full := Expand(g, b, ocp, e, k);
    assert full == prev + ins + [g.blocks[b][m]];
    if j < |prev| {
      ExpandAt(g, b, ocp, e, m, j);
      assert full[j] == prev[j];
    } else if j < |prev| + |ins| {
      assert Node(b, m) in ocp && ins == Group(e, Node(b, m));
      assert full[j] == Remat(e, Node(b, m), j - |prev|);
    } else {
      assert full[j] == g.blocks[b][m] && j == |prev| + |ins|;
    }
  }

  /** A shorter expansion is a prefix of a longer one. */
  lemma {:induction false} ExpandPrefix(g: CFG, b: nat, ocp: set<Node>, e: nat, i: nat, k: nat)
    requires b < |g.blocks| && i <= k <= |g.blocks[b]|
    ensures |Expand(g, b, ocp, e, i)| <= |Expand(g, b, ocp, e, k)|
    ensures Expand(g, b, ocp, e, i) == Expand(g, b, ocp, e, k)[..|Expand(g, b, ocp, e, i)|]
  {
    if i < k {
      ExpandPrefix(g, b, ocp, e, i, k - 1);
    }
  }

  /** In the rewritten block, the `i`-th original instruction sits at `Pos`, immediately
      preceded by what is inserted before it. */
  lemma NewBlockSegment(g: CFG, b: nat, ocp: set<Node>, e: nat, i: nat)
    requires b < |g.blocks| && i < |g.blocks[b]|
    ensures Pos(g, b, ocp, e, i) < |NewBlock(g, b, ocp, e)|
    ensures var nb := NewBlock(g, b, ocp, e);
            var p := Pos(g, b, ocp, e, i);
            nb[p - |Inserted(b, ocp, e, i)| .. p + 1] == Inserted(b, ocp, e, i) + [g.blocks[b][i]]
  {
    var pre := Prologue(b, e);
    var prev := Expand(g, b, ocp, e, i);
    var ins := Inserted(b, ocp, e, i);
    var seg := ins + [g.blocks[b][i]];
    var full := Expand(g, b, ocp, e, |g.blocks[b]|);
    ExpandPrefix(g, b, ocp, e, i + 1, |g.blocks[b]|);
    assert Expand(g, b, ocp, e, i + 1) == prev + seg;
    Segment(pre, full, prev, seg);
    assert Pos(g, b, ocp, e, i) == |pre| + |prev| + |ins|;
  }

  lemma Segment(pre: seq<InstId>, full: seq<InstId>, prev: seq<InstId>, seg: seq<InstId>)
    requires |prev| + |seg| <= |full| && prev + seg == full[..|prev| + |seg|]
    ensures (pre + full)[|pre| + |prev| .. |pre| + |prev| + |seg|] == seg
  {
    forall x | 0 <= x < |seg| ensures (pre + full)[|pre| + |prev| + x] == seg[x] {
      assert (prev + seg)[|prev| + x] == seg[x];
    }
  }

  /** Every position of a rewritten block holds the slot (first in the entry block), a
      part of an inserted group, or an original instruction at its `Pos`. */
  lemma NewBlockAt(g: CFG, b: nat, ocp: set<Node>, e: nat, k: nat)
    requires b < |g.blocks| && k < |NewBlock(g, b, ocp, e)|
    ensures var id := NewBlock(g, b, ocp, e)[k];
            || (b == 0 && k == 0 && id == Slot(e))
            || (&& id.Remat? && id.epoch == e && id.at.block == b && id.at.index < |g.blocks[b]|
                && id.at in ocp && id.part < 4
                && k == |Prologue(b, e)| + |Expand(g, b, ocp, e, id.at.index)| + id.part)
            || (exists i | 0 <= i < |g.blocks[b]| :: id == g.blocks[b][i] && k == Pos(g, b, ocp, e, i))
  {
    var pre := Prologue(b, e);
    var full := Expand(g, b, ocp, e, |g.blocks[b]|);
    if k >= |pre| {
      assert NewBlock(g, b, ocp, e)[k] == full[k - |pre|];
      ExpandAt(g, b, ocp, e, |g.blocks[b]|, k - |pre|);
    }
  }

  // ---------------------------------------------------------------- the invariant is kept

  lemma RewriteValid(g: CFG, t: Term, ocp: set<Node>, ro: set<Node>, e: nat)
    requires WellFormed(g, e)
    requires forall n | n in ocp :: g.IsNode(n)
    requires forall n | n in ro :: g.IsNode(n)
    ensures Rewritten(g, t, ocp, ro, e).Valid()
  {
    var g' := Rewritten(g, t, ocp, ro, e);
    forall b, k | 0 <= b < |g'.blocks| && 0 <= k < |g'.blocks[b]|
      ensures g'.blocks[b][k] in g'.body
    {
      NewBlockAt(g, b, ocp, e, k);
      var id := g'.blocks[b][k];
      if id.Remat? && id.epoch == e && id.at in ocp && id.part < 4 {
        assert id == Remat(e, id.at, id.part);
        assert id in RematIds(ocp, e);
      }
    }
  }

  lemma RewriteIssued(g: CFG, t: Term, ocp: set<Node>, ro: set<Node>, e: nat)
    requires WellFormed(g, e)
    requires forall n | n in ro :: g.IsNode(n)
    ensures Rewritten(g, t, ocp, ro, e).IssuedBeforeAll(e + 1)
  {
  }

  /** Two positions of the rewritten blocks that hold the same identity coincide. */
  lemma NewBlocksDistinct(g: CFG, ocp: set<Node>, e: nat, b1: nat, k1: nat, b2: nat, k2: nat)
    requires WellFormed(g, e)
    requires b1 < |g.blocks| && k1 < |NewBlock(g, b1, ocp, e)|
    requires b2 < |g.blocks| && k2 < |NewBlock(g, b2, ocp, e)|
    requires NewBlock(g, b1, ocp, e)[k1] == NewBlock(g, b2, ocp, e)[k2]
    ensures b1 == b2 && k1 == k2
  {
    var id := NewBlock(g, b1, ocp, e)[k1];
    NewBlockAt(g, b1, ocp, e, k1);
    NewBlockAt(g, b2, ocp, e, k2);
    if id == Slot(e) {
    } else if id.Remat? && id.epoch == e {
    } else {
      var i1 :| 0 <= i1 < |g.blocks[b1]| && id == g.blocks[b1][i1] && k1 == Pos(g, b1, ocp, e, i1);
      var i2 :| 0 <= i2 < |g.blocks[b2]| && id == g.blocks[b2][i2] && k2 == Pos(g, b2, ocp, e, i2);
      assert g.IdAt(Node(b1, i1)) == g.IdAt(Node(b2, i2));
      assert Node(b1, i1) in g.Nodes() && Node(b2, i2) in g.Nodes();
    }
  }

  lemma RewriteDistinct(g: CFG, t: Term, ocp: set<Node>, ro: set<Node>, e: nat)
    requires WellFormed(g, e)
    requires forall n | n in ocp :: g.IsNode(n)
    requires forall n | n in ro :: g.IsNode(n)
    ensures Rewritten(g, t, ocp, ro, e).Distinct()
  {
    var g' := Rewritten(g, t, ocp, ro, e);
    forall n1, n2 | n1 in g'.Nodes() && n2 in g'.Nodes() && g'.IdAt(n1) == g'.IdAt(n2)
      ensures n1 == n2
    {
      NewBlocksDistinct(g, ocp, e, n1.block, n1.index, n2.block, n2.index);
    }
  }

  /** The rewrite keeps the invariant, one epoch later. */
  lemma RewriteWellFormed(g: CFG, t: Term, ocp: set<Node>, ro: set<Node>, e: nat)
    requires WellFormed(g, e)
    requires forall n | n in ocp :: g.IsNode(n)
    requires forall n | n in ro :: g.IsNode(n)
    ensures WellFormed(Rewritten(g, t, ocp, ro, e), e + 1)
    ensures Rewritten(g, t, ocp, ro, e).succ == g.succ
    ensures |Rewritten(g, t, ocp, ro, e).blocks| == |g.blocks|
  {
    RewriteValid(g, t, ocp, ro, e);
    RewriteIssued(g, t, ocp, ro, e);
    RewriteDistinct(g, t, ocp, ro, e);
  }

  // ---------------------------------------------------------------- what the rewrite does

  /** The identities of `s` not allocated at epoch `e`, in order. */
  function Erase(s: seq<InstId>, e: nat): seq<InstId>
  {
    if s == [] then []
    else Erase(s[..|s| - 1], e) + (if IssuedAt(s[|s| - 1], e) then [] else [s[|s| - 1]])
  }

  lemma {:induction false} EraseConcat(a: seq<InstId>, b: seq<InstId>, e: nat)
    ensures Erase(a + b, e) == Erase(a, e) + Erase(b, e)
    decreases |b|
  {
    if b == [] {
      assert a + b == a;
    } else {
      var last := b[|b| - 1];
      assert (a + b)[..|a + b| - 1] == a + b[..|b| - 1];
      assert (a + b)[|a + b| - 1] == last;
      EraseConcat(a, b[..|b| - 1], e);
    }
  }

  lemma {:induction false} EraseAllIssued(s: seq<InstId>, e: nat)
    requires forall k | 0 <= k < |s| :: IssuedAt(s[k], e)
    ensures Erase(s, e) == []
  {
    if s != [] {
      EraseAllIssued(s[..|s| - 1], e);
    }
  }

  lemma {:induction false} EraseExpand(g: CFG, b: nat, ocp: set<Node>, e: nat, k: nat)
    requires b < |g.blocks| && k <= |g.blocks[b]|
    requires forall i | 0 <= i < |g.blocks[b]| :: IssuedBefore(g.blocks[b][i], e)
    ensures Erase(Expand(g, b, ocp, e, k), e) == g.blocks[b][..k]
  {
    if k > 0 {
      var prev := Expand(g, b, ocp, e, k - 1);
      var ins := Inserted(b, ocp, e, k - 1);
      var last := g.blocks[b][k - 1];
      assert Expand(g, b, ocp, e, k) == prev + ins + [last];
      assert IssuedBefore(last, e) && !IssuedAt(last, e);
      EraseExpand(g, b, ocp, e, k - 1);
      InsertedIssued(b, ocp, e, k - 1);
      EraseStep(prev, ins, last, e);
      PrefixStep(g.blocks[b], k);
    }
  }

  lemma PrefixStep(s: seq<InstId>, k: nat)
    requires 0 < k <= |s|
    ensures s[..k] == s[..k - 1] + [s[k - 1]]
  {
  }

  lemma InsertedIssued(b: nat, ocp: set<Node>, e: nat, i: nat)
    ensures forall k | 0 <= k < |Inserted(b, ocp, e, i)| :: IssuedAt(Inserted(b, ocp, e, i)[k], e)
  {
  }

  lemma EraseStep(prev: seq<InstId>, ins: seq<InstId>, last: InstId, e: nat)
    requires forall k | 0 <= k < |ins| :: IssuedAt(ins[k], e)
    requires !IssuedAt(last, e)
    ensures Erase(prev + ins + [last], e) == Erase(prev, e) + [last]
  {
    var a := prev + ins;
    assert (a + [last])[..|a|] == a;
    assert Erase(a + [last], e) == Erase(a, e) + [last];
    EraseConcat(prev, ins, e);
    EraseAllIssued(ins, e);
    assert Erase(a, e) == Erase(prev, e);
  }

  /** Erasing what the rewrite allocated gives back every block exactly as it was: the
      original instructions keep their order and nothing else is removed or added. */
  lemma RewriteErases(g: CFG, t: Term, ocp: set<Node>, ro: set<Node>, e: nat, b: nat)
    requires WellFormed(g, e)
    requires forall n | n in ro :: g.IsNode(n)
    requires b < |g.blocks|
    ensures Erase(Rewritten(g, t, ocp, ro, e).blocks[b], e) == g.blocks[b]
  {
    forall i | 0 <= i < |g.blocks[b]| ensures IssuedBefore(g.blocks[b][i], e) {
      assert g.blocks[b][i] in g.body;
    }
    EraseExpand(g, b, ocp, e, |g.blocks[b]|);
    EraseConcat(Prologue(b, e), Expand(g, b, ocp, e, |g.blocks[b]|), e);
    if b == 0 {
      assert [Slot(e)][..0] == [];
    }
    assert g.blocks[b][..|g.blocks[b]|] == g.blocks[b];
  }

  /** The slot is the first instruction of the entry block and sits nowhere else. */
  lemma RewriteOneSlot(g: CFG, t: Term, ocp: set<Node>, ro: set<Node>, e: nat)
    requires WellFormed(g, e)
    requires forall n | n in ocp :: g.IsNode(n)
    requires forall n | n in ro :: g.IsNode(n)
    ensures var g' := Rewritten(g, t, ocp, ro, e);
            && g'.IsNode(Node(0, 0)) && g'.IdAt(Node(0, 0)) == Slot(e)
            && g'.body[Slot(e)] == Alloca(t.ty)
            && forall n | g'.IsNode(n) && g'.IdAt(n) == Slot(e) :: n == Node(0, 0)
  {
    RewriteWellFormed(g, t, ocp, ro, e);
  }

  /** Before each OCP node sit, in this order, a load of the term's first operand, a load
      of its second, the binary operation on the two loads, and the store of its result
      into the slot. */
  lemma RewriteInsertsGroup(g: CFG, t: Term, ocp: set<Node>, ro: set<Node>, e: nat, n: Node)
    requires WellFormed(g, e)
    requires forall m | m in ro :: g.IsNode(m)
    requires n in ocp && g.IsNode(n)
    ensures var g' := Rewritten(g, t, ocp, ro, e);
            var p := Pos(g, n.block, ocp, e, n.index);
            && 4 <= p < |g'.blocks[n.block]|
            && g'.blocks[n.block][p - 4 .. p + 1] == Group(e, n) + [g.IdAt(n)]
            && g'.body[Remat(e, n, 0)] == Load(t.operand1)
            && g'.body[Remat(e, n, 1)] == Load(t.operand2)
            && g'.body[Remat(e, n, 2)] == BinOp(t.opcode, Result(Remat(e, n, 0)), Result(Remat(e, n, 1)), t.ty)
            && g'.body[Remat(e, n, 3)] == Store(Result(Remat(e, n, 2)), Result(Slot(e)))
  {
    NewBlockSegment(g, n.block, ocp, e, n.index);
    assert n == Node(n.block, n.index);
    forall p | 0 <= p < 4 ensures Remat(e, n, p) in RematIds(ocp, e) {
    }
  }

  /** Every original instruction keeps its identity at its new position; it becomes a
      load of the slot if it is an RO node, and is left as it was otherwise. */
  lemma RewriteKeeps(g: CFG, t: Term, ocp: set<Node>, ro: set<Node>, e: nat, n: Node)
    requires WellFormed(g, e)
    requires forall m | m in ro :: g.IsNode(m)
    requires g.IsNode(n)
    ensures var g' := Rewritten(g, t, ocp, ro, e);
            var n' := Node(n.block, Pos(g, n.block, ocp, e, n.index));
            && g'.IsNode(n') && g'.IdAt(n') == g.IdAt(n)
            && g'.body[g.IdAt(n)] == if n in ro then Load(Result(Slot(e))) else g.At(n)
  {
    NewBlockSegment(g, n.block, ocp, e, n.index);
    assert g.IdAt(n) in g.body;
  }

  // ---------------------------------------------------------------- one step at a time

  /** The instruction table before any node is treated: just the slot added. */
  lemma BodyStart(g: CFG, t: Term, e: nat)
    requires WellFormed(g, e)
    ensures NewBody(g, t, {}, {}, e) == g.body[Slot(e) := Alloca(t.ty)]
  {
    assert RematIds({}, e) == {};
    assert RoIds(g, {}) == {};
  }

  /** Treating one more OCP node adds its group to the table. */
  lemma BodyAddGroup(g: CFG, t: Term, ocp: set<Node>, ro: set<Node>, e: nat, n: Node)
    requires WellFormed(g, e)
    requires forall m | m in ro :: g.IsNode(m)
    ensures NewBody(g, t, ocp + {n}, ro, e)
         == NewBody(g, t, ocp, ro, e)[Remat(e, n, 0) := Load(t.operand1)]
                                     [Remat(e, n, 1) := Load(t.operand2)]
                                     [Remat(e, n, 2) := BinOp(t.opcode, Result(Remat(e, n, 0)), Result(Remat(e, n, 1)), t.ty)]
                                     [Remat(e, n, 3) := Store(Result(Remat(e, n, 2)), Result(Slot(e)))]
  {
    assert RematIds(ocp + {n}, e) == RematIds(ocp, e) + {Remat(e, n, 0), Remat(e, n, 1), Remat(e, n, 2), Remat(e, n, 3)} by {
      forall id | id in RematIds(ocp + {n}, e)
        ensures id in RematIds(ocp, e) + {Remat(e, n, 0), Remat(e, n, 1), Remat(e, n, 2), Remat(e, n, 3)}
      {
        var m, p :| m in ocp + {n} && 0 <= p < 4 && id == Remat(e, m, p);
      }
    }
  }

  /** Treating one more RO node turns it into a load of the slot. */
  lemma BodyAddRo(g: CFG, t: Term, ocp: set<Node>, ro: set<Node>, e: nat, n: Node)
    requires WellFormed(g, e)
    requires forall m | m in ro :: g.IsNode(m)
    requires g.IsNode(n)
    ensures NewBody(g, t, ocp, ro + {n}, e) == NewBody(g, t, ocp, ro, e)[g.IdAt(n) := Load(Result(Slot(e)))]
  {
    assert RoIds(g, ro + {n}) == RoIds(g, ro) + {g.IdAt(n)};
    assert g.IdAt(n) in g.body;
  }
}
