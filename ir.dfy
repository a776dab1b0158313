/** The abstract, index-based instruction graph the pass works on.
    A function is a non-empty sequence of non-empty basic blocks, each a sequence of
    instruction identities, an instruction table and the block-successor relation.
    Block 0 is the entry block (LLVM's `F.front()`). */
module IR {

  datatype Option<T> = None | Some(value: T)

  /** Opcodes and result types are compared by identity only. */
  type Opcode = nat
  type TypeId = nat

  /** An instruction position: the `index`-th instruction of block `block`.
      During the analysis of one term a position identifies an instruction. */
  datatype Node = Node(block: nat, index: nat)

  /** Instruction identities. `Orig` ones come from the host; the rewrite of epoch `e`
      allocates `Slot(e)` (the cache slot) and `Remat(e, at, part)` (the four instructions
      inserted before the node `at`), which stands for allocation with `new`. */
  datatype InstId =
    | Orig(n: nat)
    | Slot(epoch: nat)
    | Remat(epoch: nat, at: Node, part: nat)

  /** An operand: the result of an instruction, or a value that is not an instruction
      (an argument, a global, a constant). */
  datatype Value = Result(id: InstId) | External(v: nat)

  /** The instruction kinds the pass distinguishes; operand 0 of a store is the stored
      value, operand 1 the pointer. */
  datatype Inst =
    | Load(ptr: Value)
    | Store(val: Value, ptr: Value)
    | BinOp(opcode: Opcode, lhs: Value, rhs: Value, ty: TypeId)
    | Alloca(ty: TypeId)
    | Other

  /** A candidate expression `operand1 opcode operand2` of result type `ty`; the operands
      are the pointers the two loads feeding the binary operation read from (`makeTerm`). */
  datatype Term = Term(operand1: Value, opcode: Opcode, operand2: Value, ty: TypeId)

  /** True iff `id` was allocated by the rewrite of epoch `e`. */
  predicate IssuedAt(id: InstId, e: nat) {
    (id.Slot? || id.Remat?) && id.epoch == e
  }

  /** True iff `id` was not allocated at epoch `e` or later. */
  predicate IssuedBefore(id: InstId, e: nat) {
    id.Orig? || id.epoch < e
  }

  datatype CFG = CFG(blocks: seq<seq<InstId>>, body: map<InstId, Inst>, succ: seq<seq<nat>>) {

    /** Non-empty function of non-empty blocks, successor indices in range, every
        instruction of a block described in the table. */
    predicate Valid() {
      && |blocks| > 0
      && |succ| == |blocks|
      && (forall b | 0 <= b < |blocks| :: |blocks[b]| > 0)
      && (forall b, k | 0 <= b < |succ| && 0 <= k < |succ[b]| :: succ[b][k] < |blocks|)
      && (forall b, i | 0 <= b < |blocks| && 0 <= i < |blocks[b]| :: blocks[b][i] in body)
    }

    /** Every instruction identity known to the function was issued before epoch `e`. */
    predicate IssuedBeforeAll(e: nat) {
      forall id | id in body :: IssuedBefore(id, e)
    }

    predicate IsNode(n: Node) {
      n.block < |blocks| && n.index < |blocks[n.block]|
    }

    /** No instruction sits at two positions: a position identifies an instruction. */
    predicate Distinct() {
      forall n1, n2 | n1 in Nodes() && n2 in Nodes() && IdAt(n1) == IdAt(n2) :: n1 == n2
    }

    function Nodes(): (ns: set<Node>)
      ensures forall n :: n in ns <==> IsNode(n)
    {
      set b, i | 0 <= b < |blocks| && 0 <= i < |blocks[b]| :: Node(b, i)
    }

    function IdAt(n: Node): InstId
      requires IsNode(n)
    {
      blocks[n.block][n.index]
    }

    function At(n: Node): Inst
      requires Valid() && IsNode(n)
    {
      body[IdAt(n)]
    }

    /** The entry node `s`: the first instruction of the first block. */
    function Entry(): Node {
      Node(0, 0)
    }

    /** The exit node `e`: the last instruction of the LAST block (not of a block that
        returns). */
    function Exit(): Node
      requires Valid()
    {
      Node(|blocks| - 1, |blocks[|blocks| - 1]| - 1)
    }

    /** Instruction-level successors: the next instruction of the block, or, for the
        last instruction of a block, the first instruction of every successor block. */
    function Succs(n: Node): (ms: set<Node>)
      requires Valid() && IsNode(n)
      ensures forall m | m in ms :: IsNode(m)
    {
      if n.index + 1 < |blocks[n.block]| then {Node(n.block, n.index + 1)}
      else set s | s in succ[n.block] :: Node(s, 0)
    }

    /** Instruction-level predecessors: the previous instruction of the block, or, for
        the first instruction of a block, the last instruction of every block that has
        this block as a successor. */
    function Preds(n: Node): (ms: set<Node>)
      requires Valid() && IsNode(n)
      ensures forall m | m in ms :: IsNode(m)
    {
      if n.index > 0 then {Node(n.block, n.index - 1)}
      else set p | 0 <= p < |blocks| && n.block in succ[p] :: Node(p, |blocks[p]| - 1)
    }
  }

  /** The nodes of block `b` in order. */
  function BlockNodes(g: CFG, b: nat): (ns: seq<Node>)
    requires b < |g.blocks|
    ensures |ns| == |g.blocks[b]|
    ensures forall i | 0 <= i < |ns| :: ns[i] == Node(b, i)
  {
    seq(|g.blocks[b]|, (i: int) requires 0 <= i => Node(b, i))
  }

  /** The nodes of the blocks `bs`, block after block, each in its own order
      (the order of `inst_iterator` when `bs` lists the blocks in layout order). */
  function InstOrder(g: CFG, bs: seq<nat>): seq<Node>
    requires forall k | 0 <= k < |bs| :: bs[k] < |g.blocks|
  {
    if bs == [] then [] else InstOrder(g, bs[..|bs| - 1]) + BlockNodes(g, bs[|bs| - 1])
  }

  lemma {:induction false} InstOrderMembers(g: CFG, bs: seq<nat>)
    requires forall k | 0 <= k < |bs| :: bs[k] < |g.blocks|
    ensures forall n :: n in InstOrder(g, bs) <==> g.IsNode(n) && n.block in bs
  {
    if bs != [] {
      var init := bs[..|bs| - 1];
      InstOrderMembers(g, init);
      assert bs == init + [bs[|bs| - 1]];
      forall n
        ensures n in InstOrder(g, bs) <==> g.IsNode(n) && n.block in bs
      {
        if n in BlockNodes(g, bs[|bs| - 1]) {
          var i :| 0 <= i < |BlockNodes(g, bs[|bs| - 1])| && BlockNodes(g, bs[|bs| - 1])[i] == n;
        }
        if g.IsNode(n) && n.block == bs[|bs| - 1] {
          assert BlockNodes(g, bs[|bs| - 1])[n.index] == n;
        }
      }
    }
  }

  /** The blocks of the function in layout order 0, 1, ... */
  function Layout(g: CFG): (bs: seq<nat>)
    ensures |bs| == |g.blocks|
    ensures forall k | 0 <= k < |bs| :: bs[k] == k
  {
    seq(|g.blocks|, (k: int) requires 0 <= k => k)
  }

  /** All nodes of the function in layout order (`inst_begin(F)` .. `inst_end(F)`). */
  function AllNodes(g: CFG): (ns: seq<Node>)
    ensures forall n :: n in ns <==> g.IsNode(n)
  {
    InstOrderMembers(g, Layout(g));
    assert forall n | g.IsNode(n) :: n.block in Layout(g) by {
      forall n | g.IsNode(n) ensures n.block in Layout(g) {
        assert Layout(g)[n.block] == n.block;
      }
    }
    InstOrder(g, Layout(g))
  }

  /** `bs` lists every block exactly once: a block visiting order. */
  predicate IsBlockOrder(g: CFG, bs: seq<nat>) {
    && (forall k | 0 <= k < |bs| :: bs[k] < |g.blocks|)
    && (forall b | 0 <= b < |g.blocks| :: b in bs)
    && (forall j, k | 0 <= j < k < |bs| :: bs[j] != bs[k])
  }

  function Reversed(s: seq<Node>): (r: seq<Node>)
    ensures |r| == |s|
    ensures forall k | 0 <= k < |s| :: r[k] == s[|s| - 1 - k]
  {
    if s == [] then [] else Reversed(s[1..]) + [s[0]]
  }

  /** A sweep order visits every node of the function and nothing else. */
  ghost predicate Covers(g: CFG, order: seq<Node>) {
    && (forall n | g.IsNode(n) :: n in order)
    && (forall k | 0 <= k < |order| :: g.IsNode(order[k]))
  }

  /** The forward sweep of `getEarliests`/`getDelays`: blocks in the visiting order,
      instructions in block order. */
  function ForwardOrder(g: CFG, rpo: seq<nat>): (order: seq<Node>)
    requires IsBlockOrder(g, rpo)
    ensures Covers(g, order)
  {
    InstOrderMembers(g, rpo);
    InstOrder(g, rpo)
  }

  /** The backward sweep of `getDSafes`/`getLatests`/`getIsolateds`: the reverse of the
      visiting order (post-order), each block from its last instruction to its first. */
  function BackwardOrder(g: CFG, rpo: seq<nat>): (order: seq<Node>)
    requires IsBlockOrder(g, rpo)
    ensures Covers(g, order)
  {
    var fwd := ForwardOrder(g, rpo);
    var r := Reversed(fwd);
    assert forall n | n in fwd :: n in r by {
      forall n | n in fwd ensures n in r {
        var k :| 0 <= k < |fwd| && fwd[k] == n;
        assert r[|fwd| - 1 - k] == n;
      }
    }
    r
  }
}
