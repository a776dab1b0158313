/** The graph adapter: instruction-level neighbours computed by walking a block and the
    block-successor lists, as `getSuccessors`, `getPredecessors` and `getBinarySuccessor`
    do. */
module Graph {
  import opened IR

  /** `getSuccessors`: the node after `n` in its block, or the first node of every
      successor block when `n` ends its block. */
  method GetSuccessors(g: CFG, n: Node) returns (s: set<Node>)
    requires g.Valid() && g.IsNode(n)
    ensures s == g.Succs(n)
  {
    var parent := g.blocks[n.block];
    s := {};
    if n.index == |parent| - 1 {
      var targets := g.succ[n.block];
      var k := 0;
      while k < |targets|
        invariant 0 <= k <= |targets|
        invariant s == set j | 0 <= j < k :: Node(targets[j], 0)
      {
        s := s + {Node(targets[k], 0)};
        k := k + 1;
      }
      assert s == g.Succs(n) by {
        forall m | m in g.Succs(n) ensures m in s {
          var j :| 0 <= j < |targets| && targets[j] == m.block;
        }
      }
    } else {
      // The scan for `n` in its own block: positions identify instructions, so it stops
      // at `n.index`; it only mirrors the source's search and proves nothing by itself.
      var i := 0;
      while i < |parent|
        invariant 0 <= i <= n.index
        invariant s == {}
        decreases |parent| - i
      {
        if i == n.index {
          s := {Node(n.block, i + 1)};
          break;
        }
        i := i + 1;
      }
    }
  }

  /** `getPredecessors`: the node before `n` in its block, or the last node of every
      predecessor block when `n` starts its block. */
  method GetPredecessors(g: CFG, n: Node) returns (s: set<Node>)
    requires g.Valid() && g.IsNode(n)
    ensures s == g.Preds(n)
  {
    var parent := g.blocks[n.block];
    s := {};
    if n.index == 0 {
      var p := 0;
      while p < |g.blocks|
        invariant 0 <= p <= |g.blocks|
        invariant s == set q | 0 <= q < p && n.block in g.succ[q] :: Node(q, |g.blocks[q]| - 1)
      {
        if n.block in g.succ[p] {
          s := s + {Node(p, |g.blocks[p]| - 1)};
        }
        p := p + 1;
      }
    } else {
      // As in `GetSuccessors`, the scan for `n` only mirrors the source's search.
      var i := 0;
      while i < |parent|
        invariant 0 <= i <= n.index
        invariant s == {}
        decreases |parent| - i
      {
        if i == n.index {
          s := {Node(n.block, i - 1)};
          break;
        }
        i := i + 1;
      }
    }
  }

  /** `getBinarySuccessor`: the first binary operation after `n` in `n`'s block, if any. */
  method GetBinarySuccessor(g: CFG, n: Node) returns (r: Option<Node>)
    requires g.Valid() && g.IsNode(n)
    ensures r.Some? ==> && r.value.block == n.block
                        && n.index < r.value.index < |g.blocks[n.block]|
                        && g.At(r.value).BinOp?
    ensures r.Some? ==> forall j | n.index < j < r.value.index :: !g.At(Node(n.block, j)).BinOp?
    ensures r.None? ==> forall j | n.index < j < |g.blocks[n.block]| :: !g.At(Node(n.block, j)).BinOp?
  {
    var parent := g.blocks[n.block];
    var findSelf := false;
    var i := 0;
    while i < |parent|
      invariant 0 <= i <= |parent|
      invariant findSelf <==> n.index < i
      invariant forall j | n.index < j < i :: !g.At(Node(n.block, j)).BinOp?
    {
      if i == n.index {
        findSelf := true;
      } else if findSelf && g.At(Node(n.block, i)).BinOp? {
        return Some(Node(n.block, i));
      }
      i := i + 1;
    }
    return None;
  }

  /** Successors and predecessors are mirror images of each other. */
  lemma SuccsPredsMirror(g: CFG, n: Node, m: Node)
    requires g.Valid() && g.IsNode(n) && g.IsNode(m)
    ensures m in g.Succs(n) <==> n in g.Preds(m)
  {
  }
}
