/** Term extraction and the two local predicates, `Used` and `Transp`. */
module Local {
  import opened IR

  /** `v` is the result of a load instruction that reads through the pointer `p`. */
  predicate LoadsFrom(g: CFG, v: Value, p: Value) {
    v.Result? && v.id in g.body && g.body[v.id] == Load(p)
  }

  /** `getAlloca`: the pointer operand of the load that produces `v`; nothing when `v`
      is not produced by a load. */
  function GetAlloca(g: CFG, v: Value): (r: Option<Value>)
    ensures r.None? <==> forall p :: !LoadsFrom(g, v, p)
    ensures r.Some? ==> LoadsFrom(g, v, r.value)
  {
    if v.Result? && v.id in g.body && g.body[v.id].Load? then
      assert LoadsFrom(g, v, g.body[v.id].ptr);
      Some(g.body[v.id].ptr)
    else None
  }

  /** The term contributed by node `n` to `getPartialRedundantExpressions`: present iff
      `n` is a binary operation whose two operands are both loads. */
  function TermAt(g: CFG, n: Node): (r: Option<Term>)
    requires g.Valid() && g.IsNode(n)
    ensures r.Some? <==> && g.At(n).BinOp?
                         && (exists p :: LoadsFrom(g, g.At(n).lhs, p))
                         && (exists p :: LoadsFrom(g, g.At(n).rhs, p))
    ensures r.Some? ==> && g.At(n).opcode == r.value.opcode
                        && g.At(n).ty == r.value.ty
                        && LoadsFrom(g, g.At(n).lhs, r.value.operand1)
                        && LoadsFrom(g, g.At(n).rhs, r.value.operand2)
  {
    match g.At(n)
    case BinOp(op, lhs, rhs, ty) =>
      (match (GetAlloca(g, lhs), GetAlloca(g, rhs))
       case (Some(p1), Some(p2)) => Some(Term(p1, op, p2, ty))
       case _ => None)
    case _ => None
  }

  /** `Used(n, t)`: `n` recomputes `t`. The operands are matched in order, the opcode is
      compared, the result type is NOT compared. */
  function Used(g: CFG, n: Node, t: Term): (r: bool)
    requires g.Valid() && g.IsNode(n)
    ensures r <==> && g.At(n).BinOp?
                   && g.At(n).opcode == t.opcode
                   && LoadsFrom(g, g.At(n).lhs, t.operand1)
                   && LoadsFrom(g, g.At(n).rhs, t.operand2)
  {
    match g.At(n)
    case BinOp(op, lhs, rhs, _) =>
      GetAlloca(g, lhs) == Some(t.operand1) && GetAlloca(g, rhs) == Some(t.operand2) && op == t.opcode
    case _ => false
  }

  /** `Transp(n, t)`: false only at a store whose operand 0 (the stored VALUE) is `t`'s
      first operand or whose operand 1 (the pointer) is `t`'s second operand. */
  function Transp(g: CFG, n: Node, t: Term): (r: bool)
    requires g.Valid() && g.IsNode(n)
    ensures !r <==> g.At(n).Store? && (g.At(n).val == t.operand1 || g.At(n).ptr == t.operand2)
  {
    match g.At(n)
    case Store(val, ptr) => !(val == t.operand1 || ptr == t.operand2)
    case _ => true
  }

  /** A node uses `t` exactly when it contributes `t` up to the result type. */
  lemma UsedIffExtracted(g: CFG, n: Node, t: Term)
    requires g.Valid() && g.IsNode(n)
    ensures Used(g, n, t) <==> TermAt(g, n).Some? && TermAt(g, n).value.(ty := t.ty) == t
  {
  }

  /** `Used` cannot tell two terms apart that differ only in their result type. */
  lemma UsedIgnoresType(g: CFG, n: Node, t: Term, ty: TypeId)
    requires g.Valid() && g.IsNode(n)
    ensures Used(g, n, t) == Used(g, n, t.(ty := ty))
  {
  }

  /** A store through `t`'s FIRST pointer does not kill `t` unless it happens to store
      that pointer value itself or the two pointers coincide: `Transp` compares the stored
      value, not the pointer, with the first operand. */
  lemma StoreThroughFirstOperandIsTransparent(g: CFG, n: Node, t: Term, v: Value)
    requires g.Valid() && g.IsNode(n)
    requires g.At(n) == Store(v, t.operand1)
    requires v != t.operand1 && t.operand1 != t.operand2
    ensures Transp(g, n, t)
  {
  }

  /** Every instruction that is not a store is transparent. */
  lemma NonStoreIsTransparent(g: CFG, n: Node, t: Term)
    requires g.Valid() && g.IsNode(n)
    requires !g.At(n).Store?
    ensures Transp(g, n, t)
  {
  }

  /** `getPartialRedundantExpressions`: the set of terms of all binary operations whose
      two operands are loads, duplicates collapsed. */
  method GetPartialRedundantExpressions(g: CFG) returns (terms: set<Term>)
    requires g.Valid()
    ensures forall n | g.IsNode(n) && TermAt(g, n).Some? :: TermAt(g, n).value in terms
    ensures forall t | t in terms :: exists n :: g.IsNode(n) && TermAt(g, n) == Some(t)
  {
    var all := AllNodes(g);
    terms := {};
    for k := 0 to |all|
      invariant forall j | 0 <= j < k && TermAt(g, all[j]).Some? :: TermAt(g, all[j]).value in terms
      invariant forall t | t in terms :: exists j :: 0 <= j < k && TermAt(g, all[j]) == Some(t)
    {
      var term := TermAt(g, all[k]);
      if term.Some? {
        terms := terms + {term.value};
      }
    }
    forall n | g.IsNode(n) && TermAt(g, n).Some? ensures TermAt(g, n).value in terms {
      var j :| 0 <= j < |all| && all[j] == n;
    }
  }
}
