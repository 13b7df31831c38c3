/** Predicates as heap objects: a connective owns deep clones of its operands, so they may change or go afterwards. */
module PredicateObjects {
  import opened QueryPredicates

  datatype Kind = IsComparison(symbol: string, memberName: string, value: string) | IsEmpty | IsAnd | IsOr

  class PredicateNode {
    var kind: Kind
    var left: PredicateNode?
    var right: PredicateNode?
    ghost var Repr: set<PredicateNode>
    ghost var Tree: Predicate

    /** A node owns its whole subtree, and no part of it twice. */
    ghost predicate Valid()
      reads this, Repr
      decreases Repr
    {
      && this in Repr
      && (kind.IsComparison? || kind.IsEmpty? ==> left == null && right == null)
      && (kind.IsAnd? || kind.IsOr? ==>
            && left != null && right != null
            && left in Repr && right in Repr && left.Repr <= Repr && right.Repr <= Repr
            && this !in left.Repr && this !in right.Repr && left.Repr !! right.Repr
            && left.Valid() && right.Valid())
      && Tree == match kind
                 case IsComparison(symbol, memberName, value) => QueryPredicate(symbol, memberName, value)
                 case IsEmpty => EmptyPredicate
                 case IsAnd => AndPredicate(left.Tree, right.Tree)
                 case IsOr => OrPredicate(left.Tree, right.Tree)
    }

    constructor Leaf(kind: Kind)
      requires kind.IsComparison? || kind.IsEmpty?
      ensures Valid() && fresh(Repr)
      ensures Tree == if kind.IsComparison? then QueryPredicate(kind.symbol, kind.memberName, kind.value) else EmptyPredicate
    {
      this.kind, left, right := kind, null, null;
      Repr := {this};
      Tree := if kind.IsComparison? then QueryPredicate(kind.symbol, kind.memberName, kind.value) else EmptyPredicate;
    }

    /** `BinaryPredicate`: the new node owns clones, so both operands may even be the same object. */
    constructor Connective(l: PredicateNode, r: PredicateNode, conjunction: bool)
      requires l.Valid() && r.Valid()
      ensures Valid() && fresh(Repr)
      ensures Tree == if conjunction then AndPredicate(l.Tree, r.Tree) else OrPredicate(l.Tree, r.Tree)
      decreases l.Repr + r.Repr, 1
    {
      var lc := l.Clone();
      var rc := r.Clone();
      kind, left, right := if conjunction then IsAnd else IsOr, lc, rc;
      Repr := {this} + lc.Repr + rc.Repr;
      Tree := if conjunction then AndPredicate(l.Tree, r.Tree) else OrPredicate(l.Tree, r.Tree);
    }

    /** `Clone`: a new object for every node of the tree. */
    method Clone() returns (c: PredicateNode)
      requires Valid()
      ensures c.Valid() && fresh(c.Repr) && c.Tree == Tree
      decreases Repr, 0
    {
      if kind.IsComparison? || kind.IsEmpty? {
        c := new PredicateNode.Leaf(kind);
      } else {
        c := new PredicateNode.Connective(left, right, kind.IsAnd?);
      }
    }

    /** `And` and `Or` */
    method Combine(other: PredicateNode, conjunction: bool) returns (c: PredicateNode)
      requires Valid() && other.Valid()
      ensures c.Valid() && fresh(c.Repr)
      ensures c.Tree == if conjunction then Conjoin(Tree, other.Tree) else Disjoin(Tree, other.Tree)
    {
      CloneIsSame(Tree);
      CloneIsSame(other.Tree);
      c := new PredicateNode.Connective(this, other, conjunction);
    }

    /** `Evaluate` */
    function Text(): (s: string)
      requires Valid()
      reads this, Repr
      ensures s == Evaluate(Tree)
      decreases Repr
    {
      match kind
      case IsComparison(symbol, memberName, value) => memberName + " " + symbol + " " + value
      case IsEmpty => ""
      case IsAnd => "(" + left.Text() + " " + "AND" + " " + right.Text() + ")"
      case IsOr => "(" + left.Text() + " " + "OR" + " " + right.Text() + ")"
    }

    /** Puts a leaf in place of a node, which is all that destroying it means to others. */
    method Overwrite(with: Kind)
      requires Valid() && (with.IsComparison? || with.IsEmpty?)
      modifies this
      ensures Valid()
      ensures Tree == if with.IsComparison? then QueryPredicate(with.symbol, with.memberName, with.value) else EmptyPredicate
    {
      kind, left, right := with, null, null;
      Repr := {this};
      Tree := if with.IsComparison? then QueryPredicate(with.symbol, with.memberName, with.value) else EmptyPredicate;
    }
  }

  /** A compound predicate keeps its meaning and its text when an operand changes afterwards, be it both operands at once. */
  method OperandMayGo(l: PredicateNode, r: PredicateNode, conjunction: bool, with: Kind) returns (c: PredicateNode)
    requires l.Valid() && r.Valid() && (with.IsComparison? || with.IsEmpty?)
    modifies l
    ensures c.Valid() && fresh(c.Repr)
    ensures c.Tree == if conjunction then Conjoin(old(l.Tree), old(r.Tree)) else Disjoin(old(l.Tree), old(r.Tree))
    ensures c.Text() == Evaluate(if conjunction then Conjoin(old(l.Tree), old(r.Tree)) else Disjoin(old(l.Tree), old(r.Tree)))
  {
    hide Evaluate, Conjoin, Disjoin;
    c := l.Combine(r, conjunction);
    l.Overwrite(with);
  }
}
