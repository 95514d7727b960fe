/**
  Query conditions as trees, with the two ways in which a blank tree is read: as a filter it accepts
  every row, negated or not, while in a combination it is dropped.
 */
module QueryObjects {
  datatype Connector = And | Or

  type Condition(==, !new)

  /** A row, by the conditions it meets. No row has the id 0. */
  type Row = set<Condition>

  datatype Lookup = IdIsZero | Meets(condition: Condition)

  datatype Child = Leaf(lookup: Lookup) | Sub(q: Q)

  datatype Q = Q(connector: Connector, negated: bool, children: seq<Child>)

  const EMPTY := Q(And, false, [])
  const DENY := Q(And, false, [Leaf(IdIsZero)])
  const NOT_EMPTY := Q(And, true, [])

  /** Nothing is tested: the condition is empty, or the negation of an empty one. */
  predicate Blank(q: Q) {
    q.children == []
  }

  function Test(c: Condition): Q {
    Q(And, false, [Leaf(Meets(c))])
  }

  ghost predicate AcceptsChild(c: Child, row: Row)
    decreases c
  {
    match c
    case Leaf(IdIsZero) => false
    case Leaf(Meets(condition)) => condition in row
    case Sub(q) => Accepts(q, row)
  }

  ghost predicate Joined(connector: Connector, children: seq<Child>, row: Row)
    decreases children
  {
    match connector
    case And => forall i :: 0 <= i < |children| ==> AcceptsChild(children[i], row)
    case Or => exists i :: 0 <= i < |children| && AcceptsChild(children[i], row)
  }

  /** The rows that a filter with this condition keeps. */
  ghost predicate Accepts(q: Q, row: Row)
    decreases q
  {
    Blank(q) || (q.negated != Joined(q.connector, q.children, row))
  }

  /** Adds the condition to a node, or only its children where that means the same. */
  function Add(node: Q, q: Q): Q {
    if !q.negated && (q.connector == node.connector || |q.children| == 1) then
      node.(children := node.children + q.children)
    else node.(children := node.children + [Sub(q)])
  }

  /** `a & b` and `a | b`. */
  function Combine(a: Q, b: Q, connector: Connector): Q {
    if Blank(a) then b
    else if Blank(b) then a
    else Add(Add(Q(connector, false, []), a), b)
  }

  lemma {:induction false} JoinedConcat(connector: Connector, s: seq<Child>, t: seq<Child>, row: Row)
    ensures Joined(connector, s + t, row) <==>
            if connector.And? then Joined(connector, s, row) && Joined(connector, t, row)
            else Joined(connector, s, row) || Joined(connector, t, row)
  {
    var st := s + t;
    assert forall i :: 0 <= i < |s| ==> st[i] == s[i];
    assert forall i :: 0 <= i < |t| ==> st[|s| + i] == t[i];
    assert forall i :: |s| <= i < |st| ==> st[i] == t[i - |s|];
  }

  lemma {:induction false} AddMeans(node: Q, q: Q, row: Row)
    requires !node.negated && q.children != []
    ensures Add(node, q).connector == node.connector && !Add(node, q).negated && Add(node, q).children != []
    ensures Joined(node.connector, Add(node, q).children, row) <==>
            if node.connector.And? then Joined(node.connector, node.children, row) && Accepts(q, row)
            else Joined(node.connector, node.children, row) || Accepts(q, row)
  {
    if !q.negated && (q.connector == node.connector || |q.children| == 1) {
      JoinedConcat(node.connector, node.children, q.children, row);
      if |q.children| == 1 {
        assert forall c :: Joined(c, q.children, row) <==> AcceptsChild(q.children[0], row);
      }
      assert Joined(node.connector, q.children, row) == Joined(q.connector, q.children, row);
    } else {
      JoinedConcat(node.connector, node.children, [Sub(q)], row);
      assert AcceptsChild([Sub(q)][0], row) == Accepts(q, row);
    }
  }

  /** Between conditions that are not blank, combining means what it says. */
  lemma {:induction false} CombineMeans(a: Q, b: Q, connector: Connector, row: Row)
    ensures Blank(a) ==> Combine(a, b, connector) == b
    ensures Blank(b) && !Blank(a) ==> Combine(a, b, connector) == a
    ensures !Blank(a) && !Blank(b) ==>
              && !Blank(Combine(a, b, connector))
              && (Accepts(Combine(a, b, connector), row) <==>
                  if connector.And? then Accepts(a, row) && Accepts(b, row) else Accepts(a, row) || Accepts(b, row))
  {
    if !Blank(a) && !Blank(b) {
      var start := Q(connector, false, []);
      AddMeans(start, a, row);
      AddMeans(Add(start, a), b, row);
    }
  }

  lemma {:induction false} DenyKeepsNothing(row: Row)
    ensures !Accepts(DENY, row)
  {
    assert !AcceptsChild(DENY.children[0], row);
  }

  lemma {:induction false} TestMeans(c: Condition, row: Row)
    ensures Accepts(Test(c), row) <==> c in row
  {
    assert AcceptsChild(Test(c).children[0], row) <==> c in row;
  }

  /** Negating a condition that tests something accepts exactly the other rows. */
  lemma {:induction false} NegationMeans(q: Q, row: Row)
    requires !Blank(q)
    ensures Accepts(q.(negated := !q.negated), row) <==> !Accepts(q, row)
  {
    assert q.(negated := !q.negated).children == q.children;
  }
}
