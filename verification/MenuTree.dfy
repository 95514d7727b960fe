/**
  Turning the flat menu list into a forest by appending every record to the child list of its parent
  record, through shared references, and dressing the roots up as routes.
 */
module MenuTree {
  import opened Wrappers
  import opened ParentLinks

  /** A menu record: a dictionary that is shared between the list, the key table and child lists. */
  class MenuNode {
    const pk: Id
    const parent: ParentRef
    const path: string
    const title: string
    var children: seq<MenuNode>
    var count: Option<int>

    constructor (pk: Id, parent: ParentRef, path: string, title: string)
      ensures this.pk == pk && this.parent == parent && this.path == path && this.title == title
      ensures children == [] && count == None
    {
      this.pk, this.parent, this.path, this.title := pk, parent, path, title;
      children, count := [], None;
    }
  }

  // ----- which record is the parent

  /** The key table of the first n records; of two records with the same key the later one wins. */
  function MappingWithin(data: seq<MenuNode>, n: nat): (m: map<Id, MenuNode>)
    requires n <= |data|
    ensures forall k :: k in m ==> m[k] in data && m[k].pk == k
  {
    if n == 0 then map[] else MappingWithin(data, n - 1)[data[n - 1].pk := data[n - 1]]
  }

  function ParentIn(data: seq<MenuNode>, d: MenuNode): (p: Option<MenuNode>)
    ensures p.Some? ==> p.value in data && d.parent.Key() == Some(p.value.pk)
  {
    var mapping := MappingWithin(data, |data|);
    match d.parent.Key()
    case None => None
    case Some(k) => if k in mapping then Some(mapping[k]) else None
  }

  /** Those of the first n records whose parent record is p, or that have none, in list order. */
  function ChildrenWithin(data: seq<MenuNode>, n: nat, p: Option<MenuNode>): seq<MenuNode>
    requires n <= |data|
  {
    if n == 0 then [] else ChildrenWithin(data, n - 1, p) + Gains(data, n - 1, p)
  }

  /** What the i-th record adds to the children of p. */
  function Gains(data: seq<MenuNode>, i: nat, p: Option<MenuNode>): seq<MenuNode>
    requires i < |data|
  {
    if ParentIn(data, data[i]) == p then [data[i]] else []
  }

  function Roots(data: seq<MenuNode>): seq<MenuNode> {
    ChildrenWithin(data, |data|, None)
  }

  function Kids(data: seq<MenuNode>, p: MenuNode): seq<MenuNode> {
    ChildrenWithin(data, |data|, Some(p))
  }

  /** Record j is the last one with its key. */
  ghost predicate IsLast(data: seq<MenuNode>, j: nat)
    requires j < |data|
  {
    forall k :: j < k < |data| ==> data[k].pk != data[j].pk
  }

  lemma {:induction false} MappingHasLast(data: seq<MenuNode>, n: nat, k: Id) returns (j: nat)
    requires n <= |data| && k in MappingWithin(data, n)
    ensures j < n && data[j] == MappingWithin(data, n)[k] && forall i :: j < i < n ==> data[i].pk != k
  {
    j := n - 1;
    if data[n - 1].pk != k {
      j := MappingHasLast(data, n - 1, k);
    }
  }

  lemma {:induction false} MappingHasKeys(data: seq<MenuNode>, n: nat, j: nat)
    requires j < n <= |data|
    ensures data[j].pk in MappingWithin(data, n)
  {
    if j < n - 1 {
      MappingHasKeys(data, n - 1, j);
    }
  }

  /**
    A record becomes a child of the last record that has the key it names, written plainly or in a nested
    object, and a root if there is none.
   */
  lemma {:induction false} ParentIsNamed(data: seq<MenuNode>, d: MenuNode)
    ensures forall p :: ParentIn(data, d) == Some(p) <==>
                        exists j :: 0 <= j < |data| && data[j] == p && IsLast(data, j) &&
                                    (d.parent == Plain(p.pk) || d.parent == Nested(Some(p.pk)))
    ensures ParentIn(data, d).None? <==>
            !exists j :: 0 <= j < |data| && (d.parent == Plain(data[j].pk) || d.parent == Nested(Some(data[j].pk)))
  {
    var key, mapping := d.parent.Key(), MappingWithin(data, |data|);
    forall k ensures key == Some(k) <==> d.parent.Names(k) {
      KeyIsNamed(d.parent, k);
    }
    forall j | 0 <= j < |data| ensures data[j].pk in mapping {
      MappingHasKeys(data, |data|, j);
    }
    if key.Some? && key.value in mapping {
      var i := MappingHasLast(data, |data|, key.value);
      assert ParentIn(data, d) == Some(data[i]) && data[i].pk == key.value && IsLast(data, i);
      forall j | 0 <= j < |data| && data[j].pk == key.value && IsLast(data, j) ensures j == i {
      }
    }
  }

  /** The positions of those of the first n records whose parent record is p. */
  ghost function Positions(data: seq<MenuNode>, n: nat, p: Option<MenuNode>): (at: seq<nat>)
    requires n <= |data|
    ensures forall i :: 0 <= i < |at| ==> at[i] < n
  {
    if n == 0 then [] else Positions(data, n - 1, p) + if ParentIn(data, data[n - 1]) == p then [n - 1] else []
  }

  lemma {:induction false} PositionsIff(data: seq<MenuNode>, n: nat, p: Option<MenuNode>, k: nat)
    requires n <= |data|
    ensures k in Positions(data, n, p) <==> k < n && ParentIn(data, data[k]) == p
  {
    if n > 0 {
      PositionsIff(data, n - 1, p, k);
    }
  }

  /** The children are exactly the records with this parent, each as often as it is listed, in list order. */
  lemma {:induction false} ChildrenAreListed(data: seq<MenuNode>, n: nat, p: Option<MenuNode>)
    requires n <= |data|
    ensures var at := Positions(data, n, p);
            && |at| == |ChildrenWithin(data, n, p)|
            && (forall i :: 0 <= i < |at| ==> data[at[i]] == ChildrenWithin(data, n, p)[i])
            && (forall i, j :: 0 <= i < j < |at| ==> at[i] < at[j])
  {
    if n > 0 {
      ChildrenAreListed(data, n - 1, p);
    }
  }

  /** So, in terms of the raw records: who is a child of the last record with its key, and who is a root. */
  lemma {:induction false} KidsNameTheirParent(data: seq<MenuNode>, c: MenuNode, j: nat)
    requires c in data && j < |data| && IsLast(data, j)
    ensures c in Kids(data, data[j]) <==> c.parent == Plain(data[j].pk) || c.parent == Nested(Some(data[j].pk))
    ensures c in Roots(data) <==>
            !exists i :: 0 <= i < |data| && (c.parent == Plain(data[i].pk) || c.parent == Nested(Some(data[i].pk)))
  {
    ParentIsNamed(data, c);
    var m: nat :| m < |data| && data[m] == c;
    var kids, roots := Positions(data, |data|, Some(data[j])), Positions(data, |data|, None);
    ChildrenAreListed(data, |data|, Some(data[j]));
    ChildrenAreListed(data, |data|, None);
    PositionsIff(data, |data|, Some(data[j]), m);
    PositionsIff(data, |data|, None, m);
    if m in kids {
      var i :| 0 <= i < |kids| && kids[i] == m;
      assert Kids(data, data[j])[i] == c;
    }
    if m in roots {
      var i :| 0 <= i < |roots| && roots[i] == m;
      assert Roots(data)[i] == c;
    }
    if i :| 0 <= i < |kids| && Kids(data, data[j])[i] == c {
      PositionsIff(data, |data|, Some(data[j]), kids[i]);
    }
    if i :| 0 <= i < |roots| && Roots(data)[i] == c {
      PositionsIff(data, |data|, None, roots[i]);
    }
  }

  // ----- linking in place

  /** The record has got these children on top of those it had. */
  ghost predicate Gained(n: MenuNode, children0: seq<MenuNode>, count0: Option<int>, gained: seq<MenuNode>)
    reads n
  {
    n.children == children0 + gained && n.count == if gained == [] then count0 else Some(|n.children|)
  }

  /** Links every record below its parent record, whatever the order of the list. */
  method MenuListToTree(data: seq<MenuNode>) returns (container: seq<MenuNode>)
    modifies set n | n in data
    ensures container == Roots(data)
    ensures forall n :: n in data ==> n.children == old(n.children) + Kids(data, n)
    ensures forall n :: n in data ==> n.count == if Kids(data, n) == [] then old(n.count) else Some(|n.children|)
  {
    var mapping := MappingWithin(data, |data|);
    ghost var children0: map<MenuNode, seq<MenuNode>> := map n: MenuNode | n in data :: n.children;
    ghost var count0: map<MenuNode, Option<int>> := map n: MenuNode | n in data :: n.count;
    container := PlaceRecords(data, mapping, children0, count0);
    forall n | n in data ensures Gained(n, old(n.children), old(n.count), Kids(data, n)) {
      assert Gained(n, children0[n], count0[n], Kids(data, n));
    }
  }

  method PlaceRecords(data: seq<MenuNode>, mapping: map<Id, MenuNode>,
                      ghost children0: map<MenuNode, seq<MenuNode>>, ghost count0: map<MenuNode, Option<int>>)
      returns (container: seq<MenuNode>)
    requires mapping == MappingWithin(data, |data|)
    requires forall n :: n in data ==> n in children0 && n in count0
    requires forall n :: n in data ==> n.children == children0[n] && n.count == count0[n]
    modifies set n | n in data
    ensures container == Roots(data)
    ensures forall n :: n in data ==> Gained(n, children0[n], count0[n], Kids(data, n))
  {
    container := [];
    for i := 0 to |data|
      invariant container == ChildrenWithin(data, i, None)
      invariant forall n :: n in data ==> Gained(n, children0[n], count0[n], ChildrenWithin(data, i, Some(n)))
    {
      container := PlaceRecord(data, mapping, i, container, children0, count0);
    }
  }

  /** Appends the i-th record to the child list of its parent record, or to the container. */
  method PlaceRecord(data: seq<MenuNode>, mapping: map<Id, MenuNode>, i: nat, container0: seq<MenuNode>,
                     ghost children0: map<MenuNode, seq<MenuNode>>, ghost count0: map<MenuNode, Option<int>>)
      returns (container: seq<MenuNode>)
    requires i < |data| && mapping == MappingWithin(data, |data|)
    requires forall n :: n in data ==> n in children0 && n in count0
    requires forall n :: n in data ==> Gained(n, children0[n], count0[n], ChildrenWithin(data, i, Some(n)))
    modifies set n | n in data
    ensures container == container0 + Gains(data, i, None)
    ensures forall n :: n in data ==> Gained(n, children0[n], count0[n], ChildrenWithin(data, i + 1, Some(n)))
  {
    var d := data[i];
    var key := d.parent.Key();
    container := container0;
    if key.None? || key.value !in mapping {
      container := container + [d];
      assert forall n :: n in data ==> ChildrenWithin(data, i + 1, Some(n)) == ChildrenWithin(data, i, Some(n));
    } else {
      var parent := mapping[key.value];
      assert ParentIn(data, d) == Some(parent);
      ghost var before := ChildrenWithin(data, i, Some(parent));
      Append(parent, d, children0[parent], count0[parent], before);
      assert ChildrenWithin(data, i + 1, Some(parent)) == before + [d];
      assert forall n :: n in data && n != parent ==>
                           ChildrenWithin(data, i + 1, Some(n)) == ChildrenWithin(data, i, Some(n));
    }
  }

  method Append(parent: MenuNode, d: MenuNode, ghost children0: seq<MenuNode>, ghost count0: Option<int>,
          ghost gained: seq<MenuNode>)
    requires Gained(parent, children0, count0, gained)
    modifies parent
    ensures Gained(parent, children0, count0, gained + [d])
  {
    var children := if parent.children == [] then [] else parent.children;
    children := children + [d];
    parent.children, parent.count := children, Some(|children|);
    assert children0 + (gained + [d]) == (children0 + gained) + [d];
  }

  // ----- the forest the links describe

  datatype Tree = Tree(pk: Id, kids: seq<Tree>)

  ghost predicate Distinct(data: seq<MenuNode>) {
    forall i, j :: 0 <= i < j < |data| ==> data[i].pk != data[j].pk
  }

  ghost function LinksOf(data: seq<MenuNode>): Links {
    var mapping := MappingWithin(data, |data|);
    map k | k in mapping :: mapping[k].parent.Key()
  }

  lemma {:induction false} MappingIsExact(data: seq<MenuNode>, n: nat)
    requires Distinct(data) && n <= |data|
    ensures forall i :: 0 <= i < n ==>
                          data[i].pk in MappingWithin(data, n) && MappingWithin(data, n)[data[i].pk] == data[i]
    ensures forall k :: k in MappingWithin(data, n) ==> exists i :: 0 <= i < n && data[i].pk == k
  {
    if n > 0 {
      MappingIsExact(data, n - 1);
    }
  }

  /** With distinct keys, the parent record and the parent link say the same. */
  lemma {:induction false} ParentIsUp(data: seq<MenuNode>, d: MenuNode)
    requires Distinct(data) && d in data
    ensures d.pk in LinksOf(data) && |LinksOf(data)| == |MappingWithin(data, |data|)|
    ensures ParentIn(data, d).None? <==> Up(LinksOf(data), d.pk).None?
    ensures forall p :: p in data ==> (ParentIn(data, d) == Some(p) <==> Up(LinksOf(data), d.pk) == Some(p.pk))
  {
    MappingIsExact(data, |data|);
    assert LinksOf(data).Keys == MappingWithin(data, |data|).Keys;
    var i :| 0 <= i < |data| && data[i] == d;
  }

  /** How many more levels can hang below d. */
  ghost function Room(data: seq<MenuNode>, d: MenuNode): nat
    requires Distinct(data) && d in data && Grounded(LinksOf(data), d.pk)
  {
    ParentIsUp(data, d);
    DepthAbove(LinksOf(data), d.pk);
    |LinksOf(data)| - Depth(LinksOf(data), d.pk)
  }

  /** p stands for a grounded record, or for "no parent". */
  ghost predicate GoodParent(data: seq<MenuNode>, p: Option<MenuNode>)
    requires Distinct(data)
  {
    p.Some? ==> p.value in data && Grounded(LinksOf(data), p.value.pk)
  }

  ghost function RoomUnder(data: seq<MenuNode>, p: Option<MenuNode>): nat
    requires Distinct(data) && GoodParent(data, p)
  {
    if p.Some? then Room(data, p.value) else |LinksOf(data)| + 1
  }

  lemma {:induction false} ChildIsGood(data: seq<MenuNode>, p: Option<MenuNode>, c: MenuNode)
    requires Distinct(data) && GoodParent(data, p) && c in data && ParentIn(data, c) == p
    ensures Grounded(LinksOf(data), c.pk) && Room(data, c) < RoomUnder(data, p)
    ensures Up(LinksOf(data), c.pk) == if p.Some? then Some(p.value.pk) else None
  {
    var links := LinksOf(data);
    ParentIsUp(data, c);
    assert Climb(links, c.pk, 1) == Up(links, c.pk);
    if p.Some? {
      var n: nat :| Climb(links, p.value.pk, n).None?;
      ClimbAdd(links, c.pk, 1, n);
      DepthAbove(links, p.value.pk);
      ParentIsUp(data, p.value);
    }
    DepthAbove(links, c.pk);
  }

  /** The tree below a record, by recursion over the parent links alone. */
  ghost function TreeOf(data: seq<MenuNode>, d: MenuNode): Tree
    requires Distinct(data) && GoodParent(data, Some(d))
    decreases RoomUnder(data, Some(d)), |data| + 1
  {
    Tree(d.pk, TreesUnder(data, Some(d), |data|))
  }

  /** The trees of those of the first n records whose parent is p, in list order. */
  ghost function TreesUnder(data: seq<MenuNode>, p: Option<MenuNode>, n: nat): (trees: seq<Tree>)
    requires Distinct(data) && GoodParent(data, p) && n <= |data|
    ensures |trees| == |ChildrenWithin(data, n, p)|
    decreases RoomUnder(data, p), n
  {
    if n == 0 then []
    else if ParentIn(data, data[n - 1]) == p then
      ChildIsGood(data, p, data[n - 1]);
      TreesUnder(data, p, n - 1) + [TreeOf(data, data[n - 1])]
    else TreesUnder(data, p, n - 1)
  }

  /** The forest that the parent links describe, roots and siblings in list order. */
  ghost function Forest(data: seq<MenuNode>): seq<Tree>
    requires Distinct(data)
  {
    TreesUnder(data, None, |data|)
  }

  function Flatten(t: Tree): seq<Id> {
    [t.pk] + FlattenAll(t.kids)
  }

  function FlattenAll(ts: seq<Tree>): seq<Id> {
    if ts == [] then [] else FlattenAll(ts[..|ts| - 1]) + Flatten(ts[|ts| - 1])
  }

  /** x is the key a or lies below it. */
  ghost predicate Under(links: Links, a: Id, x: Id) {
    x == a || Below(links, a, x)
  }

  /** x is one of the first n records with parent p, or below one. */
  ghost predicate UnderOneOf(data: seq<MenuNode>, p: Option<MenuNode>, n: nat, x: Id)
    requires Distinct(data) && n <= |data|
  {
    n > 0 &&
    (UnderOneOf(data, p, n - 1, x) || (ParentIn(data, data[n - 1]) == p && Under(LinksOf(data), data[n - 1].pk, x)))
  }

  lemma {:induction false} UnderWhich(data: seq<MenuNode>, p: Option<MenuNode>, n: nat, x: Id)
    requires Distinct(data) && n <= |data|
    ensures UnderOneOf(data, p, n, x) <==>
            exists i :: 0 <= i < n && ParentIn(data, data[i]) == p && Under(LinksOf(data), data[i].pk, x)
  {
    if n > 0 {
      UnderWhich(data, p, n - 1, x);
    }
  }

  /** What one more record adds is new. */
  lemma {:induction false} UnderOnlyOne(data: seq<MenuNode>, p: Option<MenuNode>, n: nat, x: Id)
    requires Distinct(data) && GoodParent(data, p) && n < |data| && ParentIn(data, data[n]) == p
    ensures !(UnderOneOf(data, p, n, x) && Under(LinksOf(data), data[n].pk, x))
  {
    UnderWhich(data, p, n, x);
    if i :| 0 <= i < n && ParentIn(data, data[i]) == p && Under(LinksOf(data), data[i].pk, x) {
      ChildIsGood(data, p, data[i]);
      ChildIsGood(data, p, data[n]);
      SiblingsApart(LinksOf(data), data[i].pk, data[n].pk, x);
    }
  }

  lemma {:induction false} UnderKidIsBelow(data: seq<MenuNode>, d: MenuNode, x: Id)
    requires Distinct(data) && d in data
    ensures UnderOneOf(data, Some(d), |data|, x) <==> Below(LinksOf(data), d.pk, x)
  {
    var links := LinksOf(data);
    UnderWhich(data, Some(d), |data|, x);
    BelowViaChild(links, d.pk, x);
    if c :| Up(links, c) == Some(d.pk) && Under(links, c, x) {
      MappingIsExact(data, |data|);
      var i :| 0 <= i < |data| && data[i].pk == c;
      ParentIsUp(data, data[i]);
    }
    if i :| 0 <= i < |data| && ParentIn(data, data[i]) == Some(d) && Under(links, data[i].pk, x) {
      ParentIsUp(data, data[i]);
    }
  }

  lemma {:induction false} FlattenAppend(ts: seq<Tree>, t: Tree, x: Id)
    ensures multiset(FlattenAll(ts + [t]))[x] == multiset(FlattenAll(ts))[x] + multiset(Flatten(t))[x]
  {
    assert (ts + [t])[..|ts|] == ts;
  }

  lemma {:induction false} TreeHolds(data: seq<MenuNode>, d: MenuNode, x: Id)
    requires Distinct(data) && GoodParent(data, Some(d))
    ensures multiset(Flatten(TreeOf(data, d)))[x] == if Under(LinksOf(data), d.pk, x) then 1 else 0
    decreases RoomUnder(data, Some(d)), |data| + 1
  {
    var kids := FlattenAll(TreesUnder(data, Some(d), |data|));
    TreesHold(data, Some(d), |data|, x);
    UnderKidIsBelow(data, d, x);
    GroundedNotOnCycle(LinksOf(data), d.pk);
    assert multiset([d.pk] + kids)[x] == multiset([d.pk])[x] + multiset(kids)[x];
  }

  lemma {:induction false} TreesHold(data: seq<MenuNode>, p: Option<MenuNode>, n: nat, x: Id)
    requires Distinct(data) && GoodParent(data, p) && n <= |data|
    ensures multiset(FlattenAll(TreesUnder(data, p, n)))[x] == if UnderOneOf(data, p, n, x) then 1 else 0
    decreases RoomUnder(data, p), n
  {
    if n > 0 {
      var c := data[n - 1];
      TreesHold(data, p, n - 1, x);
      if ParentIn(data, c) == p {
        UnderOnlyOne(data, p, n - 1, x);
        ChildIsGood(data, p, c);
        TreeHolds(data, c, x);
        assert TreesUnder(data, p, n) == TreesUnder(data, p, n - 1) + [TreeOf(data, c)];
        FlattenAppend(TreesUnder(data, p, n - 1), TreeOf(data, c), x);
      } else {
        assert TreesUnder(data, p, n) == TreesUnder(data, p, n - 1);
      }
    }
  }

  /**
    Every record whose parent chain leaves the list is in the forest exactly once, and no other record
    is: those on a cycle, or below one, are lost.
   */
  lemma {:induction false} EachGroundedRecordOnce(data: seq<MenuNode>)
    requires Distinct(data)
    ensures forall k :: multiset(FlattenAll(Forest(data)))[k] ==
                        if k in LinksOf(data) && Grounded(LinksOf(data), k) then 1 else 0
  {
    var links := LinksOf(data);
    forall k ensures multiset(FlattenAll(Forest(data)))[k] == if k in links && Grounded(links, k) then 1 else 0 {
      TreesHold(data, None, |data|, k);
      UnderRootIffGrounded(data, k);
    }
  }

  /** The forest has every record exactly when the parent links are acyclic. */
  lemma {:induction false} CompleteIffAcyclic(data: seq<MenuNode>)
    requires Distinct(data)
    ensures Acyclic(LinksOf(data)) <==> forall i :: 0 <= i < |data| ==> data[i].pk in FlattenAll(Forest(data))
  {
    var links, keys := LinksOf(data), FlattenAll(Forest(data));
    EachGroundedRecordOnce(data);
    assert forall k :: k in keys <==> multiset(keys)[k] > 0;
    MappingIsExact(data, |data|);
    assert links.Keys == MappingWithin(data, |data|).Keys;
    if Acyclic(links) {
      forall i | 0 <= i < |data| ensures data[i].pk in keys {
        assert Grounded(links, data[i].pk);
      }
    }
    if forall i :: 0 <= i < |data| ==> data[i].pk in keys {
      forall k ensures Grounded(links, k) {
        if k in links {
          var i :| 0 <= i < |data| && data[i].pk == k;
        } else {
          assert Climb(links, k, 1).None?;
        }
      }
    }
  }

  lemma {:induction false} UnderRootIffGrounded(data: seq<MenuNode>, k: Id)
    requires Distinct(data)
    ensures UnderOneOf(data, None, |data|, k) <==> k in LinksOf(data) && Grounded(LinksOf(data), k)
  {
    UnderWhich(data, None, |data|, k);
    if i :| 0 <= i < |data| && ParentIn(data, data[i]).None? && Under(LinksOf(data), data[i].pk, k) {
      UnderRootIsGrounded(data, data[i], k);
    }
    if k in LinksOf(data) && Grounded(LinksOf(data), k) {
      var i := RootAbove(data, k);
    }
  }

  lemma {:induction false} UnderRootIsGrounded(data: seq<MenuNode>, r: MenuNode, k: Id)
    requires Distinct(data) && r in data && ParentIn(data, r).None? && Under(LinksOf(data), r.pk, k)
    ensures k in LinksOf(data) && Grounded(LinksOf(data), k)
  {
    var links := LinksOf(data);
    ParentIsUp(data, r);
    ChildIsGood(data, None, r);
    if k != r.pk {
      var n: nat :| n > 0 && Climb(links, k, n) == Some(r.pk);
      ClimbStays(links, k, n);
      assert Climb(links, k, n + 1).None?;
    }
  }

  lemma {:induction false} RootAbove(data: seq<MenuNode>, k: Id) returns (i: nat)
    requires Distinct(data) && k in LinksOf(data) && Grounded(LinksOf(data), k)
    ensures i < |data| && ParentIn(data, data[i]).None? && Under(LinksOf(data), data[i].pk, k)
  {
    var links := LinksOf(data);
    DepthAbove(links, k);
    var n := Depth(links, k) - 1;
    var a := Climb(links, k, n).value;
    assert Up(links, a) == Climb(links, k, n + 1);
    if n > 0 {
      ClimbStays(links, k, n);
      assert Below(links, a, k);
    }
    MappingIsExact(data, |data|);
    i :| 0 <= i < |data| && data[i].pk == a;
    ParentIsUp(data, data[i]);
  }

  // ----- the linked records are that forest

  ghost predicate Linked(data: seq<MenuNode>)
    reads set n | n in data
  {
    forall n :: n in data ==>
                  && n.children == Kids(data, n)
                  && n.count == if Kids(data, n) == [] then None else Some(|Kids(data, n)|)
  }

  /** Following child references from the record unfolds exactly this tree, with the right counts. */
  ghost predicate Shows(data: seq<MenuNode>, node: MenuNode, t: Tree)
    reads set n | n in data
    decreases t
  {
    && node in data && node.pk == t.pk
    && |node.children| == |t.kids|
    && node.count == (if t.kids == [] then None else Some(|t.kids|))
    && forall i :: 0 <= i < |t.kids| ==> Shows(data, node.children[i], t.kids[i])
  }

  /** The i-th child of p and the i-th tree under p come from the same record. */
  lemma {:induction false} NthChild(data: seq<MenuNode>, p: Option<MenuNode>, n: nat, i: nat) returns (c: MenuNode)
    requires Distinct(data) && GoodParent(data, p) && n <= |data| && i < |ChildrenWithin(data, n, p)|
    ensures c in data && ParentIn(data, c) == p && c == ChildrenWithin(data, n, p)[i]
    ensures GoodParent(data, Some(c)) && RoomUnder(data, Some(c)) < RoomUnder(data, p)
    ensures TreesUnder(data, p, n)[i] == TreeOf(data, c)
    decreases n
  {
    var d := data[n - 1];
    var trees := TreesUnder(data, p, n - 1);
    if ParentIn(data, d) == p {
      ChildIsGood(data, p, d);
      assert TreesUnder(data, p, n) == trees + [TreeOf(data, d)];
      assert ChildrenWithin(data, n, p) == ChildrenWithin(data, n - 1, p) + [d];
      if i == |trees| {
        return d;
      }
    } else {
      assert TreesUnder(data, p, n) == trees;
      assert ChildrenWithin(data, n, p) == ChildrenWithin(data, n - 1, p);
    }
    c := NthChild(data, p, n - 1, i);
  }

  /** After linking, child references unfold the very tree that the parent links describe. */
  lemma {:induction false} LinkedShowsTree(data: seq<MenuNode>, d: MenuNode)
    requires Distinct(data) && GoodParent(data, Some(d)) && Linked(data)
    ensures Shows(data, d, TreeOf(data, d))
    decreases RoomUnder(data, Some(d))
  {
    forall i | 0 <= i < |Kids(data, d)| ensures Shows(data, Kids(data, d)[i], TreesUnder(data, Some(d), |data|)[i]) {
      var c := NthChild(data, Some(d), |data|, i);
      LinkedShowsTree(data, c);
    }
  }

  // ----- routes

  /** A root record as it is sent out: itself, or, when nothing hangs below it, inside a new route. */
  datatype Route = Direct(node: MenuNode) | Wrapped(path: string, title: string, node: MenuNode)

  method FormatMenuData(data: seq<MenuNode>) returns (routes: seq<Route>)
    ensures |routes| == |data|
    ensures forall i :: 0 <= i < |data| ==> routes[i].node == data[i]
    ensures forall i :: 0 <= i < |data| ==> (routes[i].Direct? <==> data[i].count.Some? && data[i].count.value >= 1)
    ensures forall i :: 0 <= i < |data| && routes[i].Wrapped? ==>
              routes[i].path == "/default" + data[i].path && routes[i].title == data[i].title
  {
    routes := [];
    for i := 0 to |data|
      invariant |routes| == i
      invariant forall j :: 0 <= j < i ==>
                  routes[j] == if data[j].count.Some? && data[j].count.value >= 1 then Direct(data[j])
                               else Wrapped("/default" + data[j].path, data[j].title, data[j])
    {
      var d := data[i];
      var count := if d.count.Some? then d.count.value else -1;
      var route := if count < 1 then Wrapped("/default" + d.path, d.title, d) else Direct(d);
      routes := routes + [route];
    }
  }

  /**
    The menu as the client gets it: one route per root of the forest, each leading to all of its tree,
    and wrapped exactly when the root has no children.
   */
  method UserRoutes(data: seq<MenuNode>) returns (routes: seq<Route>)
    requires Distinct(data) && forall n :: n in data ==> n.children == [] && n.count == None
    modifies set n | n in data
    ensures |routes| == |Forest(data)|
    ensures forall i :: 0 <= i < |routes| ==> Shows(data, routes[i].node, Forest(data)[i])
    ensures forall i :: 0 <= i < |routes| ==> (routes[i].Wrapped? <==> Forest(data)[i].kids == [])
  {
    var container := MenuListToTree(data);
    assert Linked(data);
    routes := FormatMenuData(container);
    forall i | 0 <= i < |routes| ensures Shows(data, routes[i].node, Forest(data)[i]) {
      var root := NthChild(data, None, |data|, i);
      LinkedShowsTree(data, root);
      assert routes[i].node == container[i];
    }
  }
}
