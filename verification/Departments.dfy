/**
  The department hierarchy: the recursive closure over parent links, in both directions and over one
  shared list, and the serializer that uses it to refuse a parent that would close a cycle.
 */
module Departments {
  import opened Wrappers
  import opened ParentLinks

  datatype Mode = OR | AND

  datatype Dept = Dept(parent: Option<Id>, mode: Mode, isActive: bool)

  type Rows = map<Id, Dept>

  function ParentsOf(rows: Rows): Links {
    map k | k in rows :: rows[k].parent
  }

  /** The foreign key of the parent column holds. */
  ghost predicate Closed(rows: Rows) {
    forall k :: k in rows && rows[k].parent.Some? ==> rows[k].parent.value in rows
  }

  // ----- recursive closure

  /** The list that one outermost call and all its recursive calls append to. */
  class DeptList {
    var items: seq<Id>

    constructor (id: Id)
      ensures items == [id]
    {
      items := [id];
    }
  }

  /** x is reached from id: an ancestor of it, or a descendant. */
  ghost predicate Reached(rows: Rows, id: Id, isParent: bool, x: Id) {
    if isParent then Below(ParentsOf(rows), x, id) else Below(ParentsOf(rows), id, x)
  }

  /** The row k makes the call for id append `next` and recurse on it. */
  ghost predicate Leads(rows: Rows, id: Id, isParent: bool, k: Id, next: Id) {
    k in rows &&
    if isParent then k == id && rows[k].parent == Some(next) else next == k && rows[k].parent == Some(id)
  }

  ghost predicate ReachedVia(rows: Rows, id: Id, isParent: bool, visited: set<Id>, x: Id) {
    exists k, next :: k in visited && Leads(rows, id, isParent, k, next) &&
                      (x == next || Reached(rows, next, isParent, x))
  }

  lemma {:induction false} ReachedViaAll(rows: Rows, id: Id, isParent: bool, x: Id)
    requires Closed(rows)
    ensures ReachedVia(rows, id, isParent, rows.Keys, x) <==> Reached(rows, id, isParent, x)
  {
    var links := ParentsOf(rows);
    assert forall k :: Up(links, k) == if k in rows then rows[k].parent else None;
    if isParent {
      BelowViaParent(links, x, id);
      if Reached(rows, id, isParent, x) {
        assert Leads(rows, id, isParent, id, Up(links, id).value);
      }
    } else {
      BelowViaChild(links, id, x);
      if c :| Up(links, c) == Some(id) && (x == c || Below(links, c, x)) {
        assert Leads(rows, id, isParent, c, c);
      }
    }
  }

  /** What one more row adds to the reached set. */
  lemma {:induction false} ReachedViaOneMore(rows: Rows, id: Id, isParent: bool, visited: set<Id>, k: Id, x: Id)
    ensures ReachedVia(rows, id, isParent, visited + {k}, x) <==>
            ReachedVia(rows, id, isParent, visited, x) ||
            exists next :: Leads(rows, id, isParent, k, next) && (x == next || Reached(rows, next, isParent, x))
  {
    if k', next :| k' in visited + {k} && Leads(rows, id, isParent, k', next) &&
                   (x == next || Reached(rows, next, isParent, x)) {
      if k' != k {
        assert k' in visited;
      }
    }
  }

  /** How many more levels the recursion can go down. */
  ghost function LevelsLeft(rows: Rows, id: Id, isParent: bool): int
    requires Acyclic(ParentsOf(rows))
  {
    var links := ParentsOf(rows);
    assert Grounded(links, id);
    if isParent then Depth(links, id) else |links| + 1 - Depth(links, id)
  }

  lemma {:induction false} LevelsLeftDecreases(rows: Rows, id: Id, isParent: bool, k: Id, next: Id)
    requires Acyclic(ParentsOf(rows)) && Closed(rows) && Leads(rows, id, isParent, k, next)
    ensures 0 <= LevelsLeft(rows, next, isParent) < LevelsLeft(rows, id, isParent)
  {
    var links := ParentsOf(rows);
    assert Grounded(links, id) && Grounded(links, next);
    DepthAbove(links, id);
    DepthAbove(links, next);
  }

  method Collect(rows: Rows, id: Id, isParent: bool, list: DeptList)
    requires Acyclic(ParentsOf(rows)) && Closed(rows)
    modifies list
    ensures forall x :: x in list.items <==> x in old(list.items) || Reached(rows, id, isParent, x)
    decreases LevelsLeft(rows, id, isParent)
  {
    ghost var before := list.items;
    var todo := rows.Keys;
    while todo != {}
      invariant todo <= rows.Keys
      invariant forall x :: x in list.items <==> x in before || ReachedVia(rows, id, isParent, rows.Keys - todo, x)
      decreases |todo|
    {
      var k :| k in todo;
      ghost var visited := rows.Keys - todo;
      label Visit:
      var next := if isParent then (if k == id then rows[k].parent else None)
                  else if rows[k].parent == Some(id) then Some(k) else None;
      if next.Some? {
        LevelsLeftDecreases(rows, id, isParent, k, next.value);
        list.items := list.items + [next.value];
        Collect(rows, next.value, isParent, list);
      }
      forall x ensures x in list.items <==> x in before || ReachedVia(rows, id, isParent, visited + {k}, x) {
        ReachedViaOneMore(rows, id, isParent, visited, k, x);
        assert x in list.items <==>
          (x in old@Visit(list.items) || (next.Some? && (x == next.value || Reached(rows, next.value, isParent, x))));
        assert forall n :: Leads(rows, id, isParent, k, n) <==> next == Some(n);
      }
      todo := todo - {k};
      assert rows.Keys - todo == visited + {k};
    }
    forall x ensures x in list.items <==> x in before || Reached(rows, id, isParent, x) {
      ReachedViaAll(rows, id, isParent, x);
      assert rows.Keys - todo == rows.Keys;
    }
  }

  /** The department itself with all its descendants, or with all its ancestors. */
  method RecursionDeptInfo(rows: Rows, id: Id, isParent: bool) returns (closure: set<Id>)
    requires Acyclic(ParentsOf(rows)) && Closed(rows)
    ensures forall x :: x in closure <==> x == id || Reached(rows, id, isParent, x)
  {
    var list := new DeptList(id);
    Collect(rows, id, isParent, list);
    closure := set x | x in list.items;
  }

  /** Calling the closure in the two directions answers the same question from both ends. */
  method DownAndUp(rows: Rows, a: Id, d: Id) returns (down: bool, up: bool)
    requires Acyclic(ParentsOf(rows)) && Closed(rows)
    ensures down == up
    ensures down <==> a == d || Below(ParentsOf(rows), a, d)
  {
    var descendants := RecursionDeptInfo(rows, a, false);
    var ancestors := RecursionDeptInfo(rows, d, true);
    down, up := d in descendants, a in ancestors;
  }

  // ----- create, update and delete requests

  type User(==, !new)

  /** The department table and the department of every user. */
  datatype Organisation = Organisation(rows: Rows, users: map<User, Option<Id>>)

  datatype ParentField = Absent | Given(parent: Option<Id>)

  datatype Request =
    | Create(pk: Id, dept: Dept, field: ParentField)
    | Update(pk: Id, field: ParentField)
    | Delete(pk: Id)
    | MoveUser(who: User, dept': Option<Id>)

  datatype DeptError = UnknownDepartment | DuplicateKey | OwnSubordinate | Protected

  ghost predicate Valid(org: Organisation) {
    && Closed(org.rows)
    && (forall u :: u in org.users && org.users[u].Some? ==> org.users[u].value in org.rows)
    && Acyclic(ParentsOf(org.rows))
  }

  function DeptOf(org: Organisation, user: User): Option<Id> {
    if user in org.users then org.users[user] else None
  }

  /** `validate`: a request that leaves the department without a parent gets the user's department. */
  function Validated(field: ParentField, stored: Option<Id>, userDept: Option<Id>): ParentField {
    var parent := if field.Given? then field.parent else stored;
    if parent.None? then Given(userDept) else field
  }

  function HasChild(rows: Rows, pk: Id): bool {
    exists k :: k in rows && rows[k].parent == Some(pk)
  }

  function HasMember(org: Organisation, pk: Id): bool {
    exists u :: u in org.users && org.users[u] == Some(pk)
  }

  function Known(rows: Rows, field: ParentField): bool {
    field.Given? && field.parent.Some? ==> field.parent.value in rows
  }

  /** The effect of one request by one user. */
  ghost function Applied(org: Organisation, user: User, r: Request): Result<Organisation, DeptError> {
    match r
    case Create(pk, dept, field) =>
      if !Known(org.rows, field) then Failure(UnknownDepartment)
      else if pk in org.rows then Failure(DuplicateKey)
      else
        var f := Validated(field, None, DeptOf(org, user));
        Success(org.(rows := org.rows[pk := dept.(parent := if f.Given? then f.parent else None)]))
    case Update(pk, field) =>
      if pk !in org.rows || !Known(org.rows, field) then Failure(UnknownDepartment)
      else
        var f := Validated(field, org.rows[pk].parent, DeptOf(org, user));
        if f.Given? && f.parent.Some? && (f.parent.value == pk || Below(ParentsOf(org.rows), pk, f.parent.value))
        then Failure(OwnSubordinate)
        else if f.Given? then Success(org.(rows := org.rows[pk := org.rows[pk].(parent := f.parent)]))
        else Success(org)
    case Delete(pk) =>
      if pk !in org.rows then Failure(UnknownDepartment)
      else if HasChild(org.rows, pk) || HasMember(org, pk) then Failure(Protected)
      else Success(org.(rows := org.rows - {pk}))
    case MoveUser(who, dept) =>
      if dept.Some? && dept.value !in org.rows then Failure(UnknownDepartment)
      else Success(org.(users := org.users[who := dept]))
  }

  /** What the request names as the parent is the department that its user belongs to. */
  ghost predicate FillsIn(org: Organisation, user: User, field: ParentField, stored: Option<Id>, a: Id) {
    (field == Given(None) || (field == Absent && stored == None)) && user in org.users && org.users[user] == Some(a)
  }

  /**
    When a request is accepted: a parent that is named must exist; an update must not put a department
    below itself; only a department without children and members can be deleted.
   */
  lemma {:induction false} AcceptedIff(org: Organisation, user: User, r: Request)
    ensures Applied(org, user, r).Success? <==>
            match r
            case Create(pk, _, field) => pk !in org.rows && forall a :: field == Given(Some(a)) ==> a in org.rows
            case Update(pk, field) =>
              && pk in org.rows && (forall a :: field == Given(Some(a)) ==> a in org.rows)
              && (forall a :: field == Given(Some(a)) || FillsIn(org, user, field, org.rows[pk].parent, a) ==>
                    a != pk && !Below(ParentsOf(org.rows), pk, a))
            case Delete(pk) =>
              && pk in org.rows && (forall k :: k in org.rows ==> org.rows[k].parent != Some(pk))
              && forall u :: u in org.users ==> org.users[u] != Some(pk)
            case MoveUser(_, dept) => forall d :: dept == Some(d) ==> d in org.rows
  {
  }

  /** What an accepted request stores. */
  lemma {:induction false} StoresParent(org: Organisation, user: User, pk: Id, dept: Dept, field: ParentField)
    ensures var created := Applied(org, user, Create(pk, dept, field));
            created.Success? ==>
              && created.value.users == org.users && created.value.rows.Keys == org.rows.Keys + {pk}
              && (forall k :: k in org.rows && k != pk ==> created.value.rows[k] == org.rows[k])
              && created.value.rows[pk].mode == dept.mode && created.value.rows[pk].isActive == dept.isActive
              && created.value.rows[pk].parent ==
                 (if field.Given? && field.parent.Some? then field.parent
                  else if user in org.users then org.users[user] else None)
    ensures var updated := Applied(org, user, Update(pk, field));
            updated.Success? ==>
              && pk in org.rows
              && updated.value.users == org.users && updated.value.rows.Keys == org.rows.Keys
              && (forall k :: k in org.rows && k != pk ==> updated.value.rows[k] == org.rows[k])
              && updated.value.rows[pk].mode == org.rows[pk].mode
              && updated.value.rows[pk].isActive == org.rows[pk].isActive
              && updated.value.rows[pk].parent ==
                 (if field.Given? && field.parent.Some? then field.parent
                  else if field.Absent? && org.rows[pk].parent.Some? then org.rows[pk].parent
                  else if user in org.users then org.users[user] else None)
    ensures var deleted := Applied(org, user, Delete(pk));
            deleted.Success? ==> deleted.value == Organisation(org.rows - {pk}, org.users)
    ensures forall who, to :: var moved := Applied(org, user, MoveUser(who, to));
              moved.Success? ==> moved.value == Organisation(org.rows, org.users[who := to])
  {
  }

  lemma {:induction false} ApplyKeepsValid(org: Organisation, user: User, r: Request)
    requires Valid(org)
    ensures Applied(org, user, r).Success? ==> Valid(Applied(org, user, r).value)
  {
    var result := Applied(org, user, r);
    if result.Success? && !r.MoveUser? {
      var links, links' := ParentsOf(org.rows), ParentsOf(result.value.rows);
      assert forall x :: Up(links, x) == if x in org.rows then org.rows[x].parent else None;
      assert Closed(result.value.rows);
      assert forall x :: Up(links', x) == if x in result.value.rows then result.value.rows[x].parent else None;
      assert AgreeOff(links, links', r.pk);
      RegraftIff(links, links', r.pk);
      if r.Create? && Up(links', r.pk).Some? {
        NothingBelowNewcomer(links, r.pk, Up(links', r.pk).value);
      }
      if r.Update? && result.value == org {
        assert links' == links;
      }
    }
  }

  lemma {:induction false} NothingBelowNewcomer(links: Links, newcomer: Id, p: Id)
    requires newcomer !in links && p in links
    ensures p != newcomer && !Below(links, newcomer, p)
  {
    forall n: nat | n > 0 ensures Climb(links, p, n) != Some(newcomer) {
      if Climb(links, p, n).Some? {
        ClimbStays(links, p, n);
      }
    }
  }

  /**
    The guard is exact: among updates of a known department that name a known parent, precisely those
    that would close a cycle are refused.
   */
  lemma {:induction false} GuardIsExact(org: Organisation, user: User, pk: Id, field: ParentField)
    requires Valid(org) && pk in org.rows && Known(org.rows, field)
    ensures var f := Validated(field, org.rows[pk].parent, DeptOf(org, user));
            var moved := if f.Given? then org.rows[pk := org.rows[pk].(parent := f.parent)] else org.rows;
            Applied(org, user, Update(pk, field)) ==
              if Acyclic(ParentsOf(moved)) then Success(org.(rows := moved)) else Failure(OwnSubordinate)
  {
    var f := Validated(field, org.rows[pk].parent, DeptOf(org, user));
    if f.Given? {
      var moved := org.rows[pk := org.rows[pk].(parent := f.parent)];
      var links, links' := ParentsOf(org.rows), ParentsOf(moved);
      assert forall x :: Up(links, x) == if x in org.rows then org.rows[x].parent else None;
      assert forall x :: Up(links', x) == if x in moved then moved[x].parent else None;
      RegraftIff(links, links', pk);
    }
  }

  /** The state after a list of requests; a refused request changes nothing. */
  ghost function Replay(org: Organisation, requests: seq<(User, Request)>): Organisation {
    if requests == [] then org
    else
      var before := Replay(org, requests[..|requests| - 1]);
      var (user, r) := requests[|requests| - 1];
      match Applied(before, user, r)
      case Success(after) => after
      case Failure(_) => before
  }

  /** No sequence of requests ever makes the hierarchy cyclic, so the recursion always ends. */
  lemma {:induction false} RunsStayForest(org: Organisation, requests: seq<(User, Request)>)
    requires Valid(org)
    ensures Valid(Replay(org, requests))
    ensures forall k :: !OnCycle(ParentsOf(Replay(org, requests).rows), k)
  {
    if requests != [] {
      var init, last := requests[..|requests| - 1], requests[|requests| - 1];
      RunsStayForest(org, init);
      ApplyKeepsValid(Replay(org, init), last.0, last.1);
    }
    AcyclicIffNoCycle(ParentsOf(Replay(org, requests).rows));
  }

  predicate Writes(r: Request, k: Id) {
    (r.Create? || r.Update?) && r.pk == k
  }

  /** Every department that is created or updated is so by a user who belongs to a department. */
  ghost predicate ByMembers(org: Organisation, requests: seq<(User, Request)>) {
    requests != [] ==>
      var init := requests[..|requests| - 1];
      var (user, r) := requests[|requests| - 1];
      ByMembers(org, init) && (r.Create? || r.Update? ==> DeptOf(Replay(org, init), user).Some?)
  }

  /** Users who belong to a department never make a department that has no parent. */
  lemma {:induction false} NoNewRoots(org: Organisation, requests: seq<(User, Request)>, k: Id)
    requires ByMembers(org, requests) && k in Replay(org, requests).rows
    ensures Replay(org, requests).rows[k].parent.None? ==> k in org.rows && org.rows[k].parent.None?
  {
    if requests != [] {
      var init := requests[..|requests| - 1];
      var (user, r) := requests[|requests| - 1];
      if !(Writes(r, k) && Applied(Replay(org, init), user, r).Success?) {
        NoNewRoots(org, init, k);
      }
    }
  }

  ghost predicate IsOnlyRoot(rows: Rows, pk: Id) {
    forall k :: k in rows ==> (rows[k].parent.None? <==> k == pk)
  }

  /**
    A department cannot be updated by a user, whatever the request says about its parent, exactly if it is
    the only one without a parent and the user belongs to a department: then every parent that is named
    or filled in is below it.
   */
  lemma {:induction false} OnlyRootIsFrozen(org: Organisation, user: User, pk: Id)
    requires Valid(org) && pk in org.rows
    ensures (forall field :: Applied(org, user, Update(pk, field)).Failure?) <==>
            IsOnlyRoot(org.rows, pk) && DeptOf(org, user).Some?
  {
    if IsOnlyRoot(org.rows, pk) && DeptOf(org, user).Some? {
      forall field ensures Applied(org, user, Update(pk, field)).Failure? {
        var f := Validated(field, org.rows[pk].parent, DeptOf(org, user));
        if Known(org.rows, field) {
          BelowOnlyRoot(org.rows, pk, f.parent.value);
        }
      }
    } else if org.rows[pk].parent.Some? || DeptOf(org, user).None? {
      assert Applied(org, user, Update(pk, Absent)).Success?;
    } else {
      var k :| k in org.rows && k != pk && org.rows[k].parent.None?;
      BelowViaParent(ParentsOf(org.rows), pk, k);
      assert Applied(org, user, Update(pk, Given(Some(k)))).Success?;
    }
  }

  /** An organisation of one department: its member can send no update that is accepted. */
  lemma {:induction false} OneDepartmentIsFrozen(pk: Id, mode: Mode, user: User, field: ParentField)
    ensures var org := Organisation(map[pk := Dept(None, mode, true)], map[user := Some(pk)]);
            && Valid(org) && Applied(org, user, Update(pk, field)).Failure?
            && Applied(org, user, Update(pk, Absent)) == Failure(OwnSubordinate)
  {
    var org := Organisation(map[pk := Dept(None, mode, true)], map[user := Some(pk)]);
    forall k ensures Grounded(ParentsOf(org.rows), k) {
      assert Climb(ParentsOf(org.rows), k, 1) == Up(ParentsOf(org.rows), k) == None;
    }
    OnlyRootIsFrozen(org, user, pk);
  }

  lemma {:induction false} BelowOnlyRoot(rows: Rows, root: Id, x: Id)
    requires Closed(rows) && Acyclic(ParentsOf(rows)) && x in rows
    requires IsOnlyRoot(rows, root)
    ensures x == root || Below(ParentsOf(rows), root, x)
    decreases Depth(ParentsOf(rows), x)
  {
    if x != root {
      DepthAbove(ParentsOf(rows), x);
      BelowOnlyRoot(rows, root, rows[x].parent.value);
      BelowViaParent(ParentsOf(rows), root, x);
    }
  }

  /** The table behind the department view set. */
  class DeptStore {
    var rows: Rows
    var users: map<User, Option<Id>>

    ghost function Snapshot(): Organisation
      reads this
    {
      Organisation(rows, users)
    }

    constructor ()
      ensures Snapshot() == Organisation(map[], map[]) && Valid(Snapshot())
    {
      rows, users := map[], map[];
      new;
      forall k ensures Grounded(ParentsOf(rows), k) {
        assert Climb(ParentsOf(rows), k, 1).None?;
      }
    }

    method Serve(user: User, r: Request) returns (error: Option<DeptError>)
      requires Valid(Snapshot())
      modifies this
      ensures Valid(Snapshot())
      ensures match Applied(old(Snapshot()), user, r)
              case Success(after) => error == None && Snapshot() == after
              case Failure(e) => error == Some(e) && Snapshot() == old(Snapshot())
    {
      ApplyKeepsValid(Snapshot(), user, r);
      var userDept := if user in users then users[user] else None;
      error := None;
      match r {
        case Create(pk, dept, field) =>
          if !Known(rows, field) {
            error := Some(UnknownDepartment);
          } else if pk in rows {
            error := Some(DuplicateKey);
          } else {
            var f := Validate(field, None, userDept);
            rows := rows[pk := dept.(parent := if f.Given? then f.parent else None)];
          }
        case Update(pk, field) =>
          if pk !in rows || !Known(rows, field) {
            error := Some(UnknownDepartment);
          } else {
            var f := Validate(field, rows[pk].parent, userDept);
            error := UpdateInstance(pk, f);
          }
        case Delete(pk) =>
          if pk !in rows {
            error := Some(UnknownDepartment);
          } else if HasChild(rows, pk) || HasMember(Organisation(rows, users), pk) {
            error := Some(Protected);
          } else {
            rows := rows - {pk};
          }
        case MoveUser(who, dept) =>
          if dept.Some? && dept.value !in rows {
            error := Some(UnknownDepartment);
          } else {
            users := users[who := dept];
          }
      }
    }

    method Validate(field: ParentField, stored: Option<Id>, userDept: Option<Id>) returns (attrs: ParentField)
      ensures attrs == Validated(field, stored, userDept)
    {
      attrs := field;
      var parent := if field.Given? then field.parent else stored;
      if parent.None? {
        attrs := Given(userDept);
      }
    }

    method UpdateInstance(pk: Id, attrs: ParentField) returns (error: Option<DeptError>)
      requires pk in rows && Closed(rows) && Acyclic(ParentsOf(rows))
      modifies `rows
      ensures error == None || (error == Some(OwnSubordinate) && rows == old(rows))
      ensures error.Some? <==>
              (attrs.Given? && attrs.parent.Some? &&
               (attrs.parent.value == pk || Below(ParentsOf(old(rows)), pk, attrs.parent.value)))
      ensures error.None? ==>
                rows == if attrs.Given? then old(rows)[pk := old(rows)[pk].(parent := attrs.parent)] else old(rows)
    {
      if attrs.Given? && attrs.parent.Some? {
        var subordinates := RecursionDeptInfo(rows, pk, false);
        if attrs.parent.value in subordinates {
          return Some(OwnSubordinate);
        }
      }
      if attrs.Given? {
        rows := rows[pk := rows[pk].(parent := attrs.parent)];
      }
      return None;
    }
  }
}
