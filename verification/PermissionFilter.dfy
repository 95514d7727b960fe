/**
  The data-permission compiler: the rules granted through a user's departments and to the user
  personally, turned into one query condition, and what that condition means for a row.

  A rule's conditions are arbitrary, among them the empty condition, which a wildcard value resolves to,
  and its negation, which a rule that excludes a wildcard resolves to. Both are blank: alone they keep
  every row, and in a combination they drop out, but only the first one is recognised as empty.
 */
module PermissionFilter {
  import opened Wrappers
  import opened Lists
  import opened ParentLinks
  import opened QueryObjects
  import opened Departments

  /** A rule for a table: all rows, or the conditions that its field, match and value resolve to. */
  datatype Rule = Rule(table: string, isAll: bool, filters: seq<Q>)

  datatype Permission = Permission(mode: Mode, rules: seq<Rule>)

  // ----- what a permission grants

  predicate Concerns(table: string, r: Rule) {
    r.table == table || r.table == "*"
  }

  /** A permission with a single rule is read in OR mode. */
  function EffectiveMode(p: Permission): Mode {
    if |p.rules| == 1 then OR else p.mode
  }

  /** Some rule of an OR permission gives all rows of this table. */
  ghost predicate GivesAll(table: string, p: Permission) {
    EffectiveMode(p) == OR && exists r :: r in p.rules && Concerns(table, r) && r.isAll
  }

  /** The permission has a rule for this table; in AND mode, rules for all rows are ignored. */
  ghost predicate Applies(table: string, p: Permission) {
    exists r :: r in p.rules && Concerns(table, r) && (EffectiveMode(p) == OR || !r.isAll)
  }

  /** A rule for this table, other than one for all rows. */
  ghost predicate Restricting(table: string, p: Permission, r: Rule) {
    r in p.rules && Concerns(table, r) && !r.isAll
  }

  ghost predicate HasCondition(table: string, p: Permission, q: Q) {
    exists r :: Restricting(table, p, r) && q in r.filters
  }

  /** The compiled permission is the empty condition. */
  ghost predicate IsOpen(table: string, p: Permission) {
    if EffectiveMode(p) == OR then
      GivesAll(table, p) || HasCondition(table, p, EMPTY) || forall q :: !HasCondition(table, p, q)
    else forall q :: HasCondition(table, p, q) ==> q == EMPTY
  }

  /** The compiled permission tests nothing. */
  ghost predicate IsBlank(table: string, p: Permission) {
    IsOpen(table, p) || forall q :: HasCondition(table, p, q) ==> Blank(q)
  }

  /** The permission, compiled and taken by itself, grants the row. */
  ghost predicate Grants(table: string, p: Permission, row: Row) {
    if EffectiveMode(p) == OR then
      IsBlank(table, p) || exists q :: HasCondition(table, p, q) && !Blank(q) && Accepts(q, row)
    else forall q :: HasCondition(table, p, q) ==> Accepts(q, row)
  }

  lemma {:induction false} BlankGrants(table: string, p: Permission, row: Row)
    requires IsBlank(table, p)
    ensures Grants(table, p, row)
  {
  }

  // ----- the rules of one permission

  function Conditions(r: Rule): seq<Q> {
    if r.isAll then [EMPTY] else r.filters
  }

  function ConditionsOf(rules: seq<Rule>): seq<Q> {
    if rules == [] then [] else ConditionsOf(rules[..|rules| - 1]) + Conditions(rules[|rules| - 1])
  }

  lemma {:induction false} ConditionsOfHolds(rules: seq<Rule>, q: Q)
    ensures q in ConditionsOf(rules) <==> exists r :: r in rules && q in Conditions(r)
  {
    if rules != [] {
      var init, last := rules[..|rules| - 1], rules[|rules| - 1];
      assert rules == init + [last];
      ConditionsOfHolds(init, q);
      assert forall r :: r in rules <==> r in init || r == last;
    }
  }

  /** The rules that take part: an OR permission with a rule for all rows keeps only that rule. */
  ghost predicate TakesPart(table: string, p: Permission, rules: seq<Rule>) {
    if GivesAll(table, p) then |rules| == 1 && rules[0].isAll
    else forall r :: r in rules <==> Restricting(table, p, r)
  }

  method SelectRules(table: string, p: Permission) returns (mode: Mode, rules: seq<Rule>)
    ensures mode == EffectiveMode(p) && TakesPart(table, p, rules)
    ensures rules != [] <==> Applies(table, p)
  {
    mode := if |p.rules| == 1 then OR else p.mode;
    rules := [];
    for i := 0 to |p.rules|
      invariant forall r :: r in rules <==> r in p.rules[..i] && Concerns(table, r) && !r.isAll
      invariant mode == OR ==> forall r :: r in p.rules[..i] && Concerns(table, r) ==> !r.isAll
    {
      var rule := p.rules[i];
      assert p.rules[..i + 1] == p.rules[..i] + [rule];
      if Concerns(table, rule) {
        if rule.isAll {
          if mode == AND {
            continue;
          } else {
            rules := [rule];
            return;
          }
        }
        rules := rules + [rule];
      }
    }
    assert p.rules[..|p.rules|] == p.rules;
    assert rules != [] ==> rules[0] in rules;
  }

  // ----- combining conditions in any order

  /** q is the conjunction of these conditions; nothing is left of it if all of them are empty. */
  ghost predicate IsAllOf(q: Q, qs: set<Q>) {
    && (q == EMPTY <==> forall a :: a in qs ==> a == EMPTY)
    && (Blank(q) <==> forall a :: a in qs ==> Blank(a))
    && forall row :: Accepts(q, row) <==> forall a :: a in qs ==> Accepts(a, row)
  }

  /** q is the union of those of these conditions that test something. */
  ghost predicate IsUnionOf(q: Q, qs: set<Q>) {
    && (Blank(q) <==> forall a :: a in qs ==> Blank(a))
    && forall row :: Accepts(q, row) <==> Blank(q) || exists a :: a in qs && !Blank(a) && Accepts(a, row)
  }

  lemma {:induction false} OneMoreOfAll(q: Q, qs: set<Q>, a: Q)
    requires IsAllOf(q, qs)
    ensures IsAllOf(if a == EMPTY then q else Combine(q, a, And), qs + {a})
  {
    CombineMeans(q, a, And, {});
    forall row {
      CombineMeans(q, a, And, row);
    }
  }

  lemma {:induction false} OneMoreOfUnion(q: Q, qs: set<Q>, a: Q)
    requires IsUnionOf(q, qs)
    ensures IsUnionOf(Combine(q, a, Or), qs + {a})
  {
    var q' := Combine(q, a, Or);
    CombineMeans(q, a, Or, {});
    forall row
      ensures Accepts(q', row) <==> Blank(q') || exists b :: b in qs + {a} && !Blank(b) && Accepts(b, row)
    {
      CombineMeans(q, a, Or, row);
    }
  }

  /** The loop that skips empty conditions. */
  method JoinAll(qs: seq<Q>) returns (q: Q)
    ensures IsAllOf(q, SetOf(qs))
  {
    q := EMPTY;
    var all := SetOf(qs);
    var todo := all;
    while todo != {}
      invariant todo <= all && IsAllOf(q, all - todo)
      decreases |todo|
    {
      var a :| a in todo;
      OneMoreOfAll(q, all - todo, a);
      assert all - (todo - {a}) == (all - todo) + {a};
      todo := todo - {a};
      if a == EMPTY {
        continue;
      }
      q := Combine(q, a, And);
    }
    assert all - todo == all;
  }

  /** The loop that stops at an empty condition. */
  method JoinAny(qs: seq<Q>) returns (q: Q)
    ensures q == EMPTY <==> EMPTY in qs || qs == []
    ensures q != EMPTY ==> IsUnionOf(q, SetOf(qs))
  {
    q := EMPTY;
    var all := SetOf(qs);
    var todo := all;
    assert qs != [] ==> qs[0] in all;
    while todo != {}
      invariant todo <= all && IsUnionOf(q, all - todo)
      invariant EMPTY in all ==> EMPTY in todo
      invariant q == EMPTY <==> todo == all
      decreases |todo|
    {
      var a :| a in todo;
      OneMoreOfUnion(q, all - todo, a);
      CombineMeans(q, a, Or, {});
      assert all - (todo - {a}) == (all - todo) + {a};
      todo := todo - {a};
      if a == EMPTY {
        q := EMPTY;
        return;
      }
      q := Combine(q, a, Or);
    }
    assert all - todo == all;
  }

  /** The loop without a department: no condition is looked at. */
  method Unite(qs: seq<Q>) returns (q1: Q)
    ensures IsUnionOf(q1, SetOf(qs))
  {
    q1 := EMPTY;
    var all := SetOf(qs);
    var todo := all;
    while todo != {}
      invariant todo <= all && IsUnionOf(q1, all - todo)
      decreases |todo|
    {
      var a :| a in todo;
      OneMoreOfUnion(q1, all - todo, a);
      assert all - (todo - {a}) == (all - todo) + {a};
      todo := todo - {a};
      q1 := Combine(q1, a, Or);
    }
    assert all - todo == all;
  }

  /** The conditions of the rules that take part, combined in any order. */
  method JoinConditions(mode: Mode, qs: seq<Q>) returns (q: Q)
    ensures mode == AND ==> IsAllOf(q, SetOf(qs))
    ensures mode == OR ==> (q == EMPTY <==> EMPTY in qs || qs == [])
    ensures mode == OR && q != EMPTY ==> IsUnionOf(q, SetOf(qs))
  {
    if mode == AND {
      q := JoinAll(qs);
    } else {
      q := JoinAny(qs);
    }
  }

  /** q is the compiled form of the permission. */
  ghost predicate Compiled(table: string, p: Permission, q: Q) {
    && (q == EMPTY <==> IsOpen(table, p)) && (Blank(q) <==> IsBlank(table, p))
    && forall row :: Accepts(q, row) <==> Grants(table, p, row)
  }

  lemma {:induction false} AllOfIsPermission(table: string, p: Permission, qs: set<Q>, q: Q)
    requires EffectiveMode(p) == AND && IsAllOf(q, qs) && forall a :: a in qs <==> HasCondition(table, p, a)
    ensures Compiled(table, p, q)
  {
  }

  lemma {:induction false} UnionIsPermission(table: string, p: Permission, qs: set<Q>, q: Q)
    requires EffectiveMode(p) == OR && (q == EMPTY <==> EMPTY in qs || qs == {}) && (q != EMPTY ==> IsUnionOf(q, qs))
    requires forall a :: a in qs <==> if GivesAll(table, p) then a == EMPTY else HasCondition(table, p, a)
    ensures Compiled(table, p, q)
  {
    assert IsOpen(table, p) <==> EMPTY in qs || qs == {};
    forall row ensures Accepts(q, row) <==> Grants(table, p, row) {
    }
  }

  method CompilePermission(table: string, ghost p: Permission, mode: Mode, rules: seq<Rule>) returns (q: Q)
    requires mode == EffectiveMode(p) && TakesPart(table, p, rules)
    ensures Compiled(table, p, q)
  {
    var qs := ConditionsOf(rules);
    forall a ensures a in SetOf(qs) <==> (if GivesAll(table, p) then a == EMPTY else HasCondition(table, p, a)) {
      ConditionsOfHolds(rules, a);
      assert GivesAll(table, p) ==> rules[0] in rules && forall r :: r in rules ==> r == rules[0];
    }
    assert qs != [] ==> qs[0] in SetOf(qs);
    q := JoinConditions(mode, qs);
    if mode == AND {
      AllOfIsPermission(table, p, SetOf(qs), q);
    } else {
      UnionIsPermission(table, p, SetOf(qs), q);
    }
  }

  // ----- a list of permissions

  ghost predicate Counts(table: string, permissions: seq<Permission>, p: Permission) {
    p in permissions && Applies(table, p)
  }

  ghost predicate SomeOpen(table: string, permissions: seq<Permission>) {
    exists p :: Counts(table, permissions, p) && IsOpen(table, p)
  }

  ghost predicate AllOpen(table: string, permissions: seq<Permission>) {
    forall p :: Counts(table, permissions, p) ==> IsOpen(table, p)
  }

  ghost predicate AllBlank(table: string, permissions: seq<Permission>) {
    forall p :: Counts(table, permissions, p) ==> IsBlank(table, p)
  }

  ghost predicate AllGrant(table: string, permissions: seq<Permission>, row: Row) {
    forall p :: Counts(table, permissions, p) ==> Grants(table, p, row)
  }

  /** A permission that tests something grants the row. */
  ghost predicate SomeTestGrants(table: string, permissions: seq<Permission>, row: Row) {
    exists p :: Counts(table, permissions, p) && !IsBlank(table, p) && Grants(table, p, row)
  }

  /** Some permission gives all rows, and the list is not for a department in AND mode. */
  ghost predicate ListGivesAll(table: string, permissions: seq<Permission>, deptMode: Option<Mode>) {
    deptMode != Some(AND) && exists p :: Counts(table, permissions, p) && GivesAll(table, p)
  }

  /** The list compiles to the empty condition, for a user with a department of this mode. */
  ghost predicate ListOpen(table: string, permissions: seq<Permission>, mode: Mode) {
    mode == OR && SomeOpen(table, permissions)
  }

  /** The compiled list tests nothing. */
  ghost predicate ListBlank(table: string, permissions: seq<Permission>, deptMode: Option<Mode>) {
    (exists p :: Counts(table, permissions, p)) &&
    match deptMode
    case None => ListGivesAll(table, permissions, deptMode) || AllBlank(table, permissions)
    case Some(OR) => SomeOpen(table, permissions) || AllBlank(table, permissions)
    case Some(AND) => !AllOpen(table, permissions) && AllBlank(table, permissions)
  }

  /** What the compiled list accepts. Outside AND departments, what tests nothing drops out next to what does. */
  ghost predicate ListAccepts(table: string, permissions: seq<Permission>, deptMode: Option<Mode>, row: Row) {
    if deptMode == Some(AND) then !AllOpen(table, permissions) && AllGrant(table, permissions, row)
    else ListBlank(table, permissions, deptMode) || SomeTestGrants(table, permissions, row)
  }

  lemma {:induction false} BlankListAccepts(table: string, permissions: seq<Permission>, deptMode: Option<Mode>,
          row: Row)
    requires ListBlank(table, permissions, deptMode)
    ensures ListAccepts(table, permissions, deptMode, row)
  {
    forall p | IsBlank(table, p) ensures Grants(table, p, row) {
      BlankGrants(table, p, row);
    }
  }

  /** q1 combines these conditions by the mode of the user's department; in AND mode, nothing left denies. */
  ghost predicate IsJoin(q1: Q, qs: set<Q>, deptMode: Option<Mode>) {
    match deptMode
    case None => IsUnionOf(q1, qs)
    case Some(OR) => (q1 == EMPTY <==> EMPTY in qs) && (q1 != EMPTY ==> IsUnionOf(q1, qs))
    case Some(AND) => if forall a :: a in qs ==> a == EMPTY then q1 == DENY else IsAllOf(q1, qs)
  }

  method JoinPermissions(orQs: seq<Q>, deptMode: Option<Mode>) returns (q1: Q)
    requires orQs != []
    ensures IsJoin(q1, SetOf(orQs), deptMode)
  {
    if deptMode.None? {
      q1 := Unite(orQs);
    } else {
      q1 := JoinConditions(deptMode.value, orQs);
      if deptMode.value == AND && q1 == EMPTY {
        q1 := DENY;
      }
    }
  }

  /** qs holds the compiled forms of these permissions. */
  ghost predicate AllCompiled(table: string, applied: seq<Permission>, qs: seq<Q>) {
    |qs| == |applied| && forall i :: 0 <= i < |qs| ==> Compiled(table, applied[i], qs[i])
  }

  /** The permissions that apply, with their mode and the rules that take part. */
  ghost predicate AllSelected(table: string, applied: seq<Permission>, results: seq<(Mode, seq<Rule>)>) {
    |results| == |applied| &&
    forall i :: 0 <= i < |results| ==>
      results[i].0 == EffectiveMode(applied[i]) && TakesPart(table, applied[i], results[i].1)
  }

  method SelectResults(table: string, permissions: seq<Permission>)
      returns (results: seq<(Mode, seq<Rule>)>, ghost applied: seq<Permission>)
    ensures AllSelected(table, applied, results)
    ensures forall p :: p in applied <==> Counts(table, permissions, p)
  {
    results, applied := [], [];
    for i := 0 to |permissions|
      invariant AllSelected(table, applied, results)
      invariant forall p :: p in applied <==> Counts(table, permissions[..i], p)
    {
      var p := permissions[i];
      assert permissions[..i + 1] == permissions[..i] + [p];
      var mode, rules := SelectRules(table, p);
      if rules != [] {
        results, applied := results + [(mode, rules)], applied + [p];
      }
    }
    assert permissions[..|permissions|] == permissions;
  }

  /** Compiles each result, unless one of them gives all rows and the department does not narrow it. */
  method CompileResults(table: string, results: seq<(Mode, seq<Rule>)>, deptMode: Option<Mode>,
          ghost applied: seq<Permission>)
      returns (orQs: Option<seq<Q>>)
    requires AllSelected(table, applied, results)
    ensures orQs.None? <==> deptMode != Some(AND) && exists p :: p in applied && GivesAll(table, p)
    ensures orQs.Some? ==> AllCompiled(table, applied, orQs.value)
  {
    var qs: seq<Q> := [];
    for i := 0 to |results|
      invariant AllCompiled(table, applied[..i], qs)
      invariant deptMode != Some(AND) ==> forall j :: 0 <= j < i ==> !GivesAll(table, applied[j])
    {
      var (mode, rules) := results[i];
      assert applied[i] in applied;
      if mode == OR && deptMode != Some(AND) && exists r :: r in rules && r.isAll {
        assert GivesAll(table, applied[i]);
        return None;
      }
      assert GivesAll(table, applied[i]) ==> rules[0] in rules;
      var compiled := CompilePermission(table, applied[i], mode, rules);
      qs := qs + [compiled];
    }
    assert applied[..|results|] == applied;
    return Some(qs);
  }

  /** q is the compiled form of the list. */
  ghost predicate ListCompiled(table: string, permissions: seq<Permission>, deptMode: Option<Mode>, q: Q) {
    && (Blank(q) <==> ListBlank(table, permissions, deptMode))
    && (deptMode.Some? ==> (q == EMPTY <==> ListOpen(table, permissions, deptMode.value)))
    && forall row :: Accepts(q, row) <==> ListAccepts(table, permissions, deptMode, row)
  }

  method GetFilterQBase(table: string, permissions: seq<Permission>, deptMode: Option<Mode>) returns (q: Q)
    ensures ListCompiled(table, permissions, deptMode, q)
  {
    var results, applied := SelectResults(table, permissions);
    if results == [] {
      forall row { DenyKeepsNothing(row); }
      return DENY;
    }
    assert applied[0] in applied;
    var orQs := CompileResults(table, results, deptMode, applied);
    if orQs.None? {
      ghost var p :| p in applied && GivesAll(table, p);
      assert Counts(table, permissions, p) && IsOpen(table, p);
      return EMPTY;
    }
    q := JoinPermissions(orQs.value, deptMode);
    JoinIsList(table, permissions, applied, orQs.value, deptMode, q);
  }

  lemma {:induction false} FormOf(table: string, applied: seq<Permission>, qs: seq<Q>, p: Permission) returns (a: Q)
    requires AllCompiled(table, applied, qs) && p in applied
    ensures a in SetOf(qs) && Compiled(table, p, a)
  {
    var i :| 0 <= i < |applied| && applied[i] == p;
    a := qs[i];
  }

  lemma {:induction false} PermissionOf(table: string, applied: seq<Permission>, qs: seq<Q>, a: Q)
      returns (p: Permission)
    requires AllCompiled(table, applied, qs) && a in SetOf(qs)
    ensures p in applied && Compiled(table, p, a)
  {
    var i :| 0 <= i < |qs| && qs[i] == a;
    p := applied[i];
  }

  /** These are the permissions that count, with their compiled forms. */
  ghost predicate AreForms(table: string, permissions: seq<Permission>, applied: seq<Permission>, qs: seq<Q>) {
    AllCompiled(table, applied, qs) && forall p :: p in applied <==> Counts(table, permissions, p)
  }

  lemma {:induction false} SomeOpenIff(table: string, permissions: seq<Permission>, applied: seq<Permission>,
          qs: seq<Q>)
    requires AreForms(table, permissions, applied, qs)
    ensures EMPTY in SetOf(qs) <==> SomeOpen(table, permissions)
    ensures (forall a :: a in SetOf(qs) ==> a == EMPTY) <==> AllOpen(table, permissions)
  {
    forall p | Counts(table, permissions, p) ensures exists a :: a in SetOf(qs) && (a == EMPTY <==> IsOpen(table, p)) {
      var a := FormOf(table, applied, qs, p);
    }
    forall a | a in SetOf(qs) ensures exists p :: Counts(table, permissions, p) && (a == EMPTY <==> IsOpen(table, p)) {
      var p := PermissionOf(table, applied, qs, a);
    }
  }

  lemma {:induction false} AllBlankIff(table: string, permissions: seq<Permission>, applied: seq<Permission>,
          qs: seq<Q>)
    requires AreForms(table, permissions, applied, qs)
    ensures (forall a :: a in SetOf(qs) ==> Blank(a)) <==> AllBlank(table, permissions)
  {
    forall p | Counts(table, permissions, p) && !IsBlank(table, p) ensures exists a :: a in SetOf(qs) && !Blank(a) {
      var a := FormOf(table, applied, qs, p);
    }
    forall a | a in SetOf(qs) && !Blank(a) ensures exists p :: Counts(table, permissions, p) && !IsBlank(table, p) {
      var p := PermissionOf(table, applied, qs, a);
    }
  }

  lemma {:induction false} AllGrantIff(table: string, permissions: seq<Permission>, applied: seq<Permission>,
          qs: seq<Q>, row: Row)
    requires AreForms(table, permissions, applied, qs)
    ensures (forall a :: a in SetOf(qs) ==> Accepts(a, row)) <==> AllGrant(table, permissions, row)
  {
    forall p | Counts(table, permissions, p) && !Grants(table, p, row)
      ensures exists a :: a in SetOf(qs) && !Accepts(a, row)
    {
      var a := FormOf(table, applied, qs, p);
    }
    forall a | a in SetOf(qs) && !Accepts(a, row)
      ensures exists p :: Counts(table, permissions, p) && !Grants(table, p, row)
    {
      var p := PermissionOf(table, applied, qs, a);
    }
  }

  lemma {:induction false} SomeTestGrantsIff(table: string, permissions: seq<Permission>, applied: seq<Permission>,
          qs: seq<Q>, row: Row)
    requires AreForms(table, permissions, applied, qs)
    ensures (exists a :: a in SetOf(qs) && !Blank(a) && Accepts(a, row)) <==> SomeTestGrants(table, permissions, row)
  {
    if p :| Counts(table, permissions, p) && !IsBlank(table, p) && Grants(table, p, row) {
      var a := FormOf(table, applied, qs, p);
    }
    if a :| a in SetOf(qs) && !Blank(a) && Accepts(a, row) {
      var p := PermissionOf(table, applied, qs, a);
    }
  }

  /** Combining compiled permissions gives the compiled list. */
  lemma {:induction false} JoinIsList(table: string, permissions: seq<Permission>, applied: seq<Permission>,
          orQs: seq<Q>, deptMode: Option<Mode>, q1: Q)
    requires AreForms(table, permissions, applied, orQs) && applied != []
    requires !ListGivesAll(table, permissions, deptMode)
    requires IsJoin(q1, SetOf(orQs), deptMode)
    ensures ListCompiled(table, permissions, deptMode, q1)
  {
    assert Counts(table, permissions, applied[0]);
    JoinIsBlank(table, permissions, applied, orQs, deptMode, q1);
    forall row ensures Accepts(q1, row) <==> ListAccepts(table, permissions, deptMode, row) {
      if deptMode == Some(AND) {
        AndJoinAccepts(table, permissions, applied, orQs, q1, row);
      } else {
        OrJoinAccepts(table, permissions, applied, orQs, deptMode, q1, row);
      }
    }
  }

  lemma {:induction false} JoinIsBlank(table: string, permissions: seq<Permission>, applied: seq<Permission>,
          orQs: seq<Q>, deptMode: Option<Mode>, q1: Q)
    requires AreForms(table, permissions, applied, orQs) && exists p :: Counts(table, permissions, p)
    requires !ListGivesAll(table, permissions, deptMode) && IsJoin(q1, SetOf(orQs), deptMode)
    ensures Blank(q1) <==> ListBlank(table, permissions, deptMode)
    ensures deptMode.Some? ==> (q1 == EMPTY <==> ListOpen(table, permissions, deptMode.value))
  {
    SomeOpenIff(table, permissions, applied, orQs);
    AllBlankIff(table, permissions, applied, orQs);
  }

  lemma {:induction false} AndJoinAccepts(table: string, permissions: seq<Permission>, applied: seq<Permission>,
          orQs: seq<Q>, q1: Q, row: Row)
    requires AreForms(table, permissions, applied, orQs) && IsJoin(q1, SetOf(orQs), Some(AND))
    ensures Accepts(q1, row) <==> !AllOpen(table, permissions) && AllGrant(table, permissions, row)
  {
    DenyKeepsNothing(row);
    SomeOpenIff(table, permissions, applied, orQs);
    AllGrantIff(table, permissions, applied, orQs, row);
  }

  lemma {:induction false} OrJoinAccepts(table: string, permissions: seq<Permission>, applied: seq<Permission>,
          orQs: seq<Q>, deptMode: Option<Mode>, q1: Q, row: Row)
    requires AreForms(table, permissions, applied, orQs)
    requires IsJoin(q1, SetOf(orQs), deptMode) && deptMode != Some(AND)
    ensures Accepts(q1, row) <==> Blank(q1) || SomeTestGrants(table, permissions, row)
  {
    SomeTestGrantsIff(table, permissions, applied, orQs, row);
  }

  // ----- the whole filter

  datatype Outcome = Everything | Nothing | Filtered(q: Q)

  ghost predicate Visible(o: Outcome, row: Row) {
    match o
    case Everything => true
    case Nothing => false
    case Filtered(q) => Accepts(q, row)
  }

  /** What is granted: to each department, and to the user personally. */
  datatype Grant = Grant(departments: map<Id, seq<Permission>>, personal: seq<Permission>)

  function GrantedTo(grant: Grant, dept: Id): seq<Permission> {
    if dept in grant.departments then grant.departments[dept] else []
  }

  ghost predicate ActiveAncestor(rows: Rows, dept: Id, a: Id) {
    (a == dept || Below(ParentsOf(rows), a, dept)) && a in rows && rows[a].isActive
  }

  function ModeOf(rows: Rows, dept: Option<Id>): Option<Mode> {
    if dept.Some? && dept.value in rows then Some(rows[dept.value].mode) else None
  }

  /** Every listed department lets the row through, and there is one. */
  ghost predicate DepartmentsShow(table: string, grant: Grant, mode: Option<Mode>, order: seq<Id>, row: Row) {
    order != [] && forall a :: a in order ==> ListAccepts(table, GrantedTo(grant, a), mode, row)
  }

  /** What the departments combine to tests nothing. */
  ghost predicate DepartmentsBlank(table: string, grant: Grant, mode: Option<Mode>, order: seq<Id>) {
    order != [] && forall a :: a in order ==> ListBlank(table, GrantedTo(grant, a), mode)
  }

  /** What the departments combine to is recognised as empty: it is what the last of them contributes. */
  ghost predicate DepartmentsOpen(table: string, grant: Grant, mode: Option<Mode>, order: seq<Id>) {
    DepartmentsBlank(table, grant, mode, order) && mode.Some? &&
    ListOpen(table, GrantedTo(grant, order[|order| - 1]), mode.value)
  }

  ghost predicate PersonalOpen(table: string, grant: Grant, mode: Option<Mode>) {
    grant.personal != [] && mode.Some? && ListOpen(table, grant.personal, mode.value)
  }

  /**
    What a user who is subject to data permissions sees: what the departments show, and what the
    personal permissions show; but where neither part is recognised as empty, a part that tests nothing
    drops out next to the other one.
   */
  ghost predicate UserSees(table: string, grant: Grant, mode: Option<Mode>, order: seq<Id>, row: Row) {
    if grant.personal == [] then DepartmentsShow(table, grant, mode, order, row)
    else if DepartmentsOpen(table, grant, mode, order) || PersonalOpen(table, grant, mode) then true
    else if mode.None? || DepartmentsBlank(table, grant, mode, order) then ListAccepts(table, grant.personal, mode, row)
    else
      || DepartmentsShow(table, grant, mode, order, row)
      || (!ListBlank(table, grant.personal, mode) && ListAccepts(table, grant.personal, mode, row))
  }

  /** q combines what these departments contribute, in this order. */
  ghost predicate IsDeptPart(q: Q, table: string, grant: Grant, mode: Option<Mode>, order: seq<Id>) {
    && (Blank(q) <==> order == [] || DepartmentsBlank(table, grant, mode, order))
    && (mode.Some? ==> (q == EMPTY <==> order == [] || DepartmentsOpen(table, grant, mode, order)))
    && forall row :: Accepts(q, row) <==> order == [] || DepartmentsShow(table, grant, mode, order, row)
  }

  lemma {:induction false} OneMoreDepartment(q: Q, table: string, grant: Grant, mode: Option<Mode>, order: seq<Id>,
          a: Id, base: Q)
    requires IsDeptPart(q, table, grant, mode, order) && ListCompiled(table, GrantedTo(grant, a), mode, base)
    ensures IsDeptPart(Combine(q, base, And), table, grant, mode, order + [a])
  {
    var q' := Combine(q, base, And);
    assert forall b :: b in order + [a] <==> b in order || b == a;
    CombineMeans(q, base, And, {});
    forall row ensures Accepts(q', row) <==> DepartmentsShow(table, grant, mode, order + [a], row) {
      CombineMeans(q, base, And, row);
      assert DepartmentsShow(table, grant, mode, order + [a], row) <==>
        Accepts(q, row) && ListAccepts(table, GrantedTo(grant, a), mode, row);
    }
  }

  /** The conditions of these departments, combined in the order in which they are listed. */
  method AndDepartments(table: string, grant: Grant, mode: Option<Mode>, order: seq<Id>) returns (q: Q)
    ensures IsDeptPart(q, table, grant, mode, order)
  {
    q := EMPTY;
    assert order[..0] == [];
    for i := 0 to |order|
      invariant IsDeptPart(q, table, grant, mode, order[..i])
    {
      var base := GetFilterQBase(table, GrantedTo(grant, order[i]), mode);
      OneMoreDepartment(q, table, grant, mode, order[..i], order[i], base);
      assert order[..i + 1] == order[..i] + [order[i]];
      q := Combine(q, base, And);
    }
    assert order[..|order|] == order;
  }

  /** The active departments on the chain; the database may list them in any order. */
  method ActiveAncestors(rows: Rows, dept: Id) returns (active: set<Id>)
    requires Closed(rows) && Acyclic(ParentsOf(rows))
    ensures forall a :: a in active <==> ActiveAncestor(rows, dept, a)
  {
    var pks := RecursionDeptInfo(rows, dept, true);
    active := set a | a in pks && a in rows && rows[a].isActive;
  }

  method Listed(active: set<Id>) returns (order: seq<Id>)
    ensures forall a :: a in order <==> a in active
  {
    order := [];
    var todo := active;
    while todo != {}
      invariant todo <= active && forall a :: a in order <==> a in active - todo
      decreases |todo|
    {
      var a :| a in todo;
      order, todo := order + [a], todo - {a};
    }
  }

  /** What the user gets to see, and the order in which the active departments were listed for it. */
  method GetFilterQueryset(enabled: bool, isSuperuser: bool, table: string, rows: Rows, dept: Option<Id>, grant: Grant)
      returns (outcome: Outcome, order: seq<Id>)
    requires Closed(rows) && Acyclic(ParentsOf(rows)) && (dept.Some? ==> dept.value in rows)
    ensures !enabled || isSuperuser ==> forall row :: Visible(outcome, row)
    ensures enabled && !isSuperuser ==>
              && (dept.None? ==> order == [])
              && (dept.Some? ==> forall a :: a in order <==>
                   a in rows && rows[a].isActive && (a == dept.value || Below(ParentsOf(rows), a, dept.value)))
              && forall row :: Visible(outcome, row) <==> UserSees(table, grant, ModeOf(rows, dept), order, row)
  {
    order := [];
    if !enabled {
      return Everything, order;
    }
    if isSuperuser {
      return Everything, order;
    }
    var q, mode, hasDept := EMPTY, ModeOf(rows, dept), false;
    forall row { DenyKeepsNothing(row); }
    if dept.Some? {
      var active := ActiveAncestors(rows, dept.value);
      order := Listed(active);
      q := AndDepartments(table, grant, mode, order);
      hasDept := order != [];
      if !hasDept && q == EMPTY {
        q := DENY;
      }
      if hasDept && q == EMPTY {
        assert forall row :: Accepts(q, row);
        return Everything, order;
      }
    }
    if grant.personal == [] {
      if hasDept {
        return Filtered(q), order;
      } else {
        return Nothing, order;
      }
    }
    var q1 := GetFilterQBase(table, grant.personal, mode);
    forall row { CombineMeans(q, q1, Or, row); }
    if q1 == EMPTY {
      q := q1;
    } else {
      q := Combine(q, q1, Or);
    }
    return Filtered(q), order;
  }

  // ----- the two parts together

  ghost predicate PersonalShow(table: string, grant: Grant, mode: Option<Mode>, row: Row) {
    grant.personal != [] && ListAccepts(table, grant.personal, mode, row)
  }

  /** What the departments combine to keeps every row, but is not recognised and drops out. */
  ghost predicate DepartmentsDropOut(table: string, grant: Grant, mode: Option<Mode>, order: seq<Id>) {
    && DepartmentsBlank(table, grant, mode, order) && !DepartmentsOpen(table, grant, mode, order)
    && grant.personal != [] && !PersonalOpen(table, grant, mode)
  }

  /** The personal permissions combine to something of that kind, next to departments that restrict. */
  ghost predicate PersonalDropsOut(table: string, grant: Grant, mode: Option<Mode>, order: seq<Id>) {
    && mode.Some? && !DepartmentsBlank(table, grant, mode, order)
    && grant.personal != [] && ListBlank(table, grant.personal, mode) && !PersonalOpen(table, grant, mode)
  }

  /** A user sees a row that the departments or the personal permissions show, unless that part drops out. */
  lemma {:induction false} SeesEitherPartIff(table: string, grant: Grant, mode: Option<Mode>, order: seq<Id>, row: Row)
    requires mode.None? ==> order == []
    ensures (UserSees(table, grant, mode, order, row) <==>
             DepartmentsShow(table, grant, mode, order, row) || PersonalShow(table, grant, mode, row))
            <==> && (DepartmentsDropOut(table, grant, mode, order) ==> PersonalShow(table, grant, mode, row))
                 && (PersonalDropsOut(table, grant, mode, order) ==> DepartmentsShow(table, grant, mode, order, row))
  {
    if DepartmentsBlank(table, grant, mode, order) {
      forall a | a in order ensures ListAccepts(table, GrantedTo(grant, a), mode, row) {
        BlankListAccepts(table, GrantedTo(grant, a), mode, row);
      }
    }
    if ListBlank(table, grant.personal, mode) {
      BlankListAccepts(table, grant.personal, mode, row);
    }
    if PersonalOpen(table, grant, mode) {
      assert ListBlank(table, grant.personal, mode);
    }
  }

  /** The only blank condition among these is the empty one. */
  ghost predicate NoVoids(permissions: seq<Permission>) {
    forall p, r, q :: p in permissions && r in p.rules && !r.isAll && q in r.filters && Blank(q) ==> q == EMPTY
  }

  /** Where no rule excludes a wildcard, nothing drops out: the two parts are always both in force. */
  lemma {:induction false} SeesEitherPart(table: string, grant: Grant, mode: Option<Mode>, order: seq<Id>, row: Row)
    requires (mode.None? ==> order == []) && NoVoids(grant.personal)
    requires forall a :: a in order ==> NoVoids(GrantedTo(grant, a))
    ensures UserSees(table, grant, mode, order, row) <==>
            DepartmentsShow(table, grant, mode, order, row) || PersonalShow(table, grant, mode, row)
  {
    SeesEitherPartIff(table, grant, mode, order, row);
    if mode.Some? {
      BlankIsOpen(table, grant.personal, mode.value);
      if order != [] {
        assert order[|order| - 1] in order;
        BlankIsOpen(table, GrantedTo(grant, order[|order| - 1]), mode.value);
      }
    }
  }

  lemma {:induction false} BlankIsOpen(table: string, permissions: seq<Permission>, mode: Mode)
    requires NoVoids(permissions)
    ensures ListBlank(table, permissions, Some(mode)) <==> ListOpen(table, permissions, mode)
  {
    forall p | Counts(table, permissions, p) ensures IsBlank(table, p) <==> IsOpen(table, p) {
    }
  }

  // ----- adding a personal permission

  /** Every condition is empty, the negation of an empty one, or a plain positive test. */
  ghost predicate PlainTests(permissions: seq<Permission>) {
    forall p, r, q :: p in permissions && r in p.rules && q in r.filters ==> IsPlain(q)
  }

  ghost predicate IsPlain(q: Q) {
    q == EMPTY || q == NOT_EMPTY || exists c :: q == Test(c)
  }

  /**
    The new list tests something where before nothing was tested: without a department the personal
    permissions tested nothing, or with one the departments drop out and there were no personal
    permissions or blank ones.
   */
  ghost predicate TakesAway(table: string, grant: Grant, mode: Option<Mode>, order: seq<Id>, more: seq<Permission>) {
    && more != [] && !ListBlank(table, more, mode)
    && if mode.None? then grant.personal != [] && ListBlank(table, grant.personal, mode)
       else
         && DepartmentsBlank(table, grant, mode, order) && !DepartmentsOpen(table, grant, mode, order)
         && (grant.personal == [] || ListBlank(table, grant.personal, mode))
  }

  /** Outside AND departments, more personal permissions hide no row, unless they take a blank part away. */
  lemma {:induction false} PersonalGrantsMonotone(table: string, grant: Grant, mode: Option<Mode>, order: seq<Id>,
          more: seq<Permission>, row: Row)
    requires mode != Some(AND) && (mode.None? ==> order == []) && forall p :: p in grant.personal ==> p in more
    requires !TakesAway(table, grant, mode, order, more)
    requires UserSees(table, grant, mode, order, row)
    ensures UserSees(table, grant.(personal := more), mode, order, row)
  {
    var after := grant.(personal := more);
    assert forall a :: GrantedTo(after, a) == GrantedTo(grant, a);
    assert DepartmentsShow(table, after, mode, order, row) == DepartmentsShow(table, grant, mode, order, row);
    assert DepartmentsBlank(table, after, mode, order) == DepartmentsBlank(table, grant, mode, order);
    assert grant.personal != [] ==> grant.personal[0] in more;
    TestsGrow(table, grant.personal, more, mode, row);
    SeesEitherPartIff(table, grant, mode, order, row);
    SeesEitherPartIff(table, after, mode, order, row);
  }

  lemma {:induction false} TestsGrow(table: string, before: seq<Permission>, after: seq<Permission>,
          mode: Option<Mode>, row: Row)
    requires mode != Some(AND) && forall p :: p in before ==> p in after
    ensures !ListBlank(table, before, mode) && ListAccepts(table, before, mode, row) ==>
              ListAccepts(table, after, mode, row)
    ensures mode.Some? && ListOpen(table, before, mode.value) ==> ListOpen(table, after, mode.value)
    ensures ListBlank(table, after, mode) ==> ListAccepts(table, after, mode, row)
  {
    assert forall p :: Counts(table, before, p) ==> Counts(table, after, p);
  }

  lemma {:induction false} PlainIsRejected(q: Q, row: Row)
    requires IsPlain(q) && !Blank(q) && forall c :: q == Test(c) ==> c !in row
    ensures !Accepts(q, row)
  {
    var c :| q == Test(c);
    TestMeans(c, row);
  }

  /** Plain tests that are left in force do not accept a row that meets no condition. */
  lemma {:induction false} NoTestGrantsBareRow(table: string, permissions: seq<Permission>)
    requires PlainTests(permissions)
    ensures !SomeTestGrants(table, permissions, {})
  {
    forall p, q | p in permissions && HasCondition(table, p, q) && !Blank(q) ensures !Accepts(q, {}) {
      PlainIsRejected(q, {});
    }
  }

  /** For plain tests this is exact: more personal permissions hide some row exactly if they take a blank part away. */
  lemma {:induction false} MonotoneIff(table: string, grant: Grant, mode: Option<Mode>, order: seq<Id>,
          more: seq<Permission>)
    requires mode != Some(AND) && (mode.None? ==> order == [])
    requires (forall p :: p in grant.personal ==> p in more) && PlainTests(more)
    ensures (forall row :: UserSees(table, grant, mode, order, row) ==>
                           UserSees(table, grant.(personal := more), mode, order, row))
            <==> !TakesAway(table, grant, mode, order, more)
  {
    var after := grant.(personal := more);
    if TakesAway(table, grant, mode, order, more) {
      var bare: Row := {};
      TakenAwayWasShown(table, grant, mode, order, more, bare);
      assert forall a :: GrantedTo(after, a) == GrantedTo(grant, a);
      NoTestGrantsBareRow(table, more);
      assert !UserSees(table, after, mode, order, bare);
    } else {
      forall row | UserSees(table, grant, mode, order, row) ensures UserSees(table, after, mode, order, row) {
        PersonalGrantsMonotone(table, grant, mode, order, more, row);
      }
    }
  }

  lemma {:induction false} TakenAwayWasShown(table: string, grant: Grant, mode: Option<Mode>, order: seq<Id>,
          more: seq<Permission>, row: Row)
    requires mode != Some(AND) && (mode.None? ==> order == []) && TakesAway(table, grant, mode, order, more)
    ensures UserSees(table, grant, mode, order, row)
  {
    if grant.personal == [] {
      forall a | a in order ensures ListAccepts(table, GrantedTo(grant, a), mode, row) {
        BlankListAccepts(table, GrantedTo(grant, a), mode, row);
      }
    } else {
      BlankListAccepts(table, grant.personal, mode, row);
    }
  }
}
