/**
  The documented reading of data permissions, rule by rule, and exactly when the compiled form agrees
  with it.
 */
module PermissionReading {
  import opened Wrappers
  import opened ParentLinks
  import opened QueryObjects
  import opened Departments
  import opened PermissionFilter

  // ----- one permission

  /** A condition as a rule means it: an excluded wildcard, which is blank but not empty, holds of no row. */
  ghost predicate Holds(q: Q, row: Row) {
    q == EMPTY || (!Blank(q) && Accepts(q, row))
  }

  /** A rule matches a row if all its conditions hold. */
  ghost predicate Matches(r: Rule, row: Row) {
    forall q :: q in r.filters ==> Holds(q, row)
  }

  /** The rule is about this table, or about all tables. */
  ghost predicate IsAbout(r: Rule, table: string) {
    r.table == table || r.table == "*"
  }

  /** One rule that matches is enough: in OR mode, or if there is only one rule. */
  ghost predicate OneIsEnough(p: Permission) {
    p.mode == OR || |p.rules| == 1
  }

  /** As documented: in OR mode some rule matches, in AND mode all do; AND ignores rules for all rows. */
  ghost predicate Reads(table: string, p: Permission, row: Row) {
    if OneIsEnough(p) then exists r :: r in p.rules && IsAbout(r, table) && (r.isAll || Matches(r, row))
    else forall r :: r in p.rules && IsAbout(r, table) && !r.isAll ==> Matches(r, row)
  }

  /** The permission says something about the table; rules that AND mode ignores do not count. */
  ghost predicate HasSay(table: string, p: Permission) {
    exists r :: r in p.rules && IsAbout(r, table) && (OneIsEnough(p) || !r.isAll)
  }

  /** The rule matches every row because it has no condition but empty ones. */
  ghost predicate IsWild(r: Rule) {
    forall q :: q in r.filters ==> q == EMPTY
  }

  /** Some restricting rule of the permission is wild. */
  ghost predicate HasWildRule(table: string, p: Permission) {
    exists r :: Restricting(table, p, r) && IsWild(r)
  }

  /** The rule tests this condition and nothing else. */
  ghost predicate OnlyTests(r: Rule, q: Q) {
    r.filters != [] && forall a :: a in r.filters ==> a == q
  }

  /**
    The conditions may be pooled: in AND mode none of them is an excluded wildcard; in OR mode, if
    nothing is tested then some rule is wild, and otherwise no rule is wild and every test is by itself
    all that some rule asks for.
   */
  ghost predicate MayBePooled(table: string, p: Permission) {
    if EffectiveMode(p) == AND then forall q :: HasCondition(table, p, q) && Blank(q) ==> q == EMPTY
    else if GivesAll(table, p) then true
    else if IsBlank(table, p) then HasWildRule(table, p)
    else
      && !HasWildRule(table, p)
      && forall q :: HasCondition(table, p, q) && !Blank(q) ==> exists r :: Restricting(table, p, r) && OnlyTests(r, q)
  }

  /** Where the conditions of its rules may be pooled, the compiled permission is what the rules say. */
  lemma {:induction false} CompiledAsRead(table: string, p: Permission, row: Row)
    requires MayBePooled(table, p)
    ensures Grants(table, p, row) <==> Reads(table, p, row)
  {
    if EffectiveMode(p) == AND {
      AndCompiledAsRead(table, p, row);
    } else if !IsBlank(table, p) {
      if q :| HasCondition(table, p, q) && !Blank(q) && Accepts(q, row) {
        var r :| Restricting(table, p, r) && OnlyTests(r, q);
        assert Matches(r, row);
      }
      if r :| Restricting(table, p, r) && Matches(r, row) {
        var q :| q in r.filters && q != EMPTY;
        assert HasCondition(table, p, q);
      }
    } else if !GivesAll(table, p) {
      var r :| Restricting(table, p, r) && IsWild(r);
      assert Matches(r, row);
    }
  }

  lemma {:induction false} AndCompiledAsRead(table: string, p: Permission, row: Row)
    requires EffectiveMode(p) == AND && MayBePooled(table, p)
    ensures Grants(table, p, row) <==> Reads(table, p, row)
  {
    forall r, q | Restricting(table, p, r) && q in r.filters ensures Holds(q, row) <==> Accepts(q, row) {
      assert HasCondition(table, p, q);
    }
  }

  /** A row that meets every condition these tests ask for. */
  ghost function MeetingAll(qs: seq<Q>): (row: Row)
    ensures forall c :: Test(c) in qs ==> c in row
  {
    if qs == [] then {}
    else
      var rest, last := MeetingAll(qs[..|qs| - 1]), qs[|qs| - 1];
      if exists c :: last == Test(c) then (var c :| last == Test(c); rest + {c}) else rest
  }

  lemma {:induction false} AndMisread(table: string, p: Permission, void: Q) returns (row: Row)
    requires EffectiveMode(p) == AND && PlainTests([p]) && HasCondition(table, p, void) && Blank(void) && void != EMPTY
    ensures Grants(table, p, row) && !Reads(table, p, row)
  {
    row := MeetingAll(ConditionsOf(p.rules));
    forall q | HasCondition(table, p, q) ensures Accepts(q, row) {
      var r :| Restricting(table, p, r) && q in r.filters;
      ConditionsOfHolds(p.rules, q);
      assert r in p.rules && q in Conditions(r);
      assert p in [p] && IsPlain(q);
      if !Blank(q) {
        var c :| q == Test(c);
        TestMeans(c, row);
      }
    }
    var r :| Restricting(table, p, r) && void in r.filters;
    assert !Matches(r, row);
  }

  /** A row that meets at most c is matched only by rules that test c and nothing else, or nothing at all. */
  lemma {:induction false} MatchesFew(table: string, p: Permission, r: Rule, row: Row)
    requires PlainTests([p]) && Restricting(table, p, r) && Matches(r, row)
    ensures row == {} ==> IsWild(r)
    ensures forall c :: row == {c} && EMPTY !in r.filters ==> IsWild(r) || OnlyTests(r, Test(c))
  {
    forall q | q in r.filters && q != EMPTY ensures exists c :: c in row && q == Test(c) {
      assert p in [p] && IsPlain(q);
      var c :| q == Test(c);
      TestMeans(c, row);
    }
  }

  lemma {:induction false} OrMisread(table: string, p: Permission) returns (row: Row)
    requires EffectiveMode(p) == OR && PlainTests([p]) && !MayBePooled(table, p)
    ensures !(Grants(table, p, row) <==> Reads(table, p, row))
  {
    if IsBlank(table, p) || HasWildRule(table, p) {
      row := {};
      forall r | Restricting(table, p, r) && Matches(r, row) ensures IsWild(r) {
        MatchesFew(table, p, r, row);
      }
      assert p in [p];
      forall q | HasCondition(table, p, q) && !Blank(q) ensures !Accepts(q, row) {
        PlainIsRejected(q, row);
      }
      if r :| Restricting(table, p, r) && IsWild(r) {
        assert Matches(r, row);
      }
    } else {
      var q :| HasCondition(table, p, q) && !Blank(q) && !exists r :: Restricting(table, p, r) && OnlyTests(r, q);
      assert p in [p] && IsPlain(q);
      var c :| q == Test(c);
      row := {c};
      TestMeans(c, row);
      forall r | Restricting(table, p, r) ensures !Matches(r, row) {
        assert EMPTY in r.filters ==> HasCondition(table, p, EMPTY);
        if Matches(r, row) {
          MatchesFew(table, p, r, row);
        }
      }
    }
  }

  /** For plain tests: a permission grants exactly what its rules say if and only if its conditions may be pooled. */
  lemma {:induction false} CompiledAsReadIff(table: string, p: Permission)
    requires PlainTests([p])
    ensures (forall row :: Grants(table, p, row) <==> Reads(table, p, row)) <==> MayBePooled(table, p)
  {
    if MayBePooled(table, p) {
      forall row ensures Grants(table, p, row) <==> Reads(table, p, row) {
        CompiledAsRead(table, p, row);
      }
    } else if EffectiveMode(p) == AND {
      var void :| HasCondition(table, p, void) && Blank(void) && void != EMPTY;
      var row := AndMisread(table, p, void);
    } else {
      var row := OrMisread(table, p);
    }
  }

  // ----- a list of permissions

  ghost predicate RestrictsNothing(table: string, p: Permission) {
    if OneIsEnough(p) then exists r :: r in p.rules && IsAbout(r, table) && (r.isAll || IsWild(r))
    else forall r :: r in p.rules && IsAbout(r, table) && !r.isAll ==> IsWild(r)
  }

  /**
    As documented: permissions are combined by the mode of the department, in OR mode when there is
    none; in AND mode those that restrict nothing are ignored, and nothing left means no row.
   */
  ghost predicate ListReads(table: string, permissions: seq<Permission>, deptMode: Option<Mode>, row: Row) {
    if deptMode == Some(AND) then
      && (exists p :: p in permissions && HasSay(table, p) && !RestrictsNothing(table, p))
      && (forall p :: p in permissions && HasSay(table, p) && !RestrictsNothing(table, p) ==> Reads(table, p, row))
    else exists p :: p in permissions && HasSay(table, p) && Reads(table, p, row)
  }

  ghost predicate AllMayBePooled(table: string, permissions: seq<Permission>) {
    forall p :: Counts(table, permissions, p) ==> MayBePooled(table, p)
  }

  /**
    Outside AND departments: a permission tests nothing, is not recognised as giving everything, and
    drops out next to one that tests something. In AND departments: none tests anything, but not all
    are recognised as empty.
   */
  ghost predicate DropsOut(table: string, permissions: seq<Permission>, deptMode: Option<Mode>) {
    match deptMode
    case Some(AND) => !AllOpen(table, permissions) && AllBlank(table, permissions)
    case _ =>
      && !(if deptMode.None? then ListGivesAll(table, permissions, deptMode) else SomeOpen(table, permissions))
      && (exists p :: Counts(table, permissions, p) && IsBlank(table, p))
      && !AllBlank(table, permissions)
  }

  lemma {:induction false} RestrictsNothingIff(table: string, p: Permission)
    requires MayBePooled(table, p)
    ensures RestrictsNothing(table, p) <==> IsBlank(table, p)
  {
    if EffectiveMode(p) == AND {
      forall r, q | Restricting(table, p, r) && q in r.filters ensures IsBlank(table, p) ==> q == EMPTY {
        assert HasCondition(table, p, q);
      }
      assert RestrictsNothing(table, p) ==> forall q :: HasCondition(table, p, q) ==> q == EMPTY;
    } else if HasWildRule(table, p) && !GivesAll(table, p) {
      assert IsBlank(table, p);
    }
  }

  /** Where conditions may be pooled: the compiled list departs from the documented reading of it exactly here. */
  lemma {:induction false} ListAsReadIff(table: string, permissions: seq<Permission>, deptMode: Option<Mode>, row: Row)
    requires AllMayBePooled(table, permissions)
    ensures (ListAccepts(table, permissions, deptMode, row) <==> ListReads(table, permissions, deptMode, row)) <==>
            (DropsOut(table, permissions, deptMode) ==>
              deptMode != Some(AND) && SomeTestGrants(table, permissions, row))
  {
    forall p | Counts(table, permissions, p) ensures AsRead(table, p, row) {
      CompiledAsRead(table, p, row);
      RestrictsNothingIff(table, p);
    }
    if deptMode == Some(AND) {
      AndListAsRead(table, permissions, row);
    } else {
      OrListAsRead(table, permissions, deptMode, row);
    }
  }

  ghost predicate AsRead(table: string, p: Permission, row: Row) {
    && (Grants(table, p, row) <==> Reads(table, p, row)) && (RestrictsNothing(table, p) <==> IsBlank(table, p))
    && (IsBlank(table, p) ==> Grants(table, p, row))
  }

  lemma {:induction false} AndListAsRead(table: string, permissions: seq<Permission>, row: Row)
    requires forall p :: Counts(table, permissions, p) ==> AsRead(table, p, row)
    ensures (ListAccepts(table, permissions, Some(AND), row) <==> ListReads(table, permissions, Some(AND), row)) <==>
            !DropsOut(table, permissions, Some(AND))
  {
    assert AllOpen(table, permissions) ==> AllBlank(table, permissions);
    forall p ensures p in permissions && HasSay(table, p) <==> Counts(table, permissions, p) {
    }
  }

  lemma {:induction false} OrListAsRead(table: string, permissions: seq<Permission>, deptMode: Option<Mode>, row: Row)
    requires deptMode != Some(AND) && forall p :: Counts(table, permissions, p) ==> AsRead(table, p, row)
    ensures (ListAccepts(table, permissions, deptMode, row) <==> ListReads(table, permissions, deptMode, row)) <==>
            (DropsOut(table, permissions, deptMode) ==> SomeTestGrants(table, permissions, row))
  {
    assert forall p :: GivesAll(table, p) ==> IsOpen(table, p);
    forall p ensures p in permissions && HasSay(table, p) <==> Counts(table, permissions, p) {
    }
  }

  /** For plain tests this is exact on all rows: the list is read as documented if and only if nothing drops out. */
  lemma {:induction false} ListAsReadOnAllRowsIff(table: string, permissions: seq<Permission>, deptMode: Option<Mode>)
    requires AllMayBePooled(table, permissions) && PlainTests(permissions)
    ensures (forall row :: ListAccepts(table, permissions, deptMode, row) <==>
                           ListReads(table, permissions, deptMode, row))
            <==> !DropsOut(table, permissions, deptMode)
  {
    forall row {
      ListAsReadIff(table, permissions, deptMode, row);
    }
    ListAsReadIff(table, permissions, deptMode, {});
    NoTestGrantsBareRow(table, permissions);
  }

  /** Rules for all rows aside, every rule resolves to a single condition, which tests something. */
  ghost predicate OneTestPerRule(permissions: seq<Permission>) {
    forall p, r :: p in permissions && r in p.rules && !r.isAll ==> |r.filters| == 1 && !Blank(r.filters[0])
  }

  /** With one test for each rule the compiled list is always what is documented. */
  lemma {:induction false} OneTestPerRuleAsRead(table: string, permissions: seq<Permission>, deptMode: Option<Mode>,
          row: Row)
    requires OneTestPerRule(permissions)
    ensures ListAccepts(table, permissions, deptMode, row) <==> ListReads(table, permissions, deptMode, row)
  {
    forall p | Counts(table, permissions, p)
      ensures MayBePooled(table, p) && (IsBlank(table, p) <==> GivesAll(table, p))
    {
      OneTestMayBePooled(table, permissions, p);
    }
    assert forall p :: GivesAll(table, p) ==> IsOpen(table, p);
    ListAsReadIff(table, permissions, deptMode, row);
  }

  lemma {:induction false} ConditionIsSole(table: string, permissions: seq<Permission>, p: Permission, q: Q)
      returns (r: Rule)
    requires OneTestPerRule(permissions) && p in permissions && HasCondition(table, p, q)
    ensures !Blank(q) && Restricting(table, p, r) && r.filters == [q]
  {
    r :| Restricting(table, p, r) && q in r.filters;
    assert r in p.rules && r.filters == [r.filters[0]];
  }

  lemma {:induction false} OneTestIsBlankIff(table: string, permissions: seq<Permission>, p: Permission)
    requires OneTestPerRule(permissions) && Counts(table, permissions, p)
    ensures IsBlank(table, p) <==> GivesAll(table, p)
  {
    if !GivesAll(table, p) {
      var r :| r in p.rules && Concerns(table, r) && (EffectiveMode(p) == OR || !r.isAll);
      assert Restricting(table, p, r) && r.filters[0] in r.filters;
      assert HasCondition(table, p, r.filters[0]) && !Blank(r.filters[0]);
      if HasCondition(table, p, EMPTY) {
        var r' := ConditionIsSole(table, permissions, p, EMPTY);
      }
    }
  }

  lemma {:induction false} OneTestMayBePooled(table: string, permissions: seq<Permission>, p: Permission)
    requires OneTestPerRule(permissions) && Counts(table, permissions, p)
    ensures MayBePooled(table, p) && (IsBlank(table, p) <==> GivesAll(table, p))
  {
    OneTestIsBlankIff(table, permissions, p);
    forall q | HasCondition(table, p, q) ensures !Blank(q) && exists r :: Restricting(table, p, r) && OnlyTests(r, q) {
      var r := ConditionIsSole(table, permissions, p, q);
      assert OnlyTests(r, q);
    }
    forall r | Restricting(table, p, r) ensures !IsWild(r) {
      assert p in permissions && r.filters == [r.filters[0]] && r.filters[0] in r.filters;
    }
  }

  /** A rule for all rows alone: it shows everything, except in an AND department, where nothing is left. */
  lemma {:induction false} OneRuleForAllRows(table: string, mode: Mode, r: Rule, deptMode: Option<Mode>, row: Row)
    requires r.isAll && (r.table == table || r.table == "*")
    ensures ListAccepts(table, [Permission(mode, [r])], deptMode, row) <==> deptMode != Some(AND)
  {
    var p := Permission(mode, [r]);
    assert p.rules[0] == r && Counts(table, [p], p) && GivesAll(table, p) && IsOpen(table, p);
  }

  /** The mode of a permission with exactly one rule does not matter. */
  lemma {:induction false} OneRuleEitherMode(table: string, r: Rule, deptMode: Option<Mode>, row: Row)
    ensures ListAccepts(table, [Permission(AND, [r])], deptMode, row) <==>
            ListAccepts(table, [Permission(OR, [r])], deptMode, row)
    ensures ListBlank(table, [Permission(AND, [r])], deptMode) <==> ListBlank(table, [Permission(OR, [r])], deptMode)
    ensures deptMode.Some? ==>
              (ListOpen(table, [Permission(AND, [r])], deptMode.value) <==>
               ListOpen(table, [Permission(OR, [r])], deptMode.value))
  {
    var a, o := Permission(AND, [r]), Permission(OR, [r]);
    assert Counts(table, [a], a) <==> Counts(table, [o], o);
    SameRulesSameForm(table, a, o, row);
    assert forall p :: Counts(table, [a], p) ==> p == a;
    assert forall p :: Counts(table, [o], p) ==> p == o;
  }

  lemma {:induction false} SameRulesSameForm(table: string, p: Permission, p': Permission, row: Row)
    requires p.rules == p'.rules && (|p.rules| == 1 || p.mode == p'.mode)
    ensures (Applies(table, p) <==> Applies(table, p')) && (GivesAll(table, p) <==> GivesAll(table, p'))
    ensures (IsOpen(table, p) <==> IsOpen(table, p')) && (IsBlank(table, p) <==> IsBlank(table, p'))
    ensures Grants(table, p, row) <==> Grants(table, p', row)
  {
    forall q ensures HasCondition(table, p, q) <==> HasCondition(table, p', q) {
      assert forall r :: Restricting(table, p, r) <==> Restricting(table, p', r);
    }
  }

  /** What a list of a single permission accepts. */
  lemma {:induction false} Alone(table: string, p: Permission, deptMode: Option<Mode>, row: Row)
    ensures ListAccepts(table, [p], deptMode, row) <==>
            Applies(table, p) && Grants(table, p, row) && (deptMode == Some(AND) ==> !IsOpen(table, p))
  {
    assert Counts(table, [p], p) <==> Applies(table, p);
    assert forall p' :: Counts(table, [p], p') ==> p' == p;
    if IsBlank(table, p) {
      BlankGrants(table, p, row);
    }
  }

  /** With two or more rules, OR mode keeps only a rule for all rows. */
  lemma {:induction false} OrKeepsRuleForAllRows(table: string, p: Permission, r: Rule, deptMode: Option<Mode>,
          row: Row)
    requires p.mode == OR && r in p.rules && r.isAll && (r.table == table || r.table == "*")
    ensures ListAccepts(table, [p], deptMode, row) <==> deptMode != Some(AND)
  {
    assert GivesAll(table, p) && IsOpen(table, p) && Applies(table, p);
    Alone(table, p, deptMode, row);
  }

  /** Some rule of the permission, other than one for all rows, is about the table, and all their conditions hold. */
  ghost predicate AllRulesAccept(table: string, p: Permission, row: Row) {
    && (exists s :: s in p.rules && !s.isAll && (s.table == table || s.table == "*"))
    && (forall s, q :: s in p.rules && !s.isAll && (s.table == table || s.table == "*") && q in s.filters ==>
                         Accepts(q, row))
  }

  /** With two or more rules, AND mode ignores those for all rows, and asks for every condition of the others. */
  lemma {:induction false} AndIgnoresRulesForAllRows(table: string, p: Permission, deptMode: Option<Mode>, row: Row)
    requires |p.rules| >= 2 && p.mode == AND && deptMode != Some(AND)
    ensures ListAccepts(table, [p], deptMode, row) <==> AllRulesAccept(table, p, row)
  {
    Alone(table, p, deptMode, row);
    AndGrants(table, p, row);
  }

  lemma {:induction false} AndGrants(table: string, p: Permission, row: Row)
    requires |p.rules| >= 2 && p.mode == AND
    ensures Applies(table, p) && Grants(table, p, row) <==> AllRulesAccept(table, p, row)
  {
    forall s, q | Restricting(table, p, s) && q in s.filters ensures HasCondition(table, p, q) {
    }
  }

  /**
    With one test for each rule, the whole filter is what is documented: a user sees a row if all active
    departments on the chain show it, and there is one, or if the personal permissions do; each list being
    read by the mode of the user's own department.
   */
  lemma {:induction false} FilterAsDocumented(table: string, rows: Rows, dept: Option<Id>, grant: Grant,
          order: seq<Id>, row: Row)
    requires (dept.Some? ==> dept.value in rows) && (dept.None? ==> order == [])
    requires OneTestPerRule(grant.personal)
    requires forall a :: a in order && a in grant.departments ==> OneTestPerRule(grant.departments[a])
    ensures var mode := if dept.Some? then Some(rows[dept.value].mode) else None;
            UserSees(table, grant, ModeOf(rows, dept), order, row) <==>
              || (order != [] && forall a :: a in order ==>
                   a in grant.departments && ListReads(table, grant.departments[a], mode, row))
              || (grant.personal != [] && ListReads(table, grant.personal, mode, row))
  {
    var mode := ModeOf(rows, dept);
    SeesEitherPart(table, grant, mode, order, row);
    OneTestPerRuleAsRead(table, grant.personal, mode, row);
    forall a | a in order
      ensures ListAccepts(table, GrantedTo(grant, a), mode, row) <==>
              a in grant.departments && ListReads(table, grant.departments[a], mode, row)
    {
      OneTestPerRuleAsRead(table, GrantedTo(grant, a), mode, row);
    }
  }

  // ----- lists for which the documented reading fails

  function Only(filters: seq<Q>): Permission {
    Permission(OR, [Rule("user", false, filters)])
  }

  /** What a permission with this one rule comes to. */
  lemma {:induction false} OnlyMeans(filters: seq<Q>, row: Row)
    ensures var p := Only(filters);
            && Applies("user", p) && !GivesAll("user", p)
            && (IsOpen("user", p) <==> EMPTY in filters || filters == [])
            && (IsBlank("user", p) <==> EMPTY in filters || forall q :: q in filters ==> Blank(q))
            && (Reads("user", p, row) <==> forall q :: q in filters ==> Holds(q, row))
            && (Grants("user", p, row) <==>
                IsBlank("user", p) || exists q :: q in filters && !Blank(q) && Accepts(q, row))
  {
    var p, r := Only(filters), Rule("user", false, filters);
    assert p.rules[0] == r && forall r' :: Restricting("user", p, r') <==> r' == r;
    assert forall q :: HasCondition("user", p, q) <==> q in filters;
    assert filters != [] ==> filters[0] in filters;
  }

  /** A rule that asks for two related ids shows a row that has only one of them. */
  lemma {:induction false} AllOfIsAnyOf(a: Condition, b: Condition)
    requires a != b
    ensures var asked := Only([Test(a), Test(b)]);
            ListAccepts("user", [asked], None, {a}) && !ListReads("user", [asked], None, {a})
  {
    var asked := Only([Test(a), Test(b)]);
    OnlyMeans([Test(a), Test(b)], {a});
    TestMeans(a, {a});
    TestMeans(b, {a});
    assert Counts("user", [asked], asked) && Test(a) in [Test(a), Test(b)] && Test(b) in [Test(a), Test(b)];
  }

  /** A rule that excludes every value shows every row. */
  lemma {:induction false} ExcludingAllShowsAll(row: Row)
    ensures ListAccepts("user", [Only([NOT_EMPTY])], None, row) && !ListReads("user", [Only([NOT_EMPTY])], None, row)
  {
    OnlyMeans([NOT_EMPTY], row);
    assert Counts("user", [Only([NOT_EMPTY])], Only([NOT_EMPTY])) && NOT_EMPTY in [NOT_EMPTY];
  }

  /**
    A permission whose value is a wildcard shows every row to a user without a department, but next to a
    permission that tests a condition it shows nothing.
   */
  lemma {:induction false} WildcardIsDropped(c: Condition)
    ensures var wildcard, testing := Only([EMPTY]), Only([Test(c)]);
            && ListAccepts("user", [wildcard], None, {})
            && !ListAccepts("user", [wildcard, testing], None, {})
            && ListReads("user", [wildcard, testing], None, {})
  {
    var wildcard, testing := Only([EMPTY]), Only([Test(c)]);
    OnlyMeans([EMPTY], {});
    OnlyMeans([Test(c)], {});
    TestMeans(c, {});
    assert Test(c) in [Test(c)];
    assert Counts("user", [wildcard], wildcard);
    assert Counts("user", [wildcard, testing], wildcard) && Counts("user", [wildcard, testing], testing);
    assert forall p :: Counts("user", [wildcard, testing], p) ==> p == wildcard || p == testing;
  }

  /** A rule that resolves to no condition shows every row alone, and nothing next to another rule of its permission. */
  lemma {:induction false} RuleWithoutConditionIsDropped(c: Condition)
    ensures var none, test := Rule("user", false, []), Rule("user", false, [Test(c)]);
            && ListAccepts("user", [Permission(OR, [none])], None, {})
            && !ListAccepts("user", [Permission(OR, [none, test])], None, {})
            && ListReads("user", [Permission(OR, [none, test])], None, {})
  {
    var none, test := Rule("user", false, []), Rule("user", false, [Test(c)]);
    var p := Permission(OR, [none, test]);
    OnlyMeans([], {});
    assert Counts("user", [Only([])], Only([]));
    TestMeans(c, {});
    assert p.rules[0] == none && p.rules[1] == test && forall r :: r in p.rules ==> r == none || r == test;
    assert forall r :: Restricting("user", p, r) <==> r == none || r == test;
    assert test.filters[0] == Test(c) && forall q :: HasCondition("user", p, q) <==> q == Test(c);
    assert !Blank(Test(c)) && !GivesAll("user", p);
    assert EMPTY != Test(c) && HasCondition("user", p, Test(c)) && !HasCondition("user", p, EMPTY);
    assert !IsBlank("user", p) && !Grants("user", p, {}) && Matches(none, {});
    assert Counts("user", [p], p);
  }

  /**
    A department whose only rule excludes every value shows every row, until its member is granted a
    personal permission that tests something: then only what that one shows is left.
   */
  lemma {:induction false} DepartmentDropsOut(dept: Id, c: Condition)
    ensures var before := Grant(map[dept := [Only([NOT_EMPTY])]], []);
            var after := before.(personal := [Only([Test(c)])]);
            UserSees("user", before, Some(OR), [dept], {}) && !UserSees("user", after, Some(OR), [dept], {})
  {
    var excluding, testing := Only([NOT_EMPTY]), Only([Test(c)]);
    OnlyMeans([NOT_EMPTY], {});
    OnlyMeans([Test(c)], {});
    TestMeans(c, {});
    assert NOT_EMPTY in [NOT_EMPTY] && Test(c) in [Test(c)];
    assert Counts("user", [excluding], excluding) && Counts("user", [testing], testing);
    BlankListAccepts("user", [excluding], Some(OR), {});
  }
}
