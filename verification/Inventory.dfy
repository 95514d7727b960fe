/**
  Reconciling a platform's inventory with a database table: every item is written under its uuid, one
  transaction each, and then the platform's rows that the inventory no longer has are deactivated.

  One table is modelled; hosts, virtual machines and templates each have one of this shape.
 */
module Inventory {
  import opened Wrappers
  import ParentLinks

  type Platform(==, !new)
  type Uuid = ParentLinks.Id
  type Name(==, !new)
  type Attrs(==, !new)

  datatype Row = Row(
    platform: Platform, uuid: Option<Uuid>, name: Name, isTemplate: bool, attrs: Attrs, isActive: bool, stamp: int
  )

  /** An inventory item as parsed; `storable` says whether the columns accept its values. */
  datatype Data = Data(uuid: Uuid, name: Name, attrs: Attrs, storable: bool)

  /** What the loop body gets from an inventory item: it is passed over, it raises, or it is parsed. */
  datatype Reading = Skipped | Broken | Parsed(data: Data)

  // ----- the two uniqueness constraints

  predicate Clash(r: Row, s: Row) {
    || (r.uuid.Some? && r.uuid == s.uuid)
    || (r.platform == s.platform && r.name == s.name)
  }

  ghost predicate Unique(rows: seq<Row>) {
    forall i, j :: 0 <= i < j < |rows| ==> !Clash(rows[i], rows[j])
  }

  // ----- writing one item

  predicate IsRowOf(r: Row, platform: Platform, uuid: Uuid) {
    r.platform == platform && r.uuid == Some(uuid)
  }

  /** The position of the row of this item, or the end of the table. */
  function Find(rows: seq<Row>, platform: Platform, uuid: Uuid): (i: nat)
    ensures i <= |rows|
    ensures i < |rows| ==> IsRowOf(rows[i], platform, uuid)
    ensures forall j :: 0 <= j < i ==> !IsRowOf(rows[j], platform, uuid)
  {
    if rows == [] then 0
    else if IsRowOf(rows[0], platform, uuid) then 0
    else 1 + Find(rows[1..], platform, uuid)
  }

  function NewRow(platform: Platform, data: Data, now: int): Row {
    Row(platform, Some(data.uuid), data.name, false, data.attrs, true, now)
  }

  /** The table with the item written, were there no constraints. */
  function Written(rows: seq<Row>, platform: Platform, data: Data, now: int): seq<Row> {
    var i := Find(rows, platform, data.uuid);
    if i < |rows| then rows[i := NewRow(platform, data, now)] else rows + [NewRow(platform, data, now)]
  }

  /** The item cannot be written: a column refuses it, or another row stands in its way. */
  predicate Refused(rows: seq<Row>, platform: Platform, data: Data) {
    || !data.storable
    || exists j :: 0 <= j < |rows| && j != Find(rows, platform, data.uuid) && Clash(rows[j], NewRow(platform, data, 0))
  }

  /** An item is written exactly when that leaves both constraints intact. */
  lemma {:induction false} RefusedIff(rows: seq<Row>, platform: Platform, data: Data, now: int)
    requires Unique(rows)
    ensures Refused(rows, platform, data) <==> !data.storable || !Unique(Written(rows, platform, data, now))
  {
    var rows', i := Written(rows, platform, data, now), Find(rows, platform, data.uuid);
    if j :| 0 <= j < |rows| && j != i && Clash(rows[j], NewRow(platform, data, 0)) {
      assert rows'[j] == rows[j] && rows'[i] == NewRow(platform, data, now);
      assert Clash(rows'[j], rows'[i]) && Clash(rows'[i], rows'[j]);
    }
    if !Unique(rows') {
      var j, k :| 0 <= j < k < |rows'| && Clash(rows'[j], rows'[k]);
      assert j == i || k == i;
      var other := if j == i then k else j;
      assert Clash(rows[other], NewRow(platform, data, 0));
    }
  }

  // ----- one run

  /** The state of the loop over the items; `done` are the uuids that were written. */
  datatype Progress = Progress(rows: seq<Row>, seen: seq<Uuid>, done: seq<Uuid>, failed: nat)

  function WriteItem(p: Progress, platform: Platform, r: Reading, now: int): Progress {
    match r
    case Skipped => p
    case Broken => p.(failed := p.failed + 1)
    case Parsed(data) =>
      if Refused(p.rows, platform, data) then p.(seen := p.seen + [data.uuid], failed := p.failed + 1)
      else Progress(Written(p.rows, platform, data, now), p.seen + [data.uuid], p.done + [data.uuid], p.failed)
  }

  function WriteAll(rows: seq<Row>, platform: Platform, readings: seq<Reading>, now: int): Progress {
    if readings == [] then Progress(rows, [], [], 0)
    else WriteItem(WriteAll(rows, platform, readings[..|readings| - 1], now), platform, readings[|readings| - 1], now)
  }

  /** The row is among those that the final update deactivates. */
  predicate Unseen(r: Row, platform: Platform, seen: seq<Uuid>, sparesTemplates: bool) {
    && r.platform == platform && r.isActive
    && !(sparesTemplates && r.isTemplate) && !(r.uuid.Some? && r.uuid.value in seen)
  }

  function Deactivated(rows: seq<Row>, platform: Platform, seen: seq<Uuid>, sparesTemplates: bool, now: int): seq<Row> {
    seq(|rows|, i requires 0 <= i < |rows| =>
      if Unseen(rows[i], platform, seen, sparesTemplates) then rows[i].(isActive := false, stamp := now) else rows[i])
  }

  function Synced(rows: seq<Row>, platform: Platform, readings: seq<Reading>, sparesTemplates: bool,
          now: int): seq<Row> {
    var p := WriteAll(rows, platform, readings, now);
    Deactivated(p.rows, platform, p.seen, sparesTemplates, now)
  }

  function FailedCount(rows: seq<Row>, platform: Platform, readings: seq<Reading>, now: int): nat {
    WriteAll(rows, platform, readings, now).failed
  }

  // ----- what every run establishes

  /** Old rows keep their platform and uuid, rows of other platforms keep everything, new rows are the platform's. */
  ghost predicate OnlyPlatform(rows: seq<Row>, rows': seq<Row>, platform: Platform) {
    && |rows| <= |rows'|
    && (forall i :: 0 <= i < |rows| ==> rows'[i].platform == rows[i].platform && rows'[i].uuid == rows[i].uuid)
    && (forall i :: 0 <= i < |rows| && rows[i].platform != platform ==> rows'[i] == rows[i])
    && (forall i :: |rows| <= i < |rows'| ==> rows'[i].platform == platform)
  }

  ghost predicate ActiveIn(rows: seq<Row>, platform: Platform, uuid: Uuid) {
    exists i :: 0 <= i < |rows| && IsRowOf(rows[i], platform, uuid) && rows[i].isActive
  }

  function SkippedCount(readings: seq<Reading>): nat {
    if readings == [] then 0
    else SkippedCount(readings[..|readings| - 1]) + if readings[|readings| - 1].Skipped? then 1 else 0
  }

  lemma {:induction false} WriteItemKeeps(p: Progress, platform: Platform, r: Reading, now: int)
    requires Unique(p.rows)
    ensures Unique(WriteItem(p, platform, r, now).rows)
    ensures OnlyPlatform(p.rows, WriteItem(p, platform, r, now).rows, platform)
    ensures forall u :: ActiveIn(p.rows, platform, u) ==> ActiveIn(WriteItem(p, platform, r, now).rows, platform, u)
    ensures r.Parsed? && !Refused(p.rows, platform, r.data) ==>
              ActiveIn(WriteItem(p, platform, r, now).rows, platform, r.data.uuid)
  {
    if r.Parsed? && !Refused(p.rows, platform, r.data) {
      RefusedIff(p.rows, platform, r.data, now);
      var rows', i := Written(p.rows, platform, r.data, now), Find(p.rows, platform, r.data.uuid);
      assert IsRowOf(rows'[i], platform, r.data.uuid) && rows'[i].isActive;
      forall u | ActiveIn(p.rows, platform, u) ensures ActiveIn(rows', platform, u) {
        var j :| 0 <= j < |p.rows| && IsRowOf(p.rows[j], platform, u) && p.rows[j].isActive;
        assert IsRowOf(rows'[j], platform, u) && rows'[j].isActive;
      }
    }
  }

  lemma {:induction false} WriteAllKeeps(rows: seq<Row>, platform: Platform, readings: seq<Reading>, now: int)
    requires Unique(rows)
    ensures var p := WriteAll(rows, platform, readings, now);
            && Unique(p.rows) && OnlyPlatform(rows, p.rows, platform)
            && (forall u :: u in p.done ==> u in p.seen && ActiveIn(p.rows, platform, u))
            && |p.done| + p.failed + SkippedCount(readings) == |readings|
  {
    if readings != [] {
      var init := readings[..|readings| - 1];
      WriteAllKeeps(rows, platform, init, now);
      WriteItemKeeps(WriteAll(rows, platform, init, now), platform, readings[|readings| - 1], now);
    }
  }

  /**
    After any run, failures or not: both constraints hold; the platform's active rows were all seen
    (rows marked as templates excepted where the update spares them); every item that was written is
    active; nothing of another platform has changed; and every item is accounted for.
   */
  lemma {:induction false} EveryRun(rows: seq<Row>, platform: Platform, readings: seq<Reading>,
          sparesTemplates: bool, now: int)
    requires Unique(rows)
    ensures var p := WriteAll(rows, platform, readings, now);
            var rows' := Synced(rows, platform, readings, sparesTemplates, now);
            && Unique(rows') && OnlyPlatform(rows, rows', platform)
            && (forall i :: 0 <= i < |rows'| && rows'[i].platform == platform && rows'[i].isActive ==>
                 (sparesTemplates && rows'[i].isTemplate) || (rows'[i].uuid.Some? && rows'[i].uuid.value in p.seen))
            && (forall u :: u in p.done ==> ActiveIn(rows', platform, u))
            && |p.done| + p.failed + SkippedCount(readings) == |readings|
  {
    WriteAllKeeps(rows, platform, readings, now);
    var p, rows' := WriteAll(rows, platform, readings, now), Synced(rows, platform, readings, sparesTemplates, now);
    forall u | u in p.done ensures ActiveIn(rows', platform, u) {
      var i :| 0 <= i < |p.rows| && IsRowOf(p.rows[i], platform, u) && p.rows[i].isActive;
      assert rows'[i] == p.rows[i];
    }
    forall i, j | 0 <= i < j < |rows'| ensures !Clash(rows'[i], rows'[j]) {
      assert !Clash(p.rows[i], p.rows[j]);
    }
  }

  // ----- what a run reads

  /** The uuids that a run over these readings has seen. */
  function SeenIn(readings: seq<Reading>): seq<Uuid> {
    if readings == [] then []
    else
      var last := readings[|readings| - 1];
      SeenIn(readings[..|readings| - 1]) + if last.Parsed? then [last.data.uuid] else []
  }

  ghost predicate DistinctUuids(readings: seq<Reading>) {
    forall i, j :: 0 <= i < j < |readings| && readings[i].Parsed? && readings[j].Parsed? ==>
      readings[i].data.uuid != readings[j].data.uuid
  }

  /** Equal but for the timestamp. */
  predicate SameData(r: Row, s: Row) {
    r.(stamp := 0) == s.(stamp := 0)
  }

  ghost predicate SameTable(rows: seq<Row>, rows': seq<Row>) {
    |rows| == |rows'| && forall i :: 0 <= i < |rows| ==> SameData(rows[i], rows'[i])
  }

  lemma {:induction false} FindUnique(rows: seq<Row>, platform: Platform, uuid: Uuid, i: nat)
    requires Unique(rows) && i < |rows| && IsRowOf(rows[i], platform, uuid)
    ensures Find(rows, platform, uuid) == i
  {
    var j := Find(rows, platform, uuid);
    assert j < i ==> Clash(rows[j], rows[i]);
  }

  lemma {:induction false} SeenAsRead(rows: seq<Row>, platform: Platform, readings: seq<Reading>, now: int)
    ensures WriteAll(rows, platform, readings, now).seen == SeenIn(readings)
    ensures FailedCount(rows, platform, readings, now) == 0 ==>
              WriteAll(rows, platform, readings, now).done == SeenIn(readings)
  {
    if readings != [] {
      SeenAsRead(rows, platform, readings[..|readings| - 1], now);
      assert SeenIn(readings[..|readings| - 1]) + [] == SeenIn(readings[..|readings| - 1]);
    }
  }

  lemma {:induction false} CleanRunIsUnbroken(rows: seq<Row>, platform: Platform, readings: seq<Reading>, now: int)
    requires FailedCount(rows, platform, readings, now) == 0
    ensures forall i :: 0 <= i < |readings| ==> !readings[i].Broken?
  {
    if readings != [] {
      CleanRunIsUnbroken(rows, platform, readings[..|readings| - 1], now);
      assert forall i :: 0 <= i < |readings| - 1 ==> readings[i] == readings[..|readings| - 1][i];
    }
  }

  lemma {:induction false} SeenInIff(readings: seq<Reading>, u: Uuid)
    ensures u in SeenIn(readings) <==>
            exists i :: 0 <= i < |readings| && readings[i].Parsed? && readings[i].data.uuid == u
  {
    if readings != [] {
      var init := readings[..|readings| - 1];
      SeenInIff(init, u);
      if i :| 0 <= i < |init| && init[i].Parsed? && init[i].data.uuid == u {
        assert readings[i] == init[i];
      }
      if i :| 0 <= i < |readings| && readings[i].Parsed? && readings[i].data.uuid == u {
        assert i == |readings| - 1 || init[i] == readings[i];
      }
    }
  }

  // ----- virtual machines and templates

  /** One entry of the virtual machine list of a platform. */
  datatype Entry = Entry(
    uuid: Uuid, name: Name, hasConfig: bool, isTemplate: bool,
    vmParses: bool, templateParses: bool, vmAttrs: Attrs, templateAttrs: Attrs, storable: bool
  )

  /** Reading an entry as a virtual machine: without configuration there is nothing to look at, which raises. */
  function VmReading(e: Entry): Reading {
    if !e.hasConfig || !e.vmParses then Broken
    else if e.isTemplate then Skipped
    else Parsed(Data(e.uuid, e.name, e.vmAttrs, e.storable))
  }

  /** Reading an entry as a template: what has no configuration or is no template is passed over. */
  function TemplateReading(e: Entry): Reading {
    if !e.hasConfig || !e.isTemplate then Skipped
    else if !e.templateParses then Broken
    else Parsed(Data(e.uuid, e.name, e.templateAttrs, e.storable))
  }

  function VmReadings(entries: seq<Entry>): seq<Reading> {
    seq(|entries|, i requires 0 <= i < |entries| => VmReading(entries[i]))
  }

  function TemplateReadings(entries: seq<Entry>): seq<Reading> {
    seq(|entries|, i requires 0 <= i < |entries| => TemplateReading(entries[i]))
  }

  /** An active row of the platform that is marked as a template, in the virtual machine table. */
  ghost predicate FlaggedIn(rows: seq<Row>, platform: Platform, uuid: Uuid) {
    exists i :: 0 <= i < |rows| && IsRowOf(rows[i], platform, uuid) && rows[i].isActive && rows[i].isTemplate
  }

  lemma {:induction false} UnreadUntouched(rows: seq<Row>, platform: Platform, readings: seq<Reading>, now: int,
          u: Uuid)
    requires u !in SeenIn(readings)
    ensures var rows' := WriteAll(rows, platform, readings, now).rows;
            && |rows| <= |rows'|
            && (forall i :: 0 <= i < |rows| && IsRowOf(rows[i], platform, u) ==> rows'[i] == rows[i])
            && (forall i :: 0 <= i < |rows'| && IsRowOf(rows'[i], platform, u) ==> i < |rows| && rows[i] == rows'[i])
  {
    if readings != [] {
      UnreadUntouched(rows, platform, readings[..|readings| - 1], now, u);
    }
  }

  /** After a clean run, exactly the uuids that were read are active, and template rows that were spared. */
  lemma {:induction false} ActiveAfterCleanRun(rows: seq<Row>, platform: Platform, readings: seq<Reading>,
          sparesTemplates: bool, now: int, u: Uuid)
    requires Unique(rows) && FailedCount(rows, platform, readings, now) == 0
    ensures ActiveIn(Synced(rows, platform, readings, sparesTemplates, now), platform, u) <==>
            u in SeenIn(readings) || (sparesTemplates && FlaggedIn(rows, platform, u))
  {
    var p, rows' := WriteAll(rows, platform, readings, now), Synced(rows, platform, readings, sparesTemplates, now);
    EveryRun(rows, platform, readings, sparesTemplates, now);
    SeenAsRead(rows, platform, readings, now);
    if u !in SeenIn(readings) {
      UnreadUntouched(rows, platform, readings, now, u);
      if i :| 0 <= i < |rows'| && IsRowOf(rows'[i], platform, u) && rows'[i].isActive {
        assert rows'[i] == p.rows[i] == rows[i];
      }
      if i :| sparesTemplates && 0 <= i < |rows| && IsRowOf(rows[i], platform, u) &&
              rows[i].isActive && rows[i].isTemplate {
        assert rows'[i] == p.rows[i] == rows[i];
      }
    }
  }

  ghost predicate DistinctEntries(entries: seq<Entry>) {
    forall i, j :: 0 <= i < j < |entries| ==> entries[i].uuid != entries[j].uuid
  }

  /**
    After clean runs of both tables over the same entries, in either order, a template is active in the
    template table and a virtual machine is not; a virtual machine is active in its own table, and a
    template is not, unless it had an active row there that was itself marked as a template.
   */
  lemma {:induction false} KindsAreSeparated(vms: seq<Row>, templates: seq<Row>, platform: Platform,
          entries: seq<Entry>, now: int, later: int, k: nat)
    requires Unique(vms) && Unique(templates) && DistinctEntries(entries) && k < |entries|
    requires FailedCount(vms, platform, VmReadings(entries), now) == 0
    requires FailedCount(templates, platform, TemplateReadings(entries), later) == 0
    ensures var e := entries[k];
            && (ActiveIn(Synced(templates, platform, TemplateReadings(entries), false, later), platform, e.uuid) <==>
                e.isTemplate)
            && (ActiveIn(Synced(vms, platform, VmReadings(entries), true, now), platform, e.uuid) <==>
                (e.isTemplate ==> FlaggedIn(vms, platform, e.uuid)))
  {
    var e, vmReadings, templateReadings := entries[k], VmReadings(entries), TemplateReadings(entries);
    CleanRunIsUnbroken(vms, platform, vmReadings, now);
    CleanRunIsUnbroken(templates, platform, templateReadings, later);
    assert !vmReadings[k].Broken? && !templateReadings[k].Broken?;
    SeenInIff(vmReadings, e.uuid);
    SeenInIff(templateReadings, e.uuid);
    ActiveAfterCleanRun(vms, platform, vmReadings, true, now, e.uuid);
    ActiveAfterCleanRun(templates, platform, templateReadings, false, later, e.uuid);
  }

  /**
    Such a row: clean runs of both tables leave the template u active in both, since its row in the
    virtual machine table is marked as a template and the final update passes over it.
   */
  lemma {:induction false} FlaggedRowStaysActive(platform: Platform, u: Uuid, a: Name, x: Attrs, now: int)
    ensures var vms := [Row(platform, Some(u), a, true, x, true, 0)];
            var entries := [Entry(u, a, true, true, true, true, x, x, true)];
            && FailedCount(vms, platform, VmReadings(entries), now) == 0
            && FailedCount([], platform, TemplateReadings(entries), now) == 0
            && ActiveIn(Synced(vms, platform, VmReadings(entries), true, now), platform, u)
            && ActiveIn(Synced([], platform, TemplateReadings(entries), false, now), platform, u)
  {
    var vms := [Row(platform, Some(u), a, true, x, true, 0)];
    var entries := [Entry(u, a, true, true, true, true, x, x, true)];
    assert VmReadings(entries) == [Skipped] && VmReadings(entries)[..0] == [];
    assert WriteAll(vms, platform, [], now) == Progress(vms, [], [], 0);
    assert TemplateReadings(entries) == [Parsed(Data(u, a, x, true))] && TemplateReadings(entries)[..0] == [];
    assert WriteAll([], platform, [], now) == Progress([], [], [], 0);
    KindsAreSeparated(vms, [], platform, entries, now, now, 0);
    assert IsRowOf(vms[0], platform, u) && vms[0].isActive && vms[0].isTemplate;
  }

  ghost predicate NoFlags(rows: seq<Row>) {
    forall i :: 0 <= i < |rows| ==> !rows[i].isTemplate
  }

  /** A run marks no row of the virtual machine table as a template. */
  lemma {:induction false} RunsSetNoFlags(rows: seq<Row>, platform: Platform, readings: seq<Reading>,
          sparesTemplates: bool, now: int)
    requires NoFlags(rows)
    ensures NoFlags(WriteAll(rows, platform, readings, now).rows)
    ensures NoFlags(Synced(rows, platform, readings, sparesTemplates, now))
  {
    if readings != [] {
      RunsSetNoFlags(rows, platform, readings[..|readings| - 1], sparesTemplates, now);
    }
  }

  /** In a table filled by runs alone, every entry ends up active on exactly one side. */
  lemma {:induction false} ExactlyOneKind(vms: seq<Row>, templates: seq<Row>, platform: Platform,
          entries: seq<Entry>, now: int, later: int, k: nat)
    requires Unique(vms) && Unique(templates) && NoFlags(vms) && DistinctEntries(entries) && k < |entries|
    requires FailedCount(vms, platform, VmReadings(entries), now) == 0
    requires FailedCount(templates, platform, TemplateReadings(entries), later) == 0
    ensures var e := entries[k];
            && (ActiveIn(Synced(vms, platform, VmReadings(entries), true, now), platform, e.uuid) <==> !e.isTemplate)
            && (ActiveIn(Synced(templates, platform, TemplateReadings(entries), false, later), platform, e.uuid) <==>
                e.isTemplate)
  {
    KindsAreSeparated(vms, templates, platform, entries, now, later, k);
  }

  // ----- the table

  class InventoryTable {
    var rows: seq<Row>

    constructor ()
      ensures rows == []
    {
      rows := [];
    }

    /** Writes one item in a transaction of its own; a refused item leaves no trace. */
    method UpdateOrCreate(platform: Platform, data: Data, now: int) returns (ok: bool)
      modifies this
      ensures ok <==> !Refused(old(rows), platform, data)
      ensures rows == if ok then Written(old(rows), platform, data, now) else old(rows)
    {
      var i := Find(rows, platform, data.uuid);
      var row := NewRow(platform, data, now);
      if !data.storable || exists j :: 0 <= j < |rows| && j != i && Clash(rows[j], row) {
        return false;
      }
      if i < |rows| {
        rows := rows[i := row];
      } else {
        rows := rows + [row];
      }
      return true;
    }

    method Sync(platform: Platform, readings: seq<Reading>, sparesTemplates: bool, now: int)
        returns (syncedCount: nat, failedCount: nat)
      modifies this
      ensures rows == Synced(old(rows), platform, readings, sparesTemplates, now)
      ensures failedCount == FailedCount(old(rows), platform, readings, now)
      ensures syncedCount == |WriteAll(old(rows), platform, readings, now).done|
    {
      syncedCount, failedCount := 0, 0;
      var uuids: seq<Uuid> := [];
      for i := 0 to |readings|
        invariant var p := WriteAll(old(rows), platform, readings[..i], now);
                  rows == p.rows && uuids == p.seen && failedCount == p.failed && syncedCount == |p.done|
      {
        assert readings[..i + 1][..i] == readings[..i];
        match readings[i]
        case Skipped =>
          continue;
        case Broken =>
          failedCount := failedCount + 1;
        case Parsed(data) =>
          uuids := uuids + [data.uuid];
          var ok := UpdateOrCreate(platform, data, now);
          if ok {
            syncedCount := syncedCount + 1;
          } else {
            failedCount := failedCount + 1;
          }
      }
      assert readings[..|readings|] == readings;
      rows := Deactivated(rows, platform, uuids, sparesTemplates, now);
    }

    method SyncHosts(platform: Platform, readings: seq<Reading>, now: int) returns (syncedCount: nat, failedCount: nat)
      requires Unique(rows) && forall i :: 0 <= i < |readings| ==> !readings[i].Skipped?
      modifies this
      ensures Unique(rows) && rows == Synced(old(rows), platform, readings, false, now)
      ensures syncedCount + failedCount == |readings|
    {
      EveryRun(rows, platform, readings, false, now);
      NoneSkipped(readings);
      syncedCount, failedCount := Sync(platform, readings, false, now);
    }

    method SyncVms(platform: Platform, entries: seq<Entry>, now: int) returns (syncedCount: nat, failedCount: nat)
      requires Unique(rows)
      modifies this
      ensures Unique(rows) && rows == Synced(old(rows), platform, VmReadings(entries), true, now)
      ensures syncedCount + failedCount + SkippedCount(VmReadings(entries)) == |entries|
    {
      EveryRun(rows, platform, VmReadings(entries), true, now);
      syncedCount, failedCount := Sync(platform, VmReadings(entries), true, now);
    }

    method SyncTemplates(platform: Platform, entries: seq<Entry>, now: int) returns (syncedCount: nat, failedCount: nat)
      requires Unique(rows)
      modifies this
      ensures Unique(rows) && rows == Synced(old(rows), platform, TemplateReadings(entries), false, now)
      ensures syncedCount + failedCount + SkippedCount(TemplateReadings(entries)) == |entries|
    {
      EveryRun(rows, platform, TemplateReadings(entries), false, now);
      syncedCount, failedCount := Sync(platform, TemplateReadings(entries), false, now);
    }
  }

  lemma {:induction false} NoneSkipped(readings: seq<Reading>)
    requires forall i :: 0 <= i < |readings| ==> !readings[i].Skipped?
    ensures SkippedCount(readings) == 0
  {
    if readings != [] {
      NoneSkipped(readings[..|readings| - 1]);
    }
  }
}
