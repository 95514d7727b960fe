/**
  Whole runs of a synchronisation: when a run fails nowhere, when it still does so when it is repeated
  on the same inventory, and when repeating it often enough gets every item through.
 */
module InventoryRuns {
  import opened Wrappers
  import opened ParentLinks
  import opened Inventory

  // ----- the table after any run

  /** Item i is written: it can be stored, and nothing in the table at its turn stands in its way. */
  ghost predicate IsWritten(rows: seq<Row>, platform: Platform, readings: seq<Reading>, now: int, i: nat)
    requires i < |readings|
  {
    readings[i].Parsed? && !Refused(WriteAll(rows, platform, readings[..i], now).rows, platform, readings[i].data)
  }

  /** The last item with this uuid that is written. */
  ghost function LastWritten(rows: seq<Row>, platform: Platform, readings: seq<Reading>, now: int, u: Uuid)
      : (d: Option<Data>)
    ensures d.Some? <==> exists i: nat :: i < |readings| && IsWritten(rows, platform, readings, now, i) &&
                                          readings[i].data.uuid == u
    ensures d.Some? ==>
              exists i: nat :: i < |readings| && IsWritten(rows, platform, readings, now, i) &&
                               readings[i].data == d.value && d.value.uuid == u
  {
    if readings == [] then None
    else
      var init, n := readings[..|readings| - 1], |readings| - 1;
      assert forall i: nat :: i < n ==> readings[i] == init[i] && readings[..i] == init[..i];
      assert forall i: nat :: i < n ==>
               (IsWritten(rows, platform, readings, now, i) <==> IsWritten(rows, platform, init, now, i));
      if IsWritten(rows, platform, readings, now, n) && readings[n].data.uuid == u then Some(readings[n].data)
      else LastWritten(rows, platform, init, now, u)
  }

  /** The item was listed, whether or not it could be written. */
  ghost predicate IsListed(readings: seq<Reading>, uuid: Option<Uuid>) {
    exists i :: 0 <= i < |readings| && readings[i].Parsed? && uuid == Some(readings[i].data.uuid)
  }

  lemma {:induction false} RowOfWritten(rows: seq<Row>, platform: Platform, data: Data, now: int, j: nat)
    requires Unique(rows) && j < |Written(rows, platform, data, now)|
    ensures var r := Written(rows, platform, data, now)[j];
            if IsRowOf(r, platform, data.uuid) then
              r == Row(platform, Some(data.uuid), data.name, false, data.attrs, true, now)
            else j < |rows| && r == rows[j]
  {
    if j < |rows| && IsRowOf(rows[j], platform, data.uuid) {
      FindUnique(rows, platform, data.uuid, j);
    }
  }

  lemma {:induction false} RowOfWriteAll(rows: seq<Row>, platform: Platform, readings: seq<Reading>, now: int, j: nat)
    requires Unique(rows) && j < |WriteAll(rows, platform, readings, now).rows|
    ensures var r := WriteAll(rows, platform, readings, now).rows[j];
            if r.platform == platform && r.uuid.Some?
               && LastWritten(rows, platform, readings, now, r.uuid.value).Some? then
              var d := LastWritten(rows, platform, readings, now, r.uuid.value).value;
              r == Row(platform, Some(d.uuid), d.name, false, d.attrs, true, now)
            else j < |rows| && r == rows[j]
  {
    if readings != [] {
      var init, last := readings[..|readings| - 1], readings[|readings| - 1];
      var before := WriteAll(rows, platform, init, now);
      WriteAllKeeps(rows, platform, init, now);
      if last.Parsed? && !Refused(before.rows, platform, last.data) {
        RowOfWritten(before.rows, platform, last.data, now, j);
      }
      if j < |before.rows| {
        RowOfWriteAll(rows, platform, init, now, j);
      }
    }
  }

  /**
    Every row after any run, failures or not. A row of the platform whose uuid was written is as the last
    written item says, and active. Every other row is an old one and as it was, except that it is
    deactivated if it is an active row of the platform whose uuid was not listed, unless it is marked as a
    template and such rows are spared.
   */
  lemma {:induction false} RowOfRun(rows: seq<Row>, platform: Platform, readings: seq<Reading>, sparesTemplates: bool,
          now: int, j: nat)
    requires Unique(rows) && j < |Synced(rows, platform, readings, sparesTemplates, now)|
    ensures var r := Synced(rows, platform, readings, sparesTemplates, now)[j];
            if r.platform == platform && r.uuid.Some?
               && LastWritten(rows, platform, readings, now, r.uuid.value).Some? then
              var d := LastWritten(rows, platform, readings, now, r.uuid.value).value;
              r == Row(platform, Some(d.uuid), d.name, false, d.attrs, true, now)
            else
              && j < |rows|
              && r == if rows[j].platform == platform && rows[j].isActive && !IsListed(readings, rows[j].uuid)
                         && !(sparesTemplates && rows[j].isTemplate)
                      then rows[j].(isActive := false, stamp := now) else rows[j]
  {
    RowOfWriteAll(rows, platform, readings, now, j);
    SeenAsRead(rows, platform, readings, now);
    var p := WriteAll(rows, platform, readings, now);
    var r := p.rows[j];
    if r.uuid.Some? {
      SeenInIff(readings, r.uuid.value);
    }
  }

  /**
    So an active row of the platform stays active exactly if its uuid was listed, even if the item was
    refused, or if it is a spared template; and an inactive one becomes active exactly if it was written.
   */
  lemma {:induction false} StaysActiveIff(rows: seq<Row>, platform: Platform, readings: seq<Reading>,
          sparesTemplates: bool, now: int, j: nat)
    requires Unique(rows) && j < |rows| && rows[j].platform == platform
    ensures j < |Synced(rows, platform, readings, sparesTemplates, now)|
    ensures Synced(rows, platform, readings, sparesTemplates, now)[j].isActive <==>
            if rows[j].isActive then
              || (exists i :: 0 <= i < |readings| && readings[i].Parsed? && rows[j].uuid == Some(readings[i].data.uuid))
              || (sparesTemplates && rows[j].isTemplate)
            else
              exists i: nat :: i < |readings| && IsWritten(rows, platform, readings, now, i) &&
                               rows[j].uuid == Some(readings[i].data.uuid)
  {
    EveryRun(rows, platform, readings, sparesTemplates, now);
    RowOfRun(rows, platform, readings, sparesTemplates, now, j);
  }

  /** A host that a column refuses is listed, so it stays active although it fails. */
  lemma {:induction false} RefusedStaysActive(platform: Platform, u: Uuid, a: Name, x: Attrs, now: int)
    ensures var rows := [Row(platform, Some(u), a, false, x, true, 0)];
            var readings := [Parsed(Data(u, a, x, false))];
            FailedCount(rows, platform, readings, now) == 1 && Synced(rows, platform, readings, false, now) == rows
  {
    var rows, readings := [Row(platform, Some(u), a, false, x, true, 0)], [Parsed(Data(u, a, x, false))];
    assert readings[..0] == [];
    assert WriteAll(rows, platform, readings, now) == Progress(rows, [u], [], 1);
  }

  lemma {:induction false} WrittenHasRow(rows: seq<Row>, platform: Platform, readings: seq<Reading>, now: int, i: nat)
    requires i < |readings| && IsWritten(rows, platform, readings, now, i)
    ensures readings[i].data.uuid in WriteAll(rows, platform, readings, now).done
  {
    if i < |readings| - 1 {
      assert readings[..|readings| - 1][..i] == readings[..i];
      WrittenHasRow(rows, platform, readings[..|readings| - 1], now, i);
    }
  }

  /** With distinct uuids, an item that is written is what the table has in the end. */
  lemma {:induction false} WrittenIsStored(rows: seq<Row>, platform: Platform, readings: seq<Reading>,
          sparesTemplates: bool, now: int, i: nat)
    requires Unique(rows) && DistinctUuids(readings) && i < |readings| && IsWritten(rows, platform, readings, now, i)
    ensures var d := readings[i].data;
            Row(platform, Some(d.uuid), d.name, false, d.attrs, true, now) in
              Synced(rows, platform, readings, sparesTemplates, now)
  {
    var u, rows' := readings[i].data.uuid, Synced(rows, platform, readings, sparesTemplates, now);
    WrittenHasRow(rows, platform, readings, now, i);
    EveryRun(rows, platform, readings, sparesTemplates, now);
    assert ActiveIn(rows', platform, u);
    var j: nat :| j < |rows'| && IsRowOf(rows'[j], platform, u) && rows'[j].isActive;
    RowOfRun(rows, platform, readings, sparesTemplates, now, j);
    assert LastWritten(rows, platform, readings, now, u) == Some(readings[i].data);
    assert rows'[j] in rows';
  }

  /**
    Whatever else fails: an entry that is written to the virtual machine table is no template, has a
    configuration and parses, and is stored with its attributes as a virtual machine; an entry that is
    written to the template table is a template, and is stored with its attributes as a template.
   */
  lemma {:induction false} EntryIsStored(rows: seq<Row>, platform: Platform, entries: seq<Entry>, now: int, k: nat)
    requires Unique(rows) && DistinctEntries(entries) && k < |entries|
    ensures IsWritten(rows, platform, VmReadings(entries), now, k) ==>
              var e := entries[k];
              && !e.isTemplate && e.hasConfig && e.vmParses && e.storable
              && Row(platform, Some(e.uuid), e.name, false, e.vmAttrs, true, now) in
                 Synced(rows, platform, VmReadings(entries), true, now)
    ensures IsWritten(rows, platform, TemplateReadings(entries), now, k) ==>
              var e := entries[k];
              && e.isTemplate && e.hasConfig && e.templateParses && e.storable
              && Row(platform, Some(e.uuid), e.name, false, e.templateAttrs, true, now) in
                 Synced(rows, platform, TemplateReadings(entries), false, now)
  {
    if IsWritten(rows, platform, VmReadings(entries), now, k) {
      WrittenIsStored(rows, platform, VmReadings(entries), true, now, k);
    }
    if IsWritten(rows, platform, TemplateReadings(entries), now, k) {
      WrittenIsStored(rows, platform, TemplateReadings(entries), false, now, k);
    }
  }

  /**
    An entry without a configuration fails as a virtual machine and is passed over as a template, so a run
    of the virtual machines can only be clean if all entries have one and parse.
   */
  lemma {:induction false} CleanVmsNeedConfig(rows: seq<Row>, platform: Platform, entries: seq<Entry>, now: int, k: nat)
    requires k < |entries|
    ensures FailedCount(rows, platform, VmReadings(entries), now) == 0 ==> entries[k].hasConfig && entries[k].vmParses
    ensures FailedCount(rows, platform, TemplateReadings(entries), now) == 0 ==>
              (entries[k].hasConfig && entries[k].isTemplate ==> entries[k].templateParses)
    ensures !entries[k].hasConfig ==> TemplateReadings(entries)[k] == Skipped
  {
    if FailedCount(rows, platform, VmReadings(entries), now) == 0 {
      CleanRunIsUnbroken(rows, platform, VmReadings(entries), now);
      assert !VmReadings(entries)[k].Broken?;
    }
    if FailedCount(rows, platform, TemplateReadings(entries), now) == 0 {
      CleanRunIsUnbroken(rows, platform, TemplateReadings(entries), now);
      assert !TemplateReadings(entries)[k].Broken?;
    }
  }

  // ----- the table after a clean run

  /** The last item with this uuid. */
  function LastOf(readings: seq<Reading>, u: Uuid): (d: Option<Data>)
    ensures d.Some? ==> d.value.uuid == u
  {
    if readings == [] then None
    else
      var last := readings[|readings| - 1];
      if last.Parsed? && last.data.uuid == u then Some(last.data) else LastOf(readings[..|readings| - 1], u)
  }

  predicate WasRead(readings: seq<Reading>, uuid: Option<Uuid>) {
    uuid.Some? && LastOf(readings, uuid.value).Some?
  }

  lemma {:induction false} ReadIsSeen(readings: seq<Reading>, u: Uuid)
    ensures LastOf(readings, u).Some? <==> u in SeenIn(readings)
  {
    if readings != [] {
      ReadIsSeen(readings[..|readings| - 1], u);
    }
  }

  /** Row j is as the last item of its uuid says, or, if none was read, as it was. */
  ghost predicate AsLastRead(rows: seq<Row>, platform: Platform, readings: seq<Reading>, r: Row, j: nat) {
    if r.platform == platform && WasRead(readings, r.uuid)
    then SameData(r, NewRow(platform, LastOf(readings, r.uuid.value).value, 0))
    else j < |rows| && r == rows[j]
  }

  lemma {:induction false} CleanRow(rows: seq<Row>, platform: Platform, readings: seq<Reading>, now: int, j: nat)
    requires Unique(rows) && FailedCount(rows, platform, readings, now) == 0
    requires j < |WriteAll(rows, platform, readings, now).rows|
    ensures AsLastRead(rows, platform, readings, WriteAll(rows, platform, readings, now).rows[j], j)
  {
    if readings != [] {
      var init, last := readings[..|readings| - 1], readings[|readings| - 1];
      var before := WriteAll(rows, platform, init, now);
      WriteAllKeeps(rows, platform, init, now);
      if j < |before.rows| {
        CleanRow(rows, platform, init, now, j);
        if last.Parsed? && IsRowOf(before.rows[j], platform, last.data.uuid) {
          FindUnique(before.rows, platform, last.data.uuid, j);
        }
      }
    }
  }

  /** After a clean run every uuid that was read has a row. */
  lemma {:induction false} CleanRunHasRow(rows: seq<Row>, platform: Platform, readings: seq<Reading>, now: int, u: Uuid)
      returns (j: nat)
    requires Unique(rows) && FailedCount(rows, platform, readings, now) == 0 && LastOf(readings, u).Some?
    ensures j < |WriteAll(rows, platform, readings, now).rows|
    ensures IsRowOf(WriteAll(rows, platform, readings, now).rows[j], platform, u)
  {
    WriteAllKeeps(rows, platform, readings, now);
    SeenAsRead(rows, platform, readings, now);
    ReadIsSeen(readings, u);
    var p := WriteAll(rows, platform, readings, now);
    assert ActiveIn(p.rows, platform, u);
    j :| 0 <= j < |p.rows| && IsRowOf(p.rows[j], platform, u) && p.rows[j].isActive;
  }

  // ----- when a run is clean

  /** No row of another platform has the uuid. */
  ghost predicate NoForeign(rows: seq<Row>, platform: Platform, u: Uuid) {
    forall k :: 0 <= k < |rows| && rows[k].uuid == Some(u) ==> rows[k].platform == platform
  }

  /** Nothing read before under another uuid ended with this name. */
  ghost predicate NameNotRead(readings: seq<Reading>, data: Data) {
    forall v :: v != data.uuid && LastOf(readings, v).Some? ==> LastOf(readings, v).value.name != data.name
  }

  /** Only the item's own row had its name, or rows that have been read before. */
  ghost predicate NameFree(rows: seq<Row>, platform: Platform, readings: seq<Reading>, data: Data) {
    forall k :: 0 <= k < |rows| && rows[k].platform == platform && rows[k].name == data.name ==>
      rows[k].uuid == Some(data.uuid) || WasRead(readings, rows[k].uuid)
  }

  ghost predicate Fits(rows: seq<Row>, platform: Platform, before: seq<Reading>, data: Data) {
    data.storable && NoForeign(rows, platform, data.uuid) && NameNotRead(before, data) &&
    NameFree(rows, platform, before, data)
  }

  /** Every item can be read, and fits the table given the items listed before it. */
  ghost predicate Smooth(rows: seq<Row>, platform: Platform, readings: seq<Reading>) {
    forall i :: 0 <= i < |readings| ==>
      !readings[i].Broken? && (readings[i].Parsed? ==> Fits(rows, platform, readings[..i], readings[i].data))
  }

  lemma {:induction false} RefusedUnlessFits(rows: seq<Row>, platform: Platform, before: seq<Reading>, data: Data,
          now: int)
    requires Unique(rows) && FailedCount(rows, platform, before, now) == 0
    requires Refused(WriteAll(rows, platform, before, now).rows, platform, data)
    ensures !Fits(rows, platform, before, data)
  {
    var p := WriteAll(rows, platform, before, now);
    WriteAllKeeps(rows, platform, before, now);
    if data.storable {
      var j: nat :| j < |p.rows| && j != Find(p.rows, platform, data.uuid) &&
                    Clash(p.rows[j], NewRow(platform, data, 0));
      CleanRow(rows, platform, before, now, j);
      if IsRowOf(p.rows[j], platform, data.uuid) {
        FindUnique(p.rows, platform, data.uuid, j);
      }
    }
  }

  lemma {:induction false} FitsUnlessRefused(rows: seq<Row>, platform: Platform, before: seq<Reading>, data: Data,
          now: int)
    requires Unique(rows) && FailedCount(rows, platform, before, now) == 0
    requires !Refused(WriteAll(rows, platform, before, now).rows, platform, data)
    ensures Fits(rows, platform, before, data)
  {
    var p := WriteAll(rows, platform, before, now);
    WriteAllKeeps(rows, platform, before, now);
    var i := Find(p.rows, platform, data.uuid);
    assert forall j :: 0 <= j < |p.rows| && j != i ==> !Clash(p.rows[j], NewRow(platform, data, 0));
    forall k | 0 <= k < |rows| && rows[k].uuid == Some(data.uuid) ensures rows[k].platform == platform {
      assert p.rows[k].uuid == rows[k].uuid && p.rows[k].platform == rows[k].platform;
    }
    forall v | v != data.uuid && LastOf(before, v).Some? ensures LastOf(before, v).value.name != data.name {
      var j := CleanRunHasRow(rows, platform, before, now, v);
      CleanRow(rows, platform, before, now, j);
    }
    forall k | 0 <= k < |rows| && rows[k].platform == platform && rows[k].name == data.name
      ensures rows[k].uuid == Some(data.uuid) || WasRead(before, rows[k].uuid)
    {
      CleanRow(rows, platform, before, now, k);
    }
  }

  /** A run fails nowhere exactly if the inventory is smooth for the table as it was before the run. */
  lemma {:induction false} CleanIff(rows: seq<Row>, platform: Platform, readings: seq<Reading>, now: int)
    requires Unique(rows)
    ensures FailedCount(rows, platform, readings, now) == 0 <==> Smooth(rows, platform, readings)
  {
    if readings != [] {
      var init, last := readings[..|readings| - 1], readings[|readings| - 1];
      CleanIff(rows, platform, init, now);
      assert forall i :: 0 <= i < |init| ==> readings[i] == init[i] && readings[..i] == init[..i];
      if FailedCount(rows, platform, init, now) == 0 && last.Parsed? {
        if Refused(WriteAll(rows, platform, init, now).rows, platform, last.data) {
          RefusedUnlessFits(rows, platform, init, last.data, now);
        } else {
          FitsUnlessRefused(rows, platform, init, last.data, now);
        }
      }
    }
  }

  // ----- when a clean run, repeated, is clean again

  /** Item i has the name that v ends with, and v is first listed after it. */
  predicate TakesEarly(readings: seq<Reading>, i: nat, v: Uuid)
    requires i < |readings|
  {
    && readings[i].Parsed? && v != readings[i].data.uuid
    && LastOf(readings, v).Some? && LastOf(readings, v).value.name == readings[i].data.name
    && LastOf(readings[..i], v).None?
  }

  /** No item takes a name that another uuid, first listed later, ends with. */
  ghost predicate StaysClean(readings: seq<Reading>) {
    forall i: nat, v :: i < |readings| ==> !TakesEarly(readings, i, v)
  }

  /** A row of the platform in the table after a clean run: as last read, or untouched but perhaps deactivated. */
  lemma {:induction false} RowOfCleanRun(rows: seq<Row>, platform: Platform, readings: seq<Reading>,
          sparesTemplates: bool, now: int, k: nat)
    requires Unique(rows) && FailedCount(rows, platform, readings, now) == 0
    requires k < |Synced(rows, platform, readings, sparesTemplates, now)|
    ensures var r := Synced(rows, platform, readings, sparesTemplates, now)[k];
            if r.platform == platform && WasRead(readings, r.uuid)
            then SameData(r, NewRow(platform, LastOf(readings, r.uuid.value).value, 0))
            else k < |rows| && r.platform == rows[k].platform && r.uuid == rows[k].uuid && r.name == rows[k].name
  {
    CleanRow(rows, platform, readings, now, k);
    SeenAsRead(rows, platform, readings, now);
    var r := WriteAll(rows, platform, readings, now).rows[k];
    if WasRead(readings, r.uuid) {
      ReadIsSeen(readings, r.uuid.value);
    }
  }

  lemma {:induction false} ReadBeforeIsRead(readings: seq<Reading>, i: nat, u: Uuid)
    requires i <= |readings| && LastOf(readings[..i], u).Some?
    ensures LastOf(readings, u).Some?
    decreases |readings| - i
  {
    if i < |readings| {
      assert readings[..i + 1][..i] == readings[..i];
      ReadBeforeIsRead(readings, i + 1, u);
    } else {
      assert readings[..i] == readings;
    }
  }

  /** After a clean run an item fits again exactly if no uuid that is first listed later has taken its name. */
  lemma {:induction false} FitsAgainIff(rows: seq<Row>, platform: Platform, readings: seq<Reading>,
          sparesTemplates: bool, now: int, i: nat)
    requires Unique(rows) && FailedCount(rows, platform, readings, now) == 0
    requires i < |readings| && readings[i].Parsed? && Fits(rows, platform, readings[..i], readings[i].data)
    ensures Fits(Synced(rows, platform, readings, sparesTemplates, now), platform, readings[..i], readings[i].data) <==>
            forall v :: !TakesEarly(readings, i, v)
  {
    var once, d := Synced(rows, platform, readings, sparesTemplates, now), readings[i].data;
    EveryRun(rows, platform, readings, sparesTemplates, now);
    assert NoForeign(once, platform, d.uuid) by {
      forall k: nat | k < |once| && once[k].uuid == Some(d.uuid) ensures once[k].platform == platform {
        assert k < |rows| ==> once[k].uuid == rows[k].uuid && once[k].platform == rows[k].platform;
      }
    }
    if NameFree(once, platform, readings[..i], d) {
      forall v ensures !TakesEarly(readings, i, v) {
        if TakesEarly(readings, i, v) {
          var k := CleanRunHasRow(rows, platform, readings, now, v);
          assert once[k].uuid == Some(v) && once[k].platform == platform;
          RowOfCleanRun(rows, platform, readings, sparesTemplates, now, k);
        }
      }
    } else {
      var k: nat :| k < |once| && once[k].platform == platform && once[k].name == d.name &&
                    once[k].uuid != Some(d.uuid) && !WasRead(readings[..i], once[k].uuid);
      RowOfCleanRun(rows, platform, readings, sparesTemplates, now, k);
      if WasRead(readings, once[k].uuid) {
        assert TakesEarly(readings, i, once[k].uuid.value);
      }
    }
  }

  /** A clean run repeated on the same inventory is clean again exactly if no name is taken too early. */
  lemma {:induction false} RerunCleanIff(rows: seq<Row>, platform: Platform, readings: seq<Reading>,
          sparesTemplates: bool, now: int, later: int)
    requires Unique(rows) && FailedCount(rows, platform, readings, now) == 0
    ensures FailedCount(Synced(rows, platform, readings, sparesTemplates, now), platform, readings, later) == 0
            <==> StaysClean(readings)
  {
    var once := Synced(rows, platform, readings, sparesTemplates, now);
    EveryRun(rows, platform, readings, sparesTemplates, now);
    CleanIff(rows, platform, readings, now);
    CleanIff(once, platform, readings, later);
    forall i | 0 <= i < |readings| && readings[i].Parsed?
      ensures Fits(once, platform, readings[..i], readings[i].data) <==>
              forall v :: !TakesEarly(readings, i, v)
    {
      FitsAgainIff(rows, platform, readings, sparesTemplates, now, i);
    }
  }

  lemma {:induction false} LastOfFound(readings: seq<Reading>, u: Uuid) returns (i: nat)
    requires LastOf(readings, u).Some?
    ensures i < |readings| && readings[i] == Parsed(LastOf(readings, u).value)
  {
    var last := readings[|readings| - 1];
    if last.Parsed? && last.data.uuid == u {
      i := |readings| - 1;
    } else {
      i := LastOfFound(readings[..|readings| - 1], u);
    }
  }

  lemma {:induction false} LastOfDistinct(readings: seq<Reading>, i: nat)
    requires DistinctUuids(readings) && i < |readings| && readings[i].Parsed?
    ensures LastOf(readings, readings[i].data.uuid) == Some(readings[i].data)
  {
    if i < |readings| - 1 {
      LastOfDistinct(readings[..|readings| - 1], i);
    }
  }

  lemma {:induction false} DistinctStaysClean(rows: seq<Row>, platform: Platform, readings: seq<Reading>)
    requires DistinctUuids(readings) && Smooth(rows, platform, readings)
    ensures StaysClean(readings)
  {
    forall i: nat, v | i < |readings| ensures !TakesEarly(readings, i, v) {
      if TakesEarly(readings, i, v) {
        var j := LastOfFound(readings, v);
        if j < i {
          LastOfDistinct(readings[..i], j);
        } else {
          LastOfDistinct(readings[..j], i);
        }
      }
    }
  }

  /**
    A clean run over an inventory in which no name is taken too early, for instance over distinct uuids,
    is final: repeated, it fails nowhere and leaves every row as it is, apart from timestamps.
   */
  lemma {:induction false} CleanRunIsFinal(rows: seq<Row>, platform: Platform, readings: seq<Reading>,
          sparesTemplates: bool, now: int, later: int)
    requires Unique(rows) && FailedCount(rows, platform, readings, now) == 0
    requires StaysClean(readings) || DistinctUuids(readings)
    ensures var once := Synced(rows, platform, readings, sparesTemplates, now);
            && FailedCount(once, platform, readings, later) == 0
            && SameTable(once, Synced(once, platform, readings, sparesTemplates, later))
  {
    CleanIff(rows, platform, readings, now);
    if DistinctUuids(readings) {
      DistinctStaysClean(rows, platform, readings);
    }
    RerunCleanIff(rows, platform, readings, sparesTemplates, now, later);
    var once := Synced(rows, platform, readings, sparesTemplates, now);
    var twice := Synced(once, platform, readings, sparesTemplates, later);
    EveryRun(rows, platform, readings, sparesTemplates, now);
    EveryRun(once, platform, readings, sparesTemplates, later);
    if |twice| > |once| {
      RerunKeepsRow(rows, platform, readings, sparesTemplates, now, later, |once|);
    }
    forall k | 0 <= k < |twice| ensures k < |once| && SameData(once[k], twice[k]) {
      RerunKeepsRow(rows, platform, readings, sparesTemplates, now, later, k);
    }
  }

  lemma {:induction false} RerunKeepsRow(rows: seq<Row>, platform: Platform, readings: seq<Reading>,
          sparesTemplates: bool, now: int, later: int, k: nat)
    requires Unique(rows) && FailedCount(rows, platform, readings, now) == 0
    requires var once := Synced(rows, platform, readings, sparesTemplates, now);
             && FailedCount(once, platform, readings, later) == 0
             && k < |Synced(once, platform, readings, sparesTemplates, later)|
    ensures var once := Synced(rows, platform, readings, sparesTemplates, now);
            k < |once| && SameData(once[k], Synced(once, platform, readings, sparesTemplates, later)[k])
  {
    var once := Synced(rows, platform, readings, sparesTemplates, now);
    var again := WriteAll(once, platform, readings, later);
    EveryRun(rows, platform, readings, sparesTemplates, now);
    WriteAllKeeps(once, platform, readings, later);
    SeenAsRead(rows, platform, readings, now);
    SeenAsRead(once, platform, readings, later);
    CleanRow(once, platform, readings, later, k);
    var r := again.rows[k];
    if r.platform == platform && WasRead(readings, r.uuid) {
      var u := r.uuid.value;
      var j := CleanRunHasRow(rows, platform, readings, now, u);
      assert IsRowOf(once[j], platform, u) && IsRowOf(again.rows[j], platform, u);
      assert j == k by {
        FindUnique(again.rows, platform, u, j);
        FindUnique(again.rows, platform, u, k);
      }
      RowOfCleanRun(rows, platform, readings, sparesTemplates, now, k);
      ReadIsSeen(readings, u);
    }
  }

  // ----- when repeating the run helps

  /** The table after one run for each of these times, always over the same inventory. */
  function Reruns(rows: seq<Row>, platform: Platform, readings: seq<Reading>, sparesTemplates: bool,
          times: seq<int>): seq<Row>
  {
    if times == [] then rows
    else
      Synced(Reruns(rows, platform, readings, sparesTemplates, times[..|times| - 1]),
             platform, readings, sparesTemplates, times[|times| - 1])
  }

  /** The position of the platform's row with this name, or the end of the table. */
  function NameAt(rows: seq<Row>, platform: Platform, name: Name): (k: nat)
    ensures k <= |rows|
    ensures k < |rows| ==> rows[k].platform == platform && rows[k].name == name
    ensures forall j :: 0 <= j < k ==> !(rows[j].platform == platform && rows[j].name == name)
  {
    if rows == [] then 0
    else if rows[0].platform == platform && rows[0].name == name then 0
    else 1 + NameAt(rows[1..], platform, name)
  }

  /** The uuid whose row has the name that u is to get. */
  function WaitsFor(rows: seq<Row>, platform: Platform, readings: seq<Reading>, u: Uuid): Option<Uuid> {
    match LastOf(readings, u)
    case None => None
    case Some(d) =>
      var k := NameAt(rows, platform, d.name);
      if k < |rows| && rows[k].uuid != Some(u) then rows[k].uuid else None
  }

  /** Which item waits for the renaming of which other item. */
  function Renames(rows: seq<Row>, platform: Platform, readings: seq<Reading>): Links {
    map u | u in SeenIn(readings) :: WaitsFor(rows, platform, readings, u)
  }

  function Pending(rows: seq<Row>, platform: Platform, readings: seq<Reading>): set<Uuid> {
    set u | u in SeenIn(readings) && WaitsFor(rows, platform, readings, u).Some?
  }

  ghost predicate DistinctNames(readings: seq<Reading>) {
    forall i, j :: 0 <= i < j < |readings| && readings[i].Parsed? && readings[j].Parsed? ==>
      readings[i].data.name != readings[j].data.name
  }

  /** Nothing but pending renames is in the way of the items. */
  ghost predicate OnlyRenamesPend(rows: seq<Row>, platform: Platform, readings: seq<Reading>) {
    && DistinctNames(readings)
    && forall i :: 0 <= i < |readings| ==>
         && !readings[i].Broken?
         && (readings[i].Parsed? ==>
              && readings[i].data.storable && NoForeign(rows, platform, readings[i].data.uuid)
              && NameFree(rows, platform, readings, readings[i].data))
  }

  lemma {:induction false} NameAtUnique(rows: seq<Row>, platform: Platform, name: Name, k: nat)
    requires Unique(rows) && k < |rows| && rows[k].platform == platform && rows[k].name == name
    ensures NameAt(rows, platform, name) == k
  {
    var j := NameAt(rows, platform, name);
    assert j < k ==> Clash(rows[j], rows[k]);
  }

  lemma {:induction false} LastOfInit(readings: seq<Reading>, u: Uuid)
    requires DistinctUuids(readings) && readings != [] && LastOf(readings[..|readings| - 1], u).Some?
    ensures LastOf(readings, u) == LastOf(readings[..|readings| - 1], u)
  {
    var i := LastOfFound(readings[..|readings| - 1], u);
  }

  /** In any run over distinct uuids, a row stays as it is or gets the name that its uuid is to get. */
  lemma {:induction false} NameInRun(rows: seq<Row>, platform: Platform, readings: seq<Reading>, now: int, k: nat)
    requires DistinctUuids(readings) && k < |WriteAll(rows, platform, readings, now).rows|
    ensures var r := WriteAll(rows, platform, readings, now).rows[k];
            || (k < |rows| && r == rows[k])
            || (r.platform == platform && WasRead(readings, r.uuid) &&
                r.name == LastOf(readings, r.uuid.value).value.name)
  {
    if readings != [] {
      var init, last := readings[..|readings| - 1], readings[|readings| - 1];
      var before := WriteAll(rows, platform, init, now);
      if k < |before.rows| {
        NameInRun(rows, platform, init, now, k);
        if WasRead(init, before.rows[k].uuid) {
          LastOfInit(readings, before.rows[k].uuid.value);
        }
      }
    }
  }

  /** An item whose name no other row has is written, and its row has that name at the end of the run. */
  lemma {:induction false} FreeItemIsWritten(rows: seq<Row>, platform: Platform, readings: seq<Reading>, now: int,
          i: nat)
      returns (k: nat)
    requires Unique(rows) && DistinctUuids(readings) && DistinctNames(readings)
    requires i < |readings| && readings[i].Parsed? && readings[i].data.storable
    requires NoForeign(rows, platform, readings[i].data.uuid)
    requires forall j :: 0 <= j < |rows| && rows[j].platform == platform && rows[j].name == readings[i].data.name ==>
                           rows[j].uuid == Some(readings[i].data.uuid)
    ensures var rows' := WriteAll(rows, platform, readings, now).rows;
            k < |rows'| && IsRowOf(rows'[k], platform, readings[i].data.uuid) && rows'[k].name == readings[i].data.name
  {
    var init, last := readings[..|readings| - 1], readings[|readings| - 1];
    var before, d := WriteAll(rows, platform, init, now), readings[i].data;
    if i < |init| {
      k := FreeItemIsWritten(rows, platform, init, now, i);
    } else {
      WriteAllKeeps(rows, platform, init, now);
      forall j: nat | j < |before.rows| && Clash(before.rows[j], NewRow(platform, d, 0))
        ensures j == Find(before.rows, platform, d.uuid)
      {
        NameInRun(rows, platform, init, now, j);
        if WasRead(init, before.rows[j].uuid) {
          var m := LastOfFound(init, before.rows[j].uuid.value);
        }
        FindUnique(before.rows, platform, d.uuid, j);
      }
      k := Find(before.rows, platform, d.uuid);
    }
  }

  /** A run makes no item wait that did not wait before, and for no other row. */
  lemma {:induction false} NoNewWaiting(rows: seq<Row>, platform: Platform, readings: seq<Reading>,
          sparesTemplates: bool, now: int, u: Uuid)
    requires Unique(rows) && DistinctUuids(readings) && DistinctNames(readings)
    ensures var waits := WaitsFor(Synced(rows, platform, readings, sparesTemplates, now), platform, readings, u);
            waits.Some? ==> waits == WaitsFor(rows, platform, readings, u)
  {
    var rows' := Synced(rows, platform, readings, sparesTemplates, now);
    if WaitsFor(rows', platform, readings, u).Some? {
      var k := NameAt(rows', platform, LastOf(readings, u).value.name);
      NameInRun(rows, platform, readings, now, k);
      var i := LastOfFound(readings, u);
      if WasRead(readings, rows'[k].uuid) {
        var j := LastOfFound(readings, rows'[k].uuid.value);
      }
      NameAtUnique(rows, platform, LastOf(readings, u).value.name, k);
    }
  }

  /** An item that waits for one that waits for none no longer waits after the run. */
  lemma {:induction false} WaitingEnds(rows: seq<Row>, platform: Platform, readings: seq<Reading>,
          sparesTemplates: bool, now: int, u: Uuid, w: Uuid)
    requires Unique(rows) && DistinctUuids(readings) && OnlyRenamesPend(rows, platform, readings)
    requires WaitsFor(rows, platform, readings, u) == Some(w)
    requires LastOf(readings, w).Some? && WaitsFor(rows, platform, readings, w).None?
    ensures WaitsFor(Synced(rows, platform, readings, sparesTemplates, now), platform, readings, u).None?
  {
    var rows' := Synced(rows, platform, readings, sparesTemplates, now);
    var i := LastOfFound(readings, w);
    var j := LastOfFound(readings, u);
    forall k | 0 <= k < |rows| && rows[k].platform == platform && rows[k].name == readings[i].data.name
      ensures rows[k].uuid == Some(w)
    {
      NameAtUnique(rows, platform, readings[i].data.name, k);
    }
    var k := FreeItemIsWritten(rows, platform, readings, now, i);
    NoNewWaiting(rows, platform, readings, sparesTemplates, now, u);
    EveryRun(rows, platform, readings, sparesTemplates, now);
    WriteAllKeeps(rows, platform, readings, now);
    if WaitsFor(rows', platform, readings, u).Some? {
      var m := NameAt(rows', platform, readings[j].data.name);
      FindUnique(rows', platform, w, k);
      FindUnique(rows', platform, w, m);
      assert false;
    }
  }

  lemma {:induction false} RunKeepsOnlyRenames(rows: seq<Row>, platform: Platform, readings: seq<Reading>,
          sparesTemplates: bool, now: int)
    requires Unique(rows) && DistinctUuids(readings) && OnlyRenamesPend(rows, platform, readings)
    ensures OnlyRenamesPend(Synced(rows, platform, readings, sparesTemplates, now), platform, readings)
  {
    var rows' := Synced(rows, platform, readings, sparesTemplates, now);
    EveryRun(rows, platform, readings, sparesTemplates, now);
    forall i | 0 <= i < |readings| && readings[i].Parsed?
      ensures NoForeign(rows', platform, readings[i].data.uuid) && NameFree(rows', platform, readings, readings[i].data)
    {
      forall k: nat | k < |rows'| && rows'[k].uuid == Some(readings[i].data.uuid)
        ensures rows'[k].platform == platform
      {
        assert k < |rows| ==> rows'[k].uuid == rows[k].uuid && rows'[k].platform == rows[k].platform;
      }
      forall k: nat | k < |rows'| && rows'[k].platform == platform && rows'[k].name == readings[i].data.name
        ensures rows'[k].uuid == Some(readings[i].data.uuid) || WasRead(readings, rows'[k].uuid)
      {
        NameInRun(rows, platform, readings, now, k);
      }
    }
  }

  /** On an acyclic relation some waiting item waits for one that waits for none. */
  lemma {:induction false} SomeWaitEnds(rows: seq<Row>, platform: Platform, readings: seq<Reading>, u: Uuid)
      returns (v: Uuid)
    requires OnlyRenamesPend(rows, platform, readings) && Acyclic(Renames(rows, platform, readings))
    requires u in Pending(rows, platform, readings)
    ensures v in Pending(rows, platform, readings)
    ensures var w := WaitsFor(rows, platform, readings, v).value;
            LastOf(readings, w).Some? && WaitsFor(rows, platform, readings, w).None?
    decreases Depth(Renames(rows, platform, readings), u)
  {
    var links, w := Renames(rows, platform, readings), WaitsFor(rows, platform, readings, u).value;
    var i := LastOfFound(readings, u);
    assert WasRead(readings, Some(w));
    ReadIsSeen(readings, w);
    DepthAbove(links, u);
    if WaitsFor(rows, platform, readings, w).Some? {
      v := SomeWaitEnds(rows, platform, readings, w);
    } else {
      v := u;
    }
  }

  lemma {:induction false} ProperSubsetIsSmaller<T>(a: set<T>, b: set<T>, x: T)
    requires a <= b && x in b && x !in a
    ensures |a| < |b|
  {
    assert |b| == |a| + |b - a| && x in b - a;
  }

  /** Where only renames without a cycle are in the way, each run settles at least one. */
  lemma {:induction false} RunSettlesOne(rows: seq<Row>, platform: Platform, readings: seq<Reading>,
          sparesTemplates: bool, now: int)
    requires Unique(rows) && DistinctUuids(readings)
    requires OnlyRenamesPend(rows, platform, readings) && Acyclic(Renames(rows, platform, readings))
    ensures var rows' := Synced(rows, platform, readings, sparesTemplates, now);
            && Unique(rows') && OnlyRenamesPend(rows', platform, readings)
            && Acyclic(Renames(rows', platform, readings))
            && (Pending(rows', platform, readings) == {} ||
                |Pending(rows', platform, readings)| < |Pending(rows, platform, readings)|)
  {
    var rows' := Synced(rows, platform, readings, sparesTemplates, now);
    EveryRun(rows, platform, readings, sparesTemplates, now);
    RunKeepsOnlyRenames(rows, platform, readings, sparesTemplates, now);
    forall u ensures WaitsFor(rows', platform, readings, u).Some? ==>
                     WaitsFor(rows', platform, readings, u) == WaitsFor(rows, platform, readings, u) {
      NoNewWaiting(rows, platform, readings, sparesTemplates, now, u);
    }
    CutKeepsAcyclic(Renames(rows, platform, readings), Renames(rows', platform, readings));
    if u :| u in Pending(rows', platform, readings) {
      var v := SomeWaitEnds(rows, platform, readings, u);
      WaitingEnds(rows, platform, readings, sparesTemplates, now, v, WaitsFor(rows, platform, readings, v).value);
      ProperSubsetIsSmaller(Pending(rows', platform, readings), Pending(rows, platform, readings), v);
    }
  }

  lemma {:induction false} NothingPendingIsSmooth(rows: seq<Row>, platform: Platform, readings: seq<Reading>)
    requires Unique(rows) && DistinctUuids(readings) && OnlyRenamesPend(rows, platform, readings)
    requires Pending(rows, platform, readings) == {}
    ensures Smooth(rows, platform, readings)
  {
    forall i | 0 <= i < |readings| && readings[i].Parsed?
      ensures Fits(rows, platform, readings[..i], readings[i].data)
    {
      var d := readings[i].data;
      forall v | v != d.uuid && LastOf(readings[..i], v).Some? ensures LastOf(readings[..i], v).value.name != d.name {
        var j := LastOfFound(readings[..i], v);
      }
      forall k | 0 <= k < |rows| && rows[k].platform == platform && rows[k].name == d.name
        ensures rows[k].uuid == Some(d.uuid)
      {
        LastOfDistinct(readings, i);
        ReadIsSeen(readings, d.uuid);
        NameAtUnique(rows, platform, d.name, k);
        assert d.uuid !in Pending(rows, platform, readings);
      }
    }
  }

  lemma {:induction false} RerunsSettle(rows: seq<Row>, platform: Platform, readings: seq<Reading>,
          sparesTemplates: bool, times: seq<int>)
    requires Unique(rows) && DistinctUuids(readings)
    requires OnlyRenamesPend(rows, platform, readings) && Acyclic(Renames(rows, platform, readings))
    ensures var rows' := Reruns(rows, platform, readings, sparesTemplates, times);
            && Unique(rows') && OnlyRenamesPend(rows', platform, readings)
            && Acyclic(Renames(rows', platform, readings))
            && (Pending(rows', platform, readings) == {} ||
                |Pending(rows', platform, readings)| + |times| <= |Pending(rows, platform, readings)|)
  {
    if times != [] {
      var before := Reruns(rows, platform, readings, sparesTemplates, times[..|times| - 1]);
      RerunsSettle(rows, platform, readings, sparesTemplates, times[..|times| - 1]);
      RunSettlesOne(before, platform, readings, sparesTemplates, times[|times| - 1]);
    }
  }

  // ----- when repeating the run does not help

  predicate WaitsWithin(rows: seq<Row>, platform: Platform, readings: seq<Reading>, u: Uuid, group: set<Uuid>) {
    WaitsFor(rows, platform, readings, u).Some? && WaitsFor(rows, platform, readings, u).value in group
  }

  /** Each of these uuids waits for another of them. */
  ghost predicate Stuck(rows: seq<Row>, platform: Platform, readings: seq<Reading>, group: set<Uuid>) {
    forall u {:trigger WaitsWithin(rows, platform, readings, u, group)} :: u in group ==>
      WaitsWithin(rows, platform, readings, u, group)
  }

  lemma {:induction false} StuckItemIsRefused(rows: seq<Row>, platform: Platform, readings: seq<Reading>, i: nat,
          group: set<Uuid>)
    requires DistinctUuids(readings) && i < |readings| && readings[i].Parsed? && readings[i].data.uuid in group
    requires Stuck(rows, platform, readings, group)
    ensures Refused(rows, platform, readings[i].data)
  {
    var d := readings[i].data;
    LastOfDistinct(readings, i);
    var k := NameAt(rows, platform, d.name);
    assert WaitsWithin(rows, platform, readings, d.uuid, group);
    assert Clash(rows[k], NewRow(platform, d, 0));
  }

  lemma {:induction false} WriteKeepsStuck(rows: seq<Row>, platform: Platform, readings: seq<Reading>, data: Data,
          now: int, group: set<Uuid>)
    requires Unique(Written(rows, platform, data, now)) && data.uuid !in group && Stuck(rows, platform, readings, group)
    ensures Stuck(Written(rows, platform, data, now), platform, readings, group)
  {
    var rows' := Written(rows, platform, data, now);
    forall u | u in group ensures WaitsWithin(rows', platform, readings, u, group) {
      assert WaitsWithin(rows, platform, readings, u, group);
      var name := LastOf(readings, u).value.name;
      var k := NameAt(rows, platform, name);
      assert rows'[k] == rows[k];
      NameAtUnique(rows', platform, name, k);
    }
  }

  lemma {:induction false} StuckInRun(rows: seq<Row>, platform: Platform, readings: seq<Reading>, n: nat, now: int,
          group: set<Uuid>)
    requires Unique(rows) && DistinctUuids(readings) && n <= |readings| && Stuck(rows, platform, readings, group)
    ensures Stuck(WriteAll(rows, platform, readings[..n], now).rows, platform, readings, group)
  {
    if n > 0 {
      StuckInRun(rows, platform, readings, n - 1, now, group);
      assert readings[..n][..n - 1] == readings[..n - 1];
      var before := WriteAll(rows, platform, readings[..n - 1], now).rows;
      WriteAllKeeps(rows, platform, readings[..n - 1], now);
      var r := readings[n - 1];
      if r.Parsed? && r.data.uuid in group {
        StuckItemIsRefused(before, platform, readings, n - 1, group);
      } else if r.Parsed? && !Refused(before, platform, r.data) {
        RefusedIff(before, platform, r.data, now);
        WriteKeepsStuck(before, platform, readings, r.data, now, group);
      }
    }
  }

  lemma {:induction false} DeactivationKeepsNameAt(rows: seq<Row>, platform: Platform, name: Name, seen: seq<Uuid>,
          sparesTemplates: bool, now: int)
    requires Unique(rows)
    ensures NameAt(Deactivated(rows, platform, seen, sparesTemplates, now), platform, name) ==
            NameAt(rows, platform, name)
  {
    var rows' := Deactivated(rows, platform, seen, sparesTemplates, now);
    var j, k := NameAt(rows, platform, name), NameAt(rows', platform, name);
    assert j < |rows| ==> rows'[j].platform == platform && rows'[j].name == name;
    assert k < |rows| ==> rows[k].platform == platform && rows[k].name == name;
  }

  /** A group that waits for itself does so after every run, and every run fails. */
  lemma {:induction false} StuckForever(rows: seq<Row>, platform: Platform, readings: seq<Reading>,
          sparesTemplates: bool, times: seq<int>, group: set<Uuid>)
    requires Unique(rows) && DistinctUuids(readings) && Stuck(rows, platform, readings, group)
    ensures var rows' := Reruns(rows, platform, readings, sparesTemplates, times);
            Unique(rows') && Stuck(rows', platform, readings, group)
  {
    if times != [] {
      var init, now := times[..|times| - 1], times[|times| - 1];
      StuckForever(rows, platform, readings, sparesTemplates, init, group);
      var before := Reruns(rows, platform, readings, sparesTemplates, init);
      EveryRun(before, platform, readings, sparesTemplates, now);
      WriteAllKeeps(before, platform, readings, now);
      StuckInRun(before, platform, readings, |readings|, now, group);
      assert readings[..|readings|] == readings;
      var p := WriteAll(before, platform, readings, now);
      forall u | u in group
        ensures WaitsWithin(Synced(before, platform, readings, sparesTemplates, now), platform, readings, u, group)
      {
        assert WaitsWithin(p.rows, platform, readings, u, group);
        DeactivationKeepsNameAt(p.rows, platform, LastOf(readings, u).value.name, p.seen, sparesTemplates, now);
      }
    }
  }

  lemma {:induction false} StuckNeverClean(rows: seq<Row>, platform: Platform, readings: seq<Reading>, now: int,
          group: set<Uuid>, u: Uuid)
    requires Unique(rows) && DistinctUuids(readings) && Stuck(rows, platform, readings, group) && u in group
    ensures FailedCount(rows, platform, readings, now) > 0
  {
    assert WaitsWithin(rows, platform, readings, u, group);
    var i := LastOfFound(readings, u);
    StuckInRun(rows, platform, readings, i, now, group);
    StuckItemIsRefused(WriteAll(rows, platform, readings[..i], now).rows, platform, readings, i, group);
    assert readings[..i + 1][..i] == readings[..i];
    FailuresStay(rows, platform, readings, i + 1, now);
  }

  lemma {:induction false} FailuresStay(rows: seq<Row>, platform: Platform, readings: seq<Reading>, n: nat, now: int)
    requires n <= |readings|
    ensures FailedCount(rows, platform, readings[..n], now) <= FailedCount(rows, platform, readings, now)
    decreases |readings| - n
  {
    if n < |readings| {
      FailuresStay(rows, platform, readings, n + 1, now);
      assert readings[..n + 1][..n] == readings[..n];
    } else {
      assert readings[..n] == readings;
    }
  }

  /** On a cycle of renames all waits are for one another. */
  lemma {:induction false} CycleIsStuck(rows: seq<Row>, platform: Platform, readings: seq<Reading>, a: Uuid)
      returns (group: set<Uuid>)
    requires OnCycle(Renames(rows, platform, readings), a)
    ensures a in group && Stuck(rows, platform, readings, group)
  {
    var links := Renames(rows, platform, readings);
    var p: nat :| p > 0 && Climb(links, a, p) == Some(a);
    group := set u | u in links && exists n: nat :: Climb(links, a, n) == Some(u);
    assert Climb(links, a, 0) == Some(a);
    ClimbStays(links, a, p);
    forall u | u in group ensures WaitsWithin(rows, platform, readings, u, group) {
      var n: nat :| Climb(links, a, n) == Some(u);
      CycleNeverEnds(links, a, p, n + 1);
      ClimbStays(links, a, n + 1);
      assert Climb(links, a, n + 1) == Up(links, u);
    }
  }

  // ----- and exactly when it does

  /** Runs keep the platform and uuid of a row, and the name too if the uuid is not among those read. */
  lemma {:induction false} RerunsKeepRow(rows: seq<Row>, platform: Platform, readings: seq<Reading>,
          sparesTemplates: bool, times: seq<int>, k: nat)
    requires DistinctUuids(readings) && k < |rows|
    ensures var rows' := Reruns(rows, platform, readings, sparesTemplates, times);
            && k < |rows'| && rows'[k].platform == rows[k].platform && rows'[k].uuid == rows[k].uuid
            && (!WasRead(readings, rows[k].uuid) ==> rows'[k].name == rows[k].name)
  {
    if times != [] {
      var init, now := times[..|times| - 1], times[|times| - 1];
      RerunsKeepRow(rows, platform, readings, sparesTemplates, init, k);
      var before := Reruns(rows, platform, readings, sparesTemplates, init);
      RunKeepsRow(before, platform, readings, now, k);
    }
  }

  lemma {:induction false} RunKeepsRow(rows: seq<Row>, platform: Platform, readings: seq<Reading>, now: int, k: nat)
    requires DistinctUuids(readings) && k < |rows|
    ensures var rows' := WriteAll(rows, platform, readings, now).rows;
            && k < |rows'| && rows'[k].platform == rows[k].platform && rows'[k].uuid == rows[k].uuid
            && (!WasRead(readings, rows[k].uuid) ==> rows'[k].name == rows[k].name)
  {
    if readings != [] {
      RunKeepsRow(rows, platform, readings[..|readings| - 1], now, k);
    }
  }

  /** A table that a smooth run can be reached from has nothing but renames pending. */
  lemma {:induction false} SmoothWasOnlyRenames(rows: seq<Row>, platform: Platform, readings: seq<Reading>,
          sparesTemplates: bool, times: seq<int>)
    requires DistinctUuids(readings)
    requires Smooth(Reruns(rows, platform, readings, sparesTemplates, times), platform, readings)
    ensures OnlyRenamesPend(rows, platform, readings)
  {
    var rows' := Reruns(rows, platform, readings, sparesTemplates, times);
    forall i, j | 0 <= i < j < |readings| && readings[i].Parsed? && readings[j].Parsed?
      ensures readings[i].data.name != readings[j].data.name
    {
      LastOfDistinct(readings[..j], i);
      assert NameNotRead(readings[..j], readings[j].data);
    }
    forall i | 0 <= i < |readings| && readings[i].Parsed?
      ensures NoForeign(rows, platform, readings[i].data.uuid) && NameFree(rows, platform, readings, readings[i].data)
    {
      var d := readings[i].data;
      assert Fits(rows', platform, readings[..i], d);
      forall k | 0 <= k < |rows| && rows[k].uuid == Some(d.uuid) ensures rows[k].platform == platform {
        RerunsKeepRow(rows, platform, readings, sparesTemplates, times, k);
      }
      forall k | 0 <= k < |rows| && rows[k].platform == platform && rows[k].name == d.name
        ensures rows[k].uuid == Some(d.uuid) || WasRead(readings, rows[k].uuid)
      {
        RerunsKeepRow(rows, platform, readings, sparesTemplates, times, k);
        if WasRead(readings[..i], rows[k].uuid) {
          ReadBeforeIsRead(readings, i, rows[k].uuid.value);
        }
      }
    }
  }

  /**
    Over distinct uuids, repeated runs get every item through, sooner or later, exactly if nothing but
    renames is in the way and the renames do not wait for each other in a cycle. Then as many runs as
    there are renames pending are enough.
   */
  lemma {:induction false} EventuallyCleanIff(rows: seq<Row>, platform: Platform, readings: seq<Reading>,
          sparesTemplates: bool, now: int)
    requires Unique(rows) && DistinctUuids(readings)
    ensures (exists times ::
              FailedCount(Reruns(rows, platform, readings, sparesTemplates, times), platform, readings, now) == 0)
            <==> OnlyRenamesPend(rows, platform, readings) && Acyclic(Renames(rows, platform, readings))
    ensures OnlyRenamesPend(rows, platform, readings) && Acyclic(Renames(rows, platform, readings)) ==>
              forall times :: |times| >= |Pending(rows, platform, readings)| ==>
                FailedCount(Reruns(rows, platform, readings, sparesTemplates, times), platform, readings, now) == 0
  {
    if OnlyRenamesPend(rows, platform, readings) && Acyclic(Renames(rows, platform, readings)) {
      forall times: seq<int> | |times| >= |Pending(rows, platform, readings)|
        ensures FailedCount(Reruns(rows, platform, readings, sparesTemplates, times), platform, readings, now) == 0
      {
        EnoughRunsAreClean(rows, platform, readings, sparesTemplates, times, now);
      }
      var times := seq(|Pending(rows, platform, readings)|, _ => now);
      assert FailedCount(Reruns(rows, platform, readings, sparesTemplates, times), platform, readings, now) == 0;
    } else {
      forall times
        ensures FailedCount(Reruns(rows, platform, readings, sparesTemplates, times), platform, readings, now) > 0
      {
        NoRunIsClean(rows, platform, readings, sparesTemplates, times, now);
      }
    }
  }

  lemma {:induction false} EnoughRunsAreClean(rows: seq<Row>, platform: Platform, readings: seq<Reading>,
          sparesTemplates: bool, times: seq<int>, now: int)
    requires Unique(rows) && DistinctUuids(readings)
    requires OnlyRenamesPend(rows, platform, readings) && Acyclic(Renames(rows, platform, readings))
    requires |times| >= |Pending(rows, platform, readings)|
    ensures FailedCount(Reruns(rows, platform, readings, sparesTemplates, times), platform, readings, now) == 0
  {
    var rows' := Reruns(rows, platform, readings, sparesTemplates, times);
    RerunsSettle(rows, platform, readings, sparesTemplates, times);
    NothingPendingIsSmooth(rows', platform, readings);
    CleanIff(rows', platform, readings, now);
  }

  lemma {:induction false} NoRunIsClean(rows: seq<Row>, platform: Platform, readings: seq<Reading>,
          sparesTemplates: bool, times: seq<int>, now: int)
    requires Unique(rows) && DistinctUuids(readings)
    requires !(OnlyRenamesPend(rows, platform, readings) && Acyclic(Renames(rows, platform, readings)))
    ensures FailedCount(Reruns(rows, platform, readings, sparesTemplates, times), platform, readings, now) > 0
  {
    var rows' := Reruns(rows, platform, readings, sparesTemplates, times);
    StuckForever(rows, platform, readings, sparesTemplates, times, {});
    if OnlyRenamesPend(rows, platform, readings) {
      AcyclicIffNoCycle(Renames(rows, platform, readings));
      var a :| OnCycle(Renames(rows, platform, readings), a);
      var group := CycleIsStuck(rows, platform, readings, a);
      StuckForever(rows, platform, readings, sparesTemplates, times, group);
      StuckNeverClean(rows', platform, readings, now, group, a);
    } else if FailedCount(rows', platform, readings, now) == 0 {
      CleanIff(rows', platform, readings, now);
      SmoothWasOnlyRenames(rows, platform, readings, sparesTemplates, times);
    }
  }

  /** Two items that are each to get the other's name fail in every run, whatever else there is. */
  lemma {:induction false} ExchangeNeverSyncs(rows: seq<Row>, platform: Platform, readings: seq<Reading>,
          sparesTemplates: bool, times: seq<int>, now: int, u: Uuid, v: Uuid)
    requires Unique(rows) && DistinctUuids(readings)
    requires WaitsFor(rows, platform, readings, u) == Some(v) && WaitsFor(rows, platform, readings, v) == Some(u)
    ensures FailedCount(Reruns(rows, platform, readings, sparesTemplates, times), platform, readings, now) > 0
  {
    var links := Renames(rows, platform, readings);
    ReadIsSeen(readings, u);
    ReadIsSeen(readings, v);
    assert Climb(links, u, 1) == Up(links, u) == Some(v);
    assert Climb(links, u, 2) == Some(u) && OnCycle(links, u);
    AcyclicIffNoCycle(links);
    NoRunIsClean(rows, platform, readings, sparesTemplates, times, now);
  }

  // ----- two tables for which it fails

  /** A table of two rows whose names have been exchanged in the inventory: no number of runs helps. */
  lemma {:induction false} ExchangedNamesNeverSync(platform: Platform, u: Uuid, v: Uuid, a: Name, b: Name, x: Attrs,
          times: seq<int>, now: int)
    requires u != v && a != b
    ensures var rows := [Row(platform, Some(u), a, false, x, true, 0), Row(platform, Some(v), b, false, x, true, 0)];
            var readings := [Parsed(Data(u, b, x, true)), Parsed(Data(v, a, x, true))];
            && Unique(rows) && DistinctUuids(readings) && OnlyRenamesPend(rows, platform, readings)
            && FailedCount(Reruns(rows, platform, readings, false, times), platform, readings, now) > 0
  {
    var rows := [Row(platform, Some(u), a, false, x, true, 0), Row(platform, Some(v), b, false, x, true, 0)];
    var readings := [Parsed(Data(u, b, x, true)), Parsed(Data(v, a, x, true))];
    LastOfDistinct(readings, 0);
    LastOfDistinct(readings, 1);
    NameAtUnique(rows, platform, a, 0);
    NameAtUnique(rows, platform, b, 1);
    ExchangeNeverSyncs(rows, platform, readings, false, times, now, u, v);
  }

  /** A uuid listed twice, before and after another item takes its first name: clean once, but not again. */
  lemma {:induction false} RepeatedUuidIsNotFinal(platform: Platform, u: Uuid, v: Uuid, a: Name, b: Name, x: Attrs,
          now: int)
    requires u != v && a != b
    ensures var readings := [Parsed(Data(u, a, x, true)), Parsed(Data(u, b, x, true)), Parsed(Data(v, a, x, true))];
            && FailedCount([], platform, readings, now) == 0
            && FailedCount(Synced([], platform, readings, false, now), platform, readings, now) > 0
  {
    var d0, d1, d2 := Data(u, a, x, true), Data(u, b, x, true), Data(v, a, x, true);
    var readings := [Parsed(d0), Parsed(d1), Parsed(d2)];
    assert readings[..0] == [] && readings[..1] == [Parsed(d0)] && readings[..2] == [Parsed(d0), Parsed(d1)];
    assert readings[..2][..1] == [Parsed(d0)] && readings[..1][..0] == [];
    forall w ensures LastOf(readings[..1], w) == if w == u then Some(d0) else None {
      assert LastOf([], w).None?;
    }
    forall w ensures LastOf(readings[..2], w) == if w == u then Some(d1) else None {
    }
    assert Smooth([], platform, readings);
    CleanIff([], platform, readings, now);
    assert LastOf(readings, v) == Some(d2) && TakesEarly(readings, 0, v);
    RerunCleanIff([], platform, readings, false, now, now);
  }
}
