/**
  Fan-in of a batched background job. Every worker pushes its result to one shared list, then takes
  the list's lock and looks whether the list is complete; the worker that finds it complete empties it
  and publishes the report.

  The pushes happen outside the lock, and each list command is one step of its own, so the steps of
  different workers interleave freely.
 */
module BackgroundJobs {
  import opened Wrappers
  import opened Lists

  datatype TaskInfo = TaskInfo(index: nat, status: bool, result: int)

  datatype Report = Report(state: bool, tasks: seq<TaskInfo>)

  const MAX_SIZE: nat := 1024

  // ----- list commands

  /** Keeps the elements from `start` to `stop`, both included. */
  function LTrim<T>(list: seq<T>, start: nat, stop: nat): seq<T> {
    var end := if stop + 1 < |list| then stop + 1 else |list|;
    if start < end then list[start..end] else []
  }

  /** The trim that follows a push, given the length measured after the push. */
  function TrimTo<T>(list: seq<T>, stop: nat): seq<T> {
    if MAX_SIZE < stop then LTrim(list, stop - MAX_SIZE, stop) else list
  }

  /**
    With the length measured before others have pushed on, the trim keeps one element more than the
    maximum: the positions are inclusive.
   */
  lemma {:induction false} StaleTrimKeepsOneMore<T>(list: seq<T>, stop: nat)
    requires 1024 < stop < |list|
    ensures |TrimTo(list, stop)| == 1025 && TrimTo(list, stop) == list[stop - 1024..stop + 1]
  {
  }

  // ----- the report

  function Insert(x: TaskInfo, s: seq<TaskInfo>): seq<TaskInfo> {
    if s == [] || s[|s| - 1].index <= x.index then s + [x] else Insert(x, s[..|s| - 1]) + [s[|s| - 1]]
  }

  /** Stable sorting by task index. */
  function SortByIndex(s: seq<TaskInfo>): seq<TaskInfo> {
    if s == [] then [] else Insert(s[|s| - 1], SortByIndex(s[..|s| - 1]))
  }

  function AllSucceeded(s: seq<TaskInfo>): bool {
    forall i :: 0 <= i < |s| ==> s[i].status
  }

  function MakeReport(results: seq<TaskInfo>): Report {
    Report(AllSucceeded(results), SortByIndex(results))
  }

  ghost predicate Ascending(s: seq<TaskInfo>) {
    forall i, j :: 0 <= i < j < |s| ==> s[i].index < s[j].index
  }

  lemma {:induction false} InsertSorted(x: TaskInfo, s: seq<TaskInfo>)
    requires Ascending(s) && forall y :: y in s ==> y.index != x.index
    ensures |Insert(x, s)| == |s| + 1 && forall y :: y in Insert(x, s) <==> y == x || y in s
    ensures Ascending(Insert(x, s))
  {
    if s != [] && s[|s| - 1].index > x.index {
      var init, last := s[..|s| - 1], s[|s| - 1];
      assert s == init + [last];
      InsertSorted(x, init);
      var t := Insert(x, init);
      forall i | 0 <= i < |t| ensures t[i].index < last.index {
        assert t[i] in t;
      }
    }
  }

  lemma {:induction false} SortIsSorted(s: seq<TaskInfo>)
    requires forall i, j :: 0 <= i < j < |s| ==> s[i].index != s[j].index
    ensures |SortByIndex(s)| == |s| && forall y :: y in SortByIndex(s) <==> y in s
    ensures Ascending(SortByIndex(s))
  {
    if s != [] {
      var init, last := s[..|s| - 1], s[|s| - 1];
      assert s == init + [last];
      SortIsSorted(init);
      InsertSorted(last, SortByIndex(init));
    }
  }

  /** The elements with this index, in order. */
  function WithIndex(s: seq<TaskInfo>, index: nat): seq<TaskInfo> {
    if s == [] then []
    else WithIndex(s[..|s| - 1], index) + if s[|s| - 1].index == index then [s[|s| - 1]] else []
  }

  lemma {:induction false} WithIndexAppend(s: seq<TaskInfo>, x: TaskInfo, index: nat)
    ensures WithIndex(s + [x], index) == WithIndex(s, index) + if x.index == index then [x] else []
  {
    assert (s + [x])[..|s|] == s;
  }

  ghost predicate NotDescending(s: seq<TaskInfo>) {
    forall i, j :: 0 <= i < j < |s| ==> s[i].index <= s[j].index
  }

  lemma {:induction false} InsertNotDescending(x: TaskInfo, s: seq<TaskInfo>)
    requires NotDescending(s)
    ensures NotDescending(Insert(x, s)) && |Insert(x, s)| == |s| + 1
    ensures forall y :: y in Insert(x, s) <==> y == x || y in s
  {
    if s != [] && s[|s| - 1].index > x.index {
      var init, last := s[..|s| - 1], s[|s| - 1];
      assert s == init + [last];
      InsertNotDescending(x, init);
      var t := Insert(x, init);
      forall i | 0 <= i < |t| ensures t[i].index <= last.index {
        assert t[i] in t;
      }
    }
  }

  lemma {:induction false} InsertIsStable(x: TaskInfo, s: seq<TaskInfo>, index: nat)
    requires NotDescending(s)
    ensures WithIndex(Insert(x, s), index) == WithIndex(s, index) + if x.index == index then [x] else []
  {
    if s == [] || s[|s| - 1].index <= x.index {
      WithIndexAppend(s, x, index);
    } else {
      var init, last := s[..|s| - 1], s[|s| - 1];
      InsertIsStable(x, init, index);
      WithIndexAppend(Insert(x, init), last, index);
      if last.index == index {
        assert WithIndex(init, index) + [] == WithIndex(init, index);
      }
    }
  }

  /** Sorting any results by index never descends, and keeps those with the same index as they were. */
  lemma {:induction false} SortIsStable(s: seq<TaskInfo>, index: nat)
    ensures NotDescending(SortByIndex(s)) && |SortByIndex(s)| == |s|
    ensures WithIndex(SortByIndex(s), index) == WithIndex(s, index)
  {
    if s != [] {
      SortIsStable(s[..|s| - 1], index);
      InsertNotDescending(s[|s| - 1], SortByIndex(s[..|s| - 1]));
      InsertIsStable(s[|s| - 1], SortByIndex(s[..|s| - 1]), index);
    }
  }

  /** The results of all batches, at the position of their batch. */
  ghost predicate Indexed(infos: seq<TaskInfo>) {
    forall i :: 0 <= i < |infos| ==> infos[i].index == i
  }

  ghost predicate SameElements(s: seq<TaskInfo>, infos: seq<TaskInfo>) {
    NoDup(s) && forall x :: x in s <==> x in infos
  }

  /** The report of these batches: each once, by index, and successful exactly if no batch has failed. */
  ghost predicate Reports(report: Report, infos: seq<TaskInfo>) {
    report.tasks == infos && (report.state <==> forall i :: 0 <= i < |infos| ==> infos[i].status)
  }

  /** Whatever order the results arrived in, the report lists every batch once, by index. */
  lemma {:induction false} ReportIsComplete(results: seq<TaskInfo>, infos: seq<TaskInfo>)
    requires Indexed(infos) && SameElements(results, infos)
    ensures Reports(MakeReport(results), infos)
  {
    assert NoDup(infos);
    var sorted := SortByIndex(results);
    forall i, j | 0 <= i < j < |results| ensures results[i].index != results[j].index {
      assert results[i] in infos && results[j] in infos;
    }
    SortIsSorted(results);
    SameElementsSameLength(results, infos);
    AscendingIsIdentity(sorted, infos);
    forall i | 0 <= i < |infos| && AllSucceeded(results) ensures infos[i].status {
      assert infos[i] in results;
    }
    forall i | 0 <= i < |results| && AllSucceeded(infos) ensures results[i].status {
      assert results[i] in infos;
    }
  }

  lemma {:induction false} AscendingIsIdentity(s: seq<TaskInfo>, infos: seq<TaskInfo>)
    requires Indexed(infos) && Ascending(s) && |s| == |infos| && forall x :: x in s ==> x in infos
    ensures s == infos
  {
    forall i | 0 <= i < |s| ensures s[i] == infos[i] {
      AtLeast(s, i);
      AtMost(s, infos, i);
      assert s[i] in infos;
    }
  }

  lemma {:induction false} AtLeast(s: seq<TaskInfo>, i: nat)
    requires Ascending(s) && i < |s|
    ensures s[i].index >= i
  {
    if i > 0 {
      AtLeast(s, i - 1);
    }
  }

  lemma {:induction false} AtMost(s: seq<TaskInfo>, infos: seq<TaskInfo>, i: nat)
    requires Indexed(infos) && Ascending(s) && |s| == |infos| && forall x :: x in s ==> x in infos
    requires i < |s|
    ensures s[i].index <= i
    decreases |s| - i
  {
    if i + 1 < |s| {
      AtMost(s, infos, i + 1);
    } else {
      assert s[i] in infos;
    }
  }

  // ----- the shared list, and one job that is not disturbed by others

  /** The list after a push that nothing interrupts: once the list is full, the pushed result itself is lost. */
  function PushedAlone(list: seq<TaskInfo>, info: TaskInfo): (r: seq<TaskInfo>)
    ensures |r| == if |list| < MAX_SIZE then |list| + 1 else MAX_SIZE
    ensures |list| < MAX_SIZE ==> r[0] == info && r[1..] == list
    ensures |list| >= MAX_SIZE ==> r == list[|list| - MAX_SIZE..]
  {
    TrimTo([info] + list, |list| + 1)
  }

  class CacheList {
    var items: seq<TaskInfo>

    constructor ()
      ensures items == []
    {
      items := [];
    }

    method AutoLTrim()
      modifies this
      ensures |old(items)| <= 1024 ==> items == old(items)
      ensures |old(items)| > 1024 ==> items == old(items)[|old(items)| - 1024..]
    {
      var stop := |items|;
      if MAX_SIZE < stop {
        var start := stop - MAX_SIZE;
        items := LTrim(items, start, stop);
      }
    }

    method Push(info: TaskInfo)
      modifies this
      ensures items == PushedAlone(old(items), info)
    {
      items := [info] + items;
      AutoLTrim();
    }

    method Delete()
      modifies this
      ensures items == []
    {
      items := [];
    }
  }

  /** Pushes the outcome of one batch; if that completes the list, empties it and reports. */
  method BackgroundTaskViewSetJob(cache: CacheList, info: TaskInfo, taskCount: nat) returns (report: Option<Report>)
    modifies cache
    ensures var pushed := PushedAlone(old(cache.items), info);
            if |pushed| == taskCount then
              && report == Some(MakeReport(pushed)) && cache.items == []
              && (report.value.state <==> forall i :: 0 <= i < |pushed| ==> pushed[i].status)
            else report == None && cache.items == pushed
  {
    cache.Push(info);
    report := None;
    if |cache.items| != 0 && |cache.items| == taskCount {
      var taskResults := cache.items;
      cache.Delete();
      report := Some(Report(AllSucceeded(taskResults), SortByIndex(taskResults)));
    }
  }
}
