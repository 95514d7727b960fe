/** Fan-out of a batched background job: the data cut into batches, one dispatched job for each. */
module Batches {
  import opened Wrappers
  import opened BackgroundJobs
  import FanIn

  type Item(==, !new)

  datatype Payload = One(item: Item) | Many(items: seq<Item>)

  /** What is sent to the worker of one batch: its meta data as they were when it was dispatched. */
  datatype Job = Job(taskId: string, taskIndex: nat, taskCount: nat, batch: seq<Item>)

  function Items(data: Payload): seq<Item> {
    match data
    case One(item) => [item]
    case Many(items) => items
  }

  function CeilDiv(n: nat, d: nat): nat
    requires d > 0
  {
    (n + d - 1) / d
  }

  // ----- task identifiers

  function Digit(d: nat): char
    requires d < 10
  {
    "0123456789"[d]
  }

  function Decimal(n: nat): string {
    if n < 10 then [Digit(n)] else Decimal(n / 10) + [Digit(n % 10)]
  }

  function DigitValue(c: char): int {
    c as int - '0' as int
  }

  function Parsed(s: string): int {
    if s == [] then 0 else 10 * Parsed(s[..|s| - 1]) + DigitValue(s[|s| - 1])
  }

  lemma {:induction false} DecimalRoundTrip(n: nat)
    ensures Parsed(Decimal(n)) == n
  {
    if n >= 10 {
      DecimalRoundTrip(n / 10);
      assert Decimal(n)[..|Decimal(n)| - 1] == Decimal(n / 10);
    }
  }

  /** Without leading zeros. */
  lemma {:induction false} DecimalIsShortest(n: nat)
    ensures |Decimal(n)| >= 1 && (n < 10 <==> |Decimal(n)| == 1)
    ensures Decimal(n)[0] == '0' <==> n == 0
  {
    if n >= 10 {
      DecimalIsShortest(n / 10);
    }
  }

  function TaskId(uuid: string, index: nat): string {
    uuid + "_" + Decimal(index)
  }

  /** The part of a task identifier before the first underscore, which names the shared list. */
  function ListKey(taskId: string): string {
    if taskId == [] || taskId[0] == '_' then [] else [taskId[0]] + ListKey(taskId[1..])
  }

  /** All tasks of a job share one list, and every task has an identifier of its own. */
  lemma {:induction false} TaskIdsShareList(uuid: string, i: nat, j: nat)
    requires '_' !in uuid
    ensures ListKey(TaskId(uuid, i)) == uuid
    ensures TaskId(uuid, i) == TaskId(uuid, j) ==> i == j
  {
    HeadOf(uuid, Decimal(i));
    DecimalRoundTrip(i);
    DecimalRoundTrip(j);
    var n := |uuid + "_"|;
    assert TaskId(uuid, i)[n..] == Decimal(i) && TaskId(uuid, j)[n..] == Decimal(j);
  }

  lemma {:induction false} HeadOf(head: string, tail: string)
    requires '_' !in head
    ensures ListKey(head + "_" + tail) == head
  {
    var s := head + "_" + tail;
    if head != [] {
      HeadOf(head[1..], tail);
      assert s[1..] == head[1..] + "_" + tail;
    }
  }

  // ----- cutting into batches

  function Concat(batches: seq<seq<Item>>): seq<Item> {
    if batches == [] then [] else Concat(batches[..|batches| - 1]) + batches[|batches| - 1]
  }

  function BatchesOf(jobs: seq<Job>): seq<seq<Item>> {
    seq(|jobs|, i requires 0 <= i < |jobs| => jobs[i].batch)
  }

  /** The jobs carry the data in order, in batches of the given length; the last may be shorter. */
  ghost predicate Dispatched(jobs: seq<Job>, data: seq<Item>, batchLength: nat, uuid: string) {
    && Concat(BatchesOf(jobs)) == data
    && (forall i :: 0 <= i < |jobs| ==> 1 <= |jobs[i].batch| <= batchLength)
    && (forall i :: 0 <= i < |jobs| - 1 ==> |jobs[i].batch| == batchLength)
    && (forall i :: 0 <= i < |jobs| ==> jobs[i].taskIndex == i && jobs[i].taskId == TaskId(uuid, i))
    && (forall i :: 0 <= i < |jobs| ==> jobs[i].taskCount == |jobs|)
  }

  /** `count` batches of length d have taken the first `start` of n items. */
  ghost predicate CutAt(d: nat, n: nat, count: nat, start: nat) {
    start == (if d * count < n then d * count else n) && (count > 0 ==> d * (count - 1) < n)
  }

  lemma {:induction false} CutOneMore(d: nat, n: nat, count: nat, start: nat)
    requires d > 0 && CutAt(d, n, count, start) && start < n
    ensures CutAt(d, n, count + 1, if start + d < n then start + d else n)
  {
    assert d * (count + 1) == d * count + d;
  }

  lemma {:induction false} CutToEnd(d: nat, n: nat, count: nat)
    requires d > 0 && CutAt(d, n, count, n)
    ensures CeilDiv(n, d) == count
  {
    var k, r := CeilDiv(n, d), (n + d - 1) % d;
    assert n + d - 1 == d * k + r;
    assert k < count ==> d * k <= d * (count - 1);
    assert count < k ==> d * (count + 1) <= d * k;
    assert d * (count + 1) == d * count + d;
  }

  /** These jobs carry the first `start` items. */
  ghost predicate DispatchedSoFar(jobs: seq<Job>, items: seq<Item>, start: nat, batchLength: nat, uuid: string,
          taskCount: nat)
    requires start <= |items|
  {
    && Concat(BatchesOf(jobs)) == items[..start]
    && (forall i :: 0 <= i < |jobs| ==> 1 <= |jobs[i].batch| <= batchLength)
    && (forall i :: 0 <= i < |jobs| && (i < |jobs| - 1 || start < |items|) ==> |jobs[i].batch| == batchLength)
    && (forall i :: 0 <= i < |jobs| ==>
         jobs[i].taskIndex == i && jobs[i].taskId == TaskId(uuid, i) && jobs[i].taskCount == taskCount)
  }

  lemma {:induction false} DispatchNext(jobs: seq<Job>, items: seq<Item>, start: nat, batchLength: nat,
          uuid: string, taskCount: nat)
    requires batchLength > 0 && start < |items| && DispatchedSoFar(jobs, items, start, batchLength, uuid, taskCount)
    ensures var stop := if start + batchLength < |items| then start + batchLength else |items|;
            DispatchedSoFar(jobs + [Job(TaskId(uuid, |jobs|), |jobs|, taskCount, items[start..stop])],
                            items, stop, batchLength, uuid, taskCount)
  {
    var stop := if start + batchLength < |items| then start + batchLength else |items|;
    AppendBatch(jobs, Job(TaskId(uuid, |jobs|), |jobs|, taskCount, items[start..stop]));
    assert items[..start] + items[start..stop] == items[..stop];
  }

  /** Cuts the data into batches and dispatches a job for each; as a plain request it does nothing. */
  method RunViewByCeleryTask(asTask: bool, data: Payload, batchLength: nat, uuid: string)
      returns (dispatched: Option<seq<Job>>)
    requires batchLength > 0
    ensures dispatched.Some? <==> asTask
    ensures asTask ==>
              match data
              case One(item) => Dispatched(dispatched.value, [item], batchLength, uuid) && |dispatched.value| == 1
              case Many(items) =>
                && Dispatched(dispatched.value, items, batchLength, uuid)
                && |dispatched.value| == CeilDiv(|items|, batchLength)
  {
    if !asTask {
      return None;
    }
    var items := Items(data);
    var taskCount := CeilDiv(|items|, batchLength);
    var jobs: seq<Job> := [];
    var start := 0;
    while start < |items|
      invariant start <= |items| && CutAt(batchLength, |items|, |jobs|, start)
      invariant DispatchedSoFar(jobs, items, start, batchLength, uuid, taskCount)
    {
      var index := |jobs|;
      var stop := if start + batchLength < |items| then start + batchLength else |items|;
      CutOneMore(batchLength, |items|, index, start);
      DispatchNext(jobs, items, start, batchLength, uuid, taskCount);
      jobs := jobs + [Job(TaskId(uuid, index), index, taskCount, items[start..stop])];
      start := stop;
    }
    assert items[..start] == items;
    CutToEnd(batchLength, |items|, |jobs|);
    return Some(jobs);
  }

  lemma {:induction false} AppendBatch(jobs: seq<Job>, job: Job)
    ensures Concat(BatchesOf(jobs + [job])) == Concat(BatchesOf(jobs)) + job.batch
  {
    assert BatchesOf(jobs + [job]) == BatchesOf(jobs) + [job.batch];
    assert (BatchesOf(jobs) + [job.batch])[..|jobs|] == BatchesOf(jobs);
  }

  /** The outcome of the job with index i, whatever the view makes of its batch. */
  ghost predicate Outcomes(jobs: seq<Job>, infos: seq<TaskInfo>) {
    |infos| == |jobs| && forall i :: 0 <= i < |jobs| ==> infos[i].index == jobs[i].taskIndex
  }

  /**
    From dispatch to report: in every interleaving in which all workers end, exactly one complete report
    is published, if and only if the data are not empty and fit into 1024 batches.
   */
  lemma {:induction false} ReportedIff(jobs: seq<Job>, infos: seq<TaskInfo>, data: seq<Item>, batchLength: nat,
          uuid: string)
    requires batchLength > 0 && Dispatched(jobs, data, batchLength, uuid) && |jobs| == CeilDiv(|data|, batchLength)
    requires Outcomes(jobs, infos)
    ensures (forall schedule :: FanIn.AllEnded(FanIn.Execute(infos, schedule)) ==>
              FanIn.OneReport(infos, FanIn.Execute(infos, schedule)))
            <==> 1 <= |data| <= 1024 * batchLength
  {
    FanIn.ExactlyOnceIff(infos);
    CeilBounds(|data|, batchLength);
  }

  lemma {:induction false} Ordered(d: nat, a: nat, b: nat)
    ensures a <= b ==> d * a <= d * b
  {
    if a <= b {
      assert d * b == d * a + d * (b - a);
    }
  }

  lemma {:induction false} CeilBounds(n: nat, d: nat)
    requires d > 0
    ensures 1 <= CeilDiv(n, d) <= MAX_SIZE <==> 1 <= n <= MAX_SIZE * d
  {
    var k, r := CeilDiv(n, d), (n + d - 1) % d;
    assert n + d - 1 == d * k + r && 0 <= r < d;
    Ordered(d, k, MAX_SIZE);
    Ordered(d, MAX_SIZE + 1, k);
    Ordered(d, 1, k);
    assert d * (MAX_SIZE + 1) == d * MAX_SIZE + d;
    assert k == 0 ==> d * k == 0;
  }
}
