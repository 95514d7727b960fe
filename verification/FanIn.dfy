/**
  All interleavings of the workers of one batched job: at most one publishes, and exactly one does
  precisely when there is at least one batch and no more than the shared list can hold.
 */
module FanIn {
  import opened Wrappers
  import opened Lists
  import opened BackgroundJobs

  /** How far a worker has come; each transition is one list or lock command. */
  datatype Phase =
    | Working
    | Pushed
    | Measured(stop: nat)
    | Trimmed
    | Locked
    | SawSome
    | SawAll
    | Fetched(results: seq<TaskInfo>)
    | Deleted(results: seq<TaskInfo>)
    | Ended(report: Option<Report>)

  datatype State = State(list: seq<TaskInfo>, lock: Option<nat>, workers: seq<Phase>)

  /** The next step of worker i; a worker that has ended, or waits for the lock, stays where it is. */
  function Step(infos: seq<TaskInfo>, s: State, i: nat): State {
    if i >= |s.workers| || i >= |infos| then s
    else
      match s.workers[i]
      case Working => s.(list := [infos[i]] + s.list, workers := s.workers[i := Pushed])
      case Pushed => s.(workers := s.workers[i := Measured(|s.list|)])
      case Measured(stop) => s.(list := TrimTo(s.list, stop), workers := s.workers[i := Trimmed])
      case Trimmed => if s.lock.None? then s.(lock := Some(i), workers := s.workers[i := Locked]) else s
      case Locked => if |s.list| != 0 then s.(workers := s.workers[i := SawSome]) else Release(s, i, None)
      case SawSome => if |s.list| == |infos| then s.(workers := s.workers[i := SawAll]) else Release(s, i, None)
      case SawAll => s.(workers := s.workers[i := Fetched(s.list)])
      case Fetched(results) => s.(list := [], workers := s.workers[i := Deleted(results)])
      case Deleted(results) => Release(s, i, Some(MakeReport(results)))
      case Ended(_) => s
  }

  function Release(s: State, i: nat, report: Option<Report>): State
    requires i < |s.workers|
  {
    s.(lock := None, workers := s.workers[i := Ended(report)])
  }

  function Initial(infos: seq<TaskInfo>): State {
    State([], None, seq(|infos|, i => Working))
  }

  /** The state after the workers have taken steps in this order. */
  function Execute(infos: seq<TaskInfo>, schedule: seq<nat>): State {
    if schedule == [] then Initial(infos)
    else Step(infos, Execute(infos, schedule[..|schedule| - 1]), schedule[|schedule| - 1])
  }

  predicate HasPushed(p: Phase) {
    !p.Working?
  }

  predicate InSection(p: Phase) {
    p.Locked? || p.SawSome? || p.SawAll? || p.Fetched? || p.Deleted?
  }

  /** The worker has emptied the list. */
  predicate Took(p: Phase) {
    p.Deleted? || (p.Ended? && p.report.Some?)
  }

  predicate AllPushed(s: State) {
    forall i :: 0 <= i < |s.workers| ==> HasPushed(s.workers[i])
  }

  predicate Taken(s: State) {
    exists i :: 0 <= i < |s.workers| && Took(s.workers[i])
  }

  predicate AllEnded(s: State) {
    forall i :: 0 <= i < |s.workers| ==> s.workers[i].Ended?
  }

  // ----- at most one report

  /** The list holds results of workers that have pushed, each at most once. */
  ghost predicate ListFits(infos: seq<TaskInfo>, s: State)
    requires |s.workers| == |infos|
  {
    && NoDup(s.list)
    && forall x :: x in s.list ==> x.index < |infos| && infos[x.index] == x && HasPushed(s.workers[x.index])
  }

  ghost predicate Safe(infos: seq<TaskInfo>, s: State)
  {
    && |s.workers| == |infos|
    && LockFits(s)
    && ListFits(infos, s)
    && (Taken(s) ==> s.list == [] && AllPushed(s))
    && (forall i, j :: 0 <= i < j < |infos| ==> !(Took(s.workers[i]) && Took(s.workers[j])))
    && (forall i :: 0 <= i < |infos| && (s.workers[i].SawAll? || s.workers[i].Fetched?) ==> AllPushed(s) && !Taken(s))
  }

  lemma {:induction false} FullListMeansAllPushed(infos: seq<TaskInfo>, s: State)
    requires Indexed(infos) && |s.workers| == |infos| && ListFits(infos, s) && |s.list| == |infos|
    ensures AllPushed(s)
  {
    forall x | x in s.list ensures x in SetOf(infos) {
      assert infos[x.index] in infos;
    }
    DistinctCount(s.list, SetOf(infos));
    SetIsNotLarger(infos);
    forall i | 0 <= i < |infos| ensures HasPushed(s.workers[i]) {
      assert infos[i] in SetOf(infos);
      assert infos[i] in s.list;
    }
  }

  lemma {:induction false} StepKeepsList(infos: seq<TaskInfo>, s: State, i: nat)
    requires Indexed(infos) && |s.workers| == |infos| && ListFits(infos, s)
    ensures ListFits(infos, Step(infos, s, i))
  {
    var s' := Step(infos, s, i);
    assert forall x :: x in s'.list ==> x in s.list || (i < |infos| && s.workers[i].Working? && x == infos[i]);
  }

  /** The lock is held by the worker inside the locked section, if any, and by no one else. */
  ghost predicate LockFits(s: State) {
    && (forall i: nat :: i < |s.workers| ==> (InSection(s.workers[i]) <==> s.lock == Some(i)))
    && (s.lock.Some? ==> s.lock.value < |s.workers|)
  }

  lemma {:induction false} StepKeepsLock(infos: seq<TaskInfo>, s: State, i: nat)
    requires |s.workers| == |infos| && LockFits(s)
    ensures LockFits(Step(infos, s, i))
  {
  }

  lemma {:induction false} StepKeepsSafe(infos: seq<TaskInfo>, s: State, i: nat)
    requires Indexed(infos) && Safe(infos, s)
    ensures Safe(infos, Step(infos, s, i))
  {
    StepKeepsList(infos, s, i);
    StepKeepsLock(infos, s, i);
    if i < |infos| && s.workers[i].SawSome? && |s.list| == |infos| {
      FullListMeansAllPushed(infos, s);
    }
  }

  lemma {:induction false} RunIsSafe(infos: seq<TaskInfo>, schedule: seq<nat>)
    requires Indexed(infos)
    ensures Safe(infos, Execute(infos, schedule))
  {
    if schedule != [] {
      RunIsSafe(infos, schedule[..|schedule| - 1]);
      StepKeepsSafe(infos, Execute(infos, schedule[..|schedule| - 1]), schedule[|schedule| - 1]);
    }
  }

  predicate Publishes(s: State, i: nat) {
    i < |s.workers| && s.workers[i].Ended? && s.workers[i].report.Some?
  }

  /** Whatever the number of batches, no two workers publish, and none does before all have pushed. */
  lemma {:induction false} AtMostOneReport(infos: seq<TaskInfo>, schedule: seq<nat>, i: nat, j: nat)
    requires Indexed(infos) && Publishes(Execute(infos, schedule), i) && Publishes(Execute(infos, schedule), j)
    ensures i == j && AllPushed(Execute(infos, schedule))
  {
    RunIsSafe(infos, schedule);
  }

  /** A worker that has found the list complete did so after every worker had pushed. */
  lemma {:induction false} CompleteOnlyAfterAllPushes(infos: seq<TaskInfo>, schedule: seq<nat>, i: nat)
    requires Indexed(infos) && i < |infos|
    ensures var s := Execute(infos, schedule);
            i < |s.workers| && (s.workers[i].SawAll? || s.workers[i].Fetched? || Took(s.workers[i]) ==> AllPushed(s))
  {
    RunIsSafe(infos, schedule);
    assert Took(Execute(infos, schedule).workers[i]) ==> Taken(Execute(infos, schedule));
  }

  // ----- with at most MAX_SIZE batches, exactly one report

  /** No result is trimmed away, and some worker still has to look at the list until one takes it. */
  ghost predicate Lossless(infos: seq<TaskInfo>, s: State)
    requires |s.workers| == |infos|
  {
    && (forall i :: 0 <= i < |infos| && s.workers[i].Measured? ==> s.workers[i].stop <= |infos|)
    && (!Taken(s) ==> forall i :: 0 <= i < |infos| && HasPushed(s.workers[i]) ==> infos[i] in s.list)
    && (AllPushed(s) && !Taken(s) && |infos| > 0 ==> !AllEnded(s))
  }

  ghost predicate HasComplete(infos: seq<TaskInfo>, p: Phase) {
    match p
    case Fetched(results) => SameElements(results, infos)
    case Deleted(results) => SameElements(results, infos)
    case Ended(report) => report.Some? ==> Reports(report.value, infos)
    case _ => true
  }

  /** What was fetched, and what was published, is the complete set of results. */
  ghost predicate Faithful(infos: seq<TaskInfo>, s: State) {
    forall i :: 0 <= i < |s.workers| ==> HasComplete(infos, s.workers[i])
  }

  lemma {:induction false} ListIsShort(infos: seq<TaskInfo>, s: State)
    requires Indexed(infos) && |s.workers| == |infos| && ListFits(infos, s)
    ensures |s.list| <= |infos|
    ensures (forall i :: 0 <= i < |infos| ==> infos[i] in s.list) ==> |s.list| == |infos| && SameElements(s.list, infos)
  {
    forall x | x in s.list ensures x in infos {
      assert infos[x.index] in infos;
    }
    DistinctCount(s.list, SetOf(infos));
    SetIsNotLarger(infos);
    if forall i :: 0 <= i < |infos| ==> infos[i] in s.list {
      assert NoDup(infos);
      SameElementsSameLength(s.list, infos);
    }
  }

  lemma {:induction false} StepIsLossless(infos: seq<TaskInfo>, s: State, i: nat)
    requires Indexed(infos) && |infos| <= MAX_SIZE && Safe(infos, s) && Lossless(infos, s)
    ensures Lossless(infos, Step(infos, s, i))
  {
    ListIsShort(infos, s);
    TakenByFetched(infos, s, i);
    if i < |infos| && s.workers[i].Working? {
      assert Step(infos, s, i).workers[i] == Pushed;
    }
  }

  lemma {:induction false} StepIsFaithful(infos: seq<TaskInfo>, s: State, i: nat)
    requires Indexed(infos) && Safe(infos, s) && Lossless(infos, s) && Faithful(infos, s)
    ensures Faithful(infos, Step(infos, s, i))
  {
    if i < |infos| && !s.workers[i].Ended? {
      assert HasComplete(infos, s.workers[i]);
      match s.workers[i] {
        case SawAll => ListIsShort(infos, s);
        case Deleted(results) => ReportIsComplete(results, infos);
        case _ =>
      }
      assert HasComplete(infos, Step(infos, s, i).workers[i]);
    }
  }

  lemma {:induction false} TakenByFetched(infos: seq<TaskInfo>, s: State, i: nat)
    requires |s.workers| == |infos|
    ensures Taken(Step(infos, s, i)) <==> Taken(s) || (i < |infos| && s.workers[i].Fetched?)
  {
    var s' := Step(infos, s, i);
    if j :| 0 <= j < |infos| && Took(s.workers[j]) {
      assert Took(s'.workers[j]);
    }
    if i < |infos| && s.workers[i].Fetched? {
      assert Took(s'.workers[i]);
    }
    if j :| 0 <= j < |infos| && Took(s'.workers[j]) {
      assert j == i || Took(s.workers[j]);
    }
  }

  lemma {:induction false} RunIsLossless(infos: seq<TaskInfo>, schedule: seq<nat>)
    requires Indexed(infos) && |infos| <= MAX_SIZE
    ensures Safe(infos, Execute(infos, schedule))
    ensures Lossless(infos, Execute(infos, schedule)) && Faithful(infos, Execute(infos, schedule))
  {
    RunIsSafe(infos, schedule);
    if schedule != [] {
      var init := schedule[..|schedule| - 1];
      RunIsLossless(infos, init);
      StepIsLossless(infos, Execute(infos, init), schedule[|schedule| - 1]);
      StepIsFaithful(infos, Execute(infos, init), schedule[|schedule| - 1]);
    } else if |infos| > 0 {
      assert !HasPushed(Initial(infos).workers[0]);
    }
  }

  /** Exactly one worker published, and its report has every batch once, in order. */
  ghost predicate OneReport(infos: seq<TaskInfo>, s: State) {
    exists i: nat :: Publishes(s, i) && Reports(s.workers[i].report.value, infos)
                     && forall j: nat :: Publishes(s, j) ==> j == i
  }

  lemma {:induction false} SmallJobsReport(infos: seq<TaskInfo>, schedule: seq<nat>)
    requires Indexed(infos) && 1 <= |infos| <= 1024 && AllEnded(Execute(infos, schedule))
    ensures OneReport(infos, Execute(infos, schedule))
  {
    var s := Execute(infos, schedule);
    RunIsLossless(infos, schedule);
    assert AllPushed(s);
    assert Taken(s);
    var i :| 0 <= i < |s.workers| && Took(s.workers[i]);
    assert Publishes(s, i);
    forall j: nat | Publishes(s, j) ensures j == i {
      AtMostOneReport(infos, schedule, i, j);
    }
  }

  // ----- every fair schedule ends

  /** The commands that a worker still has to issue, at most. */
  function Rank(p: Phase): nat {
    match p
    case Working => 9
    case Pushed => 8
    case Measured(_) => 7
    case Trimmed => 6
    case Locked => 5
    case SawSome => 4
    case SawAll => 3
    case Fetched(_) => 2
    case Deleted(_) => 1
    case Ended(_) => 0
  }

  const STEPS_PER_WORKER: nat := 9

  function Work(workers: seq<Phase>): nat {
    if workers == [] then 0 else Rank(workers[0]) + Work(workers[1..])
  }

  lemma {:induction false} WorkUpdated(workers: seq<Phase>, i: nat, p: Phase)
    requires i < |workers|
    ensures Work(workers[i := p]) == Work(workers) - Rank(workers[i]) + Rank(p)
  {
    if i == 0 {
      assert workers[i := p][1..] == workers[1..];
    } else {
      assert workers[i := p][1..] == workers[1..][i - 1 := p];
      WorkUpdated(workers[1..], i - 1, p);
    }
  }

  lemma {:induction false} NoWorkMeansEnded(workers: seq<Phase>)
    ensures Work(workers) == 0 <==> forall i :: 0 <= i < |workers| ==> workers[i].Ended?
  {
    if workers != [] {
      NoWorkMeansEnded(workers[1..]);
      assert forall i :: 0 < i < |workers| ==> workers[i] == workers[1..][i - 1];
    }
  }

  lemma {:induction false} AllWorkAhead(n: nat)
    ensures Work(seq(n, _ => Working)) == STEPS_PER_WORKER * n
  {
    if n > 0 {
      assert seq(n, _ => Working)[1..] == seq(n - 1, _ => Working);
      AllWorkAhead(n - 1);
    }
  }

  /** A step that changes anything brings a worker closer to its end. */
  lemma {:induction false} StepLowersWork(infos: seq<TaskInfo>, s: State, i: nat)
    ensures Step(infos, s, i) == s || Work(Step(infos, s, i).workers) < Work(s.workers)
  {
    var s' := Step(infos, s, i);
    if s' != s {
      assert s'.workers == s.workers[i := s'.workers[i]];
      WorkUpdated(s.workers, i, s'.workers[i]);
    }
  }

  /** No deadlock: while a worker has not ended, some worker can take a step. */
  lemma {:induction false} SomeStepChanges(infos: seq<TaskInfo>, s: State)
    requires |s.workers| == |infos| && LockFits(s) && !AllEnded(s)
    ensures exists i: nat :: i < |infos| && Step(infos, s, i) != s
  {
    var i :| 0 <= i < |s.workers| && !s.workers[i].Ended?;
    var next := if s.workers[i].Trimmed? && s.lock.Some? then s.lock.value else i;
    assert InSection(s.workers[next]) || next == i;
    assert Step(infos, s, next).workers[next] != s.workers[next];
  }

  /** The state t is s, where none of these workers can take a step, or there is less work left in it. */
  ghost predicate LessWork(infos: seq<TaskInfo>, s: State, t: State, more: seq<nat>) {
    Work(t.workers) < Work(s.workers) || (t == s && forall i :: i in more ==> Step(infos, s, i) == s)
  }

  lemma {:induction false} StepSavesWork(infos: seq<TaskInfo>, s: State, t: State, more: seq<nat>, last: nat)
    requires LessWork(infos, s, t, more)
    ensures LessWork(infos, s, Step(infos, t, last), more + [last])
  {
    StepLowersWork(infos, t, last);
  }

  lemma {:induction false} MoreSteps(infos: seq<TaskInfo>, schedule: seq<nat>, more: seq<nat>)
    ensures LessWork(infos, Execute(infos, schedule), Execute(infos, schedule + more), more)
  {
    if more == [] {
      assert schedule + more == schedule;
    } else {
      var init, last := more[..|more| - 1], more[|more| - 1];
      MoreSteps(infos, schedule, init);
      assert (schedule + more)[..|schedule + more| - 1] == schedule + init;
      StepSavesWork(infos, Execute(infos, schedule), Execute(infos, schedule + init), init, last);
      assert more == init + [last];
    }
  }

  /** Every worker gets a turn. */
  predicate IsRound(infos: seq<TaskInfo>, round: seq<nat>) {
    forall i: nat :: i < |infos| ==> i in round
  }

  function Concat(rounds: seq<seq<nat>>): seq<nat> {
    if rounds == [] then [] else Concat(rounds[..|rounds| - 1]) + rounds[|rounds| - 1]
  }

  lemma {:induction false} RoundsSaveWork(infos: seq<TaskInfo>, rounds: seq<seq<nat>>)
    requires Indexed(infos) && forall r :: r in rounds ==> IsRound(infos, r)
    ensures var left := Work(Execute(infos, Concat(rounds)).workers);
            left == 0 || left + |rounds| <= STEPS_PER_WORKER * |infos|
  {
    if rounds == [] {
      AllWorkAhead(|infos|);
      assert Initial(infos).workers == seq(|infos|, _ => Working);
    } else {
      var init, last := rounds[..|rounds| - 1], rounds[|rounds| - 1];
      RoundsSaveWork(infos, init);
      var s := Execute(infos, Concat(init));
      MoreSteps(infos, Concat(init), last);
      RunIsSafe(infos, Concat(init));
      NoWorkMeansEnded(s.workers);
      if !AllEnded(s) {
        SomeStepChanges(infos, s);
        var i: nat :| i < |infos| && Step(infos, s, i) != s;
        assert last in rounds && i in last;
      }
    }
  }

  /**
    Every schedule ends in which each worker gets nine turns for every batch, in rounds of any order;
    a job that fits has then reported.
   */
  lemma {:induction false} FairSchedulesEnd(infos: seq<TaskInfo>, rounds: seq<seq<nat>>)
    requires Indexed(infos) && forall r :: r in rounds ==> IsRound(infos, r)
    requires |rounds| >= STEPS_PER_WORKER * |infos|
    ensures AllEnded(Execute(infos, Concat(rounds)))
    ensures 1 <= |infos| <= 1024 ==> OneReport(infos, Execute(infos, Concat(rounds)))
  {
    RoundsSaveWork(infos, rounds);
    NoWorkMeansEnded(Execute(infos, Concat(rounds)).workers);
    if 1 <= |infos| <= MAX_SIZE {
      SmallJobsReport(infos, Concat(rounds));
    }
  }

  // ----- with more batches than the list holds, possibly none

  /** Running worker i alone for n steps. */
  function Steps(infos: seq<TaskInfo>, s: State, i: nat, n: nat): State {
    if n == 0 then s else Step(infos, Steps(infos, s, i, n - 1), i)
  }

  /** The list and the outcome of worker i are those of the job run without interruption. */
  lemma {:induction false} RunAlone(infos: seq<TaskInfo>, s: State, i: nat)
    requires i < |infos| == |s.workers| && s.workers[i].Working? && s.lock.None?
    ensures var pushed := PushedAlone(s.list, infos[i]);
            Steps(infos, s, i, STEPS_PER_WORKER) ==
              if |pushed| == |infos| then State([], None, s.workers[i := Ended(Some(MakeReport(pushed)))])
              else State(pushed, None, s.workers[i := Ended(None)])
  {
    var pushed := PushedAlone(s.list, infos[i]);
    assert Steps(infos, s, i, 1) == State([infos[i]] + s.list, None, s.workers[i := Pushed]);
    assert Steps(infos, s, i, 3) == State(pushed, None, s.workers[i := Trimmed]);
    assert Steps(infos, s, i, 5) == State(pushed, Some(i), s.workers[i := SawSome]);
    if |pushed| == |infos| {
      assert Steps(infos, s, i, 7) == State(pushed, Some(i), s.workers[i := Fetched(pushed)]);
    } else {
      assert Steps(infos, s, i, 6) == State(pushed, None, s.workers[i := Ended(None)]);
      assert Steps(infos, s, i, 8) == Steps(infos, s, i, 6);
    }
  }

  function Repeat(i: nat, n: nat): seq<nat> {
    seq(n, _ => i)
  }

  lemma {:induction false} ExecuteRepeat(infos: seq<TaskInfo>, schedule: seq<nat>, i: nat, n: nat)
    ensures Execute(infos, schedule + Repeat(i, n)) == Steps(infos, Execute(infos, schedule), i, n)
  {
    var longer := schedule + Repeat(i, n);
    if n == 0 {
      assert longer == schedule;
    } else {
      ExecuteRepeat(infos, schedule, i, n - 1);
      assert longer == (schedule + Repeat(i, n - 1)) + [i];
      assert longer[..|longer| - 1] == schedule + Repeat(i, n - 1);
    }
  }

  /** The first n workers, one after the other. */
  function OneByOne(n: nat): seq<nat> {
    if n == 0 then [] else OneByOne(n - 1) + Repeat(n - 1, STEPS_PER_WORKER)
  }

  /** The first n workers have ended without a report; the list has kept what it can. */
  predicate EndedSilently(infos: seq<TaskInfo>, s: State, n: nat) {
    && |s.workers| == |infos| && s.lock.None?
    && |s.list| == (if n < MAX_SIZE then n else MAX_SIZE)
    && forall j :: 0 <= j < |infos| ==> s.workers[j] == if j < n then Ended(None) else Working
  }

  lemma {:induction false} OneMoreSilently(infos: seq<TaskInfo>, schedule: seq<nat>, n: nat)
    requires n < |infos| && |infos| > MAX_SIZE && EndedSilently(infos, Execute(infos, schedule), n)
    ensures EndedSilently(infos, Execute(infos, schedule + Repeat(n, STEPS_PER_WORKER)), n + 1)
  {
    var s := Execute(infos, schedule);
    ExecuteRepeat(infos, schedule, n, STEPS_PER_WORKER);
    RunAlone(infos, s, n);
    assert EndedSilently(infos, State(PushedAlone(s.list, infos[n]), None, s.workers[n := Ended(None)]), n + 1);
  }

  lemma {:induction false} OneByOneNeverReports(infos: seq<TaskInfo>, n: nat)
    requires n <= |infos| && |infos| > 1024
    ensures EndedSilently(infos, Execute(infos, OneByOne(n)), n)
  {
    if n > 0 {
      OneByOneNeverReports(infos, n - 1);
      OneMoreSilently(infos, OneByOne(n - 1), n - 1);
    }
  }

  /**
    Every interleaving in which all workers end publishes exactly one complete report if and only if
    there is a batch at all and the batches are no more than the shared list keeps.
   */
  lemma {:induction false} ExactlyOnceIff(infos: seq<TaskInfo>)
    requires Indexed(infos)
    ensures (forall schedule :: AllEnded(Execute(infos, schedule)) ==> OneReport(infos, Execute(infos, schedule)))
            <==> 1 <= |infos| <= 1024
  {
    if 1 <= |infos| <= MAX_SIZE {
      forall schedule | AllEnded(Execute(infos, schedule)) ensures OneReport(infos, Execute(infos, schedule)) {
        SmallJobsReport(infos, schedule);
      }
    } else {
      var schedule := OneByOne(|infos|);
      if |infos| > 0 {
        OneByOneNeverReports(infos, |infos|);
      }
      assert AllEnded(Execute(infos, schedule));
      assert !OneReport(infos, Execute(infos, schedule));
    }
  }
}
