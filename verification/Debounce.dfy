/**
  Delayed calls that merge their arguments. A delay call cancels the call that is cached for its key,
  if that still sleeps, and takes its arguments along. The end of a call clears the caches of its key,
  also of a newer call that is still asleep, which then escapes the next delay call; so does a call that
  is submitted at once, because it comes too late after the first one.

  A step is one whole delay call, the start of a due call, or the end of a running call with its
  three removals from the caches.
 */
module Debounce {
  import opened Wrappers

  type Key(==, !new)
  type Value(==, !new)

  type Kwargs = map<string, set<Value>>

  /** An argument as passed: a tuple, list or set of values, or something that is refused. */
  datatype Arg = Collection(values: set<Value>) | Scalar

  datatype Phase = Waiting | Running | Finished

  /** A scheduled call with its own copy of the arguments; `cancelled` is the state of its future. */
  datatype Call = Call(key: Key, args: Kwargs, due: real, phase: Phase, cancelled: bool)

  /** The caches, and all calls ever scheduled; a call is named by its position in that list. */
  datatype State = State(
    tasks: map<Key, nat>,
    merged: map<Key, Kwargs>,
    firsts: map<Key, real>,
    calls: seq<Call>
  )

  const EMPTY := State(map[], map[], map[], [])

  // ----- one delay call

  /** Merging the arguments up to the first one that is refused. */
  function Merged(base: Kwargs, kwargs: seq<(string, Arg)>): (Kwargs, bool)
  {
    if kwargs == [] then (base, true)
    else
      var (soFar, ok) := Merged(base, kwargs[..|kwargs| - 1]);
      var (name, arg) := kwargs[|kwargs| - 1];
      if !ok || arg.Scalar? then (soFar, false)
      else (soFar[name := (if name in soFar then soFar[name] else {}) + arg.values], true)
  }

  /** Cancelling stops a call that has not started, and has no effect on one that has. */
  function Cancel(calls: seq<Call>, c: nat): seq<Call>
    requires c < |calls|
  {
    calls[c := calls[c].(cancelled := true)]
  }

  predicate Done(c: Call) {
    c.cancelled || c.phase.Finished?
  }

  /** Cached tasks exist and belong to the key they are cached under. */
  predicate TasksExist(s: State) {
    forall k :: k in s.tasks ==> s.tasks[k] < |s.calls| && s.calls[s.tasks[k]].key == k
  }

  function CancelOrRemove(s: State, key: Key): State
    requires TasksExist(s)
  {
    if key !in s.tasks then s
    else if Done(s.calls[s.tasks[key]]) then s.(tasks := s.tasks - {key})
    else s.(calls := Cancel(s.calls, s.tasks[key]))
  }

  /** A call with these arguments: after ttl, or at once when the first one is too long ago. */
  function Scheduled(s: State, key: Key, args: Kwargs, ttl: real, now: real): (s': State)
    requires TasksExist(s)
    ensures TasksExist(s')
  {
    var s1 := CancelOrRemove(s, key);
    var first := if key in s.firsts then s.firsts[key] else now;
    if now - first > ttl then
      s1.(merged := s1.merged - {key}, firsts := s1.firsts - {key},
          calls := s1.calls + [Call(key, args, now, Waiting, false)])
    else
      s1.(firsts := s1.firsts[key := first], tasks := s1.tasks[key := |s1.calls|],
          calls := s1.calls + [Call(key, args, now + ttl, Waiting, false)])
  }

  function Base(s: State, key: Key): Kwargs {
    if key in s.merged then s.merged[key] else map[]
  }

  predicate Accepted(s: State, key: Key, kwargs: seq<(string, Arg)>) {
    Merged(Base(s, key), kwargs).1
  }

  /**
    One delay call. The cached dictionary is shared with the merging loop: what was merged before a
    refused argument stays merged, although no call is scheduled.
   */
  function Delayed(s: State, key: Key, kwargs: seq<(string, Arg)>, ttl: real, now: real): (s': State)
    requires TasksExist(s)
    ensures TasksExist(s')
  {
    var args := Merged(Base(s, key), kwargs).0;
    if Accepted(s, key, kwargs) then Scheduled(s.(merged := s.merged[key := args]), key, args, ttl, now)
    else if key in s.merged then s.(merged := s.merged[key := args])
    else s
  }

  // ----- the other steps, and runs

  datatype Event =
    | Delay(key: Key, kwargs: seq<(string, Arg)>, ttl: real, now: real)
    | Start(call: nat, now: real)
    | Finish(call: nat, now: real)

  predicate Live(c: Call) {
    c.phase.Waiting? && !c.cancelled
  }

  predicate Enabled(s: State, e: Event) {
    match e
    case Delay(_, _, ttl, _) => true
    case Start(c, now) => c < |s.calls| && Live(s.calls[c]) && s.calls[c].due <= now
    case Finish(c, _) => c < |s.calls| && s.calls[c].phase.Running?
  }

  function Next(s: State, e: Event): (s': State)
    requires TasksExist(s) && Enabled(s, e)
    ensures TasksExist(s')
  {
    match e
    case Delay(key, kwargs, ttl, now) => Delayed(s, key, kwargs, ttl, now)
    case Start(c, _) => s.(calls := s.calls[c := s.calls[c].(phase := Running)])
    case Finish(c, _) =>
      var key := s.calls[c].key;
      State(s.tasks - {key}, s.merged - {key}, s.firsts - {key}, s.calls[c := s.calls[c].(phase := Finished)])
  }

  /** The state after these events, from empty caches; an event that is not enabled is skipped. */
  function Run(events: seq<Event>): (s: State)
    ensures TasksExist(s)
  {
    if events == [] then EMPTY
    else
      var before := Run(events[..|events| - 1]);
      var e := events[|events| - 1];
      if Enabled(before, e) then Next(before, e) else before
  }

  // ----- no argument is lost

  /** One value handed to an accepted delay call; `born` is the number of calls scheduled before. */
  datatype Submission = Submission(key: Key, name: string, value: Value, time: real, born: nat)

  ghost predicate Names(kwargs: seq<(string, Arg)>, name: string, value: Value) {
    exists i :: 0 <= i < |kwargs| && kwargs[i].0 == name && kwargs[i].1.Collection? && value in kwargs[i].1.values
  }

  ghost predicate Submits(s: State, e: Event, x: Submission) {
    && e.Delay? && Accepted(s, e.key, e.kwargs)
    && x.key == e.key && x.time == e.now && x.born == |s.calls| && Names(e.kwargs, x.name, x.value)
  }

  /** Some event of the run made this submission. */
  ghost predicate Submitted(events: seq<Event>, x: Submission) {
    events != [] &&
    (Submitted(events[..|events| - 1], x) || Submits(Run(events[..|events| - 1]), events[|events| - 1], x))
  }

  predicate Holds(args: Kwargs, name: string, value: Value) {
    name in args && value in args[name]
  }

  /** Cancelled before it started: it will never run. */
  predicate Dropped(c: Call) {
    c.phase.Waiting? && c.cancelled
  }

  /** Call c was scheduled by or after the submission, carries it, and has run or still will. */
  predicate Covers(s: State, c: nat, x: Submission) {
    && x.born <= c < |s.calls| && s.calls[c].key == x.key
    && Holds(s.calls[c].args, x.name, x.value) && !Dropped(s.calls[c])
  }

  predicate Within(a: Kwargs, b: Kwargs) {
    forall n :: n in a ==> n in b && a[n] <= b[n]
  }

  predicate KeyMerged(s: State, k: Key)
    requires TasksExist(s)
  {
    k in s.tasks && Live(s.calls[s.tasks[k]]) ==>
      k in s.merged && k in s.firsts && Within(s.calls[s.tasks[k]].args, s.merged[k])
  }

  /** All arguments of a sleeping call in the call cache are still among the merged arguments. */
  ghost predicate CachedAreMerged(s: State)
    requires TasksExist(s)
  {
    s.merged.Keys == s.firsts.Keys && forall k :: KeyMerged(s, k)
  }

  lemma {:induction false} MergedKeepsBase(base: Kwargs, kwargs: seq<(string, Arg)>)
    ensures Within(base, Merged(base, kwargs).0)
  {
    if kwargs != [] {
      MergedKeepsBase(base, kwargs[..|kwargs| - 1]);
    }
  }

  /** The merged arguments are those from before together with the new ones, nothing else. */
  lemma {:induction false} MergedExactly(base: Kwargs, kwargs: seq<(string, Arg)>, name: string, value: Value)
    ensures Holds(base, name, value) ==> Holds(Merged(base, kwargs).0, name, value)
    ensures Merged(base, kwargs).1 ==>
              (Holds(Merged(base, kwargs).0, name, value) <==> Holds(base, name, value) || Names(kwargs, name, value))
  {
    if kwargs != [] {
      var init := kwargs[..|kwargs| - 1];
      MergedExactly(base, init, name, value);
      var last := kwargs[|kwargs| - 1];
      assert Names(kwargs, name, value) <==>
        Names(init, name, value) || (last.0 == name && last.1.Collection? && value in last.1.values) by {
        if i :| 0 <= i < |init| && init[i].0 == name && init[i].1.Collection? && value in init[i].1.values {
          assert kwargs[i] == init[i];
        }
        if i :| 0 <= i < |kwargs| && kwargs[i].0 == name && kwargs[i].1.Collection? && value in kwargs[i].1.values {
          assert i == |kwargs| - 1 || init[i] == kwargs[i];
        }
      }
    }
  }

  /** The value is passed under this name by an argument that no refused one precedes. */
  ghost predicate NamesFirst(kwargs: seq<(string, Arg)>, name: string, value: Value) {
    exists i :: 0 <= i < |kwargs| && kwargs[i].0 == name && kwargs[i].1.Collection? && value in kwargs[i].1.values
                && forall j :: 0 <= j < i ==> kwargs[j].1.Collection?
  }

  /** Accepted or not: merged are the arguments from before and those that no refused one precedes. */
  lemma {:induction false} MergedIff(base: Kwargs, kwargs: seq<(string, Arg)>, name: string, value: Value)
    ensures Holds(Merged(base, kwargs).0, name, value) <==> Holds(base, name, value) || NamesFirst(kwargs, name, value)
  {
    if kwargs != [] {
      var init, last := kwargs[..|kwargs| - 1], kwargs[|kwargs| - 1];
      MergedIff(base, init, name, value);
      AcceptedIffCollections(base, init);
      assert forall i :: 0 <= i < |init| ==> kwargs[i] == init[i];
      assert NamesFirst(kwargs, name, value) <==>
        NamesFirst(init, name, value) ||
        (Merged(base, init).1 && last.0 == name && last.1.Collection? && value in last.1.values) by {
        if i :| 0 <= i < |init| && init[i].0 == name && init[i].1.Collection? && value in init[i].1.values
                && forall j :: 0 <= j < i ==> init[j].1.Collection? {
          assert kwargs[i] == init[i];
        }
        if i :| 0 <= i < |kwargs| && kwargs[i].0 == name && kwargs[i].1.Collection? && value in kwargs[i].1.values
                && forall j :: 0 <= j < i ==> kwargs[j].1.Collection? {
          assert i == |kwargs| - 1 || init[i] == kwargs[i];
        }
      }
    }
  }

  /** A delay call is accepted exactly when every argument is a collection. */
  lemma {:induction false} AcceptedIffCollections(base: Kwargs, kwargs: seq<(string, Arg)>)
    ensures Merged(base, kwargs).1 <==> forall i :: 0 <= i < |kwargs| ==> kwargs[i].1.Collection?
  {
    if kwargs != [] {
      var init := kwargs[..|kwargs| - 1];
      AcceptedIffCollections(base, init);
      assert forall i :: 0 <= i < |init| ==> kwargs[i] == init[i];
    }
  }

  /** The delay call on this key cancels call c. */
  predicate Cancels(s: State, key: Key, c: nat)
    requires c < |s.calls|
  {
    key in s.tasks && s.tasks[key] == c && !Done(s.calls[c])
  }

  /** What an accepted delay call does to the calls scheduled before it. */
  lemma {:induction false} DelayTouches(s: State, key: Key, kwargs: seq<(string, Arg)>, ttl: real, now: real)
    requires TasksExist(s) && Accepted(s, key, kwargs)
    ensures var s' := Delayed(s, key, kwargs, ttl, now);
            && |s'.calls| == |s.calls| + 1
            && s'.calls[|s.calls|].args == Merged(Base(s, key), kwargs).0
            && s'.calls[|s.calls|].key == key && Live(s'.calls[|s.calls|])
            && forall c :: 0 <= c < |s.calls| ==>
                 s'.calls[c] == if Cancels(s, key, c) then s.calls[c].(cancelled := true) else s.calls[c]
  {
  }

  /** The two maps say the same about the key. */
  ghost predicate SameEntry<V>(m: map<Key, V>, m': map<Key, V>, k: Key) {
    (k in m <==> k in m') && (k in m ==> m[k] == m'[k])
  }

  /** A delay call leaves the cache entries of other keys alone. */
  lemma {:induction false} DelayLeaves(s: State, key: Key, kwargs: seq<(string, Arg)>, ttl: real, now: real, k: Key)
    requires TasksExist(s) && k != key
    ensures var s' := Delayed(s, key, kwargs, ttl, now);
            SameEntry(s.tasks, s'.tasks, k) && SameEntry(s.merged, s'.merged, k) && SameEntry(s.firsts, s'.firsts, k)
  {
    if Accepted(s, key, kwargs) {
      var s1 := s.(merged := s.merged[key := Merged(Base(s, key), kwargs).0]);
      assert SameEntry(s.tasks, CancelOrRemove(s1, key).tasks, k);
    }
  }

  /**
    What an accepted delay call leaves in the caches of its key: asleep, the new call and the time of the
    first one; submitted at once, no arguments and no time, and of a cached call only one that could still
    be cancelled.
   */
  lemma {:induction false} DelayCaches(s: State, key: Key, kwargs: seq<(string, Arg)>, ttl: real, now: real)
    requires TasksExist(s) && Accepted(s, key, kwargs)
    ensures var s', first := Delayed(s, key, kwargs, ttl, now), if key in s.firsts then s.firsts[key] else now;
            if now - first <= ttl then
              && key in s'.tasks && s'.tasks[key] == |s.calls| && key in s'.firsts && s'.firsts[key] == first
              && key in s'.merged && s'.merged[key] == Merged(Base(s, key), kwargs).0
              && s'.calls[|s.calls|].due == now + ttl
            else
              && (key in s'.tasks <==> key in s.tasks && !s.calls[s.tasks[key]].cancelled
                                       && !s.calls[s.tasks[key]].phase.Finished?)
              && (key in s'.tasks ==> s'.tasks[key] == s.tasks[key])
              && key !in s'.firsts && key !in s'.merged && s'.calls[|s.calls|].due == now
  {
  }

  lemma {:induction false} NextKeepsMerged(s: State, e: Event)
    requires TasksExist(s) && CachedAreMerged(s) && Enabled(s, e)
    ensures CachedAreMerged(Next(s, e))
  {
    var s' := Next(s, e);
    forall k ensures KeyMerged(s', k) && (k in s'.merged <==> k in s'.firsts) {
      assert KeyMerged(s, k) && (k in s.merged <==> k in s.firsts);
      if e.Delay? {
        if e.key == k {
          DelayKeepsMerged(s, k, e.kwargs, e.ttl, e.now);
        } else {
          DelayLeaves(s, e.key, e.kwargs, e.ttl, e.now, k);
          if Accepted(s, e.key, e.kwargs) {
            DelayTouches(s, e.key, e.kwargs, e.ttl, e.now);
          }
        }
      }
    }
  }

  lemma {:induction false} DelayKeepsMerged(s: State, key: Key, kwargs: seq<(string, Arg)>, ttl: real, now: real)
    requires TasksExist(s) && KeyMerged(s, key) && (key in s.merged <==> key in s.firsts)
    ensures KeyMerged(Delayed(s, key, kwargs, ttl, now), key)
    ensures key in Delayed(s, key, kwargs, ttl, now).merged <==> key in Delayed(s, key, kwargs, ttl, now).firsts
  {
    MergedKeepsBase(Base(s, key), kwargs);
  }

  /** A submission that is covered stays covered: by the same call, or by the one that replaces it. */
  lemma {:induction false} NextKeepsCover(s: State, e: Event, x: Submission, c: nat) returns (c': nat)
    requires TasksExist(s) && CachedAreMerged(s) && Enabled(s, e) && Covers(s, c, x)
    ensures Covers(Next(s, e), c', x)
    ensures c' == if Replaces(s, e, c) then |s.calls| else c
  {
    if e.Delay? && Accepted(s, e.key, e.kwargs) {
      DelayTouches(s, e.key, e.kwargs, e.ttl, e.now);
      if Replaces(s, e, c) {
        assert KeyMerged(s, e.key);
        MergedKeepsBase(Base(s, e.key), e.kwargs);
        return |s.calls|;
      }
    }
    c' := c;
  }

  /** The event cancels the sleeping call c and schedules its replacement. */
  predicate Replaces(s: State, e: Event, c: nat)
    requires c < |s.calls|
  {
    e.Delay? && Accepted(s, e.key, e.kwargs) && Cancels(s, e.key, c) && s.calls[c].phase.Waiting?
  }

  /** Every value ever submitted is carried by a call that has run, is running or will still run. */
  lemma {:induction false} NoArgumentLost(events: seq<Event>, x: Submission)
    requires Submitted(events, x)
    ensures exists c: nat :: Covers(Run(events), c, x)
  {
    var init, e := events[..|events| - 1], events[|events| - 1];
    var s := Run(init);
    RunKeepsMerged(init);
    if Submitted(init, x) {
      NoArgumentLost(init, x);
      var c: nat :| Covers(s, c, x);
      if Enabled(s, e) {
        c := NextKeepsCover(s, e, x, c);
      }
      assert Covers(Run(events), c, x);
    } else {
      MergedExactly(Base(s, e.key), e.kwargs, x.name, x.value);
      assert Covers(Run(events), |s.calls|, x);
    }
  }

  lemma {:induction false} RunKeepsMerged(events: seq<Event>)
    ensures CachedAreMerged(Run(events))
  {
    if events != [] {
      var init, e := events[..|events| - 1], events[|events| - 1];
      RunKeepsMerged(init);
      if Enabled(Run(init), e) {
        NextKeepsMerged(Run(init), e);
      }
    }
  }

  /** Once everything has settled, every submission was part of a call that ran after it was made. */
  lemma {:induction false} AllDeliveredWhenQuiet(events: seq<Event>, x: Submission)
    requires Submitted(events, x)
    requires forall c :: 0 <= c < |Run(events).calls| ==>
                           !Live(Run(events).calls[c]) && !Run(events).calls[c].phase.Running?
    ensures exists c: nat :: Covers(Run(events), c, x) && Run(events).calls[c].phase.Finished?
  {
    NoArgumentLost(events, x);
  }

  // ----- no call is put off for long

  /** The clock reading of the last event. */
  function Clock(events: seq<Event>): Option<real> {
    if events == [] then None else Some(events[|events| - 1].now)
  }

  /**
    The clock never runs backwards, no ttl exceeds maxTtl, and no sleeping call is started later than
    slack after it is due: at every event, what has not been started is not overdue by more than that.
   */
  predicate Timely(events: seq<Event>, maxTtl: real, slack: real) {
    events == [] ||
    (var init, e := events[..|events| - 1], events[|events| - 1];
     && Timely(init, maxTtl, slack)
     && (Clock(init).Some? ==> Clock(init).value <= e.now)
     && (e.Delay? ==> 0.0 <= e.ttl <= maxTtl)
     && NoneOverdue(Run(init), e.now, slack))
  }

  predicate NoneOverdue(s: State, now: real, slack: real) {
    forall c :: 0 <= c < |s.calls| && Live(s.calls[c]) ==> now <= s.calls[c].due + slack
  }

  /**
    Call c covers the submission and is due in time. While it sleeps in the cache, where it may be put
    off, there is still enough time left for its replacement.
   */
  predicate CoversInTime(s: State, c: nat, x: Submission, maxTtl: real, slack: real)
    requires TasksExist(s)
  {
    && Covers(s, c, x)
    && x.time <= s.calls[c].due <= x.time + 2.0 * maxTtl + slack
    && (x.key in s.tasks && s.tasks[x.key] == c && Live(s.calls[c]) ==>
          s.calls[c].due <= x.time + 2.0 * maxTtl && x.key in s.firsts && s.firsts[x.key] <= x.time)
  }

  lemma {:induction false} NextKeepsTime(s: State, e: Event, x: Submission, c: nat, maxTtl: real, slack: real)
      returns (c': nat)
    requires TasksExist(s) && CachedAreMerged(s) && Enabled(s, e) && CoversInTime(s, c, x, maxTtl, slack)
    requires x.time <= e.now && (e.Delay? ==> 0.0 <= e.ttl <= maxTtl)
    requires 0.0 <= slack && NoneOverdue(s, e.now, slack)
    ensures CoversInTime(Next(s, e), c', x, maxTtl, slack)
  {
    c' := NextKeepsCover(s, e, x, c);
    if e.Delay? && Accepted(s, e.key, e.kwargs) {
      DelayTouches(s, e.key, e.kwargs, e.ttl, e.now);
    }
    if e.Delay? && e.key != x.key {
      DelayLeaves(s, e.key, e.kwargs, e.ttl, e.now, x.key);
    }
  }

  lemma {:induction false} NewCoverInTime(s: State, e: Event, x: Submission, maxTtl: real, slack: real)
    requires TasksExist(s) && Submits(s, e, x) && 0.0 <= e.ttl <= maxTtl && 0.0 <= slack
    requires forall k :: k in s.firsts ==> s.firsts[k] <= e.now
    ensures CoversInTime(Next(s, e), |s.calls|, x, maxTtl, slack)
  {
    MergedExactly(Base(s, e.key), e.kwargs, x.name, x.value);
    DelayTouches(s, e.key, e.kwargs, e.ttl, e.now);
  }

  lemma {:induction false} FirstsArePast(events: seq<Event>, maxTtl: real, slack: real)
    requires Timely(events, maxTtl, slack)
    ensures forall k :: k in Run(events).firsts ==> Clock(events).Some? && Run(events).firsts[k] <= Clock(events).value
  {
    if events != [] {
      FirstsArePast(events[..|events| - 1], maxTtl, slack);
    }
  }

  lemma {:induction false} SubmittedInPast(events: seq<Event>, x: Submission, maxTtl: real, slack: real)
    requires Timely(events, maxTtl, slack) && Submitted(events, x)
    ensures x.time <= Clock(events).value
  {
    var init := events[..|events| - 1];
    if Submitted(init, x) {
      SubmittedInPast(init, x, maxTtl, slack);
    }
  }

  /**
    However often later calls cancel and reschedule it, what is submitted at time t is carried by a
    call that becomes due no later than t + 2 * maxTtl + slack.
   */
  lemma {:induction false} BoundedLatency(events: seq<Event>, x: Submission, maxTtl: real, slack: real)
    requires 0.0 <= slack && Timely(events, maxTtl, slack) && Submitted(events, x)
    ensures exists c: nat :: CoversInTime(Run(events), c, x, maxTtl, slack)
  {
    var init, e := events[..|events| - 1], events[|events| - 1];
    var s := Run(init);
    RunKeepsMerged(init);
    if Submitted(init, x) {
      BoundedLatency(init, x, maxTtl, slack);
      SubmittedInPast(init, x, maxTtl, slack);
      var c: nat :| CoversInTime(s, c, x, maxTtl, slack);
      if Enabled(s, e) {
        c := NextKeepsTime(s, e, x, c, maxTtl, slack);
      }
      assert CoversInTime(Run(events), c, x, maxTtl, slack);
    } else {
      FirstsArePast(init, maxTtl, slack);
      NewCoverInTime(s, e, x, maxTtl, slack);
      assert CoversInTime(Run(events), |s.calls|, x, maxTtl, slack);
    }
  }

  /** Once the clock of a timely run has passed t + 2 * maxTtl + 2 * slack, what was submitted at t has been started. */
  lemma {:induction false} StartedInTime(events: seq<Event>, next: Event, x: Submission, maxTtl: real, slack: real)
    requires 0.0 <= slack && Timely(events + [next], maxTtl, slack) && Submitted(events, x)
    requires next.now > x.time + 2.0 * maxTtl + 2.0 * slack
    ensures exists c: nat :: Covers(Run(events), c, x) && !Run(events).calls[c].phase.Waiting?
  {
    assert (events + [next])[..|events|] == events;
    BoundedLatency(events, x, maxTtl, slack);
  }

  // ----- a burst of calls runs once

  function After(s: State, events: seq<Event>): (s': State)
    requires TasksExist(s)
    ensures TasksExist(s')
  {
    if events == [] then s
    else
      var before := After(s, events[..|events| - 1]);
      if Enabled(before, events[|events| - 1]) then Next(before, events[|events| - 1]) else before
  }

  predicate DelayOn(e: Event, key: Key) {
    e.Delay? && e.key == key
  }

  predicate EndOn(s: State, e: Event, key: Key) {
    e.Finish? && Enabled(s, e) && s.calls[e.call].key == key
  }

  /** The event leaves the cache entries of the key alone: no delay call on it, and no end of one of its calls. */
  predicate Apart(s: State, e: Event, key: Key) {
    !DelayOn(e, key) && !EndOn(s, e, key)
  }

  /** The time of the first delay call on the key that the caches or the events know of. */
  function Opened(s: State, key: Key, events: seq<Event>): Option<real>
  {
    if events == [] then (if key in s.firsts then Some(s.firsts[key]) else None)
    else
      var before := Opened(s, key, events[..|events| - 1]);
      var e := events[|events| - 1];
      if before.None? && DelayOn(e, key) then Some(e.now) else before
  }

  /**
    All delay calls on the key are accepted and come within their ttl after the first one, and no call
    of the key ends. Everything else may happen in between.
   */
  predicate IsBurst(s: State, key: Key, events: seq<Event>)
    requires TasksExist(s)
  {
    events == [] ||
    (var init, e := events[..|events| - 1], events[|events| - 1];
     && IsBurst(s, key, init)
     && if DelayOn(e, key) then
          && (forall i :: 0 <= i < |e.kwargs| ==> e.kwargs[i].1.Collection?)
          && e.now - Opened(s, key, events).value <= e.ttl
        else Apart(After(s, init), e, key))
  }

  function LastDelay(events: seq<Event>, key: Key): (last: Option<Event>)
    ensures last.Some? ==> DelayOn(last.value, key)
  {
    if events == [] then None
    else if DelayOn(events[|events| - 1], key) then Some(events[|events| - 1])
    else LastDelay(events[..|events| - 1], key)
  }

  /** Some delay call on the key passes this value under this name. */
  ghost predicate NamedBy(events: seq<Event>, key: Key, name: string, value: Value) {
    events != [] &&
    (var e := events[|events| - 1];
     NamedBy(events[..|events| - 1], key, name, value) || (DelayOn(e, key) && Names(e.kwargs, name, value)))
  }

  /** These arguments and those of all delay calls on the key, merged in order. */
  function BurstArgs(base: Kwargs, events: seq<Event>, key: Key): Kwargs
  {
    if events == [] then base
    else
      var before := BurstArgs(base, events[..|events| - 1], key);
      var e := events[|events| - 1];
      if DelayOn(e, key) then Merged(before, e.kwargs).0 else before
  }

  lemma {:induction false} BurstArgsAreNamed(s: State, key: Key, events: seq<Event>, name: string, value: Value)
    requires TasksExist(s) && IsBurst(s, key, events)
    ensures Holds(BurstArgs(Base(s, key), events, key), name, value) <==>
            Holds(Base(s, key), name, value) || NamedBy(events, key, name, value)
  {
    if events != [] {
      var init, e := events[..|events| - 1], events[|events| - 1];
      BurstArgsAreNamed(s, key, init, name, value);
      if DelayOn(e, key) {
        MergedExactly(BurstArgs(Base(s, key), init, key), e.kwargs, name, value);
        AcceptedIffCollections(BurstArgs(Base(s, key), init, key), e.kwargs);
      }
    }
  }

  /** What the caches say about the key: first time and arguments so far, and the last call. */
  ghost predicate KeySoFar(s: State, mid: State, key: Key, since: Option<real>, args: Kwargs, last: Option<Event>)
    requires TasksExist(s) && TasksExist(mid)
  {
    && |s.calls| <= |mid.calls|
    && (if since.Some? then key in mid.firsts && mid.firsts[key] == since.value else key !in mid.firsts)
    && Base(mid, key) == args
    && (last.None? ==> SameEntry(s.tasks, mid.tasks, key))
    && (last.Some? ==>
         && last.value.Delay? && key in mid.tasks && mid.tasks[key] >= |s.calls|
         && (var call := mid.calls[mid.tasks[key]];
             && call == Call(key, args, last.value.now + last.value.ttl, call.phase, false)
             && !call.phase.Finished?))
  }

  /**
    All other calls of the key since s, and the one that was cached in s, are not left to run; the other
    calls of the key before s are as they were, but may have been started and ended.
   */
  ghost predicate CallSoFar(s: State, mid: State, key: Key, last: Option<Event>, c: nat)
    requires TasksExist(s) && TasksExist(mid) && c < |mid.calls|
  {
    && (c >= |s.calls| && mid.calls[c].key == key ==>
          last.Some? && (Live(mid.calls[c]) ==> key in mid.tasks && mid.tasks[key] == c))
    && (last.Some? && key in s.tasks && c == s.tasks[key] ==> !Live(mid.calls[c]))
    && (c < |s.calls| && s.calls[c].key == key && !(key in s.tasks && c == s.tasks[key]) ==>
          mid.calls[c] == s.calls[c].(phase := mid.calls[c].phase))
  }

  lemma {:induction false} ApartKeepsKey(s: State, mid: State, e: Event, key: Key, since: Option<real>, args: Kwargs,
                                         last: Option<Event>)
    requires TasksExist(s) && TasksExist(mid) && Enabled(mid, e) && Apart(mid, e, key)
    requires KeySoFar(s, mid, key, since, args, last)
    ensures KeySoFar(s, Next(mid, e), key, since, args, last)
  {
    if e.Delay? {
      DelayLeaves(mid, e.key, e.kwargs, e.ttl, e.now, key);
      if Accepted(mid, e.key, e.kwargs) {
        DelayTouches(mid, e.key, e.kwargs, e.ttl, e.now);
      }
    }
  }

  lemma {:induction false} ApartKeepsCall(s: State, mid: State, e: Event, key: Key, last: Option<Event>, c: nat)
    requires TasksExist(s) && TasksExist(mid) && Enabled(mid, e) && Apart(mid, e, key)
    requires |s.calls| <= |mid.calls| && c < |Next(mid, e).calls|
    requires c < |mid.calls| ==> CallSoFar(s, mid, key, last, c)
    ensures CallSoFar(s, Next(mid, e), key, last, c)
  {
    if e.Delay? {
      DelayLeaves(mid, e.key, e.kwargs, e.ttl, e.now, key);
      if Accepted(mid, e.key, e.kwargs) {
        DelayTouches(mid, e.key, e.kwargs, e.ttl, e.now);
      }
    }
  }

  lemma {:induction false} DelayKeepsKey(s: State, mid: State, e: Event, key: Key, since: Option<real>, args: Kwargs,
                                         last: Option<Event>)
    requires TasksExist(s) && TasksExist(mid) && DelayOn(e, key) && Accepted(mid, key, e.kwargs)
    requires KeySoFar(s, mid, key, since, args, last)
    requires e.now - (if since.Some? then since.value else e.now) <= e.ttl
    ensures KeySoFar(s, Next(mid, e), key, if since.Some? then since else Some(e.now),
                     Merged(args, e.kwargs).0, Some(e))
  {
    DelayTouches(mid, key, e.kwargs, e.ttl, e.now);
  }

  lemma {:induction false} DelayKeepsCall(s: State, mid: State, e: Event, key: Key, since: Option<real>, args: Kwargs,
                                          last: Option<Event>, c: nat)
    requires TasksExist(s) && TasksExist(mid) && DelayOn(e, key) && Accepted(mid, key, e.kwargs)
    requires KeySoFar(s, mid, key, since, args, last)
    requires e.now - (if since.Some? then since.value else e.now) <= e.ttl
    requires c < |Next(mid, e).calls| && (c < |mid.calls| ==> CallSoFar(s, mid, key, last, c))
    ensures CallSoFar(s, Next(mid, e), key, Some(e), c)
  {
    DelayTouches(mid, key, e.kwargs, e.ttl, e.now);
  }

  lemma {:induction false} BurstKeepsKey(s: State, key: Key, events: seq<Event>)
    requires TasksExist(s) && IsBurst(s, key, events)
    ensures KeySoFar(s, After(s, events), key, Opened(s, key, events), BurstArgs(Base(s, key), events, key),
                     LastDelay(events, key))
  {
    if events != [] {
      var init, e := events[..|events| - 1], events[|events| - 1];
      BurstKeepsKey(s, key, init);
      var mid, since, args := After(s, init), Opened(s, key, init), BurstArgs(Base(s, key), init, key);
      if DelayOn(e, key) {
        AcceptedIffCollections(args, e.kwargs);
        DelayKeepsKey(s, mid, e, key, since, args, LastDelay(init, key));
      } else if Enabled(mid, e) {
        ApartKeepsKey(s, mid, e, key, since, args, LastDelay(init, key));
      }
    }
  }

  lemma {:induction false} BurstKeepsCall(s: State, key: Key, events: seq<Event>, c: nat)
    requires TasksExist(s) && IsBurst(s, key, events) && c < |After(s, events).calls|
    ensures CallSoFar(s, After(s, events), key, LastDelay(events, key), c)
  {
    if events != [] {
      var init, e := events[..|events| - 1], events[|events| - 1];
      var mid, since, args := After(s, init), Opened(s, key, init), BurstArgs(Base(s, key), init, key);
      if c < |mid.calls| {
        BurstKeepsCall(s, key, init, c);
      }
      if DelayOn(e, key) {
        BurstKeepsKey(s, key, init);
        AcceptedIffCollections(args, e.kwargs);
        DelayKeepsCall(s, mid, e, key, since, args, LastDelay(init, key), c);
      } else if Enabled(mid, e) {
        BurstKeepsKey(s, key, init);
        ApartKeepsCall(s, mid, e, key, LastDelay(init, key), c);
      }
    }
  }

  /**
    Of the calls of the key since s, a burst with at least one delay call leaves one to run: the last
    one, due its ttl after the last delay, carrying what was cached for the key and the arguments of the
    burst, and no others. The call that was cached in s does not run any more either, unless it has been
    started; the calls that were scheduled before and are not cached are left as they are.
   */
  lemma {:induction false} BurstRunsOnce(s: State, key: Key, events: seq<Event>)
    requires TasksExist(s) && IsBurst(s, key, events) && LastDelay(events, key).Some?
    ensures key in After(s, events).tasks && After(s, events).tasks[key] >= |s.calls|
    ensures var s', last := After(s, events), LastDelay(events, key).value;
            var n := s'.tasks[key];
            && !Dropped(s'.calls[n]) && s'.calls[n].key == key && s'.calls[n].due == last.now + last.ttl
            && (forall c :: |s.calls| <= c < |s'.calls| && s'.calls[c].key == key && c != n ==> !Live(s'.calls[c]))
            && (key in s.tasks ==> s.tasks[key] < |s'.calls| && !Live(s'.calls[s.tasks[key]]))
            && (forall c :: 0 <= c < |s.calls| && s.calls[c].key == key && !(key in s.tasks && c == s.tasks[key]) ==>
                  c < |s'.calls| && s'.calls[c] == s.calls[c].(phase := s'.calls[c].phase))
    ensures forall name, value :: Holds(After(s, events).calls[After(s, events).tasks[key]].args, name, value) <==>
                                  Holds(Base(s, key), name, value) || NamedBy(events, key, name, value)
  {
    var s' := After(s, events);
    BurstKeepsKey(s, key, events);
    forall name, value ensures Holds(BurstArgs(Base(s, key), events, key), name, value) <==>
                               Holds(Base(s, key), name, value) || NamedBy(events, key, name, value) {
      BurstArgsAreNamed(s, key, events, name, value);
    }
    forall c | |s.calls| <= c < |s'.calls| && s'.calls[c].key == key && c != s'.tasks[key]
      ensures !Live(s'.calls[c])
    {
      BurstKeepsCall(s, key, events, c);
    }
    if key in s.tasks {
      BurstKeepsCall(s, key, events, s.tasks[key]);
    }
    forall c | 0 <= c < |s.calls| && s.calls[c].key == key && !(key in s.tasks && c == s.tasks[key])
      ensures c < |s'.calls| && s'.calls[c] == s.calls[c].(phase := s'.calls[c].phase)
    {
      BurstKeepsCall(s, key, events, c);
    }
  }

  // ----- a call that escapes the next delay call

  /** Among these events a call of the key ends. */
  predicate EndsIn(s: State, events: seq<Event>, key: Key)
    requires TasksExist(s)
  {
    events != [] &&
    (var init := events[..|events| - 1];
     EndsIn(s, init, key) || EndOn(After(s, init), events[|events| - 1], key))
  }

  /** While no call of the key ends, its cached call c stays cached or stops being live; after that, never again. */
  lemma {:induction false} CachedUntilEnd(s: State, events: seq<Event>, key: Key, c: nat)
    requires TasksExist(s) && key in s.tasks && s.tasks[key] == c
    ensures var mid := After(s, events);
            && c < |mid.calls|
            && (if EndsIn(s, events, key) then !(key in mid.tasks && mid.tasks[key] == c)
                else Live(mid.calls[c]) ==> key in mid.tasks && mid.tasks[key] == c)
  {
    if events != [] {
      var init, e := events[..|events| - 1], events[|events| - 1];
      CachedUntilEnd(s, init, key, c);
      if Enabled(After(s, init), e) {
        CachedOneMore(After(s, init), e, key, c);
      }
    }
  }

  lemma {:induction false} CachedOneMore(mid: State, e: Event, key: Key, c: nat)
    requires TasksExist(mid) && Enabled(mid, e) && c < |mid.calls|
    ensures var s' := Next(mid, e);
            && c < |s'.calls|
            && (EndOn(mid, e, key) ==> key !in s'.tasks)
            && (!(key in mid.tasks && mid.tasks[key] == c) ==> !(key in s'.tasks && s'.tasks[key] == c))
            && (!EndOn(mid, e, key) && key in mid.tasks && mid.tasks[key] == c && Live(s'.calls[c]) ==>
                  key in s'.tasks && s'.tasks[key] == c)
            && (Live(s'.calls[c]) ==> Live(mid.calls[c]))
  {
    if e.Delay? {
      if e.key != key {
        DelayLeaves(mid, e.key, e.kwargs, e.ttl, e.now, key);
      }
      if Accepted(mid, e.key, e.kwargs) {
        DelayTouches(mid, e.key, e.kwargs, e.ttl, e.now);
      }
    }
  }

  /** The delay call comes more than ttl after the first one, and is submitted at once. */
  predicate AtOnce(s: State, e: Event) {
    e.Delay? && e.now - (if e.key in s.firsts then s.firsts[e.key] else e.now) > e.ttl
  }

  /** A call that is not in the cache of the key never gets there. */
  lemma {:induction false} UncachedForGood(s: State, events: seq<Event>, key: Key, c: nat)
    requires TasksExist(s) && c < |s.calls| && !(key in s.tasks && s.tasks[key] == c)
    ensures var mid := After(s, events); c < |mid.calls| && !(key in mid.tasks && mid.tasks[key] == c)
  {
    if events != [] {
      var init, e := events[..|events| - 1], events[|events| - 1];
      UncachedForGood(s, init, key, c);
      if Enabled(After(s, init), e) {
        CachedOneMore(After(s, init), e, key, c);
      }
    }
  }

  /**
    An accepted delay call, any events, then another accepted delay call on the same key: the call of the
    first one stays live exactly if it still was, and it was submitted at once or a call of the key ended
    in between.
   */
  lemma {:induction false} EscapesIff(s: State, first: Event, events: seq<Event>, second: Event)
    requires TasksExist(s) && first.Delay? && Accepted(s, first.key, first.kwargs) && DelayOn(second, first.key)
    requires Accepted(After(Next(s, first), events), second.key, second.kwargs)
    ensures var mid := After(Next(s, first), events);
            && |s.calls| < |mid.calls| < |Next(mid, second).calls|
            && (Live(Next(mid, second).calls[|s.calls|]) <==>
                Live(mid.calls[|s.calls|]) && (AtOnce(s, first) || EndsIn(Next(s, first), events, first.key)))
  {
    var key, c := first.key, |s.calls|;
    DelayTouches(s, key, first.kwargs, first.ttl, first.now);
    if AtOnce(s, first) {
      UncachedForGood(Next(s, first), events, key, c);
    } else {
      CachedUntilEnd(Next(s, first), events, key, c);
    }
    DelayTouches(After(Next(s, first), events), key, second.kwargs, second.ttl, second.now);
  }

  lemma {:induction false} MergedOne(base: Kwargs, name: string, values: set<Value>)
    ensures Merged(base, [(name, Collection(values))]) ==
            (base[name := (if name in base then base[name] else {}) + values], true)
  {
    var kwargs := [(name, Collection(values))];
    assert kwargs[..|kwargs| - 1] == [];
  }

  function One(key: Key, name: string, x: Value, now: real): Event {
    Delay(key, [(name, Collection({x}))], 5.0, now)
  }

  /** The run with one more event of the list. */
  lemma {:induction false} RunOneMore(events: seq<Event>, n: nat, maxTtl: real, slack: real)
    requires n < |events|
    ensures var s := Run(events[..n]);
            && Run(events[..n + 1]) == (if Enabled(s, events[n]) then Next(s, events[n]) else s)
            && (Timely(events[..n], maxTtl, slack) && (n > 0 ==> events[n - 1].now <= events[n].now)
                && (events[n].Delay? ==> 0.0 <= events[n].ttl <= maxTtl) && NoneOverdue(s, events[n].now, slack) ==>
                  Timely(events[..n + 1], maxTtl, slack))
  {
    assert events[..n + 1][..n] == events[..n];
  }

  function SplitByEnd(key: Key, name: string, u: Value, v: Value, w: Value): seq<Event> {
    [One(key, name, u, 0.0), Start(0, 5.0), One(key, name, v, 5.0), Finish(0, 5.0), One(key, name, w, 5.0)]
  }

  lemma {:induction false} SplitStarts(key: Key, name: string, u: Value, v: Value, w: Value)
    ensures var events := SplitByEnd(key, name, u, v, w);
            && Timely(events[..2], 5.0, 0.0)
            && Run(events[..2]) == State(map[key := 0], map[key := map[name := {u}]], map[key := 0.0],
                                         [Call(key, map[name := {u}], 5.0, Running, false)])
  {
    var events := SplitByEnd(key, name, u, v, w);
    MergedOne(map[], name, {u});
    assert {} + {u} == {u};
    RunOneMore(events, 0, 5.0, 0.0);
    assert Run(events[..1]) == State(map[key := 0], map[key := map[name := {u}]], map[key := 0.0],
                                     [Call(key, map[name := {u}], 5.0, Waiting, false)]);
    RunOneMore(events, 1, 5.0, 0.0);
  }

  /** A delay call while the call that is cached for the key runs. */
  lemma {:induction false} DelayWhileRunning(key: Key, name: string, u: Value, v: Value)
    ensures var s := State(map[key := 0], map[key := map[name := {u}]], map[key := 0.0],
                           [Call(key, map[name := {u}], 5.0, Running, false)]);
            Next(s, One(key, name, v, 5.0)) ==
              State(map[key := 1], map[key := map[name := {u} + {v}]], map[key := 0.0],
                    [Call(key, map[name := {u}], 5.0, Running, true),
                     Call(key, map[name := {u} + {v}], 10.0, Waiting, false)])
  {
    MergedOne(map[name := {u}], name, {v});
    assert map[name := {u}][name := {u} + {v}] == map[name := {u} + {v}];
  }

  lemma {:induction false} EndWhileSleeping(key: Key, args: Kwargs, first: Call, second: Call)
    requires first.key == key == second.key && first.phase.Running?
    ensures Next(State(map[key := 1], map[key := args], map[key := 0.0], [first, second]), Finish(0, 5.0)) ==
            State(map[], map[], map[], [first.(phase := Finished), second])
  {
  }

  lemma {:induction false} SplitGoesOn(key: Key, name: string, u: Value, v: Value, w: Value)
    ensures var events := SplitByEnd(key, name, u, v, w);
            && Timely(events[..3], 5.0, 0.0)
            && Run(events[..3]) == State(map[key := 1], map[key := map[name := {u} + {v}]], map[key := 0.0],
                                         [Call(key, map[name := {u}], 5.0, Running, true),
                                          Call(key, map[name := {u} + {v}], 10.0, Waiting, false)])
  {
    SplitStarts(key, name, u, v, w);
    DelayWhileRunning(key, name, u, v);
    RunOneMore(SplitByEnd(key, name, u, v, w), 2, 5.0, 0.0);
  }

  lemma {:induction false} SplitEnds(key: Key, name: string, u: Value, v: Value, w: Value)
    ensures var events := SplitByEnd(key, name, u, v, w);
            && Timely(events[..4], 5.0, 0.0)
            && Run(events[..4]) == State(map[], map[], map[], [Call(key, map[name := {u}], 5.0, Finished, true),
                                                               Call(key, map[name := {u} + {v}], 10.0, Waiting, false)])
  {
    SplitGoesOn(key, name, u, v, w);
    EndWhileSleeping(key, map[name := {u} + {v}], Call(key, map[name := {u}], 5.0, Running, true),
                     Call(key, map[name := {u} + {v}], 10.0, Waiting, false));
    RunOneMore(SplitByEnd(key, name, u, v, w), 3, 5.0, 0.0);
  }

  /**
    A run in which the burst is split: v and w are submitted at the same time, but the call that carries
    u ends in between, so the call with v is out of the caches and both calls run.
   */
  lemma {:induction false} EndSplitsBurst(key: Key, name: string, u: Value, v: Value, w: Value)
    ensures var events := SplitByEnd(key, name, u, v, w);
            && Timely(events, 5.0, 0.0)
            && Run(events).calls == [Call(key, map[name := {u}], 5.0, Finished, true),
                                     Call(key, map[name := {u} + {v}], 10.0, Waiting, false),
                                     Call(key, map[name := {w}], 10.0, Waiting, false)]
  {
    var events := SplitByEnd(key, name, u, v, w);
    SplitEnds(key, name, u, v, w);
    MergedOne(map[], name, {w});
    assert {} + {w} == {w};
    RunOneMore(events, 4, 5.0, 0.0);
    assert events[..5] == events;
  }

  function SplitAtOnce(key: Key, name: string, u: Value, w: Value, x: Value): seq<Event> {
    [Delay(key, [(name, Collection({u}))], 9.0, 0.0), One(key, name, w, 5.5), One(key, name, x, 5.5)]
  }

  /** A delay call that comes more than its ttl after the first one. */
  lemma {:induction false} DelayTooLate(key: Key, name: string, u: Value, w: Value)
    ensures var s := State(map[key := 0], map[key := map[name := {u}]], map[key := 0.0],
                           [Call(key, map[name := {u}], 9.0, Waiting, false)]);
            Next(s, One(key, name, w, 5.5)) ==
              State(map[key := 0], map[], map[], [Call(key, map[name := {u}], 9.0, Waiting, true),
                                                  Call(key, map[name := {u} + {w}], 5.5, Waiting, false)])
  {
    MergedOne(map[name := {u}], name, {w});
    assert map[name := {u}][name := {u} + {w}] == map[name := {u} + {w}];
  }

  lemma {:induction false} FirstIsAsleep(key: Key, name: string, u: Value, w: Value, x: Value)
    ensures var events := SplitAtOnce(key, name, u, w, x);
            && Timely(events[..1], 9.0, 0.0)
            && Run(events[..1]) == State(map[key := 0], map[key := map[name := {u}]], map[key := 0.0],
                                         [Call(key, map[name := {u}], 9.0, Waiting, false)])
  {
    MergedOne(map[], name, {u});
    assert {} + {u} == {u};
    RunOneMore(SplitAtOnce(key, name, u, w, x), 0, 9.0, 0.0);
  }

  lemma {:induction false} SecondIsSubmitted(key: Key, name: string, u: Value, w: Value, x: Value)
    ensures var events := SplitAtOnce(key, name, u, w, x);
            && Timely(events[..2], 9.0, 0.0)
            && Run(events[..2]) == State(map[key := 0], map[], map[],
                                         [Call(key, map[name := {u}], 9.0, Waiting, true),
                                          Call(key, map[name := {u} + {w}], 5.5, Waiting, false)])
  {
    FirstIsAsleep(key, name, u, w, x);
    DelayTooLate(key, name, u, w);
    RunOneMore(SplitAtOnce(key, name, u, w, x), 1, 9.0, 0.0);
  }

  /**
    Another such run, without any call starting or ending: the call that carries w comes too late after
    the first one and is submitted at once, so it is in no cache, and both w and x are left to run.
   */
  lemma {:induction false} SubmittedAtOnceIsSplit(key: Key, name: string, u: Value, w: Value, x: Value)
    ensures var events := SplitAtOnce(key, name, u, w, x);
            && Timely(events, 9.0, 0.0)
            && Run(events).calls == [Call(key, map[name := {u}], 9.0, Waiting, true),
                                     Call(key, map[name := {u} + {w}], 5.5, Waiting, false),
                                     Call(key, map[name := {x}], 10.5, Waiting, false)]
  {
    var events := SplitAtOnce(key, name, u, w, x);
    SecondIsSubmitted(key, name, u, w, x);
    MergedOne(map[], name, {x});
    assert {} + {x} == {x};
    RunOneMore(events, 2, 9.0, 0.0);
    assert events[..3] == events;
  }

  /** A dropped call stays dropped: it can neither start nor finish. */
  lemma {:induction false} DroppedForGood(s: State, events: seq<Event>, c: nat)
    requires TasksExist(s) && c < |s.calls| && Dropped(s.calls[c])
    ensures c < |After(s, events).calls| && After(s, events).calls[c] == s.calls[c]
  {
    if events != [] {
      var init, e := events[..|events| - 1], events[|events| - 1];
      DroppedForGood(s, init, c);
      var mid := After(s, init);
      if Enabled(mid, e) && e.Delay? && Accepted(mid, e.key, e.kwargs) {
        DelayTouches(mid, e.key, e.kwargs, e.ttl, e.now);
      }
    }
  }

  /**
    Cancelling the cached call of a key, or taking it out because it is done: if it has not started it
    never will, whatever follows, and if it runs it goes on; every other call is as it was.
   */
  lemma {:induction false} CancelIsFinal(s: State, key: Key, events: seq<Event>)
    requires TasksExist(s) && key in s.tasks
    ensures var s', c := CancelOrRemove(s, key), s.tasks[key];
            && TasksExist(s') && c < |After(s', events).calls|
            && (s.calls[c].phase.Waiting? ==> After(s', events).calls[c] == s.calls[c].(cancelled := true))
            && (s.calls[c].phase.Running? ==> Enabled(s', Finish(c, 0.0)))
            && s'.calls == s.calls[c := s'.calls[c]] && s'.calls[c].args == s.calls[c].args
  {
    var s', c := CancelOrRemove(s, key), s.tasks[key];
    if s.calls[c].phase.Waiting? {
      DroppedForGood(s', events, c);
    } else {
      CallsRemain(s', events);
    }
  }

  lemma {:induction false} CallsRemain(s: State, events: seq<Event>)
    requires TasksExist(s)
    ensures |s.calls| <= |After(s, events).calls|
  {
    if events != [] {
      var init, e := events[..|events| - 1], events[|events| - 1];
      CallsRemain(s, init);
      if Enabled(After(s, init), e) {
        NextKeepsCalls(After(s, init), e);
      }
    }
  }

  lemma {:induction false} NextKeepsCalls(s: State, e: Event)
    requires TasksExist(s) && Enabled(s, e)
    ensures |s.calls| <= |Next(s, e).calls|
  {
    if e.Delay? && Accepted(s, e.key, e.kwargs) {
      DelayTouches(s, e.key, e.kwargs, e.ttl, e.now);
    }
  }

  /** How often the run starts call c: the starts that find it due, waiting and not cancelled. */
  function Starts(events: seq<Event>, c: nat): nat
  {
    if events == [] then 0
    else
      var init, e := events[..|events| - 1], events[|events| - 1];
      Starts(init, c) + if e.Start? && e.call == c && Enabled(Run(init), e) then 1 else 0
  }

  /** A call that is scheduled runs at most once, not before it is due, and not once it is cancelled. */
  lemma {:induction false} RunsAtMostOnce(events: seq<Event>, c: nat)
    ensures Starts(events, c) == if c < |Run(events).calls| && !Run(events).calls[c].phase.Waiting? then 1 else 0
  {
    if events != [] {
      var init, e := events[..|events| - 1], events[|events| - 1];
      RunsAtMostOnce(init, c);
      if Enabled(Run(init), e) {
        StartedBy(Run(init), e, c);
      }
    }
  }

  /**
    A call that no longer waits was started by an event of the run at or after its due time, as a call that
    was waiting and had not been cancelled.
   */
  lemma {:induction false} NotBeforeDue(events: seq<Event>, c: nat)
    requires c < |Run(events).calls| && !Run(events).calls[c].phase.Waiting?
    ensures exists i, t :: 0 <= i < |events| && events[i] == Start(c, t) && t >= Run(events).calls[c].due
                           && c < |Run(events[..i]).calls| && Run(events[..i]).calls[c].phase.Waiting?
                           && !Run(events[..i]).calls[c].cancelled
  {
    var init, e := events[..|events| - 1], events[|events| - 1];
    if Enabled(Run(init), e) {
      StartedBy(Run(init), e, c);
      DueStays(Run(init), e, c);
    }
    if c < |Run(init).calls| && !Run(init).calls[c].phase.Waiting? {
      NotBeforeDue(init, c);
      var i, t :| 0 <= i < |init| && init[i] == Start(c, t) && t >= Run(init).calls[c].due
                  && c < |Run(init[..i]).calls| && Run(init[..i]).calls[c].phase.Waiting?
                  && !Run(init[..i]).calls[c].cancelled;
      assert events[i] == Start(c, t) && init[..i] == events[..i];
    } else {
      assert e == Start(c, e.now);
    }
  }

  lemma {:induction false} DueStays(s: State, e: Event, c: nat)
    requires TasksExist(s) && Enabled(s, e) && c < |s.calls|
    ensures c < |Next(s, e).calls| && Next(s, e).calls[c].due == s.calls[c].due
  {
    if e.Delay? && Accepted(s, e.key, e.kwargs) {
      DelayTouches(s, e.key, e.kwargs, e.ttl, e.now);
    }
  }

  lemma {:induction false} StartedBy(s: State, e: Event, c: nat)
    requires TasksExist(s) && Enabled(s, e)
    ensures c < |Next(s, e).calls| && !Next(s, e).calls[c].phase.Waiting? <==>
            (c < |s.calls| && !s.calls[c].phase.Waiting?) || (e.Start? && e.call == c)
  {
    if e.Delay? && Accepted(s, e.key, e.kwargs) {
      DelayTouches(s, e.key, e.kwargs, e.ttl, e.now);
    }
  }

  /**
    The end of a call makes its key forget: the next burst starts from nothing, and its last call has
    the arguments of that burst only.
   */
  lemma {:induction false} EndForgets(s: State, end: Event, events: seq<Event>, name: string, value: Value)
    requires TasksExist(s) && end.Finish? && Enabled(s, end)
    requires var key := s.calls[end.call].key;
             IsBurst(Next(s, end), key, events) && LastDelay(events, key).Some?
    ensures var key, s' := s.calls[end.call].key, After(Next(s, end), events);
            && key in s'.tasks
            && (Holds(s'.calls[s'.tasks[key]].args, name, value) <==> NamedBy(events, key, name, value))
  {
    BurstRunsOnce(Next(s, end), s.calls[end.call].key, events);
  }

  // ----- what a call carries

  /** A call carries nothing that was not passed to a delay call on its key, nor is anything else merged. */
  lemma {:induction false} NothingInvented(events: seq<Event>, c: nat, key: Key, name: string, value: Value)
    ensures Holds(Base(Run(events), key), name, value) ==> NamedBy(events, key, name, value)
    ensures CallHolds(Run(events), c, key, name, value) ==> NamedBy(events, key, name, value)
  {
    if events != [] {
      var init, e := events[..|events| - 1], events[|events| - 1];
      NothingInvented(init, c, key, name, value);
      if Enabled(Run(init), e) {
        NextInventsNothing(Run(init), e, c, key, name, value);
      }
    }
  }

  predicate CallHolds(s: State, c: nat, key: Key, name: string, value: Value) {
    c < |s.calls| && s.calls[c].key == key && Holds(s.calls[c].args, name, value)
  }

  lemma {:induction false} NextInventsNothing(s: State, e: Event, c: nat, key: Key, name: string, value: Value)
    requires TasksExist(s) && Enabled(s, e)
    ensures var passed := Holds(Base(s, key), name, value) || (DelayOn(e, key) && Names(e.kwargs, name, value));
            && (Holds(Base(Next(s, e), key), name, value) ==> passed)
            && (CallHolds(Next(s, e), c, key, name, value) ==> passed || CallHolds(s, c, key, name, value))
  {
    if e.Delay? {
      MergedOnlyNamed(Base(s, e.key), e.kwargs, name, value);
      if e.key != key {
        DelayLeaves(s, e.key, e.kwargs, e.ttl, e.now, key);
      }
      if Accepted(s, e.key, e.kwargs) {
        DelayTouches(s, e.key, e.kwargs, e.ttl, e.now);
      }
    }
  }

  lemma {:induction false} MergedOnlyNamed(base: Kwargs, kwargs: seq<(string, Arg)>, name: string, value: Value)
    ensures Holds(Merged(base, kwargs).0, name, value) ==> Holds(base, name, value) || Names(kwargs, name, value)
  {
    MergedIff(base, kwargs, name, value);
  }

  /**
    A delay call that raises still has a value delivered with the next burst exactly if the key was
    cached and no refused argument precedes the value, or if that is cached or passed anyway.
   */
  lemma {:induction false} RefusedIsDeliveredIff(s: State, refused: Event, events: seq<Event>, name: string,
                                                 value: Value)
    requires TasksExist(s) && refused.Delay? && !Accepted(s, refused.key, refused.kwargs)
    requires IsBurst(Next(s, refused), refused.key, events) && LastDelay(events, refused.key).Some?
    ensures var key, s' := refused.key, After(Next(s, refused), events);
            && key in s'.tasks
            && (Holds(s'.calls[s'.tasks[key]].args, name, value) <==>
                || Holds(Base(s, key), name, value) || NamedBy(events, key, name, value)
                || (key in s.merged && NamesFirst(refused.kwargs, name, value)))
  {
    MergedIff(Base(s, refused.key), refused.kwargs, name, value);
    BurstRunsOnce(Next(s, refused), refused.key, events);
  }

  /** A run in which the value v is passed only to a delay call that raises, and is delivered with w. */
  lemma {:induction false} RefusedIsDelivered(key: Key, name: string, u: Value, v: Value, w: Value)
    requires u != v && v != w
    ensures var s := Next(EMPTY, One(key, name, u, 0.0));
            var refused := Delay(key, [(name, Collection({v})), (name, Scalar)], 5.0, 1.0);
            var end := Next(Next(s, refused), One(key, name, w, 2.0));
            && !Accepted(s, key, refused.kwargs)
            && |end.calls| == 2 && Live(end.calls[1]) && Holds(end.calls[1].args, name, v)
  {
    var s := Next(EMPTY, One(key, name, u, 0.0));
    MergedOne(map[], name, {u});
    var kwargs := [(name, Collection({v})), (name, Scalar)];
    assert kwargs[1].1.Scalar? && kwargs[0].0 == name && kwargs[0].1 == Collection({v});
    AcceptedIffCollections(Base(s, key), kwargs);
    MergedIff(Base(s, key), kwargs, name, v);
    var mid := Next(s, Delay(key, kwargs, 5.0, 1.0));
    assert Holds(Base(mid, key), name, v);
    MergedOne(Base(mid, key), name, {w});
  }

  // ----- why the end of a call has to be one step

  /**
    Were a delay call to come between the first and the second removal at the end of a running call,
    its argument v could be lost: the next delay call cancels the only call that carries it.
   */
  lemma {:induction false} SplitRemovalLoses(key: Key, name: string, u: Value, v: Value, w: Value)
    requires u != v && v != w
    ensures var s0 := State(map[key := 0], map[key := map[name := {u}]], map[key := 0.0],
                            [Call(key, map[name := {u}], 5.0, Running, false)]);
            var taskGone := s0.(tasks := s0.tasks - {key});
            var first := Delay(key, [(name, Collection({v}))], 5.0, 5.0);
            var between := Next(taskGone, first);
            var allGone := between.(merged := between.merged - {key}, firsts := between.firsts - {key});
            var end := Next(allGone, Delay(key, [(name, Collection({w}))], 5.0, 6.0));
            var x := Submission(key, name, v, 5.0, 1);
            Submits(taskGone, first, x) && forall c :: !Covers(end, c, x)
  {
    var s0 := State(map[key := 0], map[key := map[name := {u}]], map[key := 0.0],
                    [Call(key, map[name := {u}], 5.0, Running, false)]);
    var taskGone := s0.(tasks := s0.tasks - {key});
    var kwargs := [(name, Collection({v}))];
    MergedOne(Base(taskGone, key), name, {v});
    var between := Next(taskGone, Delay(key, kwargs, 5.0, 5.0));
    assert between.tasks[key] == 1 && |between.calls| == 2;
    assert kwargs[0].0 == name;
    var allGone := between.(merged := between.merged - {key}, firsts := between.firsts - {key});
    MergedOne(Base(allGone, key), name, {w});
  }

  // ----- the module-level caches

  class DebounceCaches {
    var tasks: map<Key, nat>
    var merged: map<Key, Kwargs>
    var firsts: map<Key, real>
    var calls: seq<Call>

    function Snapshot(): State
      reads this
    {
      State(tasks, merged, firsts, calls)
    }

    constructor ()
      ensures Snapshot() == EMPTY
    {
      tasks, merged, firsts, calls := map[], map[], map[], [];
    }

    method CancelOrRemoveTask(key: Key)
      requires TasksExist(Snapshot())
      modifies `tasks, `calls
      ensures Snapshot() == CancelOrRemove(old(Snapshot()), key)
    {
      if key !in tasks {
        return;
      }
      var task := tasks[key];
      if Done(calls[task]) {
        tasks := tasks - {key};
      } else {
        calls := calls[task := calls[task].(cancelled := true)];
      }
    }

    method RunDebouncerFunc(key: Key, args: Kwargs, ttl: real, now: real)
      requires TasksExist(Snapshot())
      modifies this
      ensures Snapshot() == Scheduled(old(Snapshot()), key, args, ttl, now)
    {
      CancelOrRemoveTask(key);
      var firstRunTime;
      if key in firsts {
        firstRunTime := firsts[key];
      } else {
        firsts := firsts[key := now];
        firstRunTime := now;
      }
      if now - firstRunTime > ttl {
        merged := merged - {key};
        firsts := firsts - {key};
        calls := calls + [Call(key, args, now, Waiting, false)];
        return;
      }
      calls := calls + [Call(key, args, now + ttl, Waiting, false)];
      tasks := tasks[key := |calls| - 1];
    }

    /** Merges the arguments one by one into the cached dictionary, if there is one, or into a new one. */
    method MergeKwargs(key: Key, kwargs: seq<(string, Arg)>) returns (cacheKwargs: Kwargs, ok: bool)
      modifies `merged
      ensures (cacheKwargs, ok) == Merged(Base(old(Snapshot()), key), kwargs)
      ensures merged == if key in old(merged) then old(merged)[key := cacheKwargs] else old(merged)
    {
      cacheKwargs := if key in merged then merged[key] else map[];
      ghost var base := cacheKwargs;
      for i := 0 to |kwargs|
        invariant Merged(base, kwargs[..i]) == (cacheKwargs, true)
        invariant merged == if key in old(merged) then old(merged)[key := cacheKwargs] else old(merged)
      {
        assert kwargs[..i + 1][..i] == kwargs[..i];
        var (name, arg) := kwargs[i];
        if arg.Scalar? {
          RefusedFrom(base, kwargs, i);
          return cacheKwargs, false;
        }
        cacheKwargs := cacheKwargs[name := (if name in cacheKwargs then cacheKwargs[name] else {}) + arg.values];
        if key in merged {
          merged := merged[key := cacheKwargs];
        }
      }
      assert kwargs[..|kwargs|] == kwargs;
      ok := true;
    }

    /** Merges the arguments and schedules a call; fails on a refused argument. */
    method DelayCall(key: Key, kwargs: seq<(string, Arg)>, ttl: real, now: real) returns (ok: bool)
      requires TasksExist(Snapshot())
      modifies this
      ensures Snapshot() == Next(old(Snapshot()), Delay(key, kwargs, ttl, now))
      ensures ok <==> forall i :: 0 <= i < |kwargs| ==> kwargs[i].1.Collection?
    {
      AcceptedIffCollections(Base(Snapshot(), key), kwargs);
      var cacheKwargs;
      cacheKwargs, ok := MergeKwargs(key, kwargs);
      if ok {
        merged := merged[key := cacheKwargs];
        assert merged == old(merged)[key := cacheKwargs];
        RunDebouncerFunc(key, cacheKwargs, ttl, now);
      }
    }

    method StartCall(c: nat, now: real)
      requires TasksExist(Snapshot()) && Enabled(Snapshot(), Start(c, now))
      modifies `calls
      ensures Snapshot() == Next(old(Snapshot()), Start(c, now))
    {
      calls := calls[c := calls[c].(phase := Running)];
    }

    /** The call returns (or raises, which is only logged), and its key leaves all three caches. */
    method FinishCall(c: nat, now: real)
      requires TasksExist(Snapshot()) && Enabled(Snapshot(), Finish(c, now))
      modifies this
      ensures Snapshot() == Next(old(Snapshot()), Finish(c, now))
    {
      var key := calls[c].key;
      calls := calls[c := calls[c].(phase := Finished)];
      tasks := tasks - {key};
      merged := merged - {key};
      firsts := firsts - {key};
    }
  }

  /** From the first refused argument on, nothing more is merged. */
  lemma {:induction false} RefusedFrom(base: Kwargs, kwargs: seq<(string, Arg)>, i: nat)
    requires i < |kwargs| && kwargs[i].1.Scalar? && Merged(base, kwargs[..i]).1
    ensures Merged(base, kwargs) == (Merged(base, kwargs[..i]).0, false)
  {
    var init := kwargs[..|kwargs| - 1];
    if i < |init| {
      assert init[..i] == kwargs[..i];
      RefusedFrom(base, init, i);
    }
  }
}
