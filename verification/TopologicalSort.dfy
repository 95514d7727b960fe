/**
  Ordering import rows so that every row comes after the row it refers to: Kahn's algorithm over a
  dictionary of successors, a dictionary of in-degrees and a queue.
 */
module TopologicalSort {
  import opened Wrappers
  import opened Lists
  import opened ParentLinks

  datatype Row = Row(pk: Id, parent: ParentRef, payload: int)

  datatype SortError = CircularDependencies

  // ----- the relation being sorted

  ghost predicate IsKey(data: seq<Row>, k: Id) {
    exists i :: 0 <= i < |data| && data[i].pk == k
  }

  /** Some row with key b names a, and a is the key of a row: a has to come first. */
  ghost predicate Edge(data: seq<Row>, a: Id, b: Id) {
    IsKey(data, a) && exists i :: 0 <= i < |data| && data[i].pk == b && data[i].parent.Key() == Some(a)
  }

  ghost predicate IsWalk(data: seq<Row>, walk: seq<Id>) {
    forall i :: 0 <= i < |walk| - 1 ==> Edge(data, walk[i], walk[i + 1])
  }

  ghost predicate HasCycle(data: seq<Row>) {
    exists walk :: |walk| >= 2 && walk[0] == walk[|walk| - 1] && IsWalk(data, walk)
  }

  ghost predicate IsKeyWithin(data: seq<Row>, n: nat, k: Id)
    requires n <= |data|
  {
    exists i :: 0 <= i < n && data[i].pk == k
  }

  /** r is the last of the first n rows with key k. */
  ghost predicate IsLastWithin(data: seq<Row>, n: nat, k: Id, r: Row)
    requires n <= |data|
  {
    r.pk == k && exists i :: 0 <= i < n && data[i] == r && forall j :: i < j < n ==> data[j].pk != k
  }

  /** The row that survives in the key-to-row dictionary. */
  ghost predicate IsLastWith(data: seq<Row>, k: Id, r: Row) {
    IsLastWithin(data, |data|, k, r)
  }

  ghost predicate Distinct(data: seq<Row>) {
    forall i, j :: 0 <= i < j < |data| ==> data[i].pk != data[j].pk
  }

  // ----- counting edges

  function Keys(data: seq<Row>): (keys: set<Id>)
    ensures forall k :: k in keys <==> IsKey(data, k)
  {
    var keys := set i | 0 <= i < |data| :: data[i].pk;
    keys
  }

  /** The keys of those of the first i rows that name p, in input order: the successor list of p. */
  function SuccessorsWithin(data: seq<Row>, i: nat, p: Id): seq<Id>
    requires i <= |data|
  {
    if i == 0 then []
    else SuccessorsWithin(data, i - 1, p) + if data[i - 1].parent.Key() == Some(p) then [data[i - 1].pk] else []
  }

  function Successors(data: seq<Row>, p: Id): seq<Id> {
    SuccessorsWithin(data, |data|, p)
  }

  function Occurrences(s: seq<Id>, n: Id): nat {
    if s == [] then 0 else Occurrences(s[..|s| - 1], n) + if s[|s| - 1] == n then 1 else 0
  }

  /** The row has key n and names a key that is not done yet. */
  predicate Blocks(r: Row, keys: set<Id>, done: set<Id>, n: Id) {
    r.pk == n && r.parent.Key().Some? && r.parent.Key().value in keys && r.parent.Key().value !in done
  }

  /** How many of the first i rows block key n. */
  function WaitingWithin(data: seq<Row>, i: nat, keys: set<Id>, done: set<Id>, n: Id): nat
    requires i <= |data|
  {
    if i == 0 then 0
    else WaitingWithin(data, i - 1, keys, done, n) + if Blocks(data[i - 1], keys, done, n) then 1 else 0
  }

  function Waiting(data: seq<Row>, keys: set<Id>, done: set<Id>, n: Id): nat {
    WaitingWithin(data, |data|, keys, done, n)
  }

  lemma {:induction false} SuccessorsAreNamed(data: seq<Row>, i: nat, p: Id)
    requires i <= |data|
    ensures forall n :: n in SuccessorsWithin(data, i, p) ==>
              exists j :: 0 <= j < i && data[j].pk == n && data[j].parent.Key() == Some(p)
  {
    if i > 0 {
      SuccessorsAreNamed(data, i - 1, p);
    }
  }

  /** Finishing c releases each row exactly as often as it occurs in the successor list of c. */
  lemma {:induction false} FinishingReleases(data: seq<Row>, i: nat, keys: set<Id>, done: set<Id>, c: Id, n: Id)
    requires i <= |data| && c in keys && c !in done
    ensures WaitingWithin(data, i, keys, done, n) ==
            WaitingWithin(data, i, keys, done + {c}, n) + Occurrences(SuccessorsWithin(data, i, c), n)
  {
    if i > 0 {
      FinishingReleases(data, i - 1, keys, done, c, n);
      var s := SuccessorsWithin(data, i - 1, c);
      assert (s + [data[i - 1].pk])[..|s|] == s;
      assert s + [] == s;
    }
  }

  lemma {:induction false} WaitingIffBlocked(data: seq<Row>, i: nat, keys: set<Id>, done: set<Id>, n: Id)
    requires i <= |data|
    ensures WaitingWithin(data, i, keys, done, n) > 0 <==> exists j :: 0 <= j < i && Blocks(data[j], keys, done, n)
  {
    if i > 0 {
      WaitingIffBlocked(data, i - 1, keys, done, n);
    }
  }

  /** A key waits exactly when some key that is not done has an edge to it. */
  lemma {:induction false} WaitingIffEdge(data: seq<Row>, done: set<Id>, n: Id)
    ensures Waiting(data, Keys(data), done, n) > 0 <==> exists a :: a !in done && Edge(data, a, n)
  {
    var keys := Keys(data);
    WaitingIffBlocked(data, |data|, keys, done, n);
    if i :| 0 <= i < |data| && Blocks(data[i], keys, done, n) {
      assert Edge(data, data[i].parent.Key().value, n);
    }
    if a :| a !in done && Edge(data, a, n) {
      var i :| 0 <= i < |data| && data[i].pk == n && data[i].parent.Key() == Some(a);
      assert Blocks(data[i], keys, done, n);
    }
  }

  // ----- orders and cycles

  ghost predicate Before(order: seq<Id>, a: Id, b: Id) {
    exists i, j :: 0 <= i < j < |order| && order[i] == a && order[j] == b
  }

  ghost predicate Respects(data: seq<Row>, order: seq<Id>) {
    forall a, b :: b in order && Edge(data, a, b) ==> Before(order, a, b)
  }

  lemma {:induction false} WalkGoesForward(data: seq<Row>, order: seq<Id>, walk: seq<Id>)
    requires NoDup(order) && Respects(data, order) && |walk| >= 2 && IsWalk(data, walk)
    requires forall k :: IsKey(data, k) ==> k in order
    ensures Before(order, walk[0], walk[|walk| - 1])
  {
    var n := |walk|;
    assert Edge(data, walk[n - 2], walk[n - 1]);
    assert IsKey(data, walk[n - 1]);
    assert Before(order, walk[n - 2], walk[n - 1]);
    if n > 2 {
      var init := walk[..n - 1];
      assert IsWalk(data, init) by {
        forall i | 0 <= i < |init| - 1 ensures Edge(data, init[i], init[i + 1]) {
          assert Edge(data, walk[i], walk[i + 1]);
        }
      }
      WalkGoesForward(data, order, init);
    }
  }

  /** A relation that some order of all keys respects has no cycle. */
  lemma {:induction false} OrderedMeansNoCycle(data: seq<Row>, order: seq<Id>)
    requires NoDup(order) && Respects(data, order)
    requires forall k :: IsKey(data, k) ==> k in order
    ensures !HasCycle(data)
  {
    if walk :| |walk| >= 2 && walk[0] == walk[|walk| - 1] && IsWalk(data, walk) {
      WalkGoesForward(data, order, walk);
      assert false;
    }
  }

  /** If every key outside `done` waits for another one outside `done`, they contain a cycle. */
  lemma {:induction false} StuckMeansCycle(data: seq<Row>, done: set<Id>)
    requires exists k :: IsKey(data, k) && k !in done
    requires forall n :: IsKey(data, n) && n !in done ==> Waiting(data, Keys(data), done, n) > 0
    ensures HasCycle(data)
  {
    var links := BlockerLinks(data, done);
    var k :| IsKey(data, k) && k !in done;
    assert k in Keys(data);
    var a, n := NoRootMeansCycle(links, k);
    CycleWalk(data, links, a, n);
  }

  /** Each waiting key linked to one key it waits for. */
  lemma {:induction false} BlockerLinks(data: seq<Row>, done: set<Id>) returns (links: Links)
    requires forall n :: IsKey(data, n) && n !in done ==> Waiting(data, Keys(data), done, n) > 0
    ensures links.Keys == Keys(data) - done
    ensures forall x :: x in links ==> Up(links, x).Some?
    ensures forall x :: Up(links, x).Some? ==> Edge(data, Up(links, x).value, x)
  {
    links := map n | n in Keys(data) - done :: Some(Blocker(data, done, n));
  }

  ghost function Blocker(data: seq<Row>, done: set<Id>, n: Id): Id
    requires Waiting(data, Keys(data), done, n) > 0
    ensures Blocker(data, done, n) !in done && Edge(data, Blocker(data, done, n), n)
  {
    WaitingIffEdge(data, done, n);
    var a :| a !in done && Edge(data, a, n);
    a
  }

  lemma {:induction false} CycleWalk(data: seq<Row>, links: Links, a: Id, n: nat)
    requires forall x :: Up(links, x).Some? ==> Edge(data, Up(links, x).value, x)
    requires n > 0 && Climb(links, a, n) == Some(a)
    ensures HasCycle(data)
  {
    forall i: nat ensures Climb(links, a, i).Some? {
      CycleNeverEnds(links, a, n, i);
    }
    var walk := seq(n + 1, i requires 0 <= i <= n => Climb(links, a, n - i).value);
    forall i | 0 <= i < |walk| - 1 ensures Edge(data, walk[i], walk[i + 1]) {
      assert Climb(links, a, n - i) == Up(links, Climb(links, a, n - i - 1).value);
    }
    assert walk[0] == a && walk[n] == a;
    assert IsWalk(data, walk);
  }

  // ----- the algorithm

  ghost predicate GraphWithin(data: seq<Row>, i: nat, graph: map<Id, seq<Id>>)
    requires i <= |data|
  {
    forall p :: SuccessorsWithin(data, i, p) == if p in graph then graph[p] else []
  }

  ghost predicate DegreesWithin(data: seq<Row>, i: nat, inDegree: map<Id, int>)
    requires i <= |data|
  {
    inDegree.Keys == Keys(data) &&
    forall n :: n in inDegree ==> inDegree[n] == WaitingWithin(data, i, Keys(data), {}, n)
  }

  ghost predicate RowsWithin(data: seq<Row>, i: nat, rows: map<Id, Row>)
    requires i <= |data|
  {
    && (forall k :: k in rows <==> IsKeyWithin(data, i, k))
    && (forall k :: k in rows ==> IsLastWithin(data, i, k, rows[k]))
  }

  lemma {:induction false} ReadRow(data: seq<Row>, i: nat, rows: map<Id, Row>)
    requires i < |data| && RowsWithin(data, i, rows)
    ensures RowsWithin(data, i + 1, rows[data[i].pk := data[i]])
  {
    var rows' := rows[data[i].pk := data[i]];
    assert forall k :: k in rows' && k != data[i].pk ==> IsLastWithin(data, i, k, rows'[k]);
  }

  lemma {:induction false} ReadSuccessor(data: seq<Row>, i: nat, graph: map<Id, seq<Id>>, graph': map<Id, seq<Id>>)
    requires i < |data| && GraphWithin(data, i, graph)
    requires var parent := data[i].parent.Key();
             graph' == if parent.None? then graph
                       else graph[parent.value :=
                                    (if parent.value in graph then graph[parent.value] else []) + [data[i].pk]]
    ensures GraphWithin(data, i + 1, graph')
  {
    forall p ensures SuccessorsWithin(data, i + 1, p) == if p in graph' then graph'[p] else [] {
      assert SuccessorsWithin(data, i, p) == if p in graph then graph[p] else [];
      assert SuccessorsWithin(data, i, p) + [] == SuccessorsWithin(data, i, p);
    }
  }

  lemma {:induction false} ReadDegree(data: seq<Row>, i: nat, inDegree: map<Id, int>, inDegree': map<Id, int>)
    requires i < |data| && DegreesWithin(data, i, inDegree)
    requires data[i].pk in inDegree
    requires var parent := data[i].parent.Key();
             inDegree' == if parent.Some? && parent.value in inDegree
                          then inDegree[data[i].pk := inDegree[data[i].pk] + 1]
                          else inDegree
    ensures DegreesWithin(data, i + 1, inDegree')
  {
  }

  /** The dictionaries after reading the rows: successors by key, in-degrees, last row by key. */
  method BuildGraph(data: seq<Row>) returns (graph: map<Id, seq<Id>>, inDegree: map<Id, int>, rows: map<Id, Row>)
    ensures GraphWithin(data, |data|, graph) && DegreesWithin(data, |data|, inDegree) && RowsWithin(data, |data|, rows)
  {
    graph, rows := map[], map[];
    inDegree := map k | k in Keys(data) :: 0;
    for i := 0 to |data|
      invariant GraphWithin(data, i, graph) && DegreesWithin(data, i, inDegree) && RowsWithin(data, i, rows)
    {
      graph, inDegree, rows := ReadOne(data, i, graph, inDegree, rows);
    }
  }

  method ReadOne(data: seq<Row>, i: nat, graph0: map<Id, seq<Id>>, inDegree0: map<Id, int>, rows0: map<Id, Row>)
      returns (graph: map<Id, seq<Id>>, inDegree: map<Id, int>, rows: map<Id, Row>)
    requires i < |data|
    requires GraphWithin(data, i, graph0) && DegreesWithin(data, i, inDegree0) && RowsWithin(data, i, rows0)
    ensures GraphWithin(data, i + 1, graph) && DegreesWithin(data, i + 1, inDegree) && RowsWithin(data, i + 1, rows)
  {
    graph, inDegree := graph0, inDegree0;
    var row := data[i];
    assert IsKey(data, row.pk);
    rows := rows0[row.pk := row];
    var parent := row.parent.Key();
    if parent.Some? {
      graph := graph[parent.value := (if parent.value in graph then graph[parent.value] else []) + [row.pk]];
      if parent.value in inDegree {
        inDegree := inDegree[row.pk := inDegree[row.pk] + 1];
      }
    }
    ReadRow(data, i, rows0);
    ReadSuccessor(data, i, graph0, graph);
    ReadDegree(data, i, inDegree0, inDegree);
  }

  /** What the work loop keeps: finished keys, queued keys and remaining in-degrees fit together. */
  ghost predicate Progress(data: seq<Row>, inDegree: map<Id, int>, order: seq<Id>, queue: seq<Id>) {
    && inDegree.Keys == Keys(data)
    && NoDup(order + queue)
    && (forall n :: n in order + queue <==> n in inDegree && inDegree[n] == 0)
    && Respects(data, order)
    && forall n :: n in inDegree ==> inDegree[n] == Waiting(data, Keys(data), SetOf(order), n)
  }

  /** Taking the front of the queue: all it waits for is finished. */
  lemma {:induction false} FrontIsReady(data: seq<Row>, inDegree: map<Id, int>, order: seq<Id>, queue: seq<Id>)
    requires queue != [] && Progress(data, inDegree, order, queue)
    ensures queue[0] !in order && Respects(data, order + [queue[0]])
    ensures SetOf(order + [queue[0]]) == SetOf(order) + {queue[0]}
  {
    var c := queue[0];
    assert (order + queue)[|order|] == c;
    assert c in order + queue;
    assert forall i :: 0 <= i < |order| ==> (order + queue)[i] == order[i];
    WaitingIffEdge(data, SetOf(order), c);
    var order' := order + [c];
    forall a, b | b in order' && Edge(data, a, b) ensures Before(order', a, b) {
      if b in order {
        var i, j :| 0 <= i < j < |order| && order[i] == a && order[j] == b;
        assert order'[i] == a && order'[j] == b;
      } else {
        assert a in SetOf(order);
        var i :| 0 <= i < |order| && order[i] == a;
        assert order'[i] == a && order'[|order|] == b;
      }
    }
  }

  /** Releasing the successors of c one by one, appending each key whose in-degree reaches zero. */
  method Release(neighbors: seq<Id>, inDegree0: map<Id, int>, ghost order: seq<Id>, queue0: seq<Id>)
      returns (inDegree: map<Id, int>, queue: seq<Id>)
    requires forall n :: n in neighbors ==> n in inDegree0
    requires forall n :: n in inDegree0 ==> inDegree0[n] >= Occurrences(neighbors, n)
    requires NoDup(order + queue0) && forall n :: n in order + queue0 <==> n in inDegree0 && inDegree0[n] == 0
    ensures inDegree.Keys == inDegree0.Keys
    ensures forall n :: n in inDegree ==> inDegree[n] == inDegree0[n] - Occurrences(neighbors, n)
    ensures NoDup(order + queue) && forall n :: n in order + queue <==> n in inDegree && inDegree[n] == 0
  {
    inDegree, queue := inDegree0, queue0;
    for t := 0 to |neighbors|
      invariant inDegree.Keys == inDegree0.Keys
      invariant forall n :: n in inDegree ==> inDegree[n] == inDegree0[n] - Occurrences(neighbors[..t], n)
      invariant NoDup(order + queue)
      invariant forall n :: n in order + queue <==> n in inDegree && inDegree[n] == 0
    {
      var neighbor := neighbors[t];
      assert neighbors[..t + 1][..t] == neighbors[..t];
      OccurrencesMonotone(neighbors, t + 1, neighbor);
      assert inDegree[neighbor] > 0;
      inDegree := inDegree[neighbor := inDegree[neighbor] - 1];
      if inDegree[neighbor] == 0 {
        assert order + (queue + [neighbor]) == (order + queue) + [neighbor];
        queue := queue + [neighbor];
      }
    }
    assert neighbors[..|neighbors|] == neighbors;
  }

  lemma {:induction false} OccurrencesMonotone(s: seq<Id>, t: nat, n: Id)
    requires t <= |s|
    ensures Occurrences(s[..t], n) <= Occurrences(s, n)
    decreases |s| - t
  {
    if t < |s| {
      OccurrencesMonotone(s, t + 1, n);
      assert s[..t + 1][..t] == s[..t];
    } else {
      assert s[..t] == s;
    }
  }

  /** The keys that wait for nothing, in the arbitrary order of a set. */
  method InitialQueue(nodes: set<Id>, inDegree: map<Id, int>) returns (queue: seq<Id>)
    requires nodes == inDegree.Keys
    ensures NoDup(queue) && forall n :: n in queue <==> n in inDegree && inDegree[n] == 0
  {
    queue := [];
    var todo := nodes;
    while todo != {}
      invariant todo <= nodes && NoDup(queue)
      invariant forall n :: n in queue <==> n in nodes && n !in todo && inDegree[n] == 0
      decreases |todo|
    {
      var node :| node in todo;
      if inDegree[node] == 0 {
        queue := queue + [node];
      }
      todo := todo - {node};
    }
  }

  lemma {:induction false} MissingKey(order: seq<Id>, nodes: set<Id>)
    requires NoDup(order) && (forall x :: x in order ==> x in nodes) && |order| < |nodes|
    ensures exists k :: k in nodes && k !in order
  {
    if forall k :: k in nodes ==> k in order {
      assert SetOf(order) == nodes;
      SetIsNotLarger(order);
    }
  }

  lemma {:induction false} SamePermutation(data: seq<Row>, sorted: seq<Row>)
    requires Distinct(data) && Distinct(sorted)
    requires forall k :: IsKey(data, k) <==> IsKey(sorted, k)
    requires forall r :: r in sorted ==> IsLastWith(data, r.pk, r)
    ensures multiset(sorted) == multiset(data)
  {
    forall r ensures multiset(sorted)[r] == multiset(data)[r] {
      if r in data {
        assert IsKey(data, r.pk);
        var i :| 0 <= i < |sorted| && sorted[i].pk == r.pk;
        assert IsLastWith(data, sorted[i].pk, sorted[i]);
      }
      CountDistinct(data, r);
      CountDistinct(sorted, r);
    }
  }

  /** One turn of the work loop: finish the front key and release its successors. */
  method FinishFront(data: seq<Row>, graph: map<Id, seq<Id>>, inDegree0: map<Id, int>, order0: seq<Id>, queue0: seq<Id>)
      returns (inDegree: map<Id, int>, order: seq<Id>, queue: seq<Id>)
    requires GraphWithin(data, |data|, graph) && queue0 != [] && Progress(data, inDegree0, order0, queue0)
    ensures Progress(data, inDegree, order, queue)
    ensures order == order0 + [queue0[0]] && |order| <= |Keys(data)|
  {
    FrontIsReady(data, inDegree0, order0, queue0);
    var current := queue0[0];
    order, queue := order0 + [current], queue0[1..];
    assert order + queue == order0 + queue0;
    OrderFits(data, inDegree0, order, queue);
    var neighbors := if current in graph then graph[current] else [];
    assert neighbors == Successors(data, current);
    SuccessorsAreNamed(data, |data|, current);
    forall n | n in inDegree0
      ensures inDegree0[n] == Waiting(data, Keys(data), SetOf(order), n) + Occurrences(neighbors, n)
    {
      assert current in order0 + queue0;
      FinishingReleases(data, |data|, Keys(data), SetOf(order0), current, n);
    }
    inDegree, queue := Release(neighbors, inDegree0, order, queue);
  }

  lemma {:induction false} OrderFits(data: seq<Row>, inDegree: map<Id, int>, order: seq<Id>, queue: seq<Id>)
    requires NoDup(order + queue) && inDegree.Keys == Keys(data)
    requires forall n :: n in order + queue ==> n in inDegree
    ensures NoDup(order) && (forall n :: n in order ==> n in Keys(data)) && |order| <= |Keys(data)|
    ensures |order| == |Keys(data)| ==> forall n :: n in Keys(data) ==> n in order
  {
    assert forall i :: 0 <= i < |order| ==> (order + queue)[i] == order[i];
    assert forall x :: x in order ==> x in order + queue;
    DistinctCount(order, Keys(data));
  }

  /** The work loop: finishes every key whose waiting ends, which is all of them unless there is a cycle. */
  method WorkLoop(data: seq<Row>, graph: map<Id, seq<Id>>, inDegree0: map<Id, int>, queue0: seq<Id>)
      returns (order: seq<Id>)
    requires GraphWithin(data, |data|, graph) && Progress(data, inDegree0, [], queue0)
    ensures NoDup(order) && Respects(data, order) && forall k :: k in order ==> k in Keys(data)
    ensures |order| != |Keys(data)| <==> HasCycle(data)
    ensures |order| == |Keys(data)| ==> forall k :: k in Keys(data) ==> k in order
  {
    var inDegree, queue := inDegree0, queue0;
    order := [];
    while queue != []
      invariant Progress(data, inDegree, order, queue) && |order| <= |Keys(data)|
      decreases |Keys(data)| - |order|
    {
      inDegree, order, queue := FinishFront(data, graph, inDegree, order, queue);
    }
    AtEnd(data, inDegree, order);
  }

  /** The last row of every key once, each after the row it refers to; all rows if keys are distinct. */
  ghost predicate IsOrderingOf(data: seq<Row>, sorted: seq<Row>) {
    && (forall k :: IsKey(data, k) <==> IsKey(sorted, k))
    && (forall r :: r in sorted ==> IsLastWith(data, r.pk, r))
    && Distinct(sorted)
    && (forall a, b :: Edge(data, a, b) ==> Before(KeyList(sorted), a, b))
    && (Distinct(data) ==> multiset(sorted) == multiset(data))
  }

  /** Every row of the list that names a row of the data set comes after it. */
  ghost predicate AfterNamed(data: seq<Row>, sorted: seq<Row>) {
    forall j, a :: 0 <= j < |sorted| && (sorted[j].parent == Plain(a) || sorted[j].parent == Nested(Some(a)))
                   && IsKey(data, a) ==>
      exists i :: 0 <= i < j && sorted[i].pk == a
  }

  /** The order has all keys, and each after the keys of the data set that its rows name. */
  ghost predicate Orders(data: seq<Row>, order: seq<Id>) {
    && NoDup(order) && (forall r :: r in data ==> r.pk in order)
    && forall r, a :: r in data && (r.parent == Plain(a) || r.parent == Nested(Some(a))) && IsKey(data, a) ==>
         Before(order, a, r.pk)
  }

  lemma {:induction false} OrdersHasNoCycle(data: seq<Row>, order: seq<Id>)
    requires Orders(data, order)
    ensures !HasCycle(data)
  {
    forall a, b | b in order && Edge(data, a, b) ensures Before(order, a, b) {
      var i :| 0 <= i < |data| && data[i].pk == b && data[i].parent.Key() == Some(a);
      assert data[i] in data && data[i].parent.Names(a);
    }
    OrderedMeansNoCycle(data, order);
  }

  lemma {:induction false} OrderingIsAfterNamed(data: seq<Row>, sorted: seq<Row>)
    requires IsOrderingOf(data, sorted)
    ensures AfterNamed(data, sorted) && Orders(data, KeyList(sorted))
  {
    var order := KeyList(sorted);
    forall r, a | r in data && r.parent.Names(a) && IsKey(data, a) ensures Before(order, a, r.pk) {
      var i :| 0 <= i < |data| && data[i] == r;
      assert r.parent.Key() == Some(a);
      assert Edge(data, a, r.pk);
    }
    forall j, a | 0 <= j < |sorted| && sorted[j].parent.Names(a) && IsKey(data, a)
      ensures exists i :: 0 <= i < j && sorted[i].pk == a
    {
      assert sorted[j] in sorted && IsLastWith(data, sorted[j].pk, sorted[j]);
      assert sorted[j] in data;
      var i, k :| 0 <= i < k < |order| && order[i] == a && order[k] == sorted[j].pk;
      assert sorted[i].pk == a && k == j;
    }
    forall r | r in data ensures r.pk in order {
      var i :| 0 <= i < |data| && data[i] == r;
      assert IsKey(sorted, r.pk);
      var j :| 0 <= j < |sorted| && sorted[j].pk == r.pk;
      assert order[j] == r.pk;
    }
  }

  /**
    Succeeds exactly when the rows refer to each other without a cycle, which is exactly when there is an
    order that puts every row after the row it names; and then the result is in such an order.
   */
  method TopologicalSort(data: seq<Row>) returns (result: Result<seq<Row>, SortError>)
    ensures result.Failure? <==> HasCycle(data)
    ensures result.Failure? <==> !exists order :: Orders(data, order)
    ensures result.Success? ==> IsOrderingOf(data, result.value) && AfterNamed(data, result.value)
  {
    var graph, inDegree, rows := BuildGraph(data);
    var nodes := Keys(data);
    var queue := InitialQueue(nodes, inDegree);
    Start(data, inDegree, queue);
    var order := WorkLoop(data, graph, inDegree, queue);
    if |order| != |nodes| {
      forall order ensures !Orders(data, order) {
        if Orders(data, order) {
          OrdersHasNoCycle(data, order);
        }
      }
      return Failure(CircularDependencies);
    }
    var sorted := Arrange(data, order, rows);
    OrderingIsAfterNamed(data, sorted);
    return Success(sorted);
  }

  /** The rows of the keys, in this order. */
  method Arrange(data: seq<Row>, order: seq<Id>, rows: map<Id, Row>) returns (sorted: seq<Row>)
    requires RowsWithin(data, |data|, rows) && NoDup(order) && Respects(data, order)
    requires forall k :: k in order <==> k in Keys(data)
    ensures IsOrderingOf(data, sorted)
  {
    RowsAreLast(data, rows);
    sorted := seq(|order|, i requires 0 <= i < |order| => InOrder(order, rows, i));
    SortedRows(data, order, rows, sorted);
  }

  function InOrder(order: seq<Id>, rows: map<Id, Row>, i: nat): Row
    requires i < |order| && forall k :: k in order ==> k in rows
  {
    rows[order[i]]
  }

  lemma {:induction false} Start(data: seq<Row>, inDegree: map<Id, int>, queue: seq<Id>)
    requires DegreesWithin(data, |data|, inDegree) && NoDup(queue)
    requires forall n :: n in queue <==> n in inDegree && inDegree[n] == 0
    ensures Progress(data, inDegree, [], queue)
  {
    assert SetOf<Id>([]) == {} && [] + queue == queue;
  }

  /** With nothing left to do, a missing key means a cycle and no missing key means none. */
  lemma {:induction false} AtEnd(data: seq<Row>, inDegree: map<Id, int>, order: seq<Id>)
    requires Progress(data, inDegree, order, [])
    ensures NoDup(order) && Respects(data, order)
    ensures |order| != |Keys(data)| ==> HasCycle(data)
    ensures forall k :: k in order ==> k in Keys(data)
    ensures |order| == |Keys(data)| ==> !HasCycle(data) && forall k :: k in Keys(data) ==> k in order
  {
    assert order + [] == order;
    OrderFits(data, inDegree, order, []);
    if |order| != |Keys(data)| {
      MissingKey(order, Keys(data));
      StuckMeansCycle(data, SetOf(order));
    } else {
      OrderedMeansNoCycle(data, order);
    }
  }

  lemma {:induction false} RowsAreLast(data: seq<Row>, rows: map<Id, Row>)
    requires RowsWithin(data, |data|, rows)
    ensures rows.Keys == Keys(data) && forall k :: k in rows ==> IsLastWith(data, k, rows[k])
  {
    forall k ensures k in rows <==> k in Keys(data) {
      assert IsKeyWithin(data, |data|, k) <==> IsKey(data, k);
    }
  }

  function KeyList(data: seq<Row>): seq<Id> {
    seq(|data|, i requires 0 <= i < |data| => data[i].pk)
  }

  lemma {:induction false} SortedRows(data: seq<Row>, order: seq<Id>, rows: map<Id, Row>, sorted: seq<Row>)
    requires NoDup(order) && Respects(data, order) && rows.Keys == Keys(data)
    requires forall k :: k in order <==> k in rows
    requires forall k :: k in rows ==> IsLastWith(data, k, rows[k])
    requires |sorted| == |order| && forall i :: 0 <= i < |order| ==> sorted[i] == rows[order[i]]
    ensures IsOrderingOf(data, sorted)
  {
    assert forall i :: 0 <= i < |order| ==> order[i] in rows && sorted[i].pk == order[i];
    assert KeyList(sorted) == order;
    forall k ensures IsKey(data, k) <==> IsKey(sorted, k) {
      if IsKey(data, k) {
        assert k in order;
        var i :| 0 <= i < |order| && order[i] == k;
        assert sorted[i].pk == k;
      }
      if i :| 0 <= i < |sorted| && sorted[i].pk == k {
        assert order[i] in order;
      }
    }
    forall a, b | Edge(data, a, b) ensures Before(order, a, b) {
      assert IsKey(data, b);
    }
    if Distinct(data) {
      SamePermutation(data, sorted);
    }
  }
}
