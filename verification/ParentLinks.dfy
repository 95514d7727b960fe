/**
  Records that name a parent record: departments, menus and self-related import rows all have this
  shape. A link may name a record that is not in the data set; such a record counts as a root.
 */
module ParentLinks {
  import opened Wrappers
  import opened Lists

  type Id(==, !new)

  /** The declared parent of every record of a data set. */
  type Links = map<Id, Option<Id>>

  /** The parent column of a record: empty, a key, or a nested object that may carry a key. */
  datatype ParentRef = NoParent | Plain(pk: Id) | Nested(nested: Option<Id>) {
    /** The reference is to the record with this key. */
    predicate Names(k: Id) {
      this == Plain(k) || this == Nested(Some(k))
    }

    function Key(): Option<Id> {
      match this
      case NoParent => None
      case Plain(k) => Some(k)
      case Nested(k) => k
    }
  }

  lemma {:induction false} KeyIsNamed(r: ParentRef, k: Id)
    ensures r.Key() == Some(k) <==> r == Plain(k) || r == Nested(Some(k))
  {
  }

  /** The parent of k inside the data set. */
  function Up(links: Links, k: Id): Option<Id> {
    if k in links && links[k].Some? && links[k].value in links then links[k] else None
  }

  /** The ancestor n steps above k, if the chain is that long. */
  ghost function Climb(links: Links, k: Id, n: nat): Option<Id> {
    if n == 0 then Some(k)
    else match Climb(links, k, n - 1)
      case None => None
      case Some(a) => Up(links, a)
  }

  /** The parent chain of k leaves the data set. */
  ghost predicate Grounded(links: Links, k: Id) {
    exists n: nat :: Climb(links, k, n).None?
  }

  ghost predicate OnCycle(links: Links, k: Id) {
    exists n: nat :: n > 0 && Climb(links, k, n) == Some(k)
  }

  ghost predicate Acyclic(links: Links) {
    forall k :: Grounded(links, k)
  }

  /** x lies properly below a. */
  ghost predicate Below(links: Links, a: Id, x: Id) {
    exists n: nat :: n > 0 && Climb(links, x, n) == Some(a)
  }

  // ----- chains

  lemma {:induction false} ClimbAdd(links: Links, k: Id, m: nat, n: nat)
    ensures Climb(links, k, m).Some? ==> Climb(links, k, m + n) == Climb(links, Climb(links, k, m).value, n)
    ensures Climb(links, k, m).None? ==> Climb(links, k, m + n).None?
  {
    if n > 0 {
      ClimbAdd(links, k, m, n - 1);
    }
  }

  lemma {:induction false} ClimbStays(links: Links, k: Id, n: nat)
    requires n > 0 && Climb(links, k, n).Some?
    ensures k in links && Climb(links, k, n).value in links
  {
    ClimbAdd(links, k, 1, n - 1);
    assert Climb(links, k, 1) == Up(links, k);
    assert Climb(links, k, n) == Up(links, Climb(links, k, n - 1).value);
  }

  /** On a cycle the chain never ends. */
  lemma {:induction false} CycleNeverEnds(links: Links, a: Id, n: nat, m: nat)
    requires n > 0 && Climb(links, a, n) == Some(a)
    ensures Climb(links, a, m).Some?
    decreases m
  {
    if m < n {
      ClimbAdd(links, a, m, n - m);
    } else {
      CycleNeverEnds(links, a, n, m - n);
      ClimbAdd(links, a, n, m - n);
    }
  }

  // ----- finiteness

  /** A chain as long as the data set has repeated a record. */
  lemma {:induction false} LongChainRepeats(links: Links, k: Id) returns (a: Id, m: nat)
    requires Climb(links, k, |links|).Some? && k in links
    ensures Climb(links, k, m) == Some(a) && OnCycle(links, a)
  {
    var n := |links|;
    forall i: nat | i <= n ensures Climb(links, k, i).Some? && Climb(links, k, i).value in links {
      ClimbAdd(links, k, i, n - i);
      if i > 0 {
        ClimbStays(links, k, i);
      }
    }
    var chain := seq(n + 1, i requires 0 <= i <= n => Climb(links, k, i).value);
    if forall i, j :: 0 <= i < j < |chain| ==> chain[i] != chain[j] {
      assert |links.Keys| == n;
      DistinctCount(chain, links.Keys);
      assert false;
    }
    var i, j :| 0 <= i < j < |chain| && chain[i] == chain[j];
    ClimbAdd(links, k, i, j - i);
    a, m := chain[i], i;
    assert Climb(links, a, j - i) == Some(a);
  }

  /** Exactly the records with no cycle above them are grounded, and within |links| steps. */
  lemma {:induction false} GroundedIffNoCycleAbove(links: Links, k: Id)
    ensures Grounded(links, k) <==> !exists a, m: nat :: Climb(links, k, m) == Some(a) && OnCycle(links, a)
    ensures Grounded(links, k) && k in links ==> Climb(links, k, |links|).None?
  {
    if Grounded(links, k) {
      var n: nat :| Climb(links, k, n).None?;
      forall a, m: nat | Climb(links, k, m) == Some(a) && OnCycle(links, a) ensures false {
        var p: nat :| p > 0 && Climb(links, a, p) == Some(a);
        CycleNeverEnds(links, a, p, n);
        ClimbAdd(links, k, m, n);
        ClimbAdd(links, k, n, m);
      }
      if k in links && Climb(links, k, |links|).Some? {
        var a, m := LongChainRepeats(links, k);
      }
    } else {
      assert Climb(links, k, 1) == Up(links, k);
      var a, m := LongChainRepeats(links, k);
    }
  }

  lemma {:induction false} GroundedNotOnCycle(links: Links, k: Id)
    requires Grounded(links, k)
    ensures !OnCycle(links, k)
  {
    var n: nat :| Climb(links, k, n).None?;
    forall p: nat | p > 0 ensures Climb(links, k, p) != Some(k) {
      if Climb(links, k, p) == Some(k) {
        CycleNeverEnds(links, k, p, n);
      }
    }
  }

  /** A relation is acyclic exactly when no record is its own ancestor. */
  lemma {:induction false} AcyclicIffNoCycle(links: Links)
    ensures Acyclic(links) <==> forall a :: !OnCycle(links, a)
  {
    if Acyclic(links) {
      forall a ensures !OnCycle(links, a) {
        assert Grounded(links, a);
        GroundedNotOnCycle(links, a);
      }
    } else {
      var k :| !Grounded(links, k);
      GroundedIffNoCycleAbove(links, k);
    }
  }

  /** If every record has a parent in the data set, some record is its own ancestor. */
  lemma {:induction false} NoRootMeansCycle(links: Links, k: Id) returns (a: Id, n: nat)
    requires k in links && forall x :: x in links ==> Up(links, x).Some?
    ensures n > 0 && Climb(links, a, n) == Some(a)
  {
    NeverLeaves(links, k, |links|);
    var m: nat;
    a, m := LongChainRepeats(links, k);
    n :| n > 0 && Climb(links, a, n) == Some(a);
  }

  lemma {:induction false} NeverLeaves(links: Links, k: Id, n: nat)
    requires k in links && forall x :: x in links ==> Up(links, x).Some?
    ensures Climb(links, k, n).Some? && Climb(links, k, n).value in links
  {
    if n > 0 {
      NeverLeaves(links, k, n - 1);
    }
  }

  /** No record lies under two different siblings, nor under two different roots. */
  lemma {:induction false} SiblingsApart(links: Links, a: Id, b: Id, x: Id)
    requires a != b && Up(links, a) == Up(links, b) && Grounded(links, a) && Grounded(links, b)
    ensures !((x == a || Below(links, a, x)) && (x == b || Below(links, b, x)))
  {
    if (x == a || Below(links, a, x)) && (x == b || Below(links, b, x)) {
      assert Climb(links, x, 0) == Some(x);
      var m: nat :| Climb(links, x, m) == Some(a);
      var n: nat :| Climb(links, x, n) == Some(b);
      if m < n {
        SiblingNotAbove(links, x, m, a, n, b);
      } else if n < m {
        SiblingNotAbove(links, x, n, b, m, a);
      }
    }
  }

  lemma {:induction false} SiblingNotAbove(links: Links, x: Id, m: nat, a: Id, n: nat, b: Id)
    requires Up(links, a) == Up(links, b) && Grounded(links, a)
    requires m < n && Climb(links, x, m) == Some(a)
    ensures Climb(links, x, n) != Some(b)
  {
    ClimbAdd(links, x, m, n - m);
    var q := n - m;
    assert Climb(links, a, 1) == Up(links, a);
    ClimbAdd(links, a, 1, q);
    ClimbAdd(links, a, q, 1);
    if Climb(links, a, q) == Some(b) {
      ClimbAdd(links, a, 1, q - 1);
      var p := Up(links, a).value;
      assert Climb(links, b, 1) == Up(links, b);
      assert Climb(links, p, q) == Some(p);
      GroundedIffNoCycleAbove(links, a);
      assert OnCycle(links, p);
    }
  }

  // ----- depth

  ghost predicate IsDepth(links: Links, k: Id, n: nat) {
    Climb(links, k, n).None? && forall m: nat :: m < n ==> Climb(links, k, m).Some?
  }

  lemma {:induction false} DepthExists(links: Links, k: Id, n: nat)
    requires Climb(links, k, n).None?
    ensures exists d: nat :: IsDepth(links, k, d)
  {
    if forall m: nat :: m < n ==> Climb(links, k, m).Some? {
      assert IsDepth(links, k, n);
    } else {
      var m: nat :| m < n && Climb(links, k, m).None?;
      DepthExists(links, k, m);
    }
  }

  /** The number of records on the chain from k to its root. */
  ghost function Depth(links: Links, k: Id): (d: nat)
    requires Grounded(links, k)
    ensures IsDepth(links, k, d)
  {
    var n: nat :| Climb(links, k, n).None?;
    DepthExists(links, k, n);
    var d: nat :| IsDepth(links, k, d);
    d
  }

  lemma {:induction false} DepthAbove(links: Links, k: Id)
    requires Grounded(links, k)
    ensures 1 <= Depth(links, k)
    ensures k in links ==> Depth(links, k) <= |links|
    ensures Up(links, k).Some? ==>
              Grounded(links, Up(links, k).value) && Depth(links, k) == Depth(links, Up(links, k).value) + 1
    ensures Up(links, k).None? ==> Depth(links, k) == 1
  {
    var d := Depth(links, k);
    assert Climb(links, k, 0) == Some(k);
    GroundedIffNoCycleAbove(links, k);
    assert Climb(links, k, 1) == Up(links, k);
    if Up(links, k).Some? {
      var p := Up(links, k).value;
      ClimbAdd(links, k, 1, d - 1);
      assert Climb(links, p, d - 1).None?;
      var e := Depth(links, p);
      ClimbAdd(links, k, 1, e);
      assert Climb(links, k, e + 1).None?;
    }
  }

  /** Below, one generation at a time from the top: a child of a, or below one. */
  lemma {:induction false} BelowViaChild(links: Links, a: Id, x: Id)
    ensures Below(links, a, x) <==> exists c :: Up(links, c) == Some(a) && (x == c || Below(links, c, x))
  {
    if Below(links, a, x) {
      var n: nat :| n > 0 && Climb(links, x, n) == Some(a);
      var c := Climb(links, x, n - 1).value;
      assert Up(links, c) == Some(a);
      if n > 1 {
        assert Below(links, c, x);
      }
    }
    if c :| Up(links, c) == Some(a) && (x == c || Below(links, c, x)) {
      if x == c {
        assert Climb(links, x, 1) == Some(a);
      } else {
        var n: nat :| n > 0 && Climb(links, x, n) == Some(c);
        assert Climb(links, x, n + 1) == Some(a);
      }
    }
  }

  /** Below, one generation at a time from the bottom: the parent of x, or above it. */
  lemma {:induction false} BelowViaParent(links: Links, a: Id, x: Id)
    ensures Below(links, a, x) <==>
            Up(links, x).Some? && (a == Up(links, x).value || Below(links, a, Up(links, x).value))
  {
    assert Climb(links, x, 1) == Up(links, x);
    if Below(links, a, x) {
      var n: nat :| n > 0 && Climb(links, x, n) == Some(a);
      ClimbAdd(links, x, 1, n - 1);
    }
    if Up(links, x).Some? && Below(links, a, Up(links, x).value) {
      var n: nat :| n > 0 && Climb(links, Up(links, x).value, n) == Some(a);
      ClimbAdd(links, x, 1, n);
    }
  }

  // ----- taking links away, and changing one record

  /** With some links taken away, a chain is at most cut short. */
  lemma {:induction false} ClimbCut(links: Links, links': Links, k: Id, n: nat)
    requires forall x :: Up(links', x).Some? ==> Up(links', x) == Up(links, x)
    ensures Climb(links', k, n).Some? ==> Climb(links', k, n) == Climb(links, k, n)
  {
    if n > 0 {
      ClimbCut(links, links', k, n - 1);
    }
  }

  lemma {:induction false} CutKeepsAcyclic(links: Links, links': Links)
    requires Acyclic(links) && forall x :: Up(links', x).Some? ==> Up(links', x) == Up(links, x)
    ensures Acyclic(links')
  {
    forall k ensures Grounded(links', k) {
      assert Grounded(links, k);
      var n: nat :| Climb(links, k, n).None?;
      ClimbCut(links, links', k, n);
    }
  }

  /** The two relations differ at most in the parent of hub. */
  ghost predicate AgreeOff(links: Links, links': Links, hub: Id) {
    forall x :: x != hub ==> Up(links', x) == Up(links, x)
  }

  lemma {:induction false} SameChain(links: Links, links': Links, hub: Id, k: Id, n: nat)
    requires AgreeOff(links, links', hub)
    requires forall m: nat :: m < n ==> Climb(links, k, m) != Some(hub)
    ensures Climb(links', k, n) == Climb(links, k, n)
  {
    if n > 0 {
      SameChain(links, links', hub, k, n - 1);
      assert Climb(links, k, n - 1) != Some(hub);
    }
  }

  lemma {:induction false} GroundedThroughHub(links: Links, links': Links, hub: Id, k: Id)
    requires AgreeOff(links, links', hub) && Grounded(links, k) && Grounded(links', hub)
    ensures Grounded(links', k)
    decreases Depth(links, k)
  {
    DepthAbove(links, k);
    if k != hub {
      assert Climb(links', k, 1) == Up(links', k);
      if Up(links, k).Some? {
        var p := Up(links, k).value;
        GroundedThroughHub(links, links', hub, p);
        var n: nat :| Climb(links', p, n).None?;
        ClimbAdd(links', k, 1, n);
      }
    }
  }

  /**
    Giving one record a new parent keeps an acyclic relation acyclic exactly when the new parent is
    neither the record itself nor below it.
   */
  lemma {:induction false} RegraftIff(links: Links, links': Links, hub: Id)
    requires Acyclic(links) && AgreeOff(links, links', hub)
    ensures Acyclic(links') <==>
            (Up(links', hub).Some? ==> Up(links', hub).value != hub && !Below(links, hub, Up(links', hub).value))
  {
    var up := Up(links', hub);
    assert Climb(links', hub, 1) == up;
    if up.Some? && (up.value == hub || Below(links, hub, up.value)) {
      var p := up.value;
      var n := FirstMeeting(links, p, hub);
      SameChain(links, links', hub, p, n);
      ClimbAdd(links', hub, 1, n);
      assert OnCycle(links', hub);
      AcyclicIffNoCycle(links');
    } else {
      if up.Some? {
        var p := up.value;
        assert Grounded(links, p);
        var n: nat :| Climb(links, p, n).None?;
        forall m: nat | m < n ensures Climb(links, p, m) != Some(hub) {
        }
        SameChain(links, links', hub, p, n);
        ClimbAdd(links', hub, 1, n);
      }
      assert Grounded(links', hub);
      forall k ensures Grounded(links', k) {
        assert Grounded(links, k);
        GroundedThroughHub(links, links', hub, k);
      }
    }
  }

  /** The first time the chain of p meets hub. */
  lemma {:induction false} FirstMeeting(links: Links, p: Id, hub: Id) returns (n: nat)
    requires p == hub || Below(links, hub, p)
    ensures Climb(links, p, n) == Some(hub)
    ensures forall m: nat :: m < n ==> Climb(links, p, m) != Some(hub)
  {
    assert exists n: nat :: Climb(links, p, n) == Some(hub) by {
      assert Climb(links, p, 0) == Some(p);
    }
    n :| Climb(links, p, n) == Some(hub);
    while exists m: nat :: m < n && Climb(links, p, m) == Some(hub)
      invariant Climb(links, p, n) == Some(hub)
      decreases n
    {
      var m: nat :| m < n && Climb(links, p, m) == Some(hub);
      n := m;
    }
  }
}
