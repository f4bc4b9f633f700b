/** Points on a ring of 2^32 places, each owned by a node; a hash belongs to the nearest point clockwise. */
module Rings {
  import Sorting

  const PLACES := 0x1_0000_0000

  type u32 = x: int | 0 <= x < 0x1_0000_0000

  /** How far one goes clockwise from `a` to `b`. */
  function Clockwise(a: u32, b: u32): (d: nat)
    ensures d < PLACES && (a + d) % 0x1_0000_0000 == b
  {
    if b >= a then b - a else b - a + PLACES
  }

  ghost predicate Nearest(points: set<u32>, h: u32, p: u32) {
    p in points && forall q <- points :: Clockwise(h, p) <= Clockwise(h, q)
  }

  lemma NearestIsUnique(points: set<u32>, h: u32, p: u32, q: u32)
    requires Nearest(points, h, p) && Nearest(points, h, q)
    ensures p == q
  {
  }

  lemma {:induction false} NearestExists(points: set<u32>, h: u32)
    requires points != {}
    ensures exists p :: Nearest(points, h, p)
    decreases points
  {
    var x :| x in points;
    var rest := points - {x};
    assert points == rest + {x};
    if rest == {} {
      assert Nearest(points, h, x);
    } else {
      NearestExists(rest, h);
      var p :| Nearest(rest, h, p);
      if Clockwise(h, p) <= Clockwise(h, x) {
        assert Nearest(points, h, p);
      } else {
        assert Nearest(points, h, x);
      }
    }
  }

  /** The owner of the nearest point: the slow and obvious lookup. */
  ghost function Owner(circle: map<u32, string>, h: u32): string
    requires circle != map[]
  {
    NearestExists(circle.Keys, h);
    var p :| Nearest(circle.Keys, h, p);
    circle[p]
  }

  lemma OwnerOfNearest(circle: map<u32, string>, h: u32, p: u32)
    requires Nearest(circle.Keys, h, p)
    ensures circle != map[] && Owner(circle, h) == circle[p]
  {
    NearestExists(circle.Keys, h);
    var q :| Nearest(circle.Keys, h, q) && Owner(circle, h) == circle[q];
    NearestIsUnique(circle.Keys, h, p, q);
  }

  lemma NearestOf(circle: map<u32, string>, h: u32) returns (p: u32)
    requires circle != map[]
    ensures Nearest(circle.Keys, h, p) && Owner(circle, h) == circle[p]
  {
    NearestExists(circle.Keys, h);
    p :| Nearest(circle.Keys, h, p);
    OwnerOfNearest(circle, h, p);
  }

  // ----- adding and removing the points of a node

  ghost function WithPoints(circle: map<u32, string>, points: set<u32>, node: string): map<u32, string> {
    circle + map p <- points :: node
  }

  /** The points belong to the node, every other point to whom it belonged, and there are no others. */
  lemma WithPointsDoes(circle: map<u32, string>, points: set<u32>, node: string)
    ensures var c := WithPoints(circle, points, node);
      && (forall p <- points :: p in c && c[p] == node)
      && (forall p <- circle :: p in c && (p !in points ==> c[p] == circle[p]))
      && (forall p <- c :: p in circle || p in points)
  {
  }

  lemma OneMoreWith(circle: map<u32, string>, points: set<u32>, node: string, p: u32)
    ensures WithPoints(circle, points + {p}, node) == WithPoints(circle, points, node)[p := node]
  {
  }

  lemma OneMoreWithNone(circle: map<u32, string>, node: string)
    ensures WithPoints(circle, {}, node) == circle
  {
  }

  /** Monotonicity: a new node takes keys for itself and moves none between the others, even where its
      points fall on points that are taken. */
  lemma AddingIsMonotone(circle: map<u32, string>, points: set<u32>, node: string, h: u32)
    requires circle != map[]
    ensures WithPoints(circle, points, node) != map[]
    ensures var o := Owner(WithPoints(circle, points, node), h); o == node || o == Owner(circle, h)
  {
    var circle' := WithPoints(circle, points, node);
    var p0 :| p0 in circle;
    assert p0 in circle';
    var p := NearestOf(circle', h);
    if p !in points {
      assert forall q <- circle.Keys :: q in circle'.Keys;
      OwnerOfNearest(circle, h, p);
    }
  }

  /** A removal moves a key only if its nearest point is removed. */
  lemma RemovingMovesOnly(circle: map<u32, string>, points: set<u32>, node: string, h: u32)
    requires circle - points != map[]
    requires forall p <- points :: p in circle ==> circle[p] == node
    ensures circle != map[] && (Owner(circle, h) != node ==> Owner(circle - points, h) == Owner(circle, h))
  {
    var p0 :| p0 in circle - points;
    assert p0 in circle;
    var p := NearestOf(circle, h);
    if circle[p] != node {
      assert p in circle - points;
      OwnerOfNearest(circle - points, h, p);
    }
  }

  /** Adding a node and removing its points again restores the ring exactly if no point was taken. */
  lemma AddThenRemove(circle: map<u32, string>, points: set<u32>, node: string)
    ensures WithPoints(circle, points, node) - points == circle <==> points !! circle.Keys
  {
    var back := WithPoints(circle, points, node) - points;
    if points !! circle.Keys {
      assert back.Keys == circle.Keys;
    } else {
      var p :| p in points && p in circle;
      assert p !in back;
    }
  }

  /** Two nodes can be added in either order exactly if they have no point in common. */
  lemma OrderOfAdding(circle: map<u32, string>, ps: set<u32>, a: string, qs: set<u32>, b: string)
    requires a != b
    ensures WithPoints(WithPoints(circle, ps, a), qs, b) == WithPoints(WithPoints(circle, qs, b), ps, a) <==> ps !! qs
  {
    var ab, ba := WithPoints(WithPoints(circle, ps, a), qs, b), WithPoints(WithPoints(circle, qs, b), ps, a);
    if ps !! qs {
      SameRing(ab, ba);
    } else {
      var p :| p in ps && p in qs;
      assert ab[p] == b && ba[p] == a;
    }
  }

  /** Two nodes with one point in common: the one that comes second has it, and takes it away when it goes. */
  lemma ASharedPoint()
    ensures var circle: map<u32, string> := map[7 := "a", 9 := "a"];
      && WithPoints(circle, {7}, "b") - {7} == map[9 := "a"] != circle
      && Owner(circle, 5) == "a" && WithPoints(WithPoints(map[], {7}, "a"), {7}, "b") == map[7 := "b"]
      && WithPoints(WithPoints(map[], {7}, "b"), {7}, "a") == map[7 := "a"]
  {
    var circle: map<u32, string> := map[7 := "a", 9 := "a"];
    AddThenRemove(circle, {7}, "b");
    OwnerOfNearest(circle, 5, 7);
    assert WithPoints(circle, {7}, "b") - {7} == map[9 := "a"];
  }

  lemma SameRing(c: map<u32, string>, d: map<u32, string>)
    requires c.Keys == d.Keys && forall p <- c :: c[p] == d[p]
    ensures c == d
  {
  }

  // ----- histories of adding and removing

  datatype Change = AddNode(node: string) | DropNode(node: string)

  datatype Ring = Ring(nodes: set<string>, circle: map<u32, string>)

  /** A ring after the first `n` changes; adding a node twice, or dropping one that is not there, is refused. */
  ghost function Replay(points: string -> set<u32>, changes: seq<Change>, n: nat): Ring
    requires n <= |changes|
  {
    if n == 0 then Ring({}, map[])
    else
      var r, node := Replay(points, changes, n - 1), changes[n - 1].node;
      match changes[n - 1]
      case AddNode(_) =>
        if node in r.nodes then r else Ring(r.nodes + {node}, WithPoints(r.circle, points(node), node))
      case DropNode(_) => RemoveAsMeant(r, points(node), node).ring
  }

  /** What a removal leaves and whether it answers with an error. */
  datatype Removal = Removal(ring: Ring, refused: bool)

  /** A removal that refuses a node that is not there. */
  ghost function RemoveAsMeant(r: Ring, points: set<u32>, node: string): Removal {
    if node in r.nodes then Removal(Ring(r.nodes - {node}, r.circle - points), false) else Removal(r, true)
  }

  /** A removal whose guard is the other way round. */
  ghost function RemoveAsWritten(r: Ring, points: set<u32>, node: string): Removal {
    if node in r.nodes then Removal(r, true) else Removal(Ring(r.nodes - {node}, r.circle - points), false)
  }

  /** The inverted guard is wrong on every input: it refuses exactly what it should do. */
  lemma InvertedGuard(r: Ring, points: set<u32>, node: string)
    ensures RemoveAsWritten(r, points, node) != RemoveAsMeant(r, points, node)
    ensures RemoveAsWritten(r, points, node).refused <==> node in r.nodes
    ensures RemoveAsMeant(r, points, node).refused <==> node !in r.nodes
  {
  }

  /** Its answer aside, it leaves the ring it should leave exactly where there is nothing to remove: the
      node is not there, and no other node has a point where it would have one. */
  lemma InvertedGuardSparesTheRing(r: Ring, points: set<u32>, node: string)
    ensures RemoveAsWritten(r, points, node).ring == RemoveAsMeant(r, points, node).ring
       <==> node !in r.nodes && points !! r.circle.Keys
  {
    if node !in r.nodes {
      assert r.nodes - {node} == r.nodes;
      if points !! r.circle.Keys {
        assert r.circle - points == r.circle;
      } else {
        var p :| p in points && p in r.circle;
        assert p !in r.circle - points;
      }
    } else {
      assert node !in RemoveAsMeant(r, points, node).ring.nodes;
    }
  }

  /** Three removals that go wrong: that of the only node does nothing; that of a node that never was there
      takes the points of another; and that of a node without a trace succeeds. */
  lemma RemovalsThatGoWrong()
    ensures var r := Ring({"a"}, map[7 := "a"]);
      && RemoveAsWritten(r, {7}, "a") == Removal(r, true) && RemoveAsMeant(r, {7}, "a") == Removal(Ring({}, map[]), false)
      && RemoveAsWritten(r, {7}, "b") == Removal(Ring({"a"}, map[]), false) && RemoveAsMeant(r, {7}, "b") == Removal(r, true)
      && RemoveAsWritten(r, {8}, "b") == Removal(r, false) && RemoveAsMeant(r, {8}, "b") == Removal(r, true)
  {
    var r := Ring({"a"}, map[7 := "a"]);
    assert r.circle - {7} == map[] && r.circle - {8} == r.circle;
    assert r.nodes - {"a"} == {} && r.nodes - {"b"} == r.nodes;
  }

  /** The ring of a set of nodes: their points, each owned by its node, and no others. */
  ghost predicate Exact(points: string -> set<u32>, r: Ring) {
    && (forall n <- r.nodes, p <- points(n) :: p in r.circle && r.circle[p] == n)
    && (forall p <- r.circle :: r.circle[p] in r.nodes && p in points(r.circle[p]))
  }

  ghost predicate NoCollisions(points: string -> set<u32>, changes: seq<Change>) {
    forall i, j :: 0 <= i < |changes| && 0 <= j < |changes| && changes[i].node != changes[j].node ==>
      points(changes[i].node) !! points(changes[j].node)
  }

  lemma {:induction false} ReplayIsExact(points: string -> set<u32>, changes: seq<Change>, n: nat)
    requires NoCollisions(points, changes) && n <= |changes|
    ensures Exact(points, Replay(points, changes, n))
    ensures forall m <- Replay(points, changes, n).nodes :: exists i :: 0 <= i < n && changes[i].node == m
  {
    if n > 0 {
      ReplayIsExact(points, changes, n - 1);
      var r := Replay(points, changes, n - 1);
      forall m <- r.nodes | m != changes[n - 1].node
        ensures points(m) !! points(changes[n - 1].node)
      {
        var i :| 0 <= i < n - 1 && changes[i].node == m;
      }
    }
  }

  /** As long as nodes have points, a ring with nodes has an answer for every hash. */
  lemma NodesHaveHosts(points: string -> set<u32>, r: Ring)
    requires Exact(points, r) && r.nodes != {} && forall n <- r.nodes :: points(n) != {}
    ensures r.circle != map[] && forall h :: Owner(r.circle, h) in r.nodes
  {
    var n :| n in r.nodes;
    var p :| p in points(n);
    assert p in r.circle;
    forall h
      ensures Owner(r.circle, h) in r.nodes
    {
      var q := NearestOf(r.circle, h);
    }
  }

  lemma ExactIsUnique(points: string -> set<u32>, r: Ring, t: Ring)
    requires Exact(points, r) && Exact(points, t) && r.nodes == t.nodes
    ensures r.circle == t.circle
  {
    assert forall p <- r.circle :: p in t.circle && t.circle[p] == r.circle[p];
    assert forall p <- t.circle :: p in r.circle && r.circle[p] == t.circle[p];
    assert r.circle.Keys == t.circle.Keys;
    SameRing(r.circle, t.circle);
  }

  /** Where no two nodes share a point, the ring, and with it every lookup, depends on the nodes that are
      there and not on the history that brought them there. */
  lemma HistoryDoesNotMatter(points: string -> set<u32>, a: seq<Change>, b: seq<Change>)
    requires NoCollisions(points, a) && NoCollisions(points, b)
    requires Replay(points, a, |a|).nodes == Replay(points, b, |b|).nodes
    ensures Replay(points, a, |a|).circle == Replay(points, b, |b|).circle
  {
    hide Exact;
    ReplayIsExact(points, a, |a|);
    ReplayIsExact(points, b, |b|);
    ExactIsUnique(points, Replay(points, a, |a|), Replay(points, b, |b|));
  }

  // ----- the fast lookup: a sorted array, possibly with repetitions, and binary search

  ghost predicate Sorted(s: seq<u32>) {
    forall i, j :: 0 <= i < j < |s| ==> s[i] <= s[j]
  }

  predicate AtMost(a: u32, b: u32) {
    a <= b
  }

  /** `sort.Slice` with `<`. */
  function Sort(s: seq<u32>): seq<u32> {
    Sorting.Sort(AtMost, s)
  }

  /** An ascending list of the same elements. */
  lemma SortSorts(s: seq<u32>)
    ensures Sorted(Sort(s)) && (set x <- Sort(s)) == (set x <- s)
  {
    Sorting.SortSorts(AtMost, s);
    Sorting.SortKeeps(AtMost, s);
  }

  /** `sort.Search` for the first element that is not below `h`. */
  method Search(s: seq<u32>, h: u32) returns (i: nat)
    requires Sorted(s)
    ensures i <= |s| && (forall k :: 0 <= k < i ==> s[k] < h) && (forall k :: i <= k < |s| ==> s[k] >= h)
  {
    i := 0;
    var j := |s|;
    while i < j
      invariant 0 <= i <= j <= |s|
      invariant forall k :: 0 <= k < i ==> s[k] < h
      invariant forall k :: j <= k < |s| ==> s[k] >= h
    {
      var m := (i + j) / 2;
      if s[m] < h {
        i := m + 1;
      } else {
        j := m;
      }
    }
  }

  /** The first element not below the hash, or the first of all if there is none, is the nearest point. */
  lemma FirstNotBelowIsNearest(s: seq<u32>, h: u32, i: nat)
    requires Sorted(s) && s != [] && i <= |s|
    requires (forall k :: 0 <= k < i ==> s[k] < h) && (forall k :: i <= k < |s| ==> s[k] >= h)
    ensures Nearest((set x <- s), h, s[if i == |s| then 0 else i])
  {
    var p := s[if i == |s| then 0 else i];
    forall q <- s
      ensures Clockwise(h, p) <= Clockwise(h, q)
    {
      var k :| 0 <= k < |s| && s[k] == q;
    }
  }
}
