/**
  The intrusive doubly linked lists of co_routine.cpp. A node carries its own links and a pointer back to
  the list it is in; `items` is the list as a sequence.
*/
module IntrusiveLists {
  import opened Seqs

  class Node<T> {
    var prev: Node?<T>
    var next: Node?<T>
    var link: Link?<T>
    const value: T

    constructor (value: T)
      ensures this.value == value && prev == null && next == null && link == null
    {
      this.value := value;
      prev, next, link := null, null, null;
    }
  }

  class Link<T> {
    var head: Node?<T>
    var tail: Node?<T>
    ghost var items: seq<Node<T>>

    constructor ()
      ensures items == [] && Valid()
    {
      head, tail, items := null, null, [];
    }

    ghost predicate Valid()
      reads this, items
    {
      && Distinct(items)
      && head == First(items) && tail == Last(items)
      && forall n <- items :: n.link == this && n.prev == Pred(items, n) && n.next == Succ(items, n)
    }
  }

  ghost function First<T>(s: seq<Node<T>>): Node?<T> {
    if s == [] then null else s[0]
  }

  ghost function Last<T>(s: seq<Node<T>>): Node?<T> {
    if s == [] then null else if |s| == 1 then s[0] else Last(s[1..])
  }

  ghost function Succ<T>(s: seq<Node<T>>, n: Node<T>): Node?<T> {
    if s == [] then null else if s[0] == n then First(s[1..]) else Succ(s[1..], n)
  }

  ghost function Pred<T>(s: seq<Node<T>>, n: Node<T>): Node?<T> {
    if |s| < 2 then null else if s[1] == n then s[0] else Pred(s[1..], n)
  }

  lemma {:induction false} Ends<T>(s: seq<Node<T>>, n: Node<T>)
    requires Distinct(s) && n in s
    ensures Pred(s, n) == null <==> n == First(s)
    ensures Succ(s, n) == null <==> n == Last(s)
    ensures Pred(s, n) != null ==> Pred(s, n) in s && Pred(s, n) != n
    ensures Succ(s, n) != null ==> Succ(s, n) in s[1..] && Succ(s, n) != n
    ensures First(s) in s && Last(s) in s
    ensures Pred(s, n) == Succ(s, n) ==> Pred(s, n) == null
  {
    if |s| > 1 {
      var r := s[1..];
      assert s == [s[0]] + r;
      if n == s[0] {
        PredAbsent(r, n);
        Ends(r, r[0]);
      } else {
        Ends(r, n);
      }
    }
  }

  lemma {:induction false} PredAbsent<T>(s: seq<Node<T>>, n: Node<T>)
    requires n !in s
    ensures Pred(s, n) == null
  {
    if |s| >= 2 {
      PredAbsent(s[1..], n);
    }
  }

  /** The neighbours in a list, in terms of those in the list behind its first node. */
  lemma ConsNeighbours<T>(x: Node<T>, r: seq<Node<T>>)
    requires Distinct(r) && x !in r
    ensures var s := [x] + r;
      && Distinct(s) && First(s) == x && Last(s) == (if r == [] then x else Last(r))
      && Succ(s, x) == First(r) && Pred(s, x) == null
      && forall n <- r ::
        Succ(s, n) == Succ(r, n) && Pred(s, n) == (if n == First(r) then x else Pred(r, n))
  {
    var s := [x] + r;
    assert s[1..] == r;
    PredAbsent(r, x);
  }

  lemma {:induction false} RemoveNeighbours<T>(s: seq<Node<T>>, a: Node<T>)
    requires Distinct(s) && a in s
    ensures var t := Without(s, a);
      && Distinct(t)
      && First(t) == (if First(s) == a then Succ(s, a) else First(s))
      && Last(t) == (if Last(s) == a then Pred(s, a) else Last(s))
      && forall n <- t ::
        && Succ(t, n) == (if n == Pred(s, a) then Succ(s, a) else Succ(s, n))
        && Pred(t, n) == (if n == Succ(s, a) then Pred(s, a) else Pred(s, n))
  {
    hide Succ, Pred;
    var x, r := s[0], s[1..];
    assert s == [x] + r;
    ConsNeighbours(x, r);
    if x == a {
      assert Without(s, a) == r;
      if r != [] {
        Ends(r, r[0]);
        FirstHasNoPred(r);
      }
    } else {
      RemoveNeighbours(r, a);
      Ends(r, a);
      ConsNeighbours(x, Without(r, a));
    }
  }

  lemma FirstHasNoPred<T>(s: seq<Node<T>>)
    requires Distinct(s) && s != []
    ensures Pred(s, s[0]) == null && forall n <- s :: Pred(s, n) == null ==> n == s[0]
  {
    forall n <- s
      ensures Pred(s, n) == null <==> n == s[0]
    {
      Ends(s, n);
    }
  }

  lemma {:induction false} ConcatNeighbours<T>(s: seq<Node<T>>, t: seq<Node<T>>)
    requires Distinct(s) && Distinct(t) && forall n <- s :: n !in t
    ensures var u := s + t;
      && Distinct(u)
      && First(u) == (if s == [] then First(t) else First(s))
      && Last(u) == (if t == [] then Last(s) else Last(t))
      && (forall n <- s ::
        && Succ(u, n) == (if n == Last(s) then First(t) else Succ(s, n))
        && Pred(u, n) == Pred(s, n))
      && (forall n <- t ::
        && Succ(u, n) == Succ(t, n)
        && Pred(u, n) == (if n == First(t) then Last(s) else Pred(t, n)))
  {
    if s == [] {
      assert s + t == t;
      forall n <- t ensures n == First(t) ==> Pred(t, n) == null {
        Ends(t, n);
      }
    } else {
      var r := s[1..];
      assert (s + t)[1..] == r + t;
      ConcatNeighbours(r, t);
      if r != [] { Ends(r, r[0]); }
      PredAbsent(r + t, s[0]);
      PredAbsent(r, s[0]);
    }
  }

  /** A family of lists over a pool of nodes: every list is well linked over nodes of the pool, and
      a back-pointer is exact: null for a node in no list, and otherwise the one list that holds it. */
  ghost predicate WellFormed<T>(links: set<Link<T>>, nodes: set<Node<T>>)
    reads links, nodes
  {
    && (forall l <- links :: (forall n <- l.items :: n in nodes) && l.Valid())
    && (forall n <- nodes :: n.link != null ==> n.link in links && n in n.link.items)
    && (forall n <- nodes :: n.link == null ==> n.prev == null && n.next == null)
  }

  lemma EmptyFamily<T>(links: set<Link<T>>)
    requires forall l <- links :: l.Valid() && l.items == []
    ensures WellFormed(links, {})
  {
  }

  lemma HeadIsFirst<T>(l: Link<T>, links: set<Link<T>>, nodes: set<Node<T>>)
    requires WellFormed(links, nodes) && l in links
    ensures l.head == First(l.items)
  {
  }

  lemma ListJoinsFamily<T>(links: set<Link<T>>, nodes: set<Node<T>>, l: Link<T>)
    requires WellFormed(links, nodes) && l.Valid() && l.items == []
    ensures WellFormed(links + {l}, nodes)
  {
  }

  lemma NodeJoinsPool<T>(links: set<Link<T>>, nodes: set<Node<T>>, n: Node<T>)
    requires WellFormed(links, nodes) && n.link == null && n.prev == null && n.next == null
    ensures WellFormed(links, nodes + {n})
  {
  }

  lemma ListsStayInPool<T>(links: set<Link<T>>, nodes: set<Node<T>>)
    requires WellFormed(links, nodes)
    ensures forall l <- links, n <- l.items :: n in nodes
    ensures forall n <- nodes :: n.link != null ==> n.link in links
  {
  }

  /** In a well formed family a back-pointer is exact, so no node is in two lists. */
  lemma OwnershipIsExact<T>(links: set<Link<T>>, nodes: set<Node<T>>, n: Node<T>, l: Link<T>)
    requires WellFormed(links, nodes) && n in nodes && l in links
    ensures n.link == l <==> n in l.items
  {
    assert l.Valid();
  }

  ghost function Forward<T>(n: Node?<T>, k: nat, nodes: set<Node<T>>): Node?<T>
    reads nodes
  {
    if k == 0 then n
    else
      var m := Forward(n, k - 1, nodes);
      if m in nodes then m.next else null
  }

  ghost function Backward<T>(n: Node?<T>, k: nat, nodes: set<Node<T>>): Node?<T>
    reads nodes
  {
    if k == 0 then n
    else
      var m := Backward(n, k - 1, nodes);
      if m in nodes then m.prev else null
  }

  lemma {:induction false} EndsAt<T>(s: seq<Node<T>>)
    requires s != []
    ensures First(s) == s[0] && Last(s) == s[|s| - 1]
  {
    if |s| > 1 {
      EndsAt(s[1..]);
    }
  }

  lemma {:induction false} PredAt<T>(s: seq<Node<T>>, k: nat)
    requires Distinct(s) && k < |s|
    ensures Pred(s, s[k]) == if k == 0 then null else s[k - 1]
  {
    if k == 0 {
      Ends(s, s[0]);
    } else if k > 1 {
      assert s[k] == s[1..][1..][k - 2];
      PredAt(s[1..], k - 1);
    }
  }

  /** Walking forward from the head visits the items in order and then stops; walking backward from the
      tail visits them in the opposite order. */
  lemma {:induction false} WalksAgree<T>(l: Link<T>, k: nat, links: set<Link<T>>, nodes: set<Node<T>>)
    requires WellFormed(links, nodes) && l in links && k <= |l.items|
    ensures var s := l.items;
      && Forward(l.head, k, nodes) == (if k < |s| then s[k] else null)
      && Backward(l.tail, k, nodes) == (if k < |s| then s[|s| - 1 - k] else null)
  {
    hide Succ, Pred, First, Last, Distinct;
    var s := l.items;
    ListIsLinked(l, links, nodes);
    if k == 0 {
      EmptyEnds<T>();
      if s != [] { EndsAt(s); }
    } else {
      WalksAgree(l, k - 1, links, nodes);
      WalkStep(s, k - 1);
      PredAt(s, |s| - k);
    }
  }

  lemma EmptyEnds<T>()
    ensures First<T>([]) == null && Last<T>([]) == null
  {
  }

  lemma ListIsLinked<T>(l: Link<T>, links: set<Link<T>>, nodes: set<Node<T>>)
    requires WellFormed(links, nodes) && l in links
    ensures Distinct(l.items) && l.head == First(l.items) && l.tail == Last(l.items)
    ensures forall n <- l.items :: n in nodes && n.prev == Pred(l.items, n) && n.next == Succ(l.items, n)
  {
  }

  /** The pointer surgery of a removal: only the list head, the node and its two neighbours change. */
  method Unhook<T>(lst: Link<T>, ap: Node<T>)
    requires lst.head != null && lst.tail != null
    requires ap == lst.head <==> ap.prev == null
    requires ap == lst.tail <==> ap.next == null
    requires ap.prev != ap && ap.next != ap && (ap.prev == ap.next ==> ap.prev == null)
    modifies lst`head, lst`tail, ap, ap.prev, ap.next
    ensures ap.prev == null && ap.next == null && ap.link == null
    ensures lst.head == if old(ap.prev) == null then old(ap.next) else old(lst.head)
    ensures lst.tail == if old(ap.next) == null then old(ap.prev) else old(lst.tail)
    ensures var p, q := old(ap.prev), old(ap.next);
      && (p != null ==> p.next == q && p.prev == old(p.prev) && p.link == old(p.link))
      && (q != null ==> q.prev == p && q.next == old(q.next) && q.link == old(q.link))
  {
    if ap == lst.head {
      lst.head := ap.next;
      if lst.head != null {
        lst.head.prev := null;
      }
    } else {
      if ap.prev != null {
        ap.prev.next := ap.next;
      }
    }
    if ap == lst.tail {
      lst.tail := ap.prev;
      if lst.tail != null {
        lst.tail.next := null;
      }
    } else {
      ap.next.prev := ap.prev;
    }
    ap.prev, ap.next := null, null;
    ap.link := null;
  }

  method RemoveFromList<T>(lst: Link<T>, ap: Node<T>)
    requires lst.Valid() && ap in lst.items
    modifies lst, lst.items
    ensures lst.Valid() && lst.items == Without(old(lst.items), ap)
    ensures ap.link == null && ap.prev == null && ap.next == null
  {
    ghost var s := lst.items;
    Ends(s, ap);
    RemoveNeighbours(s, ap);
    lst.items := Without(s, ap);
    Unhook(lst, ap);
  }

  method RemoveFromLink<T>(ap: Node<T>, ghost links: set<Link<T>>, ghost nodes: set<Node<T>>)
    requires WellFormed(links, nodes) && ap in nodes
    modifies ap.link, if ap.link == null then [] else ap.link.items
    ensures WellFormed(links, nodes)
    ensures ap.link == null
    ensures forall l <- links :: l.items == Without(old(l.items), ap)
  {
    var lst := ap.link;
    if lst == null {
      return;
    }
    RemoveFromList(lst, ap);
    assert forall l <- links :: l != lst ==> forall n <- l.items :: n.link == l;
  }

  method AppendToList<T>(apLink: Link<T>, ap: Node<T>)
    requires apLink.Valid() && ap.link == null && ap !in apLink.items
    modifies apLink, ap, apLink.items
    ensures apLink.Valid() && apLink.items == old(apLink.items) + [ap]
  {
    ghost var s := apLink.items;
    ConcatNeighbours(s, [ap]);
    if s != [] { Ends(s, s[0]); }
    if apLink.tail != null {
      apLink.tail.next := ap;
      ap.next := null;
      ap.prev := apLink.tail;
      apLink.tail := ap;
    } else {
      apLink.head, apLink.tail := ap, ap;
      ap.next, ap.prev := null, null;
    }
    ap.link := apLink;
    apLink.items := s + [ap];
  }

  method AddTail<T>(apLink: Link<T>, ap: Node<T>, ghost links: set<Link<T>>, ghost nodes: set<Node<T>>)
    requires WellFormed(links, nodes) && ap in nodes && apLink in links
    modifies apLink, ap, apLink.items
    ensures WellFormed(links, nodes)
    ensures forall l <- links ::
      l.items == if l == apLink && old(ap.link) == null then old(l.items) + [ap] else old(l.items)
  {
    if ap.link != null {
      return;
    }
    AppendToList(apLink, ap);
    assert forall l <- links :: l != apLink ==> forall n <- l.items :: n.link == l;
  }

  method PopFromList<T>(apLink: Link<T>)
    requires apLink.Valid() && apLink.head != null
    modifies apLink, apLink.items
    ensures apLink.Valid() && apLink.items == Without(old(apLink.items), old(apLink.items)[0])
    ensures var lp := old(apLink.items)[0]; lp.prev == null && lp.next == null && lp.link == null
  {
    ghost var s := apLink.items;
    var lp := apLink.head;
    Ends(s, lp);
    RemoveNeighbours(s, lp);
    if apLink.head == apLink.tail {
      apLink.head, apLink.tail := null, null;
    } else {
      apLink.head := apLink.head.next;
    }
    lp.prev, lp.next := null, null;
    lp.link := null;
    if apLink.head != null {
      apLink.head.prev := null;
    }
    apLink.items := Without(s, lp);
  }

  method PopHead<T>(apLink: Link<T>, ghost links: set<Link<T>>, ghost nodes: set<Node<T>>)
    requires WellFormed(links, nodes) && apLink in links
    modifies apLink, apLink.items
    ensures WellFormed(links, nodes)
    ensures forall l <- links ::
      l.items == if l == apLink && old(l.items) != [] then old(l.items)[1..] else old(l.items)
  {
    if apLink.head == null {
      return;
    }
    PopFromList(apLink);
    assert forall l <- links :: l != apLink ==> forall n <- l.items :: n.link == l;
  }

  lemma {:induction false} WalkStep<T>(s: seq<Node<T>>, k: nat)
    requires Distinct(s) && k < |s|
    ensures Succ(s, s[k]) == if k + 1 < |s| then s[k + 1] else null
    ensures s[k] !in s[..k]
  {
    if k > 0 {
      WalkStep(s[1..], k - 1);
      assert s[..k] == [s[0]] + s[1..][..k - 1];
    }
  }

  /** The relabelling walk of a join: every node of `apOther` is told that it belongs to `apLink`. */
  method Relabel<T>(apLink: Link<T>, apOther: Link<T>)
    requires apOther.Valid()
    modifies apOther.items`link
    ensures forall n <- apOther.items :: n.link == apLink
  {
    ghost var b := apOther.items;
    var lp := apOther.head;
    ghost var k := 0;
    while lp != null
      invariant 0 <= k <= |b|
      invariant lp == if k < |b| then b[k] else null
      invariant forall n <- b[..k] :: n.link == apLink
      decreases |b| - k
    {
      WalkStep(b, k);
      assert b[..k + 1] == b[..k] + [b[k]];
      lp.link := apLink;
      lp := lp.next;
      k := k + 1;
    }
    assert b[..k] == b;
  }

  /** Linked up like a list of its own, but already claimed by `apLink`. */
  ghost predicate ReadyToJoin<T>(apLink: Link<T>, apOther: Link<T>)
    reads apOther, apOther.items
  {
    && Distinct(apOther.items)
    && apOther.head == First(apOther.items) && apOther.tail == Last(apOther.items)
    && forall n <- apOther.items ::
      n.link == apLink && n.prev == Pred(apOther.items, n) && n.next == Succ(apOther.items, n)
  }

  method Splice<T>(apLink: Link<T>, apOther: Link<T>)
    requires apLink.Valid() && apOther.head != null && apLink != apOther
    requires ReadyToJoin(apLink, apOther) && forall n <- apLink.items :: n !in apOther.items
    modifies apLink, apOther, apLink.items, apOther.items
    ensures apLink.Valid() && apLink.items == old(apLink.items) + old(apOther.items)
    ensures apOther.Valid() && apOther.items == []
  {
    ghost var a, b := apLink.items, apOther.items;
    ConcatNeighbours(a, b);
    if a != [] { Ends(a, a[0]); }
    Ends(b, b[0]);
    var lp := apOther.head;
    if apLink.tail != null {
      apLink.tail.next := lp;
      lp.prev := apLink.tail;
      apLink.tail := apOther.tail;
    } else {
      apLink.head := apOther.head;
      apLink.tail := apOther.tail;
    }
    apOther.head, apOther.tail := null, null;
    apLink.items, apOther.items := a + b, [];
  }

  method JoinLists<T>(apLink: Link<T>, apOther: Link<T>)
    requires apLink.Valid() && apOther.Valid() && apLink != apOther
    modifies apLink, apOther, apLink.items, apOther.items
    ensures apLink.Valid() && apLink.items == old(apLink.items) + old(apOther.items)
    ensures apOther.Valid() && apOther.items == []
  {
    if apOther.head == null {
      return;
    }
    assert forall n <- apLink.items :: n.link == apLink;
    Relabel(apLink, apOther);
    assert apLink.Valid();
    Splice(apLink, apOther);
  }

  method Join<T>(apLink: Link<T>, apOther: Link<T>, ghost links: set<Link<T>>, ghost nodes: set<Node<T>>)
    requires WellFormed(links, nodes) && apLink in links && apOther in links && apLink != apOther
    modifies apLink, apOther, apLink.items, apOther.items
    ensures WellFormed(links, nodes)
    ensures forall l <- links ::
      l.items == if l == apLink then old(apLink.items) + old(apOther.items)
                 else if l == apOther then [] else old(l.items)
  {
    JoinLists(apLink, apOther);
    assert forall l <- links :: l != apLink && l != apOther ==> forall n <- l.items :: n.link == l;
  }
}
