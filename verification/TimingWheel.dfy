/** The hashed timing wheel: one list per millisecond, addressed modulo the size of the wheel. */
module TimingWheel {
  import opened IntrusiveLists
  import opened Seqs
  import opened Deadlines
  import opened Modular
  import opened Waits
  import LoopModel

  const INT_LIMIT := 0x8000_0000

  /** The value of a 64-bit difference stored in a 32-bit `int`. */
  function AsInt(x: int): int {
    (x + INT_LIMIT) % (2 * INT_LIMIT) - INT_LIMIT
  }

  lemma AsIntFits(x: int)
    requires -INT_LIMIT <= x < INT_LIMIT
    ensures AsInt(x) == x
  {
  }

  datatype AddResult = Added | ClockBehind | AlreadyExpired | TooFar

  /** The position of the millisecond `start + off` in a wheel whose `start` sits at `startIdx`. */
  function SlotIndex(startIdx: nat, off: nat, size: nat): (r: nat)
    requires size > 0
    ensures r < size
  {
    (startIdx + off) % size
  }

  lemma SlotsAreDistinct(startIdx: nat, off: nat, off': nat, size: nat)
    requires off < size && off' < size && off != off'
    ensures SlotIndex(startIdx, off, size) != SlotIndex(startIdx, off', size)
  {
    var a, b := startIdx + off, startIdx + off';
    if a % size == b % size {
      DivMod(a, size);
      DivMod(b, size);
      var qa, qb := a / size, b / size;
      Distribute(qa, qb, size);
      Distribute(qb, qa, size);
      if qa > qb {
        MulAtLeast(qa - qb, size);
      } else if qa < qb {
        MulAtLeast(qb - qa, size);
      }
      assert false;
    }
  }

  lemma WrapsAround(startIdx: nat, off: nat, size: nat)
    requires 0 < size <= off
    ensures SlotIndex(startIdx, off, size) == SlotIndex(startIdx, off - size, size)
  {
    var a := startIdx + off - size;
    DivMod(a, size);
    Distribute(a / size, -1, size);
    ModIs(a + size, a / size + 1, a % size, size);
  }

  ghost predicate SlotHolds<W>(contents: seq<seq<W>>, startIdx: nat, start: nat, pending: seq<Entry<W>>, off: nat)
    requires off < |contents|
  {
    contents[SlotIndex(startIdx, off, |contents|)] == Items(EntriesAt(pending, start + off))
  }

  /** What the wheel promises about its slots: the slot of each millisecond in its window holds exactly
      the pending entries of that deadline, oldest first. */
  ghost predicate Placed<W>(contents: seq<seq<W>>, startIdx: nat, start: nat, pending: seq<Entry<W>>) {
    && (forall e <- pending :: 0 < start <= e.at < start + |contents|)
    && (forall off: nat :: off < |contents| ==> SlotHolds(contents, startIdx, start, pending, off))
  }

  lemma PlacedWhenUnset<W>(contents: seq<seq<W>>, start: nat, start': nat)
    requires Placed(contents, 0, start, [])
    ensures Placed(contents, 0, start', [])
  {
    forall off: nat | off < |contents|
      ensures SlotHolds(contents, 0, start', [], off)
    {
      assert SlotHolds(contents, 0, start, [], off);
    }
  }

  lemma PlacedAfterAdd<W>(contents: seq<seq<W>>, startIdx: nat, start: nat, pending: seq<Entry<W>>, e: Entry<W>)
    requires Placed(contents, startIdx, start, pending)
    requires 0 < start <= e.at < start + |contents|
    ensures var k := SlotIndex(startIdx, e.at - start, |contents|);
      Placed(contents[k := contents[k] + [e.item]], startIdx, start, pending + [e])
  {
    hide SlotIndex;
    var size, diff := |contents|, e.at - start;
    var k := SlotIndex(startIdx, diff, size);
    var contents', pending' := contents[k := contents[k] + [e.item]], pending + [e];
    forall off: nat | off < size
      ensures SlotHolds(contents', startIdx, start, pending', off)
    {
      assert SlotHolds(contents, startIdx, start, pending, off);
      EntriesAtConcat(pending, [e], start + off);
      ItemsConcat(EntriesAt(pending, start + off), EntriesAt([e], start + off));
      if off != diff { SlotsAreDistinct(startIdx, off, diff, size); }
    }
  }

  /** The slots of the wheel after the first `n` milliseconds of its window were emptied. */
  ghost function Emptied<W>(contents: seq<seq<W>>, startIdx: nat, n: nat): (r: seq<seq<W>>)
    ensures |r| == |contents|
  {
    if n == 0 || contents == [] then contents
    else Emptied(contents, startIdx, n - 1)[SlotIndex(startIdx, n - 1, |contents|) := []]
  }

  lemma {:induction false} EmptiedAt<W>(contents: seq<seq<W>>, startIdx: nat, n: nat, off: nat)
    requires n <= |contents| && off < |contents|
    ensures Emptied(contents, startIdx, n)[SlotIndex(startIdx, off, |contents|)]
         == if off < n then [] else contents[SlotIndex(startIdx, off, |contents|)]
  {
    if n > 0 {
      EmptiedAt(contents, startIdx, n - 1, off);
      if off != n - 1 { SlotsAreDistinct(startIdx, off, n - 1, |contents|); }
    }
  }

  lemma NothingDrained<W>(contents: seq<seq<W>>, startIdx: nat, start: nat, pending: seq<Entry<W>>, r: seq<W>)
    ensures Emptied(contents, startIdx, 0) == contents
    ensures r + Items(Buckets(pending, start, 0)) == r
  {
  }

  lemma DrainStep<W>(contents: seq<seq<W>>, startIdx: nat, start: nat, pending: seq<Entry<W>>, r: seq<W>, i: nat)
    requires Placed(contents, startIdx, start, pending) && i < |contents|
    ensures var k := SlotIndex(startIdx, i, |contents|);
      && Emptied(contents, startIdx, i + 1) == Emptied(contents, startIdx, i)[k := []]
      && r + Items(Buckets(pending, start, i + 1))
         == r + Items(Buckets(pending, start, i)) + Emptied(contents, startIdx, i)[k]
  {
    EmptiedAt(contents, startIdx, i, i);
    assert SlotHolds(contents, startIdx, start, pending, i);
    ItemsConcat(Buckets(pending, start, i), EntriesAt(pending, start + i));
  }

  /** The number of slots a take empties: one per millisecond elapsed, at most the whole wheel. */
  function TakeCount(start: nat, now: nat, size: nat): nat
    requires start <= now
  {
    if now - start + 1 > size then size else now - start + 1
  }

  lemma SlotShifts(startIdx: nat, k: nat, off: nat, size: nat)
    requires size > 0
    ensures SlotIndex(startIdx + k, off, size) == SlotIndex(startIdx, k + off, size)
  {
  }

  lemma SlotAfterTake<W>(contents: seq<seq<W>>, startIdx: nat, start: nat, pending: seq<Entry<W>>, now: nat, off: nat)
    requires Placed(contents, startIdx, start, pending) && 0 < start <= now && off < |contents|
    ensures var cnt := TakeCount(start, now, |contents|);
      SlotHolds(Emptied(contents, startIdx, cnt), startIdx + cnt - 1, now, Later(pending, now), off)
  {
    hide SlotIndex;
    var size := |contents|;
    var cnt := TakeCount(start, now, size);
    EntriesAtDue(pending, now, now + off);
    var o := cnt - 1 + off;
    SlotShifts(startIdx, cnt - 1, off, size);
    if o < size {
      assert SlotHolds(contents, startIdx, start, pending, o);
      EmptiedAt(contents, startIdx, cnt, o);
      if cnt != now - start + 1 { NoEntriesAt(pending, now + off); }
    } else {
      WrapsAround(startIdx, o, size);
      EmptiedAt(contents, startIdx, cnt, o - size);
      NoEntriesAt(pending, now + off);
    }
  }

  /** Advancing a wheel to `now`: the slots emptied held exactly the due entries, and the window that
      starts at `now`, in the last slot emptied, places the rest correctly. */
  lemma PlacedAfterTake<W>(contents: seq<seq<W>>, startIdx: nat, start: nat, pending: seq<Entry<W>>, now: nat)
    requires |contents| > 0 && Placed(contents, startIdx, start, pending) && 0 < start <= now
    ensures var cnt := TakeCount(start, now, |contents|);
      && Placed(Emptied(contents, startIdx, cnt), startIdx + cnt - 1, now, Later(pending, now))
      && Buckets(pending, start, cnt) == ByDeadline(Due(pending, now))
  {
    hide SlotIndex, SlotHolds;
    var cnt := TakeCount(start, now, |contents|);
    var contents', startIdx', later := Emptied(contents, startIdx, cnt), startIdx + cnt - 1, Later(pending, now);
    BucketsAreDueInOrder(pending, start, cnt, now);
    LaterMembers(pending, now);
    forall off: nat | off < |contents|
      ensures SlotHolds(contents', startIdx', now, later, off)
    {
      SlotAfterTake(contents, startIdx, start, pending, now, off);
    }
  }

  ghost function WithoutAll<W>(contents: seq<seq<W>>, w: W): (r: seq<seq<W>>)
    ensures |r| == |contents| && forall i :: 0 <= i < |contents| ==> r[i] == Without(contents[i], w)
  {
    seq(|contents|, i requires 0 <= i < |contents| => Without(contents[i], w))
  }

  lemma PlacedAfterRemove<W>(contents: seq<seq<W>>, startIdx: nat, start: nat, pending: seq<Entry<W>>, w: W)
    requires Placed(contents, startIdx, start, pending)
    ensures Placed(WithoutAll(contents, w), startIdx, start, Cancel(pending, w))
  {
    hide SlotIndex;
    CancelMembers(pending, w);
    var contents', pending' := WithoutAll(contents, w), Cancel(pending, w);
    forall off: nat | off < |contents|
      ensures SlotHolds(contents', startIdx, start, pending', off)
    {
      assert SlotHolds(contents, startIdx, start, pending, off);
      EntriesAtCancel(pending, w, start + off);
    }
  }

  lemma {:induction false} EntriesAtCancel<W>(s: seq<Entry<W>>, w: W, t: int)
    ensures Items(EntriesAt(Cancel(s, w), t)) == Without(Items(EntriesAt(s, t)), w)
  {
    if s != [] {
      EntriesAtCancel(s[1..], w, t);
    }
  }

  class Wheel {
    const slots: seq<Link<Wait>>
    /** The slots, as a set. */
    ghost const lists: set<Link<Wait>>
    var start: nat
    var startIdx: nat
    /** Every item in the wheel with its deadline, in the order of insertion. */
    ghost var pending: seq<Entry<Node<Wait>>>

    /** `AllocTimeout`: a wheel of `size` empty slots that starts at the current tick. */
    constructor (size: nat, tick: nat)
      requires size > 0
      ensures Valid() && pending == [] && start == tick && |slots| == size
      ensures fresh(lists) && forall l <- lists :: l.Valid() && l.items == []
    {
      var ls: seq<Link<Wait>> := [];
      for i := 0 to size
        invariant |ls| == i
        invariant forall j, k :: 0 <= j < k < i ==> ls[j] != ls[k]
        invariant forall j :: 0 <= j < i ==> fresh(ls[j]) && ls[j].Valid() && ls[j].items == []
      {
        var l := new Link<Wait>();
        ls := ls + [l];
      }
      slots := ls;
      lists := set i | 0 <= i < |ls| :: ls[i];
      start := tick;
      startIdx := 0;
      pending := [];
      new;
      SlotContents();
      assert forall off: nat :: off < |slots| ==> SlotHolds(Contents(), 0, start, [], off);
    }

    ghost function Contents(): seq<seq<Node<Wait>>>
      reads slots
    {
      seq(|slots|, i requires 0 <= i < |slots| reads slots => slots[i].items)
    }

    lemma SlotContents()
      ensures |Contents()| == |slots| && forall i :: 0 <= i < |slots| ==> Contents()[i] == slots[i].items
    {
    }

    lemma ContentsAre(c: seq<seq<Node<Wait>>>)
      requires |c| == |slots| && forall i :: 0 <= i < |slots| ==> slots[i].items == c[i]
      ensures Contents() == c
    {
    }

    ghost predicate Valid()
      reads this, slots
    {
      && |slots| > 0
      && (forall i :: 0 <= i < |slots| ==> slots[i] in lists)
      && (forall i, j :: 0 <= i < j < |slots| ==> slots[i] != slots[j])
      && (start == 0 ==> startIdx == 0 && pending == [])
      && Placed(Contents(), startIdx, start, pending)
    }

    /** Append an item to the slot `diff` milliseconds into the window, which is the slot of its deadline. */
    method Put(diff: nat, apItem: Node<Wait>, ghost links: set<Link<Wait>>, ghost nodes: set<Node<Wait>>)
      requires Valid() && WellFormed(links, nodes) && apItem in nodes && lists <= links
      requires start > 0 && diff < |slots| && apItem.value.expireTime == start + diff
      modifies this`pending, links, nodes
      ensures Valid() && WellFormed(links, nodes)
      ensures pending == if old(apItem.link) == null
                         then old(pending) + [Entry(apItem, apItem.value.expireTime)] else old(pending)
      ensures forall l <- links :: l !in lists ==> l.items == old(l.items)
    {
      hide Placed, SlotIndex, WellFormed, Contents;
      ghost var c, isNew := Contents(), apItem.link == null;
      SlotContents();
      var k := SlotIndex(startIdx, diff, |slots|);
      ListsStayInPool(links, nodes);
      AddTail(slots[k], apItem, links, nodes);
      if isNew {
        ghost var e := Entry(apItem, apItem.value.expireTime);
        PlacedAfterAdd(c, startIdx, start, pending, e);
        ghost var c' := c[k := c[k] + [apItem]];
        assert Placed(c', startIdx, start, pending + [e]);
        pending := pending + [e];
        forall i | 0 <= i < |slots| ensures slots[i].items == c'[i] {
          assert i != k ==> slots[i] != slots[k];
        }
        ContentsAre(c');
      } else {
        ContentsAre(c);
      }
    }

    method AddTimeout(apItem: Node<Wait>, now: nat, ghost links: set<Link<Wait>>, ghost nodes: set<Node<Wait>>)
      returns (ret: AddResult)
      requires Valid() && WellFormed(links, nodes) && apItem in nodes && lists <= links
      requires now > 0 && apItem.value.expireTime < LoopModel.Origin(start, now) + INT_LIMIT
      modifies this`start, this`startIdx, this`pending, links, nodes
      ensures Valid() && WellFormed(links, nodes)
      ensures start == LoopModel.Origin(old(start), now)
      ensures ret.Added? <==> start <= now <= apItem.value.expireTime < start + |slots|
      ensures pending == if ret.Added? && old(apItem.link) == null
                         then old(pending) + [Entry(apItem, apItem.value.expireTime)] else old(pending)
      ensures forall l <- links :: l !in lists ==> l.items == old(l.items)
    {
      hide Placed, SlotIndex, WellFormed, AsInt;
      if start == 0 {
        PlacedWhenUnset(Contents(), start, now);
        start := now;
        startIdx := 0;
      }
      if now < start {
        return ClockBehind;
      }
      if apItem.value.expireTime < now {
        return AlreadyExpired;
      }
      AsIntFits(apItem.value.expireTime - start);
      var diff := AsInt(apItem.value.expireTime - start);
      if diff >= |slots| {
        return TooFar;
      }
      Put(diff, apItem, links, nodes);
      return Added;
    }

    /** Move the items of the first `cnt` milliseconds of the window to `apResult`, slot by slot. */
    method DrainSlots(cnt: nat, apResult: Link<Wait>, ghost links: set<Link<Wait>>, ghost nodes: set<Node<Wait>>)
      requires Valid() && WellFormed(links, nodes) && lists <= links
      requires apResult in links && apResult !in lists && cnt <= |slots|
      modifies links, nodes
      ensures WellFormed(links, nodes)
      ensures Contents() == Emptied(old(Contents()), startIdx, cnt)
      ensures apResult.items == old(apResult.items) + Items(Buckets(pending, start, cnt))
      ensures forall l <- links :: l !in lists && l != apResult ==> l.items == old(l.items)
    {
      hide SlotIndex, WellFormed, Placed, Contents, Emptied, Buckets;
      ghost var c, r := Contents(), apResult.items;
      SlotContents();
      NothingDrained(c, startIdx, start, pending, r);
      ghost var now := c;
      for i := 0 to cnt
        invariant WellFormed(links, nodes)
        invariant now == Emptied(c, startIdx, i)
        invariant forall j :: 0 <= j < |slots| ==> slots[j].items == now[j]
        invariant apResult.items == r + Items(Buckets(pending, start, i))
        invariant forall l <- links :: l !in lists && l != apResult ==> l.items == old(l.items)
      {
        var idx := SlotIndex(startIdx, i, |slots|);
        DrainStep(c, startIdx, start, pending, r, i);
        ListsStayInPool(links, nodes);
        Join(apResult, slots[idx], links, nodes);
        now := now[idx := []];
        forall j | 0 <= j < |slots| ensures slots[j].items == now[j] {
          assert j != idx ==> slots[j] != slots[idx];
        }
      }
      ContentsAre(now);
    }

    method TakeAllTimeout(now: nat, apResult: Link<Wait>, ghost links: set<Link<Wait>>, ghost nodes: set<Node<Wait>>)
      requires Valid() && WellFormed(links, nodes) && lists <= links
      requires apResult in links && apResult !in lists
      requires 0 < now < LoopModel.Origin(start, now) + INT_LIMIT - 1
      modifies this`start, this`startIdx, this`pending, links, nodes
      ensures Valid() && WellFormed(links, nodes)
      ensures forall l <- links :: l !in lists && l != apResult ==> l.items == old(l.items)
      ensures if now < LoopModel.Origin(old(start), now)
              then start == old(start) && pending == old(pending) && apResult.items == old(apResult.items)
              else && start == now
                   && pending == Later(old(pending), now)
                   && apResult.items == old(apResult.items) + Items(ByDeadline(Due(old(pending), now)))
    {
      hide Placed, SlotIndex, WellFormed, AsInt;
      if start == 0 {
        PlacedWhenUnset(Contents(), start, now);
        start := now;
        startIdx := 0;
      }
      if now < start {
        return;
      }
      AsIntFits(now - start + 1);
      var cnt := AsInt(now - start + 1);
      if cnt > |slots| {
        cnt := |slots|;
      }
      if cnt < 0 {
        return;
      }
      PlacedAfterTake(Contents(), startIdx, start, pending, now);
      DrainSlots(cnt, apResult, links, nodes);
      start := now;
      startIdx := startIdx + cnt - 1;
      pending := Later(pending, now);
    }

    /** Unlink an item from whichever list holds it, the wheel included. */
    method Remove(apItem: Node<Wait>, ghost links: set<Link<Wait>>, ghost nodes: set<Node<Wait>>)
      requires Valid() && WellFormed(links, nodes) && apItem in nodes && lists <= links
      modifies this`pending, apItem.link, if apItem.link == null then [] else apItem.link.items
      ensures Valid() && WellFormed(links, nodes)
      ensures apItem.link == null
      ensures pending == Cancel(old(pending), apItem)
      ensures forall l <- links :: l.items == Without(old(l.items), apItem)
    {
      hide Placed, SlotIndex, WellFormed;
      PlacedAfterRemove(Contents(), startIdx, start, pending, apItem);
      ListsStayInPool(links, nodes);
      RemoveFromLink(apItem, links, nodes);
      ContentsAre(WithoutAll(old(Contents()), apItem));
      pending := Cancel(pending, apItem);
    }
  }
}
