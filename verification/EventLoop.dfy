/** The scheduler of one thread: the wheel, the active list, the condition queues and the
    registrations with epoll, updated in place. */
module EventLoop {
  import opened Seqs
  import opened Deadlines
  import opened IntrusiveLists
  import opened LoopModel
  import opened Waits
  import opened TimingWheel

  type Timer = Node<Wait>
  type Cond = Link<Timer>
  type Waiter = Node<Timer>

  datatype PollStart = Suspended | FellBack | Rejected

  /** The timers a condition queue refers to, in queue order. */
  ghost function Timers(items: seq<Waiter>): (r: seq<Timer>)
    ensures |r| == |items|
  {
    if items == [] then [] else [items[0].value] + Timers(items[1..])
  }

  ghost function WaitsOf(live: set<Timer>, records: set<Wait>): map<Timer, Waiting<Cond>>
    reads records
  {
    map n <- live | n.value in records :: n.value.View()
  }

  ghost function QueuesOf(conds: set<Cond>): map<Cond, seq<Timer>>
    reads conds
  {
    map c <- conds :: Timers(c.items)
  }

  lemma WaitsAre(live: set<Timer>, records: set<Wait>, m: map<Timer, Waiting<Cond>>)
    requires forall n <- live :: n.value in records
    requires m.Keys == live && forall n <- live :: m[n] == n.value.View()
    ensures WaitsOf(live, records) == m
  {
  }

  lemma NothingToMark(m: map<Timer, Waiting<Cond>>, active: seq<Timer>)
    ensures MarkTimedOut(m, []) == m && active + [] == active
  {
  }

  lemma EmptyViews()
    ensures WaitsOf({}, {}) == map[] && QueuesOf({}) == map[]
  {
  }

  lemma WaitsHave(live: set<Timer>, records: set<Wait>)
    requires forall n <- live :: n.value in records
    ensures var m := WaitsOf(live, records); m.Keys == live && forall n <- live :: m[n] == n.value.View()
  {
  }

  lemma QueuesAre(conds: set<Cond>, m: map<Cond, seq<Timer>>)
    requires m.Keys == conds && forall c <- conds :: m[c] == Timers(c.items)
    ensures QueuesOf(conds) == m
  {
  }

  lemma QueuesHave(conds: set<Cond>)
    ensures var m := QueuesOf(conds); m.Keys == conds && forall c <- conds :: m[c] == Timers(c.items)
  {
  }

  lemma {:induction false} TimersAppend(items: seq<Waiter>, p: Waiter)
    ensures Timers(items + [p]) == Timers(items) + [p.value]
  {
    if items == [] {
      assert items + [p] == [p];
    } else {
      assert (items + [p])[1..] == items[1..] + [p];
      TimersAppend(items[1..], p);
    }
  }

  lemma {:induction false} TimersWithout(items: seq<Waiter>, p: Waiter)
    requires forall q <- items :: q != p ==> q.value != p.value
    ensures Timers(Without(items, p)) == Without(Timers(items), p.value)
  {
    if items != [] {
      TimersWithout(items[1..], p);
    }
  }

  class CoEpoll {
    const wheel: Wheel
    const timeoutList: Link<Wait>
    const activeList: Link<Wait>
    var registered: map<int, Registration<Timer>>
    /** The waits that were allocated and not freed yet, and what their timers carry. */
    ghost var live: set<Timer>
    ghost var records: set<Wait>
    ghost var links: set<Link<Wait>>
    ghost var nodes: set<Timer>
    ghost var conds: set<Cond>
    ghost var waiters: set<Waiter>

    /** `AllocEpoll`. */
    constructor (tick: nat)
      ensures Valid() && fresh(links) && conds == {} && waiters == {}
      ensures View() == Loop(map[], [], tick, [], map[], map[])
    {
      hide WellFormed, Wheel.Valid, WaitsOf, QueuesOf, Valid;
      wheel := new Wheel(WHEEL_SIZE, tick);
      timeoutList := new Link();
      activeList := new Link();
      registered := map[];
      live, records, nodes, conds, waiters := {}, {}, {}, {}, {};
      new;
      links := wheel.lists + {timeoutList, activeList};
      EmptyViews();
      EmptyFamily(links);
      EmptyFamily(conds);
      EmptyIsValid();
    }

    lemma EmptyIsValid()
      requires wheel.Valid() && wheel.lists <= links && |wheel.slots| == WHEEL_SIZE
      requires timeoutList in links && activeList in links && timeoutList != activeList
      requires timeoutList !in wheel.lists && activeList !in wheel.lists && timeoutList.items == []
      requires live == {} && nodes == {} && conds == {} && waiters == {}
      requires WellFormed(links, {}) && WellFormed(conds, waiters)
      ensures Valid()
    {
      hide WellFormed, Wheel.Valid;
    }

    ghost predicate Lists()
      reads this`links, this`nodes, wheel, wheel.slots, links, nodes
    {
      && wheel.Valid() && wheel.lists <= links && |wheel.slots| == WHEEL_SIZE
      && timeoutList in links && activeList in links && timeoutList != activeList
      && timeoutList !in wheel.lists && activeList !in wheel.lists
      && WellFormed(links, nodes)
    }

    ghost predicate Pool()
      reads this`live, this`records, this`nodes, this`waiters
    {
      && live <= nodes && (forall n <- nodes :: n.value in records)
      && (forall n <- nodes, m <- nodes :: n != m ==> n.value != m.value)
      && (forall p <- waiters :: p.value in nodes)
      && (forall p <- waiters, q <- waiters :: p != q ==> p.value != q.value)
    }

    ghost predicate Valid()
      reads this, wheel, wheel.slots, links, nodes, conds, waiters
    {
      && Lists() && timeoutList.items == []
      && Pool()
      && Conditions()
    }

    /** The condition queues are well linked, and each holds waits for its own condition only. */
    ghost predicate Conditions()
      reads this`conds, this`waiters, conds, waiters
    {
      && WellFormed(conds, waiters)
      && forall c <- conds, p <- c.items :: p.value.value.kind == OnCond(c)
    }

    ghost function View(): Loop<Timer, Cond>
      reads this, wheel, activeList, conds, records
    {
      Loop(WaitsOf(live, records), wheel.pending, wheel.start, activeList.items, QueuesOf(conds), registered)
    }

    /** The names of the view are the timers and conditions that are there. */
    lemma ViewNames()
      requires Valid()
      ensures View().waits.Keys == live && View().queues.Keys == conds && View().active == activeList.items
    {
      hide Lists, Conditions;
      WaitsHave(live, records);
      QueuesHave(conds);
    }

    lemma WaitInView(w: Timer)
      requires Valid() && w in live
      ensures w in View().waits && View().waits[w] == w.value.View()
    {
      hide Lists, Conditions;
      WaitsHave(live, records);
    }

    method PopActive() returns (lp: Node?<Wait>)
      requires Valid()
      modifies links, nodes
      ensures Valid()
      ensures View() == LoopModel.PopActive(old(View()))
      ensures lp == if old(View()).active == [] then null else old(View()).active[0]
    {
      hide Placed, WaitsOf, QueuesOf;
      ListsStayInPool(links, nodes);
      lp := activeList.head;
      PopHead(activeList, links, nodes);
    }

    /** Take a timer out of whatever list it is in and put it at the tail of the active list. */
    method MoveTimer(ap: Timer)
      requires Lists() && ap in nodes
      modifies wheel`pending, links, nodes
      ensures Lists()
      ensures wheel.pending == Cancel(old(wheel.pending), ap)
      ensures activeList.items == Without(old(activeList.items), ap) + [ap]
      ensures timeoutList.items == Without(old(timeoutList.items), ap)
    {
      hide Placed, WellFormed;
      ListsStayInPool(links, nodes);
      wheel.Remove(ap, links, nodes);
      ListsStayInPool(links, nodes);
      AddTail(activeList, ap, links, nodes);
    }

    method Activate(ap: Timer)
      requires Valid() && ap in nodes
      modifies wheel`pending, links, nodes
      ensures Valid()
      ensures View() == MoveToActive(old(View()), ap)
    {
      hide Placed, WellFormed, Lists, Pool, WaitsOf, QueuesOf;
      MoveTimer(ap);
    }

    /** The first half of `OnPollPreparePfn`: note the event; is it the first one of this wait? */
    method RecordEvent(w: Timer, index: nat, mask: int) returns (first: bool)
      requires Valid() && w in live
      modifies records
      ensures Valid()
      ensures first == !old(View()).waits[w].detached
      ensures var x := old(View()).waits[w];
        View() == old(View()).(waits := old(View()).waits[w := x.(raised := x.raised + 1, detached := true,
                                                                   revents := x.revents[index := mask])])
      ensures w.value.revents == old(w.value.revents)[index := mask] && w.value.raised == old(w.value.raised) + 1
      ensures forall p <- records :: p != w.value ==> p.View() == old(p.View())
    {
      hide Lists, WellFormed, WaitsOf, QueuesOf;
      WaitsHave(live, records);
      ghost var m := View().waits;
      var p := w.value;
      p.revents := p.revents[index := mask];
      p.raised := p.raised + 1;
      first := !p.detached;
      p.detached := true;
      WaitsAre(live, records, m[w := p.View()]);
    }

    /** `OnPollPreparePfn` for one event that epoll reports on `fd`. */
    method Prepare(fd: int, mask: int)
      requires Valid() && fd in registered && registered[fd].wait in live
      modifies records, wheel`pending, links, nodes
      ensures Valid() && live == old(live) && registered == old(registered)
      ensures fd in old(View()).reg && old(View()).reg[fd].wait in old(View()).waits
      ensures View() == LoopModel.Prepare(old(View()), fd, mask)
      ensures var p, i := registered[fd].wait.value, registered[fd].index;
        && p.revents == old(registered[fd].wait.value.revents)[i := mask]
        && p.raised == old(registered[fd].wait.value.raised) + 1
        && forall q <- records :: q != p ==> q.View() == old(q.View())
    {
      hide Lists, WellFormed, WaitsOf, QueuesOf;
      WaitsHave(live, records);
      var w := registered[fd].wait;
      var first := RecordEvent(w, registered[fd].index, mask);
      if first {
        Activate(w);
      }
    }

    /** The pass over the events of one `epoll_wait`. */
    method ReportEvents(events: seq<(int, int)>)
      requires Valid() && forall r <- events :: r.0 in registered && registered[r.0].wait in live
      modifies records, wheel`pending, links, nodes
      ensures Valid() && live == old(live) && registered == old(registered)
      ensures Reportable(old(View()), events)
      ensures View() == PrepareAll(old(View()), events, |events|)
    {
      hide Lists, WellFormed, WaitsOf, QueuesOf, LoopModel.Prepare;
      WaitsHave(live, records);
      ghost var v := View();
      for i := 0 to |events|
        invariant Valid() && View() == PrepareAll(v, events, i)
      {
        assert events[i] in events;
        Prepare(events[i].0, events[i].1);
      }
    }

    /** The due items, through the timeout list and marked, to the tail of the active list. */
    method TakeTimers(now: nat)
      requires Lists() && timeoutList.items == []
      requires 0 < now < LoopModel.Origin(wheel.start, now) + INT_LIMIT - 1
      modifies wheel`start, wheel`startIdx, wheel`pending, links, nodes
      ensures Lists()
      ensures activeList.items == old(activeList.items)
      ensures if now < LoopModel.Origin(old(wheel.start), now)
              then wheel.start == old(wheel.start) && wheel.pending == old(wheel.pending) && timeoutList.items == []
              else && wheel.start == now
                   && wheel.pending == Later(old(wheel.pending), now)
                   && timeoutList.items == Items(ByDeadline(Due(old(wheel.pending), now)))
    {
      hide Wheel.Valid, WellFormed;
      wheel.TakeAllTimeout(now, timeoutList, links, nodes);
    }

    method MarkTimers()
      requires Lists() && Pool()
      modifies records`timedOut
      ensures Lists() && Pool()
      ensures WaitsOf(live, records) == MarkTimedOut(old(WaitsOf(live, records)), timeoutList.items)
    {
      hide Wheel.Valid, WaitsOf, Succ, Pred, Last, WellFormed, Distinct;
      ListIsLinked(timeoutList, links, nodes);
      WaitsHave(live, records);
      ghost var m, s, k := WaitsOf(live, records), timeoutList.items, 0;
      var lp := timeoutList.head;
      while lp != null
        invariant 0 <= k <= |s| && lp == if k < |s| then s[k] else null
        invariant forall n <- live :: n.value.View() == if n in s[..k] then m[n].(timedOut := true) else m[n]
        decreases |s| - k
      {
        WalkStep(s, k);
        assert s[..k + 1] == s[..k] + [s[k]];
        lp.value.timedOut := true;
        lp := lp.next;
        k := k + 1;
      }
      assert s[..k] == s;
      WaitsAre(live, records, MarkTimedOut(m, s));
    }

    method JoinTimers()
      requires Lists()
      modifies links, nodes
      ensures Lists() && timeoutList.items == []
      ensures activeList.items == old(activeList.items) + old(timeoutList.items)
    {
      hide Placed, WellFormed;
      ListsStayInPool(links, nodes);
      Join(activeList, timeoutList, links, nodes);
    }

    /** The timeout part of one pass of `co_eventloop`. */
    method TakeTimeouts(now: nat)
      requires Valid()
      requires 0 < now < LoopModel.Origin(wheel.start, now) + INT_LIMIT - 1
      modifies records`timedOut, wheel`start, wheel`startIdx, wheel`pending, links, nodes
      ensures Valid()
      ensures View() == LoopModel.TakeTimeouts(old(View()), now)
    {
      hide Lists, WellFormed, WaitsOf, QueuesOf, Pool, Conditions, MarkTimedOut, Items, ByDeadline, Due, Later;
      ghost var v := View();
      NothingToMark(v.waits, v.active);
      TakeTimers(now);
      ghost var due := timeoutList.items;
      MarkTimers();
      assert WaitsOf(live, records) == MarkTimedOut(v.waits, due);
      JoinTimers();
      assert activeList.items == v.active + due;
      assert QueuesOf(conds) == v.queues;
    }

    /** A pass of `co_eventloop` up to its drain: the events of `epoll_wait`, then what is due by the clock. */
    method Collect(events: seq<(int, int)>, now: nat)
      requires Valid() && forall r <- events :: r.0 in registered && registered[r.0].wait in live
      requires 0 < now < LoopModel.Origin(wheel.start, now) + INT_LIMIT - 1
      modifies records, wheel`start, wheel`startIdx, wheel`pending, links, nodes
      ensures Valid() && Reportable(old(View()), events)
      ensures View() == LoopModel.TakeTimeouts(PrepareAll(old(View()), events, |events|), now)
    {
      hide Valid, WaitsOf, QueuesOf, PrepareAll, LoopModel.TakeTimeouts;
      ReportEvents(events);
      TakeTimeouts(now);
    }

    /** Register descriptors with epoll, which refuses what it already has or what `accepted` denies. */
    method RegisterAll(w: Timer, fds: seq<int>, accepted: seq<bool>)
      requires Valid() && |accepted| == |fds|
      modifies this`registered
      ensures Valid()
      ensures View() == old(View()).(reg := Register(old(View()).reg, w, fds, accepted, |fds|))
    {
      for i := 0 to |fds|
        invariant registered == Register(old(registered), w, fds, accepted, i)
      {
        if fds[i] > -1 {
          if accepted[i] && fds[i] !in registered {
            registered := registered[fds[i] := Registration(w, i)];
          }
        }
      }
    }

    /** Deregister the descriptors of a finished wait, whoever registered them. */
    method DeregisterAll(fds: seq<int>)
      requires Valid()
      modifies this`registered
      ensures Valid()
      ensures View() == old(View()).(reg := old(View()).reg - (set fd <- fds | fd > -1))
    {
      hide Lists, WaitsOf, QueuesOf;
      for i := 0 to |fds|
        invariant registered == old(registered) - (set fd <- fds[..i] | fd > -1)
      {
        assert fds[..i + 1] == fds[..i] + [fds[i]];
        if fds[i] > -1 {
          registered := registered - {fds[i]};
        }
      }
      assert fds[..|fds|] == fds;
    }

    /** A descriptor is closed, which takes it out of epoll. */
    method Deregister(fd: int)
      requires Valid()
      modifies this`registered
      ensures Valid()
      ensures View() == old(View()).(reg := old(View()).reg - {fd})
    {
      hide Lists, WaitsOf, QueuesOf;
      registered := registered - {fd};
    }

    /** The coroutine of a timer suspends: the wait is now live. */
    method Adopt(w: Timer)
      requires Valid() && w in nodes
      modifies this`live
      ensures Valid()
      ensures View() == old(View()).(waits := old(View()).waits[w := w.value.View()])
    {
      hide Lists, WaitsOf, QueuesOf;
      WaitsHave(live, records);
      ghost var m := View().waits;
      live := live + {w};
      WaitsAre(live, records, m[w := w.value.View()]);
    }

    /** The memory of a finished wait is freed. */
    method Free(w: Timer)
      requires Valid()
      modifies this`live
      ensures Valid()
      ensures View() == old(View()).(waits := old(View()).waits - {w})
    {
      hide Lists, WaitsOf, QueuesOf;
      WaitsHave(live, records);
      ghost var m := View().waits;
      live := live - {w};
      WaitsAre(live, records, m - {w});
    }

    /** A new timer enters the pool; nothing else changes. */
    method NewTimer(owner: nat, kind: Kind<Cond>) returns (w: Timer)
      requires Valid()
      modifies this`nodes, this`records
      ensures Valid() && View() == old(View())
      ensures fresh(w) && fresh(w.value) && nodes == old(nodes) + {w} && records == old(records) + {w.value}
      ensures w.link == null && w.value.View() == Waiting(owner, kind, 0, false, false, map[])
      ensures forall p <- waiters :: p.value != w
    {
      hide WaitsOf, QueuesOf, WellFormed, Wheel.Valid;
      WaitsHave(live, records);
      ghost var m := View().waits;
      var wait := new Wait(owner, kind);
      w := new Node(wait);
      NodeJoinsPool(links, nodes, w);
      nodes := nodes + {w};
      records := records + {wait};
      WaitsAre(live, records, m);
    }

    /** `AddTimeout` for a timer that is in no list yet. */
    method StartTimer(w: Timer, expire: nat, now: nat) returns (ok: bool)
      requires Lists() && w in nodes && w.link == null && w.value in records
      requires now > 0 && expire < LoopModel.Origin(wheel.start, now) + INT_LIMIT
      modifies w.value`expireTime, wheel`start, wheel`startIdx, wheel`pending, links, nodes
      ensures Lists()
      ensures activeList.items == old(activeList.items) && timeoutList.items == old(timeoutList.items)
      ensures wheel.start == LoopModel.Origin(old(wheel.start), now)
      ensures ok == Accepts(old(wheel.start), now, expire)
      ensures wheel.pending == if ok then old(wheel.pending) + [Entry(w, expire)] else old(wheel.pending)
    {
      hide Placed, WellFormed;
      w.value.expireTime := expire;
      var ret := wheel.AddTimeout(w, now, links, nodes);
      ok := ret.Added?;
    }

    method SetTimeout(w: Timer, expire: nat, now: nat) returns (ok: bool)
      requires Valid() && w in nodes && w.link == null
      requires now > 0 && expire < LoopModel.Origin(wheel.start, now) + INT_LIMIT
      modifies w.value`expireTime, wheel`start, wheel`startIdx, wheel`pending, links, nodes
      ensures Valid() && w.value.View() == old(w.value.View())
      ensures ok == Accepts(old(View()).start, now, expire)
      ensures View() == old(View()).(start := LoopModel.Origin(old(View()).start, now),
        pending := if ok then old(View()).pending + [Entry(w, expire)] else old(View()).pending)
    {
      hide Lists, WellFormed, WaitsOf, QueuesOf;
      WaitsHave(live, records);
      ghost var m := View().waits;
      ok := StartTimer(w, expire, now);
      WaitsAre(live, records, m);
    }

    /** The first half of `co_poll_inner`, as a step of the model. */
    method SuspendOnFds(owner: nat, fds: seq<int>, accepted: seq<bool>, denied: bool, hasFallback: bool, timeout: int,
                        now: nat)
      returns (r: PollStart, w: Timer)
      requires Valid() && |accepted| == |fds| && now > 0
      requires 0 <= now + Clamp(timeout) < LoopModel.Origin(wheel.start, now) + INT_LIMIT
      modifies this`registered, this`live, this`nodes, this`records
      modifies wheel`start, wheel`startIdx, wheel`pending, links, nodes
      ensures Valid() && fresh(w)
      ensures r.FellBack? <==>
        (|fds| == 1 && fds[0] > -1 && denied && hasFallback && !(accepted[0] && fds[0] !in old(registered)))
      ensures r.FellBack? ==> View() == old(View())
      ensures !r.FellBack? ==> View() == LoopModel.BeginPoll(old(View()), w, owner, fds, accepted, timeout, now)
      ensures !r.FellBack? ==> (r.Suspended? <==> Accepts(old(View()).start, now, now + Clamp(timeout)))
    {
      hide Valid, WaitsOf, QueuesOf, Register, LoopModel.Origin, Accepts;
      w := NewTimer(owner, OnFds(fds));
      if |fds| == 1 && fds[0] > -1 && !(accepted[0] && fds[0] !in registered) && denied && hasFallback {
        return FellBack, w;
      }
      RegisterAll(w, fds, accepted);
      var ok := SetTimeout(w, now + Clamp(timeout), now);
      if !ok {
        return Rejected, w;
      }
      Adopt(w);
      return Suspended, w;
    }

    /** The first half of `co_poll_inner`, up to the yield. `denied` says that the kernel answers a
        refused registration with EPERM, `hasFallback` that the caller passed the system's `poll`. */
    method BeginPoll(owner: nat, fds: seq<int>, accepted: seq<bool>, denied: bool, hasFallback: bool, timeout: int, now: nat)
      returns (r: PollStart, w: Timer)
      requires Valid() && |accepted| == |fds| && now > 0 && now + timeout >= 0
      requires now + (if timeout > 40_000 then 40_000 else timeout) < LoopModel.Origin(wheel.start, now) + INT_LIMIT
      modifies this`registered, this`live, this`nodes, this`records
      modifies wheel`start, wheel`startIdx, wheel`pending, links, nodes
      ensures Valid() && fresh(w) && now + Clamp(timeout) >= 0
      ensures r.FellBack? <==>
        (|fds| == 1 && fds[0] > -1 && denied && hasFallback && !(accepted[0] && fds[0] !in old(registered)))
      ensures r.FellBack? ==> View() == old(View())
      ensures !r.FellBack? ==> View() == LoopModel.BeginPoll(old(View()), w, owner, fds, accepted, timeout, now)
      ensures var start, due := if old(wheel.start) == 0 then now else old(wheel.start),
                                now + if timeout > 40_000 then 40_000 else timeout;
        && (r.Suspended? <==> !r.FellBack? && start <= now <= due < start + 60_000)
        && wheel.pending == if r.Suspended? then old(wheel.pending) + [Entry(w, due)] else old(wheel.pending)
      ensures forall fd <- old(registered) :: fd in registered && registered[fd] == old(registered)[fd]
      ensures forall fd <- registered ::
        || fd in old(registered)
        || (fd > -1 && registered[fd].wait == w && registered[fd].index < |fds| && fds[registered[fd].index] == fd)
      ensures !r.FellBack? ==> forall k :: 0 <= k < |fds| && fds[k] > -1 && accepted[k] ==> fds[k] in registered
    {
      hide Valid, WaitsOf, QueuesOf, LoopModel.Origin, Accepts, Clamp, LoopModel.BeginPoll;
      ghost var v := View();
      PollIsAccepted(wheel.start, now, timeout);
      r, w := SuspendOnFds(owner, fds, accepted, denied, hasFallback, timeout, now);
      BeginPollDoes(v, w, owner, fds, accepted, timeout, now);
    }

    method CancelTimer(w: Timer)
      requires Lists() && w in nodes
      modifies wheel`pending, links, nodes
      ensures Lists()
      ensures wheel.pending == Cancel(old(wheel.pending), w)
      ensures activeList.items == Without(old(activeList.items), w)
      ensures timeoutList.items == Without(old(timeoutList.items), w)
    {
      hide Placed, WellFormed;
      ListsStayInPool(links, nodes);
      wheel.Remove(w, links, nodes);
    }

    method LeaveLists(w: Timer)
      requires Valid() && w in nodes
      modifies wheel`pending, links, nodes
      ensures Valid()
      ensures View() == old(View()).(pending := Cancel(old(View()).pending, w), active := Without(old(View()).active, w))
    {
      hide Lists, WellFormed, WaitsOf, QueuesOf, Pool;
      CancelTimer(w);
    }

    /** The second half of `co_poll_inner`: its result is the number of events prepared. */
    method EndPoll(w: Timer) returns (raised: nat, revents: map<int, int>)
      requires Valid() && w in live && w.value.kind.OnFds?
      modifies this`registered, this`live, wheel`pending, links, nodes
      ensures Valid()
      ensures w in old(View()).waits && old(View()).waits[w].kind.OnFds?
      ensures View() == LoopModel.EndPoll(old(View()), w)
      ensures raised == old(View()).waits[w].raised && revents == old(View()).waits[w].revents
      ensures forall fd <- old(registered) :: fd in registered <==> !(fd > -1 && fd in w.value.kind.fds)
      ensures forall fd <- registered :: fd in old(registered) && registered[fd] == old(registered)[fd]
    {
      hide Lists, WellFormed, WaitsOf, QueuesOf;
      WaitsHave(live, records);
      raised, revents := w.value.raised, w.value.revents;
      LeaveLists(w);
      DeregisterAll(w.value.kind.fds);
      Free(w);
    }

    method AddQueue() returns (c: Cond)
      requires Conditions()
      modifies this`conds
      ensures Conditions() && fresh(c) && conds == old(conds) + {c}
      ensures QueuesOf(conds) == old(QueuesOf(conds))[c := []]
    {
      hide WellFormed, QueuesOf;
      QueuesHave(conds);
      ghost var m := QueuesOf(conds);
      c := new Link();
      ListJoinsFamily(conds, waiters, c);
      conds := conds + {c};
      QueuesAre(conds, m[c := []]);
    }

    /** `co_cond_alloc`. */
    method NewCond() returns (c: Cond)
      requires Valid()
      modifies this`conds
      ensures Valid() && fresh(c) && c in conds
      ensures View() == old(View()).(queues := old(View()).queues[c := []])
    {
      hide Lists, Pool, Conditions, WaitsOf, QueuesOf;
      c := AddQueue();
    }

    method PushWaiter(c: Cond, psi: Waiter)
      requires Conditions() && c in conds && psi.link == null && psi in waiters && psi.value.value.kind == OnCond(c)
      modifies conds, waiters
      ensures Conditions()
      ensures c in old(QueuesOf(conds))
      ensures QueuesOf(conds) == old(QueuesOf(conds))[c := old(QueuesOf(conds))[c] + [psi.value]]
    {
      hide QueuesOf, WellFormed;
      QueuesHave(conds);
      ghost var m := QueuesOf(conds);
      TimersAppend(c.items, psi);
      ListsStayInPool(conds, waiters);
      AddTail(c, psi, conds, waiters);
      QueuesAre(conds, m[c := m[c] + [psi.value]]);
    }

    method Enqueue(c: Cond, psi: Waiter)
      requires Valid() && c in conds && psi.link == null && psi in waiters && psi.value.value.kind == OnCond(c)
      modifies conds, waiters
      ensures Valid()
      ensures c in old(View()).queues
      ensures View() == old(View()).(queues := old(View()).queues[c := old(View()).queues[c] + [psi.value]])
    {
      hide Lists, Pool, Conditions, WaitsOf, QueuesOf;
      PushWaiter(c, psi);
    }

    /** `co_cond_pop`. */
    method PopWaiter(c: Cond) returns (sp: Node?<Timer>)
      requires Conditions() && c in conds
      modifies conds, waiters
      ensures Conditions()
      ensures c in old(QueuesOf(conds))
      ensures var q := old(QueuesOf(conds))[c];
        if q == [] then sp == null && QueuesOf(conds) == old(QueuesOf(conds))
        else sp != null && sp in waiters && sp.value == q[0] && QueuesOf(conds) == old(QueuesOf(conds))[c := q[1..]]
    {
      hide QueuesOf, WellFormed;
      QueuesHave(conds);
      ghost var m := QueuesOf(conds);
      ListsStayInPool(conds, waiters);
      HeadIsFirst(c, conds, waiters);
      sp := c.head;
      if sp != null {
        PopHead(c, conds, waiters);
        QueuesAre(conds, m[c := m[c][1..]]);
      }
    }

    method Dequeue(c: Cond) returns (sp: Node?<Timer>)
      requires Valid() && c in conds
      modifies conds, waiters
      ensures Valid()
      ensures c in old(View()).queues
      ensures var q := old(View()).queues[c];
        if q == [] then sp == null && View() == old(View())
        else sp != null && sp.value == q[0] && sp.value in nodes
             && View() == old(View()).(queues := old(View()).queues[c := q[1..]])
    {
      hide Lists, Conditions, WaitsOf, QueuesOf;
      sp := PopWaiter(c);
    }

    method RemoveWaiter(c: Cond, psi: Waiter)
      requires Conditions() && c in conds && psi in waiters && psi.value.value.kind == OnCond(c)
      requires forall p <- waiters, q <- waiters :: p != q ==> p.value != q.value
      modifies conds, waiters
      ensures Conditions()
      ensures c in old(QueuesOf(conds))
      ensures QueuesOf(conds) == old(QueuesOf(conds))[c := Without(old(QueuesOf(conds))[c], psi.value)]
    {
      hide QueuesOf, WellFormed;
      QueuesHave(conds);
      ghost var m := QueuesOf(conds);
      ListsStayInPool(conds, waiters);
      forall d <- conds
        ensures Timers(Without(d.items, psi)) == if d == c then Without(m[c], psi.value) else m[d]
      {
        if d == c { TimersWithout(d.items, psi); }
      }
      RemoveFromLink(psi, conds, waiters);
      QueuesAre(conds, m[c := Without(m[c], psi.value)]);
    }

    method LeaveQueue(c: Cond, psi: Waiter)
      requires Valid() && c in conds && psi in waiters && psi.value.value.kind == OnCond(c)
      modifies conds, waiters
      ensures Valid()
      ensures c in old(View()).queues
      ensures View() == old(View()).(queues := old(View()).queues[c := Without(old(View()).queues[c], psi.value)])
    {
      hide Lists, Conditions, WaitsOf, QueuesOf;
      RemoveWaiter(c, psi);
    }

    /** `co_cond_signal`: the oldest waiter, wherever its timer is by now, becomes the last active item. */
    method CondSignal(c: Cond)
      requires Valid() && c in conds
      modifies wheel`pending, links, nodes, conds, waiters
      ensures Valid() && c in old(View()).queues
      ensures View() == Signal(old(View()), c)
    {
      hide Valid, WaitsOf, QueuesOf;
      var sp := Dequeue(c);
      if sp == null {
        return;
      }
      Activate(sp.value);
    }

    /** `co_cond_broadcast`: one waiter after the other, until the queue is empty. */
    method CondBroadcast(c: Cond)
      requires Valid() && c in conds
      modifies wheel`pending, links, nodes, conds, waiters
      ensures Valid() && c in old(View()).queues
      ensures View() == Broadcast(old(View()), c)
    {
      hide Valid, WaitsOf, QueuesOf, MoveToActive;
      KnownCond(c);
      ghost var v := View();
      while true
        invariant Valid() && c in View().queues
        invariant Broadcast(View(), c) == Broadcast(v, c)
        decreases |View().queues[c]|
      {
        var sp := Dequeue(c);
        if sp == null {
          return;
        }
        Activate(sp.value);
      }
    }

    lemma KnownCond(c: Cond)
      requires Valid() && c in conds
      ensures c in View().queues
    {
      QueuesHave(conds);
    }

    method NewWaiter(w: Timer) returns (psi: Waiter)
      requires Valid() && w in nodes && forall p <- waiters :: p.value != w
      modifies this`waiters
      ensures Valid() && View() == old(View())
      ensures fresh(psi) && psi.value == w && psi.link == null && waiters == old(waiters) + {psi}
    {
      hide Lists, WaitsOf, QueuesOf, WellFormed;
      psi := new Node(w);
      NodeJoinsPool(conds, waiters, psi);
      waiters := waiters + {psi};
    }

    method EnterQueue(c: Cond, w: Timer, psi: Waiter)
      requires Valid() && c in conds && w in nodes && psi.value == w
      requires psi.link == null && psi in waiters && w.value.kind == OnCond(c)
      modifies this`live, conds, waiters
      ensures Valid() && c in old(View()).queues
      ensures View() == old(View()).(queues := old(View()).queues[c := old(View()).queues[c] + [w]],
                                     waits := old(View()).waits[w := old(w.value.View())])
    {
      hide Valid, WaitsOf, QueuesOf;
      Enqueue(c, psi);
      Adopt(w);
    }

    /** The first half of `co_cond_timedwait`, as a step of the model. */
    method SuspendOnCond(owner: nat, c: Cond, ms: int, now: nat) returns (ok: bool, w: Timer, psi: Waiter)
      requires Valid() && c in conds
      requires now > 0 && (ms > 0 ==> now + ms < LoopModel.Origin(wheel.start, now) + INT_LIMIT)
      modifies this`live, this`nodes, this`records, this`waiters
      modifies wheel`start, wheel`startIdx, wheel`pending, links, nodes, conds, waiters
      ensures Valid() && fresh(w) && fresh(psi) && psi.value == w && psi in waiters
      ensures c in old(View()).queues
      ensures View() == LoopModel.BeginCond(old(View()), w, owner, c, ms, now)
      ensures ok == (ms <= 0 || Accepts(old(View()).start, now, now + ms))
    {
      hide Valid, WaitsOf, QueuesOf, LoopModel.Origin, Accepts;
      KnownCond(c);
      w := NewTimer(owner, OnCond(c));
      psi := NewWaiter(w);
      if ms > 0 {
        ok := SetTimeout(w, now + ms, now);
        if !ok {
          return;
        }
      }
      EnterQueue(c, w, psi);
      ok := true;
    }

    /** The first half of `co_cond_timedwait`, up to the yield. */
    method BeginCond(owner: nat, c: Cond, ms: int, now: nat) returns (ok: bool, w: Timer, psi: Waiter)
      requires Valid() && c in conds
      requires now > 0 && (ms > 0 ==> now + ms < LoopModel.Origin(wheel.start, now) + INT_LIMIT)
      modifies this`live, this`nodes, this`records, this`waiters
      modifies wheel`start, wheel`startIdx, wheel`pending, links, nodes, conds, waiters
      ensures Valid() && fresh(w) && fresh(psi) && psi.value == w && psi in waiters
      ensures c in old(View()).queues
      ensures View() == LoopModel.BeginCond(old(View()), w, owner, c, ms, now)
      ensures var start := if old(wheel.start) == 0 then now else old(wheel.start);
        && (ok <==> ms <= 0 || start <= now <= now + ms < start + 60_000)
        && wheel.pending == if ok && ms > 0 then old(wheel.pending) + [Entry(w, now + ms)] else old(wheel.pending)
      ensures View().queues == if ok then old(View()).queues[c := old(View()).queues[c] + [w]] else old(View()).queues
    {
      hide Valid, WaitsOf, QueuesOf, LoopModel.BeginCond;
      ghost var v := View();
      ok, w, psi := SuspendOnCond(owner, c, ms, now);
      BeginCondDoes(v, w, owner, c, ms, now);
    }

    /** The second half of `co_cond_timedwait`: it leaves the queue, and its timer where it is. */
    method EndCond(psi: Waiter)
      requires Valid() && psi in waiters && psi.value in live
      requires psi.value.value.kind.OnCond? && psi.value.value.kind.cond in conds
      modifies this`live, conds, waiters
      ensures Valid()
      ensures var v, w := old(View()), psi.value;
        && w in v.waits && v.waits[w].kind.OnCond? && v.waits[w].kind.cond in v.queues
        && View() == LoopModel.EndCond(v, w)
    {
      hide Conditions, Lists, WaitsOf, QueuesOf;
      WaitsHave(live, records);
      LeaveQueue(psi.value.value.kind.cond, psi);
      Free(psi.value);
    }
  }
}
