/**
  One thread: the scheduler in memory and a run of it side by side. Every operation keeps the scheduler equal
  to the state of the run, so what holds in every state of a run holds in memory.
*/
module Threads {
  import Coroutines
  import opened Deadlines
  import opened EventLoop
  import opened IntrusiveLists
  import opened LoopModel
  import opened Scheduler
  import opened TimingWheel
  import opened Waits

  class Thread {
    const epoll: CoEpoll
    ghost var s: State<Timer, Cond>

    /** `co_init_curr_thread_env`: the main coroutine runs, and nothing waits. */
    constructor (tick: nat, main: nat, loopCo: nat)
      ensures Valid() && Initial(s) && s.stack == [main] && s.loopCo == loopCo
    {
      hide Inv, CoEpoll.Valid, CoEpoll.View;
      epoll := new CoEpoll(tick);
      s := State(Loop(map[], [], tick, [], map[], map[]), [main], {}, loopCo, Outside, {}, multiset{}, []);
      new;
      InitialKeeps(s);
    }

    ghost predicate Valid()
      reads this, epoll, epoll.wheel, epoll.wheel.slots, epoll.links, epoll.nodes, epoll.conds, epoll.waiters
      reads epoll.activeList, epoll.records
    {
      epoll.Valid() && Inv(s) && s.loop == epoll.View()
    }

    /** No freed wait is named anywhere: not by a registration, the wheel, the active list or a queue. */
    lemma NothingDangles()
      requires Valid()
      ensures forall fd <- epoll.registered :: epoll.registered[fd].wait in epoll.live
      ensures forall n <- epoll.activeList.items :: n in epoll.live
      ensures forall n <- Items(epoll.wheel.pending) :: n in epoll.live
      ensures forall c <- epoll.conds :: forall n <- Timers(c.items) :: n in epoll.live
    {
      hide Inv, CoEpoll.Valid, WaitsOf, QueuesOf;
      InvNames(s);
      epoll.ViewNames();
      QueuesHave(epoll.conds);
      forall c <- epoll.conds
        ensures forall n <- Timers(c.items) :: n in epoll.live
      {
        assert s.loop.queues[c] == Timers(c.items);
      }
    }

    /** What epoll reports on a descriptor in a pass: its registration names a wait that is still there. */
    method ReportEvent(fd: int, mask: int)
      requires Valid() && LoopRuns(s) && s.phase.Collecting? && fd in epoll.registered && fd !in s.phase.seen
      modifies this`s, epoll.records, epoll.wheel`pending, epoll.links, epoll.nodes
      ensures Valid() && Enabled(old(s), Report(fd, mask)) && s == Apply(old(s), Report(fd, mask))
    {
      hide Inv, CoEpoll.Valid, WaitsOf, QueuesOf, LoopModel.Prepare;
      InvNames(s);
      epoll.ViewNames();
      StepKeeps(s, Report(fd, mask));
      epoll.Prepare(fd, mask);
      s := Apply(s, Report(fd, mask));
    }

    /** The timeout part of a pass. */
    method ExpireTimers(now: nat)
      requires Valid() && LoopRuns(s) && s.phase.Collecting?
      requires 0 < now < LoopModel.Origin(epoll.wheel.start, now) + INT_LIMIT - 1
      modifies this`s, epoll.records`timedOut, epoll.links, epoll.nodes
      modifies epoll.wheel`start, epoll.wheel`startIdx, epoll.wheel`pending
      ensures Valid() && Enabled(old(s), Expire(now)) && s == Apply(old(s), Expire(now))
    {
      hide Inv, CoEpoll.Valid, WaitsOf, QueuesOf, LoopModel.TakeTimeouts, Activations;
      StepKeeps(s, Expire(now));
      epoll.TakeTimeouts(now);
      s := Apply(s, Expire(now));
    }

    method StartPass()
      requires Valid() && LoopRuns(s) && s.phase.Outside?
      modifies this`s
      ensures Valid() && Enabled(old(s), Step.StartPass) && s == Apply(old(s), Step.StartPass)
    {
      hide Inv, CoEpoll.Valid;
      StepKeeps(s, Step.StartPass);
      s := Apply(s, Step.StartPass);
    }

    method EndPass()
      requires Valid() && LoopRuns(s) && s.phase.Draining? && epoll.activeList.items == []
      modifies this`s
      ensures Valid() && Enabled(old(s), Step.EndPass) && s == Apply(old(s), Step.EndPass)
    {
      hide Inv, CoEpoll.Valid, WaitsOf, QueuesOf;
      StepKeeps(s, Step.EndPass);
      s := Apply(s, Step.EndPass);
    }

    /** A coroutine has control back from its wait. Its waiter, if the wait is on a condition, is `psi`, which
        the coroutine keeps on its stack. */
    method FinishWait(w: Timer, psi: Node?<Timer>) returns (result: nat)
      requires epoll.Valid() && w in epoll.View().waits
      requires var k := epoll.View().waits[w].kind;
        k.OnCond? ==> k.cond in epoll.View().queues && psi != null && psi in epoll.waiters && psi.value == w
      modifies epoll`registered, epoll`live, epoll.wheel`pending
      modifies epoll.links, epoll.nodes, epoll.conds, epoll.waiters
      ensures epoll.Valid() && epoll.View() == EndWait(old(epoll.View()), w)
      ensures result == old(epoll.View()).waits[w].raised
    {
      hide CoEpoll.Valid, CoEpoll.View, LoopModel.EndPoll, LoopModel.EndCond;
      epoll.ViewNames();
      epoll.WaitInView(w);
      if w.value.kind.OnFds? {
        var revents;
        result, revents := epoll.EndPoll(w);
      } else {
        result := w.value.raised;
        epoll.EndCond(psi);
      }
    }

    /** One round of the drain: the first active item is popped and its coroutine resumed. */
    method DrainOne(psi: Node?<Timer>) returns (result: nat)
      requires Valid() && LoopRuns(s) && s.phase.Draining? && |s.stack| < Coroutines.MAX_DEPTH
      requires epoll.activeList.items != []
      requires var w := epoll.activeList.items[0];
        w.value.kind.OnCond? ==> psi != null && psi in epoll.waiters && psi.value == w
      modifies this`s, epoll`registered, epoll`live, epoll.wheel`pending
      modifies epoll.links, epoll.nodes, epoll.conds, epoll.waiters
      ensures Valid() && Enabled(old(s), Drain) && s == Apply(old(s), Drain)
      ensures s.log == old(s.log) + [Woken(old(s.loop.active[0]), result)]
    {
      hide Inv, CoEpoll.Valid, CoEpoll.View, EndWait, Enabled, Apply;
      epoll.ViewNames();
      DrainMeans(s);
      epoll.WaitInView(s.loop.active[0]);
      var lp := epoll.PopActive();
      result := FinishWait(lp, psi);
      s := Apply(s, Drain);
    }

    /** `co_resume` by a coroutine other than the loop's, of one that is in a wait. */
    method ResumeWaiter(w: Timer, psi: Node?<Timer>) returns (result: nat)
      requires Valid() && w in epoll.live && Enabled(s, Resume(w.value.owner))
      requires w.value.kind.OnCond? ==> psi != null && psi in epoll.waiters && psi.value == w
      modifies this`s, epoll`registered, epoll`live, epoll.wheel`pending
      modifies epoll.links, epoll.nodes, epoll.conds, epoll.waiters
      ensures Valid() && Enabled(old(s), Resume(w.value.owner)) && s == Apply(old(s), Resume(w.value.owner))
      ensures s.log == old(s.log) + [Interrupted(w, result)]
    {
      hide Inv, CoEpoll.Valid, CoEpoll.View, EndWait, Enabled, Apply;
      epoll.WaitInView(w);
      ghost var co := w.value.owner;
      ResumeMeans(s, co, w);
      result := FinishWait(w, psi);
      s := Apply(s, Resume(co));
    }

    /** `co_poll_inner` up to its yield. A poll that is refused must have had nothing to register. */
    method Poll(self: nat, fds: seq<int>, accepted: seq<bool>, denied: bool, hasFallback: bool, timeout: int, now: nat)
      returns (r: PollStart, w: Timer)
      requires Valid() && UserRuns(s) && |s.stack| > 1 && self == Top(s) && |accepted| == |fds|
      requires now > 0 && now + timeout >= 0
      requires now + (if timeout > 40_000 then 40_000 else timeout) < LoopModel.Origin(epoll.wheel.start, now) + INT_LIMIT
      requires Accepts(epoll.wheel.start, now, now + Clamp(timeout)) || NothingToRegister(epoll.registered, fds, accepted)
      modifies this`s, epoll`registered, epoll`live, epoll`nodes, epoll`records
      modifies epoll.wheel`start, epoll.wheel`startIdx, epoll.wheel`pending, epoll.links, epoll.nodes
      ensures Valid() && fresh(w)
      ensures r.FellBack? ==> s == old(s)
      ensures !r.FellBack? ==>
        var step := Step.Poll(w, fds, accepted, timeout, now); Enabled(old(s), step) && s == Apply(old(s), step)
      ensures r.Suspended? ==> s.log == old(s.log) + [Began(w, true)]
      ensures r.Suspended? ==>
        s.loop.pending == old(s.loop.pending) + [Entry(w, now + if timeout > 40_000 then 40_000 else timeout)]
      ensures forall fd <- old(s.loop.reg) :: fd in s.loop.reg && s.loop.reg[fd] == old(s.loop.reg)[fd]
    {
      hide Inv, CoEpoll.Valid, WaitsOf, QueuesOf, NothingToRegister, Accepts, LoopModel.Origin, LoopModel.BeginPoll;
      ghost var was := s;
      PollIsAccepted(epoll.wheel.start, now, timeout);
      r, w := epoll.BeginPoll(self, fds, accepted, denied, hasFallback, timeout, now);
      if r.FellBack? {
        return;
      }
      assert w !in was.begun;
      StepKeeps(was, Step.Poll(w, fds, accepted, timeout, now));
      s := Apply(was, Step.Poll(w, fds, accepted, timeout, now));
    }

    /** `co_cond_timedwait` up to its yield. */
    method CondWait(self: nat, c: Cond, ms: int, now: nat) returns (ok: bool, w: Timer, psi: Waiter)
      requires Valid() && UserRuns(s) && |s.stack| > 1 && self == Top(s) && c in epoll.conds
      requires now > 0 && (ms > 0 ==> now + ms < LoopModel.Origin(epoll.wheel.start, now) + INT_LIMIT)
      modifies this`s, epoll`live, epoll`nodes, epoll`records, epoll`waiters
      modifies epoll.wheel`start, epoll.wheel`startIdx, epoll.wheel`pending
      modifies epoll.links, epoll.nodes, epoll.conds, epoll.waiters
      ensures Valid() && fresh(w) && psi in epoll.waiters && psi.value == w
      ensures var step := Step.CondWait(w, c, ms, now); Enabled(old(s), step) && s == Apply(old(s), step)
      ensures ok ==> s.log == old(s.log) + [Began(w, false)]
    {
      hide Inv, CoEpoll.Valid, WaitsOf, QueuesOf, LoopModel.BeginCond, Enabled, Apply;
      epoll.ViewNames();
      ghost var was := s;
      ok, w, psi := epoll.BeginCond(self, c, ms, now);
      assert w !in was.begun;
      CondWaitMeans(was, w, c, ms, now);
      s := Apply(was, Step.CondWait(w, c, ms, now));
    }

    method NewCondition() returns (c: Cond)
      requires Valid() && UserRuns(s)
      modifies this`s, epoll`conds
      ensures Valid() && Enabled(old(s), NewCond(c)) && s == Apply(old(s), NewCond(c))
    {
      hide Inv, CoEpoll.Valid, WaitsOf, QueuesOf;
      epoll.ViewNames();
      ghost var was := s;
      c := epoll.NewCond();
      StepKeeps(was, NewCond(c));
      s := Apply(was, NewCond(c));
    }

    /** `co_cond_signal`. */
    method Signal(c: Cond)
      requires Valid() && UserRuns(s) && c in epoll.conds
      modifies this`s, epoll.wheel`pending, epoll.links, epoll.nodes, epoll.conds, epoll.waiters
      ensures Valid() && Enabled(old(s), SignalOne(c)) && s == Apply(old(s), SignalOne(c))
    {
      hide Inv, CoEpoll.Valid, WaitsOf, QueuesOf, MoveToActive;
      epoll.ViewNames();
      StepKeeps(s, SignalOne(c));
      epoll.CondSignal(c);
      s := Apply(s, SignalOne(c));
    }

    /** `co_cond_broadcast`. */
    method Broadcast(c: Cond)
      requires Valid() && UserRuns(s) && c in epoll.conds
      modifies this`s, epoll.wheel`pending, epoll.links, epoll.nodes, epoll.conds, epoll.waiters
      ensures Valid() && Enabled(old(s), SignalAll(c)) && s == Apply(old(s), SignalAll(c))
    {
      hide Inv, CoEpoll.Valid, WaitsOf, QueuesOf, LoopModel.Broadcast, BroadcastStep;
      epoll.ViewNames();
      StepKeeps(s, SignalAll(c));
      BroadcastStepIsBroadcast(s, c);
      epoll.CondBroadcast(c);
      s := Apply(s, SignalAll(c));
    }

    /** A switch that concerns no wait: a yield, an end, or the resume of a coroutine that waits for nothing. */
    method Switch(ghost step: Step<Timer, Cond>)
      requires Valid() && Enabled(s, step)
      requires step.Yield? || step.Finish? || (step.Resume? && forall w <- s.loop.waits :: !Owns(s, step.co, w))
      modifies this`s
      ensures Valid() && Enabled(old(s), step) && s == Apply(old(s), step)
    {
      hide Inv, CoEpoll.Valid, CoEpoll.View;
      StepKeeps(s, step);
      s := Apply(s, step);
    }

    method Close(fd: int)
      requires Valid() && UserRuns(s)
      modifies this`s, epoll`registered
      ensures Valid() && Enabled(old(s), CloseFd(fd)) && s == Apply(old(s), CloseFd(fd))
    {
      hide Inv, CoEpoll.Valid, WaitsOf, QueuesOf;
      StepKeeps(s, CloseFd(fd));
      epoll.Deregister(fd);
      s := Apply(s, CloseFd(fd));
    }
  }
}
