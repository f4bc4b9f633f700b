/**
  Whole runs of the scheduler: coroutines that resume one another, wait on descriptors, deadlines and
  conditions, and one event loop that wakes them. Every step keeps a log, and what the log can say
  about one wait is the subject of the theorems.
*/
module Scheduler {
  import opened Seqs
  import opened Deadlines
  import opened LoopModel
  import Bytes
  import Coroutines

  datatype Cause = Ready | Timeout | Signalled

  /** Woken: the loop popped the wait and resumed its coroutine, which returns `result`.
      Interrupted: another coroutine resumed it directly. */
  datatype Event<W> =
    | Began(w: W, poll: bool)
    | Activated(w: W, cause: Cause)
    | Woken(w: W, result: nat)
    | Interrupted(w: W, result: nat)

  datatype Phase<W> = Outside | Collecting(seen: set<int>) | Draining(owed: set<W>)

  /** `begun` has every wait there ever was, `reported` one element for each event that epoll reported. */
  datatype State<W, C> = State(
    loop: Loop<W, C>,
    stack: seq<nat>,
    ended: set<nat>,
    loopCo: nat,
    phase: Phase<W>,
    begun: set<W>,
    reported: multiset<W>,
    log: seq<Event<W>>)

  /** What the log says about one wait. */
  ghost function About<W>(log: seq<Event<W>>, w: W): seq<Event<W>> {
    if log == [] then []
    else if log[|log| - 1].w == w then About(log[..|log| - 1], w) + [log[|log| - 1]]
    else About(log[..|log| - 1], w)
  }

  lemma AboutAppend<W>(log: seq<Event<W>>, e: Event<W>)
    ensures forall w :: About(log + [e], w) == if e.w == w then About(log, w) + [e] else About(log, w)
  {
    assert (log + [e])[..|log|] == log;
  }

  ghost function Activations<W>(due: seq<W>): seq<Event<W>> {
    if due == [] then [] else Activations(due[..|due| - 1]) + [Activated(due[|due| - 1], Timeout)]
  }

  lemma {:induction false} AboutActivations<W>(log: seq<Event<W>>, due: seq<W>, w: W)
    requires Distinct(due)
    ensures About(log + Activations(due), w)
         == if w in due then About(log, w) + [Activated(w, Timeout)] else About(log, w)
  {
    if due == [] {
      assert log + [] == log;
    } else {
      var k := |due| - 1;
      assert due == due[..k] + [due[k]];
      ConcatDistinct(due[..k], [due[k]]);
      AboutActivations(log, due[..k], w);
      AboutAppend(log + Activations(due[..k]), Activated(due[k], Timeout));
      assert log + Activations(due) == log + Activations(due[..k]) + [Activated(due[k], Timeout)];
    }
  }

  ghost predicate OnFdsWait<W, C>(s: State<W, C>, w: W) {
    w in s.loop.waits && s.loop.waits[w].kind.OnFds?
  }

  ghost function Top<W, C>(s: State<W, C>): nat
    requires s.stack != []
  {
    s.stack[|s.stack| - 1]
  }

  /** User code runs: some coroutine other than the loop's, or the loop's own between two passes. */
  ghost predicate UserRuns<W, C>(s: State<W, C>) {
    s.stack != [] && (Top(s) == s.loopCo ==> s.phase.Outside?)
  }

  ghost predicate LoopRuns<W, C>(s: State<W, C>) {
    s.stack != [] && Top(s) == s.loopCo
  }

  datatype Step<W, C> =
    | Resume(co: nat)
    | Yield
    | Finish
    | Poll(w: W, fds: seq<int>, accepted: seq<bool>, timeout: int, at: nat)
    | CondWait(w: W, cond: C, ms: int, at: nat)
    | NewCond(cond: C)
    | SignalOne(cond: C)
    | SignalAll(cond: C)
    | CloseFd(fd: int)
    | StartPass
    | Report(fd: int, mask: int)
    | Expire(now: nat)
    | Drain
    | EndPass

  /** The wait of a coroutine, if it is in one. */
  ghost predicate Owns<W, C>(s: State<W, C>, co: nat, w: W) {
    w in s.loop.waits && s.loop.waits[w].owner == co
  }

  /** The memory of the wait is still there, and so is the condition it names. */
  ghost predicate Wakeable<W, C>(s: State<W, C>, w: W) {
    && w in s.loop.waits
    && (s.loop.waits[w].kind.OnCond? ==> s.loop.waits[w].kind.cond in s.loop.queues)
  }

  /** Another coroutine may end this wait by resuming its owner. A waiter on a condition does not clean up
      its timer, so that must be in no list. */
  ghost predicate Interruptible<W, C>(s: State<W, C>, w: W) {
    && Wakeable(s, w)
    && (s.loop.waits[w].kind.OnCond? ==> w !in Items(s.loop.pending) && w !in s.loop.active)
  }

  /** Which steps the scheduler and its callers may take. A waiter is resumed by others than
      the loop only where that leaves no timer behind, and a poll is only begun with descriptors and a
      timeout that the wheel accepts or that leave nothing registered. */
  ghost predicate Enabled<W, C>(s: State<W, C>, step: Step<W, C>) {
    match step
    case Resume(co) =>
      && UserRuns(s) && co !in s.stack && co !in s.ended && |s.stack| < Coroutines.MAX_DEPTH
      && forall w <- s.loop.waits :: Owns(s, co, w) ==> Interruptible(s, w)
    case Yield => UserRuns(s) && |s.stack| > 1
    case Finish => UserRuns(s) && |s.stack| > 1
    case Poll(w, fds, accepted, timeout, at) =>
      && UserRuns(s) && |s.stack| > 1 && w !in s.begun
      && |accepted| == |fds| && at > 0 && at + Clamp(timeout) >= 0
      && (Accepts(s.loop.start, at, at + Clamp(timeout)) || NothingToRegister(s.loop.reg, fds, accepted))
    case CondWait(w, c, ms, at) =>
      UserRuns(s) && |s.stack| > 1 && w !in s.begun && c in s.loop.queues && at > 0
    case NewCond(c) => UserRuns(s) && c !in s.loop.queues
    case SignalOne(c) => UserRuns(s) && c in s.loop.queues
    case SignalAll(c) => UserRuns(s) && c in s.loop.queues
    case CloseFd(fd) => UserRuns(s)
    case StartPass => LoopRuns(s) && s.phase.Outside?
    case Report(fd, mask) =>
      LoopRuns(s) && s.phase.Collecting? && fd in s.loop.reg && fd !in s.phase.seen && s.loop.reg[fd].wait in s.loop.waits
    case Expire(now) => LoopRuns(s) && s.phase.Collecting? && now > 0
    case Drain =>
      LoopRuns(s) && s.phase.Draining? && s.loop.active != [] && |s.stack| < Coroutines.MAX_DEPTH && Wakeable(s, s.loop.active[0])
    case EndPass => LoopRuns(s) && s.phase.Draining? && s.loop.active == []
  }

  /** The coroutine of a wait has control back and cleans up. */
  ghost function EndWait<W, C>(l: Loop<W, C>, w: W): Loop<W, C>
    requires w in l.waits && (l.waits[w].kind.OnCond? ==> l.waits[w].kind.cond in l.queues)
  {
    if l.waits[w].kind.OnFds? then EndPoll(l, w) else EndCond(l, w)
  }

  ghost function Interrupt<W, C>(s: State<W, C>, co: nat): State<W, C>
    requires forall w <- s.loop.waits :: Owns(s, co, w) ==> Interruptible(s, w)
  {
    if exists w <- s.loop.waits :: Owns(s, co, w) then
      var w :| w in s.loop.waits && Owns(s, co, w);
      assert Interruptible(s, w);
      s.(loop := EndWait(s.loop, w), log := s.log + [Interrupted(w, s.loop.waits[w].raised)])
    else s
  }

  ghost function BeginPollStep<W, C>(s: State<W, C>, w: W, fds: seq<int>, accepted: seq<bool>, timeout: int, at: nat)
    : State<W, C>
    requires s.stack != [] && |accepted| == |fds| && at + Clamp(timeout) >= 0
  {
    var s' := s.(loop := BeginPoll(s.loop, w, Top(s), fds, accepted, timeout, at));
    if Accepts(s.loop.start, at, at + Clamp(timeout)) then
      s'.(stack := s.stack[..|s.stack| - 1], begun := s.begun + {w}, log := s.log + [Began(w, true)])
    else s'
  }

  ghost function BeginCondStep<W, C>(s: State<W, C>, w: W, c: C, ms: int, at: nat): State<W, C>
    requires s.stack != [] && c in s.loop.queues
  {
    var s' := s.(loop := BeginCond(s.loop, w, Top(s), c, ms, at));
    if ms <= 0 || Accepts(s.loop.start, at, at + ms) then
      s'.(stack := s.stack[..|s.stack| - 1], begun := s.begun + {w}, log := s.log + [Began(w, false)])
    else s'
  }

  ghost function SignalStep<W, C>(s: State<W, C>, c: C): State<W, C>
    requires c in s.loop.queues
  {
    if s.loop.queues[c] == [] then s
    else s.(loop := Signal(s.loop, c), log := s.log + [Activated(s.loop.queues[c][0], Signalled)])
  }

  ghost function BroadcastStep<W, C>(s: State<W, C>, c: C): State<W, C>
    requires c in s.loop.queues
    decreases |s.loop.queues[c]|
  {
    if s.loop.queues[c] == [] then s else BroadcastStep(SignalStep(s, c), c)
  }

  ghost function ReportStep<W, C>(s: State<W, C>, fd: int, mask: int): State<W, C>
    requires fd in s.loop.reg && s.loop.reg[fd].wait in s.loop.waits && s.phase.Collecting?
  {
    var w := s.loop.reg[fd].wait;
    s.(loop := Prepare(s.loop, fd, mask), phase := Collecting(s.phase.seen + {fd}), reported := s.reported + multiset{w},
       log := if s.loop.waits[w].detached then s.log else s.log + [Activated(w, Ready)])
  }

  ghost function ExpireStep<W, C>(s: State<W, C>, now: nat): State<W, C> {
    var due := if now < Origin(s.loop.start, now) then [] else Items(ByDeadline(Due(s.loop.pending, now)));
    var l := TakeTimeouts(s.loop, now);
    s.(loop := l, log := s.log + Activations(due), phase := Draining(set w <- l.active))
  }

  /** The loop pops the first active wait and resumes its coroutine, which at once cleans the wait up. */
  ghost function DrainStep<W, C>(s: State<W, C>): State<W, C>
    requires s.loop.active != [] && Wakeable(s, s.loop.active[0])
  {
    var w := s.loop.active[0];
    var x, l := s.loop.waits[w], PopActive(s.loop);
    s.(loop := EndWait(l, w),
       stack := s.stack + [x.owner], log := s.log + [Woken(w, x.raised)])
  }

  ghost function Apply<W, C>(s: State<W, C>, step: Step<W, C>): State<W, C>
    requires Enabled(s, step)
  {
    match step
    case Resume(co) => Interrupt(s, co).(stack := s.stack + [co])
    case Yield => s.(stack := s.stack[..|s.stack| - 1])
    case Finish => s.(stack := s.stack[..|s.stack| - 1], ended := s.ended + {Top(s)})
    case Poll(w, fds, accepted, timeout, at) => BeginPollStep(s, w, fds, accepted, timeout, at)
    case CondWait(w, c, ms, at) => BeginCondStep(s, w, c, ms, at)
    case NewCond(c) => s.(loop := s.loop.(queues := s.loop.queues[c := []]))
    case SignalOne(c) => SignalStep(s, c)
    case SignalAll(c) => BroadcastStep(s, c)
    case CloseFd(fd) => s.(loop := s.loop.(reg := s.loop.reg - {fd}))
    case StartPass => s.(phase := Collecting({}))
    case Report(fd, mask) => ReportStep(s, fd, mask)
    case Expire(now) => ExpireStep(s, now)
    case Drain => DrainStep(s)
    case EndPass => s.(phase := Outside)
  }

  // ----- what every reachable state satisfies

  /** A wait on descriptors is in the wheel and untouched, or on the active list because of its first
      event, or on the active list because its time was up; the log says which. */
  ghost predicate PollInPlace<W, C>(x: Waiting<C>, w: W, about: seq<Event<W>>, inWheel: bool, inActive: bool) {
    || (inWheel && !inActive && about == [Began(w, true)]
        && !x.detached && !x.timedOut && x.raised == 0 && x.revents == map[])
    || (!inWheel && inActive && about == [Began(w, true), Activated(w, Ready)]
        && x.detached && !x.timedOut && x.raised == |x.revents| > 0)
    || (!inWheel && inActive && about == [Began(w, true), Activated(w, Timeout)]
        && !x.detached && x.timedOut && x.raised == 0 && x.revents == map[])
  }

  /** A wait on a condition is in its queue until it is signalled, and on the active list once it is
      signalled or its time was up. */
  ghost predicate CondInPlace<W, C>(x: Waiting<C>, w: W, about: seq<Event<W>>, inWheel: bool, inQueue: bool, inActive: bool) {
    && x.raised == 0 && !x.detached
    && (|| (inQueue && !inActive && about == [Began(w, false)])
        || (inQueue && inActive && !inWheel && about == [Began(w, false), Activated(w, Timeout)])
        || (!inQueue && inActive && !inWheel && about == [Began(w, false), Activated(w, Signalled)])
        || (!inQueue && inActive && !inWheel
            && about == [Began(w, false), Activated(w, Timeout), Activated(w, Signalled)]))
  }

  ghost predicate InPlace<W, C>(s: State<W, C>, w: W)
    requires w in s.loop.waits
  {
    var l, x := s.loop, s.loop.waits[w];
    x.raised == s.reported[w] &&
    match x.kind
    case OnFds(_) => PollInPlace(x, w, About(s.log, w), w in Items(l.pending), w in l.active)
    case OnCond(c) =>
      c in l.queues && CondInPlace(x, w, About(s.log, w), w in Items(l.pending), w in l.queues[c], w in l.active)
  }

  /** The complete stories of a wait on descriptors for which `n` events were reported. */
  ghost predicate PollOver<W>(about: seq<Event<W>>, w: W, n: nat) {
    || (n > 0 && about == [Began(w, true), Activated(w, Ready), Woken(w, n)])
    || (n == 0 && about == [Began(w, true), Activated(w, Timeout), Woken(w, 0)])
    || (n > 0 && about == [Began(w, true), Activated(w, Ready), Interrupted(w, n)])
    || (n == 0 && about == [Began(w, true), Activated(w, Timeout), Interrupted(w, 0)])
    || (n == 0 && about == [Began(w, true), Interrupted(w, 0)])
  }

  ghost predicate CondOver<W>(about: seq<Event<W>>, w: W) {
    || about == [Began(w, false), Activated(w, Timeout), Woken(w, 0)]
    || about == [Began(w, false), Activated(w, Signalled), Woken(w, 0)]
    || about == [Began(w, false), Activated(w, Timeout), Activated(w, Signalled), Woken(w, 0)]
    || about == [Began(w, false), Interrupted(w, 0)]
  }

  ghost predicate Past<W, C>(s: State<W, C>, w: W) {
    PollOver(About(s.log, w), w, s.reported[w]) || CondOver(About(s.log, w), w)
  }

  ghost predicate Stories<W, C>(s: State<W, C>) {
    && (forall w <- s.loop.waits :: w in s.begun && InPlace(s, w))
    && (forall w <- s.begun :: w !in s.loop.waits ==> Past(s, w))
    && (forall e <- s.log :: e.w in s.begun)
    && (forall w <- s.reported :: w in s.begun)
  }

  /** Lists name live waits, each at most once, and queues name waits for their own condition. */
  ghost predicate Lists<W, C>(l: Loop<W, C>) {
    && Distinct(l.active) && (forall w <- l.active :: w in l.waits)
    && Distinct(Items(l.pending)) && (forall w <- Items(l.pending) :: w in l.waits)
    && (forall c <- l.queues :: Distinct(l.queues[c])
          && forall w <- l.queues[c] :: w in l.waits && l.waits[w].kind == OnCond(c))
  }

  /** A registration names a live wait, and a descriptor that wait asked for. */
  ghost predicate Registrations<W, C>(l: Loop<W, C>) {
    forall fd <- l.reg :: var r := l.reg[fd];
      && fd > -1 && r.wait in l.waits && l.waits[r.wait].kind.OnFds?
      && r.index < |l.waits[r.wait].kind.fds| && l.waits[r.wait].kind.fds[r.index] == fd
  }

  /** Suspended waiters are neither running nor ended, and wait for one thing only. */
  ghost predicate Owners<W, C>(s: State<W, C>) {
    && (forall w <- s.loop.waits :: s.loop.waits[w].owner !in s.stack && s.loop.waits[w].owner !in s.ended)
    && (forall v <- s.loop.waits, w <- s.loop.waits :: v != w ==> s.loop.waits[v].owner != s.loop.waits[w].owner)
  }

  ghost predicate Calls<W, C>(s: State<W, C>) {
    && s.stack != [] && Distinct(s.stack) && (forall co <- s.stack :: co !in s.ended)
    && (!s.phase.Outside? ==> s.loopCo in s.stack)
  }

  /** A wait on a condition that a signal has taken out of the queue. */
  ghost predicate Dequeued<W, C>(l: Loop<W, C>, w: W)
    requires w in l.waits
  {
    match l.waits[w].kind
    case OnFds(_) => false
    case OnCond(c) => c in l.queues && w !in l.queues[c]
  }

  ghost predicate Passes<W, C>(s: State<W, C>) {
    match s.phase
    case Outside => forall w <- s.loop.active :: w in s.loop.waits && Dequeued(s.loop, w)
    case Collecting(seen) =>
      forall w <- s.loop.waits :: s.loop.waits[w].kind.OnFds? ==>
        && (w in s.loop.active ==> s.loop.waits[w].detached)
        && forall i <- s.loop.waits[w].revents :: 0 <= i < |s.loop.waits[w].kind.fds| && s.loop.waits[w].kind.fds[i] in seen
    case Draining(owed) => forall w <- owed :: w in s.begun && (w in s.loop.waits ==> w in s.loop.active)
  }

  ghost predicate Inv<W, C>(s: State<W, C>) {
    Stories(s) && Lists(s.loop) && Registrations(s.loop) && Owners(s) && Calls(s) && Passes(s)
  }

  // ----- every step keeps it

  /** Nothing about the stories changes where neither the wait nor its place nor the log about it does. */
  ghost predicate SamePlace<W, C>(s: State<W, C>, s': State<W, C>, w: W) {
    && w in s.loop.waits && w in s'.loop.waits && s'.loop.waits[w] == s.loop.waits[w]
    && About(s'.log, w) == About(s.log, w) && s'.reported[w] == s.reported[w]
    && (w in Items(s'.loop.pending) <==> w in Items(s.loop.pending))
    && (w in s'.loop.active <==> w in s.loop.active)
    && (s.loop.waits[w].kind.OnCond? ==>
          var c := s.loop.waits[w].kind.cond;
          c in s.loop.queues ==> c in s'.loop.queues && (w in s'.loop.queues[c] <==> w in s.loop.queues[c]))
  }

  lemma PlaceKept<W, C>(s: State<W, C>, s': State<W, C>, w: W)
    requires SamePlace(s, s', w) && InPlace(s, w)
    ensures InPlace(s', w)
  {
  }

  lemma StackPrefix(stack: seq<nat>)
    requires stack != [] && Distinct(stack)
    ensures Distinct(stack[..|stack| - 1]) && stack[|stack| - 1] !in stack[..|stack| - 1]
    ensures forall x <- stack :: x in stack[..|stack| - 1] || x == stack[|stack| - 1]
  {
    assert stack == stack[..|stack| - 1] + [stack[|stack| - 1]];
    ConcatDistinct(stack[..|stack| - 1], [stack[|stack| - 1]]);
  }

  lemma YieldKeeps<W, C>(s: State<W, C>)
    requires Inv(s) && Enabled(s, Yield)
    ensures Inv(Apply(s, Yield))
  {
    hide About, Items, PollInPlace, CondInPlace, PollOver, CondOver;
    StackPrefix(s.stack);
  }

  lemma FinishKeeps<W, C>(s: State<W, C>)
    requires Inv(s) && Enabled(s, Finish)
    ensures Inv(Apply(s, Finish))
  {
    hide About, Items, PollInPlace, CondInPlace, PollOver, CondOver;
    StackPrefix(s.stack);
  }

  /** A wait that never began is in no story. */
  lemma {:induction false} NotInLog<W>(log: seq<Event<W>>, w: W)
    requires forall e <- log :: e.w != w
    ensures About(log, w) == []
  {
    if log != [] {
      NotInLog(log[..|log| - 1], w);
    }
  }

  /** Ending a wait on descriptors leaves every other wait where it is. */
  lemma EndPollKeeps<W, C>(s: State<W, C>, w: W, e: Event<W>)
    requires Stories(s) && Lists(s.loop) && Registrations(s.loop)
    requires OnFdsWait(s, w) && e.w == w && PollOver(About(s.log, w) + [e], w, s.reported[w])
    ensures var s' := s.(loop := EndPoll(s.loop, w), log := s.log + [e]);
      Stories(s') && Lists(s'.loop) && Registrations(s'.loop)
  {
    hide PollInPlace, CondInPlace, PollOver, CondOver;
    var s' := s.(loop := EndPoll(s.loop, w), log := s.log + [e]);
    AboutAppend(s.log, e);
    ItemsOfCancel(s.loop.pending, w);
    WithoutKeepsDistinct(Items(s.loop.pending), w);
    WithoutKeepsDistinct(s.loop.active, w);
    forall v <- s'.loop.waits
      ensures InPlace(s', v)
    {
      PlaceKept(s, s', v);
    }
  }

  /** So does ending a wait on a condition whose timer is in no list, but perhaps at the head of the active one. */
  lemma EndCondKeeps<W, C>(s: State<W, C>, s': State<W, C>, w: W, e: Event<W>)
    requires Stories(s) && Wakeable(s, w) && s.loop.waits[w].kind.OnCond?
    requires e.w == w && CondOver(About(s.log, w) + [e], w)
    requires s'.loop == EndCond(s.loop.(active := Without(s.loop.active, w)), w) && s'.log == s.log + [e]
    requires s'.begun == s.begun && s'.reported == s.reported
    ensures Stories(s')
  {
    hide About, Items, PollOver, CondOver, PollInPlace, CondInPlace;
    AboutAppend(s.log, e);
    forall v <- s'.loop.waits
      ensures InPlace(s', v)
    {
      PlaceKept(s, s', v);
    }
  }

  lemma EndCondLists<W, C>(s: State<W, C>, w: W)
    requires Stories(s) && Lists(s.loop) && Registrations(s.loop)
    requires Wakeable(s, w) && s.loop.waits[w].kind.OnCond? && w !in Items(s.loop.pending)
    ensures var l := EndCond(s.loop.(active := Without(s.loop.active, w)), w); Lists(l) && Registrations(l)
  {
    hide About, Items, PollOver, CondOver, PollInPlace, CondInPlace, Past;
    WithoutKeepsDistinct(s.loop.active, w);
    WithoutKeepsDistinct(s.loop.queues[s.loop.waits[w].kind.cond], w);
  }

  lemma EndCondPasses<W, C>(s: State<W, C>, s': State<W, C>, w: W)
    requires Passes(s) && Wakeable(s, w) && s.loop.waits[w].kind.OnCond?
    requires s'.phase == s.phase && s'.begun == s.begun
    requires s'.loop == EndCond(s.loop.(active := Without(s.loop.active, w)), w)
    ensures Passes(s')
  {
  }

  lemma ConcatOne<X>(stack: seq<X>, co: X)
    requires Distinct(stack) && co !in stack
    ensures Distinct(stack + [co])
  {
    ConcatDistinct(stack, [co]);
  }

  /** A coroutine enters the call stack; the wait it was in, if any, is over. */
  lemma PushKeeps<W, C>(s: State<W, C>, s': State<W, C>, co: nat)
    requires Owners(s) && Calls(s) && co !in s.stack && co !in s.ended
    requires s'.stack == s.stack + [co] && s'.ended == s.ended && s'.loopCo == s.loopCo
    requires !s'.phase.Outside? ==> !s.phase.Outside?
    requires forall w <- s'.loop.waits :: w in s.loop.waits && s'.loop.waits[w] == s.loop.waits[w] && !Owns(s, co, w)
    ensures Owners(s') && Calls(s')
  {
    ConcatOne(s.stack, co);
  }

  lemma EndPollPasses<W, C>(s: State<W, C>, s': State<W, C>, w: W)
    requires Passes(s) && OnFdsWait(s, w)
    requires s'.phase == s.phase && s'.begun == s.begun && s'.loop == EndPoll(s.loop, w)
    ensures Passes(s')
  {
  }

  lemma ResumeKeeps<W, C>(s: State<W, C>, co: nat)
    requires Inv(s) && Enabled(s, Resume(co))
    ensures Inv(Apply(s, Resume(co)))
  {
    hide InPlace, Past, Items, About, Passes, Calls;
    var s' := Apply(s, Resume(co));
    if exists w <- s.loop.waits :: Owns(s, co, w) {
      var w :| w in s.loop.waits && Owns(s, co, w) && Interrupt(s, co)
        == s.(loop := EndWait(s.loop, w), log := s.log + [Interrupted(w, s.loop.waits[w].raised)]);
      InterruptKeeps(s, w);
      StoriesKept(Interrupt(s, co), s');
      NoPasses(Interrupt(s, co), s');
      PushKeeps(s, s', co);
    } else {
      StoriesKept(s, s');
      NoPasses(s, s');
      assert forall w <- s.loop.waits :: !Owns(s, co, w);
      PushKeeps(s, s', co);
    }
  }

  lemma InterruptKeeps<W, C>(s: State<W, C>, w: W)
    requires Inv(s) && w in s.loop.waits && Interruptible(s, w)
    ensures var s' := s.(loop := EndWait(s.loop, w), log := s.log + [Interrupted(w, s.loop.waits[w].raised)]);
      Stories(s') && Lists(s'.loop) && Registrations(s'.loop) && Passes(s')
  {
    hide InPlace, Past, Items, About, Passes, Calls, Owners, CondOver, PollOver;
    var e := Interrupted(w, s.loop.waits[w].raised);
    var s' := s.(loop := EndWait(s.loop, w), log := s.log + [e]);
    InterruptedStory(s, w);
    if s.loop.waits[w].kind.OnFds? {
      EndPollKeeps(s, w, e);
      EndPollPasses(s, s', w);
    } else {
      assert s.loop.(active := Without(s.loop.active, w)) == s.loop;
      EndCondKeeps(s, s', w, e);
      EndCondLists(s, w);
      EndCondPasses(s, s', w);
    }
  }

  lemma NoPasses<W, C>(s: State<W, C>, s': State<W, C>)
    requires Passes(s) && s'.loop == s.loop && s'.phase == s.phase && s'.begun == s.begun
    ensures Passes(s')
  {
  }

  lemma InterruptedStory<W, C>(s: State<W, C>, w: W)
    requires w in s.loop.waits && InPlace(s, w) && Interruptible(s, w)
    ensures var story := About(s.log, w) + [Interrupted(w, s.loop.waits[w].raised)];
      if s.loop.waits[w].kind.OnFds? then PollOver(story, w, s.reported[w]) else CondOver(story, w)
  {
    hide About, Items;
    var x, about := s.loop.waits[w], About(s.log, w);
    var n, story := x.raised, about + [Interrupted(w, x.raised)];
    if x.kind.OnCond? {
      assert story == [Began(w, false), Interrupted(w, 0)];
    } else if about == [Began(w, true), Activated(w, Ready)] {
      assert story == [Began(w, true), Activated(w, Ready), Interrupted(w, n)];
    } else if about == [Began(w, true), Activated(w, Timeout)] {
      assert story == [Began(w, true), Activated(w, Timeout), Interrupted(w, 0)];
    } else {
      assert story == [Began(w, true), Interrupted(w, 0)];
    }
  }

  lemma WokenStory<W, C>(s: State<W, C>, w: W)
    requires w in s.loop.waits && w in s.loop.active && InPlace(s, w)
    ensures var story := About(s.log, w) + [Woken(w, s.loop.waits[w].raised)];
      if s.loop.waits[w].kind.OnFds? then PollOver(story, w, s.reported[w]) else CondOver(story, w)
  {
    hide About, Items;
    var x, about := s.loop.waits[w], About(s.log, w);
    var n, story := x.raised, about + [Woken(w, x.raised)];
    if x.kind.OnFds? {
      if about == [Began(w, true), Activated(w, Ready)] {
        assert story == [Began(w, true), Activated(w, Ready), Woken(w, n)];
      } else {
        assert story == [Began(w, true), Activated(w, Timeout), Woken(w, 0)];
      }
    } else {
      if about == [Began(w, false), Activated(w, Timeout)] {
        assert story == [Began(w, false), Activated(w, Timeout), Woken(w, 0)];
      } else if about == [Began(w, false), Activated(w, Signalled)] {
        assert story == [Began(w, false), Activated(w, Signalled), Woken(w, 0)];
      } else {
        assert story == [Began(w, false), Activated(w, Timeout), Activated(w, Signalled), Woken(w, 0)];
      }
    }
  }

  lemma {:induction false} RegisterNames<W>(reg: map<int, Registration<W>>, w: W, fds: seq<int>, accepted: seq<bool>, i: nat)
    requires |accepted| == |fds| && i <= |fds|
    ensures forall fd <- Register(reg, w, fds, accepted, i) ::
      || (fd in reg && Register(reg, w, fds, accepted, i)[fd] == reg[fd])
      || (fd > -1 && var r := Register(reg, w, fds, accepted, i)[fd]; r.wait == w && r.index < i && fds[r.index] == fd)
  {
    if i > 0 {
      RegisterNames(reg, w, fds, accepted, i - 1);
    }
  }

  lemma ItemsOfAdd<W>(s: seq<Entry<W>>, e: Entry<W>)
    ensures Items(s + [e]) == Items(s) + [e.item]
  {
    ItemsConcat(s, [e]);
  }

  /** A wait that begins enters the log, the wheel or a queue, and nothing else moves. */
  lemma BeginKeeps<W, C>(s: State<W, C>, s': State<W, C>, w: W, poll: bool)
    requires Stories(s) && w !in s.begun && w !in s.loop.waits
    requires s'.begun == s.begun + {w} && s'.log == s.log + [Began(w, poll)] && s'.reported == s.reported
    requires s'.loop.waits.Keys == s.loop.waits.Keys + {w}
    requires forall v <- s.loop.waits :: SamePlace(s.(log := s'.log), s', v)
    requires s'.loop.waits[w].kind.OnFds? ==> poll && w in Items(s'.loop.pending)
    requires s'.loop.waits[w].kind.OnCond? ==>
      (!poll && var c := s'.loop.waits[w].kind.cond; c in s'.loop.queues && w in s'.loop.queues[c])
    requires w !in s'.loop.active
    requires var x := s'.loop.waits[w]; !x.detached && !x.timedOut && x.raised == 0 && x.revents == map[]
    ensures Stories(s')
  {
    hide PollOver, CondOver, Items, About;
    NotInLog(s.log, w);
    AboutAppend(s.log, Began(w, poll));
    assert [] + [Began(w, poll)] == [Began(w, poll)];
    forall v <- s'.loop.waits | v != w
      ensures InPlace(s', v)
    {
      PlaceKept(s, s', v);
    }
  }

  lemma StoriesKept<W, C>(s: State<W, C>, s': State<W, C>)
    requires Stories(s) && s'.log == s.log && s'.begun == s.begun && s'.reported == s.reported
    requires s'.loop.waits == s.loop.waits && forall w <- s.loop.waits :: SamePlace(s, s', w)
    ensures Stories(s')
  {
    hide About, Items, PollInPlace, CondInPlace, PollOver, CondOver;
    forall w <- s'.loop.waits
      ensures InPlace(s', w)
    {
      PlaceKept(s, s', w);
    }
  }

  /** The coroutine that begins a wait leaves the call stack and owns nothing else. */
  lemma SuspendKeeps<W, C>(s: State<W, C>, s': State<W, C>, w: W, x: Waiting<C>)
    requires Owners(s) && Calls(s) && Passes(s) && UserRuns(s) && |s.stack| > 1
    requires s'.stack == s.stack[..|s.stack| - 1] && s'.ended == s.ended && s'.loopCo == s.loopCo
    requires s'.phase == s.phase && s'.begun == s.begun + {w} && s'.loop.active == s.loop.active
    requires w !in s.begun && w !in s.loop.waits && w !in s.loop.active
    requires s'.loop.waits == s.loop.waits[w := x] && x.owner == Top(s) && x.revents == map[]
    requires forall c <- s.loop.queues ::
      c in s'.loop.queues && forall v <- s'.loop.queues[c] :: v in s.loop.queues[c] || v == w
    ensures Owners(s') && Calls(s') && Passes(s')
  {
    StackPrefix(s.stack);
  }

  lemma RestKept<W, C>(s: State<W, C>, s': State<W, C>)
    requires Owners(s) && Calls(s) && Passes(s)
    requires s'.stack == s.stack && s'.ended == s.ended && s'.loopCo == s.loopCo && s'.begun == s.begun
    requires s'.loop.waits == s.loop.waits && s'.loop.active == s.loop.active && s'.phase == s.phase
    requires s'.loop.queues == s.loop.queues
    ensures Owners(s') && Calls(s') && Passes(s')
  {
  }

  lemma PollKeeps<W, C>(s: State<W, C>, w: W, fds: seq<int>, accepted: seq<bool>, timeout: int, at: nat)
    requires Inv(s) && Enabled(s, Poll(w, fds, accepted, timeout, at))
    ensures Inv(Apply(s, Poll(w, fds, accepted, timeout, at)))
  {
    hide InPlace, Past, Register, Items, About, Owners, Calls, Passes;
    var s' := BeginPollStep(s, w, fds, accepted, timeout, at);
    if Accepts(s.loop.start, at, at + Clamp(timeout)) {
      ItemsOfAdd(s.loop.pending, Entry(w, at + Clamp(timeout)));
      ConcatOne(Items(s.loop.pending), w);
      RegisterNames(s.loop.reg, w, fds, accepted, |fds|);
      BeginKeeps(s, s', w, true);
      SuspendKeeps(s, s', w, s'.loop.waits[w]);
    } else {
      RegisterNothing(s.loop.reg, w, fds, accepted, |fds|);
      StoriesKept(s, s');
      RestKept(s, s');
    }
  }

  lemma CondWaitLists<W, C>(l: Loop<W, C>, w: W, owner: nat, c: C, ms: int, at: nat)
    requires Lists(l) && Registrations(l) && c in l.queues && w !in l.waits
    requires ms <= 0 || Accepts(l.start, at, at + ms)
    ensures Lists(BeginCond(l, w, owner, c, ms, at)) && Registrations(BeginCond(l, w, owner, c, ms, at))
  {
    hide Items;
    ConcatOne(l.queues[c], w);
    if ms > 0 {
      ItemsOfAdd(l.pending, Entry(w, at + ms));
      ConcatOne(Items(l.pending), w);
    }
  }

  lemma CondWaitKeeps<W, C>(s: State<W, C>, w: W, c: C, ms: int, at: nat)
    requires Inv(s) && Enabled(s, CondWait(w, c, ms, at))
    ensures Inv(Apply(s, CondWait(w, c, ms, at)))
  {
    hide InPlace, Past, Items, About, Owners, Calls, Passes;
    var s' := BeginCondStep(s, w, c, ms, at);
    if ms <= 0 || Accepts(s.loop.start, at, at + ms) {
      CondWaitLists(s.loop, w, Top(s), c, ms, at);
      if ms > 0 { ItemsOfAdd(s.loop.pending, Entry(w, at + ms)); }
      BeginKeeps(s, s', w, false);
      SuspendKeeps(s, s', w, s'.loop.waits[w]);
    } else {
      StoriesKept(s, s');
      RestKept(s, s');
    }
  }

  lemma NewCondKeeps<W, C>(s: State<W, C>, c: C)
    requires Inv(s) && Enabled(s, NewCond(c))
    ensures Inv(Apply(s, NewCond(c)))
  {
    hide InPlace, Past, Items, About;
    StoriesKept(s, Apply(s, NewCond(c)));
  }

  lemma CloseFdKeeps<W, C>(s: State<W, C>, fd: int)
    requires Inv(s) && Enabled(s, CloseFd(fd))
    ensures Inv(Apply(s, CloseFd(fd)))
  {
    hide InPlace, Past, Items, About;
    StoriesKept(s, Apply(s, CloseFd(fd)));
  }

  lemma StartPassKeeps<W, C>(s: State<W, C>)
    requires Inv(s) && Enabled(s, StartPass)
    ensures Inv(Apply(s, StartPass))
  {
    hide About, Items, CondInPlace, Past;
    var s' := Apply(s, StartPass);
    StoriesKept(s, s');
    assert forall w <- s.loop.waits :: InPlace(s, w);
  }

  lemma EndPassKeeps<W, C>(s: State<W, C>)
    requires Inv(s) && Enabled(s, EndPass)
    ensures Inv(Apply(s, EndPass))
  {
    hide About, Items, InPlace, Past;
    StoriesKept(s, Apply(s, EndPass));
  }

  lemma HeadGone<X>(active: seq<X>)
    requires Distinct(active) && active != []
    ensures Without(active, active[0]) == active[1..] && Without(active[1..], active[0]) == active[1..]
    ensures Distinct(active[1..])
  {
  }

  lemma ActiveIsNotPending<W, C>(s: State<W, C>, w: W)
    requires w in s.loop.waits && InPlace(s, w) && w in s.loop.active
    ensures w !in Items(s.loop.pending)
  {
  }

  lemma DrainKeeps<W, C>(s: State<W, C>)
    requires Inv(s) && Enabled(s, Drain)
    ensures Inv(Apply(s, Drain))
  {
    hide InPlace, Past, Items, About, Passes, Calls;
    var s', w := DrainStep(s), s.loop.active[0];
    var x := s.loop.waits[w];
    var e := Woken(w, x.raised);
    WokenStory(s, w);
    HeadGone(s.loop.active);
    if x.kind.OnFds? {
      assert s'.loop == EndPoll(s.loop, w);
      EndPollKeeps(s, w, e);
      EndPollPasses(s, s', w);
      StoriesKept(s.(loop := s'.loop, log := s'.log), s');
    } else {
      ActiveIsNotPending(s, w);
      EndCondKeeps(s, s', w, e);
      EndCondLists(s, w);
      EndCondPasses(s, s', w);
    }
    PushKeeps(s, s', x.owner);
  }

  lemma MoveLists<W>(active: seq<W>, pending: seq<Entry<W>>, w: W)
    requires Distinct(active) && Distinct(Items(pending))
    ensures Distinct(Without(active, w) + [w]) && Distinct(Items(Cancel(pending, w)))
    ensures forall v <- Items(Cancel(pending, w)) :: v in Items(pending) && v != w
    ensures forall v <- Items(pending) :: v != w ==> v in Items(Cancel(pending, w))
  {
    ItemsOfCancel(pending, w);
    WithoutKeepsDistinct(Items(pending), w);
    WithoutKeepsDistinct(active, w);
    ConcatOne(Without(active, w), w);
  }

  /** Moving a wait to the active list, with the event that says why, leaves the others in place. */
  lemma MoveKeeps<W, C>(s: State<W, C>, s': State<W, C>, w: W, e: Event<W>)
    requires Stories(s) && Lists(s.loop) && w in s.loop.waits && e.w == w
    requires s'.loop.active == Without(s.loop.active, w) + [w] && s'.loop.pending == Cancel(s.loop.pending, w)
    requires s'.loop.waits.Keys == s.loop.waits.Keys && s'.log == s.log + [e] && s'.begun == s.begun
    requires w in s.begun && (s'.reported == s.reported || s'.reported == s.reported + multiset{w})
    requires s'.loop.queues.Keys == s.loop.queues.Keys
    requires forall v <- s.loop.waits :: v != w ==> s'.loop.waits[v] == s.loop.waits[v]
    requires forall c <- s.loop.queues, v <- s.loop.waits :: v != w ==> (v in s'.loop.queues[c] <==> v in s.loop.queues[c])
    requires w !in Items(s'.loop.pending) && w in s'.loop.active ==> InPlace(s', w)
    ensures Stories(s')
    ensures Distinct(s'.loop.active) && Distinct(Items(s'.loop.pending))
    ensures forall v <- s'.loop.active :: v in s'.loop.waits
    ensures forall v <- Items(s'.loop.pending) :: v in s'.loop.waits
  {
    hide About, Items, Distinct, Cancel, PollInPlace, CondInPlace, PollOver, CondOver;
    AboutAppend(s.log, e);
    MoveLists(s.loop.active, s.loop.pending, w);
    forall v <- s'.loop.waits | v != w
      ensures InPlace(s', v)
    {
      PlaceKept(s, s', v);
    }
  }

  lemma SignalPasses<W, C>(s: State<W, C>, s': State<W, C>, w: W)
    requires Owners(s) && Calls(s) && Passes(s) && UserRuns(s) && w in s.loop.waits && s.loop.waits[w].kind.OnCond?
    requires s'.loop.waits == s.loop.waits && s'.loop.active == Without(s.loop.active, w) + [w]
    requires s' == s.(loop := s'.loop, log := s'.log) && Dequeued(s'.loop, w)
    requires forall c <- s.loop.queues :: c in s'.loop.queues && forall v <- s'.loop.queues[c] :: v in s.loop.queues[c]
    ensures Owners(s') && Calls(s') && Passes(s') && UserRuns(s')
  {
  }

  lemma SignalKeeps<W, C>(s: State<W, C>, c: C)
    requires Inv(s) && c in s.loop.queues && UserRuns(s)
    ensures Inv(SignalStep(s, c)) && UserRuns(SignalStep(s, c))
  {
    hide About, Items, InPlace, Past, Owners, Calls, Passes, UserRuns;
    if s.loop.queues[c] != [] {
      var s', w := SignalStep(s, c), s.loop.queues[c][0];
      AboutAppend(s.log, Activated(w, Signalled));
      ItemsOfCancel(s.loop.pending, w);
      HeadGone(s.loop.queues[c]);
      SignalledStory(s, s', w);
      MoveKeeps(s, s', w, Activated(w, Signalled));
      SignalPasses(s, s', w);
    }
  }

  lemma SignalledStory<W, C>(s: State<W, C>, s': State<W, C>, w: W)
    requires w in s.loop.waits && InPlace(s, w)
    requires s.loop.waits[w].kind.OnCond? && w in s.loop.queues[s.loop.waits[w].kind.cond]
    requires s'.loop.waits == s.loop.waits && About(s'.log, w) == About(s.log, w) + [Activated(w, Signalled)]
    requires s'.reported == s.reported
    requires w !in Items(s'.loop.pending) && w in s'.loop.active
    requires var c := s.loop.waits[w].kind.cond; c in s'.loop.queues && w !in s'.loop.queues[c]
    ensures InPlace(s', w)
  {
    hide About, Items;
    var about := About(s.log, w);
    if about == [Began(w, false)] {
      assert about + [Activated(w, Signalled)] == [Began(w, false), Activated(w, Signalled)];
    } else {
      assert about + [Activated(w, Signalled)] == [Began(w, false), Activated(w, Timeout), Activated(w, Signalled)];
    }
  }

  lemma {:induction false} BroadcastKeeps<W, C>(s: State<W, C>, c: C)
    requires Inv(s) && c in s.loop.queues && UserRuns(s)
    ensures Inv(BroadcastStep(s, c))
    decreases |s.loop.queues[c]|
  {
    SignalKeeps(s, c);
    if s.loop.queues[c] != [] {
      BroadcastKeeps(SignalStep(s, c), c);
    }
  }

  lemma CountNew(revents: map<int, int>, i: int, mask: int)
    requires i !in revents
    ensures |revents[i := mask]| == |revents| + 1
  {
    assert revents[i := mask].Keys == revents.Keys + {i};
  }

  /** In a pass, an event for a descriptor not seen before is a new event of its wait. */
  lemma NewEvent<W, C>(s: State<W, C>, fd: int, mask: int)
    requires Inv(s) && Enabled(s, Report(fd, mask))
    ensures var r := s.loop.reg[fd]; var x := s.loop.waits[r.wait];
      && x.kind.OnFds? && r.index !in x.revents && |x.revents[r.index := mask]| == |x.revents| + 1
      && (x.detached <==> r.wait in s.loop.active)
  {
    hide About, Items, Past, CondInPlace;
    var r := s.loop.reg[fd];
    assert InPlace(s, r.wait);
    CountNew(s.loop.waits[r.wait].revents, r.index, mask);
  }

  lemma FirstEventStory<W, C>(s: State<W, C>, s': State<W, C>, fd: int, mask: int)
    requires Enabled(s, Report(fd, mask)) && s.loop.reg[fd].wait !in s.loop.active
    requires s' == ReportStep(s, fd, mask) && Inv(s)
    requires var w := s.loop.reg[fd].wait;
      w !in Items(s'.loop.pending) && About(s'.log, w) == About(s.log, w) + [Activated(w, Ready)]
    ensures InPlace(s', s.loop.reg[fd].wait)
  {
    hide About, Items, Past, CondInPlace;
    var w := s.loop.reg[fd].wait;
    NewEvent(s, fd, mask);
    assert InPlace(s, w);
    assert [Began(w, true)] + [Activated(w, Ready)] == [Began(w, true), Activated(w, Ready)];
  }

  lemma LaterEventStory<W, C>(s: State<W, C>, s': State<W, C>, fd: int, mask: int)
    requires Enabled(s, Report(fd, mask)) && s.loop.reg[fd].wait in s.loop.active
    requires s' == ReportStep(s, fd, mask) && Inv(s)
    ensures InPlace(s', s.loop.reg[fd].wait) && s'.log == s.log
  {
    hide About, Items, Past, CondInPlace;
    NewEvent(s, fd, mask);
    assert InPlace(s, s.loop.reg[fd].wait);
  }

  lemma OneWaitUpdated<W, C>(s: State<W, C>, s': State<W, C>, w: W)
    requires Stories(s) && w in s.loop.waits && w in s'.loop.waits && InPlace(s', w)
    requires s'.log == s.log && s'.begun == s.begun && s'.reported == s.reported + multiset{w}
    requires s'.loop == s.loop.(waits := s.loop.waits[w := s'.loop.waits[w]])
    ensures Stories(s')
  {
    hide About, Items, PollInPlace, CondInPlace, PollOver, CondOver;
    forall v <- s'.loop.waits | v != w
      ensures InPlace(s', v)
    {
      PlaceKept(s, s', v);
    }
  }

  lemma ReportPasses<W, C>(s: State<W, C>, s': State<W, C>, fd: int, mask: int)
    requires Inv(s) && Enabled(s, Report(fd, mask)) && s' == ReportStep(s, fd, mask)
    ensures Owners(s') && Calls(s') && Passes(s') && Registrations(s'.loop)
  {
    hide About, Items, Stories, Lists;
  }

  lemma ReportKeeps<W, C>(s: State<W, C>, fd: int, mask: int)
    requires Inv(s) && Enabled(s, Report(fd, mask))
    ensures Inv(Apply(s, Report(fd, mask)))
  {
    hide About, Items, InPlace, Past, Owners, Calls, Passes;
    var s', w := ReportStep(s, fd, mask), s.loop.reg[fd].wait;
    NewEvent(s, fd, mask);
    ReportPasses(s, s', fd, mask);
    if w in s.loop.active {
      LaterEventStory(s, s', fd, mask);
      OneWaitUpdated(s, s', w);
    } else {
      AboutAppend(s.log, Activated(w, Ready));
      ItemsOfCancel(s.loop.pending, w);
      FirstEventStory(s, s', fd, mask);
      MoveKeeps(s, s', w, Activated(w, Ready));
    }
  }

  lemma ExpiredStory<W, C>(s: State<W, C>, s': State<W, C>, w: W)
    requires w in s.loop.waits && w in s'.loop.waits && InPlace(s, w) && w in Items(s.loop.pending)
    requires s'.loop.waits[w] == s.loop.waits[w].(timedOut := true) && s'.loop.queues == s.loop.queues
    requires About(s'.log, w) == About(s.log, w) + [Activated(w, Timeout)] && s'.reported == s.reported
    requires w !in Items(s'.loop.pending) && w in s'.loop.active
    ensures InPlace(s', w)
  {
    hide About, Items;
    var about := About(s.log, w);
    if s.loop.waits[w].kind.OnFds? {
      assert about + [Activated(w, Timeout)] == [Began(w, true), Activated(w, Timeout)];
    } else {
      assert about + [Activated(w, Timeout)] == [Began(w, false), Activated(w, Timeout)];
    }
  }

  lemma ExpireKeeps<W, C>(s: State<W, C>, now: nat)
    requires Inv(s) && Enabled(s, Expire(now))
    ensures Inv(Apply(s, Expire(now)))
  {
    hide About, Items, InPlace, Past, Owners, Calls, Passes, Activations, ByDeadline, Due, Later;
    var s' := ExpireStep(s, now);
    if now < Origin(s.loop.start, now) {
      assert s.log + Activations([]) == s.log by { NoActivations(s.log); }
      ExpirePasses(s, s');
      StoriesKept(s, s');
    } else {
      var due := Items(ByDeadline(Due(s.loop.pending, now)));
      DueOrLater(s.loop.pending, now);
      ItemsOfByDeadline(Due(s.loop.pending, now));
      ExpireLists(s, now);
      ExpiredStories(s, s', due);
      ExpirePasses(s, s');
    }
  }

  lemma ExpireLists<W, C>(s: State<W, C>, now: nat)
    requires Stories(s) && Lists(s.loop) && now >= Origin(s.loop.start, now)
    ensures Lists(TakeTimeouts(s.loop, now))
  {
    hide About, Items, InPlace, Past, ByDeadline, Due, Later;
    var due := Items(ByDeadline(Due(s.loop.pending, now)));
    DueOrLater(s.loop.pending, now);
    ItemsOfByDeadline(Due(s.loop.pending, now));
    forall w <- s.loop.active
      ensures w !in due
    {
      ActiveIsNotPending(s, w);
    }
    ConcatDistinct(s.loop.active, due);
  }

  lemma NoActivations<W>(log: seq<Event<W>>)
    ensures log + Activations([]) == log
  {
  }

  lemma {:induction false} ActivationsAreOf<W>(due: seq<W>)
    ensures forall e <- Activations(due) :: e.w in due
  {
    if due != [] {
      ActivationsAreOf(due[..|due| - 1]);
    }
  }

  lemma ExpiredStories<W, C>(s: State<W, C>, s': State<W, C>, due: seq<W>)
    requires Stories(s) && Distinct(due) && (forall w <- due :: w in s.loop.waits && w in Items(s.loop.pending))
    requires s'.log == s.log + Activations(due) && s'.begun == s.begun && s'.reported == s.reported
    requires s'.loop.waits == MarkTimedOut(s.loop.waits, due) && s'.loop.queues == s.loop.queues
    requires s'.loop.active == s.loop.active + due
    requires forall w <- s.loop.waits :: w in Items(s'.loop.pending) <==> w in Items(s.loop.pending) && w !in due
    ensures Stories(s')
  {
    hide About, Items, PollInPlace, CondInPlace, PollOver, CondOver, Activations;
    ActivationsAreOf(due);
    forall w <- s'.loop.waits
      ensures InPlace(s', w)
    {
      AboutActivations(s.log, due, w);
      if w in due {
        ExpiredStory(s, s', w);
      } else {
        PlaceKept(s, s', w);
      }
    }
    forall w <- s'.begun | w !in s'.loop.waits
      ensures Past(s', w)
    {
      AboutActivations(s.log, due, w);
      assert Past(s, w);
    }
  }

  lemma ExpirePasses<W, C>(s: State<W, C>, s': State<W, C>)
    requires Stories(s) && Lists(s.loop) && Registrations(s.loop) && Owners(s) && Calls(s) && s.loopCo in s.stack
    requires s'.stack == s.stack && s'.ended == s.ended && s'.begun == s.begun && s'.loopCo == s.loopCo
    requires s'.phase == Draining(set w <- s'.loop.active) && s'.loop.reg == s.loop.reg
    requires s'.loop.waits.Keys == s.loop.waits.Keys && forall w <- s.loop.waits ::
      s'.loop.waits[w].(timedOut := true) == s.loop.waits[w].(timedOut := true)
    requires forall w <- s'.loop.active :: w in s.loop.waits
    ensures Registrations(s'.loop) && Owners(s') && Calls(s') && Passes(s')
  {
    hide About, Items, InPlace, Past;
  }

  // ----- whole runs

  ghost predicate Initial<W, C>(s: State<W, C>) {
    && s.loop.waits == map[] && s.loop.pending == [] && s.loop.active == []
    && s.loop.queues == map[] && s.loop.reg == map[]
    && |s.stack| == 1 && s.ended == {} && s.phase == Outside
    && s.begun == {} && s.reported == multiset{} && s.log == []
  }

  ghost predicate Run<W, C>(states: seq<State<W, C>>, steps: seq<Step<W, C>>) {
    && |states| == |steps| + 1 && Initial(states[0])
    && forall i :: 0 <= i < |steps| ==> Enabled(states[i], steps[i]) && states[i + 1] == Apply(states[i], steps[i])
  }

  lemma InitialKeeps<W, C>(s: State<W, C>)
    requires Initial(s)
    ensures Inv(s)
  {
  }

  lemma StepKeeps<W, C>(s: State<W, C>, step: Step<W, C>)
    requires Inv(s) && Enabled(s, step)
    ensures Inv(Apply(s, step))
  {
    hide Inv;
    match step
    case Resume(co) => ResumeKeeps(s, co);
    case Yield => YieldKeeps(s);
    case Finish => FinishKeeps(s);
    case Poll(w, fds, accepted, timeout, at) => PollKeeps(s, w, fds, accepted, timeout, at);
    case CondWait(w, c, ms, at) => CondWaitKeeps(s, w, c, ms, at);
    case NewCond(c) => NewCondKeeps(s, c);
    case SignalOne(c) => SignalKeeps(s, c);
    case SignalAll(c) => BroadcastKeeps(s, c);
    case CloseFd(fd) => CloseFdKeeps(s, fd);
    case StartPass => StartPassKeeps(s);
    case Report(fd, mask) => ReportKeeps(s, fd, mask);
    case Expire(now) => ExpireKeeps(s, now);
    case Drain => DrainKeeps(s);
    case EndPass => EndPassKeeps(s);
  }

  lemma {:induction false} EveryStateOfARun<W, C>(states: seq<State<W, C>>, steps: seq<Step<W, C>>, i: nat)
    requires Run(states, steps) && i < |states|
    ensures Inv(states[i])
  {
    if i > 0 {
      EveryStateOfARun(states, steps, i - 1);
      StepKeeps(states[i - 1], steps[i - 1]);
    }
  }

  /** How often control came back to the coroutine of a wait. */
  ghost function Wakes<W>(log: seq<Event<W>>, w: W): nat {
    if log == [] then 0
    else
      var e := log[|log| - 1];
      Wakes(log[..|log| - 1], w) + if e.w == w && (e.Woken? || e.Interrupted?) then 1 else 0
  }

  lemma {:induction false} WakesAbout<W>(log: seq<Event<W>>, w: W)
    ensures Wakes(log, w) == Wakes(About(log, w), w)
  {
    if log != [] {
      WakesAbout(log[..|log| - 1], w);
      var about := About(log[..|log| - 1], w);
      assert (about + [log[|log| - 1]])[..|about|] == about;
    }
  }

  lemma WakesOfStory<W>(about: seq<Event<W>>, w: W, n: nat)
    ensures PollOver(about, w, n) || CondOver(about, w) ==> Wakes(about, w) == 1
    ensures (exists poll :: about == [Began(w, poll)]) ==> Wakes(about, w) == 0
    ensures (exists poll, c :: about == [Began(w, poll), Activated(w, c)]) ==> Wakes(about, w) == 0
    ensures about == [Began(w, false), Activated(w, Timeout), Activated(w, Signalled)] ==> Wakes(about, w) == 0
  {
    if |about| > 0 { assert |about[..|about| - 1]| == |about| - 1; }
    if |about| > 1 { assert about[..|about| - 1][..|about| - 2] == about[..|about| - 2]; }
    if |about| > 2 { assert about[..|about| - 2][..|about| - 3] == about[..|about| - 3]; }
    if |about| > 3 { assert about[..|about| - 3][..|about| - 4] == about[..|about| - 4]; }
  }

  /** Exactly once: over any run, a wait that is over was ended once, and one that is not was not. */
  lemma EveryWaitEndsOnce<W, C>(states: seq<State<W, C>>, steps: seq<Step<W, C>>, i: nat, w: W)
    requires Run(states, steps) && i < |states|
    ensures Wakes(states[i].log, w) == if w in states[i].begun && w !in states[i].loop.waits then 1 else 0
  {
    EveryStateOfARun(states, steps, i);
    var s := states[i];
    WakesAbout(s.log, w);
    WakesOfStory(About(s.log, w), w, s.reported[w]);
    if w in s.loop.waits {
      assert InPlace(s, w);
    } else if w in s.begun {
      assert Past(s, w);
    } else {
      NotInLog(s.log, w);
    }
  }

  /** What the log of a run can say about one wait: nothing yet, or that it began and was then put on
      the active list by its first event or by its deadline but never both, or, on a condition, by
      its deadline and once by a signal; and, at the end, that it returned. A poll returns `n`, the number
      of its events that epoll reported. */
  ghost predicate Story<W>(about: seq<Event<W>>, w: W, n: nat) {
    || about == []
    || (exists poll :: about == [Began(w, poll)])
    || about == [Began(w, true), Activated(w, Ready)]
    || (exists poll :: about == [Began(w, poll), Activated(w, Timeout)])
    || about == [Began(w, false), Activated(w, Signalled)]
    || about == [Began(w, false), Activated(w, Timeout), Activated(w, Signalled)]
    || PollOver(about, w, n) || CondOver(about, w)
  }

  lemma EveryWaitHasAStory<W, C>(states: seq<State<W, C>>, steps: seq<Step<W, C>>, i: nat, w: W)
    requires Run(states, steps) && i < |states|
    ensures Story(About(states[i].log, w), w, states[i].reported[w])
  {
    hide About, PollOver, CondOver;
    EveryStateOfARun(states, steps, i);
    if w in states[i].loop.waits {
      assert InPlace(states[i], w);
    } else if w in states[i].begun {
      assert Past(states[i], w);
    } else {
      NotInLog(states[i].log, w);
    }
  }

  /** What the loop is about to touch is still there: a registration names a live wait, every active
      item can be woken, and its coroutine is neither running, nor a caller of what runs, nor ended. */
  lemma LoopTouchesLiveWaitsOnly<W, C>(states: seq<State<W, C>>, steps: seq<Step<W, C>>, i: nat)
    requires Run(states, steps) && i < |states|
    ensures var s := states[i];
      && (forall fd <- s.loop.reg :: s.loop.reg[fd].wait in s.loop.waits)
      && (forall w <- s.loop.active :: Wakeable(s, w)
            && s.loop.waits[w].owner !in s.stack && s.loop.waits[w].owner !in s.ended)
  {
    EveryStateOfARun(states, steps, i);
    var s := states[i];
    forall w <- s.loop.active
      ensures Wakeable(s, w)
    {
      assert InPlace(s, w);
    }
  }

  /** Between two passes every poll is in the wheel and untouched, and only signalled waits are active. */
  lemma TopOfPass<W, C>(states: seq<State<W, C>>, steps: seq<Step<W, C>>, i: nat)
    requires Run(states, steps) && i < |states| && states[i].phase == Outside
    ensures var s := states[i];
      && (forall w <- s.loop.waits :: s.loop.waits[w].kind.OnFds? ==>
            w in Items(s.loop.pending) && w !in s.loop.active && s.loop.waits[w].raised == 0)
      && (forall w <- s.loop.active :: w in s.loop.waits && Dequeued(s.loop, w))
  {
    hide About, Items;
    EveryStateOfARun(states, steps, i);
    var s := states[i];
    forall w <- s.loop.waits | s.loop.waits[w].kind.OnFds?
      ensures w in Items(s.loop.pending) && w !in s.loop.active && s.loop.waits[w].raised == 0
    {
      assert InPlace(s, w);
    }
  }

  /** No wait is forgotten: each is in the wheel, on the active list or in the queue of its condition. */
  lemma NoWaitIsForgotten<W, C>(states: seq<State<W, C>>, steps: seq<Step<W, C>>, i: nat, w: W)
    requires Run(states, steps) && i < |states| && w in states[i].loop.waits
    ensures var l := states[i].loop;
      || w in Items(l.pending) || w in l.active
      || (l.waits[w].kind.OnCond? && l.waits[w].kind.cond in l.queues && w in l.queues[l.waits[w].kind.cond])
  {
    hide About, Items;
    EveryStateOfARun(states, steps, i);
    assert InPlace(states[i], w);
  }

  lemma PhaseOfDrain<W, C>(s: State<W, C>, step: Step<W, C>)
    requires Enabled(s, step) && s.phase.Draining? && step != EndPass
    ensures Apply(s, step).phase == s.phase
  {
    if step.SignalAll? {
      PhaseOfBroadcast(s, step.cond);
    }
  }

  lemma {:induction false} PhaseOfBroadcast<W, C>(s: State<W, C>, c: C)
    requires c in s.loop.queues
    ensures BroadcastStep(s, c).phase == s.phase
    decreases |s.loop.queues[c]|
  {
    if s.loop.queues[c] != [] {
      PhaseOfBroadcast(SignalStep(s, c), c);
    }
  }

  lemma {:induction false} PhaseUntilEnd<W, C>(states: seq<State<W, C>>, steps: seq<Step<W, C>>, i: nat, j: nat)
    requires Run(states, steps) && i <= j < |states| && states[i].phase.Draining?
    requires forall k :: i <= k < j ==> steps[k] != EndPass
    ensures states[j].phase == states[i].phase
    decreases j - i
  {
    if i < j {
      assert steps[i] != EndPass && Enabled(states[i], steps[i]) && states[i + 1] == Apply(states[i], steps[i]);
      PhaseOfDrain(states[i], steps[i]);
      PhaseUntilEnd(states, steps, i + 1, j);
    }
  }

  /** A pass keeps its word: a wait that was due when the pass looked at the clock, or whose event epoll
      reported in it, is over when the pass ends, whatever the coroutines do in between. */
  lemma PassWakesWhatItOwes<W, C>(states: seq<State<W, C>>, steps: seq<Step<W, C>>, i: nat, j: nat, now: nat, w: W)
    requires Run(states, steps) && i < j < |steps| && steps[i] == Expire(now) && steps[j] == EndPass
    requires forall k :: i < k < j ==> steps[k] != EndPass
    requires w in states[i].loop.waits
    requires states[i].loop.waits[w].detached
          || (Origin(states[i].loop.start, now) <= now && w in Items(Due(states[i].loop.pending, now)))
    ensures w !in states[j + 1].loop.waits
  {
    hide About, Items, Activations, ByDeadline, Due, Later;
    EveryStateOfARun(states, steps, i);
    EveryStateOfARun(states, steps, j);
    var s := states[i];
    ItemsOfByDeadline(Due(s.loop.pending, now));
    DetachedIsActive(s, w);
    assert states[i + 1] == ExpireStep(s, now);
    assert w in states[i + 1].phase.owed;
    PhaseUntilEnd(states, steps, i + 1, j);
    assert Enabled(states[j], EndPass) && states[j + 1] == Apply(states[j], EndPass);
  }

  lemma DetachedIsActive<W, C>(s: State<W, C>, w: W)
    requires Stories(s) && w in s.loop.waits
    ensures s.loop.waits[w].detached && s.loop.waits[w].kind.OnFds? ==> w in s.loop.active
    ensures s.loop.waits[w].kind.OnCond? ==> !s.loop.waits[w].detached
  {
    assert InPlace(s, w);
  }

  // ----- deadlines over runs

  lemma {:induction false} PendingOfBroadcast<W, C>(s: State<W, C>, c: C)
    requires c in s.loop.queues
    ensures forall e <- BroadcastStep(s, c).loop.pending :: e in s.loop.pending
    ensures BroadcastStep(s, c).loop.reg == s.loop.reg && BroadcastStep(s, c).begun == s.begun
    decreases |s.loop.queues[c]|
  {
    if s.loop.queues[c] != [] {
      SignalDoes(s.loop, c);
      PendingOfBroadcast(SignalStep(s, c), c);
    }
  }

  /** No step gives a deadline to a wait that began before. */
  lemma PendingOfStep<W, C>(s: State<W, C>, step: Step<W, C>)
    requires Inv(s) && Enabled(s, step)
    ensures s.begun <= Apply(s, step).begun
    ensures forall e <- Apply(s, step).loop.pending :: e in s.loop.pending || e.item !in s.begun
  {
    hide Inv, About, Items, Past, InPlace, Cancel, Without, ByDeadline, Due, Later, Activations, Broadcast, Register;
    match step
    case Resume(co) => PendingOfInterrupt(s, co);
    case Poll(w, fds, accepted, timeout, at) => BeginPollDoes(s.loop, w, Top(s), fds, accepted, timeout, at);
    case SignalOne(c) => SignalDoes(s.loop, c);
    case SignalAll(c) => PendingOfBroadcast(s, c);
    case Report(fd, mask) => PendingOfReport(s.loop, fd, mask);
    case Expire(now) => LaterMembers(s.loop.pending, now);
    case Drain => PendingOfEnd(PopActive(s.loop), s.loop.active[0]);
    case _ =>
  }

  lemma PendingOfEnd<W, C>(l: Loop<W, C>, w: W)
    requires w in l.waits && (l.waits[w].kind.OnCond? ==> l.waits[w].kind.cond in l.queues)
    ensures forall e <- EndWait(l, w).pending :: e in l.pending
  {
    CancelMembers(l.pending, w);
  }

  lemma PendingOfInterrupt<W, C>(s: State<W, C>, co: nat)
    requires Enabled(s, Resume(co))
    ensures forall e <- Interrupt(s, co).loop.pending :: e in s.loop.pending
  {
    forall w <- s.loop.waits | Interruptible(s, w)
      ensures forall e <- EndWait(s.loop, w).pending :: e in s.loop.pending
    {
      PendingOfEnd(s.loop, w);
    }
  }

  lemma PendingOfReport<W, C>(l: Loop<W, C>, fd: int, mask: int)
    requires fd in l.reg && l.reg[fd].wait in l.waits
    ensures forall e <- Prepare(l, fd, mask).pending :: e in l.pending
  {
    CancelMembers(l.pending, l.reg[fd].wait);
  }

  lemma {:induction false} DeadlineIsKept<W, C>(states: seq<State<W, C>>, steps: seq<Step<W, C>>, i: nat, j: nat, w: W, due: nat)
    requires Run(states, steps) && i <= j < |states| && w in states[i].begun
    requires forall e <- states[i].loop.pending :: e.item == w ==> e.at == due
    ensures w in states[j].begun && forall e <- states[j].loop.pending :: e.item == w ==> e.at == due
    decreases j - i
  {
    hide Inv, Apply, Enabled;
    if i < j {
      DeadlineIsKept(states, steps, i, j - 1, w, due);
      EveryStateOfARun(states, steps, j - 1);
      assert states[j] == Apply(states[j - 1], steps[j - 1]);
      PendingOfStep(states[j - 1], steps[j - 1]);
    }
  }

  /** A look at the clock ends a wait by its deadline exactly if the deadline is not in the future. */
  lemma DeadlineDecides<W, C>(s: State<W, C>, now: nat, w: W, due: nat)
    requires Inv(s) && Enabled(s, Expire(now)) && s.loop.start <= now
    requires w in Items(s.loop.pending) && forall e <- s.loop.pending :: e.item == w ==> e.at == due
    ensures var s' := Apply(s, Expire(now));
      if due <= now
      then w in s'.loop.active && w !in Items(s'.loop.pending) && w in s'.loop.waits && s'.loop.waits[w].timedOut
           && About(s'.log, w) == About(s.log, w) + [Activated(w, Timeout)]
      else (w in s'.loop.active <==> w in s.loop.active) && w in Items(s'.loop.pending)
           && About(s'.log, w) == About(s.log, w)
  {
    hide About, Stories, Passes, Owners, Calls, Registrations, Activations, Due, Later, ByDeadline, Items;
    var due' := Items(ByDeadline(Due(s.loop.pending, now)));
    ItemsMembers(s.loop.pending);
    ItemsMembers(Due(s.loop.pending, now));
    ItemsMembers(Later(s.loop.pending, now));
    DueMembers(s.loop.pending, now);
    LaterMembers(s.loop.pending, now);
    DueOrLater(s.loop.pending, now);
    ItemsOfByDeadline(Due(s.loop.pending, now));
    AboutActivations(s.log, due', w);
  }

  /** The deadline of a wait that a step begins. */
  ghost predicate Begins<W, C>(step: Step<W, C>, w: W, due: int) {
    match step
    case Poll(v, _, _, timeout, at) => v == w && due == at + if timeout > 40_000 then 40_000 else timeout
    case CondWait(v, _, ms, at) => v == w && ms > 0 && due == at + ms
    case _ => false
  }

  lemma DeadlineIsSet<W, C>(s: State<W, C>, step: Step<W, C>, w: W, due: int)
    requires Inv(s) && Enabled(s, step) && Begins(step, w, due) && w in Apply(s, step).loop.waits
    ensures due >= 0 && w in Apply(s, step).begun
    ensures forall e <- Apply(s, step).loop.pending :: e.item == w ==> e.at == due
  {
    hide About, InPlace, Past, Register;
    ItemsMembers(s.loop.pending);
    assert w !in s.loop.waits;
    match step
    case Poll(_, fds, accepted, timeout, at) =>
      PollIsAccepted(s.loop.start, at, timeout);
      BeginPollDoes(s.loop, w, Top(s), fds, accepted, timeout, at);
    case CondWait(_, c, ms, at) =>
      BeginCondDoes(s.loop, w, Top(s), c, ms, at);
  }

  /** Never early and never late: whatever happens between the beginning of a wait with a limit and a look at
      the clock at which it is still in the wheel, that look ends it exactly if its limit is over. */
  lemma WaitsEndOnTime<W, C>(states: seq<State<W, C>>, steps: seq<Step<W, C>>, i: nat, j: nat, w: W, due: nat)
    requires Run(states, steps) && i < j < |steps| && Begins(steps[i], w, due) && w in states[i + 1].loop.waits
    requires steps[j].Expire? && states[j].loop.start <= steps[j].now && w in Items(states[j].loop.pending)
    ensures About(states[j + 1].log, w) == About(states[j].log, w) + [Activated(w, Timeout)] <==> due <= steps[j].now
    ensures w in Items(states[j + 1].loop.pending) <==> due > steps[j].now
  {
    EveryStateOfARun(states, steps, i);
    EveryStateOfARun(states, steps, j);
    hide About, Inv, Apply, Enabled;
    assert states[i + 1] == Apply(states[i], steps[i]) && states[j + 1] == Apply(states[j], steps[j]);
    DeadlineIsSet(states[i], steps[i], w, due);
    DeadlineIsKept(states, steps, i + 1, j, w, due);
    DeadlineDecides(states[j], steps[j].now, w, due);
  }

  // ----- registrations over runs

  /** A poll that suspends has registered every descriptor that was accepted and free. */
  lemma PollRegisters<W, C>(s: State<W, C>, step: Step<W, C>, k: nat)
    requires Enabled(s, step) && step.Poll? && k < |step.fds|
    requires step.fds[k] > -1 && step.accepted[k] && step.fds[k] !in s.loop.reg
    ensures var reg := Apply(s, step).loop.reg;
      step.fds[k] in reg && reg[step.fds[k]].wait == step.w && reg[step.fds[k]].index <= k
      && step.fds[reg[step.fds[k]].index] == step.fds[k]
  {
    BeginPollDoes(s.loop, step.w, Top(s), step.fds, step.accepted, step.timeout, step.at);
  }

  /** A wait that a step ends, and that asked for `fd`. */
  ghost predicate EndsWaitOn<W, C>(s: State<W, C>, s': State<W, C>, fd: int) {
    exists v <- s.loop.waits ::
      s.loop.waits[v].kind.OnFds? && fd in s.loop.waits[v].kind.fds && v !in s'.loop.waits
  }

  lemma EndWaitEnds<W, C>(l: Loop<W, C>, w: W)
    requires w in l.waits && (l.waits[w].kind.OnCond? ==> l.waits[w].kind.cond in l.queues)
    ensures w !in EndWait(l, w).waits
  {
  }

  lemma RegistrationsOfEnd<W, C>(l: Loop<W, C>, w: W, fd: int)
    requires w in l.waits && (l.waits[w].kind.OnCond? ==> l.waits[w].kind.cond in l.queues) && fd in l.reg
    requires l.waits[w].kind.OnFds? ==> fd !in l.waits[w].kind.fds
    ensures fd in EndWait(l, w).reg && EndWait(l, w).reg[fd] == l.reg[fd]
  {
  }

  lemma RegistrationsOfStep<W, C>(s: State<W, C>, step: Step<W, C>, fd: int)
    requires Inv(s) && Enabled(s, step) && fd in s.loop.reg && step != CloseFd(fd)
    requires !EndsWaitOn(s, Apply(s, step), fd)
    ensures fd in Apply(s, step).loop.reg && Apply(s, step).loop.reg[fd] == s.loop.reg[fd]
  {
    hide Inv, About, Items, Past, InPlace, Cancel, Without, ByDeadline, Due, Later, Activations, Broadcast, Register;
    var s' := Apply(s, step);
    match step
    case Resume(co) =>
      if exists w <- s.loop.waits :: Owns(s, co, w) {
        var w :| w in s.loop.waits && Owns(s, co, w) && Interrupt(s, co)
          == s.(loop := EndWait(s.loop, w), log := s.log + [Interrupted(w, s.loop.waits[w].raised)]);
        EndWaitEnds(s.loop, w);
        assert w !in s'.loop.waits;
        RegistrationsOfEnd(s.loop, w, fd);
      }
    case Poll(w, fds, accepted, timeout, at) => BeginPollDoes(s.loop, w, Top(s), fds, accepted, timeout, at);
    case SignalOne(c) => SignalDoes(s.loop, c);
    case SignalAll(c) => PendingOfBroadcast(s, c);
    case Drain =>
      var w := s.loop.active[0];
      EndWaitEnds(PopActive(s.loop), w);
      assert w !in s'.loop.waits;
      RegistrationsOfEnd(PopActive(s.loop), w, fd);
    case _ =>
  }

  /** A descriptor stays registered to its wait, under its index, until it is closed or a wait that asked
      for it ends. */
  lemma {:induction false} RegistrationIsKept<W, C>(states: seq<State<W, C>>, steps: seq<Step<W, C>>, i: nat, j: nat, fd: int)
    requires Run(states, steps) && i <= j < |states| && fd in states[i].loop.reg
    requires forall k :: i <= k < j ==> steps[k] != CloseFd(fd) && !EndsWaitOn(states[k], states[k + 1], fd)
    ensures fd in states[j].loop.reg && states[j].loop.reg[fd] == states[i].loop.reg[fd]
    decreases j - i
  {
    hide Inv, Apply, Enabled, EndsWaitOn;
    if i < j {
      RegistrationIsKept(states, steps, i, j - 1, fd);
      EveryStateOfARun(states, steps, j - 1);
      assert states[j] == Apply(states[j - 1], steps[j - 1]);
      assert !EndsWaitOn(states[j - 1], states[j - 1 + 1], fd);
      RegistrationsOfStep(states[j - 1], steps[j - 1], fd);
    }
  }

  // ----- events over runs

  lemma WaitsOfEnd<W, C>(l: Loop<W, C>, w: W)
    requires w in l.waits && (l.waits[w].kind.OnCond? ==> l.waits[w].kind.cond in l.queues)
    ensures EndWait(l, w).waits == l.waits - {w}
  {
  }

  lemma WaitsOfInterrupt<W, C>(s: State<W, C>, co: nat)
    requires Enabled(s, Resume(co))
    ensures forall v <- Interrupt(s, co).loop.waits :: v in s.loop.waits && Interrupt(s, co).loop.waits[v] == s.loop.waits[v]
  {
    hide EndWait;
    forall w <- s.loop.waits | Interruptible(s, w)
      ensures EndWait(s.loop, w).waits == s.loop.waits - {w}
    {
      WaitsOfEnd(s.loop, w);
    }
  }

  lemma MasksOfStep<W, C>(s: State<W, C>, step: Step<W, C>, w: W, k: nat)
    requires Enabled(s, step) && w in s.loop.waits && w in Apply(s, step).loop.waits
    requires k in s.loop.waits[w].revents && !(step.Report? && s.loop.reg[step.fd] == Registration(w, k))
    requires Inv(s)
    ensures var x := Apply(s, step).loop.waits[w]; k in x.revents && x.revents[k] == s.loop.waits[w].revents[k]
  {
    hide Inv, Cancel, Without, ByDeadline, Due, Later, Activations, Broadcast, Register, EndWait, Prepare, Interrupt;
    InvBegun(s);
    match step
    case Resume(co) => WaitsOfInterrupt(s, co);
    case SignalAll(c) => WaitsOfBroadcast(s, c);
    case Report(fd, mask) => PrepareDoes(s.loop, fd, mask);
    case Drain => WaitsOfEnd(PopActive(s.loop), s.loop.active[0]);
    case _ =>
  }

  lemma InvBegun<W, C>(s: State<W, C>)
    requires Inv(s)
    ensures forall w <- s.loop.waits :: w in s.begun
  {
  }

  lemma {:induction false} WaitsOfBroadcast<W, C>(s: State<W, C>, c: C)
    requires c in s.loop.queues
    ensures BroadcastStep(s, c).loop.waits == s.loop.waits
    decreases |s.loop.queues[c]|
  {
    if s.loop.queues[c] != [] {
      WaitsOfBroadcast(SignalStep(s, c), c);
    }
  }

  /** The mask of an event is what its wait has at the index of the descriptor, as long as it lasts. */
  lemma {:induction false} MaskIsKept<W, C>(states: seq<State<W, C>>, steps: seq<Step<W, C>>, i: nat, j: nat)
    requires Run(states, steps) && i < j < |states| && steps[i].Report?
    requires var r := states[i].loop.reg[steps[i].fd];
      && (forall k :: i < k <= j ==> r.wait in states[k].loop.waits)
      && (forall k :: i < k < j ==> !(steps[k].Report? && states[k].loop.reg[steps[k].fd] == r))
    ensures var r := states[i].loop.reg[steps[i].fd];
      var revents := states[j].loop.waits[r.wait].revents;
      r.index in revents && revents[r.index] == steps[i].mask
    decreases j - i
  {
    hide Inv, Apply;
    var r := states[i].loop.reg[steps[i].fd];
    if j == i + 1 {
      assert states[j] == Apply(states[i], steps[i]);
      MaskIsSet(states[i], steps[i].fd, steps[i].mask);
    } else {
      MaskIsKept(states, steps, i, j - 1);
      EveryStateOfARun(states, steps, j - 1);
      assert states[j] == Apply(states[j - 1], steps[j - 1]);
      MasksOfStep(states[j - 1], steps[j - 1], r.wait, r.index);
    }
  }

  lemma MaskIsSet<W, C>(s: State<W, C>, fd: int, mask: int)
    requires Enabled(s, Report(fd, mask))
    ensures var r, s' := s.loop.reg[fd], Apply(s, Report(fd, mask));
      r.wait in s'.loop.waits && r.index in s'.loop.waits[r.wait].revents
      && s'.loop.waits[r.wait].revents[r.index] == mask
  {
    PrepareDoes(s.loop, fd, mask);
  }

  // ----- the call stack of a run

  /** What a step does to the call stack, if anything; `frame` is the stack that is left behind. */
  ghost function CallOf<W, C>(s: State<W, C>, step: Step<W, C>, frame: seq<Bytes.byte>): seq<Coroutines.Op<nat>>
    requires Enabled(s, step)
  {
    match step
    case Resume(co) => [Coroutines.Resume(co, frame)]
    case Yield => [Coroutines.Yield(frame)]
    case Finish => [Coroutines.Finish(frame)]
    case Poll(_, _, _, timeout, at) =>
      if Accepts(s.loop.start, at, at + Clamp(timeout)) then [Coroutines.Yield(frame)] else []
    case CondWait(_, _, ms, at) =>
      if ms <= 0 || Accepts(s.loop.start, at, at + ms) then [Coroutines.Yield(frame)] else []
    case Drain => [Coroutines.Resume(s.loop.waits[s.loop.active[0]].owner, frame)]
    case _ => []
  }

  lemma StepIsACall<W, C>(s: State<W, C>, step: Step<W, C>, frame: seq<Bytes.byte>, m: Coroutines.Machine<nat>)
    requires Inv(s) && Enabled(s, step) && m.calls == s.stack && m.ended == s.ended
    ensures var ops, s' := CallOf(s, step, frame), Apply(s, step);
      && |ops| <= 1
      && (ops == [] ==> s'.stack == s.stack && s'.ended == s.ended)
      && (ops != [] ==>
            && Coroutines.Allowed(m, ops[0])
            && Coroutines.Do(m, ops[0]).calls == s'.stack && Coroutines.Do(m, ops[0]).ended == s'.ended)
  {
    hide About, Items, InPlace, Past, Prepare, TakeTimeouts;
    if step.Drain? {
      ActiveIsWakeable(s, s.loop.active[0]);
    }
    if step.SignalAll? {
      StackOfBroadcast(s, step.cond);
    }
  }

  lemma {:induction false} StackOfBroadcast<W, C>(s: State<W, C>, c: C)
    requires c in s.loop.queues
    ensures BroadcastStep(s, c).stack == s.stack && BroadcastStep(s, c).ended == s.ended
    decreases |s.loop.queues[c]|
  {
    if s.loop.queues[c] != [] {
      StackOfBroadcast(SignalStep(s, c), c);
    }
  }

  /** The call stack of a run of the scheduler is that of a run of coroutines, whatever stacks these leave
      behind. So brackets match, and every frame is kept, in runs of the scheduler too. */
  lemma {:induction false} CallsOfARun<W, C>(states: seq<State<W, C>>, steps: seq<Step<W, C>>,
                                              frames: seq<seq<Bytes.byte>>, i: nat)
    returns (ms: seq<Coroutines.Machine<nat>>, ops: seq<Coroutines.Op<nat>>)
    requires Run(states, steps) && i < |states| && |frames| == |steps|
    ensures |ms| == |ops| + 1 && Coroutines.Run(ms, ops)
    ensures ms[|ops|].calls == states[i].stack && ms[|ops|].ended == states[i].ended
  {
    hide Inv, Enabled, Apply, CallOf, Coroutines.Run, Coroutines.Allowed, Coroutines.Do;
    if i == 0 {
      var main := states[0].stack[0];
      ms, ops := [Coroutines.Machine([main], {main}, {}, map[])], [];
      Coroutines.RunStarts(ms[0]);
    } else {
      ms, ops := CallsOfARun(states, steps, frames, i - 1);
      EveryStateOfARun(states, steps, i - 1);
      var s, step, m := states[i - 1], steps[i - 1], ms[|ops|];
      StepIsACall(s, step, frames[i - 1], m);
      var call := CallOf(s, step, frames[i - 1]);
      if call != [] {
        Coroutines.RunGrows(ms, ops, call[0]);
        ms, ops := ms + [Coroutines.Do(m, call[0])], ops + [call[0]];
      }
    }
  }

  // ----- what a scheduler in memory relies on

  lemma InvNames<W, C>(s: State<W, C>)
    requires Inv(s)
    ensures forall fd <- s.loop.reg :: s.loop.reg[fd].wait in s.loop.waits
    ensures forall w <- s.loop.active :: w in s.loop.waits
    ensures forall w <- Items(s.loop.pending) :: w in s.loop.waits
    ensures forall c <- s.loop.queues :: forall w <- s.loop.queues[c] :: w in s.loop.waits
  {
  }

  lemma ActiveIsWakeable<W, C>(s: State<W, C>, w: W)
    requires Inv(s) && w in s.loop.active
    ensures Wakeable(s, w)
  {
    assert InPlace(s, w);
  }

  lemma DrainMeans<W, C>(s: State<W, C>)
    requires Inv(s) && LoopRuns(s) && s.phase.Draining? && s.loop.active != [] && |s.stack| < Coroutines.MAX_DEPTH
    ensures var w := s.loop.active[0];
      && Wakeable(s, w) && Enabled(s, Drain) && Inv(Apply(s, Drain))
      && Apply(s, Drain).loop == EndWait(PopActive(s.loop), w)
      && Apply(s, Drain).log == s.log + [Woken(w, s.loop.waits[w].raised)]
  {
    hide Inv, EndWait;
    ActiveIsWakeable(s, s.loop.active[0]);
    StepKeeps(s, Drain);
  }

  lemma CondWaitMeans<W, C>(s: State<W, C>, w: W, c: C, ms: int, at: nat)
    requires Inv(s) && UserRuns(s) && |s.stack| > 1 && w !in s.begun && c in s.loop.queues && at > 0
    ensures var step := CondWait(w, c, ms, at);
      && Enabled(s, step) && Inv(Apply(s, step))
      && Apply(s, step).loop == BeginCond(s.loop, w, Top(s), c, ms, at)
      && (ms <= 0 || Accepts(s.loop.start, at, at + ms) ==> Apply(s, step).log == s.log + [Began(w, false)])
  {
    hide Inv;
    StepKeeps(s, CondWait(w, c, ms, at));
  }

  lemma ResumeMeans<W, C>(s: State<W, C>, co: nat, w: W)
    requires Inv(s) && Enabled(s, Resume(co)) && Owns(s, co, w)
    ensures Wakeable(s, w) && Inv(Apply(s, Resume(co)))
    ensures Apply(s, Resume(co)).loop == EndWait(s.loop, w)
    ensures Apply(s, Resume(co)).log == s.log + [Interrupted(w, s.loop.waits[w].raised)]
  {
    hide About, Items, InPlace, Past;
    StepKeeps(s, Resume(co));
    var v :| v in s.loop.waits && Owns(s, co, v) && Interrupt(s, co)
      == s.(loop := EndWait(s.loop, v), log := s.log + [Interrupted(v, s.loop.waits[v].raised)]);
    assert v == w;
  }

  lemma {:induction false} BroadcastStepIsBroadcast<W, C>(s: State<W, C>, c: C)
    requires c in s.loop.queues
    ensures BroadcastStep(s, c).loop == Broadcast(s.loop, c)
    decreases |s.loop.queues[c]|
  {
    if s.loop.queues[c] != [] {
      BroadcastStepIsBroadcast(SignalStep(s, c), c);
    }
  }
}
