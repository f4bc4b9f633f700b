/**
  The event loop on values: what each operation of libco's scheduler does to the waits, the wheel,
  the active list, the condition queues and the epoll registrations. `W` identifies a wait, `C` a
  condition variable; coroutines are numbered.
*/
module LoopModel {
  import opened Seqs
  import opened Deadlines

  const MAX_TIMEOUT := 40 * 1000
  const WHEEL_SIZE := 60 * 1000

  datatype Kind<C> = OnFds(fds: seq<int>) | OnCond(cond: C)

  /** A suspended call of `co_poll` or `co_cond_timedwait`. */
  datatype Waiting<C> = Waiting(owner: nat, kind: Kind<C>, raised: nat, detached: bool, timedOut: bool,
                                revents: map<int, int>)

  /** What epoll keeps for a descriptor: the wait that registered it and the index it has there. */
  datatype Registration<W> = Registration(wait: W, index: nat)

  datatype Loop<W, C> = Loop(
    waits: map<W, Waiting<C>>,
    pending: seq<Entry<W>>,
    start: nat,
    active: seq<W>,
    queues: map<C, seq<W>>,
    reg: map<int, Registration<W>>)

  function Clamp(timeout: int): (r: int)
    ensures r <= MAX_TIMEOUT
  {
    if timeout > MAX_TIMEOUT then MAX_TIMEOUT else timeout
  }

  /** Registering the descriptors `fds[i..]`; the kernel may refuse any of them (`accepted`), and
      refuses one that is registered already. */
  ghost function Register<W>(reg: map<int, Registration<W>>, w: W, fds: seq<int>, accepted: seq<bool>, i: nat)
    : map<int, Registration<W>>
    requires |accepted| == |fds| && i <= |fds|
  {
    if i == 0 then reg
    else
      var r := Register(reg, w, fds, accepted, i - 1);
      var fd := fds[i - 1];
      if fd > -1 && accepted[i - 1] && fd !in r then r[fd := Registration(w, i - 1)] else r
  }

  function Origin(start: nat, now: nat): nat {
    if start == 0 then now else start
  }

  /** The wheel takes a deadline that lies in its window and not before `now`. */
  predicate Accepts(start: nat, now: nat, expire: nat) {
    Origin(start, now) <= now <= expire < Origin(start, now) + WHEEL_SIZE
  }

  /** The first half of `co_poll_inner`, up to the yield. */
  ghost function BeginPoll<W, C>(l: Loop<W, C>, w: W, owner: nat, fds: seq<int>, accepted: seq<bool>,
                                 timeout: int, now: nat): Loop<W, C>
    requires |accepted| == |fds| && now + Clamp(timeout) >= 0
  {
    var expire := now + Clamp(timeout);
    var l' := l.(start := Origin(l.start, now), reg := Register(l.reg, w, fds, accepted, |fds|));
    if Accepts(l.start, now, expire) then
      l'.(waits := l.waits[w := Waiting(owner, OnFds(fds), 0, false, false, map[])],
          pending := l.pending + [Entry(w, expire)])
    else l'
  }

  /** The second half, after control came back: leave every list and deregister every descriptor. */
  ghost function EndPoll<W, C>(l: Loop<W, C>, w: W): Loop<W, C>
    requires w in l.waits && l.waits[w].kind.OnFds?
  {
    l.(waits := l.waits - {w}, pending := Cancel(l.pending, w), active := Without(l.active, w),
       reg := l.reg - (set fd <- l.waits[w].kind.fds | fd > -1))
  }

  ghost function MoveToActive<W, C>(l: Loop<W, C>, w: W): Loop<W, C> {
    l.(pending := Cancel(l.pending, w), active := Without(l.active, w) + [w])
  }

  /** One event that epoll reports for `fd`: `OnPollPreparePfn`. */
  ghost function Prepare<W, C>(l: Loop<W, C>, fd: int, mask: int): Loop<W, C>
    requires fd in l.reg && l.reg[fd].wait in l.waits
  {
    var w, x := l.reg[fd].wait, l.waits[l.reg[fd].wait];
    var x' := x.(raised := x.raised + 1, detached := true, revents := x.revents[l.reg[fd].index := mask]);
    var l' := l.(waits := l.waits[w := x']);
    if x.detached then l' else MoveToActive(l', w)
  }

  ghost predicate Reportable<W, C>(l: Loop<W, C>, reports: seq<(int, int)>) {
    forall r <- reports :: r.0 in l.reg && l.reg[r.0].wait in l.waits
  }

  /** The first `n` events of one `epoll_wait`, in order. */
  ghost function PrepareAll<W, C>(l: Loop<W, C>, reports: seq<(int, int)>, n: nat): (r: Loop<W, C>)
    requires Reportable(l, reports) && n <= |reports|
    ensures r.reg == l.reg && r.waits.Keys == l.waits.Keys
  {
    if n == 0 then l
    else
      assert reports[n - 1] in reports;
      Prepare(PrepareAll(l, reports, n - 1), reports[n - 1].0, reports[n - 1].1)
  }

  ghost function MarkTimedOut<W, C>(waits: map<W, Waiting<C>>, due: seq<W>): map<W, Waiting<C>> {
    map w <- waits :: if w in due then waits[w].(timedOut := true) else waits[w]
  }

  /** The due items go through the timeout list to the tail of the active list. */
  ghost function TakeTimeouts<W, C>(l: Loop<W, C>, now: nat): Loop<W, C> {
    if now < Origin(l.start, now) then l
    else
      var due := Items(ByDeadline(Due(l.pending, now)));
      l.(start := now, waits := MarkTimedOut(l.waits, due), pending := Later(l.pending, now), active := l.active + due)
  }

  ghost function PopActive<W, C>(l: Loop<W, C>): Loop<W, C> {
    if l.active == [] then l else l.(active := l.active[1..])
  }

  /** The first half of `co_cond_timedwait`; without a positive `ms` there is no deadline. */
  ghost function BeginCond<W, C>(l: Loop<W, C>, w: W, owner: nat, c: C, ms: int, now: nat): Loop<W, C>
    requires c in l.queues
  {
    var l' := l.(waits := l.waits[w := Waiting(owner, OnCond(c), 0, false, false, map[])],
                 queues := l.queues[c := l.queues[c] + [w]]);
    if ms <= 0 then l'
    else if Accepts(l.start, now, now + ms) then
      l'.(start := Origin(l.start, now), pending := l.pending + [Entry(w, now + ms)])
    else l.(start := Origin(l.start, now))
  }

  ghost function EndCond<W, C>(l: Loop<W, C>, w: W): Loop<W, C>
    requires w in l.waits && l.waits[w].kind.OnCond? && l.waits[w].kind.cond in l.queues
  {
    var c := l.waits[w].kind.cond;
    l.(waits := l.waits - {w}, queues := l.queues[c := Without(l.queues[c], w)])
  }

  ghost function Signal<W, C>(l: Loop<W, C>, c: C): Loop<W, C>
    requires c in l.queues
  {
    if l.queues[c] == [] then l
    else MoveToActive(l.(queues := l.queues[c := l.queues[c][1..]]), l.queues[c][0])
  }

  ghost function Broadcast<W, C>(l: Loop<W, C>, c: C): Loop<W, C>
    requires c in l.queues
    decreases |l.queues[c]|
  {
    if l.queues[c] == [] then l else Broadcast(Signal(l, c), c)
  }

  // ----- registrations

  /** No descriptor of the call would be registered: each is negative, refused, or taken already. */
  ghost predicate NothingToRegister<W>(reg: map<int, Registration<W>>, fds: seq<int>, accepted: seq<bool>)
    requires |accepted| == |fds|
  {
    forall i :: 0 <= i < |fds| ==> fds[i] > -1 && accepted[i] ==> fds[i] in reg
  }

  lemma {:induction false} RegisterNothing<W>(reg: map<int, Registration<W>>, w: W, fds: seq<int>, accepted: seq<bool>, i: nat)
    requires |accepted| == |fds| && i <= |fds| && NothingToRegister(reg, fds, accepted)
    ensures Register(reg, w, fds, accepted, i) == reg
  {
    if i > 0 {
      RegisterNothing(reg, w, fds, accepted, i - 1);
    }
  }

  /** A registration that is there stays; a new one is for a descriptor of the call that is not negative
      and that the kernel accepted, under the first index it was accepted at; and each such gets one. */
  lemma {:induction false} RegisterKeeps<W>(reg: map<int, Registration<W>>, w: W, fds: seq<int>, accepted: seq<bool>, i: nat)
    requires |accepted| == |fds| && i <= |fds|
    ensures var r := Register(reg, w, fds, accepted, i);
      && (forall fd <- reg :: fd in r && r[fd] == reg[fd])
      && (forall fd <- r :: fd in reg || (fd > -1 && r[fd].wait == w
            && r[fd].index < i && fds[r[fd].index] == fd && accepted[r[fd].index]))
      && (forall k :: 0 <= k < i && fds[k] > -1 && accepted[k] ==>
            fds[k] in r && (fds[k] !in reg ==> r[fds[k]].index <= k))
  {
    if i > 0 {
      RegisterKeeps(reg, w, fds, accepted, i - 1);
    }
  }

  // ----- what the operations do, in plain terms

  /** Which polls the wheel accepts, and when they are due. */
  lemma PollIsAccepted(start: nat, now: nat, timeout: int)
    requires now + timeout >= 0
    ensures var from, due := if start == 0 then now else start, now + if timeout > 40_000 then 40_000 else timeout;
      now + Clamp(timeout) == due >= 0 && (Accepts(start, now, due) <==> from <= now <= due < from + 60_000)
  {
  }

  /** A poll with a limit is due when its limit is over, or 40 seconds from now if that is earlier. */
  lemma BeginPollDoes<W, C>(l: Loop<W, C>, w: W, owner: nat, fds: seq<int>, accepted: seq<bool>, timeout: int, now: nat)
    requires |accepted| == |fds| && now + timeout >= 0
    ensures now + Clamp(timeout) >= 0
    ensures var l' := BeginPoll(l, w, owner, fds, accepted, timeout, now);
      var start, due := if l.start == 0 then now else l.start, now + if timeout > 40_000 then 40_000 else timeout;
      var ok := start <= now <= due < start + 60_000;
      && l'.pending == (if ok then l.pending + [Entry(w, due)] else l.pending)
      && l'.waits == (if ok then l.waits[w := Waiting(owner, OnFds(fds), 0, false, false, map[])] else l.waits)
      && l'.start == start && l'.active == l.active && l'.queues == l.queues
      && (forall fd <- l.reg :: fd in l'.reg && l'.reg[fd] == l.reg[fd])
      && (forall fd <- l'.reg :: fd in l.reg || (fd > -1 && l'.reg[fd].wait == w
            && l'.reg[fd].index < |fds| && fds[l'.reg[fd].index] == fd && accepted[l'.reg[fd].index]))
      && (forall k :: 0 <= k < |fds| && fds[k] > -1 && accepted[k] ==>
            fds[k] in l'.reg && (fds[k] !in l.reg ==> l'.reg[fds[k]].index <= k))
  {
    RegisterKeeps(l.reg, w, fds, accepted, |fds|);
  }

  /** The end of a poll takes away its own descriptors, its deadline and its place among the active ones,
      and nothing of any other wait. */
  lemma EndPollDoes<W, C>(l: Loop<W, C>, w: W)
    requires w in l.waits && l.waits[w].kind.OnFds?
    ensures var l', fds := EndPoll(l, w), l.waits[w].kind.fds;
      && (forall fd <- l.reg :: (fd in l'.reg <==> !(fd > -1 && fd in fds)) && (fd in l'.reg ==> l'.reg[fd] == l.reg[fd]))
      && (forall fd <- l'.reg :: fd in l.reg)
      && l'.waits.Keys == l.waits.Keys - {w} && (forall v <- l'.waits :: l'.waits[v] == l.waits[v])
      && (forall e <- l.pending :: e in l'.pending <==> e.item != w) && (forall e <- l'.pending :: e in l.pending)
      && (forall v <- l.active :: v in l'.active <==> v != w) && (forall v <- l'.active :: v in l.active)
      && l'.queues == l.queues && l'.start == l.start
  {
    CancelMembers(l.pending, w);
  }

  /** An event is counted for the wait that registered its descriptor, and its mask kept for that index. */
  lemma PrepareDoes<W, C>(l: Loop<W, C>, fd: int, mask: int)
    requires fd in l.reg && l.reg[fd].wait in l.waits
    ensures var l', w, x := Prepare(l, fd, mask), l.reg[fd].wait, l.waits[l.reg[fd].wait];
      && l'.waits.Keys == l.waits.Keys && (forall v <- l.waits :: v != w ==> l'.waits[v] == l.waits[v])
      && l'.waits[w].raised == x.raised + 1 && l'.waits[w].detached
      && l'.waits[w].revents == x.revents[l.reg[fd].index := mask]
      && l'.waits[w].kind == x.kind && l'.waits[w].owner == x.owner && l'.waits[w].timedOut == x.timedOut
      && (x.detached ==> l'.active == l.active && l'.pending == l.pending)
      && (!x.detached ==> l'.active != [] && l'.active[|l'.active| - 1] == w && (forall e <- l'.pending :: e.item != w))
      && l'.reg == l.reg && l'.queues == l.queues && l'.start == l.start
  {
    CancelMembers(l.pending, l.reg[fd].wait);
  }

  /** How many of the first `n` events are for descriptors that `w` registered. */
  ghost function EventsFor<W, C>(l: Loop<W, C>, reports: seq<(int, int)>, n: nat, w: W): nat
    requires Reportable(l, reports) && n <= |reports|
  {
    if n == 0 then 0
    else
      assert reports[n - 1] in reports;
      EventsFor(l, reports, n - 1, w) + if l.reg[reports[n - 1].0].wait == w then 1 else 0
  }

  /** Every event of a pass is counted, for its wait and no other, and a wait with an event is detached. */
  lemma {:induction false} PrepareAllCounts<W, C>(l: Loop<W, C>, reports: seq<(int, int)>, n: nat, w: W)
    requires Reportable(l, reports) && n <= |reports| && w in l.waits
    ensures var x, c := PrepareAll(l, reports, n).waits[w], EventsFor(l, reports, n, w);
      x.raised == l.waits[w].raised + c && (x.detached <==> l.waits[w].detached || c > 0)
  {
    if n > 0 {
      assert reports[n - 1] in reports;
      PrepareAllCounts(l, reports, n - 1, w);
      PrepareDoes(PrepareAll(l, reports, n - 1), reports[n - 1].0, reports[n - 1].1);
    }
  }

  /** What a wait has at an index after a pass is the mask of the last event for its descriptor. */
  lemma {:induction false} PrepareAllMasks<W, C>(l: Loop<W, C>, reports: seq<(int, int)>, n: nat, k: nat)
    requires Reportable(l, reports) && k < n <= |reports|
    requires forall f <- l.reg, g <- l.reg :: f != g ==> l.reg[f] != l.reg[g]
    requires forall j :: k < j < n ==> reports[j].0 != reports[k].0
    ensures reports[k].0 in l.reg && l.reg[reports[k].0].wait in l.waits
    ensures var r := l.reg[reports[k].0];
      var revents := PrepareAll(l, reports, n).waits[r.wait].revents;
      r.index in revents && revents[r.index] == reports[k].1
  {
    assert reports[k] in reports && reports[n - 1] in reports;
    PrepareDoes(PrepareAll(l, reports, n - 1), reports[n - 1].0, reports[n - 1].1);
    if k < n - 1 {
      PrepareAllMasks(l, reports, n - 1, k);
      assert reports[n - 1].0 != reports[k].0;
    }
  }

  /** Exactly the due waits are marked and become active, behind what is active already. */
  lemma TakeTimeoutsDoes<W, C>(l: Loop<W, C>, now: nat)
    ensures var l' := TakeTimeouts(l, now);
      && (0 < l.start && now < l.start ==> l' == l)
      && (l.start <= now ==>
            && l'.start == now && l.active <= l'.active
            && (forall e <- l.pending :: e.at <= now ==> e.item in l'.active[|l.active|..])
            && (forall e <- l.pending :: e in l'.pending <==> e.at > now) && (forall e <- l'.pending :: e in l.pending)
            && (forall v <- l'.active[|l.active|..] :: exists e <- l.pending :: e.item == v && e.at <= now)
            && (forall v <- l.waits :: v in l'.waits
                  && l'.waits[v] == if v in l'.active[|l.active|..] then l.waits[v].(timedOut := true) else l.waits[v]))
      && l'.waits.Keys == l.waits.Keys && l'.reg == l.reg && l'.queues == l.queues
  {
    var due := Due(l.pending, now);
    var l' := TakeTimeouts(l, now);
    if Origin(l.start, now) <= now {
      assert l'.active[|l.active|..] == Items(ByDeadline(due));
      ItemsOfByDeadline(due);
      DueMembers(l.pending, now);
      LaterMembers(l.pending, now);
      ItemsMembers(due);
    }
  }

  /** A condition wait with a limit is due when the limit is over; in any case it is the last in its queue. */
  lemma BeginCondDoes<W, C>(l: Loop<W, C>, w: W, owner: nat, c: C, ms: int, now: nat)
    requires c in l.queues
    ensures var l' := BeginCond(l, w, owner, c, ms, now);
      var start := if l.start == 0 then now else l.start;
      var ok := ms <= 0 || start <= now <= now + ms < start + 60_000;
      && l'.pending == (if ok && ms > 0 then l.pending + [Entry(w, now + ms)] else l.pending)
      && l'.queues == (if ok then l.queues[c := l.queues[c] + [w]] else l.queues)
      && l'.waits == (if ok then l.waits[w := Waiting(owner, OnCond(c), 0, false, false, map[])] else l.waits)
      && l'.start == (if ms > 0 then start else l.start) && l'.active == l.active && l'.reg == l.reg
  {
  }

  /** The end of a condition wait takes it out of its queue; its timer stays where it is. */
  lemma EndCondDoes<W, C>(l: Loop<W, C>, w: W)
    requires w in l.waits && l.waits[w].kind.OnCond? && l.waits[w].kind.cond in l.queues
    ensures var l', c := EndCond(l, w), l.waits[w].kind.cond;
      && l'.queues.Keys == l.queues.Keys && (forall d <- l.queues :: d != c ==> l'.queues[d] == l.queues[d])
      && (forall v <- l.queues[c] :: v in l'.queues[c] <==> v != w) && (forall v <- l'.queues[c] :: v in l.queues[c])
      && l'.waits.Keys == l.waits.Keys - {w} && (forall v <- l'.waits :: l'.waits[v] == l.waits[v])
      && l'.pending == l.pending && l'.active == l.active && l'.reg == l.reg && l'.start == l.start
  {
  }

  /** A signal takes the oldest waiter out of its queue and makes it the last active item; nobody else moves. */
  lemma SignalDoes<W, C>(l: Loop<W, C>, c: C)
    requires c in l.queues
    ensures var l', q := Signal(l, c), l.queues[c];
      && (q == [] ==> l' == l)
      && (q != [] ==>
            && l'.queues == l.queues[c := q[1..]]
            && l'.active != [] && l'.active[|l'.active| - 1] == q[0]
            && (forall v <- l.active :: v != q[0] ==> v in l'.active) && (forall v <- l'.active :: v in l.active || v == q[0])
            && (forall e <- l.pending :: e in l'.pending <==> e.item != q[0]) && (forall e <- l'.pending :: e in l.pending))
      && l'.waits == l.waits && l'.reg == l.reg && l'.start == l.start
  {
    if l.queues[c] != [] {
      CancelMembers(l.pending, l.queues[c][0]);
    }
  }

  ghost predicate NoDanglingRegistration<W, C>(l: Loop<W, C>) {
    forall fd <- l.reg :: l.reg[fd].wait in l.waits
  }

  /** A poll that the wheel refuses returns at once and frees its wait, but what it registered stays with
      epoll. So registrations keep naming live waits exactly if the call had nothing to register. */
  lemma RefusedPollLeaves<W, C>(l: Loop<W, C>, w: W, owner: nat, fds: seq<int>, accepted: seq<bool>, timeout: int, now: nat)
    requires |accepted| == |fds| && now + Clamp(timeout) >= 0
    requires NoDanglingRegistration(l) && w !in l.waits && !Accepts(l.start, now, now + Clamp(timeout))
    ensures NoDanglingRegistration(BeginPoll(l, w, owner, fds, accepted, timeout, now))
       <==> NothingToRegister(l.reg, fds, accepted)
  {
    var l' := BeginPoll(l, w, owner, fds, accepted, timeout, now);
    RegisterKeeps(l.reg, w, fds, accepted, |fds|);
    if NothingToRegister(l.reg, fds, accepted) {
      RegisterNothing(l.reg, w, fds, accepted, |fds|);
    } else {
      var k :| 0 <= k < |fds| && fds[k] > -1 && accepted[k] && fds[k] !in l.reg;
      assert l'.reg[fds[k]].wait == w;
    }
  }

  /** The call it happens to: a poll without a time limit, on one descriptor. */
  lemma UnlimitedPollLeavesARegistration(w: nat, owner: nat)
    ensures var l: Loop<nat, nat> := Loop(map[], [], 1000, [], map[], map[]);
      && NoDanglingRegistration(l)
      && !NoDanglingRegistration(BeginPoll(l, w, owner, [5], [true], -1, 1000))
  {
    var l: Loop<nat, nat> := Loop(map[], [], 1000, [], map[], map[]);
    RefusedPollLeaves(l, w, owner, [5], [true], -1, 1000);
    assert [5][0] > -1 && [true][0];
  }

  /** Polls with a limit are accepted, whatever the limit, exactly while the wheel was last advanced
      less than 20 seconds ago. */
  lemma LimitedPollsAreAccepted(start: nat, now: nat)
    requires 0 < start <= now
    ensures (forall timeout: nat :: Accepts(start, now, now + Clamp(timeout))) <==> now - start < 20_000
  {
    if forall timeout: nat :: Accepts(start, now, now + Clamp(timeout)) {
      assert Accepts(start, now, now + Clamp(MAX_TIMEOUT));
    }
  }

  /** The longest poll at the moment from which on it is refused, and one millisecond before. */
  lemma ALimitedPollIsRefused()
    ensures !Accepts(1000, 21_000, 21_000 + Clamp(40_000)) && Accepts(1000, 20_999, 20_999 + Clamp(40_000))
  {
    LimitedPollsAreAccepted(1000, 21_000);
    LimitedPollsAreAccepted(1000, 20_999);
  }

  // ----- conditions

  /** A waiter that is resumed while its timer is still linked leaves the timer behind, freed: lists
      keep naming live waits exactly if the timer was in none. The loop sees to that; a direct
      resume does not. */
  lemma EndCondLeaves<W, C>(l: Loop<W, C>, w: W)
    requires w in l.waits && l.waits[w].kind.OnCond? && l.waits[w].kind.cond in l.queues
    requires forall v <- Items(l.pending) + l.active :: v in l.waits
    ensures (forall v <- Items(EndCond(l, w).pending) + EndCond(l, w).active :: v in EndCond(l, w).waits)
       <==> w !in Items(l.pending) && w !in l.active
  {
    var l' := EndCond(l, w);
    if w in Items(l.pending) || w in l.active {
      assert w in Items(l'.pending) + l'.active;
    }
  }

  /** A waiter with a time limit of 100 ms that another coroutine resumes at once. */
  lemma ATimerIsLeft()
    ensures var l: Loop<nat, nat> := Loop(map[], [], 1000, [], map[3 := []], map[]);
      var l' := BeginCond(l, 7, 1, 3, 100, 1000);
      7 in l'.waits && l'.waits[7].kind == OnCond(3) && 3 in l'.queues
      && 7 in Items(EndCond(l', 7).pending) && 7 !in EndCond(l', 7).waits
  {
    var l: Loop<nat, nat> := Loop(map[], [], 1000, [], map[3 := []], map[]);
    var l' := BeginCond(l, 7, 1, 3, 100, 1000);
    assert l'.pending == [Entry(7, 1100)];
    EndCondLeaves(l', 7);
  }

  ghost function WithoutAny<W>(s: seq<W>, out: seq<W>): seq<W> {
    if s == [] then [] else if s[0] in out then WithoutAny(s[1..], out) else [s[0]] + WithoutAny(s[1..], out)
  }

  lemma {:induction false} WithoutOneThenOthers<W>(s: seq<W>, w: W, out: seq<W>)
    ensures WithoutAny(Without(s, w), out) == WithoutAny(s, [w] + out)
  {
    if s != [] {
      WithoutOneThenOthers(s[1..], w, out);
    }
  }

  lemma {:induction false} WithoutAnyAppend<W>(s: seq<W>, w: W, out: seq<W>)
    requires w !in out
    ensures WithoutAny(s + [w], out) == WithoutAny(s, out) + [w]
  {
    if s == [] {
      assert s + [w] == [w];
    } else {
      assert (s + [w])[1..] == s[1..] + [w];
      WithoutAnyAppend(s[1..], w, out);
    }
  }

  lemma {:induction false} WithoutNone<W>(s: seq<W>)
    ensures WithoutAny(s, []) == s
  {
    if s != [] {
      WithoutNone(s[1..]);
    }
  }

  lemma OneMoreScheduled<W>(active: seq<W>, q: seq<W>)
    requires q != [] && q[0] !in q[1..]
    ensures WithoutAny(Without(active, q[0]) + [q[0]], q[1..]) + q[1..] == WithoutAny(active, q) + q
  {
    hide WithoutAny, Without;
    var h, t, a := q[0], q[1..], WithoutAny(active, q);
    assert [h] + t == q;
    WithoutAnyAppend(Without(active, h), h, t);
    WithoutOneThenOthers(active, h, t);
    assert a + [h] + t == a + ([h] + t);
  }

  /** Broadcast schedules every waiter of the condition, oldest first, behind whatever else was active,
      leaves the queue empty and touches no other queue. */
  lemma {:induction false} BroadcastIsFifo<W, C>(l: Loop<W, C>, c: C)
    requires c in l.queues && Distinct(l.queues[c])
    ensures var l' := Broadcast(l, c);
      && l'.queues == l.queues[c := []]
      && l'.active == WithoutAny(l.active, l.queues[c]) + l.queues[c]
      && l'.waits == l.waits && l'.reg == l.reg && l'.start == l.start
    decreases |l.queues[c]|
  {
    hide WithoutAny, Without, Cancel;
    var q := l.queues[c];
    WithoutNone(l.active);
    if q == [] {
      assert l.active + [] == l.active && l.queues == l.queues[c := []];
    } else {
      var l1 := Signal(l, c);
      BroadcastIsFifo(l1, c);
      OneMoreScheduled(l.active, q);
      assert l1.queues[c := []] == l.queues[c := []];
    }
  }
}
