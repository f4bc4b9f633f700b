/**
  The small scheduler of coroutine.c: one shared run-time stack, coroutines that save their part of it
  when they yield and put it back when they are resumed, and a table of slots that grows.
*/
module AsymmetricScheduler {
  import opened Bytes
  import opened Modular

  const STACK_SIZE := 1024 * 1024
  const DEFAULT_COROUTINE := 16

  datatype Status = Dead | Ready | Running | Suspended

  // ----- the scheduler on values

  datatype Slot = IsReady | IsRunning | HasYielded(frame: seq<byte>)

  datatype Sched = Sched(slots: map<nat, Slot>, running: int)

  ghost predicate Consistent(s: Sched) {
    && (s.running != -1 ==> s.running in s.slots)
    && (forall id <- s.slots :: s.slots[id] == IsRunning <==> id == s.running)
    && (forall id <- s.slots :: s.slots[id].HasYielded? ==> |s.slots[id].frame| <= STACK_SIZE)
  }

  datatype Op = New(id: nat) | Resume(id: nat) | Yield(frame: seq<byte>) | Finish

  ghost predicate Allowed(s: Sched, op: Op) {
    match op
    case New(id) => id !in s.slots
    case Resume(id) => s.running == -1
    case Yield(frame) => s.running >= 0 && |frame| <= STACK_SIZE
    case Finish => s.running >= 0
  }

  ghost function Do(s: Sched, op: Op): Sched
    requires Allowed(s, op)
  {
    match op
    case New(id) => s.(slots := s.slots[id := IsReady])
    case Resume(id) => if id in s.slots then Sched(s.slots[id := IsRunning], id) else s
    case Yield(frame) => Sched(s.slots[s.running := HasYielded(frame)], -1)
    case Finish => Sched(s.slots - {s.running}, -1)
  }

  lemma StaysConsistent(s: Sched, op: Op)
    requires Consistent(s) && Allowed(s, op)
    ensures Consistent(Do(s, op))
  {
  }

  ghost predicate Run(ss: seq<Sched>, ops: seq<Op>) {
    && |ss| == |ops| + 1 && ss[0] == Sched(map[], -1)
    && forall i :: 0 <= i < |ops| ==> Allowed(ss[i], ops[i]) && ss[i + 1] == Do(ss[i], ops[i])
  }

  /** In every state of a run at most one coroutine runs, the one at `running`, and what is saved fits. */
  lemma {:induction false} RunIsConsistent(ss: seq<Sched>, ops: seq<Op>, i: nat)
    requires Run(ss, ops) && i < |ss|
    ensures Consistent(ss[i])
  {
    if i > 0 {
      RunIsConsistent(ss, ops, i - 1);
      StaysConsistent(ss[i - 1], ops[i - 1]);
      assert ss[i] == Do(ss[i - 1], ops[i - 1]);
    }
  }

  /** Each operation in plain terms. Whatever it does to one coroutine, the others keep their numbers, what
      they saved, and whether they were started. */
  lemma OpDoes(s: Sched, op: Op)
    requires Consistent(s) && Allowed(s, op)
    ensures var s', id := Do(s, op), if op.New? || op.Resume? then op.id else s.running;
      && (forall i <- s.slots :: i != id ==> i in s'.slots && s'.slots[i] == s.slots[i])
      && (forall i <- s'.slots :: i != id ==> i in s.slots)
      && (op.New? ==> id in s'.slots && s'.slots[id] == IsReady && s'.running == s.running)
      && (op.Resume? && id in s.slots ==> s'.running == id && id in s'.slots)
      && (op.Resume? && id !in s.slots ==> s' == s)
      && (op.Yield? ==> s'.running == -1 && id in s'.slots && s'.slots[id] == HasYielded(op.frame))
      && (op.Finish? ==> s'.running == -1 && id !in s'.slots)
  {
  }

  /** A number stays with its coroutine until that ends, and a coroutine that was never resumed stays ready. */
  lemma {:induction false} NumberIsKept(ss: seq<Sched>, ops: seq<Op>, i: nat, j: nat, id: nat)
    requires Run(ss, ops) && i <= j < |ss| && id in ss[i].slots
    requires forall k :: i <= k < j ==> !(ops[k].Finish? && ss[k].running == id)
    ensures id in ss[j].slots
    ensures ss[i].slots[id] == IsReady && (forall k :: i <= k < j ==> ops[k] != Resume(id)) ==> ss[j].slots[id] == IsReady
    decreases j - i
  {
    if i < j {
      NumberIsKept(ss, ops, i, j - 1, id);
      RunIsConsistent(ss, ops, j - 1);
      assert ss[j] == Do(ss[j - 1], ops[j - 1]);
      OpDoes(ss[j - 1], ops[j - 1]);
    }
  }

  /** From the yield that saves a frame until the coroutine is resumed, the frame stays what it was, and the
      number of the coroutine stays its own. */
  lemma {:induction false} FrameIsKept(ss: seq<Sched>, ops: seq<Op>, i: nat, j: nat)
    requires Run(ss, ops) && i < j < |ss| && ops[i].Yield?
    requires forall k :: i < k < j ==> ops[k] != Resume(ss[i].running)
    ensures ss[i].running in ss[j].slots && ss[j].slots[ss[i].running] == HasYielded(ops[i].frame)
    decreases j - i
  {
    assert ss[i + 1] == Do(ss[i], ops[i]);
    if j > i + 1 {
      FrameIsKept(ss, ops, i, j - 1);
      RunIsConsistent(ss, ops, j - 1);
      assert ss[j] == Do(ss[j - 1], ops[j - 1]);
    }
  }

  // ----- the slots

  class Coroutine {
    var cap: nat
    var size: nat
    var status: Status
    var stack: array<byte>

    constructor ()
      ensures cap == 0 && size == 0 && status == Ready && fresh(stack) && stack.Length == 0
    {
      cap, size, status := 0, 0, Ready;
      stack := new byte[0];
    }
  }

  ghost function Count(s: seq<Coroutine?>): nat {
    if s == [] then 0 else Count(s[..|s| - 1]) + if s[|s| - 1] == null then 0 else 1
  }

  lemma {:induction false} CountUpdate(s: seq<Coroutine?>, i: nat, co: Coroutine?)
    requires i < |s|
    ensures Count(s[i := co]) == Count(s) - (if s[i] == null then 0 else 1) + (if co == null then 0 else 1)
  {
    var n := |s| - 1;
    if i == n {
      assert s[i := co][..n] == s[..n];
    } else {
      assert s[i := co][..n] == s[..n][i := co];
      CountUpdate(s[..n], i, co);
    }
  }

  lemma {:induction false} CountFull(s: seq<Coroutine?>)
    ensures Count(s) <= |s|
    ensures Count(s) == |s| <==> forall i :: 0 <= i < |s| ==> s[i] != null
  {
    if s != [] {
      CountFull(s[..|s| - 1]);
    }
  }

  lemma {:induction false} CountPadded(s: seq<Coroutine?>, t: seq<Coroutine?>)
    requires forall i :: 0 <= i < |t| ==> t[i] == null
    ensures Count(s + t) == Count(s)
  {
    if t == [] {
      assert s + t == s;
    } else {
      assert (s + t)[..|s + t| - 1] == s + t[..|t| - 1];
      CountPadded(s, t[..|t| - 1]);
    }
  }

  /** The slot that the scan for a free one looks at in round `i`. */
  function ScanIndex(i: nat, nco: nat, cap: nat): nat
    requires cap > 0
  {
    (i + nco) % cap
  }

  /** The scan from `nco` on, modulo `cap`, reaches every slot. */
  lemma ScanReaches(k: nat, nco: nat, cap: nat) returns (i: nat)
    requires k < cap && nco < cap
    ensures i < cap && ScanIndex(i, nco, cap) == k
  {
    if k >= nco {
      i := k - nco;
      ModIs(k, 0, k, cap);
    } else {
      i := k - nco + cap;
      ModIs(k + cap, 1, k, cap);
    }
  }

  /** A scan that met no free slot has seen them all in use. */
  lemma ScanIsComplete(s: seq<Coroutine?>, nco: nat)
    requires nco < |s|
    requires forall i :: 0 <= i < |s| ==> ScanIndex(i, nco, |s|) < |s| && s[ScanIndex(i, nco, |s|)] != null
    ensures Count(s) == |s|
  {
    forall k | 0 <= k < |s|
      ensures s[k] != null
    {
      var i := ScanReaches(k, nco, |s|);
      assert s[ScanIndex(i, nco, |s|)] != null;
    }
    CountFull(s);
  }

  class Schedule {
    const stack: array<byte>
    var nco: nat
    var cap: nat
    var running: int
    var co: array<Coroutine?>

    /** `coroutine_open`. */
    constructor ()
      ensures Valid() && fresh(stack) && fresh(co) && View() == Sched(map[], -1)
    {
      stack := new byte[STACK_SIZE];
      nco, cap, running := 0, DEFAULT_COROUTINE, -1;
      co := new Coroutine?[DEFAULT_COROUTINE](_ => null);
      new;
      CountPadded([], co[..]);
      assert [] + co[..] == co[..];
    }

    /** The number of coroutines is the number of slots in use; exactly the one at `running` runs; what a
        suspended one saved fits its memory and the run-time stack. */
    ghost predicate Valid()
      reads this, co, set i | 0 <= i < co.Length :: co[i]
    {
      && stack.Length == STACK_SIZE && 0 < cap == co.Length
      && nco == Count(co[..])
      && (running == -1 || (0 <= running < cap && co[running] != null))
      && (forall i :: 0 <= i < cap && co[i] != null ==>
            && co[i].status != Dead
            && (co[i].status == Running <==> i == running)
            && co[i].size <= co[i].cap == co[i].stack.Length && co[i].size <= STACK_SIZE
            && co[i].stack != stack)
      && (forall i, j :: 0 <= i < j < cap && co[i] != null && co[j] != null ==>
            co[i] != co[j] && co[i].stack != co[j].stack)
    }

    ghost function SlotOf(c: Coroutine): Slot
      reads c, c.stack
    {
      if c.status == Running then IsRunning
      else if c.status == Suspended && c.size <= c.stack.Length then HasYielded(c.stack[..c.size])
      else IsReady
    }

    ghost function Slots(): map<nat, Slot>
      reads this, co, (set i | 0 <= i < co.Length :: co[i]), set i | 0 <= i < co.Length && co[i] != null :: co[i].stack
    {
      map i: nat | i < co.Length && co[i] != null :: SlotOf(co[i])
    }

    ghost function View(): Sched
      reads this, co, (set i | 0 <= i < co.Length :: co[i]), set i | 0 <= i < co.Length && co[i] != null :: co[i].stack
    {
      Sched(Slots(), running)
    }

    lemma SlotsAre(m: map<nat, Slot>)
      requires forall i: nat :: i in m <==> i < co.Length && co[i] != null
      requires forall i: nat :: i < co.Length && co[i] != null ==> m[i] == SlotOf(co[i])
      ensures Slots() == m
    {
    }

    lemma SlotsHave()
      ensures forall i: nat :: i in Slots() <==> i < co.Length && co[i] != null
      ensures forall i: nat :: i < co.Length && co[i] != null ==> Slots()[i] == SlotOf(co[i])
    {
    }

    lemma SlotOfNew(c: Coroutine)
      ensures c.status == Ready ==> SlotOf(c) == IsReady
    {
    }

    lemma ValidIsConsistent()
      requires Valid()
      ensures Consistent(View())
    {
    }

    /** `coroutine_new`: the number it returns was free, and the scan for a free one never fails. */
    method New() returns (id: nat)
      requires Valid()
      modifies this`co, this`nco, this`cap, co
      ensures Valid()
      ensures id !in old(View()).slots && View() == Do(old(View()), Op.New(id))
    {
      hide Count, Slots, SlotOf;
      var c := new Coroutine();
      if nco >= cap {
        id := cap;
        Grow();
      } else {
        id := FindFree();
      }
      Store(id, c);
    }

    /** The scan of `coroutine_new` through the slots, from `nco` on. */
    method FindFree() returns (id: nat)
      requires Valid() && nco < cap
      ensures Valid() && id < cap && co[id] == null
    {
      hide Count, View, SlotOf;
      id := 0;
      var found := false;
      for i := 0 to cap
        invariant !found && forall j :: 0 <= j < i ==> ScanIndex(j, nco, cap) < cap && co[ScanIndex(j, nco, cap)] != null
      {
        id := ScanIndex(i, nco, cap);
        if co[id] == null {
          found := true;
          break;
        }
      }
      if !found {
        ScanIsComplete(co[..], nco);
        assert false;
      }
    }

    method Doubled() returns (bigger: array<Coroutine?>)
      requires cap == co.Length
      ensures fresh(bigger) && bigger.Length == cap * 2
      ensures forall i :: 0 <= i < cap * 2 ==> bigger[i] == if i < cap then co[i] else null
    {
      bigger := new Coroutine?[cap * 2](_ => null);
      forall i | 0 <= i < cap {
        bigger[i] := co[i];
      }
    }

    /** Doubling the table: every coroutine keeps its slot, and the new half is free. */
    method Grow()
      requires Valid()
      modifies this`co, this`cap
      ensures Valid() && View() == old(View())
      ensures cap == 2 * old(cap) && fresh(co)
      ensures forall i :: 0 <= i < cap ==> co[i] == if i < old(cap) then old(co[..])[i] else null
    {
      hide Count, SlotOf, Slots;
      SlotsHave();
      ghost var s, m := co[..], Slots();
      var bigger := Doubled();
      ghost var t := bigger[cap..];
      CountPadded(s, t);
      co := bigger;
      cap := cap * 2;
      assert co[..] == s + t;
      SlotsAre(m);
    }

    method Store(id: nat, c: Coroutine)
      requires Valid() && id < cap && co[id] == null
      requires c.status == Ready && c.size == c.cap == c.stack.Length == 0 && c.stack != stack
      requires forall i :: 0 <= i < cap && co[i] != null ==> co[i] != c && co[i].stack != c.stack
      modifies this`nco, co
      ensures Valid() && co[id] == c && cap == old(cap)
      ensures id !in old(View()).slots && View() == Do(old(View()), Op.New(id))
    {
      hide Count, SlotOf, Slots;
      ValidIsConsistent();
      SlotsHave();
      SlotOfNew(c);
      ghost var m := Slots();
      CountUpdate(co[..], id, c);
      ghost var s := co[..];
      co[id] := c;
      assert co[..] == s[id := c];
      nco := nco + 1;
      SlotsAre(m[id := IsReady]);
    }

    method Save(c: Coroutine, dummy: nat)
      requires dummy <= stack.Length && c.stack != stack && c.size <= c.cap == c.stack.Length
      modifies c`cap, c`stack, c`size, c.stack
      ensures c.size == stack.Length - dummy <= c.cap == c.stack.Length
      ensures c.stack == old(c.stack) || fresh(c.stack)
      ensures c.stack[..c.size] == stack[dummy..] && stack[..] == old(stack[..])
    {
      var n := stack.Length - dummy;
      if c.cap < n {
        c.cap := n;
        c.stack := new byte[n];
      }
      c.size := n;
      forall i | 0 <= i < n {
        c.stack[i] := stack[dummy + i];
      }
    }

    /** `coroutine_status`. */
    method StatusOf(id: nat) returns (s: Status)
      requires Valid() && id < cap
      ensures s == Dead <==> id !in View().slots
      ensures s == Ready <==> id in View().slots && View().slots[id] == IsReady
      ensures s == Running <==> id in View().slots && id == View().running
      ensures s == Suspended <==> id in View().slots && View().slots[id].HasYielded?
    {
      if co[id] == null {
        return Dead;
      }
      return co[id].status;
    }

    /** The memory copy of a resume: what was saved goes back to the bottom of the run-time stack. */
    method Restore(c: Coroutine)
      requires stack.Length == STACK_SIZE && c.size <= c.stack.Length && c.size <= STACK_SIZE && c.stack != stack
      modifies stack
      ensures stack[STACK_SIZE - c.size..] == c.stack[..c.size]
      ensures stack[..STACK_SIZE - c.size] == old(stack[..STACK_SIZE - c.size])
    {
      forall i | 0 <= i < c.size {
        stack[STACK_SIZE - c.size + i] := c.stack[i];
      }
    }

    method SetRunning(id: nat, c: Coroutine)
      requires Valid() && running == -1 && id < cap && co[id] == c
      modifies this`running, c`status
      ensures Valid() && View() == Do(old(View()), Op.Resume(id))
    {
      hide Count, Slots;
      ValidIsConsistent();
      SlotsHave();
      ghost var m := Slots();
      running := id;
      c.status := Running;
      SlotsAre(m[id := IsRunning]);
    }

    /** `coroutine_resume`. Resuming a number that is not in use does nothing. Only a coroutine that is ready
        or suspended is ever found: none runs, and a dead one has no slot. */
    method Resume(id: nat)
      requires Valid() && running == -1 && id < cap
      modifies this`running, stack, if co[id] == null then {} else {co[id]}
      ensures Valid() && Consistent(old(View())) && View() == Do(old(View()), Op.Resume(id))
      ensures id in old(View()).slots && old(View()).slots[id].HasYielded? ==>
        var f := old(View()).slots[id].frame;
        |f| <= STACK_SIZE && stack[STACK_SIZE - |f|..] == f && stack[..STACK_SIZE - |f|] == old(stack[..STACK_SIZE - |f|])
    {
      hide Count, Slots;
      ValidIsConsistent();
      SlotsHave();
      var c := co[id];
      if c == null {
        return;
      }
      ghost var m := Slots();
      match c.status
      case Ready =>
        SetRunning(id, c);
      case Suspended =>
        Restore(c);
        SlotsAre(m);
        SetRunning(id, c);
      case _ =>
        assert false;
    }

    /** The copy of a yield; the coroutine still counts as running. */
    method SaveRunning(c: Coroutine, dummy: nat)
      requires Valid() && running != -1 && co[running] == c && dummy <= STACK_SIZE
      modifies c`cap, c`stack, c`size, c.stack
      ensures Valid() && Slots() == old(Slots())
      ensures c.size <= c.stack.Length && c.stack[..c.size] == old(stack[dummy..])
    {
      hide Count, Slots;
      SlotsHave();
      ghost var m, s := Slots(), co[..];
      Save(c, dummy);
      assert co[..] == s;
      SlotsAre(m);
    }

    method SetSuspended(c: Coroutine)
      requires Valid() && running != -1 && co[running] == c
      modifies this`running, c`status
      ensures Valid() && running == -1
      ensures c.size <= c.stack.Length && Slots() == old(Slots())[old(running) := HasYielded(c.stack[..c.size])]
    {
      hide Count, Slots;
      SlotsHave();
      ghost var m, id := Slots(), running;
      c.status := Suspended;
      running := -1;
      SlotsAre(m[id := HasYielded(c.stack[..c.size])]);
    }

    /** `coroutine_yield`, called with the end of the current stack at `dummy`. */
    method Yield(dummy: nat)
      requires Valid() && running != -1 && dummy <= STACK_SIZE
      modifies this`running, co[running], co[running].stack
      ensures Valid() && Consistent(old(View())) && Allowed(old(View()), Op.Yield(old(stack[dummy..])))
      ensures View() == Do(old(View()), Op.Yield(old(stack[dummy..])))
    {
      hide Count, Slots;
      ValidIsConsistent();
      var c := co[running];
      SaveRunning(c, dummy);
      SetSuspended(c);
    }

    /** The end of `mainfunc`, when the coroutine's function has returned. */
    method Finish()
      requires Valid() && running != -1
      modifies this`running, this`nco, co
      ensures Valid() && Consistent(old(View())) && View() == Do(old(View()), Op.Finish)
    {
      hide Count, SlotOf, Slots;
      ValidIsConsistent();
      SlotsHave();
      ghost var m, s := Slots(), co[..];
      var id: nat := running;
      CountUpdate(s, id, null);
      co[id] := null;
      assert co[..] == s[id := null];
      nco := nco - 1;
      running := -1;
      SlotsAre(m - {id});
    }

    /** The running coroutine does whatever it does to the run-time stack. */
    method Work(bytes: seq<byte>)
      requires Valid() && running != -1 && |bytes| == STACK_SIZE
      modifies stack
      ensures Valid() && View() == old(View()) && stack[..] == bytes
    {
      hide Count, Slots;
      SlotsHave();
      ghost var m := Slots();
      forall i | 0 <= i < STACK_SIZE {
        stack[i] := bytes[i];
      }
      SlotsAre(m);
    }
  }
}
