/**
  The coroutine switch of libco. Many coroutines run on one stack memory; whoever runs there next makes
  the previous occupant's bytes be copied out, and a coroutine's own bytes are copied back before it goes
  on. `Env` is proved against `Coroutines`, where every coroutine simply has its own stack.
*/
module SharedStack {
  import opened Bytes
  import opened Seqs
  import opened Coroutines
  import opened Modular

  const PAGE := 0x1000
  const DEFAULT_SIZE := 128 * 1024
  const MAX_SIZE := 8 * 1024 * 1024
  const TURNS := 0x1_0000_0000

  /** The size of a private stack: a default, a limit, and whole pages. */
  function StackSize(requested: int): (r: nat)
    ensures r % 4096 == 0 && 4096 <= r <= 8 * 1024 * 1024
    ensures requested <= 0 ==> r == 128 * 1024
    ensures requested > 8 * 1024 * 1024 ==> r == 8 * 1024 * 1024
    ensures 0 < requested <= 8 * 1024 * 1024 ==> requested <= r < requested + 4096
  {
    var size := if requested <= 0 then DEFAULT_SIZE else if requested > MAX_SIZE then MAX_SIZE else requested;
    if size % PAGE != 0 then size - size % PAGE + PAGE else size
  }

  /** Turns are counted in 32 bits. */
  function Counter(k: nat): (r: nat)
    ensures r < TURNS
  {
    k % TURNS
  }

  /** Which of `n` shared memories is handed out in turn `k`. */
  function Turn(k: nat, n: nat): (r: nat)
    requires n > 0
    ensures r < n
  {
    Counter(k) % n
  }

  lemma NextCounter(k: nat)
    ensures Counter(k + 1) == (Counter(k) + 1) % TURNS
    ensures Counter(k + 1) == if Counter(k) + 1 == TURNS then 0 else Counter(k) + 1
  {
  }

  lemma NextTurn(k: nat, n: nat)
    requires n > 0
    ensures Counter(k) + 1 != TURNS ==> Turn(k + 1, n) == (Turn(k, n) + 1) % n
    ensures Counter(k) + 1 == TURNS ==> Turn(k + 1, n) == 0 && (Turn(k, n) + 1) % n == TURNS % n
  {
    hide Counter;
    NextCounter(k);
    NextMod(Counter(k), n);
    ModIs(0, 0, 0, n);
  }

  /** The shared memories are handed out strictly in turn, for ever, exactly if their number divides 2^32. */
  lemma TurnsAreEven(n: nat)
    requires n > 0
    ensures (forall k: nat :: Turn(k + 1, n) == (Turn(k, n) + 1) % n) <==> TURNS % n == 0
  {
    forall k: nat
      ensures Counter(k) + 1 != TURNS || TURNS % n == 0 ==> Turn(k + 1, n) == (Turn(k, n) + 1) % n
    {
      NextTurn(k, n);
    }
    var last: nat := TURNS - 1;
    NextTurn(last, n);
    if forall k: nat :: Turn(k + 1, n) == (Turn(k, n) + 1) % n {
      assert Turn(last + 1, n) == (Turn(last, n) + 1) % n;
    }
  }

  /** Three memories: when the counter starts over, the first one is handed out twice in a row. */
  lemma ThreeAreNotEven()
    ensures Turn(TURNS - 1, 3) == 0 && Turn(TURNS, 3) == 0
  {
  }

  class StackMem {
    const buffer: array<byte>
    var occupyCo: CoRoutine?

    constructor (size: nat)
      ensures fresh(buffer) && buffer.Length == size && occupyCo == null
    {
      buffer := new byte[size];
      occupyCo := null;
    }
  }

  /** `stShareStack_t`: memories that coroutines are put on by turns. */
  class ShareStack {
    const stackArray: seq<StackMem>
    var allocIdx: nat
    /** How often a memory was handed out. */
    ghost var turns: nat

    constructor (stackArray: seq<StackMem>)
      ensures this.stackArray == stackArray && Valid() && turns == 0
    {
      this.stackArray, allocIdx, turns := stackArray, 0, 0;
    }

    ghost predicate Valid()
      reads this
    {
      allocIdx == Counter(turns)
    }

    /** `co_get_stackmem`. */
    method GetStackMem() returns (mem: StackMem)
      requires Valid() && stackArray != []
      modifies this
      ensures Valid() && turns == old(turns) + 1
      ensures mem == stackArray[Turn(old(turns), |stackArray|)]
    {
      NextCounter(turns);
      var idx := allocIdx % |stackArray|;
      allocIdx := (allocIdx + 1) % TURNS;
      turns := turns + 1;
      return stackArray[idx];
    }
  }

  class CoRoutine {
    const mem: StackMem
    const isShareStack: bool
    var cStart: bool
    var cEnd: bool
    /** Where the stack ended when the coroutine was last suspended; it grows down from the buffer's end. */
    var stackSp: nat
    var saveBuffer: seq<byte>

    constructor (mem: StackMem, isShareStack: bool)
      ensures this.mem == mem && this.isShareStack == isShareStack
      ensures !cStart && !cEnd && stackSp == 0 && saveBuffer == []
    {
      this.mem, this.isShareStack := mem, isShareStack;
      cStart, cEnd, stackSp, saveBuffer := false, false, 0, [];
    }

    /** The stack of a suspended coroutine, wherever its bytes are. */
    ghost function Stack(): seq<byte>
      requires stackSp <= mem.buffer.Length
      reads this, mem, mem.buffer
    {
      if isShareStack && mem.occupyCo != this then saveBuffer else mem.buffer[stackSp..]
    }
  }

  class Env {
    const callStack: array<CoRoutine?>
    var callStackSize: nat
    var pendingCo: CoRoutine?
    var occupyCo: CoRoutine?
    ghost var cos: set<CoRoutine>
    ghost var mems: set<StackMem>
    ghost var buffers: set<array<byte>>
    ghost var calls: seq<CoRoutine>
    ghost var frames: map<CoRoutine, seq<byte>>

    /** `co_init_curr_thread_env`: the main coroutine runs, on the thread's own stack. */
    constructor (size: nat)
      ensures Valid() && fresh(cos) && |calls| == 1 && !calls[0].isShareStack
      ensures Initial(View())
    {
      var mem := new StackMem(size);
      var main := new CoRoutine(mem, false);
      main.cStart := true;
      callStack := new CoRoutine?[MAX_DEPTH](_ => null);
      callStackSize := 1;
      pendingCo, occupyCo := null, null;
      cos, mems, buffers, calls, frames := {main}, {mem}, {mem.buffer}, [main], map[];
      new;
      callStack[0] := main;
    }

    /** Memories do not overlap, one that is used by several coroutines is a shared one, and one on which
        a coroutine was started has an occupant, except while its first one is `starting`. */
    ghost predicate Layout(starting: CoRoutine?)
      reads this`cos, this`mems, this`buffers, cos, mems
    {
      && (forall co <- cos :: co.mem in mems && co.stackSp <= co.mem.buffer.Length)
      && (forall m <- mems :: m.buffer in buffers)
      && (forall m <- mems, n <- mems :: m != n ==> m.buffer != n.buffer)
      && (forall a <- cos, b <- cos :: a != b && a.mem == b.mem ==> a.isShareStack && b.isShareStack)
      && (forall m <- mems :: m.occupyCo != null ==>
            m.occupyCo in cos && m.occupyCo.mem == m && m.occupyCo.isShareStack && m.occupyCo.cStart)
      && (forall co <- cos :: co.isShareStack && co.cStart && co != starting ==> co.mem.occupyCo != null)
      && (forall co <- cos :: co.cEnd ==> co.cStart)
    }

    /** Every started coroutine, other than those that just run, has its frame somewhere, and in full. */
    ghost predicate Intact(running: set<CoRoutine>)
      requires forall co <- cos :: co.stackSp <= co.mem.buffer.Length
      reads this`cos, this`frames, cos, (set co <- cos :: co.mem), (set co <- cos :: co.mem.buffer)
    {
      forall co <- cos :: co.cStart && co !in running ==>
        co in frames && co.Stack() == frames[co] && |frames[co]| == co.mem.buffer.Length - co.stackSp
    }

    /** The call stack holds started coroutines that have not ended; one that is `dying` just did. */
    ghost predicate CallsHold(dying: CoRoutine?)
      reads this`calls, this`callStackSize, this`cos, callStack, cos`cStart, cos`cEnd
    {
      && callStack.Length == MAX_DEPTH && callStackSize == |calls| && 0 < |calls| <= MAX_DEPTH
      && (forall i :: 0 <= i < |calls| ==> callStack[i] == calls[i])
      && (forall co <- calls :: co in cos && co.cStart && (co.cEnd ==> co == dying)) && Distinct(calls)
    }

    ghost predicate Steady(dying: CoRoutine?)
      reads this, callStack, cos, mems, buffers, (set co <- cos :: co.mem), (set co <- cos :: co.mem.buffer)
    {
      && CallsHold(dying)
      && Layout(null)
      && (Running().isShareStack ==> Running().mem.occupyCo == Running())
      && Intact({Running()})
    }

    ghost predicate Valid()
      reads this, callStack, cos, mems, buffers, (set co <- cos :: co.mem), (set co <- cos :: co.mem.buffer)
    {
      Steady(null)
    }

    ghost function Running(): CoRoutine
      requires calls != []
      reads this`calls
    {
      calls[|calls| - 1]
    }

    ghost function Started(): set<CoRoutine>
      reads this`cos, cos`cStart
    {
      set co <- cos | co.cStart
    }

    ghost function Ended(): set<CoRoutine>
      reads this`cos, cos`cEnd
    {
      set co <- cos | co.cEnd
    }

    ghost function View(): Machine<CoRoutine>
      reads this`calls, this`frames, this`cos, cos`cStart, cos`cEnd
    {
      Machine(calls, Started(), Ended(), frames)
    }

    /** `save_stack_buffer`. */
    method SaveStackBuffer(co: CoRoutine)
      requires co.stackSp <= co.mem.buffer.Length
      modifies co`saveBuffer
      ensures co.saveBuffer == co.mem.buffer[co.stackSp..]
    {
      var len := co.mem.buffer.Length - co.stackSp;
      co.saveBuffer := [];
      co.saveBuffer := co.mem.buffer[co.stackSp..co.stackSp + len];
    }

    /** `co_swap` up to the switch of context; `c` is where the current stack ends. */
    method SwapOut(curr: CoRoutine, pending: CoRoutine, c: nat)
      requires Layout(pending) && curr in cos && pending in cos && curr != pending && curr.cStart && pending.cStart
      requires c <= curr.mem.buffer.Length
      modifies this`pendingCo, this`occupyCo, curr`stackSp, pending.mem`occupyCo, cos`saveBuffer
      ensures Layout(null)
      ensures curr.stackSp == c
      ensures if pending.isShareStack
              then pendingCo == pending && occupyCo == old(pending.mem.occupyCo) && pending.mem.occupyCo == pending
              else pendingCo == null && occupyCo == null && pending.mem.occupyCo == old(pending.mem.occupyCo)
      ensures forall co <- cos ::
        co.saveBuffer == if pending.isShareStack && co == old(pending.mem.occupyCo) && co != pending
                         then co.mem.buffer[co.stackSp..] else old(co.saveBuffer)
    {
      curr.stackSp := c;
      if !pending.isShareStack {
        pendingCo := null;
        occupyCo := null;
      } else {
        pendingCo := pending;
        var occupy := pending.mem.occupyCo;
        pending.mem.occupyCo := pending;
        occupyCo := occupy;
        if occupy != null && occupy != pending {
          SaveStackBuffer(occupy);
        }
      }
    }

    /** `co_swap` after the switch, run by the coroutine that control came back to. */
    method SwapIn()
      requires pendingCo != null ==>
        pendingCo.stackSp <= pendingCo.mem.buffer.Length
        && (|pendingCo.saveBuffer| > 0 && occupyCo != pendingCo ==>
              |pendingCo.saveBuffer| == pendingCo.mem.buffer.Length - pendingCo.stackSp)
      modifies if pendingCo == null then {} else {pendingCo.mem.buffer}
      ensures pendingCo != null && occupyCo != null && occupyCo != pendingCo && |pendingCo.saveBuffer| > 0 ==>
        pendingCo.mem.buffer[pendingCo.stackSp..] == pendingCo.saveBuffer
      ensures pendingCo != null && (occupyCo == null || occupyCo == pendingCo || |pendingCo.saveBuffer| == 0) ==>
        pendingCo.mem.buffer[..] == old(pendingCo.mem.buffer[..])
    {
      var occupy, pending := occupyCo, pendingCo;
      if occupy != null && pending != null && occupy != pending {
        if |pending.saveBuffer| > 0 {
          var buffer, sp := pending.mem.buffer, pending.stackSp;
          forall i | 0 <= i < |pending.saveBuffer| {
            buffer[sp + i] := pending.saveBuffer[i];
          }
          assert buffer[sp..] == pending.saveBuffer;
        }
      }
    }

    /** Leaving: after the first half of a switch every frame is kept, that of `pending` where it was. */
    method Leave(curr: CoRoutine, pending: CoRoutine, c: nat, first: bool)
      requires Layout(pending) && curr in cos && pending in cos && curr != pending && curr.cStart && pending.cStart
      requires c <= curr.mem.buffer.Length && (curr.isShareStack ==> curr.mem.occupyCo == curr)
      requires Intact(if first then {curr, pending} else {curr})
      modifies this`pendingCo, this`occupyCo, this`frames, curr`stackSp, pending.mem`occupyCo, cos`saveBuffer
      ensures Layout(null) && Intact({pending})
      ensures pending.isShareStack ==> pending.mem.occupyCo == pending
      ensures frames == old(frames)[curr := old(curr.mem.buffer[c..])]
      ensures pendingCo == if pending.isShareStack then pending else null
      ensures pending.isShareStack ==> occupyCo == old(pending.mem.occupyCo)
      ensures !first ==>
        pending in old(frames) && |old(frames)[pending]| == pending.mem.buffer.Length - pending.stackSp
      ensures !first ==>
        old(frames)[pending] == if pending.isShareStack && occupyCo != pending
                                then pending.saveBuffer else pending.mem.buffer[pending.stackSp..]
    {
      ghost var frame := curr.mem.buffer[c..];
      SwapOut(curr, pending, c);
      frames := frames[curr := frame];
      forall co <- cos | co.cStart && co != pending
        ensures co in frames && co.Stack() == frames[co] && |frames[co]| == co.mem.buffer.Length - co.stackSp
      {
        assert co != curr ==> co.mem.buffer[co.stackSp..] == old(co.mem.buffer[co.stackSp..]);
      }
    }

    /** The bytes of the other coroutines are not in the buffer of the one that runs. */
    lemma Apart(running: CoRoutine)
      requires Layout(null) && running in cos && (running.isShareStack ==> running.mem.occupyCo == running)
      ensures forall co <- cos :: co != running ==>
        (co.isShareStack && co.mem.occupyCo != co) || co.mem.buffer != running.mem.buffer
      ensures running.isShareStack ==> running.mem.occupyCo != null
      ensures forall co <- cos :: co.stackSp <= co.mem.buffer.Length
    {
    }

    /** Coming back: the second half of a switch puts the frame of `pending` in place and hurts no other. */
    method ComeBack(pending: CoRoutine)
      requires Layout(null) && pending in cos && Intact({pending})
      requires pending.isShareStack ==> pending.mem.occupyCo == pending && occupyCo != null
      requires pendingCo == if pending.isShareStack then pending else null
      requires pending in frames && |frames[pending]| == pending.mem.buffer.Length - pending.stackSp
      requires frames[pending] == if pending.isShareStack && occupyCo != pending
                                  then pending.saveBuffer else pending.mem.buffer[pending.stackSp..]
      modifies pending.mem.buffer
      ensures Layout(null) && Intact({pending})
      ensures pending.mem.buffer[pending.stackSp..] == frames[pending]
    {
      hide Layout;
      Apart(pending);
      SwapIn();
    }

    /** A whole switch: the current coroutine leaves its stack down to `c`, and `pending` goes on with the
        stack it left, or with a new one if this is its `first` run. */
    method Switch(curr: CoRoutine, pending: CoRoutine, c: nat, first: bool)
      requires Layout(pending) && curr in cos && pending in cos && curr != pending && curr.cStart && pending.cStart
      requires c <= curr.mem.buffer.Length && (curr.isShareStack ==> curr.mem.occupyCo == curr)
      requires Intact(if first then {curr, pending} else {curr})
      requires !first && pending.isShareStack ==> pending.mem.occupyCo != null
      modifies this`pendingCo, this`occupyCo, this`frames, curr`stackSp, pending.mem`occupyCo, cos`saveBuffer, pending.mem.buffer
      ensures Layout(null) && Intact({pending})
      ensures pending.isShareStack ==> pending.mem.occupyCo == pending
      ensures frames == old(frames)[curr := old(curr.mem.buffer[c..])]
      ensures !first ==> pending in old(frames) && pending.mem.buffer[pending.stackSp..] == old(frames)[pending]
    {
      hide Layout, Intact;
      Leave(curr, pending, c, first);
      if !first {
        ComeBack(pending);
      }
    }

    lemma ValidIsSound()
      requires Valid()
      ensures Sound(View())
      ensures forall co <- cos :: co in Ended() <==> co.cEnd
    {
    }

    lemma Returning(last: CoRoutine)
      requires Layout(null) && last in cos && last.cStart
      ensures Layout(last) && (last.isShareStack ==> last.mem.occupyCo != null)
    {
    }

    /** The contexts that a first resume has to make. */
    method Start(co: CoRoutine) returns (first: bool)
      requires Layout(null) && calls != [] && Running() in cos && co in cos && co != Running()
      requires Intact({Running()}) && CallsHold(null)
      modifies co`cStart
      ensures co.cStart && first == !old(co.cStart) && CallsHold(null)
      ensures Layout(co) && Intact(if first then {Running(), co} else {Running()})
      ensures !first && co.isShareStack ==> co.mem.occupyCo != null
      ensures Started() == old(Started()) + {co}
    {
      first := !co.cStart;
      if first {
        co.cStart := true;
      }
    }

    method Push(co: CoRoutine)
      requires CallsHold(null) && co in cos && co.cStart && !co.cEnd && co !in calls && |calls| < MAX_DEPTH
      modifies this`calls, this`callStackSize, callStack
      ensures CallsHold(null) && calls == old(calls) + [co]
    {
      callStack[callStackSize] := co;
      callStackSize := callStackSize + 1;
      ConcatDistinct(calls, [co]);
      calls := calls + [co];
    }

    /** `co_resume` up to the switch. */
    method Enter(co: CoRoutine) returns (first: bool)
      requires Valid() && co in cos && !co.cEnd && co !in calls && |calls| < MAX_DEPTH
      modifies this`calls, this`callStackSize, callStack, co`cStart
      ensures CallsHold(null) && calls == old(calls) + [co] && co.cStart && first == !old(co.cStart)
      ensures Layout(co) && Intact(if first then {old(Running()), co} else {old(Running())})
      ensures !first && co.isShareStack ==> co.mem.occupyCo != null
      ensures Started() == old(Started()) + {co} && Ended() == old(Ended())
    {
      hide Layout, Intact, CallsHold, Started, Ended;
      RunningIsLast();
      first := Start(co);
      Push(co);
    }

    /** `co_resume`. */
    method Resume(co: CoRoutine, c: nat)
      requires Valid() && co in cos && !co.cEnd && co !in calls && |calls| < MAX_DEPTH
      requires c <= Running().mem.buffer.Length
      modifies this`pendingCo, this`occupyCo, this`frames, this`calls, this`callStackSize, callStack
      modifies Running()`stackSp, co`cStart, co.mem`occupyCo, cos`saveBuffer, co.mem.buffer
      ensures Valid()
      ensures var m := old(View()); var op := Coroutines.Resume(co, old(Running().mem.buffer[c..]));
        Sound(m) && Allowed(m, op) && View() == Do(m, op)
      ensures old(co.cStart) ==> co in old(frames) && co.mem.buffer[co.stackSp..] == old(frames)[co]
      ensures Running() == co && co.cStart && frames == old(frames)[old(Running()) := old(Running().mem.buffer[c..])]
    {
      hide Layout, Intact, CallsHold, Started, Ended, Sound;
      ValidIsSound();
      RunningIsLast();
      var curr: CoRoutine := callStack[callStackSize - 1];
      ghost var m, frame := View(), curr.mem.buffer[c..];
      var first := Enter(co);
      Switch(curr, co, c, first);
      assert View() == Machine(m.calls + [co], m.started + {co}, m.ended, m.frames[curr := frame]);
    }

    method Pop(ghost dying: CoRoutine?) returns (last: CoRoutine, curr: CoRoutine)
      requires CallsHold(dying) && |calls| > 1 && (dying != null ==> dying == Running())
      modifies this`calls, this`callStackSize
      ensures CallsHold(null) && calls == old(calls)[..|old(calls)| - 1]
      ensures curr == old(Running()) && last == Running() && last != curr && curr in cos && curr.cStart
    {
      var n := callStackSize - 1;
      last := callStack[callStackSize - 2];
      curr := callStack[callStackSize - 1];
      callStackSize := callStackSize - 1;
      assert calls == calls[..n] + [calls[n]];
      ConcatDistinct(calls[..n], [calls[n]]);
      assert last in calls[..n];
      calls := calls[..n];
    }

    /** `co_yield_env`, for a coroutine that goes on later or for one that just ended. */
    method YieldEnv(c: nat, ghost dying: CoRoutine?)
      requires Steady(dying) && |calls| > 1 && (dying != null ==> dying == Running())
      requires c <= Running().mem.buffer.Length
      modifies this`pendingCo, this`occupyCo, this`frames, this`calls, this`callStackSize
      modifies Running()`stackSp, calls[|calls| - 2].mem`occupyCo, cos`saveBuffer, calls[|calls| - 2].mem.buffer
      ensures Valid()
      ensures calls == old(calls)[..|old(calls)| - 1]
      ensures frames == old(frames)[old(Running()) := old(Running().mem.buffer[c..])]
      ensures Started() == old(Started()) && Ended() == old(Ended())
      ensures Running() in old(frames) && Running().mem.buffer[Running().stackSp..] == old(frames)[Running()]
    {
      hide Layout, Intact, Distinct, Started, Ended;
      var last, curr := Pop(dying);
      Returning(last);
      Switch(curr, last, c, false);
      assert CallsHold(null);
    }

    /** `co_yield_ct`. */
    method Yield(c: nat)
      requires Valid() && |calls| > 1 && c <= Running().mem.buffer.Length
      modifies this`pendingCo, this`occupyCo, this`frames, this`calls, this`callStackSize
      modifies Running()`stackSp, calls[|calls| - 2].mem`occupyCo, cos`saveBuffer, calls[|calls| - 2].mem.buffer
      ensures Valid()
      ensures var m := old(View()); var op := Coroutines.Yield(old(Running().mem.buffer[c..]));
        Sound(m) && Allowed(m, op) && View() == Do(m, op)
      ensures Running() == old(calls[|calls| - 2])
      ensures Running() in old(frames) && Running().mem.buffer[Running().stackSp..] == old(frames)[Running()]
    {
      hide Layout, Intact, Distinct, Started, Ended, Sound, CallsHold;
      ValidIsSound();
      YieldEnv(c, null);
    }

    method MarkEnded(co: CoRoutine)
      requires Valid() && co == Running()
      modifies co`cEnd
      ensures Steady(co) && Ended() == old(Ended()) + {co}
    {
      co.cEnd := true;
    }

    /** The end of `CoRoutineFunc`, when the coroutine's function has returned. */
    method Finish(c: nat)
      requires Valid() && |calls| > 1 && c <= Running().mem.buffer.Length
      modifies this`pendingCo, this`occupyCo, this`frames, this`calls, this`callStackSize
      modifies Running()`stackSp, Running()`cEnd
      modifies calls[|calls| - 2].mem`occupyCo, cos`saveBuffer, calls[|calls| - 2].mem.buffer
      ensures Valid()
      ensures var m := old(View()); var op := Coroutines.Finish(old(Running().mem.buffer[c..]));
        Sound(m) && Allowed(m, op) && View() == Do(m, op)
      ensures old(Running()).cEnd && Running() == old(calls[|calls| - 2])
      ensures Running() in old(frames) && Running().mem.buffer[Running().stackSp..] == old(frames)[Running()]
    {
      hide Layout, Intact, Distinct, Started, Ended, Sound, CallsHold;
      ValidIsSound();
      RunningIsLast();
      var curr: CoRoutine := callStack[callStackSize - 1];
      MarkEnded(curr);
      YieldEnv(c, curr);
    }

    lemma RunningIsLast()
      requires Valid()
      ensures 0 < callStackSize <= callStack.Length && calls != [] && callStack[callStackSize - 1] == Running()
      ensures Running() in cos && Running().cStart
    {
    }

    /** The running coroutine does whatever it does to its stack. */
    method Work(bytes: seq<byte>)
      requires Valid() && |bytes| == Running().mem.buffer.Length
      modifies Running().mem.buffer
      ensures Valid() && View() == old(View()) && Running().mem.buffer[..] == bytes
    {
      hide Layout, Distinct, Started, Ended;
      Apart(Running());
      RunningIsLast();
      var curr: CoRoutine := callStack[callStackSize - 1];
      var buffer := curr.mem.buffer;
      forall i | 0 <= i < buffer.Length {
        buffer[i] := bytes[i];
      }
    }

    /** `co_alloc_stackmem`. */
    method AllocStackMem(size: nat) returns (mem: StackMem)
      requires Valid()
      modifies this`mems, this`buffers
      ensures Valid() && View() == old(View()) && fresh(mem) && mems == old(mems) + {mem}
      ensures mem.buffer.Length == size && mem.occupyCo == null && forall d <- cos :: d.mem != mem
    {
      hide CallsHold, Intact, Started, Ended;
      mem := new StackMem(size);
      mems := mems + {mem};
      buffers := buffers + {mem.buffer};
    }

    /** `co_alloc_sharestack`: so many memories, all different, that nobody is on yet. */
    method AllocShareStack(count: nat, size: nat) returns (share: ShareStack)
      requires Valid()
      modifies this`mems, this`buffers
      ensures Valid() && View() == old(View()) && fresh(share) && share.Valid() && share.turns == 0
      ensures |share.stackArray| == count && forall m <- share.stackArray :: m in mems && m.buffer.Length == size
      ensures forall i, j :: 0 <= i < j < count ==> share.stackArray[i] != share.stackArray[j]
      ensures forall m <- share.stackArray, d <- cos :: d.mem != m
    {
      hide Env.Valid, Started, Ended;
      var ms: seq<StackMem> := [];
      for i := 0 to count
        invariant Valid() && View() == old(View()) && |ms| == i
        invariant forall m <- ms :: m in mems && m.buffer.Length == size
        invariant forall j, k :: 0 <= j < k < i ==> ms[j] != ms[k]
        invariant forall m <- ms, d <- cos :: d.mem != m
      {
        ghost var had := mems;
        var m := AllocStackMem(size);
        assert forall j :: 0 <= j < i ==> ms[j] in ms && ms[j] in had;
        ms := ms + [m];
      }
      share := new ShareStack(ms);
    }

    /** `co_create_env`: on the shared memory whose turn it is, or on one of its own. */
    method CreateEnv(share: ShareStack?, stackSize: int) returns (co: CoRoutine)
      requires Valid()
      requires share != null ==> share.stackArray != [] && share.Valid()
      requires share != null ==> forall m <- share.stackArray :: m in mems && forall d <- cos :: d.mem == m ==> d.isShareStack
      modifies this`cos, this`mems, this`buffers, if share == null then {} else {share}
      ensures Valid() && fresh(co) && cos == old(cos) + {co} && View() == old(View())
      ensures share != null ==>
        co.isShareStack && share.Valid() && share.turns == old(share.turns) + 1
        && co.mem == share.stackArray[Turn(old(share.turns), |share.stackArray|)]
      ensures share == null ==>
        !co.isShareStack && fresh(co.mem) && co.mem.buffer.Length == StackSize(stackSize)
    {
      hide Layout, Intact, CallsHold, Started, Ended, Turn, StackSize;
      var mem;
      if share != null {
        mem := share.GetStackMem();
      } else {
        mem := AllocStackMem(StackSize(stackSize));
      }
      co := Create(mem, share != null);
    }

    /** A new coroutine on the memory `mem`. */
    method Create(mem: StackMem, isShareStack: bool) returns (co: CoRoutine)
      requires Valid() && mem in mems && forall d <- cos :: d.mem == mem ==> isShareStack && d.isShareStack
      requires !isShareStack ==> mem.occupyCo == null
      modifies this`cos
      ensures Valid() && fresh(co) && cos == old(cos) + {co} && View() == old(View())
      ensures co.mem == mem && co.isShareStack == isShareStack
    {
      hide Distinct;
      co := new CoRoutine(mem, isShareStack);
      cos := cos + {co};
      assert CallsHold(null);
      assert Layout(null);
      assert Intact({Running()});
    }
  }
}
