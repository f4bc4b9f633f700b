/**
  Coroutines with a stack of their own each, on values: what resuming, yielding and finishing mean to
  a caller who does not know that stacks are shared. `C` identifies a coroutine.
*/
module Coroutines {
  import opened Bytes
  import opened Seqs

  const MAX_DEPTH := 128

  /** `calls` runs from the main coroutine to the one that executes. `frames` holds the stack of every
      started coroutine as it was when control last left it. */
  datatype Machine<C> = Machine(calls: seq<C>, started: set<C>, ended: set<C>, frames: map<C, seq<byte>>)

  ghost function Top<C>(m: Machine<C>): C
    requires m.calls != []
  {
    m.calls[|m.calls| - 1]
  }

  ghost predicate Sound<C>(m: Machine<C>) {
    && 0 < |m.calls| <= MAX_DEPTH && Distinct(m.calls)
    && (forall c <- m.calls :: c in m.started && c !in m.ended)
    && m.ended <= m.started
    && (forall c <- m.started :: c != Top(m) ==> c in m.frames)
  }

  datatype Op<C> = Resume(co: C, frame: seq<byte>) | Yield(frame: seq<byte>) | Finish(frame: seq<byte>)

  /** A coroutine may be resumed if it is not ended and not on the call stack already, which must have
      room; a yield or an end needs someone to return to. */
  ghost predicate Allowed<C>(m: Machine<C>, op: Op<C>) {
    match op
    case Resume(co, _) => co !in m.ended && co !in m.calls && 0 < |m.calls| < MAX_DEPTH
    case Yield(_) => |m.calls| > 1
    case Finish(_) => |m.calls| > 1
  }

  /** `frame` is the stack that the coroutine which executes the operation leaves behind. */
  ghost function Do<C>(m: Machine<C>, op: Op<C>): Machine<C>
    requires Allowed(m, op)
  {
    var m' := m.(frames := m.frames[Top(m) := op.frame]);
    match op
    case Resume(co, _) => m'.(calls := m.calls + [co], started := m.started + {co})
    case Yield(_) => m'.(calls := m.calls[..|m.calls| - 1])
    case Finish(_) => m'.(calls := m.calls[..|m.calls| - 1], ended := m.ended + {Top(m)})
  }

  lemma StaysSound<C>(m: Machine<C>, op: Op<C>)
    requires Sound(m) && Allowed(m, op)
    ensures Sound(Do(m, op))
  {
    var n := |m.calls| - 1;
    assert m.calls == m.calls[..n] + [m.calls[n]];
    ConcatDistinct(m.calls[..n], [m.calls[n]]);
    if op.Resume? {
      ConcatDistinct(m.calls, [op.co]);
    }
  }

  /** Only the main coroutine runs. */
  ghost predicate Initial<C>(m: Machine<C>) {
    |m.calls| == 1 && m.started == {m.calls[0]} && m.ended == {} && m.frames == map[]
  }

  ghost predicate Run<C>(ms: seq<Machine<C>>, ops: seq<Op<C>>) {
    && |ms| == |ops| + 1 && Initial(ms[0])
    && forall i :: 0 <= i < |ops| ==> Allowed(ms[i], ops[i]) && ms[i + 1] == Do(ms[i], ops[i])
  }

  lemma RunStarts<C>(m: Machine<C>)
    requires Initial(m)
    ensures Run([m], [])
  {
  }

  lemma RunGrows<C>(ms: seq<Machine<C>>, ops: seq<Op<C>>, op: Op<C>)
    requires Run(ms, ops) && Allowed(ms[|ops|], op)
    ensures Run(ms + [Do(ms[|ops|], op)], ops + [op])
  {
  }

  /** Every state of a run is sound, and the main coroutine is at the bottom of its call stack. */
  lemma {:induction false} RunIsSound<C>(ms: seq<Machine<C>>, ops: seq<Op<C>>, i: nat)
    requires Run(ms, ops) && i < |ms|
    ensures Sound(ms[i]) && ms[i].calls[0] == ms[0].calls[0]
  {
    if 0 < i {
      RunIsSound(ms, ops, i - 1);
      StaysSound(ms[i - 1], ops[i - 1]);
      assert ms[i] == Do(ms[i - 1], ops[i - 1]);
    }
  }

  /** A coroutine ends when it finishes and not before, and an end is for good: it is never called again. */
  lemma {:induction false} EndsAreForGood<C>(ms: seq<Machine<C>>, ops: seq<Op<C>>, j: nat, co: C)
    requires Run(ms, ops) && j < |ms|
    ensures co in ms[j].ended <==> exists i :: 0 <= i < j && ops[i].Finish? && Top(ms[i]) == co
    ensures co in ms[j].ended ==> co !in ms[j].calls
  {
    RunIsSound(ms, ops, j);
    if j > 0 {
      EndsAreForGood(ms, ops, j - 1, co);
      assert ms[j] == Do(ms[j - 1], ops[j - 1]);
    }
  }

  /** Control goes where the operation says: to the coroutine resumed, or back to the caller. */
  lemma ControlGoes<C>(m: Machine<C>, op: Op<C>)
    requires Sound(m) && Allowed(m, op)
    ensures var m' := Do(m, op);
      && m'.calls != [] && Top(m') == (if op.Resume? then op.co else m.calls[|m.calls| - 2])
      && (forall c <- m.frames :: c != Top(m) ==> c in m'.frames && m'.frames[c] == m.frames[c])
      && Top(m) in m'.frames && m'.frames[Top(m)] == op.frame
      && m'.started == (if op.Resume? then m.started + {op.co} else m.started)
      && m'.ended == (if op.Finish? then m.ended + {Top(m)} else m.ended)
  {
  }

  /** While a call lasts, the stack of callers below it stands still. */
  lemma {:induction false} CallersStandStill<C>(ms: seq<Machine<C>>, ops: seq<Op<C>>, i: nat, j: nat)
    requires Run(ms, ops) && i < j < |ms| && ops[i].Resume?
    requires forall k :: i < k <= j ==> |ms[k].calls| > |ms[i].calls|
    ensures ms[i].calls + [ops[i].co] <= ms[j].calls
    decreases j - i
  {
    assert ms[i + 1] == Do(ms[i], ops[i]);
    if j > i + 1 {
      CallersStandStill(ms, ops, i, j - 1);
      assert ms[j] == Do(ms[j - 1], ops[j - 1]);
      assert |ms[j].calls| > |ms[i].calls|;
    }
  }

  /** The last moment at which the call stack was lower than it is now. */
  lemma {:induction false} LastLower<C>(ms: seq<Machine<C>>, ops: seq<Op<C>>, j: nat, height: nat) returns (i: nat)
    requires Run(ms, ops) && j < |ms| && 0 < height < |ms[j].calls|
    ensures i < j && |ms[i].calls| == height && forall k :: i < k <= j ==> |ms[k].calls| > height
  {
    if j > 0 {
      assert ms[j] == Do(ms[j - 1], ops[j - 1]);
      if |ms[j - 1].calls| <= height {
        i := j - 1;
      } else {
        i := LastLower(ms, ops, j - 1, height);
      }
    }
  }

  /** Brackets match: every yield and every end belongs to the one resume that control has not come back
      from yet, and leaves the very call stack of that moment, so control is back with the resumer. */
  lemma ReturnsToResumer<C>(ms: seq<Machine<C>>, ops: seq<Op<C>>, j: nat) returns (i: nat)
    requires Run(ms, ops) && j < |ops| && !ops[j].Resume?
    ensures i < j && ops[i].Resume? && ops[i].co == Top(ms[j]) && ms[j + 1].calls == ms[i].calls
    ensures forall k :: i < k <= j ==> |ms[k].calls| > |ms[i].calls|
  {
    i := LastLower(ms, ops, j, |ms[j].calls| - 1);
    assert ms[i + 1] == Do(ms[i], ops[i]) && ms[j + 1] == Do(ms[j], ops[j]);
    assert |ms[i + 1].calls| > |ms[i].calls|;
    CallersStandStill(ms, ops, i, j);
  }

  /** A suspended coroutine's stack is nobody else's business: from the operation that suspends it up to
      the one that gives control back, its frame is the one it left. */
  lemma {:induction false} FrameIsKept<C>(ms: seq<Machine<C>>, ops: seq<Op<C>>, i: nat, j: nat)
    requires Run(ms, ops) && i < j < |ms|
    requires forall k :: i < k < j ==> Top(ms[k]) != Top(ms[i])
    ensures Top(ms[i]) in ms[j].frames && ms[j].frames[Top(ms[i])] == ops[i].frame
    decreases j - i
  {
    assert ms[i + 1] == Do(ms[i], ops[i]);
    if j > i + 1 {
      FrameIsKept(ms, ops, i, j - 1);
      assert ms[j] == Do(ms[j - 1], ops[j - 1]);
      assert Top(ms[j - 1]) != Top(ms[i]);
    }
  }
}
