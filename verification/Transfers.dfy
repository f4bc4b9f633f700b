/** The hooked `write` and `send`: a loop over partial transfers. */
module Transfers {
  import opened Bytes

  /** The answer of the system's own function to its `i`-th call, which has `length` bytes to go: negative for
      an error, otherwise how many bytes the kernel accepted. */
  type Kernel = k: (nat, nat) -> int | forall i: nat, length: nat :: k(i, length) <= length
    witness (i, length) => 0

  class Channel {
    /** What the kernel accepted so far, and what it answered. */
    var accepted: seq<byte>
    var answers: seq<int>
    const kernel: Kernel

    constructor (kernel: Kernel)
      ensures this.kernel == kernel && accepted == [] && answers == []
    {
      this.kernel, accepted, answers := kernel, [], [];
    }

    method SysWrite(bytes: seq<byte>) returns (ret: int)
      modifies this
      ensures ret == kernel(|old(answers)|, |bytes|) <= |bytes| && answers == old(answers) + [ret]
      ensures accepted == if ret > 0 then old(accepted) + bytes[..ret] else old(accepted)
    {
      ret := kernel(|answers|, |bytes|);
      answers := answers + [ret];
      if ret > 0 {
        accepted := accepted + bytes[..ret];
      }
    }

    /** The hooked call on a blocking descriptor. A positive result says that exactly that many bytes were
        accepted, in order; any other says that none was and repeats the kernel's last answer. A first
        refusal is tried again, once; after that every answer but the last one was positive, and only an
        answer that is not positive ends the call early. */
    method Write(buf: seq<byte>) returns (ret: int)
      modifies this
      ensures ret <= |buf|
      ensures accepted == if ret > 0 then old(accepted) + buf[..ret] else old(accepted)
      ensures |old(answers)| < |answers| <= |old(answers)| + 1 + |buf| && old(answers) <= answers
      ensures forall k :: |old(answers)| < k < |answers| - 1 ==> answers[k] > 0
      ensures var n, first := |old(answers)|, kernel(|old(answers)|, |buf|);
        && answers[n] == first
        && (|answers| == n + 1 <==> first == 0 || first == |buf| || buf == [])
        && (ret > 0 <==> buf != [] && (first > 0 || (first < 0 && kernel(n + 1, |buf|) > 0)))
      ensures ret <= 0 ==> ret == answers[|answers| - 1] == kernel(|answers| - 1, |buf|)
      ensures 0 < ret < |buf| ==> answers[|answers| - 1] == kernel(|answers| - 1, |buf| - ret) <= 0
    {
      var wrotelen: nat := 0;
      var writeret := SysWrite(buf);
      if writeret == 0 {
        return writeret;
      }
      if writeret > 0 {
        wrotelen := wrotelen + writeret;
      }
      ghost var n, first := |old(answers)|, writeret;
      while wrotelen < |buf|
        invariant wrotelen <= |buf| && accepted == old(accepted) + buf[..wrotelen]
        invariant n < |answers| <= n + 1 + wrotelen && old(answers) <= answers && answers[n] == first
        invariant forall k :: n < k < |answers| ==> answers[k] > 0
        invariant wrotelen == 0 ==> |answers| == n + 1 && writeret == first < 0
        invariant |answers| == n + 1 ==> wrotelen == if first > 0 then first else 0
        invariant |answers| > n + 1 ==> first < |buf|
        invariant wrotelen > 0 ==> first > 0 || kernel(n + 1, |buf|) > 0
        decreases |buf| - wrotelen
      {
        writeret := SysWrite(buf[wrotelen..]);
        if writeret <= 0 {
          break;
        }
        assert buf[..wrotelen + writeret] == buf[..wrotelen] + buf[wrotelen..][..writeret];
        wrotelen := wrotelen + writeret;
        assert accepted == old(accepted) + buf[..wrotelen];
      }
      if writeret <= 0 && wrotelen == 0 {
        return writeret;
      }
      return wrotelen;
    }
  }
}
