/** The part of a timeout item beyond its links: `stTimeoutItem_t`, and `stPoll_t` where it is a poll. */
module Waits {
  import opened IntrusiveLists
  import opened LoopModel

  class Wait {
    const owner: nat
    const kind: Kind<Link<Node<Wait>>>
    var expireTime: nat
    var timedOut: bool
    var raised: nat
    var detached: bool
    var revents: map<int, int>

    constructor (owner: nat, kind: Kind<Link<Node<Wait>>>)
      ensures this.owner == owner && this.kind == kind
      ensures !timedOut && raised == 0 && !detached && revents == map[]
    {
      this.owner, this.kind := owner, kind;
      expireTime, timedOut, raised, detached, revents := 0, false, 0, false, map[];
    }

    ghost function View(): Waiting<Link<Node<Wait>>>
      reads this
    {
      Waiting(owner, kind, raised, detached, timedOut, revents)
    }
  }
}
