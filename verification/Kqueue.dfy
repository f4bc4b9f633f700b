/**
  The emulation of epoll over kqueue: a map from descriptors to the interest in them, filters registered
  with the kernel to match, and the events of one wait merged by descriptor.
*/
module Kqueue {

  const ROW_SIZE := 1024
  const COL_SIZE := 1024
  const FD_LIMIT := ROW_SIZE * COL_SIZE

  const EPOLLIN: bv32 := 0x001
  const EPOLLOUT: bv32 := 0x004
  const EPOLLERR: bv32 := 0x008
  const EPOLLHUP: bv32 := 0x010

  datatype Filter = Read | Write

  /** What the kernel registers a filter under. */
  datatype Key = Key(fd: int, filter: Filter)

  datatype EpollEvent = EpollEvent(events: bv32, u64: nat)

  function Bit(f: Filter): bv32 {
    match f
    case Read => EPOLLIN
    case Write => EPOLLOUT
  }

  function With(events: bv32, f: Filter): bv32 {
    events | Bit(f)
  }

  predicate Has(events: bv32, f: Filter) {
    events & Bit(f) != 0
  }

  predicate Supported(events: bv32) {
    events & !(EPOLLIN | EPOLLOUT | EPOLLERR | EPOLLHUP) == 0
  }

  class Pair {
    var fireIdx: nat
    var events: bv32
    var u64: nat

    constructor ()
      ensures fireIdx == 0 && events == 0 && u64 == 0
    {
      fireIdx, events, u64 := 0, 0, 0;
    }
  }

  /** Division that rounds toward zero. */
  function RowOf(fd: int): (r: int)
    ensures r < 0 <==> fd <= -ROW_SIZE
    ensures fd >= 0 ==> r * ROW_SIZE <= fd < (r + 1) * ROW_SIZE
  {
    if fd < 0 then -(-fd / ROW_SIZE) else fd / ROW_SIZE
  }

  datatype SetResult = Stored | Refused | Stray

  /** 1024 rows of 1024 pointers; a row is allocated when it is first needed. */
  class ClsFdMap {
    const rows: array<array?<Pair?>>
    /** The rows that were allocated, and what they amount to. */
    ghost var chunks: set<array<Pair?>>
    ghost var flat: map<int, Pair>

    constructor ()
      ensures Valid() && fresh(rows) && chunks == {} && flat == map[]
    {
      rows := new array?<Pair?>[ROW_SIZE](_ => null);
      chunks, flat := {}, map[];
    }

    ghost predicate Valid()
      reads this, rows, chunks
    {
      && rows.Length == ROW_SIZE
      && (forall i :: 0 <= i < ROW_SIZE && rows[i] != null ==> rows[i] in chunks && rows[i].Length == COL_SIZE)
      && (forall i, j :: 0 <= i < j < ROW_SIZE && rows[i] != null ==> rows[i] != rows[j])
      && (forall fd <- flat :: 0 <= fd < FD_LIMIT)
      && (forall fd :: 0 <= fd < FD_LIMIT ==> At(fd) == if fd in flat then flat[fd] else null)
    }

    ghost function At(fd: int): Pair?
      reads this, rows, chunks
    {
      var idx := fd / ROW_SIZE;
      if 0 <= idx < rows.Length && rows[idx] != null && rows[idx] in chunks && fd % COL_SIZE < rows[idx].Length
      then rows[idx][fd % COL_SIZE] else null
    }

    lemma InRange(fd: int)
      requires Valid() && fd in flat
      ensures 0 <= fd < FD_LIMIT
    {
    }

    /** A descriptor from -1023 to -1 is let through, to a place in front of row 0 (`Stray`): what a write
        there does is undefined. Others out of range are refused. */
    method Set(fd: int, ptr: Pair?) returns (r: SetResult)
      requires Valid()
      modifies this`chunks, this`flat, rows, chunks
      ensures Valid() && fresh(chunks - old(chunks))
      ensures r.Stored? <==> 0 <= fd < 1024 * 1024
      ensures r.Stray? <==> -1024 < fd < 0
      ensures flat == if !r.Stored? then old(flat) else if ptr == null then old(flat) - {fd} else old(flat)[fd := ptr]
    {
      var idx := RowOf(fd);
      if idx < 0 || idx >= rows.Length {
        return Refused;
      }
      if rows[idx] == null {
        var row := new Pair?[COL_SIZE](_ => null);
        rows[idx] := row;
        chunks := chunks + {row};
      }
      if fd < 0 {
        assert forall f :: 0 <= f < FD_LIMIT ==> At(f) == old(At(f));
        return Stray;
      }
      rows[idx][fd % COL_SIZE] := ptr;
      flat := if ptr == null then flat - {fd} else flat[fd := ptr];
      forall f | 0 <= f < FD_LIMIT
        ensures At(f) == if f == fd then ptr else old(At(f))
      {
      }
      return Stored;
    }

    /** A look-up in front of row 0 finds whatever is there, once that row exists. */
    method Get(fd: int) returns (ptr: Pair?, stray: bool)
      requires Valid()
      ensures stray <==> -1024 < fd < 0 && rows[0] != null
      ensures ptr == if fd in flat then flat[fd] else null
    {
      var idx := RowOf(fd);
      if idx < 0 || idx >= rows.Length {
        return null, false;
      }
      var lp := rows[idx];
      if lp == null {
        return null, false;
      }
      if fd < 0 {
        return null, true;
      }
      assert At(fd) == lp[fd % COL_SIZE];
      return lp[fd % COL_SIZE], false;
    }
  }

  datatype Op = Add | Mod | Del

  datatype Outcome = Done | UnknownEvents | Exists | Missing | Rejected

  /** A call of `co_epoll_ctl` and its answer. */
  datatype Request = Request(op: Op, fd: int, ev: EpollEvent, outcome: Outcome)

  datatype Wanted = Nothing | Event(ev: EpollEvent)

  /** What the changes so far ask for on a descriptor: the last one that was made or rejected decides. */
  ghost function LastWord(changes: seq<Request>, fd: int): Wanted {
    if changes == [] then Nothing
    else
      var c := changes[|changes| - 1];
      if c.fd != fd || !(c.outcome.Done? || c.outcome.Rejected?) then LastWord(changes[..|changes| - 1], fd)
      else if c.outcome.Done? && !c.op.Del? then Event(c.ev) else Nothing
  }

  lemma {:induction false} LastWordIsLast(changes: seq<Request>, fd: int, i: nat)
    requires i < |changes| && changes[i].fd == fd && (changes[i].outcome.Done? || changes[i].outcome.Rejected?)
    requires forall k :: i < k < |changes| && changes[k].fd == fd ==>
      !changes[k].outcome.Done? && !changes[k].outcome.Rejected?
    ensures LastWord(changes, fd)
         == if changes[i].outcome.Done? && !changes[i].op.Del? then Event(changes[i].ev) else Nothing
  {
    if i < |changes| - 1 {
      LastWordIsLast(changes[..|changes| - 1], fd, i);
    }
  }

  lemma OneMoreWord(changes: seq<Request>, c: Request, fd: int)
    ensures LastWord(changes + [c], fd)
         == if c.fd != fd || !(c.outcome.Done? || c.outcome.Rejected?) then LastWord(changes, fd)
            else if c.outcome.Done? && !c.op.Del? then Event(c.ev) else Nothing
  {
    assert (changes + [c])[..|changes|] == changes;
  }

  /** A rejected change left a filter behind exactly if it wanted reading and got it. */
  lemma TakenIfRejected(fd: int, events: bv32, kernel: Kernel)
    requires !kernel.Accepts(events)
    ensures Taken(fd, events, kernel) != {} <==> Has(events, Read) && kernel.read
  {
    hide Has;
    var taken := Taken(fd, events, kernel);
    if Has(events, Read) && kernel.read {
      assert Key(fd, Read) in taken;
    } else {
      forall k: Key
        ensures k !in taken
      {
        match k.filter
        case Read =>
        case Write =>
      }
      assert taken == {};
    }
  }

  lemma FlagsAre()
    ensures !(EPOLLIN | EPOLLOUT | EPOLLERR | EPOLLHUP) == 0xFFFF_FFE2
  {
  }

  lemma SupportedIs(events: bv32)
    ensures Supported(events) <==> events & 0xFFFF_FFE2 == 0
  {
    FlagsAre();
  }

  /** The bits, in numbers: 1 is reading, 4 writing, and with 8 and 16 these are all that is supported. */
  lemma BitsAre(events: bv32)
    ensures Has(events, Read) <==> events & 1 != 0
    ensures Has(events, Write) <==> events & 4 != 0
    ensures Supported(events) <==> events & 0xFFFF_FFE2 == 0
  {
    hide Supported;
    SupportedIs(events);
  }

  /** The kernel's answers to adding a filter. */
  datatype Kernel = Kernel(read: bool, write: bool) {
    predicate Accepts(events: bv32) {
      (Has(events, Read) ==> read) && (Has(events, Write) ==> write)
    }

    /** Reading is tried first, and writing only after that went well. */
    predicate Takes(events: bv32, f: Filter) {
      (Has(events, Read) ==> read) && (f.Write? ==> write)
    }
  }

  ghost function InterestOf(m: map<int, Pair>, pairs: set<Pair>): map<int, EpollEvent>
    reads pairs`events, pairs`u64
  {
    map fd <- m | m[fd] in pairs :: EpollEvent(m[fd].events, m[fd].u64)
  }

  lemma InterestHas(m: map<int, Pair>, pairs: set<Pair>)
    requires forall fd <- m :: m[fd] in pairs
    ensures InterestOf(m, pairs).Keys == m.Keys
    ensures forall fd <- m :: InterestOf(m, pairs)[fd] == EpollEvent(m[fd].events, m[fd].u64)
  {
    assert forall fd :: fd in InterestOf(m, pairs) <==> fd in m;
  }

  lemma InterestIs(m: map<int, Pair>, pairs: set<Pair>, interest: map<int, EpollEvent>)
    requires m.Keys == interest.Keys
    requires forall fd <- m :: m[fd] in pairs && interest[fd] == EpollEvent(m[fd].events, m[fd].u64)
    ensures InterestOf(m, pairs) == interest
  {
    InterestHas(m, pairs);
    assert InterestOf(m, pairs).Keys == interest.Keys;
    assert forall fd <- interest :: InterestOf(m, pairs)[fd] == interest[fd];
  }

  ghost function Filters(fd: int, events: bv32): (r: set<Key>)
    ensures forall k :: k in r <==> k.fd == fd && Has(events, k.filter)
  {
    set f: Filter | Has(events, f) :: Key(fd, f)
  }

  /** The filters that the kernel takes when those for `events` are added, reading first, until it
      refuses one. */
  ghost function Taken(fd: int, events: bv32, kernel: Kernel): (r: set<Key>)
    ensures forall k :: k in r <==> k.fd == fd && Has(events, k.filter) && kernel.Takes(events, k.filter)
  {
    set f: Filter | Has(events, f) && kernel.Takes(events, f) :: Key(fd, f)
  }

  ghost function WithFilters(registered: map<Key, Pair>, filters: set<Key>, ptr: Pair)
    : map<Key, Pair>
  {
    registered + map k <- filters :: ptr
  }

  /** The filters that the kernel has are the ones asked for, and they carry the record of their descriptor. */
  ghost predicate Agree(registered: map<Key, Pair>, m: map<int, Pair>, interest: map<int, EpollEvent>) {
    && (forall k <- registered ::
          k.fd in interest && Has(interest[k.fd].events, k.filter) && k.fd in m && registered[k] == m[k.fd])
    && (forall fd <- interest, f: Filter :: Has(interest[fd].events, f) ==> Key(fd, f) in registered)
  }

  lemma AgreeMeans(registered: map<Key, Pair>, m: map<int, Pair>, interest: map<int, EpollEvent>)
    requires Agree(registered, m, interest)
    ensures forall k <- registered :: k.fd in interest && k.fd in m && registered[k] == m[k.fd]
  {
  }

  lemma AgreeAfterDelete(registered: map<Key, Pair>, m: map<int, Pair>, interest: map<int, EpollEvent>, fd: int)
    requires Agree(registered, m, interest) && fd in interest
    ensures Agree(registered - Filters(fd, interest[fd].events), m - {fd}, interest - {fd})
  {
    hide Has;
  }

  lemma AgreeAfterRenew(registered: map<Key, Pair>, m: map<int, Pair>, interest: map<int, EpollEvent>,
                        fd: int, ev: EpollEvent, kernel: Kernel)
    requires Agree(registered, m, interest) && fd in interest && fd in m && kernel.Accepts(ev.events)
    ensures Agree(WithFilters(registered - Filters(fd, interest[fd].events), Taken(fd, ev.events, kernel), m[fd]),
                  m, interest[fd := ev])
  {
    hide Has, Filters, Taken;
  }

  lemma AgreeAfterRefusal(registered: map<Key, Pair>, m: map<int, Pair>, interest: map<int, EpollEvent>,
                          fd: int, ev: EpollEvent, kernel: Kernel)
    requires Agree(registered, m, interest) && fd in interest && fd in m
    ensures Agree(WithFilters(registered - Filters(fd, interest[fd].events), Taken(fd, ev.events, kernel), m[fd]),
                  m - {fd}, interest - {fd})
       <==> Taken(fd, ev.events, kernel) == {}
  {
    hide Has, Filters, Taken;
    var taken := Taken(fd, ev.events, kernel);
    var registered' := WithFilters(registered - Filters(fd, interest[fd].events), taken, m[fd]);
    if taken != {} {
      var k :| k in taken;
      assert k in registered' && k.fd !in interest - {fd};
    } else {
      assert registered' == registered - Filters(fd, interest[fd].events);
      AgreeAfterDelete(registered, m, interest, fd);
    }
  }

  /** A descriptor added for both directions, of which the kernel takes the first only. */
  lemma AFilterIsLeft(ptr: Pair)
    ensures var events, kernel := EPOLLIN | EPOLLOUT, Kernel(true, false);
      && !kernel.Accepts(events)
      && Agree(map[], map[5 := ptr], map[5 := EpollEvent(0, 0)])
      && !Agree(WithFilters(map[] - Filters(5, 0), Taken(5, events, kernel), ptr), map[5 := ptr] - {5},
                map[5 := EpollEvent(0, 0)] - {5})
  {
    var events, kernel := EPOLLIN | EPOLLOUT, Kernel(true, false);
    assert events == 5 && Has(5, Read) && Has(5, Write);
    NothingWanted(5);
    assert Key(5, Read) in Taken(5, events, kernel);
    AgreeAfterRefusal(map[], map[5 := ptr], map[5 := EpollEvent(0, 0)], 5, EpollEvent(events, 0), kernel);
  }

  lemma FiltersAre(fd: int, events: bv32, kernel: Kernel)
    ensures Filters(fd, events)
         == (if Has(events, Read) then {Key(fd, Read)} else {}) + (if Has(events, Write) then {Key(fd, Write)} else {})
    ensures Taken(fd, events, kernel)
         == (if Has(events, Read) && kernel.read then {Key(fd, Read)} else {})
          + (if Has(events, Write) && kernel.Takes(events, Write) then {Key(fd, Write)} else {})
  {
    hide Has, Filters, Taken;
    forall k: Key | k.fd == fd
      ensures k == Key(fd, Read) || k == Key(fd, Write)
    {
      match k.filter
      case Read =>
      case Write =>
    }
  }

  lemma NothingWanted(fd: int)
    ensures Filters(fd, 0) == {} && forall f: Filter :: !Has(0, f)
  {
  }

  lemma AgreeAfterTrack(registered: map<Key, Pair>, m: map<int, Pair>, interest: map<int, EpollEvent>,
                        fd: int, ptr: Pair, u64: nat)
    requires Agree(registered, m, interest) && fd !in interest
    ensures Agree(registered, m[fd := ptr], interest[fd := EpollEvent(0, u64)])
  {
    hide Has;
    NothingWanted(fd);
  }

  /** Every descriptor of interest has a record of its own, which takes part in no wait. */
  ghost predicate Tracked(m: map<int, Pair>, pairs: set<Pair>)
    reads pairs`fireIdx
  {
    && (forall fd <- m :: m[fd] in pairs && m[fd].fireIdx == 0)
    && (forall a <- m, b <- m :: a != b ==> m[a] != m[b])
  }

  lemma RecordsAreThere(m: map<int, Pair>, pairs: set<Pair>, fd: int)
    requires Tracked(m, pairs)
    ensures forall a <- m :: m[a] in pairs
    ensures Tracked(m - {fd}, pairs)
    ensures fd in m ==> forall a <- m :: a != fd ==> m[a] != m[fd]
  {
  }

  lemma TrackedMeans(m: map<int, Pair>, pairs: set<Pair>)
    ensures Tracked(m, pairs) <==>
      && (forall fd <- m :: m[fd] in pairs && m[fd].fireIdx == 0)
      && (forall a <- m, b <- m :: a != b ==> m[a] != m[b])
  {
  }

  lemma OneMoreRecord(m: map<int, Pair>, pairs: set<Pair>, fd: int, ptr: Pair)
    requires Tracked(m, pairs) && ptr !in pairs && ptr.fireIdx == 0
    ensures Tracked(m[fd := ptr], pairs + {ptr})
  {
  }

  // ----- the reports of one wait

  /** One more than the index of the first of `n` reports for `fd`, and 0 if there is none. */
  ghost function FirstReport(reports: seq<Key>, n: nat, fd: int): (r: nat)
    requires n <= |reports|
    ensures r <= n && (r > 0 ==> reports[r - 1].fd == fd)
  {
    if n == 0 then 0
    else
      var r := FirstReport(reports, n - 1, fd);
      if r > 0 then r else if reports[n - 1].fd == fd then n else 0
  }

  ghost predicate IsFirst(reports: seq<Key>, i: nat)
    requires i < |reports|
  {
    FirstReport(reports, i, reports[i].fd) == 0
  }

  /** The number of descriptors that the first `n` reports are about. */
  ghost function Descriptors(reports: seq<Key>, n: nat): nat
    requires n <= |reports|
  {
    if n == 0 then 0 else Descriptors(reports, n - 1) + if IsFirst(reports, n - 1) then 1 else 0
  }

  /** The events that the first `n` reports have for `fd`. */
  ghost function Gathered(reports: seq<Key>, n: nat, fd: int): bv32
    requires n <= |reports|
  {
    if n == 0 then 0
    else
      var e := Gathered(reports, n - 1, fd);
      if reports[n - 1].fd == fd then With(e, reports[n - 1].filter) else e
  }

  ghost function Fds(reports: seq<Key>, n: nat): set<int>
    requires n <= |reports|
  {
    set i | 0 <= i < n :: reports[i].fd
  }

  /** That many different ones. */
  lemma {:induction false} DescriptorsAreDistinct(reports: seq<Key>, n: nat)
    requires n <= |reports|
    ensures Descriptors(reports, n) == |Fds(reports, n)|
  {
    if n > 0 {
      var fd := reports[n - 1].fd;
      DescriptorsAreDistinct(reports, n - 1);
      FirstReportIsFirst(reports, n - 1, fd);
      assert Fds(reports, n) == Fds(reports, n - 1) + {fd};
      if IsFirst(reports, n - 1) {
        assert fd !in Fds(reports, n - 1);
      } else {
        assert fd in Fds(reports, n - 1);
        assert Fds(reports, n) == Fds(reports, n - 1);
      }
    }
  }

  lemma {:induction false} FirstReportIsFirst(reports: seq<Key>, n: nat, fd: int)
    requires n <= |reports|
    ensures var r := FirstReport(reports, n, fd);
      forall i :: 0 <= i < (if r == 0 then n else r - 1) ==> reports[i].fd != fd
  {
    if n > 0 {
      FirstReportIsFirst(reports, n - 1, fd);
    }
  }

  /** What is gathered for a descriptor says of each filter whether it was reported. */
  lemma {:induction false} GatheredHas(reports: seq<Key>, n: nat, fd: int, f: Filter)
    requires n <= |reports|
    ensures Has(Gathered(reports, n, fd), f) <==> Key(fd, f) in reports[..n]
  {
    if n > 0 {
      GatheredHas(reports, n - 1, fd, f);
      assert reports[..n] == reports[..n - 1] + [reports[n - 1]];
      var e, b := Gathered(reports, n - 1, fd), reports[n - 1].filter;
      OneMoreBit(e, b, f);
    }
  }

  lemma OneMoreBit(e: bv32, b: Filter, f: Filter)
    ensures Has(With(e, b), f) <==> Has(e, f) || b == f
  {
    match (b, f)
    case (Read, Read) => assert (e | 1) & 1 != 0;
    case (Read, Write) => assert (e | 1) & 4 == e & 4;
    case (Write, Read) => assert (e | 4) & 1 == e & 1;
    case (Write, Write) => assert (e | 4) & 4 != 0;
  }

  lemma {:induction false} DescriptorsFill(reports: seq<Key>, n: nat)
    requires n <= |reports|
    ensures Descriptors(reports, n) <= n
    ensures Descriptors(reports, n) == n <==> forall i :: 0 <= i < n ==> IsFirst(reports, i)
  {
    if n > 0 {
      DescriptorsFill(reports, n - 1);
    }
  }

  lemma {:induction false} NoMoreDescriptors(reports: seq<Key>, c: nat, n: nat)
    requires c <= n <= |reports| && forall i :: c <= i < n ==> !IsFirst(reports, i)
    ensures Descriptors(reports, n) == Descriptors(reports, c)
  {
    if c < n {
      NoMoreDescriptors(reports, c, n - 1);
    }
  }

  lemma {:induction false} DescriptorsGrow(reports: seq<Key>, c: nat, n: nat)
    requires c <= n <= |reports|
    ensures Descriptors(reports, c) <= Descriptors(reports, n)
  {
    if c < n {
      DescriptorsGrow(reports, c, n - 1);
    }
  }

  /** The caller looks at as many slots, from the first on, as the wait returns. It finds all events there
      exactly if no repeated report comes before a first one, and exactly then each of these slots was
      written by this wait. */
  lemma EventsAreInFront(reports: seq<Key>)
    ensures var inOrder := forall i: nat, k: nat :: i < k < |reports| && IsFirst(reports, k) ==> IsFirst(reports, i);
      var c := Descriptors(reports, |reports|);
      && c <= |reports|
      && ((forall i: nat :: i < |reports| && IsFirst(reports, i) ==> i < c) <==> inOrder)
      && ((forall i: nat :: i < c ==> IsFirst(reports, i)) <==> inOrder)
  {
    var n := |reports|;
    var c := Descriptors(reports, n);
    DescriptorsFill(reports, n);
    DescriptorsFill(reports, c);
    if forall i: nat :: i < n && IsFirst(reports, i) ==> i < c {
      NoMoreDescriptors(reports, c, n);
    } else {
      var i: nat :| i < n && IsFirst(reports, i) && i >= c;
      DescriptorsFill(reports, i + 1);
      DescriptorsGrow(reports, i + 1, n);
      FullFront(reports, i);
    }
  }

  /** If the first slots were all first reports, they would use up the count, and no later report could be one. */
  lemma FullFront(reports: seq<Key>, i: nat)
    requires i < |reports| && IsFirst(reports, i) && Descriptors(reports, |reports|) <= i
    ensures !forall k: nat :: k < Descriptors(reports, |reports|) ==> IsFirst(reports, k)
  {
    var c := Descriptors(reports, |reports|);
    if forall k: nat :: k < c ==> IsFirst(reports, k) {
      DescriptorsFill(reports, c);
      DescriptorsGrow(reports, c, i);
      DescriptorsGrow(reports, i + 1, |reports|);
      assert false;
    }
  }

  /** Two events of one descriptor before the event of another. */
  lemma AnEventIsMissed()
    ensures var reports := [Key(5, Read), Key(5, Write), Key(6, Read)];
      Descriptors(reports, 3) == 2 && !IsFirst(reports, 1) && IsFirst(reports, 2)
  {
    var reports := [Key(5, Read), Key(5, Write), Key(6, Read)];
    assert FirstReport(reports, 0, 5) == 0 && FirstReport(reports, 1, 5) == 1;
    assert FirstReport(reports, 0, 6) == FirstReport(reports, 1, 6) == FirstReport(reports, 2, 6) == 0;
    assert Descriptors(reports, 0) == 0 && Descriptors(reports, 1) == 1 && Descriptors(reports, 2) == 1;
  }

  /** A slot after `n` reports. */
  ghost function SlotAfter(reports: seq<Key>, n: nat, k: nat, interest: map<int, EpollEvent>, was: EpollEvent): EpollEvent
    requires n <= |reports|
  {
    if k < n && IsFirst(reports, k) && reports[k].fd in interest
    then EpollEvent(Gathered(reports, n, reports[k].fd), interest[reports[k].fd].u64)
    else was
  }

  lemma ReportStep(reports: seq<Key>, i: nat)
    requires i < |reports|
    ensures forall fd ::
      var r := FirstReport(reports, i, fd);
      FirstReport(reports, i + 1, fd) == if r > 0 then r else if reports[i].fd == fd then i + 1 else 0
    ensures Descriptors(reports, i + 1)
         == Descriptors(reports, i) + if FirstReport(reports, i, reports[i].fd) == 0 then 1 else 0
  {
  }

  lemma NoReports(reports: seq<Key>)
    ensures Descriptors(reports, 0) == 0 && forall fd :: FirstReport(reports, 0, fd) == 0
  {
  }

  lemma NoSlots(reports: seq<Key>, interest: map<int, EpollEvent>)
    ensures forall k: nat, was: EpollEvent :: SlotAfter(reports, 0, k, interest, was) == was
  {
  }

  lemma {:induction false} FirstIsFound(reports: seq<Key>, k: nat, n: nat)
    requires k < n <= |reports| && IsFirst(reports, k)
    ensures FirstReport(reports, n, reports[k].fd) == k + 1
  {
    if k + 1 < n {
      FirstIsFound(reports, k, n - 1);
    }
  }

  lemma {:induction false} FoundIsFirst(reports: seq<Key>, n: nat, fd: int)
    requires n <= |reports|
    ensures var r := FirstReport(reports, n, fd);
      if r > 0 then IsFirst(reports, r - 1) else Gathered(reports, n, fd) == 0
  {
    if n > 0 {
      FoundIsFirst(reports, n - 1, fd);
    }
  }

  /** One report changes one slot: that of the first report for its descriptor. */
  lemma SlotStep(reports: seq<Key>, i: nat, k: nat, interest: map<int, EpollEvent>, was: EpollEvent)
    requires i < |reports| && reports[i].fd in interest
    ensures var fd, x := reports[i].fd, SlotAfter(reports, i, k, interest, was);
      var r := FirstReport(reports, i, fd);
      SlotAfter(reports, i + 1, k, interest, was)
        == if k != (if r == 0 then i else r - 1) then x
           else EpollEvent(With(if r == 0 then 0 else x.events, reports[i].filter), interest[fd].u64)
  {
    hide With;
    FoundIsFirst(reports, i, reports[i].fd);
    if k < i && IsFirst(reports, k) {
      FirstIsFound(reports, k, i);
    }
  }

  class Emulation {
    const fdMap: ClsFdMap
    /** The filters registered with the kernel, and the pointer each carries. */
    var registered: map<Key, Pair>
    ghost var pairs: set<Pair>
    /** What `co_epoll_ctl` was called with, and what it answered. */
    ghost var changes: seq<Request>

    constructor ()
      ensures Valid() && Agrees() && Recorded() && Interest() == map[] && changes == []
      ensures fresh(fdMap) && fresh(fdMap.rows) && fdMap.chunks == {}
    {
      fdMap := new ClsFdMap();
      registered := map[];
      pairs, changes := {}, [];
    }

    ghost predicate Valid()
      reads this`pairs, fdMap, fdMap.rows, fdMap.chunks, pairs
    {
      fdMap.Valid() && Tracked(fdMap.flat, pairs)
    }

    /** The interest is what the changes so far asked for. */
    ghost predicate Recorded()
      reads this`changes, this`pairs, fdMap`flat, pairs`events, pairs`u64
    {
      forall fd :: match LastWord(changes, fd)
                   case Nothing => fd !in Interest()
                   case Event(ev) => fd in Interest() && Interest()[fd] == ev
    }

    ghost function Interest(): map<int, EpollEvent>
      reads this`pairs, fdMap`flat, pairs`events, pairs`u64
    {
      InterestOf(fdMap.flat, pairs)
    }

    ghost predicate Agrees()
      reads this`registered, this`pairs, fdMap`flat, pairs`events, pairs`u64
    {
      Agree(registered, fdMap.flat, Interest())
    }

    method DeleteFilters(fd: int, events: bv32)
      modifies this`registered
      ensures registered == old(registered) - Filters(fd, events)
    {
      hide Has, Filters;
      FiltersAre(fd, events, Kernel(true, true));
      if Has(events, Read) {
        registered := registered - {Key(fd, Read)};
      }
      if Has(events, Write) {
        registered := registered - {Key(fd, Write)};
      }
    }

    /** Reading first; if the kernel refuses one filter the next is not tried, and none is taken back. */
    method AddFilters(fd: int, events: bv32, ptr: Pair, kernel: Kernel) returns (ok: bool)
      modifies this`registered
      ensures ok <==> kernel.Accepts(events)
      ensures registered == WithFilters(old(registered), Taken(fd, events, kernel), ptr)
    {
      hide Has, Taken;
      FiltersAre(fd, events, kernel);
      ghost var m := registered;
      if Has(events, Read) {
        if !kernel.read {
          assert registered == WithFilters(m, Taken(fd, events, kernel), ptr);
          return false;
        }
        registered := registered[Key(fd, Read) := ptr];
      }
      if Has(events, Write) {
        if !kernel.write {
          assert registered == WithFilters(m, Taken(fd, events, kernel), ptr);
          return false;
        }
        registered := registered[Key(fd, Write) := ptr];
      }
      assert registered == WithFilters(m, Taken(fd, events, kernel), ptr);
      return true;
    }

    /** The record of a descriptor is freed. */
    method Forget(fd: int)
      requires Valid() && 0 <= fd < FD_LIMIT
      modifies fdMap`chunks, fdMap`flat, fdMap.rows, fdMap.chunks
      ensures Valid() && fdMap.flat == old(fdMap.flat) - {fd} && Interest() == old(Interest()) - {fd}
    {
      hide ClsFdMap.Valid, Tracked, InterestOf;
      ghost var m := fdMap.flat;
      RecordsAreThere(m, pairs, fd);
      InterestHas(m, pairs);
      var cleared := fdMap.Set(fd, null);
      InterestIs(m - {fd}, pairs, old(Interest()) - {fd});
    }

    method Commit(fd: int, ptr: Pair, ev: EpollEvent)
      requires Valid() && fd in fdMap.flat && fdMap.flat[fd] == ptr
      modifies ptr`events, ptr`u64
      ensures Valid() && Interest() == old(Interest())[fd := ev]
    {
      hide ClsFdMap.Valid, Tracked, InterestOf;
      ghost var m := fdMap.flat;
      RecordsAreThere(m, pairs, fd);
      InterestHas(m, pairs);
      ptr.events, ptr.u64 := ev.events, ev.u64;
      InterestIs(m, pairs, old(Interest())[fd := ev]);
    }

    /** `co_epoll_del`. */
    method Delete(fd: int)
      requires Valid() && (fd >= 0 || fd <= -COL_SIZE)
      modifies this`registered, fdMap`chunks, fdMap`flat, fdMap.rows, fdMap.chunks
      ensures Valid() && Interest() == old(Interest()) - {fd}
      ensures old(Agrees()) ==> Agrees()
    {
      hide Has, ClsFdMap.Valid, Tracked, InterestOf, Agree, Filters;
      ghost var m := fdMap.flat;
      RecordsAreThere(m, pairs, fd);
      InterestHas(m, pairs);
      var ptr, stray := fdMap.Get(fd);
      if ptr == null {
        assert fd !in Interest() && Interest() - {fd} == Interest();
        return;
      }
      fdMap.InRange(fd);
      if Agrees() { AgreeAfterDelete(registered, m, Interest(), fd); }
      DeleteFilters(fd, ptr.events);
      Forget(fd);
    }

    /** A record for a descriptor that had none. */
    method Track(fd: int) returns (ptr: Pair)
      requires Valid() && 0 <= fd < FD_LIMIT && fd !in fdMap.flat
      modifies this`pairs, fdMap`chunks, fdMap`flat, fdMap.rows, fdMap.chunks
      ensures Valid() && fd in fdMap.flat && fdMap.flat[fd] == ptr && ptr.events == 0
      ensures fresh(ptr) && pairs == old(pairs) + {ptr} && fresh(fdMap.chunks - old(fdMap.chunks))
      ensures Interest() == old(Interest())[fd := EpollEvent(0, 0)]
      ensures old(Agrees()) ==> Agrees()
    {
      hide Has, ClsFdMap.Valid, Tracked, WithFilters, InterestOf, Agree, Filters, Taken;
      ghost var m := fdMap.flat;
      RecordsAreThere(m, pairs, fd);
      InterestHas(m, pairs);
      ghost var agreed := Agrees();
      ptr := new Pair();
      if agreed { AgreeAfterTrack(registered, m, Interest(), fd, ptr, 0); }
      OneMoreRecord(m, pairs, fd, ptr);
      pairs := pairs + {ptr};
      var done := fdMap.Set(fd, ptr);
      InterestIs(m[fd := ptr], pairs, old(Interest())[fd := EpollEvent(0, 0)]);
    }

    method ReplaceFilters(fd: int, events: bv32, ptr: Pair, kernel: Kernel, mod: bool) returns (ok: bool)
      requires mod || ptr.events == 0
      modifies this`registered
      ensures ok <==> kernel.Accepts(events)
      ensures registered == WithFilters(old(registered) - Filters(fd, ptr.events), Taken(fd, events, kernel), ptr)
    {
      hide Has, WithFilters, Filters, Taken;
      NothingWanted(fd);
      assert registered - {} == registered;
      if mod {
        DeleteFilters(fd, ptr.events);
      }
      ok := AddFilters(fd, events, ptr, kernel);
    }

    /** From the interest there was in a descriptor to the new one, if the kernel takes its filters. */
    method Renew(fd: int, ptr: Pair, ev: EpollEvent, kernel: Kernel, mod: bool) returns (ok: bool)
      requires Valid() && 0 <= fd < FD_LIMIT && fd in fdMap.flat && fdMap.flat[fd] == ptr && (mod || ptr.events == 0)
      modifies this`registered, fdMap`chunks, fdMap`flat, fdMap.rows, fdMap.chunks, ptr`events, ptr`u64
      ensures Valid() && ok == kernel.Accepts(ev.events)
      ensures Interest() == if ok then old(Interest())[fd := ev] else old(Interest()) - {fd}
      ensures old(Agrees()) ==> (Agrees() <==> ok || Taken(fd, ev.events, kernel) == {})
    {
      hide Has, ClsFdMap.Valid, Tracked, WithFilters, InterestOf, Agree, Filters, Taken;
      ghost var m := fdMap.flat;
      RecordsAreThere(m, pairs, fd);
      InterestHas(m, pairs);
      if Agrees() {
        AgreeAfterRefusal(registered, m, Interest(), fd, ev, kernel);
        if kernel.Accepts(ev.events) { AgreeAfterRenew(registered, m, Interest(), fd, ev, kernel); }
      }
      ok := ReplaceFilters(fd, ev.events, ptr, kernel, mod);
      if !ok {
        Forget(fd);
        return;
      }
      Commit(fd, ptr, ev);
    }

    /** The part of `co_epoll_ctl` behind its checks, where `known` is the record there was. */
    method Change(fd: int, known: Pair?, ev: EpollEvent, kernel: Kernel, mod: bool) returns (ok: bool)
      requires Valid() && 0 <= fd < FD_LIMIT && known == if fd in fdMap.flat then fdMap.flat[fd] else null
      requires mod <==> known != null
      modifies this`registered, this`pairs, fdMap`chunks, fdMap`flat, fdMap.rows, fdMap.chunks
      modifies if known == null then {} else {known}
      ensures Valid() && ok == kernel.Accepts(ev.events)
      ensures Interest() == if ok then old(Interest())[fd := ev] else old(Interest()) - {fd}
      ensures old(Agrees()) ==> (Agrees() <==> ok || Taken(fd, ev.events, kernel) == {})
    {
      hide Valid, InterestOf, Agree, Taken, Has;
      ghost var m := Interest();
      var ptr := known;
      if ptr == null {
        ptr := Track(fd);
        assert m[fd := EpollEvent(0, 0)][fd := ev] == m[fd := ev];
        assert m[fd := EpollEvent(0, 0)] - {fd} == m - {fd};
      }
      ok := Renew(fd, ptr, ev, kernel, mod);
    }

    /** `co_epoll_ctl`, but for the record of it. */
    method Control(op: Op, fd: int, ev: EpollEvent, kernel: Kernel) returns (r: Outcome)
      requires Valid() && (fd >= 0 || fd <= -COL_SIZE) && (op.Add? && Supported(ev.events) ==> 0 <= fd < FD_LIMIT)
      modifies this`registered, this`pairs, fdMap`chunks, fdMap`flat, fdMap.rows, fdMap.chunks, pairs
      ensures Valid()
      ensures r.UnknownEvents? <==> !op.Del? && !Supported(ev.events)
      ensures r.Exists? <==> op.Add? && Supported(ev.events) && fd in old(Interest())
      ensures r.Missing? <==> op.Mod? && Supported(ev.events) && fd !in old(Interest())
      ensures r.Rejected? <==>
        !op.Del? && Supported(ev.events) && (op.Add? <==> fd !in old(Interest())) && !kernel.Accepts(ev.events)
      ensures r.Done? && !op.Del? ==> Interest() == old(Interest())[fd := ev]
      ensures (r.Done? && op.Del?) || r.Rejected? ==> Interest() == old(Interest()) - {fd}
      ensures !r.Done? && !r.Rejected? ==> Interest() == old(Interest())
      ensures old(Agrees()) ==> (Agrees() <==> !(r.Rejected? && Taken(fd, ev.events, kernel) != {}))
    {
      hide Has, ClsFdMap.Valid, Tracked, WithFilters, InterestOf, Agree, Filters, Taken, Supported;
      RecordsAreThere(fdMap.flat, pairs, fd);
      InterestHas(fdMap.flat, pairs);
      if op.Del? {
        Delete(fd);
        return Done;
      }
      if !Supported(ev.events) {
        return UnknownEvents;
      }
      var ptr, stray := fdMap.Get(fd);
      if op.Add? && ptr != null {
        return Exists;
      } else if op.Mod? && ptr == null {
        return Missing;
      }
      if op.Mod? { fdMap.InRange(fd); }
      var ok := Change(fd, ptr, ev, kernel, op.Mod?);
      return if ok then Done else Rejected;
    }

    /** `co_epoll_ctl`. It does to the interest what epoll does, except that a refused change forgets the
        descriptor; and what the kernel has stays in agreement exactly if no refused change had got a
        filter in. */
    method Ctl(op: Op, fd: int, ev: EpollEvent, kernel: Kernel) returns (r: Outcome)
      requires Valid() && Recorded() && (fd >= 0 || fd <= -1024)
      requires op.Add? && ev.events & 0xFFFF_FFE2 == 0 ==> 0 <= fd < 1024 * 1024
      modifies this`registered, this`pairs, this`changes, fdMap`chunks, fdMap`flat, fdMap.rows, fdMap.chunks, pairs
      ensures Valid() && Recorded() && changes == old(changes) + [Request(op, fd, ev, r)]
      ensures r.UnknownEvents? <==> !op.Del? && ev.events & 0xFFFF_FFE2 != 0
      ensures r.Exists? <==> op.Add? && ev.events & 0xFFFF_FFE2 == 0 && fd in old(Interest())
      ensures r.Missing? <==> op.Mod? && ev.events & 0xFFFF_FFE2 == 0 && fd !in old(Interest())
      ensures r.Rejected? <==>
        && !op.Del? && ev.events & 0xFFFF_FFE2 == 0 && (op.Add? <==> fd !in old(Interest()))
        && ((ev.events & 1 != 0 && !kernel.read) || (ev.events & 4 != 0 && !kernel.write))
      ensures r.Done? && !op.Del? ==> Interest() == old(Interest())[fd := ev]
      ensures (r.Done? && op.Del?) || r.Rejected? ==> Interest() == old(Interest()) - {fd}
      ensures !r.Done? && !r.Rejected? ==> Interest() == old(Interest())
      ensures old(Agrees()) ==> (Agrees() <==> !(r.Rejected? && ev.events & 1 != 0 && kernel.read))
    {
      hide Valid, Interest, Agrees, Taken, Has, Supported, LastWord;
      BitsAre(ev.events);
      if !kernel.Accepts(ev.events) { TakenIfRejected(fd, ev.events, kernel); }
      r := Control(op, fd, ev, kernel);
      forall f {
        OneMoreWord(changes, Request(op, fd, ev, r), f);
      }
      changes := changes + [Request(op, fd, ev, r)];
    }

    /** One report, the `i`-th, of a filter that carries `ptr`. */
    method Record(i: nat, f: Filter, ptr: Pair, events: array<EpollEvent>) returns (isNew: bool)
      requires ptr.fireIdx <= i < events.Length
      modifies ptr`fireIdx, events
      ensures isNew == (old(ptr.fireIdx) == 0)
      ensures ptr.fireIdx == if isNew then i + 1 else old(ptr.fireIdx)
      ensures var at := ptr.fireIdx - 1;
        events[..] == old(events[..])[at :=
          EpollEvent(With(if isNew then 0 else old(events[..])[at].events, f), ptr.u64)]
    {
      var at := i;
      isNew := ptr.fireIdx == 0;
      if isNew {
        ptr.fireIdx := i + 1;
        events[i] := EpollEvent(0, 0);
      } else {
        at := ptr.fireIdx - 1;
      }
      events[at] := EpollEvent(With(events[at].events, f), ptr.u64);
    }

    /** The first pass over the reports: `fireIdx` leads from a descriptor to the slot of its event. */
    method Gather(reports: seq<Key>, events: array<EpollEvent>, ghost m: map<int, Pair>, ghost interest: map<int, EpollEvent>)
      returns (j: nat)
      requires |reports| <= events.Length
      requires forall k <- reports :: k in registered && k.fd in m && registered[k] == m[k.fd] && k.fd in interest
      requires forall fd <- m :: m[fd] in pairs && m[fd].fireIdx == 0
      requires forall fd <- m :: fd in interest ==> m[fd].u64 == interest[fd].u64
      requires forall a <- m, b <- m :: a != b ==> m[a] != m[b]
      modifies pairs`fireIdx, events
      ensures forall fd <- m :: m[fd].fireIdx == FirstReport(reports, |reports|, fd)
      ensures j == Descriptors(reports, |reports|)
      ensures forall k :: 0 <= k < events.Length ==>
        events[k] == SlotAfter(reports, |reports|, k, interest, old(events[..])[k])
    {
      hide SlotAfter, With, FirstReport, Descriptors;
      NoReports(reports);
      j := 0;
      ghost var was := events[..];
      NoSlots(reports, interest);
      for i := 0 to |reports|
        invariant forall fd <- m :: m[fd].fireIdx == FirstReport(reports, i, fd)
        invariant j == Descriptors(reports, i)
        invariant forall k :: 0 <= k < events.Length ==> events[k] == SlotAfter(reports, i, k, interest, was[k])
      {
        assert reports[i] in reports;
        ReportStep(reports, i);
        forall k | 0 <= k < events.Length {
          SlotStep(reports, i, k, interest, was[k]);
        }
        var isNew := Record(i, reports[i].filter, registered[reports[i]], events);
        if isNew {
          j := j + 1;
        }
      }
    }

    /** The second pass. */
    method Reset(reports: seq<Key>, ghost m: map<int, Pair>)
      requires forall k <- reports :: k in registered && k.fd in m && registered[k] == m[k.fd]
      requires forall fd <- m :: m[fd] in pairs && m[fd].fireIdx == FirstReport(reports, |reports|, fd)
      modifies pairs`fireIdx
      ensures forall fd <- m :: m[fd].fireIdx == 0
    {
      for i := 0 to |reports|
        invariant forall fd <- m ::
          var r := FirstReport(reports, |reports|, fd); m[fd].fireIdx == if r <= i then 0 else r
      {
        assert reports[i] in reports;
        FirstReportIsFirst(reports, |reports|, reports[i].fd);
        registered[reports[i]].fireIdx := 0;
      }
    }

    /** `co_epoll_wait` for what the kernel reports, filter by filter. The event of a descriptor is
        gathered in the slot of its first report; the slots in between are left as they were. */
    method Wait(reports: seq<Key>, events: array<EpollEvent>) returns (j: nat)
      requires Valid() && Agrees() && Recorded() && |reports| <= events.Length && forall k <- reports :: k in registered
      modifies pairs`fireIdx, events
      ensures Valid() && Agrees() && Recorded() && Interest() == old(Interest())
      ensures j == Descriptors(reports, |reports|)
      ensures forall k <- reports :: k.fd in Interest()
      ensures forall i :: 0 <= i < events.Length ==>
        events[i] == if i < |reports| && IsFirst(reports, i)
                     then EpollEvent(Gathered(reports, |reports|, reports[i].fd), Interest()[reports[i].fd].u64)
                     else old(events[i])
      ensures forall i :: 0 <= i < |reports| && IsFirst(reports, i) ==>
        var last := LastWord(changes, reports[i].fd); last.Event? && events[i].u64 == last.ev.u64
    {
      hide ClsFdMap.Valid, InterestOf, Gathered, Has, Descriptors, IsFirst, FirstReport, Tracked, Agree, LastWord;
      TrackedMeans(fdMap.flat, pairs);
      AgreeMeans(registered, fdMap.flat, Interest());
      InterestHas(fdMap.flat, pairs);
      j := Gather(reports, events, fdMap.flat, Interest());
      Reset(reports, fdMap.flat);
      assert forall k <- reports :: LastWord(changes, k.fd).Event?;
      TrackedMeans(fdMap.flat, pairs);
    }
  }
}
