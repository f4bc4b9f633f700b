/**
  A plain bag of deadlines, kept in the order the entries were added. This is what the
  timing wheel has to agree with: nothing here knows about slots or indices.
*/
module Deadlines {
  import opened Seqs

  datatype Entry<W> = Entry(item: W, at: nat)

  function Items<W>(s: seq<Entry<W>>): (r: seq<W>)
    ensures |r| == |s|
  {
    if s == [] then [] else [s[0].item] + Items(s[1..])
  }

  /** The entries that expire exactly at `t`, oldest first. */
  function EntriesAt<W>(s: seq<Entry<W>>, t: int): seq<Entry<W>>
  {
    if s == [] then []
    else if s[0].at == t then [s[0]] + EntriesAt(s[1..], t)
    else EntriesAt(s[1..], t)
  }

  function Due<W>(s: seq<Entry<W>>, now: int): seq<Entry<W>>
  {
    if s == [] then []
    else if s[0].at <= now then [s[0]] + Due(s[1..], now)
    else Due(s[1..], now)
  }

  function Later<W>(s: seq<Entry<W>>, now: int): seq<Entry<W>>
  {
    if s == [] then []
    else if s[0].at > now then [s[0]] + Later(s[1..], now)
    else Later(s[1..], now)
  }

  /** The bag without the entries of `w`. */
  ghost function Cancel<W>(s: seq<Entry<W>>, w: W): seq<Entry<W>>
  {
    if s == [] then []
    else if s[0].item == w then Cancel(s[1..], w)
    else [s[0]] + Cancel(s[1..], w)
  }

  lemma {:induction false} EntriesAtMembers<W>(s: seq<Entry<W>>, t: int)
    ensures forall e <- EntriesAt(s, t) :: e in s && e.at == t
    ensures forall e <- s :: e.at == t ==> e in EntriesAt(s, t)
  {
    if s != [] {
      EntriesAtMembers(s[1..], t);
    }
  }

  ghost predicate Sorted<W>(s: seq<Entry<W>>) {
    s != [] ==> (forall e <- s[1..] :: s[0].at <= e.at) && Sorted(s[1..])
  }

  function Insert<W>(e: Entry<W>, s: seq<Entry<W>>): seq<Entry<W>> {
    if s == [] || e.at <= s[0].at then [e] + s else [s[0]] + Insert(e, s[1..])
  }

  /** Stable insertion sort by deadline. */
  function ByDeadline<W>(s: seq<Entry<W>>): seq<Entry<W>> {
    if s == [] then [] else Insert(s[0], ByDeadline(s[1..]))
  }

  lemma {:induction false} InsertKeeps<W>(e: Entry<W>, s: seq<Entry<W>>)
    requires Sorted(s)
    ensures Sorted(Insert(e, s))
    ensures forall x <- Insert(e, s) :: x == e || x in s
    ensures forall t :: EntriesAt(Insert(e, s), t) == if t == e.at then [e] + EntriesAt(s, t) else EntriesAt(s, t)
  {
    if s == [] || e.at <= s[0].at {
      assert ([e] + s)[1..] == s;
    } else {
      var r := Insert(e, s[1..]);
      InsertKeeps(e, s[1..]);
      assert ([s[0]] + r)[1..] == r;
    }
  }

  /** `ByDeadline` is a stable sort: deadlines never decrease, and the entries of any one
      deadline come out exactly as they went in. */
  lemma {:induction false} ByDeadlineIsStable<W>(s: seq<Entry<W>>)
    ensures Sorted(ByDeadline(s))
    ensures forall t :: EntriesAt(ByDeadline(s), t) == EntriesAt(s, t)
  {
    if s != [] {
      ByDeadlineIsStable(s[1..]);
      InsertKeeps(s[0], ByDeadline(s[1..]));
    }
  }

  /** ... and those two facts determine the order completely. */
  lemma {:induction false} StableOrderIsUnique<W>(a: seq<Entry<W>>, b: seq<Entry<W>>)
    requires Sorted(a) && Sorted(b)
    requires forall t :: EntriesAt(a, t) == EntriesAt(b, t)
    ensures a == b
  {
    SameMembers(a, b);
    SameMembers(b, a);
    if a != [] && b != [] {
      assert a[0] in b && b[0] in a;
      var d := a[0].at;
      assert b[0].at == d;
      forall t
        ensures EntriesAt(a[1..], t) == EntriesAt(b[1..], t)
      {
        assert EntriesAt(a, t) == EntriesAt(b, t);
        if t == d {
          assert EntriesAt(a[1..], t) == EntriesAt(a, t)[1..];
          assert EntriesAt(b[1..], t) == EntriesAt(b, t)[1..];
        }
      }
      StableOrderIsUnique(a[1..], b[1..]);
      assert EntriesAt(a, d)[0] == EntriesAt(b, d)[0];
      assert a == [a[0]] + a[1..] && b == [b[0]] + b[1..];
    }
  }

  lemma SameMembers<W>(a: seq<Entry<W>>, b: seq<Entry<W>>)
    requires forall t :: EntriesAt(a, t) == EntriesAt(b, t)
    ensures forall e <- a :: e in b
    ensures a != [] ==> b != []
  {
    forall e <- a
      ensures e in b
    {
      EntriesAtMembers(a, e.at);
      EntriesAtMembers(b, e.at);
      assert EntriesAt(a, e.at) == EntriesAt(b, e.at);
    }
    if a != [] {
      assert a[0] in b;
    }
  }

  /** Emptying the buckets `from`, `from + 1`, ... one after the other. */
  function Buckets<W>(s: seq<Entry<W>>, from: int, n: nat): seq<Entry<W>> {
    if n == 0 then [] else Buckets(s, from, n - 1) + EntriesAt(s, from + n - 1)
  }

  lemma {:induction false} EntriesAtConcat<W>(a: seq<Entry<W>>, b: seq<Entry<W>>, t: int)
    ensures EntriesAt(a + b, t) == EntriesAt(a, t) + EntriesAt(b, t)
  {
    if a == [] {
      assert a + b == b;
    } else {
      assert (a + b)[1..] == a[1..] + b;
      EntriesAtConcat(a[1..], b, t);
    }
  }

  lemma {:induction false} EntriesAtTwice<W>(s: seq<Entry<W>>, d: int, t: int)
    ensures EntriesAt(EntriesAt(s, d), t) == if t == d then EntriesAt(s, t) else []
  {
    if s != [] {
      EntriesAtTwice(s[1..], d, t);
      if s[0].at == d {
        assert EntriesAt(s, d)[1..] == EntriesAt(s[1..], d);
      }
    }
  }

  lemma {:induction false} SortedConcat<W>(a: seq<Entry<W>>, b: seq<Entry<W>>)
    requires Sorted(a) && Sorted(b)
    requires forall x <- a, y <- b :: x.at <= y.at
    ensures Sorted(a + b)
  {
    if a == [] {
      assert a + b == b;
    } else {
      SortedConcat(a[1..], b);
      assert (a + b)[1..] == a[1..] + b;
    }
  }

  lemma {:induction false} OneDeadlineIsSorted<W>(s: seq<Entry<W>>, t: int)
    requires forall e <- s :: e.at == t
    ensures Sorted(s)
  {
    if s != [] {
      OneDeadlineIsSorted(s[1..], t);
    }
  }

  lemma {:induction false} BucketsSorted<W>(s: seq<Entry<W>>, from: int, n: nat)
    ensures Sorted(Buckets(s, from, n))
    ensures forall e <- Buckets(s, from, n) :: from <= e.at < from + n
  {
    if n > 0 {
      var d := from + n - 1;
      BucketsSorted(s, from, n - 1);
      EntriesAtMembers(s, d);
      OneDeadlineIsSorted(EntriesAt(s, d), d);
      SortedConcat(Buckets(s, from, n - 1), EntriesAt(s, d));
    }
  }

  lemma {:induction false} EntriesAtBuckets<W>(s: seq<Entry<W>>, from: int, n: nat, t: int)
    ensures EntriesAt(Buckets(s, from, n), t) == if from <= t < from + n then EntriesAt(s, t) else []
  {
    if n > 0 {
      EntriesAtBuckets(s, from, n - 1, t);
      EntriesAtConcat(Buckets(s, from, n - 1), EntriesAt(s, from + n - 1), t);
      EntriesAtTwice(s, from + n - 1, t);
    }
  }

  lemma {:induction false} EntriesAtDue<W>(s: seq<Entry<W>>, now: int, t: int)
    ensures EntriesAt(Due(s, now), t) == if t <= now then EntriesAt(s, t) else []
    ensures EntriesAt(Later(s, now), t) == if t > now then EntriesAt(s, t) else []
  {
    if s != [] {
      EntriesAtDue(s[1..], now, t);
    }
  }

  lemma {:induction false} DueMembers<W>(s: seq<Entry<W>>, now: int)
    ensures forall e <- Due(s, now) :: e in s && e.at <= now
    ensures forall e <- s :: e.at <= now ==> e in Due(s, now)
  {
    if s != [] {
      DueMembers(s[1..], now);
    }
  }

  lemma {:induction false} ItemsMembers<W>(s: seq<Entry<W>>)
    ensures forall e <- s :: e.item in Items(s)
    ensures forall w <- Items(s) :: exists e <- s :: e.item == w
  {
    if s != [] {
      ItemsMembers(s[1..]);
      assert s == [s[0]] + s[1..];
      assert s[0] in s;
    }
  }

  lemma {:induction false} LaterMembers<W>(s: seq<Entry<W>>, now: int)
    ensures forall e <- Later(s, now) :: e in s && e.at > now
    ensures forall e <- s :: e.at > now ==> e in Later(s, now)
  {
    if s != [] {
      LaterMembers(s[1..], now);
    }
  }

  lemma {:induction false} CancelMembers<W>(s: seq<Entry<W>>, w: W)
    ensures forall e <- Cancel(s, w) :: e in s && e.item != w
    ensures forall e <- s :: e.item != w ==> e in Cancel(s, w)
  {
    if s != [] {
      CancelMembers(s[1..], w);
    }
  }

  lemma {:induction false} NoEntriesAt<W>(s: seq<Entry<W>>, t: int)
    requires forall e <- s :: e.at != t
    ensures EntriesAt(s, t) == []
  {
    if s != [] {
      NoEntriesAt(s[1..], t);
    }
  }

  /** Emptying every bucket from `from` up to `now` yields the due entries in stable deadline
      order, as long as the buckets emptied hold exactly the due deadlines. */
  lemma BucketsAreDueInOrder<W>(s: seq<Entry<W>>, from: int, n: nat, now: int)
    requires forall e <- s :: from <= e.at < from + n <==> e.at <= now
    ensures Buckets(s, from, n) == ByDeadline(Due(s, now))
  {
    BucketsSorted(s, from, n);
    ByDeadlineIsStable(Due(s, now));
    forall t
      ensures EntriesAt(Buckets(s, from, n), t) == EntriesAt(ByDeadline(Due(s, now)), t)
    {
      EntriesAtDue(s, now, t);
      EntriesAtBuckets(s, from, n, t);
      if !(from <= t < from + n <==> t <= now) {
        NoEntriesAt(s, t);
      }
    }
    StableOrderIsUnique(Buckets(s, from, n), ByDeadline(Due(s, now)));
  }

  lemma {:induction false} ItemsConcat<W>(a: seq<Entry<W>>, b: seq<Entry<W>>)
    ensures Items(a + b) == Items(a) + Items(b)
  {
    if a == [] {
      assert a + b == b;
    } else {
      assert (a + b)[1..] == a[1..] + b;
      ItemsConcat(a[1..], b);
    }
  }

  lemma {:induction false} ItemsOfCancel<W>(s: seq<Entry<W>>, w: W)
    ensures Items(Cancel(s, w)) == Without(Items(s), w)
  {
    if s != [] {
      ItemsOfCancel(s[1..], w);
    }
  }

  lemma {:induction false} ItemsOfInsert<W>(e: Entry<W>, s: seq<Entry<W>>)
    ensures forall w <- Items(Insert(e, s)) :: w == e.item || w in Items(s)
    ensures e.item in Items(Insert(e, s)) && forall w <- Items(s) :: w in Items(Insert(e, s))
    ensures Distinct(Items(s)) && e.item !in Items(s) ==> Distinct(Items(Insert(e, s)))
  {
    if s == [] || e.at <= s[0].at {
      assert ([e] + s)[1..] == s;
    } else {
      ItemsOfInsert(e, s[1..]);
      assert ([s[0]] + Insert(e, s[1..]))[1..] == Insert(e, s[1..]);
    }
  }

  /** Sorting neither loses nor invents nor repeats an item. */
  lemma {:induction false} ItemsOfByDeadline<W>(s: seq<Entry<W>>)
    ensures forall w <- Items(ByDeadline(s)) :: w in Items(s)
    ensures forall w <- Items(s) :: w in Items(ByDeadline(s))
    ensures Distinct(Items(s)) ==> Distinct(Items(ByDeadline(s)))
  {
    if s != [] {
      ItemsOfByDeadline(s[1..]);
      ItemsOfInsert(s[0], ByDeadline(s[1..]));
    }
  }

  /** Now splits the bag: every item is either due or later, and not both. */
  lemma {:induction false} DueOrLater<W>(s: seq<Entry<W>>, now: int)
    ensures forall w <- Items(Due(s, now)) :: w in Items(s)
    ensures forall w <- Items(Later(s, now)) :: w in Items(s)
    ensures forall w <- Items(s) :: w in Items(Due(s, now)) || w in Items(Later(s, now))
    ensures Distinct(Items(s)) ==>
      && Distinct(Items(Due(s, now))) && Distinct(Items(Later(s, now)))
      && forall w <- Items(Due(s, now)) :: w !in Items(Later(s, now))
  {
    if s != [] {
      DueOrLater(s[1..], now);
    }
  }
}
