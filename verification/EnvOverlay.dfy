/**
  The environment overlay of libco: a list of variable names, set once, that every coroutine has values
  of its own for. The names are sorted and looked up by binary search.
*/
module EnvOverlay {
  import opened Bytes
  import opened Sorting

  /** The bytes of a C string, without the terminating zero. */
  type CString = seq<byte>

  datatype Option<T> = None | Some(value: T)

  datatype Entry = Entry(name: CString, value: Option<CString>)

  // ----- the order of strcmp

  predicate Less(a: CString, b: CString) {
    if b == [] then false
    else if a == [] then true
    else a[0] < b[0] || (a[0] == b[0] && Less(a[1..], b[1..]))
  }

  lemma {:induction false} LessIsTotal(a: CString, b: CString)
    ensures (if Less(a, b) then 1 else 0) + (if Less(b, a) then 1 else 0) + (if a == b then 1 else 0) == 1
  {
    if a != [] && b != [] {
      LessIsTotal(a[1..], b[1..]);
      assert a == [a[0]] + a[1..] && b == [b[0]] + b[1..];
    }
  }

  /** The byte at the first difference decides, and a proper prefix comes first. */
  lemma {:induction false} LessMeans(a: CString, b: CString)
    ensures Less(a, b) <==> exists k :: 0 <= k <= |a| && k < |b| && a[..k] == b[..k] && (k == |a| || a[k] < b[k])
  {
    if b == [] {
    } else if a == [] {
      assert a[..0] == b[..0];
    } else if a[0] != b[0] {
      assert a[..0] == b[..0];
      forall k | 0 < k <= |a| && k < |b|
        ensures a[..k] != b[..k]
      {
        assert a[..k][0] != b[..k][0];
      }
    } else {
      LessMeans(a[1..], b[1..]);
      forall k | 0 <= k < |a| && k + 1 < |b|
        ensures a[1..][..k] == b[1..][..k] <==> a[..k + 1] == b[..k + 1]
      {
        assert a[..k + 1] == [a[0]] + a[1..][..k] && b[..k + 1] == [b[0]] + b[1..][..k];
      }
      if Less(a, b) {
        var k :| 0 <= k <= |a[1..]| && k < |b[1..]| && a[1..][..k] == b[1..][..k] && (k == |a[1..]| || a[1..][k] < b[1..][k]);
        assert a[..k + 1] == b[..k + 1];
      }
      if k :| 0 <= k <= |a| && k < |b| && a[..k] == b[..k] && (k == |a| || a[k] < b[k]) {
        assert k > 0;
        assert a[1..][..k - 1] == b[1..][..k - 1];
      }
    }
  }

  lemma {:induction false} LessIsTransitive(a: CString, b: CString, c: CString)
    requires Less(a, b) && Less(b, c)
    ensures Less(a, c)
  {
    if a != [] && a[0] == b[0] == c[0] {
      LessIsTransitive(a[1..], b[1..], c[1..]);
    }
  }

  lemma NotAboveIsTransitive(a: CString, b: CString, c: CString)
    requires !Less(b, a) && !Less(c, b)
    ensures !Less(c, a)
    ensures Less(a, b) || Less(b, c) ==> Less(a, c)
  {
    LessIsTotal(a, b);
    LessIsTotal(b, c);
    LessIsTotal(a, c);
    if Less(a, b) && Less(b, c) {
      LessIsTransitive(a, b, c);
    }
  }

  // ----- sorting and removing repetitions

  /** The order of `co_sysenv_comp`. */
  predicate NotAfter(a: Entry, b: Entry) {
    !Less(b.name, a.name)
  }

  lemma NotAfterIsTotal()
    ensures TotalPreorder(NotAfter)
  {
    forall a: Entry, b: Entry
      ensures NotAfter(a, b) || NotAfter(b, a)
    {
      LessIsTotal(a.name, b.name);
    }
    forall a: Entry, b: Entry, c: Entry | NotAfter(a, b) && NotAfter(b, c)
      ensures NotAfter(a, c)
    {
      NotAboveIsTransitive(a.name, b.name, c.name);
    }
  }

  ghost predicate Increasing(s: seq<Entry>) {
    forall i, j :: 0 <= i < j < |s| ==> Less(s[i].name, s[j].name)
  }

  ghost predicate Unset(s: seq<Entry>) {
    forall e <- s :: e.value == None
  }

  /** `s` without the entries that have the same name as the entry before. */
  function Dedup(s: seq<Entry>): (r: seq<Entry>)
    ensures |r| <= |s| && (s != [] ==> r != [] && r[|r| - 1].name == s[|s| - 1].name)
  {
    if |s| < 2 then s
    else
      var n := |s| - 1;
      if s[n - 1].name == s[n].name then Dedup(s[..n]) else Dedup(s[..n]) + [s[n]]
  }

  lemma DedupStep(s: seq<Entry>, i: nat)
    requires 0 < i < |s|
    ensures Dedup(s[..i + 1]) == if s[i - 1].name == s[i].name then Dedup(s[..i]) else Dedup(s[..i]) + [s[i]]
    ensures Dedup(s[..i]) != [] && Dedup(s[..i])[|Dedup(s[..i])| - 1].name == s[i - 1].name
    ensures Dedup(s[..1]) == [s[0]] && Dedup(s[..|s|]) == Dedup(s)
  {
    assert s[..i + 1][..i] == s[..i] && s[..|s|] == s;
  }

  lemma IncreasingAppend(s: seq<Entry>, e: Entry)
    requires Increasing(s) && forall i :: 0 <= i < |s| ==> Less(s[i].name, e.name)
    ensures Increasing(s + [e])
  {
  }

  lemma AscendingPrefix(s: seq<Entry>, n: nat)
    requires Ascending(NotAfter, s) && Unset(s) && n <= |s|
    ensures Ascending(NotAfter, s[..n]) && Unset(s[..n])
    ensures 0 < n < |s| ==> !Less(s[n].name, s[n - 1].name) && s[n - 1].value == None && s[n].value == None
  {
    if 0 < n < |s| {
      assert s[n - 1] in s && s[n] in s && NotAfter(s[n - 1], s[n]);
    }
  }

  /** On a sorted list of entries without values that leaves every name, once. */
  lemma {:induction false} DedupIncreases(s: seq<Entry>)
    requires Ascending(NotAfter, s) && Unset(s)
    ensures Increasing(Dedup(s)) && Unset(Dedup(s))
    ensures forall x :: x in Dedup(s) <==> x in s
  {
    hide Less, Ascending, Increasing;
    FewAreIncreasing(s);
    if |s| >= 2 {
      var n := |s| - 1;
      var d := Dedup(s[..n]);
      assert s == s[..n] + [s[n]];
      AscendingPrefix(s, n);
      DedupIncreases(s[..n]);
      if s[n - 1].name != s[n].name {
        LessIsTotal(s[n - 1].name, s[n].name);
        forall i | 0 <= i < |d|
          ensures Less(d[i].name, s[n].name)
        {
          LastIsGreatest(d, i);
          NotAboveIsTransitive(d[i].name, s[n - 1].name, s[n].name);
        }
        IncreasingAppend(d, s[n]);
      } else {
        assert s[n - 1] == s[n] && s[..n][n - 1] in s[..n];
      }
    }
  }

  lemma LastIsGreatest(s: seq<Entry>, i: nat)
    requires Increasing(s) && i < |s|
    ensures !Less(s[|s| - 1].name, s[i].name)
  {
    LessIsTotal(s[i].name, s[|s| - 1].name);
  }

  /** Only one strictly increasing list has given entries: which sort `qsort` is does not matter. */
  lemma {:induction false} IncreasingIsUnique(s: seq<Entry>, t: seq<Entry>)
    requires Increasing(s) && Increasing(t) && forall x :: x in s <==> x in t
    ensures s == t
  {
    if t != [] { assert t[0] in t; }
    if s != [] {
      assert s[0] in t && s[0] in s;
      FirstIsLeast(s, t[0]);
      FirstIsLeast(t, s[0]);
      LessIsTotal(s[0].name, t[0].name);
      forall x
        ensures x in s[1..] <==> x in t[1..]
      {
        FirstIsNotBehind(s);
        FirstIsNotBehind(t);
        assert s == [s[0]] + s[1..] && t == [t[0]] + t[1..];
        assert x in s <==> x == s[0] || x in s[1..];
        assert x in t <==> x == t[0] || x in t[1..];
      }
      IncreasingIsUnique(s[1..], t[1..]);
      assert s == [s[0]] + s[1..] && t == [t[0]] + t[1..];
    }
  }

  lemma FirstIsLeast(s: seq<Entry>, x: Entry)
    requires Increasing(s) && x in s
    ensures s[0] == x || Less(s[0].name, x.name)
  {
  }

  lemma FirstIsNotBehind(s: seq<Entry>)
    requires Increasing(s) && s != []
    ensures s[0] !in s[1..]
  {
    LessIsTotal(s[0].name, s[0].name);
  }

  lemma FewAreIncreasing(s: seq<Entry>)
    ensures |s| <= 1 ==> Increasing(s)
  {
  }

  // ----- an array of entries as a map

  ghost function MapOf(s: seq<Entry>): map<CString, Option<CString>> {
    if s == [] then map[] else MapOf(s[..|s| - 1])[s[|s| - 1].name := s[|s| - 1].value]
  }

  lemma {:induction false} MapOfHas(s: seq<Entry>)
    requires Increasing(s)
    ensures forall i :: 0 <= i < |s| ==> s[i].name in MapOf(s) && MapOf(s)[s[i].name] == s[i].value
    ensures forall n <- MapOf(s) :: exists i :: 0 <= i < |s| && s[i].name == n
  {
    if s != [] {
      var k := |s| - 1;
      MapOfHas(s[..k]);
      forall i | 0 <= i < k
        ensures s[i].name != s[k].name
      {
        LessIsTotal(s[i].name, s[k].name);
        assert Less(s[i].name, s[k].name);
      }
      assert forall i :: 0 <= i < k ==> s[..k][i] == s[i];
      assert s[k].name in MapOf(s);
    }
  }

  /** A list of names without values, as a map. */
  lemma ListOf(s: seq<Entry>)
    requires Increasing(s) && Unset(s)
    ensures forall n :: n in MapOf(s) <==> Entry(n, None) in s
    ensures forall n <- MapOf(s) :: MapOf(s)[n] == None
  {
    MapOfHas(s);
    forall n <- MapOf(s)
      ensures Entry(n, None) in s && MapOf(s)[n] == None
    {
      var i :| 0 <= i < |s| && s[i].name == n;
      assert s[i] in s && s[i] == Entry(n, None);
    }
  }

  lemma EntryOf(s: seq<Entry>, i: nat)
    requires Increasing(s) && i < |s|
    ensures s[i].name in MapOf(s) && MapOf(s)[s[i].name] == s[i].value
  {
    MapOfHas(s);
  }

  lemma SameNames(s: seq<Entry>, t: seq<Entry>)
    requires Increasing(s) && |s| == |t| && forall i :: 0 <= i < |s| ==> s[i].name == t[i].name
    ensures Increasing(t)
  {
  }

  lemma MapOfUpdate(s: seq<Entry>, i: nat, v: Option<CString>)
    requires Increasing(s) && i < |s|
    ensures Increasing(s[i := Entry(s[i].name, v)])
    ensures MapOf(s[i := Entry(s[i].name, v)]) == MapOf(s)[s[i].name := v]
  {
    var t := s[i := Entry(s[i].name, v)];
    var m, m' := MapOf(s)[s[i].name := v], MapOf(t);
    MapOfHas(s);
    MapOfHas(t);
    forall j | 0 <= j < |s|
      ensures s[j].name == s[i].name ==> j == i
    {
      LessIsTotal(s[i].name, s[j].name);
    }
    forall n
      ensures n in m <==> n in m'
      ensures n in m && n in m' ==> m[n] == m'[n]
    {
      if n in m {
        var j :| 0 <= j < |s| && s[j].name == n;
        assert t[j].name == n;
      }
    }
    assert m.Keys == m'.Keys;
  }

  // ----- the overlay

  class Coroutine {
    var pvEnv: array?<Entry>

    constructor ()
      ensures pvEnv == null
    {
      pvEnv := null;
    }
  }

  datatype Answer = Found(value: Option<CString>) | AskSystem

  /** The names that count: those that are neither null nor empty. */
  ghost predicate Wanted(names: seq<Option<CString>>, n: CString) {
    n != [] && Some(n) in names
  }

  /** `bsearch`. */
  method Search(a: array<Entry>, n: CString) returns (k: int)
    requires Increasing(a[..])
    ensures -1 <= k < a.Length
    ensures k == -1 <==> n !in MapOf(a[..])
    ensures k >= 0 ==> a[k].name == n
  {
    MapOfHas(a[..]);
    var lo, hi := 0, a.Length;
    while lo < hi
      invariant 0 <= lo <= hi <= a.Length
      invariant forall i :: 0 <= i < lo ==> Less(a[i].name, n)
      invariant forall i :: hi <= i < a.Length ==> Less(n, a[i].name)
    {
      var mid := (lo + hi) / 2;
      if a[mid].name == n {
        return mid;
      }
      LessIsTotal(a[mid].name, n);
      if Less(a[mid].name, n) {
        forall i | 0 <= i < mid
          ensures Less(a[i].name, n)
        {
          LessIsTransitive(a[..][i].name, a[..][mid].name, n);
        }
        lo := mid + 1;
      } else {
        forall i | mid < i < a.Length
          ensures Less(n, a[i].name)
        {
          LessIsTransitive(n, a[..][mid].name, a[..][i].name);
        }
        hi := mid;
      }
    }
    forall i | 0 <= i < a.Length
      ensures a[i].name != n
    {
      LessIsTotal(a[i].name, n);
    }
    assert forall i :: 0 <= i < a.Length ==> a[..][i].name != n;
    return -1;
  }

  /** The walk of two pointers that removes repetitions in place; `m` entries are left. */
  method RemoveRepetitions(a: array<Entry>, n: nat) returns (m: nat)
    requires 1 < n <= a.Length
    modifies a
    ensures m <= n && a[..m] == Dedup(old(a[..n]))
  {
    hide Dedup, Less;
    ghost var s := a[..n];
    DedupStep(s, 1);
    ghost var d := [s[0]];
    var lp, lq := 0, 1;
    for i := 1 to n
      invariant lq == i && lp < i && |d| == lp + 1 && d == Dedup(s[..i])
      invariant forall k :: 0 <= k <= lp ==> a[k] == d[k]
      invariant forall k :: i <= k < n ==> a[k] == s[k]
    {
      DedupStep(s, i);
      if a[lp].name != a[lq].name {
        lp := lp + 1;
        if lq != lp {
          a[lp] := a[lq];
        }
        d := d + [s[i]];
      }
      lq := lq + 1;
    }
    m := lp + 1;
    assert a[..m] == d;
  }

  class Overlay {
    var data: array?<Entry>
    var cnt: nat
    ghost var cos: set<Coroutine>

    constructor ()
      ensures Valid() && data == null && cos == {}
    {
      data, cnt, cos := null, 0, {};
    }

    /** The listed names strictly increase and never have a value themselves; a coroutine that has a copy
        of the list has it for itself. */
    ghost predicate Valid()
      reads this, cos, (if data == null then {} else {data}), set co <- cos | co.pvEnv != null :: co.pvEnv
    {
      && (data != null ==> cnt <= data.Length && Increasing(data[..cnt]) && Unset(data[..cnt]))
      && (forall co <- cos :: co.pvEnv != null ==>
            && data != null && co.pvEnv != data
            && co.pvEnv.Length == cnt && forall i :: 0 <= i < cnt ==> co.pvEnv[i].name == data[i].name)
      && (forall a <- cos, b <- cos :: a != b && a.pvEnv != null ==> a.pvEnv != b.pvEnv)
    }

    ghost function Listed(): map<CString, Option<CString>>
      reads this, if data == null then {} else {data}
    {
      if data == null || cnt > data.Length then map[] else MapOf(data[..cnt])
    }

    /** The values of one coroutine: its own copy, or, as long as it has none, the list. */
    ghost function Vars(co: Coroutine): map<CString, Option<CString>>
      reads this, (if data == null then {} else {data}), co, if co.pvEnv == null then {} else {co.pvEnv}
    {
      if co.pvEnv == null then Listed() else MapOf(co.pvEnv[..])
    }

    /** The names that are neither null nor empty, in the order they come. */
    method Collect(names: seq<Option<CString>>)
      requires data != null && data.Length == |names| && cnt == 0
      modifies this`cnt, data
      ensures cnt <= data.Length && Unset(data[..cnt])
      ensures forall n :: Entry(n, None) in data[..cnt] <==> Wanted(names, n)
    {
      for i := 0 to |names|
        invariant cnt <= i && Unset(data[..cnt])
        invariant forall n :: Entry(n, None) in data[..cnt] <==> Wanted(names[..i], n)
      {
        assert names[..i + 1] == names[..i] + [names[i]];
        if names[i].Some? && names[i].value != [] {
          ghost var s := data[..cnt];
          data[cnt] := Entry(names[i].value, None);
          cnt := cnt + 1;
          assert data[..cnt] == s + [Entry(names[i].value, None)];
        }
      }
      assert names[..|names|] == names;
    }

    method SortEntries()
      requires data != null && cnt <= data.Length
      modifies data
      ensures data[..cnt] == Sort(NotAfter, old(data[..cnt]))
    {
      NotAfterIsTotal();
      var s := Sort(NotAfter, data[..cnt]);
      SortKeeps(NotAfter, data[..cnt]);
      forall i | 0 <= i < cnt {
        data[i] := s[i];
      }
    }

    /** The list of a first call: filtered, sorted, without repetitions. */
    method Fill(names: seq<Option<CString>>)
      modifies this`data, this`cnt
      ensures data != null && fresh(data) && cnt <= data.Length
      ensures Increasing(data[..cnt]) && Unset(data[..cnt])
      ensures forall n :: Entry(n, None) in data[..cnt] <==> Wanted(names, n)
    {
      hide Wanted, Increasing, Ascending, Less, Sort, Dedup, TotalPreorder;
      NotAfterIsTotal();
      data := new Entry[|names|](_ => Entry([], None));
      cnt := 0;
      Collect(names);
      ghost var s := data[..cnt];
      FewAreIncreasing(s);
      if cnt > 1 {
        SortEntries();
        SortSorts(NotAfter, s);
        SortKeeps(NotAfter, s);
        cnt := RemoveRepetitions(data, cnt);
        DedupIncreases(Sort(NotAfter, s));
      }
    }

    /** `co_set_env_list`: the first call decides, later ones change nothing. */
    method SetEnvList(names: seq<Option<CString>>)
      requires Valid()
      modifies this`data, this`cnt
      ensures Valid()
      ensures old(data) != null ==> data == old(data) && cnt == old(cnt)
      ensures old(data) == null ==> data != null && fresh(data)
      ensures old(data) == null ==> forall n :: n in Listed() <==> n != [] && Some(n) in names
      ensures old(data) == null ==> forall n <- Listed() :: Listed()[n] == None
    {
      if data != null {
        return;
      }
      hide Wanted, Increasing, MapOf;
      Fill(names);
      ListOf(data[..cnt]);
    }

    /** `dup_co_sysenv_arr`: on its first use of the overlay a coroutine gets a copy of the list. */
    method Own(co: Coroutine)
      requires Valid() && co in cos && data != null
      modifies co`pvEnv
      ensures Valid() && co.pvEnv != null
      ensures forall d <- cos :: Vars(d) == old(Vars(d))
      ensures Increasing(co.pvEnv[..]) && (co.pvEnv == old(co.pvEnv) || fresh(co.pvEnv))
    {
      hide Increasing, Unset, MapOf;
      if co.pvEnv == null {
        var a := new Entry[cnt];
        forall i | 0 <= i < cnt {
          a[i] := data[i];
        }
        assert a[..] == data[..cnt] == old(data[..cnt]);
        assert forall d <- cos :: d.pvEnv != null ==> d.pvEnv[..] == old(d.pvEnv[..]);
        co.pvEnv := a;
      } else {
        SameNames(data[..cnt], co.pvEnv[..]);
      }
    }

    /** Give one variable of one coroutine a value. */
    method Assign(co: Coroutine, a: array<Entry>, k: nat, v: Option<CString>)
      requires Valid() && co in cos && co.pvEnv == a && Increasing(a[..]) && k < a.Length
      modifies a
      ensures Valid()
      ensures Vars(co) == old(Vars(co))[a[k].name := v] && a[k].name == old(a[k].name)
      ensures forall d <- cos :: d != co ==> Vars(d) == old(Vars(d))
    {
      hide Increasing, Unset, MapOf;
      ghost var s := a[..];
      MapOfUpdate(s, k, v);
      a[k] := Entry(a[k].name, v);
      assert a[..] == s[k := Entry(s[k].name, v)];
    }

    /** `setenv`. Hooks are on for a coroutine, so `hooked` implies that there is one. If `handled` is false
        the system's own function decides. */
    method SetEnv(co: Coroutine?, hooked: bool, n: CString, value: Option<CString>, overwrite: bool)
      returns (handled: bool)
      requires Valid() && (co != null ==> co in cos) && (hooked ==> co != null)
      modifies if co == null then {} else {co}, if co == null || co.pvEnv == null then {} else {co.pvEnv}
      ensures Valid()
      ensures handled <==> hooked && data != null && n in old(Vars(co))
      ensures handled ==>
        var was := old(Vars(co));
        Vars(co) == if overwrite || was[n] == None then was[n := value] else was
      ensures forall d <- cos :: d != co || !handled ==> Vars(d) == old(Vars(d))
    {
      hide Increasing, Unset, MapOf, Valid;
      if hooked && data != null {
        if co != null {
          Own(co);
          var a := co.pvEnv;
          var k := Search(a, n);
          if k != -1 {
            EntryOf(a[..], k);
            if overwrite || a[k].value == None {
              Assign(co, a, k, value);
            }
            return true;
          }
        }
      }
      return false;
    }

    /** `unsetenv`. */
    method UnsetEnv(co: Coroutine?, hooked: bool, n: CString) returns (handled: bool)
      requires Valid() && (co != null ==> co in cos) && (hooked ==> co != null)
      modifies if co == null then {} else {co}, if co == null || co.pvEnv == null then {} else {co.pvEnv}
      ensures Valid()
      ensures handled <==> hooked && data != null && n in old(Vars(co))
      ensures handled ==> Vars(co) == old(Vars(co))[n := None]
      ensures forall d <- cos :: d != co || !handled ==> Vars(d) == old(Vars(d))
    {
      hide Increasing, Unset, MapOf, Valid;
      if hooked && data != null {
        if co != null {
          Own(co);
          var a := co.pvEnv;
          var k := Search(a, n);
          if k != -1 {
            EntryOf(a[..], k);
            if a[k].value != None {
              Assign(co, a, k, None);
            }
            return true;
          }
        }
      }
      return false;
    }

    /** `getenv`. */
    method GetEnv(co: Coroutine?, hooked: bool, n: CString) returns (a: Answer)
      requires Valid() && (co != null ==> co in cos) && (hooked ==> co != null)
      modifies if co == null then {} else {co}
      ensures Valid() && forall d <- cos :: Vars(d) == old(Vars(d))
      ensures a.Found? <==> hooked && data != null && n in old(Vars(co))
      ensures a.Found? ==> a.value == old(Vars(co))[n]
    {
      hide Increasing, Unset, MapOf, Valid;
      if hooked && data != null {
        Own(co);
        var arr := co.pvEnv;
        var k := Search(arr, n);
        if k != -1 {
          EntryOf(arr[..], k);
          return Found(arr[k].value);
        }
      }
      return AskSystem;
    }

    /** A coroutine starts out without a copy. */
    method Meet(co: Coroutine)
      requires Valid() && co.pvEnv == null
      modifies this`cos
      ensures Valid() && cos == old(cos) + {co} && Vars(co) == Listed()
      ensures forall d <- cos :: Vars(d) == old(Vars(d))
    {
      hide Increasing, Unset, MapOf;
      cos := cos + {co};
    }
  }
}
