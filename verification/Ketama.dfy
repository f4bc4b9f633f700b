/** The ring of ketama.go. */
module Ketama {
  import opened Rings

  const MAXI := PLACES - 1

  datatype Answer = Node(node: string) | Panic

  /** The points of a node: the hash of its name, carried on in equal steps, in decimal, hashed again. */
  ghost function PointsUpTo(hashOf: string -> u32, hashDecimal: nat -> u32, node: string, num: nat, n: nat): set<u32>
    requires num > 0
  {
    set i | 0 <= i < n :: hashDecimal(hashOf(node) + MAXI / num * i)
  }

  /** The map after the first `n` nodes of an initialisation. */
  ghost function AfterNodes(hashOf: string -> u32, hashDecimal: nat -> u32, m: map<u32, string>,
                            nodes: seq<string>, num: nat, n: nat): map<u32, string>
    requires num > 0 && n <= |nodes|
  {
    if n == 0 then m
    else WithPoints(AfterNodes(hashOf, hashDecimal, m, nodes, num, n - 1),
                    PointsUpTo(hashOf, hashDecimal, nodes[n - 1], num, num), nodes[n - 1])
  }

  /** The `k`-th point of the `i`-th node is there, and belongs to the last node that has it. */
  lemma {:induction false} AfterNodesOwns(hashOf: string -> u32, hashDecimal: nat -> u32, m: map<u32, string>,
                                          nodes: seq<string>, num: nat, n: nat, i: nat, k: nat)
    requires i < n <= |nodes| && k < num
    ensures var p := hashDecimal(hashOf(nodes[i]) + 0xFFFF_FFFF / num * k);
      var m' := AfterNodes(hashOf, hashDecimal, m, nodes, num, n);
      && p in m'
      && (exists j :: i <= j < n && m'[p] == nodes[j] && p in PointsUpTo(hashOf, hashDecimal, nodes[j], num, num))
      && ((forall j :: i < j < n ==> p !in PointsUpTo(hashOf, hashDecimal, nodes[j], num, num)) ==> m'[p] == nodes[i])
  {
    var p := hashDecimal(hashOf(nodes[i]) + 0xFFFF_FFFF / num * k);
    var before := AfterNodes(hashOf, hashDecimal, m, nodes, num, n - 1);
    var points := PointsUpTo(hashOf, hashDecimal, nodes[n - 1], num, num);
    WithPointsDoes(before, points, nodes[n - 1]);
    if i == n - 1 {
      assert p in points;
    } else {
      AfterNodesOwns(hashOf, hashDecimal, m, nodes, num, n - 1, i, k);
    }
  }

  /** A point that none of the nodes has is what it was. */
  lemma {:induction false} AfterNodesKeeps(hashOf: string -> u32, hashDecimal: nat -> u32, m: map<u32, string>,
                                           nodes: seq<string>, num: nat, n: nat, p: u32)
    requires n <= |nodes| && num > 0
    requires forall i :: 0 <= i < n ==> p !in PointsUpTo(hashOf, hashDecimal, nodes[i], num, num)
    ensures var m' := AfterNodes(hashOf, hashDecimal, m, nodes, num, n);
      (p in m' <==> p in m) && (p in m ==> m'[p] == m[p])
  {
    if n > 0 {
      AfterNodesKeeps(hashOf, hashDecimal, m, nodes, num, n - 1, p);
      WithPointsDoes(AfterNodes(hashOf, hashDecimal, m, nodes, num, n - 1),
                     PointsUpTo(hashOf, hashDecimal, nodes[n - 1], num, num), nodes[n - 1]);
    }
  }

  class KetamaHash {
    /** CRC32 of a string, and of a number in decimal. */
    const hashOf: string -> u32
    const hashDecimal: nat -> u32
    var virtualNodeNum: nat
    var nodeHashMap: map<u32, string>
    var allSortedHv: seq<u32>

    /** `NewKetamaHash`. */
    constructor (hashOf: string -> u32, hashDecimal: nat -> u32)
      ensures Valid() && nodeHashMap == map[]
      ensures this.hashOf == hashOf && this.hashDecimal == hashDecimal
    {
      this.hashOf, this.hashDecimal := hashOf, hashDecimal;
      virtualNodeNum, nodeHashMap, allSortedHv := 20, map[], [];
    }

    /** The sorted array lists the points of the map; a second initialisation lists them again. */
    ghost predicate Valid()
      reads this
    {
      Sorted(allSortedHv) && (set p <- allSortedHv) == nodeHashMap.Keys
    }

    /** `ketama_virtual_node_array`. */
    method VirtualNodeArray(v: u32) returns (virtualNode: seq<u32>)
      requires virtualNodeNum > 0
      ensures |virtualNode| == virtualNodeNum
      ensures forall i :: 0 <= i < virtualNodeNum ==> virtualNode[i] == hashDecimal(v + 0xFFFF_FFFF / virtualNodeNum * i)
    {
      var step: nat := MAXI / virtualNodeNum;
      virtualNode := [];
      for i := 0 to virtualNodeNum
        invariant |virtualNode| == i
        invariant forall k :: 0 <= k < i ==> virtualNode[k] == hashDecimal(v + step * k)
      {
        virtualNode := virtualNode + [hashDecimal(v + step * i)];
      }
    }

    /** The map takes the points of one node. */
    method PlaceNode(s: string)
      requires virtualNodeNum > 0
      modifies this`nodeHashMap
      ensures nodeHashMap ==
        WithPoints(old(nodeHashMap), PointsUpTo(hashOf, hashDecimal, s, virtualNodeNum, virtualNodeNum), s)
    {
      hide WithPoints;
      var x := hashOf(s);
      var hashArr := VirtualNodeArray(x);
      ghost var m, points: set<u32> := nodeHashMap, {};
      OneMoreWithNone(m, s);
      for i := 0 to |hashArr|
        invariant points == PointsUpTo(hashOf, hashDecimal, s, virtualNodeNum, i)
        invariant nodeHashMap == WithPoints(m, points, s)
      {
        OneMoreWith(m, points, s, hashArr[i]);
        points := points + {hashArr[i]};
        nodeHashMap := nodeHashMap[hashArr[i] := s];
      }
    }

    /** `sorted_map`: the keys are appended, not put in place of what is there. */
    method SortedMap()
      requires forall p <- allSortedHv :: p in nodeHashMap
      modifies this`allSortedHv
      ensures Valid()
    {
      var keys := nodeHashMap.Keys;
      ghost var had := set p <- allSortedHv;
      while keys != {}
        invariant keys <= nodeHashMap.Keys
        invariant (set p <- allSortedHv) == had + (nodeHashMap.Keys - keys)
        decreases keys
      {
        var v :| v in keys;
        assert had + (nodeHashMap.Keys - (keys - {v})) == had + (nodeHashMap.Keys - keys) + {v};
        assert (set p <- allSortedHv + [v]) == (set p <- allSortedHv) + {v};
        allSortedHv := allSortedHv + [v];
        keys := keys - {v};
      }
      SortSorts(allSortedHv);
      allSortedHv := Sort(allSortedHv);
    }

    /** `ketama_node_map_init`, which may be called again with more nodes. Without virtual nodes it
        divides by zero at the first node. */
    method NodeMapInit(nodes: seq<string>, num: nat) returns (ok: bool)
      requires Valid()
      modifies this
      ensures ok == (nodes == [] || num > 0)
      ensures ok ==> Valid()
      ensures num > 0 ==> nodeHashMap == AfterNodes(hashOf, hashDecimal, old(nodeHashMap), nodes, num, |nodes|)
      ensures nodes == [] ==> nodeHashMap == old(nodeHashMap)
    {
      hide WithPoints, PointsUpTo;
      if nodes == [] {
        SortedMap();
        return true;
      }
      if num == 0 {
        virtualNodeNum := num;
        return false;
      }
      for i := 0 to |nodes|
        invariant nodeHashMap == AfterNodes(hashOf, hashDecimal, old(nodeHashMap), nodes, num, i)
        invariant allSortedHv == old(allSortedHv) && forall p <- allSortedHv :: p in nodeHashMap
      {
        virtualNodeNum := num;
        PointsAreKept(nodeHashMap, PointsUpTo(hashOf, hashDecimal, nodes[i], num, num), nodes[i]);
        PlaceNode(nodes[i]);
      }
      SortedMap();
      return true;
    }

    /** `GetNodeKetama`: the owner of the nearest point; on an empty ring, an index out of range. */
    method GetNodeKetama(key: string) returns (a: Answer)
      requires Valid()
      ensures a.Panic? <==> nodeHashMap == map[]
      ensures a.Node? ==> nodeHashMap != map[] && a.node == Owner(nodeHashMap, hashOf(key))
    {
      if |allSortedHv| == 0 {
        return Panic;
      }
      var hashv := hashOf(key);
      var i := Search(allSortedHv, hashv);
      FirstNotBelowIsNearest(allSortedHv, hashv, i);
      if i >= |allSortedHv| {
        i := 0;
      }
      OwnerOfNearest(nodeHashMap, hashv, allSortedHv[i]);
      return Node(nodeHashMap[allSortedHv[i]]);
    }
  }

  lemma PointsAreKept(m: map<u32, string>, points: set<u32>, node: string)
    ensures forall p <- m :: p in WithPoints(m, points, node)
  {
  }

  /** Initialising with one more node takes keys for that node only. */
  lemma OneMoreNodeIsMonotone(hashOf: string -> u32, hashDecimal: nat -> u32, m: map<u32, string>,
                              node: string, num: nat, h: u32)
    requires num > 0 && m != map[]
    ensures var m' := AfterNodes(hashOf, hashDecimal, m, [node], num, 1);
      m' != map[] && (Owner(m', h) == node || Owner(m', h) == Owner(m, h))
  {
    AddingIsMonotone(m, PointsUpTo(hashOf, hashDecimal, node, num, num), node, h);
    assert AfterNodes(hashOf, hashDecimal, m, [node], num, 0) == m;
  }
}
