/** The ring of consistent_hash_code.go. */
module ConsistentHash {
  import opened Rings

  const REPLICAS := 20

  datatype Answer = Host(node: string) | NoNodes | Panic

  class Consistent {
    /** CRC32 of a key, and of the name of a virtual node. */
    const hashKey: string -> u32
    const replicaKey: (nat, string) -> u32
    const nodesReplicas: nat := REPLICAS
    var hashSortNodes: seq<u32>
    var circle: map<u32, string>
    var nodes: set<string>

    /** `NewConsistent`. */
    constructor (hashKey: string -> u32, replicaKey: (nat, string) -> u32)
      ensures Valid() && nodes == {} && circle == map[] && nodesReplicas == 20
      ensures this.hashKey == hashKey && this.replicaKey == replicaKey
    {
      this.hashKey, this.replicaKey := hashKey, replicaKey;
      hashSortNodes, circle, nodes := [], map[], {};
    }

    /** The sorted array lists the points of the map, some perhaps twice. */
    ghost predicate Valid()
      reads this
    {
      Sorted(hashSortNodes) && (set p <- hashSortNodes) == circle.Keys
    }

    /** The points of a node. */
    ghost function Points(node: string): set<u32> {
      PointsUpTo(node, nodesReplicas)
    }

    ghost function PointsUpTo(node: string, n: nat): set<u32> {
      set i | 0 <= i < n :: replicaKey(i, node)
    }

    lemma PointsAre(node: string)
      ensures forall i :: 0 <= i < 20 ==> replicaKey(i, node) in Points(node)
      ensures forall p <- Points(node) :: exists i :: 0 <= i < 20 && replicaKey(i, node) == p
    {
    }

    lemma NoPoints(node: string)
      ensures PointsUpTo(node, 0) == {}
    {
    }

    lemma OneMorePoint(node: string, n: nat)
      ensures PointsUpTo(node, n + 1) == PointsUpTo(node, n) + {replicaKey(n, node)}
    {
    }

    method Add(node: string) returns (ok: bool)
      requires Valid()
      modifies this
      ensures Valid()
      ensures ok == (node !in old(nodes))
      ensures !ok ==> nodes == old(nodes) && circle == old(circle) && hashSortNodes == old(hashSortNodes)
      ensures ok ==> nodes == old(nodes) + {node} && circle == WithPoints(old(circle), Points(node), node)
      ensures ok ==>
        && circle != map[]
        && (forall i :: 0 <= i < 20 ==> replicaKey(i, node) in circle && circle[replicaKey(i, node)] == node)
        && (forall p <- circle :: (exists i :: 0 <= i < 20 && replicaKey(i, node) == p)
              || (p in old(circle) && circle[p] == old(circle)[p]))
        && (forall p <- old(circle) :: p in circle)
    {
      if node in nodes {
        return false;
      }
      hide WithPoints, Sorted, PointsUpTo;
      NoPoints(node);
      OneMoreWithNone(circle, node);
      nodes := nodes + {node};
      for i := 0 to nodesReplicas
        invariant nodes == old(nodes) + {node}
        invariant circle == WithPoints(old(circle), PointsUpTo(node, i), node)
        invariant (set p <- hashSortNodes) == circle.Keys
      {
        var replicasKey := replicaKey(i, node);
        OneMorePoint(node, i);
        OneMoreWith(old(circle), PointsUpTo(node, i), node, replicasKey);
        circle := circle[replicasKey := node];
        Appended(hashSortNodes, replicasKey);
        hashSortNodes := hashSortNodes + [replicasKey];
      }
      SortSorts(hashSortNodes);
      hashSortNodes := Sort(hashSortNodes);
      PointsAre(node);
      WithPointsDoes(old(circle), Points(node), node);
      assert replicaKey(0, node) in circle;
      return true;
    }

    /** `refreshHashSortNode`: the keys of the map, in whatever order they come, sorted. */
    method RefreshHashSortNode()
      modifies this`hashSortNodes
      ensures Valid()
    {
      hashSortNodes := [];
      var keys := circle.Keys;
      while keys != {}
        invariant keys <= circle.Keys && (set p <- hashSortNodes) == circle.Keys - keys
        decreases keys
      {
        var v :| v in keys;
        assert circle.Keys - (keys - {v}) == (circle.Keys - keys) + {v};
        Appended(hashSortNodes, v);
        hashSortNodes := hashSortNodes + [v];
        keys := keys - {v};
      }
      SortSorts(hashSortNodes);
      hashSortNodes := Sort(hashSortNodes);
    }

    /** The part of `Remove` behind its guard. */
    method Drop(node: string)
      requires Valid()
      modifies this
      ensures Valid()
      ensures nodes == old(nodes) - {node} && circle == old(circle) - Points(node)
      ensures forall i :: 0 <= i < 20 ==> replicaKey(i, node) !in circle
      ensures forall p <- circle :: p in old(circle) && circle[p] == old(circle)[p]
      ensures forall p <- old(circle) :: p in circle || exists i :: 0 <= i < 20 && replicaKey(i, node) == p
    {
      PointsAre(node);
      nodes := nodes - {node};
      for i := 0 to nodesReplicas
        invariant nodes == old(nodes) - {node}
        invariant circle == old(circle) - PointsUpTo(node, i)
      {
        OneMorePoint(node, i);
        circle := circle - {replicaKey(i, node)};
      }
      RefreshHashSortNode();
    }

    /** `Remove` as it is written: it refuses exactly the nodes that are there. */
    method Remove(node: string) returns (ok: bool)
      requires Valid()
      modifies this
      ensures Valid()
      ensures Removal(Ring(nodes, circle), !ok) == RemoveAsWritten(Ring(old(nodes), old(circle)), Points(node), node)
    {
      if node in nodes {
        return false;
      }
      Drop(node);
      return true;
    }

    method SearchByIndex(key: string) returns (index: nat)
      requires Valid() && circle != map[]
      ensures index < |hashSortNodes| && Nearest(circle.Keys, hashKey(key), hashSortNodes[index])
    {
      var p0 :| p0 in circle.Keys;
      assert p0 in hashSortNodes;
      index := Search(hashSortNodes, hashKey(key));
      FirstNotBelowIsNearest(hashSortNodes, hashKey(key), index);
      if index >= |hashSortNodes| {
        index := index % |hashSortNodes|;
      }
    }

    /** The owner of the nearest point; with nodes but no points, an index out of range. */
    method Get(key: string) returns (a: Answer)
      requires Valid()
      ensures a.NoNodes? <==> nodes == {}
      ensures a.Panic? <==> nodes != {} && circle == map[]
      ensures a.Host? <==> nodes != {} && circle != map[]
      ensures a.Host? ==> a.node == Owner(circle, hashKey(key))
    {
      if nodes == {} {
        return NoNodes;
      }
      if |hashSortNodes| == 0 {
        return Panic;
      }
      assert hashSortNodes[0] in circle.Keys;
      var index := SearchByIndex(key);
      OwnerOfNearest(circle, hashKey(key), hashSortNodes[index]);
      return Host(circle[hashSortNodes[index]]);
    }
  }

  lemma Appended(s: seq<u32>, x: u32)
    ensures (set p <- s + [x]) == (set p <- s) + {x}
  {
    assert forall p :: p in s + [x] <==> p in s || p == x;
  }
}
