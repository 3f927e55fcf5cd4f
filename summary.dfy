/** The node and edge counts of a link network. */
module Summary {

  type Network = map<string, seq<string>>

  /** `number_of_nodes`: the number of keys. A title that only occurs as a
      link target is not a node. */
  function NumberOfNodes(network: Network): (n: nat)
    ensures n == |network.Keys|
    ensures n == 0 <==> network == map[]
  {
    |network|
  }

  /** The number of links of the nodes in `keys`, duplicates included, in no
      particular order. */
  ghost function EdgesOf(network: Network, keys: set<string>): nat
    requires keys <= network.Keys
  {
    if keys == {} then 0
    else
      var k :| k in keys;
      |network[k]| + EdgesOf(network, keys - {k})
  }

  /** Any node can be counted first: the count does not depend on the order
      in which the map is iterated. */
  lemma EdgesOfRemove(network: Network, keys: set<string>, k: string)
    requires keys <= network.Keys && k in keys
    ensures EdgesOf(network, keys) == |network[k]| + EdgesOf(network, keys - {k})
    decreases keys
  {
    var j :| j in keys && EdgesOf(network, keys) == |network[j]| + EdgesOf(network, keys - {j});
    if j != k {
      EdgesOfRemove(network, keys - {j}, k);
      EdgesOfRemove(network, keys - {k}, j);
      assert keys - {j} - {k} == keys - {k} - {j};
    }
  }

  /** `number_of_edges`: the lengths of all link lists, added up while the
      map is iterated in whatever order it yields its entries. */
  method NumberOfEdges(network: Network) returns (count: nat)
    ensures count == EdgesOf(network, network.Keys)
    ensures network == map[] ==> count == 0
  {
    count := 0;
    var remaining := network.Keys;
    while remaining != {}
      invariant remaining <= network.Keys
      invariant count + EdgesOf(network, remaining) == EdgesOf(network, network.Keys)
      decreases remaining
    {
      var k :| k in remaining;
      EdgesOfRemove(network, remaining, k);
      count := count + |network[k]|;
      remaining := remaining - {k};
    }
  }

  /** The edge count is zero exactly when no node has a link. */
  lemma {:induction false} NoEdges(network: Network, keys: set<string>)
    requires keys <= network.Keys
    ensures EdgesOf(network, keys) == 0 <==> forall k :: k in keys ==> network[k] == []
    decreases keys
  {
    if keys != {} {
      var k :| k in keys;
      EdgesOfRemove(network, keys, k);
      NoEdges(network, keys - {k});
    }
  }

  /** Adding a node with its links adds the length of its list, duplicates
      included. */
  lemma AddNode(network: Network, node: string, links: seq<string>)
    requires node !in network
    ensures EdgesOf(network[node := links], network[node := links].Keys) ==
      |links| + EdgesOf(network, network.Keys)
  {
    var bigger := network[node := links];
    EdgesOfRemove(bigger, bigger.Keys, node);
    assert bigger.Keys - {node} == network.Keys;
    SameLinks(network, bigger, network.Keys);
  }

  /** The count over a set of nodes reads only those nodes' lists. */
  lemma {:induction false} SameLinks(a: Network, b: Network, keys: set<string>)
    requires keys <= a.Keys && keys <= b.Keys
    requires forall k :: k in keys ==> a[k] == b[k]
    ensures EdgesOf(a, keys) == EdgesOf(b, keys)
    decreases keys
  {
    if keys != {} {
      var k :| k in keys;
      EdgesOfRemove(a, keys, k);
      EdgesOfRemove(b, keys, k);
      SameLinks(a, b, keys - {k});
    }
  }
}
