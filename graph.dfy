/** The graph records of the graph-traversal example: nodes and edges that
    carry a string-to-string property map, and a graph holding an adjacency
    matrix and a node map. */
module Graph {
  import opened Wrappers

  /** The value stored under `key`, if any. */
  function Lookup(properties: map<string, string>, key: string): (r: Option<string>)
    ensures r.Some? <==> key in properties
    ensures r.Some? ==> r.value == properties[key]
  {
    if key in properties then Some(properties[key]) else None
  }

  /** Storing a value makes it the one found under its key and leaves every
      other key's value as it was. */
  lemma LookupAfterInsert(properties: map<string, string>, key: string, value: string, other: string)
    ensures Lookup(properties[key := value], key) == Some(value)
    ensures other != key ==> Lookup(properties[key := value], other) == Lookup(properties, other)
  {
  }

  /** The property map after a sequence of `add_property` calls, in order. */
  function Inserted(properties: map<string, string>, adds: seq<(string, string)>): map<string, string>
    decreases |adds|
  {
    if adds == [] then properties
    else Inserted(properties, adds[..|adds| - 1])[adds[|adds| - 1].0 := adds[|adds| - 1].1]
  }

  /** A key that no call added is not found in a property map that started
      empty. */
  lemma {:induction false} LookupNeverInserted(adds: seq<(string, string)>, key: string)
    requires forall i :: 0 <= i < |adds| ==> adds[i].0 != key
    ensures Lookup(Inserted(map[], adds), key) == None
  {
    if adds != [] {
      var init, last := adds[..|adds| - 1], adds[|adds| - 1];
      forall i | 0 <= i < |init| ensures init[i].0 != key {
        assert init[i] == adds[i];
      }
      LookupNeverInserted(init, key);
      assert Inserted(map[], adds) == Inserted(map[], init)[last.0 := last.1];
    }
  }

  /** A key is found with the value of its last addition. */
  lemma {:induction false} LookupLastInserted(adds: seq<(string, string)>, key: string, i: nat)
    requires i < |adds| && adds[i].0 == key
    requires forall j :: i < j < |adds| ==> adds[j].0 != key
    ensures Lookup(Inserted(map[], adds), key) == Some(adds[i].1)
  {
    var init, last := adds[..|adds| - 1], adds[|adds| - 1];
    assert Inserted(map[], adds) == Inserted(map[], init)[last.0 := last.1];
    if i < |adds| - 1 {
      forall j | i < j < |init| ensures init[j].0 != key {
        assert init[j] == adds[j];
      }
      assert init[i] == adds[i];
      LookupLastInserted(init, key, i);
    }
  }

  /** `Node`: a vertex whose property map is updated in place. */
  class Node {
    const id: nat
    const name: string
    var properties: map<string, string>

    /** `Node::new`: the given id and name, no properties. */
    constructor (id: nat, name: string)
      ensures this.id == id && this.name == name
      ensures forall key :: GetProperty(key) == None
    {
      this.id := id;
      this.name := name;
      properties := map[];
    }

    /** `Node::add_property`: insert or overwrite one property. */
    method AddProperty(key: string, value: string)
      modifies this
      ensures properties == old(properties)[key := value]
      ensures GetProperty(key) == Some(value)
      ensures forall other :: other != key ==> GetProperty(other) == old(GetProperty(other))
    {
      properties := properties[key := value];
    }

    /** `Node::get_property`: the value stored under `key`, if any. */
    function GetProperty(key: string): (r: Option<string>)
      reads this
      ensures r.Some? <==> key in properties
      ensures r.Some? ==> r.value == properties[key]
    {
      Lookup(properties, key)
    }
  }

  /** `Edge`: a directed edge between two node ids, with its own property map. */
  datatype Edge = Edge(id: nat, name: string, from: nat, to: nat, properties: map<string, string>)

  /** `Edge::new`: the given ids and name, no properties. */
  function NewEdge(id: nat, name: string, from: nat, to: nat): (e: Edge)
    ensures e.id == id && e.name == name && e.from == from && e.to == to
    ensures forall key :: Lookup(e.properties, key) == None
  {
    Edge(id, name, from, to, map[])
  }

  /** `Graph<T>`: an adjacency matrix of optional edge ids and a map from node
      ids to optional payloads. */
  datatype Graph<T> = Graph(matrix: seq<seq<Option<nat>>>, nodes: map<nat, Option<T>>) {

    /** `Graph::is_empty`: despite its name, the number of nodes. */
    function IsEmpty(): (count: nat)
      ensures count == 0 <==> nodes == map[]
    {
      |nodes|
    }
  }

  /** `Graph::new`: no matrix rows and no nodes. */
  function NewGraph<T>(): (g: Graph<T>)
    ensures g.matrix == [] && g.IsEmpty() == 0
  {
    Graph([], map[])
  }

  /** An example of use that models no code of its own: what the contracts
      of `add_property` and `get_property` let a caller conclude after a
      short sequence of calls. */
  method NodePropertiesScenario() returns (first: Option<string>, second: Option<string>, missing: Option<string>)
    ensures first == Some("blue") && second == Some("heavy") && missing == None
  {
    var node := new Node(7, "n7");
    node.AddProperty("colour", "red");
    node.AddProperty("weight", "heavy");
    node.AddProperty("colour", "blue");
    first := node.GetProperty("colour");
    second := node.GetProperty("weight");
    missing := node.GetProperty("shape");
  }
}
