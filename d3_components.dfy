/** The graph entities of the browser's D3 visualisation: nodes and
    relationships that carry their properties twice, as the map the query
    returned (`propertyMap`) and as the list the inspector shows
    (`propertyList`), and the graph that holds them. */
module D3Components {
  import opened Wrappers
  import ArcModels

  /** One `key: value` pair of a property map. */
  datatype Entry = Entry(key: string, value: string)

  /** A property map as `Object.keys` enumerates it: its pairs in key order. */
  type PropertyMap = seq<Entry>

  /** A JavaScript object holds each key once. */
  predicate DistinctKeys(m: PropertyMap)
  {
    forall i, j | 0 <= i < j < |m| :: m[i].key != m[j].key
  }

  function Keys(m: PropertyMap): set<string>
  {
    set e <- m :: e.key
  }

  /** One row of the inspector's property table; `propType` is `None` when
      `propertyTypes` has no entry for the key (`undefined`). */
  datatype Property = Property(key: string, value: string, propType: Option<string>)

  /** `propertyMap || {}`: a missing map reads as the empty one. */
  function EntriesOf(propertyMap: Option<PropertyMap>): PropertyMap
  {
    if propertyMap.Some? then propertyMap.value else []
  }

  function TypeOf(propertyTypes: map<string, string>, key: string): Option<string>
  {
    if key in propertyTypes then Some(propertyTypes[key]) else None
  }

  /** The row built for one pair. */
  function Describe(e: Entry, propertyTypes: map<string, string>): Property
  {
    Property(e.key, e.value, TypeOf(propertyTypes, e.key))
  }

  /** `list` is the property list of `propertyMap`: one row per pair, in the
      order of the pairs. */
  predicate Describes(list: seq<Property>, propertyMap: Option<PropertyMap>, propertyTypes: map<string, string>)
  {
    var m := EntriesOf(propertyMap);
    |list| == |m| && forall k | 0 <= k < |list| :: list[k] == Describe(m[k], propertyTypes)
  }

  /** The pairs a property list shows, as `toJSON` would give them back. */
  function KeyValues(list: seq<Property>): PropertyMap
  {
    seq(|list|, k requires 0 <= k < |list| => Entry(list[k].key, list[k].value))
  }

  /** The property list built in the `Node` and `Relationship` constructors. */
  method BuildPropertyList(propertyMap: Option<PropertyMap>, propertyTypes: map<string, string>)
    returns (result: seq<Property>)
    ensures Describes(result, propertyMap, propertyTypes)
  {
    var m := EntriesOf(propertyMap);
    result := [];
    for i := 0 to |m|
      invariant |result| == i
      invariant forall k | 0 <= k < i :: result[k] == Describe(m[k], propertyTypes)
    {
      var key := m[i].key;
      var value := m[i].value;
      var propType := if key in propertyTypes then Some(propertyTypes[key]) else None;
      result := result + [Property(key, value, propType)];
    }
  }

  /** The list shows exactly the map's pairs, each key once when the map has
      each key once, every key with the value and the declared type of that
      key; a missing map gives an empty list. */
  lemma DescribesSpec(list: seq<Property>, propertyMap: Option<PropertyMap>, propertyTypes: map<string, string>)
    requires Describes(list, propertyMap, propertyTypes)
    ensures KeyValues(list) == EntriesOf(propertyMap)
    ensures propertyMap.None? ==> list == []
    ensures (set p <- list :: p.key) == Keys(EntriesOf(propertyMap))
    ensures propertyMap.Some? && DistinctKeys(propertyMap.value) ==>
      forall i, j | 0 <= i < j < |list| :: list[i].key != list[j].key
    ensures forall p <- list :: p.propType == TypeOf(propertyTypes, p.key)
    ensures forall p <- list :: Entry(p.key, p.value) in EntriesOf(propertyMap)
  {
    var m := EntriesOf(propertyMap);
    assert forall p <- list :: exists k | 0 <= k < |list| :: list[k] == p;
    assert forall e <- m :: exists k | 0 <= k < |m| :: m[k] == e;
    assert forall k | 0 <= k < |m| :: list[k].key == m[k].key;
    assert KeyValues(list) == m;
  }

  // ---------------------------------------------------------------------
  // Nodes, relationships and the graph

  class Node {
    const id: string
    const labels: seq<string>
    const propertyMap: Option<PropertyMap>
    const propertyList: seq<Property>
    const isNode: bool
    const isRelationship: bool
    /** Set on some nodes by the visualisation (not by this class). */
    var contextMenu: Option<ArcModels.ContextMenu>
    /** Pinned in place by a click. */
    var fixed: bool
    var selected: bool
    var expanded: bool

    constructor (id: string, labels: seq<string>, propertyMap: Option<PropertyMap>, propertyTypes: map<string, string>)
      ensures this.id == id && this.labels == labels && this.propertyMap == propertyMap
      ensures Describes(propertyList, propertyMap, propertyTypes)
      ensures isNode && !isRelationship
      ensures contextMenu == None && !fixed && !selected && !expanded
    {
      this.id := id;
      this.labels := labels;
      this.propertyMap := propertyMap;
      var list := BuildPropertyList(propertyMap, propertyTypes);
      this.propertyList := list;
      isNode := true;
      isRelationship := false;
      contextMenu := None;
      fixed := false;
      selected := false;
      expanded := false;
    }

    /** `toJSON` gives back the property map itself. */
    function ToJSON(): Option<PropertyMap>
    {
      propertyMap
    }

    /** `relationshipCount`: the relationships of `graph` that start or end
        at this node, counted by walking them in order. */
    method RelationshipCount(graph: Graph) returns (count: nat)
      ensures count == |Incident(graph.relationships, this)|
    {
      var relationships := graph.relationships;
      var rels: seq<Relationship> := [];
      for i := 0 to |relationships|
        invariant rels == Incident(relationships[..i], this)
      {
        assert relationships[..i + 1][..i] == relationships[..i];
        var relationship := relationships[i];
        if relationship.source == this || relationship.target == this {
          rels := rels + [relationship];
        }
      }
      assert relationships[..|relationships|] == relationships;
      count := |rels|;
    }
  }

  class Relationship {
    const id: string
    const source: Node
    const target: Node
    const relType: string
    const propertyMap: Option<PropertyMap>
    const propertyList: seq<Property>
    const isNode: bool
    const isRelationship: bool
    var selected: bool

    constructor (id: string, source: Node, target: Node, relType: string,
                 propertyMap: Option<PropertyMap>, propertyTypes: map<string, string>)
      ensures this.id == id && this.source == source && this.target == target && this.relType == relType
      ensures this.propertyMap == propertyMap
      ensures Describes(propertyList, propertyMap, propertyTypes)
      ensures !isNode && isRelationship
      ensures !selected
    {
      this.id := id;
      this.source := source;
      this.target := target;
      this.relType := relType;
      this.propertyMap := propertyMap;
      var list := BuildPropertyList(propertyMap, propertyTypes);
      this.propertyList := list;
      isNode := false;
      isRelationship := true;
      selected := false;
    }

    function ToJSON(): Option<PropertyMap>
    {
      propertyMap
    }

    predicate IsLoop()
    {
      source == target
    }
  }

  /** The nodes and relationships on screen. */
  class Graph {
    var nodes: seq<Node>
    var relationships: seq<Relationship>

    constructor (nodes: seq<Node>, relationships: seq<Relationship>)
      ensures this.nodes == nodes && this.relationships == relationships
    {
      this.nodes := nodes;
      this.relationships := relationships;
    }
  }

  /** `toJSON` and the property list agree: reading the list's keys and
      values back gives the map `toJSON` returns (the empty map when there
      is none). */
  lemma ToJSONMatchesPropertyList(n: Node, propertyTypes: map<string, string>)
    requires Describes(n.propertyList, n.propertyMap, propertyTypes)
    ensures KeyValues(n.propertyList) == EntriesOf(n.ToJSON())
  {
    DescribesSpec(n.propertyList, n.propertyMap, propertyTypes);
  }

  /** The same for relationships. */
  lemma RelationshipToJSONMatchesPropertyList(r: Relationship, propertyTypes: map<string, string>)
    requires Describes(r.propertyList, r.propertyMap, propertyTypes)
    ensures KeyValues(r.propertyList) == EntriesOf(r.ToJSON())
  {
    DescribesSpec(r.propertyList, r.propertyMap, propertyTypes);
  }

  // ---------------------------------------------------------------------
  // Counting incident relationships

  predicate Touches(r: Relationship, n: Node)
  {
    r.source == n || r.target == n
  }

  /** The relationships of `rels` at `n`, in order. */
  function Incident(rels: seq<Relationship>, n: Node): seq<Relationship>
  {
    if rels == [] then []
    else
      var init := Incident(rels[..|rels| - 1], n);
      if Touches(rels[|rels| - 1], n) then init + [rels[|rels| - 1]] else init
  }

  /** Exactly the relationships at `n` are counted, none more than the
      graph holds. */
  lemma {:induction false} IncidentSpec(rels: seq<Relationship>, n: Node)
    ensures |Incident(rels, n)| <= |rels|
    ensures forall r :: r in Incident(rels, n) <==> r in rels && Touches(r, n)
  {
    if rels != [] {
      var init := rels[..|rels| - 1];
      IncidentSpec(init, n);
      assert rels == init + [rels[|rels| - 1]];
    }
  }

  /** A self-loop is counted once at its node; any other relationship once
      at each of its two ends. */
  lemma IncidentOfOne(r: Relationship, n: Node)
    ensures |Incident([r], n)| == (if Touches(r, n) then 1 else 0)
  {
    assert [r][..0] == [];
  }

  function LoopCount(rels: seq<Relationship>): nat
  {
    if rels == [] then 0
    else LoopCount(rels[..|rels| - 1]) + (if rels[|rels| - 1].IsLoop() then 1 else 0)
  }

  /** The sum of the relationship counts of `nodes`. */
  function SumCounts(nodes: seq<Node>, rels: seq<Relationship>): nat
  {
    if nodes == [] then 0 else |Incident(rels, nodes[0])| + SumCounts(nodes[1..], rels)
  }

  /** How many of `nodes` the relationship touches. */
  function TouchCount(nodes: seq<Node>, r: Relationship): nat
  {
    if nodes == [] then 0 else (if Touches(r, nodes[0]) then 1 else 0) + TouchCount(nodes[1..], r)
  }

  predicate DistinctNodes(nodes: seq<Node>)
  {
    forall i, j | 0 <= i < j < |nodes| :: nodes[i] != nodes[j]
  }

  lemma {:induction false} SumCountsStep(nodes: seq<Node>, rels: seq<Relationship>, r: Relationship)
    ensures SumCounts(nodes, rels + [r]) == SumCounts(nodes, rels) + TouchCount(nodes, r)
  {
    assert (rels + [r])[..|rels|] == rels;
    if nodes != [] {
      SumCountsStep(nodes[1..], rels, r);
    }
  }

  lemma {:induction false} TouchCountOfDistinct(nodes: seq<Node>, r: Relationship)
    requires DistinctNodes(nodes)
    ensures TouchCount(nodes, r) ==
      (if r.source in nodes then 1 else 0) + (if r.target in nodes && r.target != r.source then 1 else 0)
  {
    if nodes != [] {
      assert DistinctNodes(nodes[1..]) by {
        forall i, j | 0 <= i < j < |nodes[1..]|
          ensures nodes[1..][i] != nodes[1..][j]
        {
          assert nodes[1..][i] == nodes[i + 1] && nodes[1..][j] == nodes[j + 1];
        }
      }
      TouchCountOfDistinct(nodes[1..], r);
      assert nodes[0] !in nodes[1..] by {
        forall k | 0 <= k < |nodes[1..]|
          ensures nodes[1..][k] != nodes[0]
        {
          assert nodes[1..][k] == nodes[k + 1];
        }
      }
      assert forall x :: x in nodes <==> x == nodes[0] || x in nodes[1..];
    }
  }

  /** Among distinct nodes holding both its ends, a relationship touches
      exactly one node precisely when it is a self-loop. */
  lemma LoopTouchesOnce(nodes: seq<Node>, r: Relationship)
    requires DistinctNodes(nodes) && r.source in nodes && r.target in nodes
    ensures r.IsLoop() <==> TouchCount(nodes, r) == 1
    ensures !r.IsLoop() <==> TouchCount(nodes, r) == 2
  {
    TouchCountOfDistinct(nodes, r);
  }

  /** Summed over all nodes of a graph whose relationships join its nodes,
      the relationship counts add up to twice the relationships, less one
      per self-loop. */
  lemma {:induction false} CountsAddUp(nodes: seq<Node>, rels: seq<Relationship>)
    requires DistinctNodes(nodes)
    requires forall r <- rels :: r.source in nodes && r.target in nodes
    ensures SumCounts(nodes, rels) == 2 * |rels| - LoopCount(rels)
  {
    if rels == [] {
      SumCountsOfNothing(nodes);
    } else {
      var init := rels[..|rels| - 1];
      var r := rels[|rels| - 1];
      assert rels == init + [r];
      CountsAddUp(nodes, init);
      SumCountsStep(nodes, init, r);
      TouchCountOfDistinct(nodes, r);
    }
  }

  lemma {:induction false} SumCountsOfNothing(nodes: seq<Node>)
    ensures SumCounts(nodes, []) == 0
  {
    if nodes != [] {
      SumCountsOfNothing(nodes[1..]);
    }
  }
}
