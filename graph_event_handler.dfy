/** The selection and expansion state machine of the browser's older D3
    graph view (`GraphEventHandler`). It differs from the neo4j-arc one in
    pinning nodes with a `fixed` flag, in calling `graphView.update()`
    without arguments (also when deselecting with nothing selected), in
    showing items as `{id, labels, properties}` records, and in ignoring a
    neighbour load that failed. Calls to collaborators that are not part of
    this model are recorded, in order, in a ghost event log. */
module D3EventHandler {
  import opened Wrappers
  import opened D3Components

  datatype Selectable = NodeSel(node: Node) | RelSel(relationship: Relationship)

  /** What the inspector is handed. */
  datatype InspectorItem =
    | CanvasInfo(nodeCount: nat, relationshipCount: nat)
    | NodeInfo(id: string, labels: seq<string>, properties: seq<Property>)
    | RelationshipInfo(id: string, relType: string, properties: seq<Property>)
    | ContextMenuInfo(menuLabel: string, content: string, selection: string)

  datatype Event =
    /** `graphView.update()`. */
    | ViewUpdate
    | ItemSelected(item: InspectorItem)
    | ItemMouseOver(item: InspectorItem)
    | NeighboursRequested(node: Node)
    | NeighboursAdded(node: Node)
    | Collapsed(node: Node)
    | StatsReported

  function Obj(s: Selectable): object
  {
    match s
    case NodeSel(n) => n
    case RelSel(r) => r
  }

  function Objs(s: Option<Selectable>): set<object>
  {
    if s.Some? then {Obj(s.value)} else {}
  }

  function NodeOf(s: Option<Selectable>): set<Node>
  {
    if s.Some? && s.value.NodeSel? then {s.value.node} else {}
  }

  function RelationshipOf(s: Option<Selectable>): set<Relationship>
  {
    if s.Some? && s.value.RelSel? then {s.value.relationship} else {}
  }

  function IsSelected(s: Selectable): bool
    reads Obj(s)
  {
    match s
    case NodeSel(n) => n.selected
    case RelSel(r) => r.selected
  }

  /** `{id, labels, properties: propertyList}`. */
  function NodeItem(n: Node): InspectorItem
  {
    NodeInfo(n.id, n.labels, n.propertyList)
  }

  /** `{id, type, properties: propertyList}`. */
  function RelationshipItem(r: Relationship): InspectorItem
  {
    RelationshipInfo(r.id, r.relType, r.propertyList)
  }

  method SetSelected(s: Selectable, value: bool)
    modifies NodeOf(Some(s))`selected, RelationshipOf(Some(s))`selected
    ensures IsSelected(s) == value
  {
    match s
    case NodeSel(n) => n.selected := value;
    case RelSel(r) => r.selected := value;
  }

  class GraphEventHandler {
    const graph: Graph
    var selectedItem: Option<Selectable>
    ghost var events: seq<Event>

    /** At most one item of the graph is selected, and it is `selectedItem`;
        `selectedItem` itself is always flagged as selected. */
    ghost predicate Valid()
      reads this, graph, graph.nodes, graph.relationships, Objs(selectedItem)
    {
      && (forall n <- graph.nodes :: n.selected <==> selectedItem == Some(NodeSel(n)))
      && (forall r <- graph.relationships :: r.selected <==> selectedItem == Some(RelSel(r)))
      && (selectedItem.Some? ==> IsSelected(selectedItem.value))
    }

    function Canvas(): InspectorItem
      reads this, graph
    {
      CanvasInfo(|graph.nodes|, |graph.relationships|)
    }

    constructor (graph: Graph)
      ensures this.graph == graph && selectedItem == None && events == []
      ensures (forall n <- graph.nodes :: !n.selected) && (forall r <- graph.relationships :: !r.selected) ==> Valid()
    {
      this.graph := graph;
      selectedItem := None;
      events := [];
    }

    method GraphModelChanged()
      modifies this
      ensures old(Valid()) ==> Valid()
      ensures selectedItem == old(selectedItem) && events == old(events) + [StatsReported]
    {
      events := events + [StatsReported];
    }

    method SelectItem(item: Selectable)
      requires Valid()
      modifies this, NodeOf(Some(item))`selected, RelationshipOf(Some(item))`selected
      modifies NodeOf(selectedItem)`selected, RelationshipOf(selectedItem)`selected
      ensures Valid()
      ensures selectedItem == Some(item) && IsSelected(item)
      ensures old(selectedItem).Some? && old(selectedItem).value != item ==> !IsSelected(old(selectedItem).value)
      ensures events == old(events) + [ViewUpdate]
    {
      if selectedItem.Some? {
        SetSelected(selectedItem.value, false);
      }
      selectedItem := Some(item);
      SetSelected(item, true);
      events := events + [ViewUpdate];
    }

    /** Unlike the neo4j-arc handler, the view is redrawn even when nothing
        was selected. */
    method DeselectItem()
      requires Valid()
      modifies this, NodeOf(selectedItem)`selected, RelationshipOf(selectedItem)`selected
      ensures Valid()
      ensures selectedItem == None
      ensures old(selectedItem).Some? ==> !IsSelected(old(selectedItem).value)
      ensures events == old(events) + [ItemSelected(Canvas()), ViewUpdate]
    {
      if selectedItem.Some? {
        SetSelected(selectedItem.value, false);
        selectedItem := None;
      }
      events := events + [ItemSelected(Canvas()), ViewUpdate];
    }

    /** A click pins the node and toggles its selection. */
    method NodeClicked(node: Option<Node>)
      requires Valid()
      modifies this, (if node.Some? then {node.value} else {})
      modifies NodeOf(selectedItem)`selected, RelationshipOf(selectedItem)`selected
      ensures Valid()
      ensures node.None? ==> selectedItem == old(selectedItem) && events == old(events)
      ensures node.Some? ==> var n := node.value;
        && n.fixed && n.expanded == old(n.expanded) && n.contextMenu == old(n.contextMenu)
        && (if old(n.selected) then
              selectedItem == None && events == old(events) + [ItemSelected(Canvas()), ViewUpdate]
            else
              selectedItem == Some(NodeSel(n)) && n.selected
              && events == old(events) + [ViewUpdate, ItemSelected(NodeItem(n))])
    {
      if node.None? {
        return;
      }
      var n := node.value;
      n.fixed := true;
      if !n.selected {
        SelectItem(NodeSel(n));
        events := events + [ItemSelected(NodeItem(n))];
      } else {
        DeselectItem();
      }
    }

    method NodeUnlock(node: Option<Node>)
      requires Valid()
      modifies this, (if node.Some? then {node.value} else {})
      modifies NodeOf(selectedItem)`selected, RelationshipOf(selectedItem)`selected
      ensures Valid()
      ensures node.None? ==> selectedItem == old(selectedItem) && events == old(events)
      ensures node.Some? ==> var n := node.value;
        && !n.fixed && n.expanded == old(n.expanded) && n.contextMenu == old(n.contextMenu)
        && selectedItem == None && events == old(events) + [ItemSelected(Canvas()), ViewUpdate]
    {
      if node.None? {
        return;
      }
      var n := node.value;
      n.fixed := false;
      DeselectItem();
    }

    method NodeDblClicked(d: Node)
      modifies this, d`expanded
      ensures old(Valid()) ==> Valid()
      ensures selectedItem == old(selectedItem)
      ensures d.expanded == !old(d.expanded)
      ensures events == old(events) +
        (if old(d.expanded) then [Collapsed(d), ViewUpdate, StatsReported] else [NeighboursRequested(d)])
    {
      if d.expanded {
        NodeCollapse(d);
        return;
      }
      d.expanded := true;
      events := events + [NeighboursRequested(d)];
    }

    /** The callback handed to `getNodeNeighbours`; an error leaves
        everything as it was. */
    method NeighboursLoaded(d: Node, failed: bool)
      modifies this
      ensures old(Valid()) ==> Valid()
      ensures selectedItem == old(selectedItem)
      ensures events == old(events) + (if failed then [] else [NeighboursAdded(d), ViewUpdate, StatsReported])
    {
      if failed {
        return;
      }
      events := events + [NeighboursAdded(d), ViewUpdate];
      GraphModelChanged();
    }

    method NodeCollapse(d: Node)
      modifies this, d`expanded
      ensures old(Valid()) ==> Valid()
      ensures selectedItem == old(selectedItem)
      ensures !d.expanded
      ensures events == old(events) + [Collapsed(d), ViewUpdate, StatsReported]
    {
      d.expanded := false;
      events := events + [Collapsed(d), ViewUpdate];
      GraphModelChanged();
    }

    method OnNodeMouseOver(node: Node)
      modifies this
      ensures old(Valid()) ==> Valid()
      ensures selectedItem == old(selectedItem)
      ensures events == old(events) + (if node.contextMenu.None? then [ItemMouseOver(NodeItem(node))] else [])
    {
      if node.contextMenu.None? {
        events := events + [ItemMouseOver(NodeItem(node))];
      }
    }

    /** Without a context menu, reading its label throws a `TypeError`. */
    method OnMenuMouseOver(itemWithMenu: Node) returns (r: Result<(), string>)
      modifies this
      ensures old(Valid()) ==> Valid()
      ensures selectedItem == old(selectedItem)
      ensures r.Failure? <==> itemWithMenu.contextMenu.None?
      ensures r.Failure? ==> events == old(events)
      ensures r.Success? ==> var menu := itemWithMenu.contextMenu.value;
        events == old(events) + [ItemMouseOver(ContextMenuInfo(menu.labelText, menu.menuContent, menu.menuSelection))]
    {
      if itemWithMenu.contextMenu.None? {
        return Failure("TypeError");
      }
      var menu := itemWithMenu.contextMenu.value;
      events := events + [ItemMouseOver(ContextMenuInfo(menu.labelText, menu.menuContent, menu.menuSelection))];
      r := Success(());
    }

    method OnRelationshipMouseOver(relationship: Relationship)
      modifies this
      ensures old(Valid()) ==> Valid()
      ensures selectedItem == old(selectedItem)
      ensures events == old(events) + [ItemMouseOver(RelationshipItem(relationship))]
    {
      events := events + [ItemMouseOver(RelationshipItem(relationship))];
    }

    method OnRelationshipClicked(relationship: Relationship)
      requires Valid()
      modifies this, relationship`selected
      modifies NodeOf(selectedItem)`selected, RelationshipOf(selectedItem)`selected
      ensures Valid()
      ensures if old(relationship.selected) then
          selectedItem == None && events == old(events) + [ItemSelected(Canvas()), ViewUpdate]
        else
          selectedItem == Some(RelSel(relationship)) && relationship.selected
          && events == old(events) + [ViewUpdate, ItemSelected(RelationshipItem(relationship))]
    {
      if !relationship.selected {
        SelectItem(RelSel(relationship));
        events := events + [ItemSelected(RelationshipItem(relationship))];
      } else {
        DeselectItem();
      }
    }

    method OnCanvasClicked()
      requires Valid()
      modifies this, NodeOf(selectedItem)`selected, RelationshipOf(selectedItem)`selected
      ensures Valid()
      ensures selectedItem == None && events == old(events) + [ItemSelected(Canvas()), ViewUpdate]
    {
      DeselectItem();
    }

    method OnItemMouseOut()
      modifies this
      ensures old(Valid()) ==> Valid()
      ensures selectedItem == old(selectedItem)
      ensures events == old(events) + [ItemMouseOver(Canvas())]
    {
      events := events + [ItemMouseOver(Canvas())];
    }
  }

  /** In a valid handler at most one graph item is selected, and it is the
      selected item. */
  lemma AtMostOneSelected(h: GraphEventHandler)
    requires h.Valid()
    ensures forall m <- h.graph.nodes, n <- h.graph.nodes :: m.selected && n.selected ==> m == n
    ensures forall n <- h.graph.nodes, r <- h.graph.relationships :: !(n.selected && r.selected)
    ensures forall q <- h.graph.relationships, r <- h.graph.relationships :: q.selected && r.selected ==> q == r
    ensures h.selectedItem.None? ==> (forall n <- h.graph.nodes :: !n.selected) && (forall r <- h.graph.relationships :: !r.selected)
  {
  }
}
