/** The selection and expansion state machine of the neo4j-arc graph view
    (`GraphEventHandlerModel`). Calls it makes to collaborators that are not
    part of this model (the visualisation's `update`, the inspector
    callbacks, the neighbour loader and the graph's mutators) are recorded,
    in order, in a ghost event log. */
module EventHandlerModel {
  import opened Wrappers
  import opened ArcModels

  /** What `selectedItem` can hold besides `null`. */
  datatype Selectable = NodeSel(node: NodeModel) | RelSel(relationship: RelationshipModel)

  /** The argument of `visualization.update`; `restartSimulation` is `None`
      where the call leaves it out. */
  datatype UpdateRequest = UpdateRequest(updateNodes: bool, updateRelationships: bool, restartSimulation: Option<bool>)

  datatype Event =
    | Update(request: UpdateRequest)
    | ItemSelected(item: VItem)
    | ItemMouseOver(item: VItem)
    /** `getNodeNeighbours` was called for the node. */
    | NeighboursRequested(node: NodeModel)
    /** The neighbour callback added the loaded nodes and relationships. */
    | NeighboursAdded(node: NodeModel)
    /** `graph.collapseNode` was called for the node. */
    | Collapsed(node: NodeModel)
    /** `onGraphModelChange` was called. */
    | StatsReported

  function Obj(s: Selectable): object
  {
    match s
    case NodeSel(n) => n
    case RelSel(r) => r
  }

  function Objs(s: Option<Selectable>): set<object>
  {
    if s.Some? then {Obj(s.value)} else {}
  }

  function IsSelected(s: Selectable): bool
    reads Obj(s)
  {
    match s
    case NodeSel(n) => n.selected
    case RelSel(r) => r.selected
  }

  /** The update a (de)selection of `s` requests. */
  function SelectionUpdate(s: Selectable): Event
  {
    Update(UpdateRequest(s.NodeSel?, s.RelSel?, Some(false)))
  }

  /** The node in `s`, if any. */
  function NodeOf(s: Option<Selectable>): set<NodeModel>
  {
    if s.Some? && s.value.NodeSel? then {s.value.node} else {}
  }

  /** The relationship in `s`, if any. */
  function RelationshipOf(s: Option<Selectable>): set<RelationshipModel>
  {
    if s.Some? && s.value.RelSel? then {s.value.relationship} else {}
  }

  /** `item.selected = value`: only that flag changes. */
  method SetSelected(s: Selectable, value: bool)
    modifies NodeOf(Some(s))`selected, RelationshipOf(Some(s))`selected
    ensures IsSelected(s) == value
  {
    match s
    case NodeSel(n) => n.selected := value;
    case RelSel(r) => r.selected := value;
  }

  class GraphEventHandlerModel {
    const graph: GraphModel
    var selectedItem: Option<Selectable>
    ghost var events: seq<Event>

    /** At most one item of the graph is selected, and it is `selectedItem`;
        `selectedItem` itself is always flagged as selected. */
    ghost predicate Valid()
      reads this, graph, graph.nodes, graph.relationships, Objs(selectedItem)
    {
      && (forall n <- graph.nodes :: n.selected <==> selectedItem == Some(NodeSel(n)))
      && (forall r <- graph.relationships :: r.selected <==> selectedItem == Some(RelSel(r)))
      && (selectedItem.Some? ==> IsSelected(selectedItem.value))
    }

    /** The canvas item with the graph's current counts. */
    function Canvas(): VItem
      reads this, graph
    {
      CanvasItem(|graph.nodes|, |graph.relationships|)
    }

    /** The events `deselectItem` emits. */
    function DeselectEvents(previous: Option<Selectable>): seq<Event>
      reads this, graph
    {
      (if previous.Some? then [SelectionUpdate(previous.value)] else []) + [ItemSelected(Canvas())]
    }

    /** The handler starts with nothing selected; it is valid as soon as no
        graph item carries a `selected` flag. */
    constructor (graph: GraphModel)
      ensures this.graph == graph && selectedItem == None && events == []
      ensures (forall n <- graph.nodes :: !n.selected) && (forall r <- graph.relationships :: !r.selected) ==> Valid()
    {
      this.graph := graph;
      selectedItem := None;
      events := [];
    }

    method GraphModelChanged()
      modifies this
      ensures old(Valid()) ==> Valid()
      ensures selectedItem == old(selectedItem) && events == old(events) + [StatsReported]
    {
      events := events + [StatsReported];
    }

    method SelectItem(item: Selectable)
      requires Valid()
      modifies this, NodeOf(Some(item))`selected, RelationshipOf(Some(item))`selected
      modifies NodeOf(selectedItem)`selected, RelationshipOf(selectedItem)`selected
      ensures Valid()
      ensures selectedItem == Some(item) && IsSelected(item)
      ensures old(selectedItem).Some? && old(selectedItem).value != item ==> !IsSelected(old(selectedItem).value)
      ensures events == old(events) + [SelectionUpdate(item)]
    {
      if selectedItem.Some? {
        SetSelected(selectedItem.value, false);
      }
      selectedItem := Some(item);
      SetSelected(item, true);
      events := events + [SelectionUpdate(item)];
    }

    method DeselectItem()
      requires Valid()
      modifies this, NodeOf(selectedItem)`selected, RelationshipOf(selectedItem)`selected
      ensures Valid()
      ensures selectedItem == None
      ensures old(selectedItem).Some? ==> !IsSelected(old(selectedItem).value)
      ensures events == old(events) + DeselectEvents(old(selectedItem))
    {
      var previous := selectedItem;
      if selectedItem.Some? {
        SetSelected(selectedItem.value, false);
        events := events + [SelectionUpdate(selectedItem.value)];
        selectedItem := None;
      }
      events := events + [ItemSelected(Canvas())];
    }

    /** A click pins the node where it is and toggles its selection. */
    method NodeClicked(node: Option<NodeModel>)
      requires Valid()
      modifies this, (if node.Some? then {node.value} else {})
      modifies NodeOf(selectedItem)`selected, RelationshipOf(selectedItem)`selected
      ensures Valid()
      ensures node.None? ==> selectedItem == old(selectedItem) && events == old(events)
      ensures node.Some? ==> var n := node.value;
        && !n.hoverFixed && n.fx == Some(old(n.x)) && n.fy == Some(old(n.y))
        && n.x == old(n.x) && n.y == old(n.y) && n.expanded == old(n.expanded)
        && (if old(n.selected) then
              selectedItem == None && events == old(events) + DeselectEvents(old(selectedItem))
            else
              selectedItem == Some(NodeSel(n)) && n.selected
              && events == old(events) + [SelectionUpdate(NodeSel(n)), ItemSelected(NodeVItem(n))])
    {
      if node.None? {
        return;
      }
      var n := node.value;
      n.hoverFixed := false;
      n.fx := Some(n.x);
      n.fy := Some(n.y);
      if !n.selected {
        SelectItem(NodeSel(n));
        events := events + [ItemSelected(NodeVItem(n))];
      } else {
        DeselectItem();
      }
    }

    /** Unpinning frees the node and clears the selection. */
    method NodeUnlock(node: Option<NodeModel>)
      requires Valid()
      modifies this, (if node.Some? then {node.value} else {})
      modifies NodeOf(selectedItem)`selected, RelationshipOf(selectedItem)`selected
      ensures Valid()
      ensures node.None? ==> selectedItem == old(selectedItem) && events == old(events)
      ensures node.Some? ==> var n := node.value;
        && n.fx == None && n.fy == None && n.x == old(n.x) && n.y == old(n.y)
        && n.hoverFixed == old(n.hoverFixed) && n.expanded == old(n.expanded)
        && selectedItem == None && events == old(events) + DeselectEvents(old(selectedItem))
    {
      if node.None? {
        return;
      }
      var n := node.value;
      n.fx := None;
      n.fy := None;
      DeselectItem();
    }

    /** A double click collapses an expanded node and otherwise expands it,
        asking for its neighbours once. */
    method NodeDblClicked(d: NodeModel)
      modifies this, d`expanded
      ensures old(Valid()) ==> Valid()
      ensures selectedItem == old(selectedItem)
      ensures d.expanded == !old(d.expanded)
      ensures events == old(events) +
        (if old(d.expanded) then [Collapsed(d), Update(UpdateRequest(true, true, None)), StatsReported]
         else [NeighboursRequested(d)])
    {
      if d.expanded {
        NodeCollapse(d);
        return;
      }
      d.expanded := true;
      events := events + [NeighboursRequested(d)];
    }

    /** The callback handed to `getNodeNeighbours`, once the neighbours are
        loaded. */
    method NeighboursLoaded(d: NodeModel)
      modifies this
      ensures old(Valid()) ==> Valid()
      ensures selectedItem == old(selectedItem)
      ensures events == old(events) + [NeighboursAdded(d), Update(UpdateRequest(true, true, None)), StatsReported]
    {
      events := events + [NeighboursAdded(d), Update(UpdateRequest(true, true, None))];
      GraphModelChanged();
    }

    method NodeCollapse(d: NodeModel)
      modifies this, d`expanded
      ensures old(Valid()) ==> Valid()
      ensures selectedItem == old(selectedItem)
      ensures !d.expanded
      ensures events == old(events) + [Collapsed(d), Update(UpdateRequest(true, true, None)), StatsReported]
    {
      d.expanded := false;
      events := events + [Collapsed(d), Update(UpdateRequest(true, true, None))];
      GraphModelChanged();
    }

    /** Hovering a node shows it, unless the node carries a context menu. */
    method OnNodeMouseOver(node: NodeModel)
      modifies this
      ensures old(Valid()) ==> Valid()
      ensures selectedItem == old(selectedItem)
      ensures events == old(events) + (if node.contextMenu.None? then [ItemMouseOver(NodeVItem(node))] else [])
    {
      if node.contextMenu.None? {
        events := events + [ItemMouseOver(NodeVItem(node))];
      }
    }

    /** Hovering a context menu shows its entry; without a menu the call
        throws and nothing is shown. */
    method OnMenuMouseOver(itemWithMenu: NodeModel) returns (r: Result<(), string>)
      modifies this
      ensures old(Valid()) ==> Valid()
      ensures selectedItem == old(selectedItem)
      ensures r.Failure? <==> itemWithMenu.contextMenu.None?
      ensures r.Failure? ==> r.error == "menuMouseOver triggered without menu" && events == old(events)
      ensures r.Success? ==> var menu := itemWithMenu.contextMenu.value;
        events == old(events) + [ItemMouseOver(ContextMenuItem(menu.labelText, menu.menuContent, menu.menuSelection))]
    {
      if itemWithMenu.contextMenu.None? {
        return Failure("menuMouseOver triggered without menu");
      }
      var menu := itemWithMenu.contextMenu.value;
      events := events + [ItemMouseOver(ContextMenuItem(menu.labelText, menu.menuContent, menu.menuSelection))];
      r := Success(());
    }

    method OnRelationshipMouseOver(relationship: RelationshipModel)
      modifies this
      ensures old(Valid()) ==> Valid()
      ensures selectedItem == old(selectedItem)
      ensures events == old(events) + [ItemMouseOver(RelationshipVItem(relationship))]
    {
      events := events + [ItemMouseOver(RelationshipVItem(relationship))];
    }

    /** A click on a relationship toggles its selection. */
    method OnRelationshipClicked(relationship: RelationshipModel)
      requires Valid()
      modifies this, relationship`selected
      modifies NodeOf(selectedItem)`selected, RelationshipOf(selectedItem)`selected
      ensures Valid()
      ensures if old(relationship.selected) then
          selectedItem == None && events == old(events) + DeselectEvents(old(selectedItem))
        else
          selectedItem == Some(RelSel(relationship)) && relationship.selected
          && events == old(events) + [SelectionUpdate(RelSel(relationship)), ItemSelected(RelationshipVItem(relationship))]
    {
      if !relationship.selected {
        SelectItem(RelSel(relationship));
        events := events + [ItemSelected(RelationshipVItem(relationship))];
      } else {
        DeselectItem();
      }
    }

    method OnCanvasClicked()
      requires Valid()
      modifies this, NodeOf(selectedItem)`selected, RelationshipOf(selectedItem)`selected
      ensures Valid()
      ensures selectedItem == None && events == old(events) + DeselectEvents(old(selectedItem))
    {
      DeselectItem();
    }

    /** Leaving an item shows the canvas again. */
    method OnItemMouseOut()
      modifies this
      ensures old(Valid()) ==> Valid()
      ensures selectedItem == old(selectedItem)
      ensures events == old(events) + [ItemMouseOver(Canvas())]
    {
      events := events + [ItemMouseOver(Canvas())];
    }
  }

  /** In a valid handler at most one graph item is selected, and it is the
      selected item. */
  lemma AtMostOneSelected(h: GraphEventHandlerModel)
    requires h.Valid()
    ensures forall n <- h.graph.nodes :: n.selected ==> h.selectedItem == Some(NodeSel(n))
    ensures forall r <- h.graph.relationships :: r.selected ==> h.selectedItem == Some(RelSel(r))
    ensures forall m <- h.graph.nodes, n <- h.graph.nodes :: m.selected && n.selected ==> m == n
    ensures forall n <- h.graph.nodes, r <- h.graph.relationships :: !(n.selected && r.selected)
    ensures forall q <- h.graph.relationships, r <- h.graph.relationships :: q.selected && r.selected ==> q == r
  {
  }
}
