/** The graph objects of the neo4j-arc visualisation that the geometry code
    and the event handler read and write: nodes with a position, relationships
    with a drawing angle, node pairs and the graph that holds them. Only the
    fields those routines touch are modelled. */
module ArcModels {
  import opened Wrappers

  /** The optional context menu a node may carry. */
  datatype ContextMenu = ContextMenu(menuSelection: string, menuContent: string, labelText: string)

  class NodeModel {
    const id: string
    const labels: seq<string>
    const contextMenu: Option<ContextMenu>
    /** Position computed by the force simulation. */
    var x: real
    var y: real
    /** Pinned position; `None` stands for `null` (the node moves freely). */
    var fx: Option<real>
    var fy: Option<real>
    var hoverFixed: bool
    var selected: bool
    var expanded: bool

    constructor (id: string, labels: seq<string>, contextMenu: Option<ContextMenu>, x: real, y: real)
      ensures this.id == id && this.labels == labels && this.contextMenu == contextMenu
      ensures this.x == x && this.y == y
      ensures fx == None && fy == None
      ensures !hoverFixed && !selected && !expanded
    {
      this.id := id;
      this.labels := labels;
      this.contextMenu := contextMenu;
      this.x := x;
      this.y := y;
      fx := None;
      fy := None;
      hoverFixed := false;
      selected := false;
      expanded := false;
    }
  }

  class RelationshipModel {
    const id: string
    const relType: string
    const source: NodeModel
    const target: NodeModel
    /** Direction, in degrees, in which the relationship leaves its source. */
    var naturalAngle: real
    /** Distance between the centres of its two end nodes. */
    var centreDistance: real
    var selected: bool

    constructor (id: string, relType: string, source: NodeModel, target: NodeModel)
      ensures this.id == id && this.relType == relType
      ensures this.source == source && this.target == target
      ensures naturalAngle == 0.0 && centreDistance == 0.0 && !selected
    {
      this.id := id;
      this.relType := relType;
      this.source := source;
      this.target := target;
      naturalAngle := 0.0;
      centreDistance := 0.0;
      selected := false;
    }

    /** A self-loop starts and ends at the same node. */
    predicate IsLoop()
    {
      source == target
    }
  }

  /** The relationships drawn between one unordered pair of nodes. */
  datatype NodePair = NodePair(nodeA: NodeModel, nodeB: NodeModel, relationships: seq<RelationshipModel>)
  {
    predicate IsLoop()
    {
      nodeA == nodeB
    }

    /** How pairs are built: every relationship of the pair joins the two
        nodes of the pair (in either direction). */
    predicate Valid()
    {
      forall r <- relationships ::
        (r.source == nodeA || r.source == nodeB) && (r.target == nodeA || r.target == nodeB)
    }
  }

  /** What the inspector panel shows (`VItem`): the canvas with its counts,
      a node, a relationship, a context-menu entry or a status message. */
  datatype VItem =
    | CanvasItem(nodeCount: nat, relationshipCount: nat)
    | NodeVItem(node: NodeModel)
    | RelationshipVItem(relationship: RelationshipModel)
    | ContextMenuItem(menuLabel: string, content: string, selection: string)
    | StatusItem(message: string)

  /** The nodes and relationships currently shown. */
  class GraphModel {
    var nodes: seq<NodeModel>
    var relationships: seq<RelationshipModel>

    constructor (nodes: seq<NodeModel>, relationships: seq<RelationshipModel>)
      ensures this.nodes == nodes && this.relationships == relationships
    {
      this.nodes := nodes;
      this.relationships := relationships;
    }
  }
}
