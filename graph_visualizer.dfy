/** The data preparation of the `GraphVisualizer` component: the returned
    nodes are de-duplicated by id up to the initial display limit, the
    relationships are cut down to those between kept nodes when the limit
    was hit, the first inspector item says which happened, and the panel
    width never drops below its minimum. */
module Visualizer {
  import opened ArcModels

  /** A node as a query returns it; only its id matters here. */
  datatype BasicNode = BasicNode(id: string, labels: seq<string>)

  datatype BasicRelationship = BasicRelationship(id: string, startNodeId: string, endNodeId: string, relType: string)

  // ---------------------------------------------------------------------
  // De-duplication

  /** The accumulator of the `reduce`. */
  datatype Deduplicated = Deduplicated(nodes: seq<BasicNode>, taken: set<string>, nodeLimitHit: bool)

  /** One call of the `reduce` callback. */
  function DedupStep(all: Deduplicated, curr: BasicNode, limit: int): Deduplicated
  {
    if |all.nodes| == limit then all.(nodeLimitHit := true)
    else if curr.id !in all.taken then Deduplicated(all.nodes + [curr], all.taken + {curr.id}, all.nodeLimitHit)
    else all
  }

  /** `deduplicateNodes` as a left fold over the input. */
  function Dedup(nodes: seq<BasicNode>, limit: int): Deduplicated
  {
    if nodes == [] then Deduplicated([], {}, false)
    else DedupStep(Dedup(nodes[..|nodes| - 1], limit), nodes[|nodes| - 1], limit)
  }

  method DeduplicateNodes(nodes: seq<BasicNode>, limit: int) returns (kept: seq<BasicNode>, nodeLimitHit: bool)
    ensures kept == Dedup(nodes, limit).nodes && nodeLimitHit == Dedup(nodes, limit).nodeLimitHit
  {
    kept := [];
    var taken: set<string> := {};
    nodeLimitHit := false;
    for i := 0 to |nodes|
      invariant Deduplicated(kept, taken, nodeLimitHit) == Dedup(nodes[..i], limit)
    {
      assert nodes[..i + 1][..i] == nodes[..i];
      var curr := nodes[i];
      if |kept| == limit {
        nodeLimitHit := true;
      } else if curr.id !in taken {
        kept := kept + [curr];
        taken := taken + {curr.id};
      }
    }
    assert nodes[..|nodes|] == nodes;
  }

  // The reference: first occurrences of each id, in input order.

  function Ids(s: seq<BasicNode>): set<string>
  {
    set n <- s :: n.id
  }

  function FirstOccurrences(s: seq<BasicNode>): seq<BasicNode>
  {
    if s == [] then []
    else
      var p := FirstOccurrences(s[..|s| - 1]);
      if s[|s| - 1].id in Ids(s[..|s| - 1]) then p else p + [s[|s| - 1]]
  }

  /** At most `limit` elements when the limit is non-negative. */
  function Capped(s: seq<BasicNode>, limit: int): seq<BasicNode>
  {
    if 0 <= limit < |s| then s[..limit] else s
  }

  predicate DistinctIds(s: seq<BasicNode>)
  {
    forall i, j | 0 <= i < j < |s| :: s[i].id != s[j].id
  }

  lemma IdsOfAppend(s: seq<BasicNode>, x: BasicNode)
    ensures Ids(s + [x]) == Ids(s) + {x.id}
  {
    assert forall n <- s + [x] :: n in s || n == x;
  }

  /** The first occurrences have distinct ids and cover every id of the input. */
  lemma {:induction false} FirstOccurrencesSpec(s: seq<BasicNode>)
    ensures DistinctIds(FirstOccurrences(s))
    ensures Ids(FirstOccurrences(s)) == Ids(s)
    ensures |FirstOccurrences(s)| <= |s|
  {
    if s != [] {
      var init := s[..|s| - 1];
      var x := s[|s| - 1];
      FirstOccurrencesSpec(init);
      IdsOfAppend(init, x);
      assert init + [x] == s;
      if x.id !in Ids(init) {
        IdsOfAppend(FirstOccurrences(init), x);
      }
    }
  }

  lemma {:induction false} FirstOccurrencesGrow(s: seq<BasicNode>, x: BasicNode)
    ensures var p := FirstOccurrences(s);
      FirstOccurrences(s + [x]) == (if x.id in Ids(s) then p else p + [x])
  {
    assert (s + [x])[..|s|] == s;
  }

  /** The fold keeps the first occurrences, capped at the limit, and `taken`
      holds exactly their ids. */
  lemma {:induction false} DedupKeepsFirstOccurrences(nodes: seq<BasicNode>, limit: int)
    ensures Dedup(nodes, limit).nodes == Capped(FirstOccurrences(nodes), limit)
    ensures Dedup(nodes, limit).taken == Ids(Dedup(nodes, limit).nodes)
  {
    if nodes != [] {
      var init := nodes[..|nodes| - 1];
      var x := nodes[|nodes| - 1];
      assert init + [x] == nodes;
      DedupKeepsFirstOccurrences(init, limit);
      FirstOccurrencesGrow(init, x);
      FirstOccurrencesSpec(init);
      var all := Dedup(init, limit);
      var fo := FirstOccurrences(init);
      if |all.nodes| != limit && x.id !in all.taken {
        IdsOfAppend(all.nodes, x);
        assert all.nodes == fo;
      } else if |all.nodes| == limit {
        assert Capped(FirstOccurrences(nodes), limit) == fo[..limit];
      }
    } else {
      assert Ids([]) == {};
    }
  }

  /** Output ids are distinct. */
  lemma DedupDistinct(nodes: seq<BasicNode>, limit: int)
    ensures DistinctIds(Dedup(nodes, limit).nodes)
  {
    DedupKeepsFirstOccurrences(nodes, limit);
    FirstOccurrencesSpec(nodes);
  }

  /** A non-negative limit bounds the output. */
  lemma DedupWithinLimit(nodes: seq<BasicNode>, limit: int)
    requires limit >= 0
    ensures |Dedup(nodes, limit).nodes| <= limit
  {
    DedupKeepsFirstOccurrences(nodes, limit);
  }

  /** The output is an order-preserving pick of input elements: the first
      occurrence of each kept id, in input order. */
  lemma DedupIsPrefixOfFirstOccurrences(nodes: seq<BasicNode>, limit: int)
    ensures Dedup(nodes, limit).nodes <= FirstOccurrences(nodes)
  {
    DedupKeepsFirstOccurrences(nodes, limit);
  }

  /** `nodeLimitHit` is set exactly when some input element arrived while
      the output already held `limit` nodes (duplicates included). */
  lemma {:induction false} DedupLimitHit(nodes: seq<BasicNode>, limit: int)
    ensures Dedup(nodes, limit).nodeLimitHit <==>
      exists i | 0 <= i < |nodes| :: |Dedup(nodes[..i], limit).nodes| == limit
  {
    if nodes != [] {
      var init := nodes[..|nodes| - 1];
      DedupLimitHit(init, limit);
      assert forall i | 0 <= i < |init| :: nodes[..i] == init[..i];
      assert nodes[..|init|] == init;
    }
  }

  /** Without the flag nothing was dropped: the limit was never reached
      with more first occurrences to come. */
  lemma {:induction false} NoHitMeansUncapped(nodes: seq<BasicNode>, limit: int)
    ensures !Dedup(nodes, limit).nodeLimitHit ==> limit < 0 || |FirstOccurrences(nodes)| <= limit
  {
    if nodes != [] {
      var init := nodes[..|nodes| - 1];
      var x := nodes[|nodes| - 1];
      assert init + [x] == nodes;
      NoHitMeansUncapped(init, limit);
      DedupKeepsFirstOccurrences(init, limit);
      FirstOccurrencesGrow(init, x);
    }
  }

  /** When the flag is clear, every distinct input id is displayed. */
  lemma NoHitKeepsEveryId(nodes: seq<BasicNode>, limit: int)
    ensures !Dedup(nodes, limit).nodeLimitHit ==> Ids(Dedup(nodes, limit).nodes) == Ids(nodes)
  {
    NoHitMeansUncapped(nodes, limit);
    DedupKeepsFirstOccurrences(nodes, limit);
    FirstOccurrencesSpec(nodes);
  }

  // The flag as the status message reads it ("not all return nodes are
  // being displayed"): set only when a node with a new id is dropped.

  function DedupStepIntended(all: Deduplicated, curr: BasicNode, limit: int): Deduplicated
  {
    if curr.id in all.taken then all
    else if |all.nodes| == limit then all.(nodeLimitHit := true)
    else Deduplicated(all.nodes + [curr], all.taken + {curr.id}, all.nodeLimitHit)
  }

  function DedupIntended(nodes: seq<BasicNode>, limit: int): Deduplicated
  {
    if nodes == [] then Deduplicated([], {}, false)
    else DedupStepIntended(DedupIntended(nodes[..|nodes| - 1], limit), nodes[|nodes| - 1], limit)
  }

  /** The reduce with the intended step: a duplicate is skipped before the
      limit is looked at. */
  method DeduplicateNodesIntended(nodes: seq<BasicNode>, limit: int) returns (kept: seq<BasicNode>, nodeLimitHit: bool)
    ensures kept == DedupIntended(nodes, limit).nodes && nodeLimitHit == DedupIntended(nodes, limit).nodeLimitHit
  {
    kept := [];
    var taken: set<string> := {};
    nodeLimitHit := false;
    for i := 0 to |nodes|
      invariant Deduplicated(kept, taken, nodeLimitHit) == DedupIntended(nodes[..i], limit)
    {
      assert nodes[..i + 1][..i] == nodes[..i];
      var curr := nodes[i];
      if curr.id in taken {
      } else if |kept| == limit {
        nodeLimitHit := true;
      } else {
        kept := kept + [curr];
        taken := taken + {curr.id};
      }
    }
    assert nodes[..|nodes|] == nodes;
  }

  /** The intended fold keeps the same nodes, and its flag is set exactly
      when some input id is missing from the output. */
  lemma {:induction false} DedupIntendedSpec(nodes: seq<BasicNode>, limit: int)
    ensures DedupIntended(nodes, limit).nodes == Dedup(nodes, limit).nodes
    ensures DedupIntended(nodes, limit).taken == Dedup(nodes, limit).taken
    ensures DedupIntended(nodes, limit).nodeLimitHit <==> Ids(DedupIntended(nodes, limit).nodes) != Ids(nodes)
    ensures DedupIntended(nodes, limit).nodeLimitHit ==> |DedupIntended(nodes, limit).nodes| == limit
    ensures Ids(DedupIntended(nodes, limit).nodes) <= Ids(nodes)
  {
    if nodes != [] {
      var init := nodes[..|nodes| - 1];
      var x := nodes[|nodes| - 1];
      assert init + [x] == nodes;
      DedupIntendedSpec(init, limit);
      DedupKeepsFirstOccurrences(init, limit);
      DedupKeepsFirstOccurrences(nodes, limit);
      IdsOfAppend(init, x);
      var all := DedupIntended(init, limit);
      if x.id !in all.taken && |all.nodes| != limit {
        IdsOfAppend(all.nodes, x);
      }
      assert all.taken == Ids(all.nodes);
    } else {
      assert Ids([]) == {};
    }
  }

  /** With a duplicate arriving after the limit is reached, the code raises
      the flag although every id is displayed. */
  lemma DuplicateAfterLimitRaisesFlag()
    ensures var a := BasicNode("a", []);
      var b := BasicNode("b", []);
      var r := Dedup([a, b, a], 2);
      r.nodeLimitHit && Ids(r.nodes) == Ids([a, b, a]) && !DedupIntended([a, b, a], 2).nodeLimitHit
  {
    var a := BasicNode("a", []);
    var b := BasicNode("b", []);
    assert [a, b, a][..2] == [a, b];
    assert [a, b][..1] == [a];
    assert [a][..0] == [];
    assert Dedup([a], 2) == Deduplicated([a], {"a"}, false);
    assert Dedup([a, b], 2) == Deduplicated([a, b], {"a", "b"}, false);
    assert Dedup([a, b, a], 2) == Deduplicated([a, b], {"a", "b"}, true);
    assert DedupIntended([a], 2) == Deduplicated([a], {"a"}, false);
    assert DedupIntended([a, b], 2) == Deduplicated([a, b], {"a", "b"}, false);
    assert DedupIntended([a, b, a], 2) == Deduplicated([a, b], {"a", "b"}, false);
    assert Ids([a, b]) == {"a", "b"} by { IdsOfAppend([a], b); IdsOfAppend([], a); assert [] + [a] == [a]; }
    assert Ids([a, b, a]) == {"a", "b"} by { IdsOfAppend([a, b], a); }
  }

  // ---------------------------------------------------------------------
  // Relationships and the first inspector item

  /** `!!nodes.find(node => node.id === rel.startNodeId) && ...endNodeId`. */
  predicate Connects(rel: BasicRelationship, kept: seq<BasicNode>)
  {
    rel.startNodeId in Ids(kept) && rel.endNodeId in Ids(kept)
  }

  function FilterConnected(rels: seq<BasicRelationship>, kept: seq<BasicNode>): seq<BasicRelationship>
  {
    if rels == [] then []
    else
      var rest := FilterConnected(rels[1..], kept);
      if Connects(rels[0], kept) then [rels[0]] + rest else rest
  }


  /** `a` is `b` with some elements left out, order kept. */
  predicate IsSubsequence(a: seq<BasicRelationship>, b: seq<BasicRelationship>)
  {
    a == [] || (b != [] && (if a[0] == b[0] then IsSubsequence(a[1..], b[1..]) else IsSubsequence(a, b[1..])))
  }

  /** The filter keeps exactly the relationships whose both ends are kept,
      in their original order. */
  lemma {:induction false} FilterConnectedSpec(rels: seq<BasicRelationship>, kept: seq<BasicNode>)
    ensures forall r :: r in FilterConnected(rels, kept) <==> r in rels && Connects(r, kept)
    ensures IsSubsequence(FilterConnected(rels, kept), rels)
  {
    if rels != [] {
      FilterConnectedSpec(rels[1..], kept);
      assert forall r :: r in rels <==> r == rels[0] || r in rels[1..];
      var rest := FilterConnected(rels[1..], kept);
      if Connects(rels[0], kept) {
        assert ([rels[0]] + rest)[1..] == rest;
      } else {
        SubsequenceOfTail(rest, rels);
      }
    }
  }

  lemma {:induction false} SubsequenceOfTail(a: seq<BasicRelationship>, b: seq<BasicRelationship>)
    requires b != [] && IsSubsequence(a, b[1..])
    ensures IsSubsequence(a, b)
    decreases |b|, |a|
  {
    if a != [] && a[0] == b[0] {
      var t := b[1..];
      if a[0] == t[0] {
        assert IsSubsequence(a[1..], t[1..]);
        SubsequenceOfTail(a[1..], t);
      } else {
        assert IsSubsequence(a, t[1..]);
        SubsequenceOfTail(a, t);
        assert IsSubsequence(a[1..], t) by { DropHead(a, t); }
      }
    }
  }

  lemma {:induction false} DropHead(a: seq<BasicRelationship>, b: seq<BasicRelationship>)
    requires a != [] && IsSubsequence(a, b)
    ensures IsSubsequence(a[1..], b)
    decreases |b|, |a|
  {
    if a[0] == b[0] {
      if a[1..] != [] {
        SubsequenceOfTail(a[1..], b);
      }
    } else {
      DropHead(a, b[1..]);
      if a[1..] != [] {
        SubsequenceOfTail(a[1..], b);
      }
    }
  }

  /** The relationships the component keeps. */
  function KeptRelationships(rels: seq<BasicRelationship>, kept: seq<BasicNode>, nodeLimitHit: bool): seq<BasicRelationship>
  {
    if nodeLimitHit then FilterConnected(rels, kept) else rels
  }

  /** Without the flag every relationship is kept; with it, exactly those
      between kept nodes. Either way the order is the input's. */
  lemma KeptRelationshipsSpec(rels: seq<BasicRelationship>, kept: seq<BasicNode>, nodeLimitHit: bool)
    ensures !nodeLimitHit ==> KeptRelationships(rels, kept, nodeLimitHit) == rels
    ensures nodeLimitHit ==>
      forall r :: r in KeptRelationships(rels, kept, nodeLimitHit) <==> r in rels && Connects(r, kept)
    ensures IsSubsequence(KeptRelationships(rels, kept, nodeLimitHit), rels)
  {
    FilterConnectedSpec(rels, kept);
    if !nodeLimitHit {
      SubsequenceOfItself(rels);
    }
  }

  lemma {:induction false} SubsequenceOfItself(s: seq<BasicRelationship>)
    ensures IsSubsequence(s, s)
  {
    if s != [] {
      SubsequenceOfItself(s[1..]);
    }
  }

  function NatToString(n: nat): string
  {
    var d := ['0' + (n % 10) as char];
    if n < 10 then d else NatToString(n / 10) + d
  }

  predicate IsDecimal(s: string)
  {
    forall i | 0 <= i < |s| :: '0' <= s[i] <= '9'
  }

  /** The number a string of decimal digits denotes. */
  function DecimalValue(s: string): nat
    requires IsDecimal(s)
  {
    if s == [] then 0 else 10 * DecimalValue(s[..|s| - 1]) + (s[|s| - 1] as int - '0' as int)
  }

  /** The template literal prints a count in decimal: at least one digit,
      no leading zero, and the digits read back as the count. */
  lemma {:induction false} NatToStringDecimal(n: nat)
    ensures var s := NatToString(n);
      && |s| >= 1 && IsDecimal(s) && DecimalValue(s) == n
      && (s[0] == '0' ==> s == "0")
  {
    var s := NatToString(n);
    var d := ['0' + (n % 10) as char];
    if n >= 10 {
      var p := NatToString(n / 10);
      NatToStringDecimal(n / 10);
      assert s == p + d;
      assert s[..|s| - 1] == p;
      assert s[0] == p[0];
    }
  }

  function IntToString(n: int): string
  {
    if n < 0 then "-" + NatToString(-n) else NatToString(n)
  }

  function LimitMessage(limit: int, total: nat): string
  {
    "Not all return nodes are being displayed due to Initial Node Display setting. Only "
      + IntToString(limit) + " of " + NatToString(total) + " nodes are being displayed"
  }

  /** The first selected (and hovered) item. */
  function InitialSelectedItem(nodeLimitHit: bool, limit: int, total: nat, nodeCount: nat, relationshipCount: nat): VItem
  {
    if nodeLimitHit then StatusItem(LimitMessage(limit, total)) else CanvasItem(nodeCount, relationshipCount)
  }

  /** The state the constructor prepares: de-duplicated nodes, the kept
      relationships, and the first inspector item. */
  datatype PreparedGraph = PreparedGraph(nodes: seq<BasicNode>, relationships: seq<BasicRelationship>, selectedItem: VItem)

  /** The constructor's preparation, on the flag `deduplicateNodes`
      returns as written. */
  function Prepare(nodes: seq<BasicNode>, rels: seq<BasicRelationship>, limit: int): PreparedGraph
  {
    var d := Dedup(nodes, limit);
    var kept := KeptRelationships(rels, d.nodes, d.nodeLimitHit);
    PreparedGraph(d.nodes, kept, InitialSelectedItem(d.nodeLimitHit, limit, |nodes|, |d.nodes|, |kept|))
  }

  /** The first item is the limit message exactly when the fold raised its
      flag, which it always does when some returned id is not displayed
      (but also after a late duplicate). Otherwise it is the canvas with
      the counts of what is displayed, every returned id is displayed, and
      every relationship is kept. With the message, the kept relationships
      are those between displayed nodes, in their order. */
  lemma PrepareSpec(nodes: seq<BasicNode>, rels: seq<BasicRelationship>, limit: int)
    ensures var p := Prepare(nodes, rels, limit);
      && p.nodes == Dedup(nodes, limit).nodes
      && (p.selectedItem.StatusItem? <==> Dedup(nodes, limit).nodeLimitHit)
      && (Ids(p.nodes) != Ids(nodes) ==> p.selectedItem == StatusItem(LimitMessage(limit, |nodes|)))
      && (!p.selectedItem.StatusItem? ==>
            && p.selectedItem == CanvasItem(|p.nodes|, |p.relationships|)
            && p.relationships == rels
            && Ids(p.nodes) == Ids(nodes))
      && IsSubsequence(p.relationships, rels)
      && (p.selectedItem.StatusItem? ==>
            forall r :: r in p.relationships <==> r in rels && Connects(r, p.nodes))
  {
    var d := Dedup(nodes, limit);
    NoHitKeepsEveryId(nodes, limit);
    KeptRelationshipsSpec(rels, d.nodes, d.nodeLimitHit);
  }

  /** The preparation with the corrected fold of the finding on the limit
      flag: the message appears only when a returned id is missing. */
  function PrepareIntended(nodes: seq<BasicNode>, rels: seq<BasicRelationship>, limit: int): PreparedGraph
  {
    var d := DedupIntended(nodes, limit);
    var kept := KeptRelationships(rels, d.nodes, d.nodeLimitHit);
    PreparedGraph(d.nodes, kept, InitialSelectedItem(d.nodeLimitHit, limit, |nodes|, |d.nodes|, |kept|))
  }

  /** With the corrected fold the first item is a status message exactly
      when some returned node is not displayed; otherwise it is the canvas
      and every relationship is displayed. */
  lemma PrepareIntendedSpec(nodes: seq<BasicNode>, rels: seq<BasicRelationship>, limit: int)
    ensures var p := PrepareIntended(nodes, rels, limit);
      && (p.selectedItem.StatusItem? <==> Ids(p.nodes) != Ids(nodes))
      && p.nodes == Dedup(nodes, limit).nodes
      && (!p.selectedItem.StatusItem? ==>
            p.selectedItem == CanvasItem(|p.nodes|, |p.relationships|) && p.relationships == rels)
      && (forall r <- p.relationships :: r in rels)
      && (p.selectedItem.StatusItem? ==>
            forall r :: r in p.relationships <==> r in rels && Connects(r, p.nodes))
  {
    var d := DedupIntended(nodes, limit);
    DedupIntendedSpec(nodes, limit);
    FilterConnectedSpec(rels, d.nodes);
  }

  /** `Math.max(panelMinWidth, width)`. */
  function ClampWidth(panelMinWidth: real, width: real): real
  {
    if panelMinWidth >= width then panelMinWidth else width
  }

  /** The clamp never goes below the minimum, keeps any width at or above
      it, and clamping twice changes nothing. */
  lemma ClampWidthSpec(panelMinWidth: real, width: real)
    ensures ClampWidth(panelMinWidth, width) >= panelMinWidth
    ensures width >= panelMinWidth ==> ClampWidth(panelMinWidth, width) == width
    ensures ClampWidth(panelMinWidth, ClampWidth(panelMinWidth, width)) == ClampWidth(panelMinWidth, width)
  {
  }

  /** The component state that the modelled code sets. */
  class GraphVisualizer {
    const initialNodeDisplay: int
    const panelMinWidth: real
    var nodes: seq<BasicNode>
    var relationships: seq<BasicRelationship>
    var selectedItem: VItem
    var hoveredItem: VItem
    var width: real
    var nodePropertiesExpanded: bool

    /** The constructor: the panel's default width and the expanded flag
        are passed in. */
    constructor (propsNodes: seq<BasicNode>, propsRelationships: seq<BasicRelationship>, initialNodeDisplay: int,
                 panelMinWidth: real, defaultPanelWidth: real, nodePropertiesExpandedByDefault: bool)
      ensures this.initialNodeDisplay == initialNodeDisplay && this.panelMinWidth == panelMinWidth
      ensures PreparedGraph(nodes, relationships, selectedItem) == Prepare(propsNodes, propsRelationships, initialNodeDisplay)
      ensures hoveredItem == selectedItem
      ensures width == defaultPanelWidth && nodePropertiesExpanded == nodePropertiesExpandedByDefault
    {
      this.initialNodeDisplay := initialNodeDisplay;
      this.panelMinWidth := panelMinWidth;
      var kept, nodeLimitHit := DeduplicateNodes(propsNodes, initialNodeDisplay);
      var rels := if nodeLimitHit then FilterConnected(propsRelationships, kept) else propsRelationships;
      var item := if nodeLimitHit then StatusItem(LimitMessage(initialNodeDisplay, |propsNodes|))
                  else CanvasItem(|kept|, |rels|);
      nodes := kept;
      relationships := rels;
      selectedItem := item;
      hoveredItem := item;
      width := defaultPanelWidth;
      nodePropertiesExpanded := nodePropertiesExpandedByDefault;
    }

    /** `onItemSelect`. */
    method OnItemSelect(item: VItem)
      modifies this
      ensures selectedItem == item
      ensures nodes == old(nodes) && relationships == old(relationships) && hoveredItem == old(hoveredItem)
      ensures width == old(width) && nodePropertiesExpanded == old(nodePropertiesExpanded)
    {
      selectedItem := item;
    }

    /** The inspector panel's `setWidth` callback. */
    method SetWidth(w: real)
      modifies this
      ensures width == ClampWidth(panelMinWidth, w) && width >= panelMinWidth
      ensures nodes == old(nodes) && relationships == old(relationships)
      ensures selectedItem == old(selectedItem) && hoveredItem == old(hoveredItem)
      ensures nodePropertiesExpanded == old(nodePropertiesExpanded)
    {
      width := if panelMinWidth >= w then panelMinWidth else w;
    }
  }
}
