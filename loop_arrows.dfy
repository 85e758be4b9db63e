/** Placement of self-loops: the directions of the other relationships at the
    node are normalised and sorted, the widest gap between neighbouring
    directions (the one across 0 degrees included) is found, and the loops
    are spread evenly inside it. A node with no other relationships gets its
    loops spread around the full circle. */
module LoopArrows {
  import opened JsNumbers
  import opened ArcModels
  import opened ArrowAngles

  // ---------------------------------------------------------------------
  // Directions of the non-loop relationships at a node

  function NonLoops(rels: seq<RelationshipModel>): set<RelationshipModel>
  {
    set r <- rels | !r.IsLoop()
  }

  /** What one relationship adds to the directions around `node`: its own
      angle when it leaves `node`, the reverse angle when it arrives there. */
  function Contribution(r: RelationshipModel, node: NodeModel): seq<real>
    reads if r.IsLoop() then {} else {r}
  {
    if r.IsLoop() then []
    else
      (if r.source == node then [r.naturalAngle] else [])
      + (if r.target == node then [r.naturalAngle + 180.0] else [])
  }

  /** The `isLoop` test keeps a self-loop from adding directions: a loop
      adds none, and any other relationship adds one direction at each of
      its ends and none elsewhere. */
  lemma ContributionOfOne(r: RelationshipModel, node: NodeModel)
    ensures r.IsLoop() ==> Contribution(r, node) == []
    ensures !r.IsLoop() ==> |Contribution(r, node)| == (if r.source == node || r.target == node then 1 else 0)
  {
  }

  /** The directions at `node` in the order the relationships are listed. */
  function IncidentAngles(rels: seq<RelationshipModel>, node: NodeModel): seq<real>
    reads set r <- rels | !r.IsLoop()
  {
    if rels == [] then []
    else
      IncidentAngles(rels[..|rels| - 1], node) + Contribution(rels[|rels| - 1], node)
  }

  /** A node has no directions to avoid exactly when no non-loop relationship
      starts or ends at it. */
  lemma {:induction false} NoIncidentAnglesIffNoNeighbours(rels: seq<RelationshipModel>, node: NodeModel)
    ensures IncidentAngles(rels, node) == []
        <==> forall r <- rels :: r.IsLoop() || (r.source != node && r.target != node)
  {
    if rels != [] {
      var init := rels[..|rels| - 1];
      NoIncidentAnglesIffNoNeighbours(init, node);
      assert rels == init + [rels[|rels| - 1]];
    }
  }

  /** Gathers the directions at `node`, one relationship at a time. */
  method CollectIncidentAngles(rels: seq<RelationshipModel>, node: NodeModel) returns (angles: seq<real>)
    ensures angles == IncidentAngles(rels, node)
  {
    angles := [];
    for n := 0 to |rels|
      invariant angles == IncidentAngles(rels[..n], node)
    {
      var r := rels[n];
      assert rels[..n + 1][..n] == rels[..n];
      if !r.IsLoop() {
        if r.source == node {
          angles := angles + [r.naturalAngle];
        }
        if r.target == node {
          angles := angles + [r.naturalAngle + 180.0];
        }
      }
    }
    assert rels[..|rels|] == rels;
  }

  // ---------------------------------------------------------------------
  // Normalising and sorting

  /** Each direction shifted by a full turn and reduced with JavaScript's `%`. */
  function Normalised(angles: seq<real>): (r: seq<real>)
    ensures |r| == |angles|
    ensures forall i | 0 <= i < |angles| && angles[i] >= -360.0 :: 0.0 <= r[i] < 360.0
  {
    seq(|angles|, i requires 0 <= i < |angles| => Rem(angles[i] + 360.0, 360.0))
  }

  predicate SortedAscending(s: seq<real>)
  {
    forall i, j | 0 <= i < j < |s| :: s[i] <= s[j]
  }

  function InsertSorted(x: real, s: seq<real>): (r: seq<real>)
    requires SortedAscending(s)
    ensures SortedAscending(r)
    ensures multiset(r) == multiset(s) + multiset{x}
    ensures |r| == |s| + 1
    ensures r[0] == x || (s != [] && r[0] == s[0])
  {
    if s == [] || x <= s[0] then [x] + s
    else
      assert s == [s[0]] + s[1..];
      var t := InsertSorted(x, s[1..]);
      assert s[0] <= t[0];
      [s[0]] + t
  }

  /** The ascending numeric sort that the directions go through. */
  function SortAscending(s: seq<real>): (r: seq<real>)
    ensures SortedAscending(r)
    ensures multiset(r) == multiset(s)
    ensures |r| == |s|
  {
    if s == [] then []
    else
      assert s == [s[0]] + s[1..];
      InsertSorted(s[0], SortAscending(s[1..]))
  }

  // ---------------------------------------------------------------------
  // Gaps between neighbouring directions

  /** Where the gap after direction `i` ends: at the next direction, or, for
      the last one, at the first direction one turn later. */
  function GapEnd(angles: seq<real>, i: nat): real
    requires i < |angles|
  {
    if i == |angles| - 1 then angles[0] + 360.0 else angles[i + 1]
  }

  function Gap(angles: seq<real>, i: nat): real
    requires i < |angles|
  {
    GapEnd(angles, i) - angles[i]
  }

  /** The first of the widest gaps among the first `n`. */
  function WidestGapUpTo(angles: seq<real>, n: nat): (w: nat)
    requires 0 < n <= |angles|
    ensures w < n
    ensures forall j | 0 <= j < n :: Gap(angles, j) <= Gap(angles, w)
    ensures forall j | 0 <= j < w :: Gap(angles, j) < Gap(angles, w)
  {
    if n == 1 then 0
    else
      var w := WidestGapUpTo(angles, n - 1);
      if Gap(angles, n - 1) > Gap(angles, w) then n - 1 else w
  }

  /** The widest gap; on a tie, the first one. */
  function WidestGap(angles: seq<real>): (w: nat)
    requires |angles| > 0
    ensures w < |angles|
    ensures forall j | 0 <= j < |angles| :: Gap(angles, j) <= Gap(angles, w)
    ensures forall j | 0 <= j < w :: Gap(angles, j) < Gap(angles, w)
  {
    WidestGapUpTo(angles, |angles|)
  }

  function SumOfGaps(angles: seq<real>, n: nat): real
    requires n <= |angles|
  {
    if n == 0 then 0.0 else SumOfGaps(angles, n - 1) + Gap(angles, n - 1)
  }

  /** The gaps before direction `n` add up to the distance from the first
      direction to direction `n`. */
  lemma {:induction false} GapsTelescope(angles: seq<real>, n: nat)
    requires n < |angles|
    ensures SumOfGaps(angles, n) == angles[n] - angles[0]
  {
    if n > 0 {
      GapsTelescope(angles, n - 1);
    }
  }

  /** All the gaps together make one full turn, whatever the directions. */
  lemma GapsSumToFullTurn(angles: seq<real>)
    requires |angles| > 0
    ensures SumOfGaps(angles, |angles|) == 360.0
  {
    GapsTelescope(angles, |angles| - 1);
  }

  lemma {:induction false} SumOfGapsBelowWidest(angles: seq<real>, n: nat, w: nat)
    requires n <= |angles| && w < |angles|
    requires forall j | 0 <= j < n :: Gap(angles, j) <= Gap(angles, w)
    ensures SumOfGaps(angles, n) <= n as real * Gap(angles, w)
  {
    if n > 0 {
      SumOfGapsBelowWidest(angles, n - 1, w);
      assert (n - 1) as real * Gap(angles, w) + Gap(angles, w) == n as real * Gap(angles, w);
    }
  }

  /** The widest gap is at least the average gap, a full turn divided by the
      number of directions; in particular it is never empty. */
  lemma WidestGapAtLeastAverage(angles: seq<real>)
    requires |angles| > 0
    ensures Gap(angles, WidestGap(angles)) * |angles| as real >= 360.0
    ensures Gap(angles, WidestGap(angles)) > 0.0
  {
    var w := WidestGap(angles);
    var g := Gap(angles, w);
    GapsSumToFullTurn(angles);
    SumOfGapsBelowWidest(angles, |angles|, w);
    if g <= 0.0 {
      MulMonotonic(g, 0.0, |angles| as real);
    }
  }

  /** No direction lies strictly inside any gap between neighbours (the
      widest one included), not even one turn later, once the directions
      are sorted and within one turn: each gap is free space. */
  lemma GapIsFree(angles: seq<real>, g: nat, j: nat)
    requires |angles| > 0 && SortedAscending(angles)
    requires forall i | 0 <= i < |angles| :: 0.0 <= angles[i] < 360.0
    requires g < |angles| && j < |angles|
    ensures !(angles[g] < angles[j] < GapEnd(angles, g)) && !(angles[g] < angles[j] + 360.0 < GapEnd(angles, g))
  {
  }

  /** The scan of the source over the gaps: the first gap wider than the
      widest seen so far replaces it, starting from an empty gap at 0. */
  method FindBiggestGap(angles: seq<real>) returns (start: real, end: real)
    requires |angles| > 0
    ensures start == angles[WidestGap(angles)] && end == GapEnd(angles, WidestGap(angles))
  {
    start, end := 0.0, 0.0;
    for i := 0 to |angles|
      invariant i == 0 ==> start == 0.0 && end == 0.0
      invariant i > 0 && Gap(angles, WidestGapUpTo(angles, i)) > 0.0 ==>
        start == angles[WidestGapUpTo(angles, i)] && end == GapEnd(angles, WidestGapUpTo(angles, i))
      invariant i > 0 && Gap(angles, WidestGapUpTo(angles, i)) <= 0.0 ==> start == 0.0 && end == 0.0
    {
      var angleStart := angles[i];
      var angleEnd := if i == |angles| - 1 then angles[0] + 360.0 else angles[i + 1];
      if angleEnd - angleStart > end - start {
        start, end := angleStart, angleEnd;
      }
    }
    WidestGapAtLeastAverage(angles);
  }

  // ---------------------------------------------------------------------
  // Directions of the loops

  /** The direction of loop `i` of `k` at a node whose other relationships
      point in the directions `incident`. */
  function LoopArrowAngle(incident: seq<real>, k: nat, i: nat): real
    requires i < k
  {
    var angles := SortAscending(Normalised(incident));
    if |angles| > 0 then
      var w := WidestGap(angles);
      GapLoopAngle(angles[w], GapEnd(angles, w), k, i)
    else
      EvenLoopAngle(k, i)
  }

  /** Loop `i` of `k` in the gap from `start` to `end`, turned back by a
      quarter turn and reduced with JavaScript's `%`. */
  function GapLoopAngle(start: real, end: real, k: nat, i: nat): real
  {
    var separation := (end - start) / (k + 1) as real;
    Rem(start + (i + 1) as real * separation - 90.0, 360.0)
  }

  /** Loop `i` of `k` when the whole circle is free. */
  function EvenLoopAngle(k: nat, i: nat): real
    requires i < k
  {
    i as real * (360.0 / k as real)
  }

  /** Where loop `i` of `k` points before the quarter-turn offset: strictly
      inside the widest gap, the k loops cutting it into k + 1 equal parts. */
  lemma LoopDirectionsInsideWidestGap(angles: seq<real>, k: nat, i: nat)
    requires |angles| > 0 && i < k
    ensures var w := WidestGap(angles);
      var separation := (GapEnd(angles, w) - angles[w]) / (k + 1) as real;
      && separation > 0.0
      && separation * (k + 1) as real == Gap(angles, w)
      && angles[w] < angles[w] + (i + 1) as real * separation < GapEnd(angles, w)
  {
    var w := WidestGap(angles);
    WidestGapAtLeastAverage(angles);
    var g := Gap(angles, w);
    var separation := g / (k + 1) as real;
    assert separation * (k + 1) as real == g;
    MulStrictMonotonic((i + 1) as real, (k + 1) as real, separation);
    MulStrictMonotonic(0.0, (i + 1) as real, separation);
  }

  /** With no other relationships at the node the k loops split the circle
      evenly, starting at direction 0. */
  lemma LoopsSplitFullTurn(k: nat, i: nat)
    requires i < k
    ensures LoopArrowAngle([], k, i) == i as real * 360.0 / k as real
    ensures 0.0 <= LoopArrowAngle([], k, i) < 360.0
    ensures i + 1 < k ==> LoopArrowAngle([], k, i + 1) - LoopArrowAngle([], k, i) == 360.0 / k as real
  {
    var share := 360.0 / k as real;
    assert share * k as real == 360.0;
    MulStrictMonotonic(i as real, k as real, share);
    MulMonotonic(0.0, i as real, share);
    assert SortAscending(Normalised([])) == [];
  }

  /** The loops of one self-loop pair, written in list order. */
  method SpreadLoops(pair: NodePair, relationships: seq<RelationshipModel>)
    requires pair.IsLoop() && pair.Valid()
    requires forall a, b | 0 <= a < b < |pair.relationships| :: pair.relationships[a] != pair.relationships[b]
    modifies set r <- pair.relationships
    ensures forall a | 0 <= a < |pair.relationships| ::
      pair.relationships[a].naturalAngle
        == LoopArrowAngle(old(IncidentAngles(relationships, pair.nodeA)), |pair.relationships|, a)
    ensures forall r <- pair.relationships :: r.selected == old(r.selected) && r.centreDistance == old(r.centreDistance)
  {
    ghost var before := IncidentAngles(relationships, pair.nodeA);
    var incident := CollectIncidentAngles(relationships, pair.nodeA);
    assert incident == before;
    var angles := SortAscending(Normalised(incident));
    if |angles| > 0 {
      var start, end := FindBiggestGap(angles);
      SpreadLoopsInGap(pair.relationships, start, end);
    } else {
      SpreadLoopsEvenly(pair.relationships);
    }
  }

  /** Loop `a` of the list gets direction `GapLoopAngle(start, end, k, a)`. */
  method SpreadLoopsInGap(loops: seq<RelationshipModel>, start: real, end: real)
    requires forall a, b | 0 <= a < b < |loops| :: loops[a] != loops[b]
    modifies set r <- loops
    ensures forall a | 0 <= a < |loops| :: loops[a].naturalAngle == GapLoopAngle(start, end, |loops|, a)
    ensures forall r <- loops :: r.selected == old(r.selected) && r.centreDistance == old(r.centreDistance)
  {
    var k := |loops|;
    for a := 0 to k
      invariant forall b | 0 <= b < a :: loops[b].naturalAngle == GapLoopAngle(start, end, k, b)
      invariant forall r <- loops :: r.selected == old(r.selected) && r.centreDistance == old(r.centreDistance)
    {
      loops[a].naturalAngle := GapLoopAngle(start, end, k, a);
    }
  }

  /** Loop `a` of the list gets direction `EvenLoopAngle(k, a)`. */
  method SpreadLoopsEvenly(loops: seq<RelationshipModel>)
    requires forall a, b | 0 <= a < b < |loops| :: loops[a] != loops[b]
    modifies set r <- loops
    ensures forall a | 0 <= a < |loops| :: loops[a].naturalAngle == EvenLoopAngle(|loops|, a)
    ensures forall r <- loops :: r.selected == old(r.selected) && r.centreDistance == old(r.centreDistance)
  {
    var k := |loops|;
    for a := 0 to k
      invariant forall b | 0 <= b < a :: loops[b].naturalAngle == EvenLoopAngle(k, b)
      invariant forall r <- loops :: r.selected == old(r.selected) && r.centreDistance == old(r.centreDistance)
    {
      loops[a].naturalAngle := EvenLoopAngle(k, a);
    }
  }

  /** Spreads the loops of every self-loop pair around its node, away from
      the node's other relationships, which are read but not written. */
  method DistributeAnglesForLoopArrows(nodePairs: seq<NodePair>, relationships: seq<RelationshipModel>)
    requires EachRelationshipOnce(nodePairs)
    requires forall p <- nodePairs :: p.Valid()
    modifies LoopPairRelationships(nodePairs)
    ensures forall i, a | 0 <= i < |nodePairs| && nodePairs[i].IsLoop() && 0 <= a < |nodePairs[i].relationships| ::
      nodePairs[i].relationships[a].naturalAngle
        == LoopArrowAngle(old(IncidentAngles(relationships, nodePairs[i].nodeA)), |nodePairs[i].relationships|, a)
    ensures forall r <- LoopPairRelationships(nodePairs) ::
      r.selected == old(r.selected) && r.centreDistance == old(r.centreDistance)
    ensures forall r <- NonLoops(relationships) :: unchanged(r)
    ensures forall r <- NonLoopPairRelationships(nodePairs) :: unchanged(r)
  {
    ghost var target := seq(|nodePairs|, i requires 0 <= i < |nodePairs| reads set r <- relationships | !r.IsLoop() =>
      var k := |nodePairs[i].relationships|;
      var incident := IncidentAngles(relationships, nodePairs[i].nodeA);
      seq(k, a requires 0 <= a < k => LoopArrowAngle(incident, k, a)));
    for n := 0 to |nodePairs|
      invariant forall i, a | 0 <= i < n && nodePairs[i].IsLoop() && 0 <= a < |nodePairs[i].relationships| ::
        nodePairs[i].relationships[a].naturalAngle == target[i][a]
      invariant forall i, a | n <= i < |nodePairs| && 0 <= a < |nodePairs[i].relationships| ::
        unchanged(nodePairs[i].relationships[a])
      invariant forall r <- LoopPairRelationships(nodePairs) ::
        r.selected == old(r.selected) && r.centreDistance == old(r.centreDistance)
      invariant forall r <- relationships | !r.IsLoop() :: unchanged(r)
    {
      var pair := nodePairs[n];
      if pair.IsLoop() {
        assert pair in nodePairs;
        assert forall r <- pair.relationships :: r.IsLoop();
        assert IncidentAngles(relationships, pair.nodeA) == old(IncidentAngles(relationships, pair.nodeA));
        forall i | 0 <= i < |nodePairs| && i != n
          ensures forall r <- nodePairs[i].relationships :: r !in pair.relationships
        {
          OtherPairsDisjoint(nodePairs, i, n);
        }
        SpreadLoops(pair, relationships);
      }
    }
  }

  lemma OtherPairsDisjoint(pairs: seq<NodePair>, i: nat, j: nat)
    requires EachRelationshipOnce(pairs)
    requires i < |pairs| && j < |pairs| && i != j
    ensures forall r <- pairs[i].relationships :: r !in pairs[j].relationships
  {
    forall r <- pairs[i].relationships
      ensures r !in pairs[j].relationships
    {
      if r in pairs[j].relationships {
        assert false;
      }
    }
  }
}
