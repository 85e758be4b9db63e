/** Arrow directions for the relationships between two distinct nodes:
    each points along the line joining them, and its centre distance is the
    length of that line. Self-loops are placed in `LoopArrows`. */
module ArrowAngles {
  import opened JsNumbers
  import opened ArcModels

  /** Each relationship occurs at one position of one pair only, as when the
      pairs are built by grouping the relationships by their end nodes. */
  predicate EachRelationshipOnce(pairs: seq<NodePair>)
  {
    forall i, a, j, b |
      && 0 <= i < |pairs| && 0 <= a < |pairs[i].relationships|
      && 0 <= j < |pairs| && 0 <= b < |pairs[j].relationships|
      && pairs[i].relationships[a] == pairs[j].relationships[b]
      :: i == j && a == b
  }

  function NonLoopPairRelationships(pairs: seq<NodePair>): set<RelationshipModel>
  {
    set p <- pairs, r <- p.relationships | !p.IsLoop() :: r
  }

  function LoopPairRelationships(pairs: seq<NodePair>): set<RelationshipModel>
  {
    set p <- pairs, r <- p.relationships | p.IsLoop() :: r
  }

  // ---------------------------------------------------------------------
  // Relationships between two distinct nodes

  /** The direction from nodeB to nodeA, in degrees, brought into [0, 360). */
  function PairAngle(pair: NodePair, math: MathPrimitives): (angle: real)
    requires math.Valid()
    reads pair.nodeA, pair.nodeB
    ensures 0.0 <= angle < 360.0
  {
    var dx := pair.nodeA.x - pair.nodeB.x;
    var dy := pair.nodeA.y - pair.nodeB.y;
    HalfTurnsWithinOne(math.atan2(dy, dx), math.pi);
    Rem(math.atan2(dy, dx) / math.pi * 180.0 + 360.0, 360.0)
  }

  /** An angle of at most pi in size is at most half a turn in degrees. */
  lemma HalfTurnsWithinOne(t: real, pi: real)
    requires pi > 0.0 && -pi <= t <= pi
    ensures -180.0 <= t / pi * 180.0 <= 180.0
  {
    var u := t / pi;
    assert u * pi == t;
    if u > 1.0 {
      MulStrictMonotonic(1.0, u, pi);
    }
    if u < -1.0 {
      MulStrictMonotonic(u, -1.0, pi);
    }
  }

  /** The distance between the two nodes of the pair. */
  function CentreDistance(pair: NodePair, math: MathPrimitives): (d: real)
    requires math.Valid()
    reads pair.nodeA, pair.nodeB
    ensures d >= 0.0
    ensures d * d == (pair.nodeA.x - pair.nodeB.x) * (pair.nodeA.x - pair.nodeB.x)
                   + (pair.nodeA.y - pair.nodeB.y) * (pair.nodeA.y - pair.nodeB.y)
  {
    var dx := pair.nodeA.x - pair.nodeB.x;
    var dy := pair.nodeA.y - pair.nodeB.y;
    SquareNonNegative(dx);
    SquareNonNegative(dy);
    math.sqrt(dx * dx + dy * dy)
  }

  /** The direction given to relationship `r` of a non-loop pair: the pair's
      angle, turned by half a turn when `r` ends at nodeA. */
  function ArrowAngle(pair: NodePair, r: RelationshipModel, math: MathPrimitives): (angle: real)
    requires math.Valid()
    reads pair.nodeA, pair.nodeB
    ensures 0.0 <= angle < 360.0
  {
    if r.target == pair.nodeA then Rem(PairAngle(pair, math) + 180.0, 360.0) else PairAngle(pair, math)
  }

  /** Two relationships of the same non-loop pair that run in opposite
      directions are drawn exactly half a turn apart. */
  lemma OppositeArrowsHalfTurnApart(pair: NodePair, r1: RelationshipModel, r2: RelationshipModel, math: MathPrimitives)
    requires math.Valid()
    requires r1.target == pair.nodeA && r2.target != pair.nodeA
    ensures ArrowAngle(pair, r1, math) - ArrowAngle(pair, r2, math) == 180.0
         || ArrowAngle(pair, r2, math) - ArrowAngle(pair, r1, math) == 180.0
  {
    var angle := PairAngle(pair, math);
    RemOfSmall(angle + 180.0, 360.0);
  }

  /** The state of one relationship after the non-loop pass. */
  ghost predicate HasPairGeometry(pair: NodePair, r: RelationshipModel, math: MathPrimitives)
    requires math.Valid()
    reads r, pair.nodeA, pair.nodeB
  {
    r.naturalAngle == ArrowAngle(pair, r, math) && r.centreDistance == CentreDistance(pair, math)
  }

  /** Writes `naturalAngle` and `centreDistance` onto every relationship of
      every non-loop pair; self-loop pairs are left as they are. */
  method ComputeGeometryForNonLoopArrows(nodePairs: seq<NodePair>, math: MathPrimitives)
    requires math.Valid()
    requires EachRelationshipOnce(nodePairs)
    modifies NonLoopPairRelationships(nodePairs)
    ensures forall i, a | 0 <= i < |nodePairs| && !nodePairs[i].IsLoop() && 0 <= a < |nodePairs[i].relationships| ::
      HasPairGeometry(nodePairs[i], nodePairs[i].relationships[a], math)
    ensures forall i, a | 0 <= i < |nodePairs| && nodePairs[i].IsLoop() && 0 <= a < |nodePairs[i].relationships| ::
      unchanged(nodePairs[i].relationships[a])
    ensures forall r <- NonLoopPairRelationships(nodePairs) :: r.selected == old(r.selected)
  {
    var n := 0;
    while n < |nodePairs|
      invariant 0 <= n <= |nodePairs|
      invariant forall i, a | 0 <= i < n && !nodePairs[i].IsLoop() && 0 <= a < |nodePairs[i].relationships| ::
        HasPairGeometry(nodePairs[i], nodePairs[i].relationships[a], math)
      invariant forall i, a | n <= i < |nodePairs| && 0 <= a < |nodePairs[i].relationships| ::
        unchanged(nodePairs[i].relationships[a])
      invariant forall i, a | 0 <= i < |nodePairs| && nodePairs[i].IsLoop() && 0 <= a < |nodePairs[i].relationships| ::
        unchanged(nodePairs[i].relationships[a])
      invariant forall r <- NonLoopPairRelationships(nodePairs) :: r.selected == old(r.selected)
    {
      var pair := nodePairs[n];
      if !pair.IsLoop() {
        OnlyThisPair(nodePairs, n);
        SetPairGeometry(pair, math);
      }
      n := n + 1;
    }
  }

  /** The relationships of every other pair lie outside pair n. */
  lemma OnlyThisPair(pairs: seq<NodePair>, n: nat)
    requires EachRelationshipOnce(pairs) && n < |pairs|
    ensures forall j, a | 0 <= j < |pairs| && j != n && 0 <= a < |pairs[j].relationships| ::
      pairs[j].relationships[a] !in pairs[n].relationships
  {
  }

  /** The body of the non-loop pass for one pair. */
  method SetPairGeometry(pair: NodePair, math: MathPrimitives)
    requires math.Valid()
    modifies set r <- pair.relationships
    ensures forall a | 0 <= a < |pair.relationships| :: HasPairGeometry(pair, pair.relationships[a], math)
    ensures forall r <- pair.relationships :: r.selected == old(r.selected)
  {
    var angle := PairAngle(pair, math);
    var distance := CentreDistance(pair, math);
    var k := 0;
    while k < |pair.relationships|
      invariant 0 <= k <= |pair.relationships|
      invariant forall a | 0 <= a < k :: HasPairGeometry(pair, pair.relationships[a], math)
      invariant forall r <- pair.relationships :: r.selected == old(r.selected)
    {
      var r := pair.relationships[k];
      r.naturalAngle := if r.target == pair.nodeA then Rem(angle + 180.0, 360.0) else angle;
      r.centreDistance := distance;
      assert HasPairGeometry(pair, r, math);
      k := k + 1;
    }
  }
}
