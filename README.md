# neo4j-browser graph view: geometry, data preparation and selection, in Dafny

This project models the core of the graph visualisation of neo4j-browser:

- **Arrow geometry** (`geometry/utils.ts`):
  - The direction and centre distance that `computeGeometryForNonLoopArrows` writes onto every relationship between two distinct nodes (`arrow_angles.dfy`).
  - The placement of self-loops by `distributeAnglesForLoopArrows`, inside the widest free gap around their node (`loop_arrows.dfy`).
- **SVG path parsing** (`svg_path.dfy`): the `svgPathParser` tokeniser for SVG path data. It follows the path grammar of SVG 1.1, section 8.3, only loosely:
  - `1.e5` reads as the two numbers 1 and 5, where the grammar reads 100000;
  - arc flags written together (`0150`) read as one number;
  - text before the first command letter is skipped without an error.

  It models:
  - both regular expressions;
  - `parseFloat`;
  - the segment schema table;
  - both error cases.
- **Caption layout** (`caption_fitting.dfy`): `fitCaptionIntoCircle`, the greedy line packer that fits a node caption into its circle, with the ellipsis fallback.
- **Data preparation** (`graph_visualizer.dfy`): the `GraphVisualizer` component's preparation steps:
  - `deduplicateNodes`;
  - the relationship filter applied when the node limit is hit;
  - the first inspector item;
  - the panel width clamp.
- **Selection state machines**:
  - the neo4j-arc `GraphEventHandlerModel` (`graph_event_handler_model.dfy`);
  - the older D3 `GraphEventHandler` (`graph_event_handler.dfy`).

  Both are classes whose methods update `selectedItem` and the per-item flags in place. Calls to collaborators outside the model go to a ghost event log, in order. Every selecting method keeps `Valid()`: at most one item of the graph is selected, and it is `selectedItem`.
- **D3 graph entities** (`d3_components.dfy`): the `Node` and `Relationship` classes of the D3 visualisation, with:
  - the property list the constructors build;
  - `toJSON`;
  - `relationshipCount`.

Supporting modules:
- `wrappers.dfy`: `Option` and `Result`.
- `js_numbers.dfy`:
  - JavaScript's truncating `%`;
  - `Math.atan2`, `Math.sqrt` and `Math.PI`, passed in as values together with the range facts the code relies on.
- `arc_models.dfy`: the neo4j-arc `NodeModel`, `RelationshipModel`, `NodePair` and `GraphModel`. Only the fields the modelled code reads or writes are included, because the model files themselves are not part of this model.

Numbers are real numbers, not floating point. Text width (`measureText`), the style lookups (font size, caption template) and the trigonometric primitives are parameters.

Two direction conventions the model follows:
- **Non-loop pairs**: the code gives `(angle + 180) % 360` to relationships whose target is `nodeA` and `angle` to the others (utils.ts:19).
- **Loop placement**: the code takes `naturalAngle` from relationships whose source is the loop node and `naturalAngle + 180` from those whose target is the loop node (utils.ts:36-41).

## Model

| member | source | states |
|---|---|---|
| `JsNumbers.Rem` | src/neo4j-arc/graph-visualization/geometry/utils.ts:15 | JavaScript `%` keeps the sign of the dividend: in [0, m) for a non-negative dividend, in (-m, 0] for a negative one |
| `JsNumbers.RemOfSmall` | src/neo4j-arc/graph-visualization/geometry/utils.ts:44 | within one turn either side of zero, `%` subtracts at most one modulus, so `(a + 360) % 360` normalises any angle above -360 |
| `ArrowAngles.PairAngle` | src/neo4j-arc/graph-visualization/geometry/utils.ts:13-15 | the pair's direction, `(atan2(dy, dx) / pi * 180 + 360) % 360`, lies in [0, 360) |
| `ArrowAngles.CentreDistance` | src/neo4j-arc/graph-visualization/geometry/utils.ts:13-14 | the centre distance is non-negative and its square is dx² + dy² |
| `ArrowAngles.ArrowAngle` | src/neo4j-arc/graph-visualization/geometry/utils.ts:18-19 | each relationship's direction lies in [0, 360) |
| `ArrowAngles.OppositeArrowsHalfTurnApart` | src/neo4j-arc/graph-visualization/geometry/utils.ts:18-19 | in one pair, a relationship targeting nodeA points exactly half a turn away from one that does not |
| `ArrowAngles.SetPairGeometry` | src/neo4j-arc/graph-visualization/geometry/utils.ts:17-21 | every relationship of the pair gets the pair's direction (turned by 180 when it targets nodeA) and the same centre distance; its selection flag is untouched |
| `ArrowAngles.ComputeGeometryForNonLoopArrows` | src/neo4j-arc/graph-visualization/geometry/utils.ts:8-24 | every relationship of a non-loop pair gets its arrow direction and the pair's centre distance; relationships of loop pairs are left unchanged |
| `LoopArrows.NoIncidentAnglesIffNoNeighbours` | src/neo4j-arc/graph-visualization/geometry/utils.ts:34-46 | a node has no directions to avoid exactly when no non-loop relationship starts or ends at it |
| `LoopArrows.ContributionOfOne` | src/neo4j-arc/graph-visualization/geometry/utils.ts:35-42 | through `isLoop`, a self-loop adds no direction, and any other relationship adds exactly one at a node it touches and none elsewhere |
| `LoopArrows.CollectIncidentAngles` | src/neo4j-arc/graph-visualization/geometry/utils.ts:32-43 | the loop collects, in list order, each non-loop relationship's `naturalAngle` at its source and `naturalAngle + 180` at its target |
| `LoopArrows.Normalised` | src/neo4j-arc/graph-visualization/geometry/utils.ts:44 | every collected direction from -360 up is brought into [0, 360), keeping the count |
| `LoopArrows.InsertSorted` | src/neo4j-arc/graph-visualization/geometry/utils.ts:44 | inserting into an ascending list gives an ascending permutation of the list plus the new element |
| `LoopArrows.SortAscending` | src/neo4j-arc/graph-visualization/geometry/utils.ts:44 | the numeric sort gives an ascending permutation of its input |
| `LoopArrows.WidestGapUpTo` | src/neo4j-arc/graph-visualization/geometry/utils.ts:53-61 | among the first n gaps, the chosen one is at least as wide as every other and strictly wider than every earlier one |
| `LoopArrows.WidestGap` | src/neo4j-arc/graph-visualization/geometry/utils.ts:53-61 | the chosen gap, including the wrap-around gap to the first angle plus 360, is a widest gap, and the first one on a tie |
| `LoopArrows.GapsTelescope` | src/neo4j-arc/graph-visualization/geometry/utils.ts:53-56 | the gaps before direction n add up to the distance from the first direction to direction n |
| `LoopArrows.GapsSumToFullTurn` | src/neo4j-arc/graph-visualization/geometry/utils.ts:53-56 | the gaps, wrap-around included, add up to one full turn |
| `LoopArrows.SumOfGapsBelowWidest` | src/neo4j-arc/graph-visualization/geometry/utils.ts:53-61 | n gaps, none wider than gap w, add up to at most n times gap w |
| `LoopArrows.WidestGapAtLeastAverage` | src/neo4j-arc/graph-visualization/geometry/utils.ts:53-64 | the widest gap is positive and at least 360 divided by the number of directions |
| `LoopArrows.GapIsFree` | src/neo4j-arc/graph-visualization/geometry/utils.ts:53-61 | for sorted, normalised directions, none lies strictly inside any gap between neighbours, the wrap-around gap and so the widest one included |
| `LoopArrows.FindBiggestGap` | src/neo4j-arc/graph-visualization/geometry/utils.ts:47-61 | the scan that keeps the first strictly wider gap returns the start and end of `WidestGap` |
| `LoopArrows.LoopDirectionsInsideWidestGap` | src/neo4j-arc/graph-visualization/geometry/utils.ts:62-69 | before the quarter-turn offset, loop i of k points strictly inside the widest gap, the k loops cutting it into k + 1 equal positive parts |
| `LoopArrows.LoopsSplitFullTurn` | src/neo4j-arc/graph-visualization/geometry/utils.ts:70-75 | with no other relationships, loop i of k gets i * 360 / k, in [0, 360), neighbours 360 / k apart |
| `LoopArrows.SpreadLoopsInGap` | src/neo4j-arc/graph-visualization/geometry/utils.ts:62-69 | the loop writes loop a's direction as `(start + (a + 1) * gap / (k + 1) - 90) % 360` and nothing else |
| `LoopArrows.SpreadLoopsEvenly` | src/neo4j-arc/graph-visualization/geometry/utils.ts:70-75 | the loop writes loop a's direction as a * (360 / k) and nothing else |
| `LoopArrows.SpreadLoops` | src/neo4j-arc/graph-visualization/geometry/utils.ts:31-76 | loop a of a loop pair gets the direction computed from the directions of the other relationships at its node before the call; selection flags and centre distances are untouched |
| `LoopArrows.DistributeAnglesForLoopArrows` | src/neo4j-arc/graph-visualization/geometry/utils.ts:26-79 | every loop of every loop pair gets the direction computed from the non-loop directions at its node, keeping its flag and centre distance; non-loop relationships and pairs are unchanged |
| `LoopArrows.OtherPairsDisjoint` | src/neo4j-arc/graph-visualization/geometry/utils.ts:30-31 | when each relationship is in one pair only, two different pairs share no relationship, so writing one pair leaves the others alone |
| `SvgPath.Lower` | src/neo4j-arc/graph-visualization/geometry/utils.ts:97-99 | `toLowerCase` maps every command letter to one of `mzlhvcsqta` and leaves lower-case letters unchanged |
| `SvgPath.Schema` | src/neo4j-arc/graph-visualization/geometry/utils.ts:84-99 | only `z` has no fields; no field name repeats within a command, so no `Object.assign` overwrites another field; every other command ends with `x` or `y` |
| `SvgPath.NextCommand` | src/neo4j-arc/graph-visualization/geometry/utils.ts:101 | the segment expression matches at a position within the text that, when the text is not exhausted, holds a command letter of either case |
| `SvgPath.NextCommandIsFirst` | src/neo4j-arc/graph-visualization/geometry/utils.ts:101 | no command letter lies between the search start and the match: the expression starts at the first one |
| `SvgPath.Commands` | src/neo4j-arc/graph-visualization/geometry/utils.ts:101 | every matched segment starts with a command letter |
| `SvgPath.CommandsCoverInput` | src/neo4j-arc/graph-visualization/geometry/utils.ts:101 | the matched segments, letter then arguments, spell out the input from the first command letter to the end |
| `SvgPath.CommandArgumentsHaveNoLetters` | src/neo4j-arc/graph-visualization/geometry/utils.ts:101 | the argument text `[^mzlhvcsqta]*` of every matched segment holds no command letter of either case |
| `SvgPath.DigitRunEnd` | src/neo4j-arc/graph-visualization/geometry/utils.ts:102 | `[0-9]*` takes the longest run of digits |
| `SvgPath.NumberEndAt` | src/neo4j-arc/graph-visualization/geometry/utils.ts:102 | a number match at a position is non-empty and stays within the text |
| `SvgPath.MantissaMatchIsMantissa` | src/neo4j-arc/graph-visualization/geometry/utils.ts:102 | the mantissa part the matcher takes is an optional sign, digits, an optional dot and at least one digit |
| `SvgPath.ExponentMatchIsExponent` | src/neo4j-arc/graph-visualization/geometry/utils.ts:102 | the exponent part, when taken, is `e` (either case), an optional sign and at least one digit |
| `SvgPath.NumberMatchIsLiteral` | src/neo4j-arc/graph-visualization/geometry/utils.ts:102 | each match of the number expression is a number literal of that grammar |
| `SvgPath.NumberTokensAreLiterals` | src/neo4j-arc/graph-visualization/geometry/utils.ts:102 | every token `match` returns is a number literal |
| `SvgPath.ParseFloatOfInteger` | src/neo4j-arc/graph-visualization/geometry/utils.ts:118 | `parseFloat` reads a run of digits as its decimal value |
| `SvgPath.ParseFloatOfDecimal` | src/neo4j-arc/graph-visualization/geometry/utils.ts:118 | digits, a point and digits read as the whole part plus the fraction digits over ten to their count |
| `SvgPath.ParseFloatOfNegativeInteger` | src/neo4j-arc/graph-visualization/geometry/utils.ts:118 | a minus sign before a run of digits reads as the negated decimal value |
| `SvgPath.ParseFloatOfNegativeDecimal` | src/neo4j-arc/graph-visualization/geometry/utils.ts:118 | a minus sign before digits, a point and digits reads as the negated whole part plus fraction |
| `SvgPath.ChunksLength` | src/neo4j-arc/graph-visualization/geometry/utils.ts:138-149 | k numbers in groups of n give k / n segments |
| `SvgPath.ChunkAt` | src/neo4j-arc/graph-visualization/geometry/utils.ts:138-149 | segment i carries the kind, the relative flag and fields named by the schema holding numbers i*n to i*n+n-1 |
| `SvgPath.ChunksLayout` | src/neo4j-arc/graph-visualization/geometry/utils.ts:138-149 | field `schema[j]` of segment i holds `numbers[i*n+j]` |
| `SvgPath.SegmentsForFailure` | src/neo4j-arc/graph-visualization/geometry/utils.ts:123-136 | a command fails exactly when it has fewer numbers than its schema or a count that is not a multiple of it, with the count given and expected or the excess count |
| `SvgPath.SegmentsForShape` | src/neo4j-arc/graph-visualization/geometry/utils.ts:117-152 | a well-formed command gives k / n segments in order, field j of segment i being number i*n+j, each with the lower-case letter and `relative` true iff the letter was lower case; a close-path command gives one segment without fields |
| `SvgPath.SegmentsOfSpec` | src/neo4j-arc/graph-visualization/geometry/utils.ts:116-153 | a path of commands fails iff one command fails, and otherwise gives the commands' segments in order, all well formed |
| `SvgPath.ParsePathSpec` | src/neo4j-arc/graph-visualization/geometry/utils.ts:110-156 | `svgPathParser` throws exactly when a matched command is malformed; otherwise every segment is well formed |
| `SvgPath.AfterStep` | src/neo4j-arc/graph-visualization/geometry/utils.ts:116-153 | emitting one command's segments and then the rest gives the same outcome as emitting all of them at once |
| `SvgPath.SvgPathParser` | src/neo4j-arc/graph-visualization/geometry/utils.ts:110-156 | the parsing loop returns the segments of the path, or the error of its first malformed command |
| `SvgPath.EmitCommand` | src/neo4j-arc/graph-visualization/geometry/utils.ts:117-152 | the nested loops over segments and fields build the command's segments or its error |
| `SvgPath.EmitChunks` | src/neo4j-arc/graph-visualization/geometry/utils.ts:138-149 | the loop over `numbers.length / schema.length` segments, with its inner loop over the schema, builds exactly the chunked segments |
| `CaptionFitting.Split` | src/neo4j-arc/graph-visualization/geometry/utils.ts:303 | `split(' ')` gives at least one word |
| `CaptionFitting.SplitWordsHaveNoSpaces` | src/neo4j-arc/graph-visualization/geometry/utils.ts:303 | no word that `split(' ')` gives holds a space |
| `CaptionFitting.JoinSplit` | src/neo4j-arc/graph-visualization/geometry/utils.ts:303 | joining the words with spaces gives the caption back |
| `CaptionFitting.DropLastWord` | src/neo4j-arc/graph-visualization/geometry/utils.ts:333 | dropping the last space-separated word never lengthens the text |
| `CaptionFitting.DropLastWordOfAppended` | src/neo4j-arc/graph-visualization/geometry/utils.ts:333 | dropping the last word undoes appending a space and a word |
| `CaptionFitting.EmptyLineWithinDiameter` | src/neo4j-arc/graph-visualization/geometry/utils.ts:305-324 | a fresh line is empty, and its width is NaN (no chord) or lies between 0 and the diameter 50 |
| `CaptionFitting.BaselinesCentred` | src/neo4j-arc/graph-visualization/geometry/utils.ts:307 | baselines of consecutive lines are one font size apart, and the block of lines is centred vertically |
| `CaptionFitting.FillLineConsumes` | src/neo4j-arc/graph-visualization/geometry/utils.ts:350-359 | filling a line takes words in order without skipping, appends each after a space, and lowers the width by exactly word plus space for each |
| `CaptionFitting.FillLineFits` | src/neo4j-arc/graph-visualization/geometry/utils.ts:350-359 | each taken word was narrower than the width left minus a space at its turn, and the word it stopped at was not |
| `CaptionFitting.SpacedAppend` | src/neo4j-arc/graph-visualization/geometry/utils.ts:355 | the space-prefixed text of two word lists is the two texts one after the other |
| `CaptionFitting.PackLinesShape` | src/neo4j-arc/graph-visualization/geometry/utils.ts:348-361 | packing gives one line per remaining line index, each with its baseline, and a word index that never goes back and stays within the words |
| `CaptionFitting.PackLinesTexts` | src/neo4j-arc/graph-visualization/geometry/utils.ts:348-361 | read one after the other, the packed lines hold exactly the consumed words in order |
| `CaptionFitting.ShortenedNextWord` | src/neo4j-arc/graph-visualization/geometry/utils.ts:326-338 | the shortened-word text is never empty and always ends with U+2026 |
| `CaptionFitting.AddShortenedNextWord` | src/neo4j-arc/graph-visualization/geometry/utils.ts:326-338 | the shortening loop returns that text |
| `CaptionFitting.FixedLinesSpec` | src/neo4j-arc/graph-visualization/geometry/utils.ts:340-369 | exactly `lineCount` lines with baselines `(1 + i - lineCount / 2) * fontSize`; all words on the lines in order when they all fit, otherwise a last line ending in an ellipsis |
| `CaptionFitting.FillOneLine` | src/neo4j-arc/graph-visualization/geometry/utils.ts:350-359 | the inner `while` loop, over the pre-measured word widths, fills one line exactly as the packing rule does (whose properties `FillLineConsumes` and `FillLineFits` state) |
| `CaptionFitting.FitOnFixedNumberOfLines` | src/neo4j-arc/graph-visualization/geometry/utils.ts:340-369 | the nested loops return that packing and word index |
| `CaptionFitting.MaxCaptionTextLength` | src/neo4j-arc/graph-visualization/geometry/utils.ts:290-292 | the length cap is at most the circle's area over the square of the font size |
| `CaptionFitting.CaptionText` | src/neo4j-arc/graph-visualization/geometry/utils.ts:295-298 | the caption is cut to a prefix of at most the cap, and left whole when it fits |
| `CaptionFitting.TypesetFromSpec` | src/neo4j-arc/graph-visualization/geometry/utils.ts:374-388 | the kept lines are always the initial empty line or a candidate packing none of whose lines is empty |
| `CaptionFitting.FirstCompleteWins` | src/neo4j-arc/graph-visualization/geometry/utils.ts:374-388 | from a line count with words still to place, the loop ends with the packing of the first line count that has no empty line and places every word |
| `CaptionFitting.FitCaptionFirstComplete` | src/neo4j-arc/graph-visualization/geometry/utils.ts:371-388 | the caption is the first complete packing, when one exists within the line counts tried |
| `CaptionFitting.FitCaptionSpec` | src/neo4j-arc/graph-visualization/geometry/utils.ts:371-388 | the caption has at least one line; it is the initial empty line or the packing into some line count the loop tries (at most `2 * 25 / fontSize`), with no empty line |
| `CaptionFitting.FitCaptionIntoCircle` | src/neo4j-arc/graph-visualization/geometry/utils.ts:282-389 | the loop over line counts returns that caption, so the first complete packing when there is one |
| `Visualizer.DeduplicateNodes` | src/neo4j-arc/graph-visualization/GraphVisualizer/GraphVisualizer.tsx:50-65 | the `reduce` with its in-place accumulator returns the nodes and flag of the left fold `Dedup` |
| `Visualizer.DeduplicateNodesIntended` | src/neo4j-arc/graph-visualization/GraphVisualizer/GraphVisualizer.tsx:50-65 | the same reduce with duplicates skipped before the limit test returns the nodes and flag of `DedupIntended` |
| `Visualizer.IdsOfAppend` | src/neo4j-arc/graph-visualization/GraphVisualizer/GraphVisualizer.tsx:58-60 | appending a node adds exactly its id to the ids |
| `Visualizer.FirstOccurrencesSpec` | src/neo4j-arc/graph-visualization/GraphVisualizer/GraphVisualizer.tsx:58-61 | the reference list of first occurrences has distinct ids covering every input id and is no longer than the input |
| `Visualizer.FirstOccurrencesGrow` | src/neo4j-arc/graph-visualization/GraphVisualizer/GraphVisualizer.tsx:58-61 | a node adds to the first occurrences exactly when its id is new |
| `Visualizer.DedupKeepsFirstOccurrences` | src/neo4j-arc/graph-visualization/GraphVisualizer/GraphVisualizer.tsx:54-65 | the output is the first occurrence of each id, in input order, cut at the limit, and `taken` holds exactly their ids |
| `Visualizer.DedupDistinct` | src/neo4j-arc/graph-visualization/GraphVisualizer/GraphVisualizer.tsx:58-61 | no two output nodes share an id |
| `Visualizer.DedupWithinLimit` | src/neo4j-arc/graph-visualization/GraphVisualizer/GraphVisualizer.tsx:56-61 | for a non-negative limit the output has at most `limit` nodes |
| `Visualizer.DedupIsPrefixOfFirstOccurrences` | src/neo4j-arc/graph-visualization/GraphVisualizer/GraphVisualizer.tsx:54-65 | the output is a prefix of the input's first occurrences, so a subsequence of the input |
| `Visualizer.DedupLimitHit` | src/neo4j-arc/graph-visualization/GraphVisualizer/GraphVisualizer.tsx:56-57 | `nodeLimitHit` holds iff some input node arrived while the output already held `limit` nodes, duplicates included |
| `Visualizer.NoHitMeansUncapped` | src/neo4j-arc/graph-visualization/GraphVisualizer/GraphVisualizer.tsx:56-61 | without the flag the limit never cut the first occurrences |
| `Visualizer.NoHitKeepsEveryId` | src/neo4j-arc/graph-visualization/GraphVisualizer/GraphVisualizer.tsx:58-61 | without the flag every distinct input id is displayed |
| `Visualizer.DedupIntendedSpec` | src/neo4j-arc/graph-visualization/GraphVisualizer/GraphVisualizer.tsx:56-61 | with the flag raised only for dropped new ids, the same nodes are kept and the flag is set iff some input id is missing |
| `Visualizer.DuplicateAfterLimitRaisesFlag` | src/neo4j-arc/graph-visualization/GraphVisualizer/GraphVisualizer.tsx:56-57 | for nodes a, b, a and limit 2, the code raises the flag although every id is displayed |
| `Visualizer.FilterConnectedSpec` | src/neo4j-arc/graph-visualization/GraphVisualizer/GraphVisualizer.tsx:151-157 | the filter keeps exactly the relationships whose start and end ids are both displayed, in their original order |
| `Visualizer.SubsequenceOfTail` | src/neo4j-arc/graph-visualization/GraphVisualizer/GraphVisualizer.tsx:152 | a subsequence of the tail is a subsequence of the whole list |
| `Visualizer.DropHead` | src/neo4j-arc/graph-visualization/GraphVisualizer/GraphVisualizer.tsx:152 | dropping the first element of a subsequence leaves a subsequence |
| `Visualizer.KeptRelationshipsSpec` | src/neo4j-arc/graph-visualization/GraphVisualizer/GraphVisualizer.tsx:151-157 | without the limit flag every relationship is kept; with it, exactly those whose both ends are displayed; either way in the input's order |
| `Visualizer.NatToStringDecimal` | src/neo4j-arc/graph-visualization/GraphVisualizer/GraphVisualizer.tsx:163 | the limit message prints a count as decimal digits without a leading zero that read back as the count |
| `Visualizer.PrepareSpec` | src/neo4j-arc/graph-visualization/GraphVisualizer/GraphVisualizer.tsx:147-170 | the nodes are those `deduplicateNodes` keeps; the first item (`InitialSelectedItem`) is the limit message iff the code's flag is raised, which it always is when a returned id is not displayed; otherwise it is the canvas with the displayed counts, every returned id is displayed and every relationship kept; with the message, exactly the relationships between displayed nodes are kept, in order |
| `Visualizer.PrepareIntendedSpec` | src/neo4j-arc/graph-visualization/GraphVisualizer/GraphVisualizer.tsx:56-61 | with the corrected flag of the finding below, the first item is the limit message iff some returned id is not displayed |
| `Visualizer.ClampWidthSpec` | src/neo4j-arc/graph-visualization/GraphVisualizer/GraphVisualizer.tsx:332-334 | the clamped width is never below the minimum, keeps any width at or above it, and clamping is idempotent |
| `Visualizer.GraphVisualizer.constructor` | src/neo4j-arc/graph-visualization/GraphVisualizer/GraphVisualizer.tsx:143-194 | the state holds the nodes, relationships and first item prepared from `deduplicateNodes` as written (the first item also as the hovered item), the default width and the expanded flag |
| `Visualizer.GraphVisualizer.OnItemSelect` | src/neo4j-arc/graph-visualization/GraphVisualizer/GraphVisualizer.tsx:236-238 | selecting an item replaces `selectedItem` and nothing else |
| `Visualizer.GraphVisualizer.SetWidth` | src/neo4j-arc/graph-visualization/GraphVisualizer/GraphVisualizer.tsx:332-334 | the panel width becomes the clamped width, never below `panelMinWidth`, and nothing else changes |
| `EventHandlerModel.SetSelected` | src/neo4j-arc/graph-visualization/GraphVisualizer/Graph/GraphEventHandlerModel.ts:65-68 | setting an item's `selected` flag changes that flag only |
| `EventHandlerModel.GraphEventHandlerModel.constructor` | src/neo4j-arc/graph-visualization/GraphVisualizer/Graph/GraphEventHandlerModel.ts:42-57 | nothing is selected and nothing has been emitted; the handler is valid when no graph item is flagged selected |
| `EventHandlerModel.GraphEventHandlerModel.GraphModelChanged` | src/neo4j-arc/graph-visualization/GraphVisualizer/Graph/GraphEventHandlerModel.ts:59-61 | one statistics report is emitted |
| `EventHandlerModel.GraphEventHandlerModel.SelectItem` | src/neo4j-arc/graph-visualization/GraphVisualizer/Graph/GraphEventHandlerModel.ts:63-75 | the item becomes the selected item and is flagged, a different previous item is unflagged, and one update with `updateNodes` iff the item is a node is requested |
| `EventHandlerModel.GraphEventHandlerModel.DeselectItem` | src/neo4j-arc/graph-visualization/GraphVisualizer/Graph/GraphEventHandlerModel.ts:77-96 | nothing is selected and the old item is unflagged; an update is requested only if something was selected, and the canvas item with the current counts is always emitted |
| `EventHandlerModel.GraphEventHandlerModel.NodeClicked` | src/neo4j-arc/graph-visualization/GraphVisualizer/Graph/GraphEventHandlerModel.ts:110-126 | nothing happens for null; otherwise the node is pinned at its position with `hoverFixed` cleared, then selected with a node item emitted, or deselected if it was selected |
| `EventHandlerModel.GraphEventHandlerModel.NodeUnlock` | src/neo4j-arc/graph-visualization/GraphVisualizer/Graph/GraphEventHandlerModel.ts:128-135 | nothing happens for null; otherwise `fx` and `fy` become null while the position `x`, `y`, `hoverFixed` and `expanded` stay, and the selection is cleared |
| `EventHandlerModel.GraphEventHandlerModel.NodeDblClicked` | src/neo4j-arc/graph-visualization/GraphVisualizer/Graph/GraphEventHandlerModel.ts:137-156 | an expanded node is only collapsed; any other node is marked expanded and its neighbours are requested exactly once |
| `EventHandlerModel.GraphEventHandlerModel.NeighboursLoaded` | src/neo4j-arc/graph-visualization/GraphVisualizer/Graph/GraphEventHandlerModel.ts:149-154 | the callback adds the neighbours, requests a full update and reports the statistics, in that order |
| `EventHandlerModel.GraphEventHandlerModel.NodeCollapse` | src/neo4j-arc/graph-visualization/GraphVisualizer/Graph/GraphEventHandlerModel.ts:158-163 | the node is no longer expanded; a collapse, a full update and a statistics report follow |
| `EventHandlerModel.GraphEventHandlerModel.OnNodeMouseOver` | src/neo4j-arc/graph-visualization/GraphVisualizer/Graph/GraphEventHandlerModel.ts:165-172 | a node item is shown on hover unless the node has a context menu, when nothing is emitted |
| `EventHandlerModel.GraphEventHandlerModel.OnMenuMouseOver` | src/neo4j-arc/graph-visualization/GraphVisualizer/Graph/GraphEventHandlerModel.ts:174-186 | it fails iff the node has no context menu, emitting nothing; otherwise it shows the menu's label, content and selection |
| `EventHandlerModel.GraphEventHandlerModel.OnRelationshipMouseOver` | src/neo4j-arc/graph-visualization/GraphVisualizer/Graph/GraphEventHandlerModel.ts:188-193 | a relationship item is shown on hover |
| `EventHandlerModel.GraphEventHandlerModel.OnRelationshipClicked` | src/neo4j-arc/graph-visualization/GraphVisualizer/Graph/GraphEventHandlerModel.ts:195-205 | an unselected relationship is selected and a relationship item emitted; a selected one is deselected |
| `EventHandlerModel.GraphEventHandlerModel.OnCanvasClicked` | src/neo4j-arc/graph-visualization/GraphVisualizer/Graph/GraphEventHandlerModel.ts:207-209 | a canvas click clears the selection |
| `EventHandlerModel.GraphEventHandlerModel.OnItemMouseOut` | src/neo4j-arc/graph-visualization/GraphVisualizer/Graph/GraphEventHandlerModel.ts:211-219 | leaving an item shows the canvas with the current counts |
| `EventHandlerModel.AtMostOneSelected` | src/neo4j-arc/graph-visualization/GraphVisualizer/Graph/GraphEventHandlerModel.ts:63-96 | in a valid handler at most one graph item is selected, and it is `selectedItem` |
| `D3EventHandler.SetSelected` | src/browser/modules/D3Visualization/GraphEventHandler.ts:55-58 | setting an item's `selected` flag changes that flag only |
| `D3EventHandler.GraphEventHandler.constructor` | src/browser/modules/D3Visualization/GraphEventHandler.ts:32-47 | nothing is selected and nothing has been emitted; the handler is valid when no graph item is flagged selected |
| `D3EventHandler.GraphEventHandler.GraphModelChanged` | src/browser/modules/D3Visualization/GraphEventHandler.ts:49-51 | one statistics report is emitted |
| `D3EventHandler.GraphEventHandler.SelectItem` | src/browser/modules/D3Visualization/GraphEventHandler.ts:53-60 | the item becomes the selected item and is flagged, a different previous item is unflagged, and the view is updated once |
| `D3EventHandler.GraphEventHandler.DeselectItem` | src/browser/modules/D3Visualization/GraphEventHandler.ts:62-75 | nothing is selected and the old item is unflagged; the canvas item with counts is emitted and the view is updated, whether or not something was selected |
| `D3EventHandler.GraphEventHandler.NodeClicked` | src/browser/modules/D3Visualization/GraphEventHandler.ts:85-99 | nothing happens for null; otherwise the node becomes `fixed` and is selected with `{id, labels, properties}` emitted, or deselected if it was selected |
| `D3EventHandler.GraphEventHandler.NodeUnlock` | src/browser/modules/D3Visualization/GraphEventHandler.ts:101-107 | nothing happens for null; otherwise the node is no longer `fixed` and the selection is cleared |
| `D3EventHandler.GraphEventHandler.NodeDblClicked` | src/browser/modules/D3Visualization/GraphEventHandler.ts:109-129 | an expanded node is collapsed; any other node is marked expanded and its neighbours are requested once |
| `D3EventHandler.GraphEventHandler.NeighboursLoaded` | src/browser/modules/D3Visualization/GraphEventHandler.ts:121-127 | a callback with an error changes nothing; otherwise the neighbours are added, the view updated and the statistics reported |
| `D3EventHandler.GraphEventHandler.NodeCollapse` | src/browser/modules/D3Visualization/GraphEventHandler.ts:131-136 | the node is no longer expanded; a collapse, a view update and a statistics report follow |
| `D3EventHandler.GraphEventHandler.OnNodeMouseOver` | src/browser/modules/D3Visualization/GraphEventHandler.ts:138-149 | `{id, labels, properties}` is shown on hover unless the node has a context menu |
| `D3EventHandler.GraphEventHandler.OnMenuMouseOver` | src/browser/modules/D3Visualization/GraphEventHandler.ts:151-160 | without a context menu, reading its label throws and nothing is shown; otherwise the menu entry is shown |
| `D3EventHandler.GraphEventHandler.OnRelationshipMouseOver` | src/browser/modules/D3Visualization/GraphEventHandler.ts:162-171 | `{id, type, properties}` of the relationship is shown on hover |
| `D3EventHandler.GraphEventHandler.OnRelationshipClicked` | src/browser/modules/D3Visualization/GraphEventHandler.ts:173-187 | an unselected relationship is selected and `{id, type, properties}` emitted; a selected one is deselected |
| `D3EventHandler.GraphEventHandler.OnCanvasClicked` | src/browser/modules/D3Visualization/GraphEventHandler.ts:189-191 | a canvas click clears the selection |
| `D3EventHandler.GraphEventHandler.OnItemMouseOut` | src/browser/modules/D3Visualization/GraphEventHandler.ts:193-201 | leaving an item shows the canvas with the current counts |
| `D3EventHandler.AtMostOneSelected` | src/browser/modules/D3Visualization/GraphEventHandler.ts:53-75 | in a valid handler at most one graph item is selected; with nothing selected, none is |
| `D3Components.BuildPropertyList` | src/browser/modules/D3Visualization/lib/visualization/components/Node.ts:43-51 | the loop builds one row per map entry, in key order, each with the key, its value and its declared type or none; no map gives no rows |
| `D3Components.DescribesSpec` | src/browser/modules/D3Visualization/lib/visualization/components/Node.ts:43-51 | the property list shows exactly the map's keys with their values and types, each key once, and is empty for a missing map |
| `D3Components.Node.constructor` | src/browser/modules/D3Visualization/lib/visualization/components/Node.ts:31-52 | id, labels and map are stored unchanged, the property list describes the map, and a node is a node and not a relationship |
| `D3Components.Node.RelationshipCount` | src/browser/modules/D3Visualization/lib/visualization/components/Node.ts:58-66 | the loop counts the relationships whose source or target is this node |
| `D3Components.Relationship.constructor` | src/browser/modules/D3Visualization/lib/visualization/components/Relationship.ts:33-57 | id, source, target, type and map are stored unchanged, the property list describes the map, and a relationship is not a node |
| `D3Components.ToJSONMatchesPropertyList` | src/browser/modules/D3Visualization/lib/visualization/components/Node.ts:54-56 | `toJSON` returns the map whose pairs the property list shows |
| `D3Components.RelationshipToJSONMatchesPropertyList` | src/browser/modules/D3Visualization/lib/visualization/components/Relationship.ts:59-61 | the same for relationships |
| `D3Components.IncidentSpec` | src/browser/modules/D3Visualization/lib/visualization/components/Node.ts:58-66 | exactly the relationships touching the node are counted, and never more than the graph holds |
| `D3Components.IncidentOfOne` | src/browser/modules/D3Visualization/lib/visualization/components/Node.ts:61 | a relationship counts once at a node it touches, so a self-loop counts once |
| `D3Components.SumCountsStep` | src/browser/modules/D3Visualization/lib/visualization/components/Node.ts:58-66 | one more relationship raises the summed counts by the number of nodes it touches |
| `D3Components.TouchCountOfDistinct` | src/browser/modules/D3Visualization/lib/visualization/components/Node.ts:61 | among distinct nodes, a relationship touches its source and, if different, its target |
| `D3Components.SumCountsOfNothing` | src/browser/modules/D3Visualization/lib/visualization/components/Node.ts:58-66 | with no relationships every count is zero |
| `D3Components.CountsAddUp` | src/browser/modules/D3Visualization/lib/visualization/components/Node.ts:58-66 | summed over the graph's nodes, the relationship counts are twice the relationships less one per self-loop |
| `D3Components.LoopTouchesOnce` | src/browser/modules/D3Visualization/lib/visualization/components/Relationship.ts:63-65 | among distinct nodes holding both its ends, a relationship touches one node iff `isLoop` holds and two iff it does not |

## Left out

- `arcToCurve` and `angleBetween` (utils.ts:158-280): trigonometric floating-point work, not part of this model.
- Floating point: all arithmetic is on real numbers, so rounding, infinities and `NaN` are not modelled. The exception is the `NaN` width of a caption line whose chord does not exist, which is modelled.
- Lengths are sequence lengths of characters. UTF-16 code units, which `length` and `substring` count, are not distinguished from characters.
- `Math.atan2`, `Math.sqrt`, `Math.PI`, `measureText` and the style lookups are parameters. The model requires of them only the range facts the code relies on (atan2 within [-pi, pi], sqrt the non-negative root, pi between 3.14 and 3.15).
- `CaptionFitting.FitCaptionIntoCircle`: takes the font size as a positive number. The code parses it from the style, and a zero or unparsable size is not modelled.
- `SvgPath.ParsePath`: `parseFloat` is modelled as the exact decimal value of the matched literal. A value too large for a double, which the code turns into Infinity, is not modelled.
- `ArrowAngles.ComputeGeometryForNonLoopArrows`: requires that each relationship is in one node pair only. This is how node pairs are built, in code that is not part of this model. No property is stated for two nodes at the same position, where the direction is `atan2(0, 0)`.
- `LoopArrows.DistributeAnglesForLoopArrows`: requires the same. It also requires that every relationship of a pair joins the pair's two nodes.
- The React surface of `GraphVisualizer` is not modelled: `render`, the style merge, the debounced hover, the `mounted` flag and the asynchronous `getNodeNeighbours`. The constructor takes the default panel width and the expanded flag as values.
- `nodeClose` (GraphEventHandlerModel.ts:98-108, GraphEventHandler.ts:77-83) is not modelled: its effect depends on the graph's `removeNode` and `removeConnectedRelationships`, which are not part of this model.
- `bindEventHandlers` only registers handlers with the view, so it is not modelled.
- The graph mutators (`collapseNode`, `addExpandedNodes`, `addRelationships`), `findNodeNeighbourIds`, `getGraphStats`, `mapNodes` and `mapRelationships` are not part of this model. Their calls are recorded as events, without their effect on the graph or their arguments.
- `Object.keys` puts integer-like keys first. The model takes a property map as its pairs already in `Object.keys` order.
- Node identity in `relationshipCount` and `isLoop` is object identity, as with `===` in the code.
- `Visualizer.Dedup`: `taken` is a set of ids. The code's `all.taken[curr.id]` reads a plain object, so an id such as `constructor` or `toString` finds an inherited truthy property and that node is dropped (GraphVisualizer.tsx:58). The model keeps it.
- `D3Components.BuildPropertyList`: the declared types are a map. The code's `propertyTypes[key]` (Node.ts:47, Relationship.ts:52) reads an inherited function as the type for such keys. The model gives no type.

## Findings

| source | as written | input that shows it | evidently intended | confidence | as-written member | corrected member |
|---|---|---|---|---|---|---|
| src/neo4j-arc/graph-visualization/GraphVisualizer/GraphVisualizer.tsx:56-57 | `nodeLimitHit` is raised whenever any node arrives after `limit` nodes are kept, even if that node is a duplicate of a kept node | nodes `a, b, a` with limit 2: both ids are displayed, yet the status message says not all nodes are being displayed | raise the flag only when a node with a new id is dropped | not executed | `Visualizer.DuplicateAfterLimitRaisesFlag` | `Visualizer.DedupIntendedSpec` |

`Visualizer.Dedup` and `Visualizer.DeduplicateNodes` model the code as written, and all the listed de-duplication properties are proved of them. `Visualizer.Prepare` and the constructor are built on them, as the component is. The corrected fold (`Visualizer.DedupIntended`, `Visualizer.DeduplicateNodesIntended`) keeps the same nodes and differs only in the flag; `Visualizer.PrepareIntended` is the preparation it would give, and `Visualizer.PrepareIntendedSpec` states its first item.
