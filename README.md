# Quadrant trees and utilities of code-vault, in Dafny

This project models the spatial index of the code-vault game utilities, and
proves properties about it. The index comes in two variants:

- **`QuadTree`**, the strict tree. Each node is a square region that is split
  into exactly four quarters.
- **`LooseQuadTree`**, the loose tree. Each node accepts objects within its
  square inflated by a looseness factor.

Both trees store references to caller-owned `QuadTreeObject`s (a position and
a half-width). A leaf that holds more than four objects subdivides once and
re-inserts all of them. A point query returns the path of nodes from the root
down to the deepest node containing the point. The debug renderer outlines
every node.

Beside the trees, the project models a few smaller pieces of the same
repository:

- the exact operations of `Vector2`;
- the `Layer` name/id registry and its bit masks;
- the LIFO free list of `ObjectPool`;
- the parts of `AStar` that can be stated exactly;
- the key-state machine of `InputManager`;
- the transition rule of `FiniteStateMachine`.

## Layout

| file | module | source |
|---|---|---|
| `vector2.dfy` | `Vector2` | `CommonUtilities/Math/Vector2.h` |
| `quad_tree_object.dfy` | `QuadTreeObjects` | `DataStructure/LoseQuadtree/QuadTreeObject.h` |
| `debug_drawer.dfy` | `DebugDraw` | the four `DrawLine` calls of each `Render` |
| `quad_tree.dfy` | `QuadTree` | `DataStructure/Quadtree/QuadTree.{h,cpp}` |
| `loose_quad_tree.dfy` | `LooseQuadTree` | `DataStructure/LoseQuadtree/LooseQuadTree.{h,cpp}` |
| `layer.dfy` | `Layer` | `Layer/Layer.h` |
| `object_pool.dfy` | `ObjectPool` | `Pool/Object/ObjectPool.h` |
| `astar.dfy` | `AStar` | `Algorithm/AStar.{h,cpp}` |
| `input_manager.dfy` | `Input` | `CommonUtilities/Input/InputManager.{h,cpp}` |
| `finite_state_machine.dfy` | `FiniteStateMachine` | `DecisionMaking/FiniteStateMachine/*` |
| `wrappers.dfy` | `Wrappers` | `Option`, standing in for a null pointer |

## How the trees are modelled

- **Nodes are values.** A node is a datatype holding:
  - its centre and half-width (and, in the loose tree, its looseness);
  - the `myDivided` flag;
  - the resident object ids, in insertion order;
  - its children, either none or four.

  The node graph is therefore a tree by construction, and each child is owned
  by exactly one parent.
- **In-place updates.** `QuadTreeNode::Insert` is `NodeInsert`, which returns
  the updated node together with the boolean result. The classes `QuadTree`
  and `LooseQuadTree` hold the root and replace it in place on `Insert`.
- **Objects.** An object is an `ObjectId`. The caller's storage is a `World`
  that maps each id to its current position and half-width. The sprite
  payload is never read, so it is dropped.
- **The invariant `Valid`.** It holds at every node reachable from the root:
  - every resident passed `Inside` at this node;
  - `divided` is true exactly when there are children;
  - there are 0 or 4 children, with the quadrant geometry (and the parent's
    looseness);
  - each child satisfies `Valid` in turn.

  `InsertKeepsInvariant` proves two things:
  - the invariant is preserved;
  - the multiset of stored ids grows by exactly the inserted id, so nothing
    is lost or duplicated, including through subdivision and re-insertion.
- **The query.** It returns the node values on the path.
- **Render.** It appends the drawn segments to a sequence of `Segment`s.
- **Uninitialised fields.** The source leaves some fields uninitialised:
  - `myDivided` of a new node is taken as false;
  - `myHalfWidth`, the looseness and the tree's width/height/capacity of a
    default-constructed tree are taken as zero.

## Where the design description and the code differ (the model follows the code)

- **Strict `GetIntersected`.** It appends the root without testing whether
  the root contains the point (`QuadTree.QueryOutsideRoot`). Only the loose
  tree tests the root.
- **Child order.** The children are created in this order: top-left,
  top-right, bottom-right, bottom-left. That is the centres
  (c.x−h/2, c.y+h/2), (c.x+h/2, c.y+h/2), (c.x+h/2, c.y−h/2),
  (c.x−h/2, c.y−h/2). It is not the NE, NW, SE, SW order of the prose.
- **Render extents.** Both trees render the tight square `position ±
  halfWidth`, never the loose one.
- **Root placement.** `Init` places the root at `(width/2, width/2)`, and the
  height is recorded but not used.
- **Tree-level capacity.** The strict tree's own `myCapacity` field, which
  `Init` sets to 4, is never read. Subdivision uses the node constant
  `Capacity` (4).

## Model

| member | source | states |
|---|---|---|
| `Vector2.Zero` | CommonUtilities/Math/Vector2.h:120-122 | the default constructor gives the null vector (0, 0) |
| `Vector2.Add` | CommonUtilities/Math/Vector2.h:41-49 | the componentwise sum; `AddSubInverse` and `AddCommutes` state its algebra |
| `Vector2.Sub` | CommonUtilities/Math/Vector2.h:51-59 | the componentwise difference, the inverse of `Add` by `AddSubInverse` |
| `Vector2.Scale` | CommonUtilities/Math/Vector2.h:61-69 | each component multiplied by the scalar; `ScaleSides` ties it to the left-hand operator |
| `Vector2.ScaleLeft` | CommonUtilities/Math/Vector2.h:71-79 | the left-hand scalar product, written separately in the source, equal to `Scale` by `ScaleSides` |
| `Vector2.LengthSqr` | CommonUtilities/Math/Vector2.h:128-132 | the sum of the squared components, equal to the self dot product by `LengthSqrIsSelfDot` |
| `Vector2.Dot` | CommonUtilities/Math/Vector2.h:162-166 | the sum of the componentwise products; symmetric and linear by `DotSymmetric` |
| `Vector2.AddSubInverse` | CommonUtilities/Math/Vector2.h:42-59 | `+` and `-` are componentwise and undo each other |
| `Vector2.AddCommutes` | CommonUtilities/Math/Vector2.h:42-49 | `+` is commutative with the null vector as identity |
| `Vector2.ScaleSides` | CommonUtilities/Math/Vector2.h:62-79 | `v * s == s * v` for every scalar |
| `Vector2.LengthSqrIsSelfDot` | CommonUtilities/Math/Vector2.h:129-132 | `LengthSqr` is `Dot(v, v)` and never negative |
| `Vector2.DotSymmetric` | CommonUtilities/Math/Vector2.h:163-166 | `Dot` is symmetric and scales with its first argument |
| `Vector2.AddAssign` | CommonUtilities/Math/Vector2.h:93-97 | `a += b` leaves `a` equal to `a + b` |
| `Vector2.SubAssign` | CommonUtilities/Math/Vector2.h:100-104 | `a -= b` leaves `a` equal to `a - b` |
| `Vector2.ScaleAssign` | CommonUtilities/Math/Vector2.h:107-111 | `a *= s` leaves `a` equal to `a * s` |
| `Vector2.Normalize` | CommonUtilities/Math/Vector2.h:141-149 | the null vector is left unchanged; any other vector becomes one of unit squared length that, scaled by the length, gives the original back |
| `DebugDraw.OutlineIsClosedSquare` | DataStructure/Quadtree/QuadTree.cpp:114-123 | the four lines drawn for a node form a closed square of side `2 * halfWidth` |
| `QuadTree.Contains` | DataStructure/Quadtree/QuadTree.cpp:11-17 | the closed square of the node, boundary included; `QuadrantsTile` relates it to the quadrants |
| `QuadTree.Inside` | DataStructure/Quadtree/QuadTree.cpp:47-53 | strictly within the node's square shrunk by the object's half-width on both axes; `InsideWithinSquare`, `TooLargeNeverInside` and `QuadrantInsideParent` state its geometry |
| `QuadTree.NodeInsert` | DataStructure/Quadtree/QuadTree.cpp:19-45 | returns true exactly when `Inside` holds; on false the node is unchanged; a divided node stays divided with its children; geometry is kept |
| `QuadTree.Offer` | DataStructure/Quadtree/QuadTree.cpp:26-35 | the children are offered the object in index order; it is taken exactly when some child accepts it, otherwise the children are unchanged |
| `QuadTree.CreateChildren` | DataStructure/Quadtree/QuadTree.cpp:55-80 | after subdivision the node is divided with exactly four children |
| `QuadTree.Reinsert` | DataStructure/Quadtree/QuadTree.cpp:73-79 | re-inserting the former residents keeps the node divided and its geometry |
| `QuadTree.LeafValid` | DataStructure/Quadtree/QuadTree.h:17 | a fresh node satisfies the invariant and holds nothing |
| `QuadTree.InsertKeepsInvariant` | DataStructure/Quadtree/QuadTree.cpp:19-45 | `Insert` preserves the tree invariant (residents pass `Inside`, 0 or 4 children with quadrant geometry, flag in sync); on success the stored multiset grows by exactly the new id |
| `QuadTree.OfferKeepsInvariant` | DataStructure/Quadtree/QuadTree.cpp:26-35 | offering to the children preserves their invariant and, when taken, adds exactly the id |
| `QuadTree.CreateChildrenKeepsInvariant` | DataStructure/Quadtree/QuadTree.cpp:55-80 | subdivision yields a valid subtree storing exactly the former residents, each once |
| `QuadTree.ReinsertKeepsInvariant` | DataStructure/Quadtree/QuadTree.cpp:73-79 | re-inserting accepted objects keeps the invariant and adds each of them exactly once |
| `QuadTree.ReinsertDropsStrays` | DataStructure/Quadtree/QuadTree.cpp:73-79 | re-inserting objects none of which passes `Inside` at the node any more leaves the node exactly as it was: the ignored results drop them |
| `QuadTree.SubdivisionLosesStrays` | DataStructure/Quadtree/QuadTree.cpp:55-80 | subdividing a node whose residents have all moved outside it leaves four empty children and no residents: the tree holds nothing |
| `QuadTree.QuadrantsValid` | DataStructure/Quadtree/QuadTree.cpp:57-69 | the four new children have half-width `h/2`, the centres in index order, and are empty |
| `QuadTree.OfferFirstAcceptor` | DataStructure/Quadtree/QuadTree.cpp:28-34 | the first child in index order that accepts keeps the object; the others are unchanged |
| `QuadTree.DelegatedToFirstChild` | DataStructure/Quadtree/QuadTree.cpp:26-35 | when a child accepts, only that child changes; the node's residents and flag stay |
| `QuadTree.KeptAtNode` | DataStructure/Quadtree/QuadTree.cpp:37-42 | when no child accepts, the object is appended to the node's own list |
| `QuadTree.SubdivisionRule` | DataStructure/Quadtree/QuadTree.cpp:39-42 | a node is divided after an insertion exactly when it was already, or it accepted a fifth resident; a divided node never subdivides again |
| `QuadTree.InsideWithinSquare` | DataStructure/Quadtree/QuadTree.cpp:47-53 | an accepted object's square lies within the node's closed square |
| `QuadTree.TooLargeNeverInside` | DataStructure/Quadtree/QuadTree.cpp:47-53 | an object with half-width at least the node's is never inside it |
| `QuadTree.QuadrantInsideParent` | DataStructure/Quadtree/QuadTree.cpp:47-69 | whatever a child accepts, its parent accepts too |
| `QuadTree.QuadrantsTile` | DataStructure/Quadtree/QuadTree.cpp:11-17 | the four quadrants' closed squares cover exactly the parent's closed square |
| `QuadTree.FirstContaining` | DataStructure/Quadtree/QuadTree.cpp:101-109 | the index found is the first child whose closed square contains the point |
| `QuadTree.Search` | DataStructure/Quadtree/QuadTree.cpp:99-110 | the nodes `SearchIntersected` appends below a node; `SearchIsDescent` states what they are |
| `QuadTree.SearchIsDescent` | DataStructure/Quadtree/QuadTree.cpp:99-110 | the search result is a parent-to-child path of first containing children, each containing the point, ending at a node with no containing child |
| `QuadTree.Intersected` | DataStructure/Quadtree/QuadTree.cpp:93-97 | the root followed by the search below it; `QueryOutsideRoot` states the outside case |
| `QuadTree.QueryOutsideRoot` | DataStructure/Quadtree/QuadTree.cpp:93-97 | for a point outside the root the query still reports the root, and only the root |
| `QuadTree.Rendering` | DataStructure/Quadtree/QuadTree.cpp:112-130 | the node's outline, then each child's rendering in index order; `RenderingIsPreorder` and `PreorderCount` state the result |
| `QuadTree.RenderingIsPreorder` | DataStructure/Quadtree/QuadTree.cpp:112-130 | rendering draws each node's outline in pre-order |
| `QuadTree.PreorderCount` | DataStructure/Quadtree/QuadTree.cpp:112-130 | rendering a tree of N nodes draws exactly 4N lines |
| `QuadTree.QuadTree.constructor` | DataStructure/Quadtree/QuadTree.h:47 | a default tree has a zero-width, empty, undivided root |
| `QuadTree.QuadTree.Init` | DataStructure/Quadtree/QuadTree.cpp:82-91 | the root is centred at `(w/2, w/2)` with half-width `w/2`; the height and the capacity field are only recorded |
| `QuadTree.QuadTree.Insert` | DataStructure/Quadtree/QuadTree.h:57-60 | forwards to the root and discards the result: a rejected object leaves the tree unchanged; the invariant is kept and an accepted id is stored once |
| `QuadTree.QuadTree.GetIntersected` | DataStructure/Quadtree/QuadTree.cpp:93-97 | appends the root, unconditionally, then the search below it |
| `QuadTree.QuadTree.SearchIntersected` | DataStructure/Quadtree/QuadTree.cpp:99-110 | appends the first containing child and recurses into it only |
| `QuadTree.QuadTree.Render` | DataStructure/Quadtree/QuadTree.h:52-55 | rendering starts at the root |
| `QuadTree.QuadTree.RenderNode` | DataStructure/Quadtree/QuadTree.cpp:112-130 | four lines for the node, then each child's rendering in index order |
| `LooseQuadTree.GetHalfSize` | DataStructure/LoseQuadtree/LooseQuadTree.h:30 | the half-width scaled by the looseness factor; `UnitLoosenessIsStrict` and `LoosenessOnlyWidens` state its effect on `Inside` |
| `LooseQuadTree.Contains` | DataStructure/LoseQuadtree/LooseQuadTree.cpp:14-20 | the closed square of the plain half-width, not the loose one |
| `LooseQuadTree.Inside` | DataStructure/LoseQuadtree/LooseQuadTree.cpp:48-54 | strictly within the loose square (`GetHalfSize`) shrunk by the object's half-width; `InsideWithinLooseSquare` states its geometry |
| `LooseQuadTree.GetSize` | DataStructure/LoseQuadtree/LooseQuadTree.h:24 | `GetSize` is twice `GetHalfSize` (`halfWidth * looseness`) |
| `LooseQuadTree.ClosestChild` | DataStructure/LoseQuadtree/LooseQuadTree.cpp:56-72 | the chosen child has minimal squared centre distance, and every earlier child is strictly farther (ties go to the lowest index) |
| `LooseQuadTree.FindClosestChild` | DataStructure/LoseQuadtree/LooseQuadTree.cpp:56-72 | the running-minimum loop returns null for no children, otherwise the closest child |
| `LooseQuadTree.NodeInsert` | DataStructure/LoseQuadtree/LooseQuadTree.cpp:22-46 | returns true exactly when the loose `Inside` holds; on false the node is unchanged; geometry and looseness are kept |
| `LooseQuadTree.CreateChildren` | DataStructure/LoseQuadtree/LooseQuadTree.cpp:74-100 | after subdivision the node is divided with exactly four children |
| `LooseQuadTree.Reinsert` | DataStructure/LoseQuadtree/LooseQuadTree.cpp:93-99 | re-insertion keeps the node divided and its geometry |
| `LooseQuadTree.InsertKeepsInvariant` | DataStructure/LoseQuadtree/LooseQuadTree.cpp:22-46 | `Insert` preserves the invariant (children inherit the looseness); on success the stored multiset grows by exactly the new id |
| `LooseQuadTree.QuadrantsValid` | DataStructure/LoseQuadtree/LooseQuadTree.cpp:76-89 | the four children have half-width `h/2`, the same centres as the strict tree, the parent's looseness, and are empty |
| `LooseQuadTree.SubdividedValid` | DataStructure/LoseQuadtree/LooseQuadTree.cpp:74-91 | the node just subdivided is valid, empty, and accepts exactly what it accepted before |
| `LooseQuadTree.CreateChildrenKeepsInvariant` | DataStructure/LoseQuadtree/LooseQuadTree.cpp:74-100 | subdivision stores exactly the former residents, each once, in a valid subtree |
| `LooseQuadTree.ReinsertKeepsInvariant` | DataStructure/LoseQuadtree/LooseQuadTree.cpp:93-99 | re-insertion keeps the invariant and adds each object once |
| `LooseQuadTree.ReinsertDropsStrays` | DataStructure/LoseQuadtree/LooseQuadTree.cpp:96-99 | re-inserting objects none of which passes `Inside` at the node any more leaves the node exactly as it was |
| `LooseQuadTree.SubdivisionLosesStrays` | DataStructure/LoseQuadtree/LooseQuadTree.cpp:74-100 | subdividing a node whose residents have all moved outside it leaves four empty children and no residents |
| `LooseQuadTree.DelegatedToClosestChild` | DataStructure/LoseQuadtree/LooseQuadTree.cpp:29-35 | when the closest child accepts, only that child changes |
| `LooseQuadTree.KeptAtNode` | DataStructure/LoseQuadtree/LooseQuadTree.cpp:29-43 | when the closest child refuses, the object is appended here and no sibling is tried |
| `LooseQuadTree.SubdivisionRule` | DataStructure/LoseQuadtree/LooseQuadTree.cpp:40-43 | a node becomes divided exactly on accepting its fifth resident, and only once |
| `LooseQuadTree.UnitLoosenessIsStrict` | DataStructure/LoseQuadtree/LooseQuadTree.h:59 | with the default looseness 1 the loose `Inside` is the strict one |
| `LooseQuadTree.LoosenessOnlyWidens` | DataStructure/LoseQuadtree/LooseQuadTree.cpp:48-54 | a looseness of at least 1 never refuses what the strict node accepts |
| `LooseQuadTree.InsideWithinLooseSquare` | DataStructure/LoseQuadtree/LooseQuadTree.cpp:48-54 | an accepted object lies strictly within the inflated square `± GetHalfSize` |
| `LooseQuadTree.FirstContaining` | DataStructure/LoseQuadtree/LooseQuadTree.cpp:125-133 | the first child whose tight closed square contains the point |
| `LooseQuadTree.Search` | DataStructure/LoseQuadtree/LooseQuadTree.cpp:123-134 | the nodes `SearchIntersected` appends below a node; `SearchIsDescent` states what they are |
| `LooseQuadTree.SearchIsDescent` | DataStructure/LoseQuadtree/LooseQuadTree.cpp:123-134 | the search result is a path of first containing children ending where no child contains the point |
| `LooseQuadTree.Rendering` | DataStructure/LoseQuadtree/LooseQuadTree.cpp:136-154 | the node's outline (plain half-width), then each child's rendering in index order |
| `LooseQuadTree.RenderingIsPreorder` | DataStructure/LoseQuadtree/LooseQuadTree.cpp:136-154 | each node's tight outline is drawn in pre-order |
| `LooseQuadTree.PreorderCount` | DataStructure/LoseQuadtree/LooseQuadTree.cpp:136-154 | exactly 4N lines for N nodes |
| `LooseQuadTree.LooseQuadTree.constructor` | DataStructure/LoseQuadtree/LooseQuadTree.h:56 | a default tree has a zero-width root |
| `LooseQuadTree.LooseQuadTree.Init` | DataStructure/LoseQuadtree/LooseQuadTree.cpp:102-111 | root centred at `(w/2, w/2)`, half-width `w/2`, given looseness (1 by default); height only recorded |
| `LooseQuadTree.LooseQuadTree.Insert` | DataStructure/LoseQuadtree/LooseQuadTree.h:66-69 | forwards to the root, result discarded; invariant kept; an accepted id is stored once |
| `LooseQuadTree.LooseQuadTree.GetIntersected` | DataStructure/LoseQuadtree/LooseQuadTree.cpp:114-121 | nothing when the root does not contain the point; otherwise the root and the search below it |
| `LooseQuadTree.LooseQuadTree.SearchIntersected` | DataStructure/LoseQuadtree/LooseQuadTree.cpp:123-134 | appends the first containing child and recurses into it only |
| `LooseQuadTree.LooseQuadTree.Render` | DataStructure/LoseQuadtree/LooseQuadTree.h:61-64 | rendering starts at the root |
| `LooseQuadTree.LooseQuadTree.RenderNode` | DataStructure/LoseQuadtree/LooseQuadTree.cpp:136-154 | four tight-square lines, then the children in order |
| `Layer.Mask` | Layer/Layer.h:29 | a layer's mask `1 << id` is non-zero |
| `Layer.HasName` | Layer/Layer.h:43-46 | whether the name is registered; `GetBitPosition`, `NameToLayer` and `GetLayerMask` are stated against it |
| `Layer.GetBitPosition` | Layer/Layer.h:87-95 | the assert holds exactly for a registered name (release value 0 otherwise) |
| `Layer.NameToLayer` | Layer/Layer.h:32-41 | the assert holds exactly for a registered name |
| `Layer.LayerToName` | Layer/Layer.h:48-57 | the assert holds exactly for a registered id ("Unknown Layer" otherwise) |
| `Layer.GetLayerMask` | Layer/Layer.h:59-62 | the mask of the name's bit position; the assert holds exactly for a registered name |
| `Layer.MasksOf` | Layer/Layer.h:64-74 | the asserts all hold exactly when every name is registered |
| `Layer.GetLayerMasks` | Layer/Layer.h:64-74 | the loop's mask is the OR of the names' masks |
| `Layer.Create` | Layer/Layer.h:13-30 | the result of `CreateLayer` on the tables; `CreateKnownChangesNothing`, `CreateNewRegisters` and `RepeatedCreateReturnsId` state it |
| `Layer.CreateKnownChangesNothing` | Layer/Layer.h:16-19 | a known name changes no table and returns its stored id |
| `Layer.CreateNewRegisters` | Layer/Layer.h:21-29 | a new name is recorded both ways, `HasName`/`NameToLayer`/`LayerToName` agree, the result is `1 << id`, other names are untouched, and the assert fails exactly when 32 names are registered |
| `Layer.SharedIdShadowsName` | Layer/Layer.h:27-28 | a second name under the same id takes over `LayerToName` of that id |
| `Layer.UnknownDefaults` | Layer/Layer.h:34-38 | an unknown name gives id 0 and mask 1 after the assert; an unknown id gives "Unknown Layer" |
| `Layer.MasksDisjoint` | Layer/Layer.h:59-62 | each mask is a single bit and distinct ids give disjoint masks |
| `Layer.SameNamesSameMask` | Layer/Layer.h:64-74 | `GetLayerMasks` depends only on the set of names, not order or repetition |
| `Layer.RepeatedCreateReturnsId` | Layer/Layer.h:13-19 | creating the same layer twice returns 8 and then 3 |
| `Layer.CreateMaskIsLayerMask` | Layer/Layer.h:13-30 | the corrected `CreateLayer` always returns the layer's mask |
| `Layer.Registry.constructor` | Layer/Layer.h:84-85 | both static tables start empty |
| `Layer.Registry.CreateLayer` | Layer/Layer.h:14-30 | updates the tables and returns as `Create` specifies |
| `ObjectPool.AllSlots` | Pool/Object/ObjectPool.h:54-62 | the constructor's free list holds slot i at position i, `Size` in all |
| `ObjectPool.AllSlotsDistinct` | Pool/Object/ObjectPool.h:54-62 | those slots are distinct and are exactly the slots below `Size` |
| `ObjectPool.Take` | Pool/Object/ObjectPool.h:65-70 | handing out takes the last free slot; the list shrinks by one and appending the slot back restores it |
| `ObjectPool.RecycleThenTake` | Pool/Object/ObjectPool.h:68-69 | LIFO: a recycled slot is the next one handed out and the slots below it are unchanged |
| `ObjectPool.Pool.constructor` | Pool/Object/ObjectPool.h:54-62 | the loop builds the list of all slots in order |
| `ObjectPool.Pool.GetObject` | Pool/Object/ObjectPool.h:65-75 | requires a non-empty free list; returns and removes its last slot, with a deleter for this pool |
| `ObjectPool.Pool.GetFreeObjects` | Pool/Object/ObjectPool.h:78-81 | the free list itself; `Recycle` states that it grows by one |
| `ObjectPool.Pool.Recycle` | Pool/Object/ObjectPool.h:84-87 | appends the slot, growing the list by one, with no duplicate check |
| `ObjectPool.Delete` | Pool/Object/ObjectPool.h:23-28 | the deleter recycles the slot into its pool when it has one |
| `ObjectPool.GetThenRelease` | Pool/Object/ObjectPool.h:71-74 | handing out a slot and dropping its handle leaves the free list as it was |
| `AStar.DefaultLocation` | Algorithm/AStar.h:10 | the default location is (0, 0) |
| `AStar.SameLocationIsEquality` | Algorithm/AStar.h:13-16 | `operator==` is componentwise equality |
| `AStar.Heuristic` | Algorithm/AStar.cpp:66-69 | the Manhattan distance is non-negative and zero exactly for equal locations |
| `AStar.HeuristicIsMetric` | Algorithm/AStar.cpp:66-69 | symmetric, with the triangle inequality |
| `AStar.HeuristicNeighbour` | Algorithm/AStar.cpp:66-69 | for any cell `b` at most one step from `a`, the heuristic to the goal changes by at most 1 in either direction (the heuristic is consistent with the unit step cost) |
| `AStar.CellCost.Cost` | Algorithm/AStar.h:37-40 | the sum of the two costs; `LessIsStrictWeakOrder` and `TopIsCheapest` are stated in terms of it |
| `AStar.Less` | Algorithm/AStar.h:42-45 | greater cost is "less", so the queue's top is the cheapest; see `LessIsStrictWeakOrder` and `TopIsCheapest` |
| `AStar.LessIsStrictWeakOrder` | Algorithm/AStar.h:42-45 | `operator<` is irreflexive, transitive, and incomparable exactly at equal `Cost` |
| `AStar.TopIsCheapest` | Algorithm/AStar.h:37-45 | a maximum under `operator<` is an element of minimal `gCost + hCost` |
| `AStar.Visit` | Algorithm/AStar.cpp:21-35 | one neighbour of the relaxation loop; the `Relax*` lemmas state its effect through `VisitAll` |
| `AStar.VisitAll` | Algorithm/AStar.cpp:19-36 | the neighbours visited in order; `Relax` is proved equal to it and the `Relax*` lemmas state what it changes |
| `AStar.Relax` | Algorithm/AStar.cpp:19-36 | the neighbour loop computes `VisitAll` |
| `AStar.RelaxTouchesOnlyWalkableNeighbours` | Algorithm/AStar.cpp:21-26 | unwalkable cells and non-neighbours are never recorded or given a parent |
| `AStar.RelaxOnlyImproves` | Algorithm/AStar.cpp:28-33 | a recorded cost is only replaced by a strictly smaller `g+1+h`, and then the parent becomes the current cell |
| `AStar.RelaxBoundsNeighbours` | Algorithm/AStar.cpp:19-34 | afterwards every walkable neighbour is recorded at no more than `g+1+h` |
| `AStar.RelaxPushesBehind` | Algorithm/AStar.cpp:28-33 | pushes keep the old frontier as a prefix and each pushed cell is a walkable neighbour with `g+1` and its heuristic |
| `AStar.Chain` | Algorithm/AStar.cpp:48-59 | the parent chain `BuildPath` walks; `ChainFollowsParents` states it |
| `AStar.ChainFollowsParents` | Algorithm/AStar.cpp:48-57 | the collected chain starts at the goal's parent, follows the parent links, and stops at a missing key or a self-parent |
| `AStar.BuildPath` | Algorithm/AStar.cpp:44-63 | returns the parent chain minus its last element; requires a non-empty chain for the `erase` |
| `AStar.FindPath` | Algorithm/AStar.cpp:3-42 | the frontier is never seeded, so the result is always empty |
| `Input.IsKeyDown` | CommonUtilities/Input/InputManager.h:55-59 | set this frame and clear the frame before; `EdgesExclusive` and `UpdateQueries` state how it relates to the other queries and to `Update` |
| `Input.IsKeyUp` | CommonUtilities/Input/InputManager.h:61-65 | clear this frame and set the frame before |
| `Input.IsKeyPressed` | CommonUtilities/Input/InputManager.h:67-71 | set in both frames |
| `Input.GetScrollWheel` | CommonUtilities/Input/InputManager.h:73-76 | the current frame's scroll; `UpdateQueries` and `HandledKeepsQueries` state when it changes |
| `Input.IsMouseButtonDown` | CommonUtilities/Input/InputManager.h:78-83 | the key query under the mouse-key assert; `MouseQueriesAreKeyQueries` states that they agree |
| `Input.IsMouseButtonUp` | CommonUtilities/Input/InputManager.h:85-90 | as `IsKeyUp`, under the mouse-key assert |
| `Input.IsMouseButtonPressed` | CommonUtilities/Input/InputManager.h:92-97 | as `IsKeyPressed`, under the mouse-key assert |
| `Input.GetMouseMovement` | CommonUtilities/Input/InputManager.cpp:22-28 | the movement is last minus current position |
| `Input.MouseQueriesAreKeyQueries` | CommonUtilities/Input/InputManager.h:78-97 | mouse codes are 1, 2, 4, 5, 6 and the mouse queries answer as the key queries |
| `Input.EdgesExclusive` | CommonUtilities/Input/InputManager.h:55-71 | at most one of down, up and pressed holds; down-or-pressed iff set now; up-or-pressed iff set before |
| `Input.Shifted` | CommonUtilities/Input/InputManager.cpp:168-179 | `Update` does not touch the capture flag |
| `Input.UpdateQueries` | CommonUtilities/Input/InputManager.cpp:168-179 | after `Update` a key is down iff recorded set and previously clear, up iff recorded clear and previously set; the scroll is the recorded one |
| `Input.TwoQuietUpdates` | CommonUtilities/Input/InputManager.cpp:168-179 | after two `Update`s with no messages, no key is down or up, the scroll is 0 and the movement null |
| `Input.WheelDelta` | CommonUtilities/Input/InputManager.cpp:160 | the wheel delta is the signed 16-bit high word |
| `Input.TruncDivByWheelDelta` | CommonUtilities/Input/InputManager.cpp:160 | division by `WHEEL_DELTA` rounds toward zero |
| `Input.SetKey` | CommonUtilities/Input/InputManager.cpp:84-87 | `std::bitset::set` on the unset keys: the bit is set, or the call throws past 255 and nothing changes |
| `Input.ResetKey` | CommonUtilities/Input/InputManager.cpp:112-115 | `std::bitset::reset` on the unset keys: the bit is cleared, or the call throws past 255 |
| `Input.Handled` | CommonUtilities/Input/InputManager.cpp:74-166 | the whole `switch` with its fall-throughs; `HandledEffect` sums up its effect message by message |
| `Input.HandledEffect` | CommonUtilities/Input/InputManager.cpp:74-166 | each message sets or clears exactly the bit of its case, throws for bits past 255, leaves current/last frames alone, and an unrecognised message returns false and changes nothing |
| `Input.HandledKeepsQueries` | CommonUtilities/Input/InputManager.cpp:74-166 | messages do not change any query before the next `Update` |
| `Input.PressOrReleaseThenUpdate` | CommonUtilities/Input/InputManager.cpp:79-115 | a key-down message makes the key down after `Update`; a key-up message makes it up |
| `Input.WheelNotches` | CommonUtilities/Input/InputManager.cpp:158-162 | n notches record n; any delta records between -273 and 273 |
| `Input.XButtonDownFallsThrough` | CommonUtilities/Input/InputManager.cpp:95-115 | an X-button-down naming neither button acts as key-up on `wParam` |
| `Input.ShiftClickSetsXButton` | CommonUtilities/Input/InputManager.cpp:82-87 | a shift+left click sets bit 5 (`VK_XBUTTON1`) and not bit 1, and the release leaves bit 5 set |
| `Input.IntendedClickThenRelease` | CommonUtilities/Input/InputManager.cpp:118-127 | with the button-down cases setting their own key code, a click marks exactly its button and the release clears exactly it |
| `Input.InputManager.constructor` | CommonUtilities/Input/InputManager.cpp:7-15 | all fields start cleared, zero or false |
| `Input.InputManager.CaptureMouse` | CommonUtilities/Input/InputManager.cpp:65 | sets the capture flag only |
| `Input.InputManager.ReleaseMouse` | CommonUtilities/Input/InputManager.cpp:71 | clears the capture flag only |
| `Input.InputManager.IsMouseCaptured` | CommonUtilities/Input/InputManager.h:99-102 | the capture flag, which only `CaptureMouse` and `ReleaseMouse` change |
| `Input.InputManager.Update` | CommonUtilities/Input/InputManager.cpp:168-179 | the fields shift unset to current to last, and the unset scroll is zeroed |
| `Input.InputManager.Set` | CommonUtilities/Input/InputManager.cpp:84-87 | the fields after `set` are those `SetKey` gives |
| `Input.InputManager.Reset` | CommonUtilities/Input/InputManager.cpp:112-115 | the fields after `reset` are those `ResetKey` gives |
| `Input.InputManager.UpdateEvents` | CommonUtilities/Input/InputManager.cpp:74-166 | the `switch`, with its fall-throughs, updates the fields as `Handled` specifies |
| `FiniteStateMachine.GetTransitions` | DecisionMaking/FiniteStateMachine/FSMState.h:15 | a state's transition list, empty for a state with none; `AddTransition` states how it grows |
| `FiniteStateMachine.AddTransition` | DecisionMaking/FiniteStateMachine/FSMState.h:14-15 | a transition joins the end of its state's list; other lists are unchanged |
| `FiniteStateMachine.FirstValid` | DecisionMaking/FiniteStateMachine/FiniteStateMachine.cpp:30-32 | the index found is the first transition whose `IsValid` is true |
| `FiniteStateMachine.StepOf` | DecisionMaking/FiniteStateMachine/FiniteStateMachine.cpp:28-50 | one frame: the first valid transition, or the state's `Update`; `StepRule` and `StepBracketed` state it |
| `FiniteStateMachine.StepRule` | DecisionMaking/FiniteStateMachine/FiniteStateMachine.cpp:28-50 | a frame takes exactly the first valid transition (Exit, OnTransition, Enter) and runs no `Update`, or, if none is valid, stays and runs `Update` once |
| `FiniteStateMachine.StepBracketed` | DecisionMaking/FiniteStateMachine/FiniteStateMachine.cpp:34-39 | the old state is exited before the new one is entered |
| `FiniteStateMachine.RunBracketed` | DecisionMaking/FiniteStateMachine/FiniteStateMachine.cpp:8-50 | `Init`, any frames and destruction give a well-bracketed trace: each entered state is exited once, and only the entered state is updated |
| `FiniteStateMachine.FiniteStateMachine.constructor` | DecisionMaking/FiniteStateMachine/FiniteStateMachine.h:10 | no states and no current state |
| `FiniteStateMachine.FiniteStateMachine.AddState` | DecisionMaking/FiniteStateMachine/FiniteStateMachine.h:17 | the state joins the list |
| `FiniteStateMachine.FiniteStateMachine.Init` | DecisionMaking/FiniteStateMachine/FiniteStateMachine.cpp:21-26 | the initial state becomes current and is entered once |
| `FiniteStateMachine.FiniteStateMachine.Update` | DecisionMaking/FiniteStateMachine/FiniteStateMachine.cpp:28-50 | the loop takes the first valid transition and returns, or runs the state's `Update`; the trace stays well-bracketed |
| `FiniteStateMachine.FiniteStateMachine.Destroy` | DecisionMaking/FiniteStateMachine/FiniteStateMachine.cpp:8-13 | exits the current state, if any, and nothing else; the trace ends idle |

## Left out

- `QuadTree.NodeInsert`, `LooseQuadTree.NodeInsert`: nested subdivisions within one `Insert` are bounded by `SubdivisionBudget` (280). A node that would subdivide with no budget left stays a leaf. With real coordinates, five coincident small objects would otherwise subdivide forever. With `float`, halving reaches zero after about 280 steps, and then `Inside` fails everywhere.
- Float behaviour: coordinates are `real`, so there is no rounding, no `FLT_MAX` start value in `FindClosestChild`, and no NaN.
- Node destructors and `new`/`delete` are not modelled. Value nodes own their children.
- `QuadTreeNode::GetChildren`/`GetObjects` are the `children`/`objects` fields of the node value.
- The sprite payload of `QuadTreeObject` is not modelled.
- The drawing collaborator is a sequence of segments.
- `Vector2` `Length`, `GetNormalized`, `/` and `/=` are left out: they need a square root or division on floats. For `Normalize`, the caller supplies the length.
- `Vector2.Normalize`: the length is a parameter that the caller computes with a square root. The model does not compute the square root itself.
- `Vector2.LengthSqrIsSelfDot`: does not state that a zero `LengthSqr` means the null vector.
- `Layer` constructor and `GetBit`: they read the uninitialised `myBit`, so they are left out.
- `Layer.Registry.CreateLayer`: for a new name, requires `id < 32`, because `1 << id` is undefined otherwise. The source's asserts are modelled as a returned flag, and the release-build value is modelled beside it.
- `ObjectPool`: the placement-new storage, the `shared_ptr` reference counting and the `T` objects are left out. Slots are indices.
- `AStar.FindPath` has no `while` loop: its guard is false on entry, because the frontier is never seeded. The loop body is modelled on its own as `Relax`.
- `Grid` is not part of this model. Its neighbour list and walkable test are parameters.
- `GridLocation::HashFunction` is left out. Maps are Dafny maps.
- `AStar.BuildPath`: requires a ranking that makes the parent chain acyclic apart from self-parents. Without one, the source loops forever.
- `InputManager`: `IsMousePresent`, `GetMousePosition`, `SetMousePosition`, the clipping in `CaptureMouse`/`ReleaseMouse`, and the `GetCursorPos`/`ScreenToClient` calls of `WM_MOUSEMOVE` are Win32 calls and are not modelled. The cursor position is a parameter.
- `LONG` overflow in `GetMouseMovement` is not modelled: positions are unbounded integers.
- `AStar.Heuristic`, `AStar.IntAbs`, `AStar.CellCost.Cost`, `AStar.Visit`, `AStar.VisitAll`, `AStar.Relax`: coordinates and costs are unbounded integers. The source's 32-bit `int` arithmetic can overflow, which is undefined behaviour, in three places: the coordinate differences and their sum in `Heuristic`, `gCost + hCost`, and `current.gCost + 1` and `tentativeGCost + heurisitcCost`. The model matches the source only while every coordinate and cost stays within `int`. Beyond that the source is undefined, and the model's results and lemmas (`Heuristic` is a metric, zero exactly for equal cells, and so on) say nothing about it.
- `QuadTree.Reinsert`, `LooseQuadTree.Reinsert`: the source ignores the result of re-inserting each former resident. A resident whose position has moved outside the subdividing node is therefore dropped from the tree. `ReinsertDropsStrays` and `SubdivisionLosesStrays` state this. The invariant lemmas assume `Valid`, which rules the case out.
- `Input.IsKeyDown` and the other queries: require `k < 256` beside the asserted `k > 0`, because `std::bitset::test` throws past 255.
- `FiniteStateMachine`: the states' and transitions' virtual calls are recorded as trace events. `IsValid` results are an input of each frame. `delete` of the states in the destructor is not modelled.
- `FiniteStateMachine.FiniteStateMachine.Update`: requires `Init` to have been called, because it dereferences the current state.

## Findings

| source | as written | input that shows it | evidently intended | confidence | as-written member | corrected member |
|---|---|---|---|---|---|---|
| Layer/Layer.h:13-19 | `CreateLayer` on an already registered name returns the stored id, although it is documented to give back a mask, and returns `1 << id` for a new name | `CreateLayer("Player", 3)` twice returns 8, then 3 | the layer's mask `1 << id` in both cases | medium, not executed | `Layer.RepeatedCreateReturnsId` | `Layer.CreateMaskIsLayerMask` |
| CommonUtilities/Input/InputManager.cpp:82-87 | `WM_LBUTTONDOWN` and `WM_RBUTTONDOWN` set the key bit numbered by `wParam`. For mouse messages `wParam` holds the `MK_*` flags of the buttons and modifiers held, not a key code. `WM_LBUTTONUP` and `WM_RBUTTONUP` clear `VK_LBUTTON` and `VK_RBUTTON`. | a left click with shift held (`wParam == MK_LBUTTON + MK_SHIFT == 5`), then its release: bit 5 (`VK_XBUTTON1`) is left set and bit 1 was never set | the button-down cases set `VK_LBUTTON` and `VK_RBUTTON`, as the button-up cases clear them | medium, not executed | `Input.ShiftClickSetsXButton` | `Input.IntendedClickThenRelease` |
