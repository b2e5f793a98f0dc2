/**
 * The loose quadrant tree: `LooseQuadTreeNode` and its owner `LooseQuadTree`.
 *
 * The node layout is that of the strict tree (a square `position ± halfWidth`,
 * no children or four quadrants, resident ids in insertion order), and each
 * node also carries a looseness factor its children inherit. Acceptance uses
 * the loose square `position ± halfWidth * looseness`, while the point query
 * and the rendering use the tight square. A divided node offers a new object
 * only to its child whose centre is closest to the object, and keeps it itself
 * when that child refuses.
 *
 * The source's two node classes are separate, and so are the two modules.
 */
module LooseQuadTree {
  import opened Vector2
  import opened QuadTreeObjects
  import opened DebugDraw
  import opened Wrappers
  import QuadTree

  /** `LooseQuadTreeNode::myCapacity`. */
  const Capacity: nat := 4

  /** Subdivisions one `Insert` call may nest, as in the strict tree. */
  const SubdivisionBudget: nat := 280

  datatype Node = Node(
    position: Vec2,
    halfWidth: real,
    looseness: real,
    divided: bool,
    objects: seq<ObjectId>,
    children: seq<Node>)

  datatype InsertResult = InsertResult(node: Node, inserted: bool)

  /** A freshly allocated node: no residents, no children, not divided. */
  function Leaf(position: Vec2, halfWidth: real, looseness: real): Node
  {
    Node(position, halfWidth, looseness, false, [], [])
  }

  /** Number of nodes of a subtree. */
  function Count(n: Node): (c: nat)
    ensures c > CountAll(n.children)
  {
    1 + CountAll(n.children)
  }

  function CountAll(cs: seq<Node>): (c: nat)
    ensures forall k | 0 <= k < |cs| :: Count(cs[k]) <= c
  {
    if cs == [] then 0 else Count(cs[0]) + CountAll(cs[1..])
  }

  /** Multiset of the object ids stored in a subtree. */
  function Contents(n: Node): multiset<ObjectId>
  {
    multiset(n.objects) + ContentsAll(n.children)
  }

  function ContentsAll(cs: seq<Node>): multiset<ObjectId>
  {
    if cs == [] then multiset{} else Contents(cs[0]) + ContentsAll(cs[1..])
  }

  // ---------------------------------------------------------------------------
  // Geometry

  /** `GetHalfSize`: half the side of the loose square. */
  function GetHalfSize(n: Node): real
  {
    n.halfWidth * n.looseness
  }

  /** `GetSize`: the side of the loose square. */
  function GetSize(n: Node): (s: real)
    ensures s == GetHalfSize(n) + GetHalfSize(n)
  {
    GetHalfSize(n) * 2.0
  }

  /** `LooseQuadTreeNode::contains`: the tight closed square, boundary included. */
  predicate Contains(n: Node, p: Vec2)
  {
    var min := Vec2(n.position.x - n.halfWidth, n.position.y - n.halfWidth);
    var max := Vec2(n.position.x + n.halfWidth, n.position.y + n.halfWidth);
    p.x >= min.x && p.y >= min.y && p.x <= max.x && p.y <= max.y
  }

  /** `LooseQuadTreeNode::Inside`: strictly within the loose square shrunk by the
      object's half-width. */
  predicate Inside(n: Node, o: QuadTreeObject)
  {
    var insideX := Abs(o.position.x - n.position.x) < GetHalfSize(n) - o.halfWidth;
    var insideY := Abs(o.position.y - n.position.y) < GetHalfSize(n) - o.halfWidth;
    insideX && insideY
  }

  /** Centre of child `i` (`CreateChildren`): 0 is top-left, then clockwise. */
  function QuadrantCenter(n: Node, i: nat): Vec2
    requires i < 4
  {
    var h := n.halfWidth * 0.5;
    if i == 0 then Vec2(n.position.x - h, n.position.y + h)
    else if i == 1 then Vec2(n.position.x + h, n.position.y + h)
    else if i == 2 then Vec2(n.position.x + h, n.position.y - h)
    else Vec2(n.position.x - h, n.position.y - h)
  }

  /** The four children `CreateChildren` allocates, with the parent's looseness. */
  function Quadrants(n: Node): seq<Node>
  {
    seq(4, i requires 0 <= i < 4 => Leaf(QuadrantCenter(n, i), n.halfWidth * 0.5, n.looseness))
  }

  /** `c` has the geometry of child `i` of `n`, and inherited its looseness. */
  predicate IsQuadrant(n: Node, i: nat, c: Node)
  {
    i < 4 && c.position == QuadrantCenter(n, i) && c.halfWidth == n.halfWidth * 0.5
    && c.looseness == n.looseness
  }

  /** Squared distance from a child's centre to a point, as `FindClosestChild` measures it. */
  function SqrDistance(c: Node, p: Vec2): real
  {
    LengthSqr(Sub(c.position, p))
  }

  /** The child `FindClosestChild` picks: the one at least distance, the first of them
      on a tie (a later child must be strictly closer to replace an earlier one). */
  function ClosestChild(cs: seq<Node>, p: Vec2): (k: nat)
    requires cs != []
    ensures k < |cs|
    ensures forall j | 0 <= j < |cs| :: SqrDistance(cs[k], p) <= SqrDistance(cs[j], p)
    ensures forall j | 0 <= j < k :: SqrDistance(cs[k], p) < SqrDistance(cs[j], p)
  {
    if |cs| == 1 then 0
    else
      var k := ClosestChild(cs[..|cs| - 1], p);
      if SqrDistance(cs[|cs| - 1], p) < SqrDistance(cs[k], p) then |cs| - 1 else k
  }

  /** `FindClosestChild`: `None` plays the part of the null pointer and of the initial
      `FLT_MAX` distance. */
  method FindClosestChild(node: Node, o: QuadTreeObject) returns (closest: Option<nat>)
    ensures closest.None? <==> node.children == []
    ensures closest.Some? ==> closest.value == ClosestChild(node.children, o.position)
  {
    closest := None;
    var minSqrDistance := 0.0;
    var i := 0;
    while i < |node.children|
      invariant 0 <= i <= |node.children|
      invariant closest.None? <==> i == 0
      invariant closest.Some? ==>
        closest.value == ClosestChild(node.children[..i], o.position)
        && minSqrDistance == SqrDistance(node.children[closest.value], o.position)
    {
      var child := node.children[i];
      var sqrDistance := LengthSqr(Sub(child.position, o.position));
      assert node.children[..i + 1][..i] == node.children[..i];
      if closest.None? || sqrDistance < minSqrDistance {
        closest := Some(i);
        minSqrDistance := sqrDistance;
      }
      i := i + 1;
    }
    assert node.children[..i] == node.children;
  }

  // ---------------------------------------------------------------------------
  // Insertion

  /** `LooseQuadTreeNode::Insert`. Only the closest child is tried. `room` bounds the
      nested subdivisions as in the strict tree. */
  function NodeInsert(n: Node, world: World, id: ObjectId, room: nat): (r: InsertResult)
    ensures r.inserted == Inside(n, world(id))
    ensures !r.inserted ==> r.node == n
    ensures r.node.position == n.position && r.node.halfWidth == n.halfWidth
    ensures r.node.looseness == n.looseness
    ensures n.divided ==> r.node.divided && |r.node.children| == |n.children|
    decreases room, Count(n), 2
  {
    if !Inside(n, world(id)) then
      InsertResult(n, false)
    else
      var k := if n.children != [] then ClosestChild(n.children, world(id).position) else 0;
      var delegated := if n.children != [] then NodeInsert(n.children[k], world, id, room) else InsertResult(n, false);
      if n.children != [] && delegated.inserted then
        InsertResult(n.(children := n.children[k := delegated.node]), true)
      else
        var appended := n.(objects := n.objects + [id]);
        if !appended.divided && |appended.objects| > Capacity && room > 0 then
          InsertResult(CreateChildren(appended, world, room), true)
        else
          InsertResult(appended, true)
  }

  /** `LooseQuadTreeNode::CreateChildren`: four children with the node's looseness, the
      flag set, the resident list cleared and every former resident inserted again. */
  function CreateChildren(n: Node, world: World, room: nat): (r: Node)
    requires room > 0
    ensures r.position == n.position && r.halfWidth == n.halfWidth && r.looseness == n.looseness
    ensures r.divided && |r.children| == 4
    decreases room, Count(n), 1
  {
    var divided := n.(children := Quadrants(n), divided := true, objects := []);
    Reinsert(divided, n.objects, world, room - 1)
  }

  /** The re-insertion loop of `CreateChildren`, in the former residents' order. */
  function Reinsert(n: Node, objs: seq<ObjectId>, world: World, room: nat): (r: Node)
    ensures r.position == n.position && r.halfWidth == n.halfWidth && r.looseness == n.looseness
    ensures n.divided ==> r.divided && |r.children| == |n.children|
    decreases room + 1, 0, |objs|
  {
    if objs == [] then n
    else Reinsert(NodeInsert(n, world, objs[0], room).node, objs[1..], world, room)
  }

  // ---------------------------------------------------------------------------
  // The tree invariant

  /** What every reachable node satisfies: each resident passed `Inside` here, the flag
      says whether there are children, there are 0 or 4 of them with the quadrant
      geometry and the parent's looseness, and they satisfy the invariant too. */
  ghost predicate Valid(n: Node, world: World)
    decreases n
  {
    && (forall i | 0 <= i < |n.objects| :: Inside(n, world(n.objects[i])))
    && n.divided == (n.children != [])
    && (n.children == [] || |n.children| == 4)
    && (forall i | 0 <= i < |n.children| :: IsQuadrant(n, i, n.children[i]) && Valid(n.children[i], world))
  }

  lemma {:induction false} ContentsAllUpdate(cs: seq<Node>, k: nat, c: Node, m: multiset<ObjectId>)
    requires k < |cs| && Contents(c) == Contents(cs[k]) + m
    ensures ContentsAll(cs[k := c]) == ContentsAll(cs) + m
    decreases k
  {
    if k > 0 {
      ContentsAllUpdate(cs[1..], k - 1, c, m);
      assert cs[k := c][1..] == cs[1..][k - 1 := c];
      assert cs[1..][k - 1] == cs[k];
      assert cs[k := c][0] == cs[0];
    } else {
      assert cs[k := c][1..] == cs[1..];
      assert cs[k := c][0] == c;
    }
  }

  /** Replacing one child by one with the same geometry that satisfies the invariant
      keeps the invariant. */
  lemma ReplaceChildValid(n: Node, k: nat, c: Node, world: World)
    requires Valid(n, world) && k < |n.children| && Valid(c, world)
    requires c.position == n.children[k].position && c.halfWidth == n.children[k].halfWidth
    requires c.looseness == n.children[k].looseness
    ensures Valid(n.(children := n.children[k := c]), world)
  {
    var r := n.(children := n.children[k := c]);
    assert r.objects == n.objects && r.position == n.position && GetHalfSize(r) == GetHalfSize(n);
    forall i | 0 <= i < |r.children| ensures IsQuadrant(r, i, r.children[i]) && Valid(r.children[i], world) {
      assert IsQuadrant(n, i, n.children[i]);
      if i != k {
        assert r.children[i] == n.children[i];
      }
    }
    ValidIntro(r, world);
  }

  /** The invariant from its parts. */
  lemma ValidIntro(n: Node, world: World)
    requires forall i | 0 <= i < |n.objects| :: Inside(n, world(n.objects[i]))
    requires n.divided == (n.children != []) && (n.children == [] || |n.children| == 4)
    requires forall i | 0 <= i < |n.children| :: IsQuadrant(n, i, n.children[i])
    requires forall i | 0 <= i < |n.children| :: Valid(n.children[i], world)
    ensures Valid(n, world)
  {
  }

  /** Appending an accepted id keeps every resident inside the node. */
  lemma AppendInside(n: Node, id: ObjectId, world: World)
    requires forall i | 0 <= i < |n.objects| :: Inside(n, world(n.objects[i]))
    requires Inside(n, world(id))
    ensures var r := n.(objects := n.objects + [id]);
      forall i | 0 <= i < |r.objects| :: Inside(r, world(r.objects[i]))
  {
    var r := n.(objects := n.objects + [id]);
    assert r.position == n.position && GetHalfSize(r) == GetHalfSize(n);
    forall i | 0 <= i < |r.objects| ensures Inside(r, world(r.objects[i])) {
      if i < |n.objects| {
        assert r.objects[i] == n.objects[i];
      } else {
        assert r.objects[i] == id;
      }
    }
  }

  /** Appending an accepted id keeps the invariant and adds the id to the contents. */
  lemma AppendValid(n: Node, id: ObjectId, world: World)
    requires Valid(n, world) && Inside(n, world(id))
    ensures Valid(n.(objects := n.objects + [id]), world)
    ensures Contents(n.(objects := n.objects + [id])) == Contents(n) + multiset{id}
  {
    AppendKeepsShape(n, id, world);
    AppendContents(n, id);
  }

  lemma AppendKeepsShape(n: Node, id: ObjectId, world: World)
    requires Valid(n, world) && Inside(n, world(id))
    ensures Valid(n.(objects := n.objects + [id]), world)
  {
    var r := n.(objects := n.objects + [id]);
    AppendInside(n, id, world);
    assert r.children == n.children;
    forall i | 0 <= i < |r.children| ensures IsQuadrant(r, i, r.children[i]) {
      assert IsQuadrant(n, i, n.children[i]);
    }
    ValidIntro(r, world);
  }

  lemma AppendContents(n: Node, id: ObjectId)
    ensures Contents(n.(objects := n.objects + [id])) == Contents(n) + multiset{id}
  {
    var r := n.(objects := n.objects + [id]);
    assert r.children == n.children;
    assert multiset(r.objects) == multiset(n.objects) + multiset{id};
  }

  lemma QuadrantsValid(n: Node, world: World)
    ensures forall i | 0 <= i < 4 :: IsQuadrant(n, i, Quadrants(n)[i]) && Valid(Quadrants(n)[i], world)
    ensures ContentsAll(Quadrants(n)) == multiset{}
  {
    var qs := Quadrants(n);
    assert ContentsAll(qs[3..]) == multiset{};
    assert ContentsAll(qs[2..]) == multiset{};
    assert ContentsAll(qs[1..]) == multiset{};
  }

  /** `Insert` keeps the invariant, and a successful insertion adds exactly the new id
      to the subtree. */
  lemma InsertKeepsInvariant(n: Node, world: World, id: ObjectId, room: nat)
    requires Valid(n, world)
    ensures Valid(NodeInsert(n, world, id, room).node, world)
    ensures NodeInsert(n, world, id, room).inserted ==>
      Contents(NodeInsert(n, world, id, room).node) == Contents(n) + multiset{id}
  {
    InsertValid(n, world, id, room);
    InsertContents(n, world, id, room);
  }

  /** Subdivision yields a valid subtree holding exactly the former residents. */
  lemma CreateChildrenKeepsInvariant(n: Node, world: World, room: nat)
    requires room > 0
    requires forall i | 0 <= i < |n.objects| :: Inside(n, world(n.objects[i]))
    ensures Valid(CreateChildren(n, world, room), world)
    ensures Contents(CreateChildren(n, world, room)) == multiset(n.objects)
  {
    CreateChildrenValid(n, world, room);
    CreateChildrenContents(n, world, room);
  }

  /** Re-inserting objects the node accepts keeps the invariant and stores each once. */
  lemma ReinsertKeepsInvariant(n: Node, objs: seq<ObjectId>, world: World, room: nat)
    requires Valid(n, world)
    requires forall i | 0 <= i < |objs| :: Inside(n, world(objs[i]))
    ensures Valid(Reinsert(n, objs, world, room), world)
    ensures Contents(Reinsert(n, objs, world, room)) == Contents(n) + multiset(objs)
  {
    ReinsertValid(n, objs, world, room);
    ReinsertContents(n, objs, world, room);
  }

  /** The result of each re-insertion is ignored: an object that no longer passes
      `Inside` at the subdividing node (because its position in `world` moved since it
      was stored) is not re-inserted anywhere. Re-inserting only such objects leaves
      the node exactly as it was. */
  lemma {:induction false} ReinsertDropsStrays(n: Node, objs: seq<ObjectId>, world: World, room: nat)
    requires forall i | 0 <= i < |objs| :: !Inside(n, world(objs[i]))
    ensures Reinsert(n, objs, world, room) == n
    decreases |objs|
  {
    if objs != [] {
      assert !Inside(n, world(objs[0]));
      assert forall i | 0 <= i < |objs[1..]| :: !Inside(n, world(objs[1..][i])) by {
        forall i | 0 <= i < |objs[1..]| ensures !Inside(n, world(objs[1..][i])) {
          assert objs[1..][i] == objs[i + 1];
        }
      }
      ReinsertDropsStrays(n, objs[1..], world, room);
    }
  }

  /** Subdividing a node none of whose residents still passes `Inside` there loses them
      all: the node ends with four empty children and no residents. */
  lemma SubdivisionLosesStrays(n: Node, world: World, room: nat)
    requires room > 0
    requires forall i | 0 <= i < |n.objects| :: !Inside(n, world(n.objects[i]))
    ensures CreateChildren(n, world, room) == n.(children := Quadrants(n), divided := true, objects := [])
    ensures Contents(CreateChildren(n, world, room)) == multiset{}
  {
    var divided := n.(children := Quadrants(n), divided := true, objects := []);
    assert divided.position == n.position && divided.halfWidth == n.halfWidth;
    forall i | 0 <= i < |n.objects| ensures !Inside(divided, world(n.objects[i])) {
      assert !Inside(n, world(n.objects[i]));
    }
    ReinsertDropsStrays(divided, n.objects, world, room - 1);
    QuadrantsValid(n, world);
  }

  // The invariant half, by induction along the recursion of `NodeInsert`.

  lemma {:induction false} InsertValid(n: Node, world: World, id: ObjectId, room: nat)
    requires Valid(n, world)
    ensures Valid(NodeInsert(n, world, id, room).node, world)
    decreases room, Count(n), 2
  {
    if Inside(n, world(id)) {
      var k := if n.children != [] then ClosestChild(n.children, world(id).position) else 0;
      if n.children != [] && NodeInsert(n.children[k], world, id, room).inserted {
        var c := NodeInsert(n.children[k], world, id, room).node;
        InsertValid(n.children[k], world, id, room);
        assert NodeInsert(n, world, id, room) == InsertResult(n.(children := n.children[k := c]), true);
        ReplaceChildValid(n, k, c, world);
      } else {
        var appended := n.(objects := n.objects + [id]);
        AppendKeepsShape(n, id, world);
        if !appended.divided && |appended.objects| > Capacity && room > 0 {
          assert NodeInsert(n, world, id, room) == InsertResult(CreateChildren(appended, world, room), true);
          CreateChildrenValid(appended, world, room);
        } else {
          assert NodeInsert(n, world, id, room) == InsertResult(appended, true);
        }
      }
    }
  }

  lemma {:induction false} CreateChildrenValid(n: Node, world: World, room: nat)
    requires room > 0
    ensures Valid(CreateChildren(n, world, room), world)
    decreases room, Count(n), 1
  {
    var d := n.(children := Quadrants(n), divided := true, objects := []);
    SubdividedValid(n, world);
    ReinsertValid(d, n.objects, world, room - 1);
  }

  lemma {:induction false} ReinsertValid(n: Node, objs: seq<ObjectId>, world: World, room: nat)
    requires Valid(n, world)
    ensures Valid(Reinsert(n, objs, world, room), world)
    decreases room + 1, 0, |objs|
  {
    if objs != [] {
      InsertValid(n, world, objs[0], room);
      ReinsertValid(NodeInsert(n, world, objs[0], room).node, objs[1..], world, room);
    }
  }

  // The contents half: every accepted object is stored exactly once.

  lemma {:induction false} InsertContents(n: Node, world: World, id: ObjectId, room: nat)
    requires Valid(n, world)
    ensures NodeInsert(n, world, id, room).inserted ==>
      Contents(NodeInsert(n, world, id, room).node) == Contents(n) + multiset{id}
    decreases room, Count(n), 2
  {
    if Inside(n, world(id)) {
      var k := if n.children != [] then ClosestChild(n.children, world(id).position) else 0;
      if n.children != [] && NodeInsert(n.children[k], world, id, room).inserted {
        var c := NodeInsert(n.children[k], world, id, room).node;
        InsertContents(n.children[k], world, id, room);
        assert NodeInsert(n, world, id, room) == InsertResult(n.(children := n.children[k := c]), true);
        ContentsAllUpdate(n.children, k, c, multiset{id});
      } else {
        var appended := n.(objects := n.objects + [id]);
        AppendContents(n, id);
        if !appended.divided && |appended.objects| > Capacity && room > 0 {
          assert NodeInsert(n, world, id, room) == InsertResult(CreateChildren(appended, world, room), true);
          AppendInside(n, id, world);
          CreateChildrenContents(appended, world, room);
        } else {
          assert NodeInsert(n, world, id, room) == InsertResult(appended, true);
        }
      }
    }
  }

  lemma {:induction false} CreateChildrenContents(n: Node, world: World, room: nat)
    requires room > 0
    requires forall i | 0 <= i < |n.objects| :: Inside(n, world(n.objects[i]))
    ensures Contents(CreateChildren(n, world, room)) == multiset(n.objects)
    decreases room, Count(n), 1
  {
    var d := n.(children := Quadrants(n), divided := true, objects := []);
    SubdividedValid(n, world);
    ReinsertContents(d, n.objects, world, room - 1);
  }

  lemma {:induction false} ReinsertContents(n: Node, objs: seq<ObjectId>, world: World, room: nat)
    requires Valid(n, world)
    requires forall i | 0 <= i < |objs| :: Inside(n, world(objs[i]))
    ensures Contents(Reinsert(n, objs, world, room)) == Contents(n) + multiset(objs)
    decreases room + 1, 0, |objs|
  {
    if objs != [] {
      var next := NodeInsert(n, world, objs[0], room).node;
      InsertValid(n, world, objs[0], room);
      InsertContents(n, world, objs[0], room);
      TailInside(n, next, objs, objs[1..], world);
      ReinsertContents(next, objs[1..], world, room);
      MultisetCons(objs);
    }
  }

  /** A node with the same loose square accepts the rest of a list the first node
      accepted. */
  lemma TailInside(n: Node, m: Node, objs: seq<ObjectId>, rest: seq<ObjectId>, world: World)
    requires objs != [] && rest == objs[1..]
    requires m.position == n.position && m.halfWidth == n.halfWidth && m.looseness == n.looseness
    requires forall i | 0 <= i < |objs| :: Inside(n, world(objs[i]))
    ensures forall i | 0 <= i < |rest| :: Inside(m, world(rest[i]))
  {
    assert GetHalfSize(m) == GetHalfSize(n);
    forall i | 0 <= i < |rest| ensures Inside(m, world(rest[i])) {
      assert rest[i] == objs[i + 1];
    }
  }

  lemma MultisetCons(objs: seq<ObjectId>)
    requires objs != []
    ensures multiset(objs) == multiset{objs[0]} + multiset(objs[1..])
  {
    assert objs == [objs[0]] + objs[1..];
  }

  /** The freshly subdivided node, before re-insertion, satisfies the invariant, is
      empty, and accepts whatever the node accepted. */
  lemma SubdividedValid(n: Node, world: World)
    ensures var d := n.(children := Quadrants(n), divided := true, objects := []);
      && Valid(d, world) && Contents(d) == multiset{}
      && forall o: QuadTreeObject :: Inside(d, o) == Inside(n, o)
  {
    var d := n.(children := Quadrants(n), divided := true, objects := []);
    QuadrantsValid(n, world);
    assert GetHalfSize(d) == GetHalfSize(n);
    forall i | 0 <= i < 4 ensures IsQuadrant(d, i, d.children[i]) && Valid(d.children[i], world) {
    }
  }

  // ---------------------------------------------------------------------------
  // What an insertion does, node by node

  /** When the closest child accepts the object, only that child changes. */
  lemma DelegatedToClosestChild(n: Node, world: World, id: ObjectId, room: nat)
    requires Inside(n, world(id)) && n.children != []
    requires Inside(n.children[ClosestChild(n.children, world(id).position)], world(id))
    ensures var k := ClosestChild(n.children, world(id).position);
      NodeInsert(n, world, id, room).node
        == n.(children := n.children[k := NodeInsert(n.children[k], world, id, room).node])
  {
  }

  /** When the closest child refuses, the node keeps the object at the end of its
      resident list, even if another child would have accepted it (unless the node is
      a full leaf with room to subdivide). */
  lemma KeptAtNode(n: Node, world: World, id: ObjectId, room: nat)
    requires Inside(n, world(id))
    requires n.children != [] ==> !Inside(n.children[ClosestChild(n.children, world(id).position)], world(id))
    requires n.divided || |n.objects| < Capacity || room == 0
    ensures NodeInsert(n, world, id, room).node == n.(objects := n.objects + [id])
  {
  }

  /** A leaf subdivides exactly when an accepted object would make it hold more than
      `Capacity` residents (and the budget allows); a divided node never subdivides again. */
  lemma SubdivisionRule(n: Node, world: World, id: ObjectId, room: nat)
    requires Valid(n, world)
    ensures NodeInsert(n, world, id, room).node.divided
        <==> n.divided || (Inside(n, world(id)) && |n.objects| >= Capacity && room > 0)
  {
    if !n.divided && Inside(n, world(id)) {
      var appended := n.(objects := n.objects + [id]);
      if !(|n.objects| >= Capacity && room > 0) {
        assert NodeInsert(n, world, id, room).node == appended;
      }
    }
  }

  // ---------------------------------------------------------------------------
  // Looseness

  /** With looseness 1 the loose node accepts exactly what a strict node of the same
      square accepts. */
  lemma UnitLoosenessIsStrict(n: Node, o: QuadTreeObject)
    requires n.looseness == 1.0
    ensures Inside(n, o) <==> QuadTree.Inside(QuadTree.Leaf(n.position, n.halfWidth), o)
  {
  }

  /** A looseness of at least 1 never makes a node refuse what the strict node of the
      same square accepts. */
  lemma LoosenessOnlyWidens(n: Node, o: QuadTreeObject)
    requires n.looseness >= 1.0 && n.halfWidth >= 0.0
    requires QuadTree.Inside(QuadTree.Leaf(n.position, n.halfWidth), o)
    ensures Inside(n, o)
  {
    ScaledAtLeast(n.halfWidth, n.looseness);
    assert GetHalfSize(n) >= n.halfWidth;
  }

  lemma ScaledAtLeast(h: real, l: real)
    requires h >= 0.0 && l >= 1.0
    ensures h * l >= h
  {
    assert h * l == h + h * (l - 1.0);
    assert h * (l - 1.0) >= 0.0;
  }

  /** An accepted object's square lies within the loose square: its extent on each axis
      stays below `GetHalfSize` from the centre, so within `GetSize` across. */
  lemma InsideWithinLooseSquare(n: Node, o: QuadTreeObject)
    requires Inside(n, o) && o.halfWidth >= 0.0
    ensures o.position.x + o.halfWidth < n.position.x + GetHalfSize(n)
    ensures o.position.x - o.halfWidth > n.position.x - GetHalfSize(n)
    ensures o.position.y + o.halfWidth < n.position.y + GetHalfSize(n)
    ensures o.position.y - o.halfWidth > n.position.y - GetHalfSize(n)
    ensures 2.0 * o.halfWidth < GetSize(n)
  {
  }

  // Point query

  /** Index of the first child whose closed square contains `p`, or `|cs|` if none does. */
  function FirstContaining(cs: seq<Node>, p: Vec2): (k: nat)
    ensures k <= |cs|
    ensures k < |cs| ==> Contains(cs[k], p)
    ensures forall j | 0 <= j < k :: !Contains(cs[j], p)
  {
    if cs == [] then 0
    else if Contains(cs[0], p) then 0
    else 1 + FirstContaining(cs[1..], p)
  }

  /** The nodes `SearchIntersected` appends: descend into the first child containing
      `p`, as long as there is one. */
  function Search(n: Node, p: Vec2): seq<Node>
    decreases n
  {
    var k := FirstContaining(n.children, p);
    if k == |n.children| then [] else [n.children[k]] + Search(n.children[k], p)
  }

  /** The search result is a descending path: it starts at the first child of `n`
      containing `p`, each further node is the first child of its predecessor that
      contains `p`, every node on it contains `p`, and it stops at a node none of whose
      children contains `p`. */
  lemma {:induction false} SearchIsDescent(n: Node, p: Vec2)
    ensures var s := Search(n, p);
      && (s == [] <==> forall j | 0 <= j < |n.children| :: !Contains(n.children[j], p))
      && (forall k | 0 <= k < |s| :: Contains(s[k], p))
      && (s != [] ==> s[0] == n.children[FirstContaining(n.children, p)])
      && (forall k | 0 <= k < |s| - 1 ::
            FirstContaining(s[k].children, p) < |s[k].children|
            && s[k + 1] == s[k].children[FirstContaining(s[k].children, p)])
      && (s != [] ==> FirstContaining(s[|s| - 1].children, p) == |s[|s| - 1].children|)
    decreases n
  {
    var k := FirstContaining(n.children, p);
    if k < |n.children| {
      var c := n.children[k];
      SearchIsDescent(c, p);
      var t := Search(c, p);
      var s := [c] + t;
      assert Search(n, p) == s;
      forall i | 0 <= i < |s| - 1
        ensures FirstContaining(s[i].children, p) < |s[i].children|
        ensures s[i + 1] == s[i].children[FirstContaining(s[i].children, p)]
      {
        if i == 0 {
          assert !(forall j | 0 <= j < |c.children| :: !Contains(c.children[j], p)) by {
            assert t != [];
          }
        } else {
          assert s[i] == t[i - 1] && s[i + 1] == t[i];
        }
      }
      if t != [] {
        assert s[|s| - 1] == t[|t| - 1];
      }
    }
  }

  // ---------------------------------------------------------------------------
  // Debug rendering

  /** The segments `Render` draws for a subtree: the node's outline, then each child's
      subtree in index order. */
  function Rendering(n: Node): seq<Segment>
    decreases n
  {
    Outline(n.position, n.halfWidth) + RenderingAll(n.children)
  }

  function RenderingAll(cs: seq<Node>): seq<Segment>
    decreases cs
  {
    if cs == [] then [] else RenderingAll(cs[..|cs| - 1]) + Rendering(cs[|cs| - 1])
  }

  /** The nodes of a subtree in pre-order: parent first, children in index order. */
  function Preorder(n: Node): seq<Node>
    decreases n
  {
    [n] + PreorderAll(n.children)
  }

  function PreorderAll(cs: seq<Node>): seq<Node>
    decreases cs
  {
    if cs == [] then [] else PreorderAll(cs[..|cs| - 1]) + Preorder(cs[|cs| - 1])
  }

  /** The outlines of a list of nodes, one after the other. */
  function Outlines(ns: seq<Node>): (r: seq<Segment>)
    ensures |r| == 4 * |ns|
  {
    if ns == [] then [] else Outlines(ns[..|ns| - 1]) + Outline(ns[|ns| - 1].position, ns[|ns| - 1].halfWidth)
  }

  lemma {:induction false} OutlinesAppend(a: seq<Node>, b: seq<Node>)
    ensures Outlines(a + b) == Outlines(a) + Outlines(b)
    decreases |b|
  {
    if b != [] {
      var m := |b| - 1;
      OutlinesAppend(a, b[..m]);
      assert (a + b)[..|a + b| - 1] == a + b[..m];
      assert (a + b)[|a + b| - 1] == b[m];
    } else {
      assert a + b == a;
    }
  }

  /** Rendering draws the outline of every node of the subtree exactly once, in
      pre-order. */
  lemma {:induction false} RenderingIsPreorder(n: Node)
    ensures Rendering(n) == Outlines(Preorder(n))
    decreases n, 1
  {
    RenderingAllIsPreorder(n.children);
    OutlinesAppend([n], PreorderAll(n.children));
    assert Outlines([n]) == Outline(n.position, n.halfWidth) by {
      assert [n][..0] == [];
    }
  }

  lemma {:induction false} RenderingAllIsPreorder(cs: seq<Node>)
    ensures RenderingAll(cs) == Outlines(PreorderAll(cs))
    decreases cs, 0
  {
    if cs != [] {
      var m := |cs| - 1;
      RenderingAllIsPreorder(cs[..m]);
      RenderingIsPreorder(cs[m]);
      OutlinesAppend(PreorderAll(cs[..m]), Preorder(cs[m]));
    }
  }

  lemma {:induction false} CountAllSnoc(cs: seq<Node>)
    requires cs != []
    ensures CountAll(cs) == CountAll(cs[..|cs| - 1]) + Count(cs[|cs| - 1])
  {
    if |cs| > 1 {
      CountAllSnoc(cs[1..]);
      assert cs[1..][..|cs[1..]| - 1] == cs[..|cs| - 1][1..];
    }
  }

  /** Pre-order lists each node of the subtree once: as many entries as nodes. */
  lemma {:induction false} PreorderCount(n: Node)
    ensures |Preorder(n)| == Count(n)
    ensures |Rendering(n)| == 4 * Count(n)
    decreases n, 1
  {
    PreorderAllCount(n.children);
    RenderingIsPreorder(n);
  }

  lemma {:induction false} PreorderAllCount(cs: seq<Node>)
    ensures |PreorderAll(cs)| == CountAll(cs)
    decreases cs, 0
  {
    if cs != [] {
      PreorderAllCount(cs[..|cs| - 1]);
      PreorderCount(cs[|cs| - 1]);
      CountAllSnoc(cs);
    }
  }

  // ---------------------------------------------------------------------------
  // ---------------------------------------------------------------------------
  // The tree

  /** `LooseQuadTree`: the world's size and the root node. */
  class LooseQuadTree {
    var width: real
    var height: real
    var root: Node

    /** `LooseQuadTree() = default`: the float members are left as they are; the model
        takes them, and the root's width and looseness, as zero. */
    constructor ()
      ensures width == 0.0 && height == 0.0
      ensures root == Leaf(Zero(), 0.0, 0.0)
    {
      width, height := 0.0, 0.0;
      root := Leaf(Zero(), 0.0, 0.0);
    }

    /** `Init`: the root becomes the square `[0, aWidth]` on both axes with the given
        looseness (1 by default); `aHeight` is only recorded. */
    method Init(aWidth: real, aHeight: real, aLooseness: real := 1.0)
      modifies this
      ensures width == aWidth && height == aHeight
      ensures root == old(root).(position := Vec2(aWidth * 0.5, aWidth * 0.5), halfWidth := aWidth * 0.5,
                                 looseness := aLooseness)
    {
      width := aWidth;
      height := aHeight;
      root := root.(halfWidth := width * 0.5);
      root := root.(position := root.position.(x := root.halfWidth));
      root := root.(position := root.position.(y := root.halfWidth));
      root := root.(looseness := aLooseness);
    }

    /** `Insert`: the root's insertion, result discarded. */
    method Insert(world: World, id: ObjectId)
      modifies this`root
      ensures root == NodeInsert(old(root), world, id, SubdivisionBudget).node
      ensures !Inside(old(root), world(id)) ==> root == old(root)
      ensures Valid(old(root), world) ==> Valid(root, world)
      ensures Valid(old(root), world) && Inside(old(root), world(id)) ==>
        Contents(root) == Contents(old(root)) + multiset{id}
    {
      if Valid(root, world) {
        InsertKeepsInvariant(root, world, id, SubdivisionBudget);
      }
      root := NodeInsert(root, world, id, SubdivisionBudget).node;
    }

    /** `GetIntersected`: nothing unless the root's tight square contains `p`; then the
        root and the nodes `SearchIntersected` finds. */
    method GetIntersected(p: Vec2, out: seq<Node>) returns (r: seq<Node>)
      ensures !Contains(root, p) ==> r == out
      ensures Contains(root, p) ==> r == out + [root] + Search(root, p)
    {
      r := out;
      if Contains(root, p) {
        r := r + [root];
        r := SearchIntersected(root, p, r);
      }
    }

    /** `SearchIntersected`: follows the first child containing `p`, recursively. */
    method SearchIntersected(node: Node, p: Vec2, out: seq<Node>) returns (r: seq<Node>)
      ensures r == out + Search(node, p)
      decreases node
    {
      r := out;
      var i := 0;
      while i < |node.children|
        invariant 0 <= i <= |node.children|
        invariant forall j | 0 <= j < i :: !Contains(node.children[j], p)
        invariant r == out
      {
        var child := node.children[i];
        if Contains(child, p) {
          assert FirstContaining(node.children, p) == i;
          r := r + [child];
          r := SearchIntersected(child, p, r);
          return;
        }
        i := i + 1;
      }
    }

    /** `Render(aDebugDrawer)`: the drawer's line list grows by the whole tree's rendering. */
    method Render(drawn: seq<Segment>) returns (r: seq<Segment>)
      ensures r == drawn + Rendering(root)
    {
      r := RenderNode(drawn, root);
    }

    /** `Render(aDebugDrawer, aNode)`: four `DrawLine` calls, then each child. */
    method RenderNode(drawn: seq<Segment>, node: Node) returns (r: seq<Segment>)
      ensures r == drawn + Rendering(node)
      decreases node
    {
      var minX := node.position.x - node.halfWidth;
      var minY := node.position.y - node.halfWidth;
      var maxX := node.position.x + node.halfWidth;
      var maxY := node.position.y + node.halfWidth;
      r := drawn;
      r := r + [Segment(Vec2(minX, maxY), Vec2(maxX, maxY))];
      r := r + [Segment(Vec2(maxX, maxY), Vec2(maxX, minY))];
      r := r + [Segment(Vec2(maxX, minY), Vec2(minX, minY))];
      r := r + [Segment(Vec2(minX, minY), Vec2(minX, maxY))];
      var i := 0;
      while i < |node.children|
        invariant 0 <= i <= |node.children|
        invariant r == drawn + Outline(node.position, node.halfWidth) + RenderingAll(node.children[..i])
      {
        assert node.children[..i + 1][..i] == node.children[..i];
        r := RenderNode(r, node.children[i]);
        i := i + 1;
      }
      assert node.children[..i] == node.children;
    }
  }
}
