/**
 * The strict quadrant tree: `QuadTreeNode` and its owner `QuadTree`.
 *
 * A node is a square `position ± halfWidth`. It keeps the ids of its resident
 * objects in insertion order and has either no children or exactly four, one
 * per quadrant, each half as wide. An object is accepted by a node only when
 * it lies strictly inside the node shrunk by the object's own half-width; a
 * subdivided node offers a new object to its children in index order and keeps
 * it itself when none accepts. A leaf that grows past `Capacity` residents
 * subdivides once and re-inserts all of them.
 *
 * Nodes are values: the node graph is a tree by construction. `Insert` is the
 * value-level counterpart of the in-place `QuadTreeNode::Insert`; the class
 * `QuadTree` holds the root and updates it in place.
 */
module QuadTree {
  import opened Vector2
  import opened QuadTreeObjects
  import opened DebugDraw

  /** `QuadTreeNode::myCapacity`. */
  const Capacity: nat := 4

  /** Subdivisions one `Insert` call may nest (see README): with real coordinates
      five coincident objects would otherwise subdivide without end. */
  const SubdivisionBudget: nat := 280

  datatype Node = Node(
    position: Vec2,
    halfWidth: real,
    divided: bool,
    objects: seq<ObjectId>,
    children: seq<Node>)

  datatype InsertResult = InsertResult(node: Node, inserted: bool)

  datatype OfferResult = OfferResult(children: seq<Node>, taken: bool)

  /** A freshly allocated node: no residents, no children, not divided. */
  function Leaf(position: Vec2, halfWidth: real): Node
  {
    Node(position, halfWidth, false, [], [])
  }

  /** Number of nodes of a subtree. */
  function Count(n: Node): (c: nat)
    ensures c > CountAll(n.children)
  {
    1 + CountAll(n.children)
  }

  function CountAll(cs: seq<Node>): (c: nat)
    ensures forall k | 0 <= k < |cs| :: Count(cs[k]) <= c
  {
    if cs == [] then 0 else Count(cs[0]) + CountAll(cs[1..])
  }

  /** Multiset of the object ids stored in a subtree. */
  function Contents(n: Node): multiset<ObjectId>
  {
    multiset(n.objects) + ContentsAll(n.children)
  }

  function ContentsAll(cs: seq<Node>): multiset<ObjectId>
  {
    if cs == [] then multiset{} else Contents(cs[0]) + ContentsAll(cs[1..])
  }

  // ---------------------------------------------------------------------------
  // Geometry

  /** `QuadTreeNode::contains`: the closed square, boundary included. */
  predicate Contains(n: Node, p: Vec2)
  {
    var min := Vec2(n.position.x - n.halfWidth, n.position.y - n.halfWidth);
    var max := Vec2(n.position.x + n.halfWidth, n.position.y + n.halfWidth);
    p.x >= min.x && p.y >= min.y && p.x <= max.x && p.y <= max.y
  }

  /** `QuadTreeNode::Inside`: strictly within the square shrunk by the object's half-width. */
  predicate Inside(n: Node, o: QuadTreeObject)
  {
    var insideX := Abs(o.position.x - n.position.x) < n.halfWidth - o.halfWidth;
    var insideY := Abs(o.position.y - n.position.y) < n.halfWidth - o.halfWidth;
    insideX && insideY
  }

  /** Centre of child `i` (`CreateChildren`): 0 is top-left, then clockwise. */
  function QuadrantCenter(n: Node, i: nat): Vec2
    requires i < 4
  {
    var h := n.halfWidth * 0.5;
    if i == 0 then Vec2(n.position.x - h, n.position.y + h)
    else if i == 1 then Vec2(n.position.x + h, n.position.y + h)
    else if i == 2 then Vec2(n.position.x + h, n.position.y - h)
    else Vec2(n.position.x - h, n.position.y - h)
  }

  /** The four children `CreateChildren` allocates, in index order. */
  function Quadrants(n: Node): seq<Node>
  {
    seq(4, i requires 0 <= i < 4 => Leaf(QuadrantCenter(n, i), n.halfWidth * 0.5))
  }

  /** `c` has the geometry of child `i` of `n`. */
  predicate IsQuadrant(n: Node, i: nat, c: Node)
  {
    i < 4 && c.position == QuadrantCenter(n, i) && c.halfWidth == n.halfWidth * 0.5
  }

  // ---------------------------------------------------------------------------
  // Insertion

  /** `QuadTreeNode::Insert`. `room` is the number of further subdivisions this call
      may nest; a node that would subdivide with no room left stays a leaf. */
  function NodeInsert(n: Node, world: World, id: ObjectId, room: nat): (r: InsertResult)
    ensures r.inserted == Inside(n, world(id))
    ensures !r.inserted ==> r.node == n
    ensures r.node.position == n.position && r.node.halfWidth == n.halfWidth
    ensures n.divided ==> r.node.divided && |r.node.children| == |n.children|
    decreases room, Count(n), 2
  {
    if !Inside(n, world(id)) then
      InsertResult(n, false)
    else
      var offer := if n.children != [] then Offer(n.children, world, id, room) else OfferResult(n.children, false);
      if offer.taken then
        InsertResult(n.(children := offer.children), true)
      else
        var appended := n.(objects := n.objects + [id]);
        if !appended.divided && |appended.objects| > Capacity && room > 0 then
          InsertResult(CreateChildren(appended, world, room), true)
        else
          InsertResult(appended, true)
  }

  /** The loop over the children in `Insert`: the first child that accepts keeps the object. */
  function Offer(cs: seq<Node>, world: World, id: ObjectId, room: nat): (r: OfferResult)
    ensures |r.children| == |cs|
    ensures r.taken <==> exists k :: 0 <= k < |cs| && Inside(cs[k], world(id))
    ensures !r.taken ==> r.children == cs
    ensures forall k | 0 <= k < |cs| ::
      r.children[k].position == cs[k].position && r.children[k].halfWidth == cs[k].halfWidth
    decreases room, CountAll(cs), 3
  {
    if cs == [] then
      OfferResult(cs, false)
    else
      var first := NodeInsert(cs[0], world, id, room);
      if first.inserted then
        OfferResult([first.node] + cs[1..], true)
      else
        var rest := Offer(cs[1..], world, id, room);
        OfferResult([cs[0]] + rest.children, rest.taken)
  }

  /** `QuadTreeNode::CreateChildren`: four children, the flag set, the resident list
      cleared and every former resident inserted again at this node. */
  function CreateChildren(n: Node, world: World, room: nat): (r: Node)
    requires room > 0
    ensures r.position == n.position && r.halfWidth == n.halfWidth
    ensures r.divided && |r.children| == 4
    decreases room, Count(n), 1
  {
    var divided := n.(children := Quadrants(n), divided := true, objects := []);
    Reinsert(divided, n.objects, world, room - 1)
  }

  /** The re-insertion loop of `CreateChildren`, in the former residents' order. */
  function Reinsert(n: Node, objs: seq<ObjectId>, world: World, room: nat): (r: Node)
    ensures r.position == n.position && r.halfWidth == n.halfWidth
    ensures n.divided ==> r.divided && |r.children| == |n.children|
    decreases room + 1, 0, |objs|
  {
    if objs == [] then n
    else Reinsert(NodeInsert(n, world, objs[0], room).node, objs[1..], world, room)
  }

  // ---------------------------------------------------------------------------
  // The tree invariant

  /** What every reachable node satisfies: each resident passed `Inside` here, the flag
      says whether there are children, there are 0 or 4 of them with the quadrant
      geometry, and they satisfy the invariant too. */
  ghost predicate Valid(n: Node, world: World)
    decreases n
  {
    && (forall i | 0 <= i < |n.objects| :: Inside(n, world(n.objects[i])))
    && n.divided == (n.children != [])
    && (n.children == [] || |n.children| == 4)
    && (forall i | 0 <= i < |n.children| :: IsQuadrant(n, i, n.children[i]) && Valid(n.children[i], world))
  }

  ghost predicate AllValid(cs: seq<Node>, world: World)
  {
    forall k | 0 <= k < |cs| :: Valid(cs[k], world)
  }

  lemma LeafValid(position: Vec2, halfWidth: real, world: World)
    ensures Valid(Leaf(position, halfWidth), world) && Contents(Leaf(position, halfWidth)) == multiset{}
  {
  }

  lemma ContentsAllCons(c: Node, cs: seq<Node>)
    ensures ContentsAll([c] + cs) == Contents(c) + ContentsAll(cs)
  {
    assert ([c] + cs)[0] == c;
    assert ([c] + cs)[1..] == cs;
  }

  lemma AllValidCons(c: Node, cs: seq<Node>, world: World)
    requires Valid(c, world) && AllValid(cs, world)
    ensures AllValid([c] + cs, world)
  {
    forall k | 0 <= k < |[c] + cs| ensures Valid(([c] + cs)[k], world) {
      if k > 0 {
        assert ([c] + cs)[k] == cs[k - 1];
      }
    }
  }

  /** Replacing the children by ones with the same geometry that satisfy the invariant
      keeps the invariant. */
  lemma ReplaceChildrenValid(n: Node, cs: seq<Node>, world: World)
    requires Valid(n, world) && AllValid(cs, world) && |cs| == |n.children|
    requires forall k | 0 <= k < |cs| :: cs[k].position == n.children[k].position && cs[k].halfWidth == n.children[k].halfWidth
    ensures Valid(n.(children := cs), world)
  {
    var r := n.(children := cs);
    assert r.objects == n.objects && r.position == n.position && r.halfWidth == n.halfWidth;
    forall i | 0 <= i < |cs| ensures IsQuadrant(r, i, cs[i]) {
      assert IsQuadrant(n, i, n.children[i]);
    }
    ValidIntro(r, world);
  }

  /** The invariant from its parts. */
  lemma ValidIntro(n: Node, world: World)
    requires forall i | 0 <= i < |n.objects| :: Inside(n, world(n.objects[i]))
    requires n.divided == (n.children != []) && (n.children == [] || |n.children| == 4)
    requires forall i | 0 <= i < |n.children| :: IsQuadrant(n, i, n.children[i])
    requires forall i | 0 <= i < |n.children| :: Valid(n.children[i], world)
    ensures Valid(n, world)
  {
  }

  /** Appending an accepted id keeps every resident inside the node. */
  lemma AppendInside(n: Node, id: ObjectId, world: World)
    requires forall i | 0 <= i < |n.objects| :: Inside(n, world(n.objects[i]))
    requires Inside(n, world(id))
    ensures var r := n.(objects := n.objects + [id]);
      forall i | 0 <= i < |r.objects| :: Inside(r, world(r.objects[i]))
  {
    var r := n.(objects := n.objects + [id]);
    assert r.position == n.position && r.halfWidth == n.halfWidth;
    forall i | 0 <= i < |r.objects| ensures Inside(r, world(r.objects[i])) {
      if i < |n.objects| {
        assert r.objects[i] == n.objects[i];
      } else {
        assert r.objects[i] == id;
      }
    }
  }

  /** Appending an accepted id keeps the invariant and adds the id to the contents. */
  lemma AppendValid(n: Node, id: ObjectId, world: World)
    requires Valid(n, world) && Inside(n, world(id))
    ensures Valid(n.(objects := n.objects + [id]), world)
    ensures Contents(n.(objects := n.objects + [id])) == Contents(n) + multiset{id}
  {
    AppendKeepsShape(n, id, world);
    AppendContents(n, id);
  }

  lemma AppendKeepsShape(n: Node, id: ObjectId, world: World)
    requires Valid(n, world) && Inside(n, world(id))
    ensures Valid(n.(objects := n.objects + [id]), world)
  {
    var r := n.(objects := n.objects + [id]);
    AppendInside(n, id, world);
    assert r.children == n.children;
    forall i | 0 <= i < |r.children| ensures IsQuadrant(r, i, r.children[i]) {
      assert IsQuadrant(n, i, n.children[i]);
    }
    ValidIntro(r, world);
  }

  lemma AppendContents(n: Node, id: ObjectId)
    ensures Contents(n.(objects := n.objects + [id])) == Contents(n) + multiset{id}
  {
    var r := n.(objects := n.objects + [id]);
    assert r.children == n.children;
    assert multiset(r.objects) == multiset(n.objects) + multiset{id};
  }

  /** `Insert` keeps the invariant, and a successful insertion adds exactly the new id
      to the subtree's contents: nothing is lost or duplicated, subdivision included. */
  lemma InsertKeepsInvariant(n: Node, world: World, id: ObjectId, room: nat)
    requires Valid(n, world)
    ensures Valid(NodeInsert(n, world, id, room).node, world)
    ensures NodeInsert(n, world, id, room).inserted ==>
      Contents(NodeInsert(n, world, id, room).node) == Contents(n) + multiset{id}
  {
    InsertValid(n, world, id, room);
    InsertContents(n, world, id, room);
  }

  /** Offering to the children keeps their invariant and, when one takes the object,
      adds exactly its id. */
  lemma OfferKeepsInvariant(cs: seq<Node>, world: World, id: ObjectId, room: nat)
    requires AllValid(cs, world)
    ensures AllValid(Offer(cs, world, id, room).children, world)
    ensures Offer(cs, world, id, room).taken ==>
      ContentsAll(Offer(cs, world, id, room).children) == ContentsAll(cs) + multiset{id}
  {
    OfferValid(cs, world, id, room);
    OfferContents(cs, world, id, room);
  }

  /** Subdivision yields a valid subtree holding exactly the former residents. */
  lemma CreateChildrenKeepsInvariant(n: Node, world: World, room: nat)
    requires room > 0
    requires forall i | 0 <= i < |n.objects| :: Inside(n, world(n.objects[i]))
    ensures Valid(CreateChildren(n, world, room), world)
    ensures Contents(CreateChildren(n, world, room)) == multiset(n.objects)
  {
    CreateChildrenValid(n, world, room);
    CreateChildrenContents(n, world, room);
  }

  /** Re-inserting objects the node accepts keeps the invariant and stores each once. */
  lemma ReinsertKeepsInvariant(n: Node, objs: seq<ObjectId>, world: World, room: nat)
    requires Valid(n, world)
    requires forall i | 0 <= i < |objs| :: Inside(n, world(objs[i]))
    ensures Valid(Reinsert(n, objs, world, room), world)
    ensures Contents(Reinsert(n, objs, world, room)) == Contents(n) + multiset(objs)
  {
    ReinsertValid(n, objs, world, room);
    ReinsertContents(n, objs, world, room);
  }

  /** The result of each re-insertion is ignored: an object that no longer passes
      `Inside` at the subdividing node (because its position in `world` moved since it
      was stored) is not re-inserted anywhere. Re-inserting only such objects leaves
      the node exactly as it was. */
  lemma {:induction false} ReinsertDropsStrays(n: Node, objs: seq<ObjectId>, world: World, room: nat)
    requires forall i | 0 <= i < |objs| :: !Inside(n, world(objs[i]))
    ensures Reinsert(n, objs, world, room) == n
    decreases |objs|
  {
    if objs != [] {
      assert !Inside(n, world(objs[0]));
      assert forall i | 0 <= i < |objs[1..]| :: !Inside(n, world(objs[1..][i])) by {
        forall i | 0 <= i < |objs[1..]| ensures !Inside(n, world(objs[1..][i])) {
          assert objs[1..][i] == objs[i + 1];
        }
      }
      ReinsertDropsStrays(n, objs[1..], world, room);
    }
  }

  /** Subdividing a node none of whose residents still passes `Inside` there loses them
      all: the node ends with four empty children and no residents. */
  lemma SubdivisionLosesStrays(n: Node, world: World, room: nat)
    requires room > 0
    requires forall i | 0 <= i < |n.objects| :: !Inside(n, world(n.objects[i]))
    ensures CreateChildren(n, world, room) == n.(children := Quadrants(n), divided := true, objects := [])
    ensures Contents(CreateChildren(n, world, room)) == multiset{}
  {
    var divided := n.(children := Quadrants(n), divided := true, objects := []);
    assert divided.position == n.position && divided.halfWidth == n.halfWidth;
    forall i | 0 <= i < |n.objects| ensures !Inside(divided, world(n.objects[i])) {
      assert !Inside(n, world(n.objects[i]));
    }
    ReinsertDropsStrays(divided, n.objects, world, room - 1);
    QuadrantsValid(n, world);
  }

  // The invariant half, by induction along the recursion of `NodeInsert`.

  lemma {:induction false} InsertValid(n: Node, world: World, id: ObjectId, room: nat)
    requires Valid(n, world)
    ensures Valid(NodeInsert(n, world, id, room).node, world)
    decreases room, Count(n), 2
  {
    if Inside(n, world(id)) {
      var offer := if n.children != [] then Offer(n.children, world, id, room) else OfferResult(n.children, false);
      if offer.taken {
        OfferValid(n.children, world, id, room);
        assert NodeInsert(n, world, id, room) == InsertResult(n.(children := offer.children), true);
        ReplaceChildrenValid(n, offer.children, world);
      } else {
        var appended := n.(objects := n.objects + [id]);
        AppendKeepsShape(n, id, world);
        if !appended.divided && |appended.objects| > Capacity && room > 0 {
          assert NodeInsert(n, world, id, room) == InsertResult(CreateChildren(appended, world, room), true);
          CreateChildrenValid(appended, world, room);
        } else {
          assert NodeInsert(n, world, id, room) == InsertResult(appended, true);
        }
      }
    }
  }

  lemma {:induction false} OfferValid(cs: seq<Node>, world: World, id: ObjectId, room: nat)
    requires AllValid(cs, world)
    ensures AllValid(Offer(cs, world, id, room).children, world)
    decreases room, CountAll(cs), 3
  {
    if cs != [] {
      var r := Offer(cs, world, id, room);
      var first := NodeInsert(cs[0], world, id, room);
      assert Valid(cs[0], world);
      AllValidTail(cs, world);
      InsertValid(cs[0], world, id, room);
      if first.inserted {
        assert r.children == [first.node] + cs[1..];
        AllValidCons(first.node, cs[1..], world);
      } else {
        var rest := Offer(cs[1..], world, id, room);
        OfferValid(cs[1..], world, id, room);
        assert r.children == [cs[0]] + rest.children;
        AllValidCons(cs[0], rest.children, world);
      }
    }
  }

  lemma {:induction false} CreateChildrenValid(n: Node, world: World, room: nat)
    requires room > 0
    ensures Valid(CreateChildren(n, world, room), world)
    decreases room, Count(n), 1
  {
    var divided := n.(children := Quadrants(n), divided := true, objects := []);
    SubdividedValid(n, divided, world);
    ReinsertValid(divided, n.objects, world, room - 1);
    assert CreateChildren(n, world, room) == Reinsert(divided, n.objects, world, room - 1);
  }

  lemma {:induction false} ReinsertValid(n: Node, objs: seq<ObjectId>, world: World, room: nat)
    requires Valid(n, world)
    ensures Valid(Reinsert(n, objs, world, room), world)
    decreases room + 1, 0, |objs|
  {
    if objs != [] {
      InsertValid(n, world, objs[0], room);
      ReinsertValid(NodeInsert(n, world, objs[0], room).node, objs[1..], world, room);
    }
  }

  // The contents half: every accepted object is stored exactly once.

  lemma {:induction false} InsertContents(n: Node, world: World, id: ObjectId, room: nat)
    requires Valid(n, world)
    ensures NodeInsert(n, world, id, room).inserted ==>
      Contents(NodeInsert(n, world, id, room).node) == Contents(n) + multiset{id}
    decreases room, Count(n), 2
  {
    if Inside(n, world(id)) {
      var offer := if n.children != [] then Offer(n.children, world, id, room) else OfferResult(n.children, false);
      if offer.taken {
        OfferContents(n.children, world, id, room);
        assert NodeInsert(n, world, id, room) == InsertResult(n.(children := offer.children), true);
      } else {
        var appended := n.(objects := n.objects + [id]);
        AppendContents(n, id);
        if !appended.divided && |appended.objects| > Capacity && room > 0 {
          assert NodeInsert(n, world, id, room) == InsertResult(CreateChildren(appended, world, room), true);
          AppendInside(n, id, world);
          CreateChildrenContents(appended, world, room);
        } else {
          assert NodeInsert(n, world, id, room) == InsertResult(appended, true);
        }
      }
    }
  }

  lemma {:induction false} OfferContents(cs: seq<Node>, world: World, id: ObjectId, room: nat)
    requires AllValid(cs, world)
    ensures Offer(cs, world, id, room).taken ==>
      ContentsAll(Offer(cs, world, id, room).children) == ContentsAll(cs) + multiset{id}
    decreases room, CountAll(cs), 3
  {
    if cs != [] {
      var r := Offer(cs, world, id, room);
      var first := NodeInsert(cs[0], world, id, room);
      assert Valid(cs[0], world);
      AllValidTail(cs, world);
      InsertContents(cs[0], world, id, room);
      assert ContentsAll(cs) == Contents(cs[0]) + ContentsAll(cs[1..]);
      if first.inserted {
        assert r.children == [first.node] + cs[1..];
        ContentsAllCons(first.node, cs[1..]);
      } else {
        var rest := Offer(cs[1..], world, id, room);
        OfferContents(cs[1..], world, id, room);
        assert r.children == [cs[0]] + rest.children;
        ContentsAllCons(cs[0], rest.children);
      }
    }
  }

  lemma {:induction false} CreateChildrenContents(n: Node, world: World, room: nat)
    requires room > 0
    requires forall i | 0 <= i < |n.objects| :: Inside(n, world(n.objects[i]))
    ensures Contents(CreateChildren(n, world, room)) == multiset(n.objects)
    decreases room, Count(n), 1
  {
    var divided := n.(children := Quadrants(n), divided := true, objects := []);
    SubdividedValid(n, divided, world);
    SameSquareInside(n, divided, n.objects, world);
    ReinsertContents(divided, n.objects, world, room - 1);
    var r := Reinsert(divided, n.objects, world, room - 1);
    assert CreateChildren(n, world, room) == r;
    assert Contents(r) == multiset{} + multiset(n.objects);
    assert multiset{} + multiset(n.objects) == multiset(n.objects);
  }

  /** A node with the same square accepts whatever the first node accepts. */
  lemma SameSquareInside(n: Node, m: Node, objs: seq<ObjectId>, world: World)
    requires m.position == n.position && m.halfWidth == n.halfWidth
    requires forall i | 0 <= i < |objs| :: Inside(n, world(objs[i]))
    ensures forall i | 0 <= i < |objs| :: Inside(m, world(objs[i]))
  {
  }

  lemma {:induction false} ReinsertContents(n: Node, objs: seq<ObjectId>, world: World, room: nat)
    requires Valid(n, world)
    requires forall i | 0 <= i < |objs| :: Inside(n, world(objs[i]))
    ensures Contents(Reinsert(n, objs, world, room)) == Contents(n) + multiset(objs)
    decreases room + 1, 0, |objs|
  {
    if objs != [] {
      var next := NodeInsert(n, world, objs[0], room).node;
      InsertValid(n, world, objs[0], room);
      InsertContents(n, world, objs[0], room);
      TailInside(n, next, objs, objs[1..], world);
      ReinsertContents(next, objs[1..], world, room);
      MultisetCons(objs);
    }
  }

  lemma QuadrantsValid(n: Node, world: World)
    ensures AllValid(Quadrants(n), world) && ContentsAll(Quadrants(n)) == multiset{}
    ensures forall i | 0 <= i < 4 :: IsQuadrant(n, i, Quadrants(n)[i])
  {
    var qs := Quadrants(n);
    assert ContentsAll(qs[3..]) == multiset{};
    assert ContentsAll(qs[2..]) == multiset{};
    assert ContentsAll(qs[1..]) == multiset{};
  }

  /** The freshly subdivided node, before re-insertion, satisfies the invariant and
      is empty. */
  lemma SubdividedValid(n: Node, d: Node, world: World)
    requires d == n.(children := Quadrants(n), divided := true, objects := [])
    ensures Valid(d, world) && Contents(d) == multiset{}
  {
    QuadrantsValid(n, world);
    forall i | 0 <= i < 4 ensures IsQuadrant(d, i, d.children[i]) {
      assert IsQuadrant(n, i, Quadrants(n)[i]);
    }
    ValidIntro(d, world);
  }

  /** A node with the same square accepts the rest of a list the first node accepted. */
  lemma TailInside(n: Node, m: Node, objs: seq<ObjectId>, rest: seq<ObjectId>, world: World)
    requires objs != [] && rest == objs[1..]
    requires m.position == n.position && m.halfWidth == n.halfWidth
    requires forall i | 0 <= i < |objs| :: Inside(n, world(objs[i]))
    ensures forall i | 0 <= i < |rest| :: Inside(m, world(rest[i]))
  {
    forall i | 0 <= i < |rest| ensures Inside(m, world(rest[i])) {
      assert rest[i] == objs[i + 1];
    }
  }

  lemma MultisetCons(objs: seq<ObjectId>)
    requires objs != []
    ensures multiset(objs) == multiset{objs[0]} + multiset(objs[1..])
  {
    assert objs == [objs[0]] + objs[1..];
  }

  lemma AllValidTail(cs: seq<Node>, world: World)
    requires cs != [] && AllValid(cs, world)
    ensures AllValid(cs[1..], world)
  {
    forall k | 0 <= k < |cs[1..]| ensures Valid(cs[1..][k], world) {
      assert cs[1..][k] == cs[k + 1];
    }
  }

  // ---------------------------------------------------------------------------
  // What an insertion does, node by node

  /** The first child in index order that accepts the object takes it; the others are
      returned unchanged. */
  lemma {:induction false} OfferFirstAcceptor(cs: seq<Node>, world: World, id: ObjectId, room: nat, k: nat)
    requires k < |cs| && Inside(cs[k], world(id))
    requires forall j | 0 <= j < k :: !Inside(cs[j], world(id))
    ensures Offer(cs, world, id, room).taken
    ensures Offer(cs, world, id, room).children == cs[k := NodeInsert(cs[k], world, id, room).node]
    decreases k
  {
    if k > 0 {
      assert !NodeInsert(cs[0], world, id, room).inserted;
      forall j | 0 <= j < k - 1 ensures !Inside(cs[1..][j], world(id)) {
        assert cs[1..][j] == cs[j + 1];
      }
      OfferFirstAcceptor(cs[1..], world, id, room, k - 1);
      ConsUpdate(cs[0], cs[1..], k - 1, NodeInsert(cs[k], world, id, room).node);
      assert [cs[0]] + cs[1..] == cs;
    } else {
      assert [NodeInsert(cs[0], world, id, room).node] + cs[1..] == cs[0 := NodeInsert(cs[0], world, id, room).node];
    }
  }

  lemma ConsUpdate<T>(x: T, s: seq<T>, k: nat, c: T)
    requires k < |s|
    ensures [x] + s[k := c] == ([x] + s)[k + 1 := c]
  {
  }

  /** When a child accepts the object, only that child changes: the node keeps its
      residents and flag, and an accepted object is stored in the first such child. */
  lemma DelegatedToFirstChild(n: Node, world: World, id: ObjectId, room: nat, k: nat)
    requires Inside(n, world(id))
    requires k < |n.children| && Inside(n.children[k], world(id))
    requires forall j | 0 <= j < k :: !Inside(n.children[j], world(id))
    ensures NodeInsert(n, world, id, room).node
         == n.(children := n.children[k := NodeInsert(n.children[k], world, id, room).node])
  {
    OfferFirstAcceptor(n.children, world, id, room, k);
  }

  /** When no child accepts an object the node accepts, it joins the end of the
      resident list (insertion order is kept), unless the node is a full leaf with
      room to subdivide. */
  lemma KeptAtNode(n: Node, world: World, id: ObjectId, room: nat)
    requires Inside(n, world(id))
    requires forall k | 0 <= k < |n.children| :: !Inside(n.children[k], world(id))
    requires n.divided || |n.objects| < Capacity || room == 0
    ensures NodeInsert(n, world, id, room).node == n.(objects := n.objects + [id])
  {
  }

  /** A leaf subdivides exactly when an accepted object would make it hold more than
      `Capacity` residents (and the budget allows); a divided node never subdivides again. */
  lemma SubdivisionRule(n: Node, world: World, id: ObjectId, room: nat)
    requires Valid(n, world)
    ensures NodeInsert(n, world, id, room).node.divided
        <==> n.divided || (Inside(n, world(id)) && |n.objects| >= Capacity && room > 0)
    ensures n.divided ==> |NodeInsert(n, world, id, room).node.children| == |n.children|
  {
    if !n.divided && Inside(n, world(id)) {
      var appended := n.(objects := n.objects + [id]);
      if !(|n.objects| >= Capacity && room > 0) {
        assert NodeInsert(n, world, id, room).node == appended;
      }
    }
  }

  // ---------------------------------------------------------------------------
  // Geometry

  /** An accepted object's square lies within the node's closed square. */
  lemma InsideWithinSquare(n: Node, o: QuadTreeObject)
    requires Inside(n, o) && o.halfWidth >= 0.0
    ensures Contains(n, o.position)
    ensures Contains(n, Vec2(o.position.x - o.halfWidth, o.position.y - o.halfWidth))
    ensures Contains(n, Vec2(o.position.x + o.halfWidth, o.position.y + o.halfWidth))
  {
  }

  /** An object at least as wide as the node is never accepted by it. */
  lemma TooLargeNeverInside(n: Node, o: QuadTreeObject)
    requires o.halfWidth >= n.halfWidth
    ensures !Inside(n, o)
  {
  }

  /** Whatever a child accepts, its parent accepts too (for a non-negative width): the
      strict tree only ever pushes an object down into a region containing it. */
  lemma QuadrantInsideParent(n: Node, i: nat, c: Node, o: QuadTreeObject)
    requires n.halfWidth >= 0.0 && IsQuadrant(n, i, c)
    requires Inside(c, o)
    ensures Inside(n, o)
  {
  }

  /** The four quadrants cover the parent's closed square, and each lies within it. */
  lemma QuadrantsTile(n: Node, p: Vec2)
    requires n.halfWidth >= 0.0
    ensures Contains(n, p) <==> exists i | 0 <= i < 4 :: Contains(Quadrants(n)[i], p)
  {
    var qs := Quadrants(n);
    if Contains(n, p) {
      var right := p.x >= n.position.x;
      var top := p.y >= n.position.y;
      var i := if !right && top then 0 else if right && top then 1 else if right then 2 else 3;
      assert Contains(qs[i], p);
    }
  }

  // ---------------------------------------------------------------------------
  // Point query

  /** Index of the first child whose closed square contains `p`, or `|cs|` if none does. */
  function FirstContaining(cs: seq<Node>, p: Vec2): (k: nat)
    ensures k <= |cs|
    ensures k < |cs| ==> Contains(cs[k], p)
    ensures forall j | 0 <= j < k :: !Contains(cs[j], p)
  {
    if cs == [] then 0
    else if Contains(cs[0], p) then 0
    else 1 + FirstContaining(cs[1..], p)
  }

  /** The nodes `SearchIntersected` appends: descend into the first child containing
      `p`, as long as there is one. */
  function Search(n: Node, p: Vec2): seq<Node>
    decreases n
  {
    var k := FirstContaining(n.children, p);
    if k == |n.children| then [] else [n.children[k]] + Search(n.children[k], p)
  }

  /** The search result is a descending path: it starts at the first child of `n`
      containing `p`, each further node is the first child of its predecessor that
      contains `p`, every node on it contains `p`, and it stops at a node none of whose
      children contains `p`. */
  lemma {:induction false} SearchIsDescent(n: Node, p: Vec2)
    ensures var s := Search(n, p);
      && (s == [] <==> forall j | 0 <= j < |n.children| :: !Contains(n.children[j], p))
      && (forall k | 0 <= k < |s| :: Contains(s[k], p))
      && (s != [] ==> s[0] == n.children[FirstContaining(n.children, p)])
      && (forall k | 0 <= k < |s| - 1 ::
            FirstContaining(s[k].children, p) < |s[k].children|
            && s[k + 1] == s[k].children[FirstContaining(s[k].children, p)])
      && (s != [] ==> FirstContaining(s[|s| - 1].children, p) == |s[|s| - 1].children|)
    decreases n
  {
    var k := FirstContaining(n.children, p);
    if k < |n.children| {
      var c := n.children[k];
      SearchIsDescent(c, p);
      var t := Search(c, p);
      var s := [c] + t;
      assert Search(n, p) == s;
      forall i | 0 <= i < |s| - 1
        ensures FirstContaining(s[i].children, p) < |s[i].children|
        ensures s[i + 1] == s[i].children[FirstContaining(s[i].children, p)]
      {
        if i == 0 {
          assert !(forall j | 0 <= j < |c.children| :: !Contains(c.children[j], p)) by {
            assert t != [];
          }
        } else {
          assert s[i] == t[i - 1] && s[i + 1] == t[i];
        }
      }
      if t != [] {
        assert s[|s| - 1] == t[|t| - 1];
      }
    }
  }

  /** The nodes the tree's `GetIntersected` appends: the root, whether or not it
      contains `p`, then the search below it. */
  function Intersected(root: Node, p: Vec2): seq<Node>
  {
    [root] + Search(root, p)
  }

  /** For a point outside a valid root the query still reports the root, and nothing
      else: the strict tree does not test the root itself. */
  lemma QueryOutsideRoot(root: Node, world: World, p: Vec2)
    requires Valid(root, world) && root.halfWidth >= 0.0 && !Contains(root, p)
    ensures Intersected(root, p) == [root]
  {
    forall j | 0 <= j < |root.children| ensures !Contains(root.children[j], p) {
      assert IsQuadrant(root, j, root.children[j]);
    }
  }

  // ---------------------------------------------------------------------------
  // Debug rendering

  /** The segments `Render` draws for a subtree: the node's outline, then each child's
      subtree in index order. */
  function Rendering(n: Node): seq<Segment>
    decreases n
  {
    Outline(n.position, n.halfWidth) + RenderingAll(n.children)
  }

  function RenderingAll(cs: seq<Node>): seq<Segment>
    decreases cs
  {
    if cs == [] then [] else RenderingAll(cs[..|cs| - 1]) + Rendering(cs[|cs| - 1])
  }

  /** The nodes of a subtree in pre-order: parent first, children in index order. */
  function Preorder(n: Node): seq<Node>
    decreases n
  {
    [n] + PreorderAll(n.children)
  }

  function PreorderAll(cs: seq<Node>): seq<Node>
    decreases cs
  {
    if cs == [] then [] else PreorderAll(cs[..|cs| - 1]) + Preorder(cs[|cs| - 1])
  }

  /** The outlines of a list of nodes, one after the other. */
  function Outlines(ns: seq<Node>): (r: seq<Segment>)
    ensures |r| == 4 * |ns|
  {
    if ns == [] then [] else Outlines(ns[..|ns| - 1]) + Outline(ns[|ns| - 1].position, ns[|ns| - 1].halfWidth)
  }

  lemma {:induction false} OutlinesAppend(a: seq<Node>, b: seq<Node>)
    ensures Outlines(a + b) == Outlines(a) + Outlines(b)
    decreases |b|
  {
    if b != [] {
      var m := |b| - 1;
      OutlinesAppend(a, b[..m]);
      assert (a + b)[..|a + b| - 1] == a + b[..m];
      assert (a + b)[|a + b| - 1] == b[m];
    } else {
      assert a + b == a;
    }
  }

  /** Rendering draws the outline of every node of the subtree exactly once, in
      pre-order. */
  lemma {:induction false} RenderingIsPreorder(n: Node)
    ensures Rendering(n) == Outlines(Preorder(n))
    decreases n, 1
  {
    RenderingAllIsPreorder(n.children);
    OutlinesAppend([n], PreorderAll(n.children));
    assert Outlines([n]) == Outline(n.position, n.halfWidth) by {
      assert [n][..0] == [];
    }
  }

  lemma {:induction false} RenderingAllIsPreorder(cs: seq<Node>)
    ensures RenderingAll(cs) == Outlines(PreorderAll(cs))
    decreases cs, 0
  {
    if cs != [] {
      var m := |cs| - 1;
      RenderingAllIsPreorder(cs[..m]);
      RenderingIsPreorder(cs[m]);
      OutlinesAppend(PreorderAll(cs[..m]), Preorder(cs[m]));
    }
  }

  lemma {:induction false} CountAllSnoc(cs: seq<Node>)
    requires cs != []
    ensures CountAll(cs) == CountAll(cs[..|cs| - 1]) + Count(cs[|cs| - 1])
  {
    if |cs| > 1 {
      CountAllSnoc(cs[1..]);
      assert cs[1..][..|cs[1..]| - 1] == cs[..|cs| - 1][1..];
    }
  }

  /** Pre-order lists each node of the subtree once: as many entries as nodes. */
  lemma {:induction false} PreorderCount(n: Node)
    ensures |Preorder(n)| == Count(n)
    ensures |Rendering(n)| == 4 * Count(n)
    decreases n, 1
  {
    PreorderAllCount(n.children);
    RenderingIsPreorder(n);
  }

  lemma {:induction false} PreorderAllCount(cs: seq<Node>)
    ensures |PreorderAll(cs)| == CountAll(cs)
    decreases cs, 0
  {
    if cs != [] {
      PreorderAllCount(cs[..|cs| - 1]);
      PreorderCount(cs[|cs| - 1]);
      CountAllSnoc(cs);
    }
  }

  // ---------------------------------------------------------------------------
  // The tree

  /** `QuadTree`: the world's size, the (unused) capacity field and the root node. */
  class QuadTree {
    var width: real
    var height: real
    var capacity: int
    var root: Node

    /** `QuadTree() = default`: the float and int members are left as they are; the
        model takes them, and the root's width, as zero. */
    constructor ()
      ensures width == 0.0 && height == 0.0 && capacity == 0
      ensures root == Leaf(Zero(), 0.0)
    {
      width, height, capacity := 0.0, 0.0, 0;
      root := Leaf(Zero(), 0.0);
    }

    /** `Init`: the root becomes the square `[0, aWidth]` on both axes; `aHeight` is only
        recorded. Residents and children of the root are not touched. */
    method Init(aWidth: real, aHeight: real)
      modifies this
      ensures width == aWidth && height == aHeight && capacity == 4
      ensures root == old(root).(position := Vec2(aWidth * 0.5, aWidth * 0.5), halfWidth := aWidth * 0.5)
      ensures Contains(root, Vec2(0.0, 0.0)) <==> aWidth >= 0.0
    {
      width := aWidth;
      height := aHeight;
      capacity := 4;
      root := root.(halfWidth := width * 0.5);
      root := root.(position := root.position.(x := root.halfWidth));
      root := root.(position := root.position.(y := root.halfWidth));
    }

    /** `Insert`: the root's insertion, result discarded. */
    method Insert(world: World, id: ObjectId)
      modifies this`root
      ensures root == NodeInsert(old(root), world, id, SubdivisionBudget).node
      ensures !Inside(old(root), world(id)) ==> root == old(root)
      ensures Valid(old(root), world) ==> Valid(root, world)
      ensures Valid(old(root), world) && Inside(old(root), world(id)) ==>
        Contents(root) == Contents(old(root)) + multiset{id}
    {
      if Valid(root, world) {
        InsertKeepsInvariant(root, world, id, SubdivisionBudget);
      }
      root := NodeInsert(root, world, id, SubdivisionBudget).node;
    }

    /** `GetIntersected`: appends the root, then the nodes `SearchIntersected` finds. */
    method GetIntersected(p: Vec2, out: seq<Node>) returns (r: seq<Node>)
      ensures r == out + Intersected(root, p)
    {
      r := out + [root];
      r := SearchIntersected(root, p, r);
    }

    /** `SearchIntersected`: follows the first child containing `p`, recursively. */
    method SearchIntersected(node: Node, p: Vec2, out: seq<Node>) returns (r: seq<Node>)
      ensures r == out + Search(node, p)
      decreases node
    {
      r := out;
      var i := 0;
      while i < |node.children|
        invariant 0 <= i <= |node.children|
        invariant forall j | 0 <= j < i :: !Contains(node.children[j], p)
        invariant r == out
      {
        var child := node.children[i];
        if Contains(child, p) {
          assert FirstContaining(node.children, p) == i;
          r := r + [child];
          r := SearchIntersected(child, p, r);
          return;
        }
        i := i + 1;
      }
    }

    /** `Render(aDebugDrawer)`: the drawer's line list grows by the whole tree's rendering. */
    method Render(drawn: seq<Segment>) returns (r: seq<Segment>)
      ensures r == drawn + Rendering(root)
    {
      r := RenderNode(drawn, root);
    }

    /** `Render(aDebugDrawer, aNode)`: four `DrawLine` calls, then each child. */
    method RenderNode(drawn: seq<Segment>, node: Node) returns (r: seq<Segment>)
      ensures r == drawn + Rendering(node)
      decreases node
    {
      var minX := node.position.x - node.halfWidth;
      var minY := node.position.y - node.halfWidth;
      var maxX := node.position.x + node.halfWidth;
      var maxY := node.position.y + node.halfWidth;
      r := drawn;
      r := r + [Segment(Vec2(minX, maxY), Vec2(maxX, maxY))];
      r := r + [Segment(Vec2(maxX, maxY), Vec2(maxX, minY))];
      r := r + [Segment(Vec2(maxX, minY), Vec2(minX, minY))];
      r := r + [Segment(Vec2(minX, minY), Vec2(minX, maxY))];
      var i := 0;
      while i < |node.children|
        invariant 0 <= i <= |node.children|
        invariant r == drawn + Outline(node.position, node.halfWidth) + RenderingAll(node.children[..i])
      {
        assert node.children[..i + 1][..i] == node.children[..i];
        r := RenderNode(r, node.children[i]);
        i := i + 1;
      }
      assert node.children[..i] == node.children;
    }
  }
}
