/**
 * The A* search of `AStar` over an abstract grid: the Manhattan heuristic, the
 * cost ordering of the frontier, the relaxation of a cell's neighbours and the
 * walk back along the recorded parents.
 *
 * The grid is not part of this model: its neighbour list and its walkable test
 * are parameters. Hash maps are Dafny maps and the priority queue is a
 * sequence (the order the cells were pushed in).
 */
module AStar {

  datatype GridLocation = GridLocation(x: int, y: int)

  /** `GridLocation()`: value-initialised coordinates. */
  function DefaultLocation(): (l: GridLocation)
    ensures l.x == 0 && l.y == 0
  {
    GridLocation(0, 0)
  }

  /** `GridLocation::operator==`: componentwise. */
  predicate SameLocation(a: GridLocation, b: GridLocation)
  {
    a.x == b.x && a.y == b.y
  }

  /** Componentwise equality is equality of locations. */
  lemma SameLocationIsEquality(a: GridLocation, b: GridLocation)
    ensures SameLocation(a, b) <==> a == b
  {
  }

  /** `abs` on an `int`. */
  function IntAbs(i: int): (a: int)
    ensures a >= 0 && (a == i || a == -i)
  {
    if i < 0 then -i else i
  }

  /** `Heuristic`: the Manhattan distance. It is zero exactly between equal locations. */
  function Heuristic(a: GridLocation, b: GridLocation): (h: int)
    ensures h >= 0
    ensures h == 0 <==> a == b
  {
    IntAbs(a.x - b.x) + IntAbs(a.y - b.y)
  }

  /** The heuristic is symmetric and satisfies the triangle inequality. */
  lemma HeuristicIsMetric(a: GridLocation, b: GridLocation, c: GridLocation)
    ensures Heuristic(a, b) == Heuristic(b, a)
    ensures Heuristic(a, c) <= Heuristic(a, b) + Heuristic(b, c)
  {
  }

  /** A step to any cell at most one away (one of the four grid neighbours, or the
      cell itself) changes the heuristic by at most one, in either direction: the
      heuristic is consistent with the unit step cost `FindPath` charges. */
  lemma HeuristicNeighbour(a: GridLocation, b: GridLocation, goal: GridLocation)
    requires Heuristic(a, b) <= 1
    ensures Heuristic(b, goal) <= Heuristic(a, goal) + 1
    ensures Heuristic(a, goal) <= Heuristic(b, goal) + 1
  {
    HeuristicIsMetric(b, a, goal);
    HeuristicIsMetric(a, b, goal);
  }

  /** `CellCost`. */
  datatype CellCost = CellCost(gCost: int, hCost: int, location: GridLocation)
  {
    /** `Cost()`. */
    function Cost(): int
    {
      gCost + hCost
    }
  }

  /** `CellCost::operator<`: reversed on cost, so that the queue's top is the cheapest. */
  predicate Less(a: CellCost, b: CellCost)
  {
    a.Cost() > b.Cost()
  }

  /** `operator<` is a strict weak order: irreflexive, transitive, and cells of equal
      cost are exactly the incomparable ones. */
  lemma LessIsStrictWeakOrder(a: CellCost, b: CellCost, c: CellCost)
    ensures !Less(a, a)
    ensures Less(a, b) && Less(b, c) ==> Less(a, c)
    ensures !Less(a, b) && !Less(b, a) <==> a.Cost() == b.Cost()
    ensures !Less(a, b) && !Less(b, a) && !Less(b, c) && !Less(c, b) ==> !Less(a, c) && !Less(c, a)
  {
  }

  /** The top of a `std::priority_queue` is an element no other element is greater
      than under `operator<`; under this ordering that is an element of least cost. */
  lemma TopIsCheapest(q: seq<CellCost>, k: nat)
    requires k < |q|
    ensures (forall j | 0 <= j < |q| :: !Less(q[k], q[j])) <==> (forall j | 0 <= j < |q| :: q[k].Cost() <= q[j].Cost())
  {
  }

  /** The three containers of `FindPath`. */
  datatype Search = Search(
    frontier: seq<CellCost>,
    path: map<GridLocation, GridLocation>,
    costSoFar: map<GridLocation, int>)

  /** `l` is a neighbour the relaxation may record. */
  predicate Candidate(l: GridLocation, neighbours: seq<GridLocation>, walkable: GridLocation -> bool)
  {
    l in neighbours && walkable(l)
  }

  /** One pass of the `for` loop of `FindPath` over the neighbour `next` of `current`:
      a walkable neighbour not yet recorded, or recorded at a higher cost than
      `current.gCost + 1` plus its heuristic, gets that cost, is pushed, and gets
      `current` as its parent. */
  function Visit(s: Search, current: CellCost, goal: GridLocation, next: GridLocation,
                 walkable: GridLocation -> bool): Search
  {
    if !walkable(next) then s
    else
      var tentativeGCost := current.gCost + 1;
      var heuristicCost := Heuristic(next, goal);
      if next !in s.costSoFar || tentativeGCost + heuristicCost < s.costSoFar[next] then
        Search(s.frontier + [CellCost(tentativeGCost, heuristicCost, next)],
               s.path[next := current.location],
               s.costSoFar[next := tentativeGCost + heuristicCost])
      else s
  }

  /** The whole `for` loop: the neighbours visited in order. */
  function VisitAll(s: Search, current: CellCost, goal: GridLocation, neighbours: seq<GridLocation>,
                    walkable: GridLocation -> bool): Search
  {
    if neighbours == [] then s
    else Visit(VisitAll(s, current, goal, neighbours[..|neighbours| - 1], walkable),
               current, goal, neighbours[|neighbours| - 1], walkable)
  }

  /** The relaxation of the neighbours of `current`, as `FindPath` runs it. */
  method Relax(s: Search, current: CellCost, goal: GridLocation,
               neighbours: seq<GridLocation>, walkable: GridLocation -> bool) returns (r: Search)
    ensures r == VisitAll(s, current, goal, neighbours, walkable)
  {
    r := s;
    var tentativeGCost := current.gCost + 1;
    var i := 0;
    while i < |neighbours|
      invariant 0 <= i <= |neighbours|
      invariant r == VisitAll(s, current, goal, neighbours[..i], walkable)
    {
      var next := neighbours[i];
      assert neighbours[..i + 1][..i] == neighbours[..i];
      if !walkable(next) {
        i := i + 1;
        continue;
      }
      var heuristicCost := Heuristic(next, goal);
      if next !in r.costSoFar || tentativeGCost + heuristicCost < r.costSoFar[next] {
        r := r.(costSoFar := r.costSoFar[next := tentativeGCost + heuristicCost]);
        r := r.(frontier := r.frontier + [CellCost(tentativeGCost, heuristicCost, next)]);
        r := r.(path := r.path[next := current.location]);
      }
      i := i + 1;
    }
    assert neighbours[..i] == neighbours;
  }

  /** Only walkable neighbours are ever recorded or given a parent; every other cell
      keeps its entries. */
  lemma {:induction false} RelaxTouchesOnlyWalkableNeighbours(s: Search, current: CellCost, goal: GridLocation,
      neighbours: seq<GridLocation>, walkable: GridLocation -> bool, l: GridLocation)
    requires !Candidate(l, neighbours, walkable)
    ensures var r := VisitAll(s, current, goal, neighbours, walkable);
      && (l in r.costSoFar <==> l in s.costSoFar) && (l in r.path <==> l in s.path)
      && (l in s.costSoFar ==> r.costSoFar[l] == s.costSoFar[l])
      && (l in s.path ==> r.path[l] == s.path[l])
  {
    if neighbours != [] {
      var m := |neighbours| - 1;
      assert !Candidate(l, neighbours[..m], walkable) by {
        if l in neighbours[..m] {
          var k :| 0 <= k < m && neighbours[..m][k] == l;
          assert neighbours[k] == l;
        }
      }
      RelaxTouchesOnlyWalkableNeighbours(s, current, goal, neighbours[..m], walkable, l);
    }
  }

  /** A recorded cost is only ever replaced by a strictly smaller one: the cost of the
      way through `current`, and the parent is then `current`. A parent changes only
      together with the cost. */
  lemma {:induction false} RelaxOnlyImproves(s: Search, current: CellCost, goal: GridLocation,
      neighbours: seq<GridLocation>, walkable: GridLocation -> bool, l: GridLocation)
    ensures var r := VisitAll(s, current, goal, neighbours, walkable);
      && (l in s.costSoFar ==> l in r.costSoFar && r.costSoFar[l] <= s.costSoFar[l])
      && (l in s.path ==> l in r.path)
      && (l in r.costSoFar && (l !in s.costSoFar || r.costSoFar[l] != s.costSoFar[l]) ==>
            && r.costSoFar[l] == current.gCost + 1 + Heuristic(l, goal)
            && (l in s.costSoFar ==> r.costSoFar[l] < s.costSoFar[l])
            && l in r.path && r.path[l] == current.location)
      && (l in r.path && (l !in s.path || r.path[l] != s.path[l]) ==>
            r.path[l] == current.location && l in r.costSoFar
            && (l !in s.costSoFar || r.costSoFar[l] < s.costSoFar[l]))
  {
    if neighbours != [] {
      RelaxOnlyImproves(s, current, goal, neighbours[..|neighbours| - 1], walkable, l);
    }
  }

  /** After the relaxation no walkable neighbour is recorded at more than the cost of
      the way through `current`. */
  lemma {:induction false} RelaxBoundsNeighbours(s: Search, current: CellCost, goal: GridLocation,
      neighbours: seq<GridLocation>, walkable: GridLocation -> bool, l: GridLocation)
    requires Candidate(l, neighbours, walkable)
    ensures var r := VisitAll(s, current, goal, neighbours, walkable);
      l in r.costSoFar && r.costSoFar[l] <= current.gCost + 1 + Heuristic(l, goal)
  {
    var m := |neighbours| - 1;
    var prefix := VisitAll(s, current, goal, neighbours[..m], walkable);
    if neighbours[m] != l {
      assert Candidate(l, neighbours[..m], walkable) by {
        var k :| 0 <= k < |neighbours| && neighbours[k] == l;
        assert neighbours[..m][k] == l;
      }
      RelaxBoundsNeighbours(s, current, goal, neighbours[..m], walkable, l);
    }
    RelaxOnlyImproves(prefix, current, goal, [neighbours[m]], walkable, l);
    assert [neighbours[m]][..0] == [];
  }

  /** Pushes go behind what the frontier already held; each pushed cell is a walkable
      neighbour with the cost of the way through `current`. */
  lemma {:induction false} RelaxPushesBehind(s: Search, current: CellCost, goal: GridLocation,
      neighbours: seq<GridLocation>, walkable: GridLocation -> bool)
    ensures var r := VisitAll(s, current, goal, neighbours, walkable);
      && |s.frontier| <= |r.frontier| && r.frontier[..|s.frontier|] == s.frontier
      && forall k | |s.frontier| <= k < |r.frontier| ::
           && Candidate(r.frontier[k].location, neighbours, walkable)
           && r.frontier[k].gCost == current.gCost + 1
           && r.frontier[k].hCost == Heuristic(r.frontier[k].location, goal)
  {
    if neighbours != [] {
      var m := |neighbours| - 1;
      RelaxPushesBehind(s, current, goal, neighbours[..m], walkable);
      var prefix := VisitAll(s, current, goal, neighbours[..m], walkable);
      var r := VisitAll(s, current, goal, neighbours, walkable);
      assert r.frontier[..|s.frontier|] == prefix.frontier[..|s.frontier|];
      forall k | |s.frontier| <= k < |r.frontier|
        ensures Candidate(r.frontier[k].location, neighbours, walkable)
      {
        if k < |prefix.frontier| {
          assert r.frontier[k] == prefix.frontier[k];
          var l := r.frontier[k].location;
          var j :| 0 <= j < m && neighbours[..m][j] == l;
          assert neighbours[j] == l;
        }
      }
    }
  }

  /** The parents are well founded: following a recorded parent that is itself recorded
      and is not a self-parent always lowers the rank. */
  predicate Ranked(path: map<GridLocation, GridLocation>, rank: map<GridLocation, nat>)
  {
    forall k | k in path :: k in rank && (path[k] != k && path[k] in path ==> path[k] in rank && rank[path[k]] < rank[k])
  }

  /** The locations `BuildPath` collects from `loc`: its parent, the parent's parent,
      and so on, until a location without a parent or with itself as parent. */
  function Chain(path: map<GridLocation, GridLocation>, loc: GridLocation, rank: map<GridLocation, nat>): seq<GridLocation>
    requires Ranked(path, rank)
    decreases if loc in path then rank[loc] + 1 else 0
  {
    if loc !in path || path[loc] == loc then []
    else [path[loc]] + Chain(path, path[loc], rank)
  }

  /** The chain is the walk along the parent links: it is empty exactly when `loc` has
      no parent other than itself, starts at the parent of `loc`, each element is the
      parent of the one before, and the last has no parent other than itself. */
  lemma {:induction false} ChainFollowsParents(path: map<GridLocation, GridLocation>, loc: GridLocation, rank: map<GridLocation, nat>)
    requires Ranked(path, rank)
    ensures var c := Chain(path, loc, rank);
      && (c == [] <==> loc !in path || path[loc] == loc)
      && (c != [] ==> c[0] == path[loc])
      && (forall i | 0 <= i < |c| - 1 :: c[i] in path && c[i + 1] == path[c[i]])
      && (c != [] ==> c[|c| - 1] !in path || path[c[|c| - 1]] == c[|c| - 1])
    decreases if loc in path then rank[loc] + 1 else 0
  {
    if loc in path && path[loc] != loc {
      var next := path[loc];
      ChainFollowsParents(path, next, rank);
      var t := Chain(path, next, rank);
      var c := [next] + t;
      assert Chain(path, loc, rank) == c;
      forall i | 0 <= i < |c| - 1 ensures c[i] in path && c[i + 1] == path[c[i]] {
        if i > 0 {
          assert c[i] == t[i - 1] && c[i + 1] == t[i];
        }
      }
      if t != [] {
        assert c[|c| - 1] == t[|t| - 1];
      }
    }
  }

  /** `BuildPath`: collects the parent chain of the goal and drops its last element
      (for a search from a start cell, the start itself). The `erase` is undefined on
      an empty vector, so the goal must have a parent other than itself. */
  method BuildPath(path: map<GridLocation, GridLocation>, goal: GridLocation, ghost rank: map<GridLocation, nat>)
    returns (r: seq<GridLocation>)
    requires Ranked(path, rank)
    requires goal in path && path[goal] != goal
    ensures |Chain(path, goal, rank)| > 0
    ensures r == Chain(path, goal, rank)[..|Chain(path, goal, rank)| - 1]
  {
    r := [];
    var it := goal;
    while it in path
      invariant r + Chain(path, it, rank) == Chain(path, goal, rank)
      decreases if it in path then rank[it] + 1 else 0
    {
      if it == path[it] {
        break;
      }
      r := r + [path[it]];
      it := path[it];
    }
    r := r[..|r| - 1];
  }

  /** `FindPath`: the three containers start empty and the start cell is never pushed,
      so `while (!frontier.empty())` is never entered and the result is always the
      empty "no path". */
  method FindPath(neighbours: GridLocation -> seq<GridLocation>, walkable: GridLocation -> bool,
                  start: GridLocation, goal: GridLocation) returns (r: seq<GridLocation>)
    ensures r == []
  {
    var search := Search([], map[], map[]);
    // The loop guard `search.frontier != []` is false here.
    r := [];
  }
}
