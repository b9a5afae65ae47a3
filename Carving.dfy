/**
  The shape of what the carver marks, stated over the sequence of branches it
  has taken.

  Every time the carver takes a branch it goes from a node it has reached,
  along one unit step, to the node two steps away, and marks that node and the
  wall cell between. An `Edge` records one such branch; the node cells reached
  are the start cell plus the target of every edge, and the wall cells are the
  middle cell of every edge. The lemmas below show that this lattice keeps its
  parity, that every branch marks two cells that were unmarked, and that the
  carved passages form a tree rooted at the start cell.
 */
module Carving {
  import opened Directions

  /** A grid position (row, col). */
  type Cell = (int, int)

  /** The cell the carve starts from. */
  const Root: Cell := (0, 0)

  /** One branch taken by the carver: from node `from` along the unit step `dir`. */
  datatype Edge = Edge(from: Cell, dir: Dir)

  /** The wall cell the branch marks, one step from its node. */
  function Wall(e: Edge): (w: Cell) {
    (e.from.0 + e.dir.0, e.from.1 + e.dir.1)
  }

  /** The node cell the branch reaches, two steps from its node. */
  function Child(e: Edge): (c: Cell) {
    (e.from.0 + 2 * e.dir.0, e.from.1 + 2 * e.dir.1)
  }

  predicate Even(n: int) {
    n % 2 == 0
  }

  /** A node coordinate moves by two to another even one and by one to an odd one. */
  lemma EvenStep(n: int, d: int)
    requires Even(n) && -1 <= d <= 1
    ensures Even(n + 2 * d)
    ensures d != 0 ==> !Even(n + d)
  {
    assert n == 2 * (n / 2);
    assert n + 2 * d == 2 * (n / 2 + d);
  }

  /** The node cells reached by the branches es: the start cell and every branch's target. */
  ghost function Nodes(es: seq<Edge>): (ns: set<Cell>)
    decreases |es|
  {
    if es == [] then {Root} else Nodes(es[..|es| - 1]) + {Child(es[|es| - 1])}
  }

  /** The wall cells opened by the branches es. */
  ghost function Walls(es: seq<Edge>): (ws: set<Cell>)
    decreases |es|
  {
    if es == [] then {} else Walls(es[..|es| - 1]) + {Wall(es[|es| - 1])}
  }

  /**
    A carve that grows a tree from (0, 0): each branch leaves a node already
    reached, along a unit step, to a node not reached before. Any order that
    grows a tree this way qualifies; the depth-first order the carver takes
    its branches in is one of them.
   */
  ghost predicate Carved(es: seq<Edge>)
    decreases |es|
  {
    es == [] ||
    (var prefix, e := es[..|es| - 1], es[|es| - 1];
     Carved(prefix) && IsUnit(e.dir) && e.from in Nodes(prefix) && Child(e) !in Nodes(prefix))
  }

  /**
    The cells a carve has marked: nothing before the first visit, afterwards
    exactly the nodes and walls its branches reached.
   */
  ghost predicate Shaped(marked: set<Cell>, es: seq<Edge>) {
    Carved(es) && if marked == {} then es == [] else marked == Nodes(es) + Walls(es)
  }

  /** Appending a branch: how the reached cells grow, and when the log stays a carve. */
  lemma Extend(es: seq<Edge>, e: Edge)
    ensures Nodes(es + [e]) == Nodes(es) + {Child(e)}
    ensures Walls(es + [e]) == Walls(es) + {Wall(e)}
    ensures Carved(es + [e]) <==>
              Carved(es) && IsUnit(e.dir) && e.from in Nodes(es) && Child(e) !in Nodes(es)
  {
    assert (es + [e])[..|es|] == es;
  }

  /**
    Taking a branch from a reached node to an unmarked node keeps the marked
    cells the nodes and walls of the carve.
   */
  lemma ShapedExtend(marked: set<Cell>, es: seq<Edge>, e: Edge)
    requires Shaped(marked, es) && marked != {}
    requires e.from in Nodes(es) && IsUnit(e.dir) && Child(e) !in marked
    ensures Shaped(marked + {Child(e), Wall(e)}, es + [e])
    ensures Nodes(es) <= Nodes(es + [e]) && Child(e) in Nodes(es + [e])
  {
    Extend(es, e);
  }

  /** Visiting a node of the carve keeps the marked cells the nodes and walls of the carve. */
  lemma ShapedVisit(marked: set<Cell>, es: seq<Edge>, c: Cell)
    requires Shaped(marked, es) && c in Nodes(es)
    ensures Shaped(marked + {c}, es)
  {
  }

  /**
    The parity lattice: every node cell has two even coordinates, every wall
    cell exactly one odd coordinate, so no reached cell has two odd coordinates
    and no cell is both a node and a wall.
   */
  lemma {:induction false} Lattice(es: seq<Edge>)
    requires Carved(es)
    ensures forall c :: c in Nodes(es) ==> Even(c.0) && Even(c.1)
    ensures forall c :: c in Walls(es) ==> Even(c.0) != Even(c.1)
    ensures Nodes(es) !! Walls(es)
    decreases |es|
  {
    if es != [] {
      var prefix, e := es[..|es| - 1], es[|es| - 1];
      Lattice(prefix);
      assert Even(e.from.0) && Even(e.from.1);
      EvenStep(e.from.0, e.dir.0);
      EvenStep(e.from.1, e.dir.1);
    }
  }

  /**
    A wall cell lies between two reached nodes: along its odd axis, the cells on
    either side of it are both node cells.
   */
  lemma {:induction false} WallFlanked(es: seq<Edge>)
    requires Carved(es)
    ensures Flanked(Nodes(es), Walls(es))
    decreases |es|
  {
    if es != [] {
      var prefix, e := es[..|es| - 1], es[|es| - 1];
      WallFlanked(prefix);
      assert Even(e.from.0) && Even(e.from.1) by {
        Lattice(prefix);
      }
      Extend(prefix, e);
      assert es == prefix + [e];
      FlankedStep(Nodes(prefix), Walls(prefix), e);
    }
  }

  /** Along its odd axis, the cells on either side of every wall are node cells. */
  ghost predicate Flanked(nodes: set<Cell>, walls: set<Cell>) {
    (forall w :: w in walls && !Even(w.0) ==> (w.0 - 1, w.1) in nodes && (w.0 + 1, w.1) in nodes) &&
    (forall w :: w in walls && !Even(w.1) ==> (w.0, w.1 - 1) in nodes && (w.0, w.1 + 1) in nodes)
  }

  /** A branch from an even node keeps every wall flanked by nodes. */
  lemma FlankedStep(nodes: set<Cell>, walls: set<Cell>, e: Edge)
    requires Flanked(nodes, walls) && e.from in nodes
    requires IsUnit(e.dir) && Even(e.from.0) && Even(e.from.1)
    ensures Flanked(nodes + {Child(e)}, walls + {Wall(e)})
  {
    WallBetween(e);
  }

  /** The wall of a branch from an even node lies between its node and its target. */
  lemma WallBetween(e: Edge)
    requires IsUnit(e.dir) && Even(e.from.0) && Even(e.from.1)
    ensures var w := Wall(e); !Even(w.0) ==>
              ((w.0 - 1, w.1) == e.from || (w.0 - 1, w.1) == Child(e)) &&
              ((w.0 + 1, w.1) == e.from || (w.0 + 1, w.1) == Child(e))
    ensures var w := Wall(e); !Even(w.1) ==>
              ((w.0, w.1 - 1) == e.from || (w.0, w.1 - 1) == Child(e)) &&
              ((w.0, w.1 + 1) == e.from || (w.0, w.1 + 1) == Child(e))
  {
    EvenStep(e.from.0, e.dir.0);
    EvenStep(e.from.1, e.dir.1);
  }

  /**
    The wall a new branch marks was not marked before: it is not a node (it has
    an odd coordinate) and not an earlier wall (the nodes flanking an earlier
    wall are both reached, but this branch's target is not).
   */
  lemma FreshWall(es: seq<Edge>, e: Edge)
    requires Carved(es) && IsUnit(e.dir) && e.from in Nodes(es) && Child(e) !in Nodes(es)
    ensures Wall(e) !in Nodes(es) + Walls(es)
    ensures Child(e) !in Nodes(es) + Walls(es)
    ensures Wall(e) != Child(e)
  {
    Lattice(es);
    WallFlanked(es);
    FreshCells(Nodes(es), Walls(es), e);
  }

  /** FreshWall over the sets themselves, given the lattice and flanking facts. */
  lemma FreshCells(nodes: set<Cell>, walls: set<Cell>, e: Edge)
    requires forall c :: c in nodes ==> Even(c.0) && Even(c.1)
    requires forall c :: c in walls ==> Even(c.0) != Even(c.1)
    requires Flanked(nodes, walls)
    requires IsUnit(e.dir) && e.from in nodes && Child(e) !in nodes
    ensures Wall(e) !in nodes + walls && Child(e) !in nodes + walls && Wall(e) != Child(e)
  {
    assert Even(e.from.0) && Even(e.from.1);
    EvenStep(e.from.0, e.dir.0);
    EvenStep(e.from.1, e.dir.1);
    WallBetween(e);
  }

  /**
    Each branch turns exactly two unmarked cells into marked ones, so a carve of
    n branches marks 2n + 1 cells: n + 1 nodes and n walls.
   */
  lemma {:induction false} CellCount(es: seq<Edge>)
    requires Carved(es)
    ensures |Nodes(es)| == |es| + 1 && |Walls(es)| == |es|
    ensures |Nodes(es) + Walls(es)| == 2 * |es| + 1
    decreases |es|
  {
    Lattice(es);
    if es != [] {
      var prefix, e := es[..|es| - 1], es[|es| - 1];
      CellCount(prefix);
      FreshWall(prefix, e);
    }
  }

  /** Every branch's target is a node cell. */
  lemma {:induction false} ChildrenReached(es: seq<Edge>)
    ensures forall i :: 0 <= i < |es| ==> Child(es[i]) in Nodes(es) && Wall(es[i]) in Walls(es)
    decreases |es|
  {
    if es != [] {
      var prefix := es[..|es| - 1];
      ChildrenReached(prefix);
      forall i | 0 <= i < |es| - 1
        ensures Child(es[i]) in Nodes(es) && Wall(es[i]) in Walls(es)
      {
        assert es[i] == prefix[i];
      }
    }
  }

  /**
    No node is reached twice and no wall is opened twice: each node other than
    the start is the target of exactly one branch (its parent link), never the
    start, and each wall cell belongs to exactly one branch.
   */
  lemma {:induction false} UniqueParent(es: seq<Edge>)
    requires Carved(es)
    ensures forall i :: 0 <= i < |es| ==> Child(es[i]) != Root
    ensures forall i, j :: 0 <= i < j < |es| ==> Child(es[i]) != Child(es[j])
    ensures forall i, j :: 0 <= i < j < |es| ==> Wall(es[i]) != Wall(es[j])
    decreases |es|
  {
    if es != [] {
      var prefix, e := es[..|es| - 1], es[|es| - 1];
      UniqueParent(prefix);
      ChildrenReached(prefix);
      FreshWall(prefix, e);
      assert Root in Nodes(prefix) by {
        RootReached(prefix);
      }
      forall i, j | 0 <= i < j < |es|
        ensures Child(es[i]) != Child(es[j]) && Wall(es[i]) != Wall(es[j])
      {
        if j < |es| - 1 {
          assert es[i] == prefix[i] && es[j] == prefix[j];
        } else {
          assert es[i] == prefix[i];
        }
      }
    }
  }

  lemma {:induction false} RootReached(es: seq<Edge>)
    ensures Root in Nodes(es)
    decreases |es|
  {
    if es != [] {
      RootReached(es[..|es| - 1]);
    }
  }

  /** Branches are only ever appended, so an earlier log reaches fewer cells. */
  lemma {:induction false} Grow(es: seq<Edge>, k: nat)
    requires k <= |es|
    ensures Nodes(es[..k]) <= Nodes(es) && Walls(es[..k]) <= Walls(es)
    ensures Carved(es) ==> Carved(es[..k])
    decreases |es| - k
  {
    if k < |es| {
      var prefix := es[..|es| - 1];
      Grow(prefix, k);
      assert prefix[..k] == es[..k];
    } else {
      assert es[..k] == es;
    }
  }

  /** b lies two steps from a along one axis, and the wall cell between them is open. */
  ghost predicate Linked(es: seq<Edge>, a: Cell, b: Cell) {
    var d := ((b.0 - a.0) / 2, (b.1 - a.1) / 2);
    IsUnit(d) && b == (a.0 + 2 * d.0, a.1 + 2 * d.1) && (a.0 + d.0, a.1 + d.1) in Walls(es)
  }

  /** A passage from the start cell through reached nodes and open walls. */
  ghost predicate IsPath(es: seq<Edge>, p: seq<Cell>) {
    |p| >= 1 && p[0] == Root &&
    (forall i :: 0 <= i < |p| ==> p[i] in Nodes(es)) &&
    (forall i :: 0 <= i < |p| - 1 ==> Linked(es, p[i], p[i + 1]))
  }

  /**
    The carved passages are connected: every reached node can be walked to from
    the start cell. With n + 1 nodes joined by n walls (CellCount) this makes
    the passages a spanning tree of the reached nodes.
   */
  lemma {:induction false} PathTo(es: seq<Edge>, c: Cell) returns (p: seq<Cell>)
    requires Carved(es) && c in Nodes(es)
    ensures IsPath(es, p) && p[|p| - 1] == c
    decreases |es|
  {
    if es == [] {
      p := [Root];
    } else {
      var prefix, e := es[..|es| - 1], es[|es| - 1];
      Extend(prefix, e);
      assert es == prefix + [e];
      if c in Nodes(prefix) {
        p := PathTo(prefix, c);
        PathGrows(prefix, es, p);
      } else {
        var q := PathTo(prefix, e.from);
        PathGrows(prefix, es, q);
        ChildLinked(es, e);
        PathSnoc(es, q, c);
        p := q + [c];
      }
    }
  }

  /** A branch links its node to its target through its wall. */
  lemma ChildLinked(es: seq<Edge>, e: Edge)
    requires IsUnit(e.dir) && Wall(e) in Walls(es)
    ensures Linked(es, e.from, Child(e))
  {
    var c := Child(e);
    assert ((c.0 - e.from.0) / 2, (c.1 - e.from.1) / 2) == e.dir by {
      assert c.0 - e.from.0 == 2 * e.dir.0 && c.1 - e.from.1 == 2 * e.dir.1;
    }
  }

  /** A path stays a path when more branches have been carved. */
  lemma PathGrows(es: seq<Edge>, es': seq<Edge>, p: seq<Cell>)
    requires IsPath(es, p) && Nodes(es) <= Nodes(es') && Walls(es) <= Walls(es')
    ensures IsPath(es', p)
  {
    forall i | 0 <= i < |p| - 1
      ensures Linked(es', p[i], p[i + 1])
    {
      assert Linked(es, p[i], p[i + 1]);
    }
  }

  /** A path extends by a node linked to its end. */
  lemma PathSnoc(es: seq<Edge>, p: seq<Cell>, c: Cell)
    requires IsPath(es, p) && c in Nodes(es) && Linked(es, p[|p| - 1], c)
    ensures IsPath(es, p + [c]) && (p + [c])[|p|] == c
  {
    var q := p + [c];
    forall i | 0 <= i < |q| - 1
      ensures Linked(es, q[i], q[i + 1])
    {
      if i < |p| - 1 {
        assert q[i] == p[i] && q[i + 1] == p[i + 1];
      }
    }
  }
}
