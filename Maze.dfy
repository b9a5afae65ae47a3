/**
  The maze generator: a rows x cols grid of marked flags carved by a
  randomised depth-first search that steps two cells at a time, shuffling the
  one shared direction array before every visit.

  The painting of cells on screen is kept only as a ghost log of paint events;
  the random source is the sequence of numbers in [0, 1) that successive calls
  of the random generator return.
 */
module Maze {
  import opened Directions
  import opened Carving

  /** The colours the carve paints cells with. */
  datatype Color = Red | White | Green

  /** One call of the paint hook: cell (row, col) set to `color`. */
  datatype Paint = Paint(row: int, col: int, color: Color)

  /** What a run of branches paints: each branch paints its target node white, then its wall. */
  ghost function PaintsOf(es: seq<Edge>): (ps: seq<Paint>)
    decreases |es|
  {
    if es == [] then []
    else
      var e := es[|es| - 1];
      PaintsOf(es[..|es| - 1]) + [Paint(Child(e).0, Child(e).1, White), Paint(Wall(e).0, Wall(e).1, White)]
  }

  /** Painting the branches of two runs, one after the other, paints both runs in order. */
  lemma {:induction false} PaintsOfAppend(a: seq<Edge>, b: seq<Edge>)
    ensures PaintsOf(a + b) == PaintsOf(a) + PaintsOf(b)
    ensures |PaintsOf(b)| == 2 * |b|
    decreases |b|
  {
    if b == [] {
      assert a + b == a;
    } else {
      var n := |b| - 1;
      PaintsOfAppend(a, b[..n]);
      assert (a + b)[..|a + b| - 1] == a + b[..n];
      assert (a + b)[|a + b| - 1] == b[n];
    }
  }

  /**
    Taking a branch from a reached node to an unmarked node, marking its node
    and wall and painting them, keeps the marked cells the nodes and walls of
    the carve and the paint log the start followed by the branches' paints.
   */
  lemma TakeBranch(marked: set<Cell>, es: seq<Edge>, log: seq<Paint>, e: Edge,
                   marked': set<Cell>, es': seq<Edge>, log': seq<Paint>)
    requires Shaped(marked, es) && marked != {} && log == [Paint(0, 0, Red)] + PaintsOf(es)
    requires e.from in Nodes(es) && IsUnit(e.dir) && Child(e) !in marked
    requires marked' == marked + {Child(e), Wall(e)} && es' == es + [e] && log' == log + PaintsOf([e])
    ensures Shaped(marked', es') && log' == [Paint(0, 0, Red)] + PaintsOf(es')
    ensures Nodes(es) <= Nodes(es') && Child(e) in Nodes(es') && Child(e) in marked' && Wall(e) in marked'
    ensures |es'| > |es| && es'[|es|] == e
  {
    ShapedExtend(marked, es, e);
    PaintsOfAppend(es, [e]);
  }

  class MazeGenerator {
    const rows: int
    const cols: int
    /** The marked flags, one per cell. */
    const maze: array2<bool>
    /** The four step directions, shared by every level of the carve and reshuffled in place. */
    const directions: array<Dir>
    /** The random source: the k-th random number drawn is random(k). */
    const random: nat -> Fraction
    /** How many random numbers have been drawn so far. */
    var draws: nat

    /** The branches taken so far, in the order they were taken. */
    ghost var Branches: seq<Edge>
    /** The paint events so far, in the order they were issued. */
    ghost var Log: seq<Paint>

    ghost predicate InGrid(c: Cell) {
      0 <= c.0 < rows && 0 <= c.1 < cols
    }

    /** All cells of the grid. */
    ghost function Grid(): (cells: set<Cell>) {
      set i, j | 0 <= i < rows && 0 <= j < cols :: (i, j)
    }

    /** The grid and the direction array have the sizes the constructor gave them. */
    ghost predicate Sized() {
      1 <= rows && 1 <= cols &&
      maze.Length0 == rows && maze.Length1 == cols &&
      directions.Length == 4
    }

    /** The marked cells: those whose flag is set. */
    ghost function Marked(): (marked: set<Cell>)
      reads maze
      requires Sized()
    {
      set c | c in Grid() && maze[c.0, c.1]
    }

    /** A cell of the grid is marked exactly when its flag is set. */
    lemma MarkedAt(c: Cell)
      requires Sized() && InGrid(c)
      ensures c in Marked() <==> maze[c.0, c.1]
      ensures c in Grid()
    {
    }

    /** The direction array holds the four unit steps, one of each, in some order. */
    ghost predicate DirectionsOk()
      reads directions
    {
      IsArrangement(directions[..])
    }

    /**
      The object invariant: the sizes, the four directions, and the marked
      cells being the nodes and walls of a carve that grows a tree from
      (0, 0) (or nothing at all, before the first visit).
     */
    ghost predicate Valid()
      reads this`Branches, maze, directions
    {
      Sized() && DirectionsOk() && Shaped(Marked(), Branches)
    }

    /**
      The paint log during the carve: the start cell painted red, then, for
      every branch in the order taken, its node and its wall painted white.
     */
    ghost predicate Logged()
      reads this`Branches, this`Log
    {
      Log == [Paint(0, 0, Red)] + PaintsOf(Branches)
    }

    /** The picks one shuffle pass over n elements draws, starting at draw number `start`. */
    ghost function Picks(start: nat, n: nat): (js: seq<int>)
      ensures |js| == n && ValidPicks(js)
      decreases n
    {
      if n == 0 then [] else Picks(start, n - 1) + [Scale(random(start + n - 1), n)]
    }

    /**
      Builds the generator for a rows x cols grid and carves the maze: nothing
      is marked at first, the directions are down, right, up, left, and the
      whole carve runs before the constructor returns.
     */
    constructor (rows: int, cols: int, random: nat -> Fraction)
      requires rows >= 2 && cols >= 2
      ensures this.rows == rows && this.cols == cols && this.random == random
      ensures Valid() && Root in Marked()
      ensures Log == [Paint(0, 0, Red)] + PaintsOf(Branches) + [Paint(rows - 2, cols - 2, Green)]
    {
      this.rows := rows;
      this.cols := cols;
      this.random := random;
      maze := new bool[rows, cols]((i, j) => false);
      directions := new Dir[][(1, 0), (0, 1), (-1, 0), (0, -1)];
      draws := 0;
      Branches := [];
      Log := [];
      new;
      assert Valid() && Marked() == {} by {
        assert directions[..] == Units;
        assert Marked() == {};
      }
      GenerateMaze();
    }

    /** Paints one cell; only the event is kept. */
    ghost method PaintCellAndRefresh(row: int, col: int, color: Color)
      requires InGrid((row, col))
      modifies this`Log
      ensures Log == old(Log) + [Paint(row, col, color)]
    {
      Log := Log + [Paint(row, col, color)];
    }

    /**
      Marks the start red, carves from (0, 0), then marks (rows - 2, cols - 2)
      green whether or not the carve reached it.
     */
    method GenerateMaze()
      requires Valid() && rows >= 2 && cols >= 2
      requires Marked() == {} && Branches == [] && Log == []
      modifies maze, directions, this`draws, this`Branches, this`Log
      ensures Valid() && Root in Marked()
      ensures Log == [Paint(0, 0, Red)] + PaintsOf(Branches) + [Paint(rows - 2, cols - 2, Green)]
    {
      PaintCellAndRefresh(0, 0, Red);
      Dfs(0, 0);
      PaintCellAndRefresh(rows - 2, cols - 2, Green);
    }

    /**
      In every valid state no cell with two odd coordinates is marked, and once
      the carve has started the marked cells number 2n + 1 for n branches.
     */
    lemma MarkedShape()
      requires Valid()
      ensures forall i, j :: 0 <= i < rows && 0 <= j < cols && !Even(i) && !Even(j) ==> !maze[i, j]
      ensures Marked() != {} ==> |Marked()| == 2 * |Branches| + 1
    {
      Lattice(Branches);
      CellCount(Branches);
      forall i, j | 0 <= i < rows && 0 <= j < cols && !Even(i) && !Even(j)
        ensures !maze[i, j]
      {
        MarkedAt((i, j));
      }
    }

    /**
      The arrangement the shuffle leaves in a copy of s after drawing n random
      numbers, the first of them the draw numbered d0: step i exchanges
      position i with the index scaled from draw d0 + i into [0, i].
     */
    ghost function Drawn(s: seq<Dir>, d0: nat, n: nat): (r: seq<Dir>)
      requires n <= |s|
      ensures |r| == |s|
    {
      if n == 0 then s else Swap(Drawn(s, d0, n - 1), n - 1, Scale(random(d0 + n - 1), n))
    }

    /** Drawing from the random numbers is shuffling with the picks they scale to. */
    lemma {:induction false} DrawnPicks(s: seq<Dir>, d0: nat, n: nat)
      requires n <= |s|
      ensures Drawn(s, d0, n) == Shuffled(s, Picks(d0, n))
      decreases n
    {
      if n > 0 {
        DrawnPicks(s, d0, n - 1);
        ShuffledSnoc(s, Picks(d0, n - 1), Scale(random(d0 + n - 1), n));
      }
    }

    /** The shuffle only rearranges: what it leaves holds the same elements, as often. */
    lemma DrawnPermutes(s: seq<Dir>, d0: nat)
      ensures multiset(Drawn(s, d0, |s|)) == multiset(s)
    {
      DrawnPicks(s, d0, |s|);
      ShuffledPermutes(s, Picks(d0, |s|));
    }

    /**
      The shuffle: for i from 0 up, draws j in [0, i] and exchanges arr[i] and
      arr[j]. Every index it touches is inside the array, and what it leaves is
      the arrangement the draws give.
     */
    method ShuffleArray(arr: array<Dir>)
      modifies arr, this`draws
      ensures draws == old(draws) + arr.Length
      ensures arr[..] == Drawn(old(arr[..]), old(draws), arr.Length)
    {
      ghost var s0, d0 := arr[..], draws;
      var i := 0;
      while i < arr.Length
        invariant 0 <= i <= arr.Length
        invariant draws == d0 + i
        invariant arr[..] == Drawn(s0, d0, i)
      {
        ghost var before := arr[..];
        var j := Scale(random(draws), i + 1);
        var temp := arr[i];
        arr[i] := arr[j];
        arr[j] := temp;
        assert arr[..] == Swap(before, i, j);
        draws := draws + 1;
        i := i + 1;
      }
    }

    /** Sets the flag of cell c. */
    method Mark(c: Cell)
      requires Sized() && InGrid(c)
      modifies maze
      ensures Marked() == old(Marked()) + {c}
    {
      maze[c.0, c.1] := true;
    }

    /**
      Takes the branch from node (x, y) along `direction`: marks the node two
      steps away and the wall cell between them, then paints the node and the
      wall white, in that order.
     */
    method Connect(x: int, y: int, direction: Dir)
      requires Sized() && InGrid((x, y)) && IsUnit(direction)
      requires InGrid(Child(Edge((x, y), direction)))
      modifies maze, this`Branches, this`Log
      ensures var e := Edge((x, y), direction);
              Marked() == old(Marked()) + {Child(e), Wall(e)} &&
              Branches == old(Branches) + [e] &&
              Log == old(Log) + PaintsOf([e])
    {
      var nx, ny := x + direction.0 * 2, y + direction.1 * 2;
      Mark((nx, ny));
      Mark((x + direction.0, y + direction.1));
      Branches := Branches + [Edge((x, y), direction)];
      PaintCellAndRefresh(nx, ny, White);
      PaintCellAndRefresh(x + direction.0, y + direction.1, White);
    }

    /**
      The first two steps of a visit to node (x, y): marks it, then reshuffles
      the shared direction array.
     */
    method Visit(x: int, y: int)
      requires Valid() && InGrid((x, y)) && (x, y) in Nodes(Branches)
      modifies maze, directions, this`draws
      ensures Valid() && Marked() == old(Marked()) + {(x, y)}
      ensures directions[..] == Drawn(old(directions[..]), old(draws), 4) && draws == old(draws) + 4
    {
      assert Shaped(Marked() + {(x, y)}, Branches) by {
        ShapedVisit(Marked(), Branches, (x, y));
      }
      Mark((x, y));
      ghost var marked := Marked();
      ghost var before := directions[..];
      ShuffleArray(directions);
      assert Marked() == marked;
      assert DirectionsOk() by {
        PermutationOfArrangement(before);
        DrawnPermutes(before, old(draws));
        ArrangementOfPermutation(directions[..]);
      }
    }

    /**
      The body of the carve loop once the guard has passed: takes the branch
      from node (x, y) along `direction` to the node (nx, ny) two steps away and
      carves on from there.
     */
    method Branch(x: int, y: int, direction: Dir, nx: int, ny: int)
      requires Valid() && Logged() && InGrid((x, y)) && (x, y) in Marked() && (x, y) in Nodes(Branches)
      requires IsUnit(direction) && nx == x + direction.0 * 2 && ny == y + direction.1 * 2
      requires InGrid((nx, ny)) && (nx, ny) !in Marked()
      modifies maze, directions, this`draws, this`Branches, this`Log
      ensures Valid() && Logged()
      ensures old(Marked()) <= Marked() && old(Branches) <= Branches && Nodes(old(Branches)) <= Nodes(Branches)
      ensures (nx, ny) in Marked() && (x + direction.0, y + direction.1) in Marked()
      ensures |Branches| > |old(Branches)| && Branches[|old(Branches)|] == Edge((x, y), direction)
      decreases Grid() - Marked(), 0
    {
      ghost var marked1, branches1, log1 := Marked(), Branches, Log;
      ghost var e := Edge((x, y), direction);
      assert Child(e) == (nx, ny) && Wall(e) == (x + direction.0, y + direction.1);
      Connect(x, y, direction);
      TakeBranch(marked1, branches1, log1, e, Marked(), Branches, Log);
      assert Grid() - Marked() < Grid() - marked1 by {
        MarkedAt((nx, ny));
      }
      ghost var marked2, branches2 := Marked(), Branches;
      Dfs(nx, ny);
      assert Branches[|branches1|] == e by {
        assert Branches[..|branches2|] == branches2;
      }
      assert marked2 <= Marked();
    }

    /**
      Visits node (x, y): marks it, reshuffles the shared directions, and for
      each of the four entries of the direction array (read afresh on every
      iteration, so after a recursive call the entries are whatever the callee
      left) takes the branch to the node two steps away if that node is inside
      the grid and unmarked.
     */
    method Dfs(x: int, y: int)
      requires Valid() && Logged() && InGrid((x, y)) && (x, y) in Nodes(Branches)
      modifies maze, directions, this`draws, this`Branches, this`Log
      ensures Valid() && Logged()
      ensures (x, y) in Marked() && old(Marked()) <= Marked()
      ensures old(Branches) <= Branches && Nodes(old(Branches)) <= Nodes(Branches)
      decreases Grid() - Marked(), 1
    {
      ghost var marked0, branches0 := Marked(), Branches;
      Visit(x, y);

      for i := 0 to directions.Length
        invariant Valid() && Logged()
        invariant (x, y) in Marked() && marked0 <= Marked()
        invariant branches0 <= Branches && Nodes(branches0) <= Nodes(Branches)
      {
        var direction := directions[i];
        assert IsUnit(direction) by {
          assert direction == directions[..][i];
        }
        var nx := x + direction.0 * 2;
        var ny := y + direction.1 * 2;

        if nx >= 0 && nx < rows && ny >= 0 && ny < cols && !maze[nx, ny] {
          MarkedAt((nx, ny));
          Branch(x, y, direction, nx, ny);
        }
      }
    }
  }
}
