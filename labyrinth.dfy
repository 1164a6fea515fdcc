/** The grid logic of labyrinth/labyrinth.c: classifying cells, the
    row-major searches for a player and for the first empty cell, the
    one-step move that updates the map in place, and the flood fill that
    decides whether the empty cells are connected. */
module Labyrinth {
  const MAX_ROWS: int := 100
  const MAX_COLS: int := 100

  /** A cell coordinate; (-1, -1) stands for "not found". */
  datatype Position = Position(row: int, col: int)

  const NOT_FOUND: Position := Position(-1, -1)

  /** isValidPlayer (labyrinth/labyrinth.c:182-188): player ids are the
      decimal digits. */
  predicate IsValidPlayer(c: char) {
    '0' <= c <= '9'
  }

  /** The digits are the ten characters of "0123456789". */
  lemma {:induction false} ValidPlayerDigits(c: char)
    ensures IsValidPlayer(c) <==> c in "0123456789"
  {
    if IsValidPlayer(c) {
      var s := "0123456789";
      assert s[c as int - '0' as int] == c;
    }
  }

  /** Row-major order: p comes before q. */
  predicate Before(p: Position, q: Position) {
    p.row < q.row || (p.row == q.row && p.col < q.col)
  }

  /** Two cells side by side or one above the other. */
  predicate Adjacent(p: Position, q: Position) {
    (p.row == q.row && (p.col == q.col + 1 || p.col + 1 == q.col)) ||
    (p.col == q.col && (p.row == q.row + 1 || p.row + 1 == q.row))
  }

  predicate IsDirection(direction: string) {
    direction == "up" || direction == "down" || direction == "left" || direction == "right"
  }

  /** The cell one step from p in the given direction
      (labyrinth/labyrinth.c:321-341). */
  function Step(p: Position, direction: string): (q: Position)
    requires IsDirection(direction)
    ensures Adjacent(p, q)
    ensures direction == "up" ==> q.row < p.row
    ensures direction == "down" ==> q.row > p.row
    ensures direction == "left" ==> q.col < p.col
    ensures direction == "right" ==> q.col > p.col
  {
    if direction == "up" then Position(p.row - 1, p.col)
    else if direction == "down" then Position(p.row + 1, p.col)
    else if direction == "left" then Position(p.row, p.col - 1)
    else Position(p.row, p.col + 1)
  }

  /** The cells of a MAX_ROWS by MAX_COLS array of flags that are set. */
  ghost function Marked(visited: array2<bool>): set<Position>
    requires visited.Length0 == MAX_ROWS && visited.Length1 == MAX_COLS
    reads visited
  {
    set r, c | 0 <= r < MAX_ROWS && 0 <= c < MAX_COLS && visited[r, c] :: Position(r, c)
  }

  /** Every cell of a MAX_ROWS by MAX_COLS array. */
  ghost function AllCells(): set<Position> {
    set r, c | 0 <= r < MAX_ROWS && 0 <= c < MAX_COLS :: Position(r, c)
  }

  /** The Labyrinth struct (labyrinth/labyrinth.h:5-10): a MAX_ROWS by
      MAX_COLS character map of which the first `rows` rows and `cols`
      columns are in use. */
  class Maze {
    const grid: array2<char>
    const rows: int
    const cols: int

    predicate Valid() {
      grid.Length0 == MAX_ROWS && grid.Length1 == MAX_COLS && 0 <= rows <= MAX_ROWS && 0 <= cols <= MAX_COLS
    }

    /** A map of `rows` by `cols` cells, as loadMap leaves it. */
    constructor (rows: int, cols: int, grid: array2<char>)
      requires grid.Length0 == MAX_ROWS && grid.Length1 == MAX_COLS && 0 <= rows <= MAX_ROWS && 0 <= cols <= MAX_COLS
      ensures Valid() && this.rows == rows && this.cols == cols && this.grid == grid
    {
      this.rows, this.cols, this.grid := rows, cols, grid;
    }

    predicate InGrid(row: int, col: int) {
      0 <= row < rows && 0 <= col < cols
    }

    /** isEmptySpace (labyrinth/labyrinth.c:285-295): a cell of the grid
        holding '.' or a player. */
    predicate IsEmptySpace(row: int, col: int)
      requires Valid()
      reads grid
      ensures IsEmptySpace(row, col) ==> InGrid(row, col)
    {
      if row < 0 || row >= rows || col < 0 || col >= cols then false
      else grid[row, col] == '.' || IsValidPlayer(grid[row, col])
    }

    /** No cell holds `id`. */
    ghost predicate Absent(id: char)
      requires Valid()
      reads grid
    {
      forall r, c :: InGrid(r, c) ==> grid[r, c] != id
    }

    /** p holds `id` and no cell after it in row-major order does. */
    ghost predicate IsLastOf(p: Position, id: char)
      requires Valid()
      reads grid
    {
      InGrid(p.row, p.col) && grid[p.row, p.col] == id &&
      forall r, c :: InGrid(r, c) && Before(p, Position(r, c)) ==> grid[r, c] != id
    }

    /** No cell is empty. */
    ghost predicate NoEmptySpace()
      requires Valid()
      reads grid
    {
      forall r, c :: !IsEmptySpace(r, c)
    }

    /** p is empty and no cell before it in row-major order is. */
    ghost predicate IsFirstEmpty(p: Position)
      requires Valid()
      reads grid
    {
      IsEmptySpace(p.row, p.col) && forall r, c :: Before(Position(r, c), p) ==> !IsEmptySpace(r, c)
    }

    /** A walk through empty cells, each step to a 4-neighbour. */
    ghost predicate IsPath(p: seq<Position>)
      requires Valid()
      reads grid
    {
      |p| > 0 &&
      (forall i :: 0 <= i < |p| ==> IsEmptySpace(p[i].row, p[i].col)) &&
      (forall i :: 0 <= i < |p| - 1 ==> Adjacent(p[i], p[i + 1]))
    }

    ghost predicate Reachable(a: Position, b: Position)
      requires Valid()
      reads grid
    {
      exists p :: IsPath(p) && p[0] == a && p[|p| - 1] == b
    }

    /** Every empty 4-neighbour of a cell of V outside `stack` is in V: the
        cells of `stack` are the ones whose neighbours dfs has not
        finished visiting. */
    ghost predicate Closed(V: set<Position>, stack: set<Position>)
      requires Valid()
      reads grid
    {
      forall w, n :: w in V && w !in stack && Adjacent(w, n) && IsEmptySpace(n.row, n.col) ==> n in V
    }

    // -------------------------------------------------------------------
    // The searches

    /** findPlayer (labyrinth/labyrinth.c:238-253): the row-major scan keeps
        overwriting its answer, so the last cell holding `id` wins. */
    method FindPlayer(id: char) returns (pos: Position)
      requires Valid()
      ensures pos == NOT_FOUND <==> Absent(id)
      ensures pos != NOT_FOUND ==> IsLastOf(pos, id)
    {
      pos := NOT_FOUND;
      var row := 0;
      while row < rows
        invariant 0 <= row <= rows
        invariant pos == NOT_FOUND <==> forall r, c :: InGrid(r, c) && r < row ==> grid[r, c] != id
        invariant pos != NOT_FOUND ==>
          InGrid(pos.row, pos.col) && pos.row < row && grid[pos.row, pos.col] == id &&
          forall r, c :: InGrid(r, c) && r < row && Before(pos, Position(r, c)) ==> grid[r, c] != id
      {
        var col := 0;
        while col < cols
          invariant 0 <= col <= cols
          invariant pos == NOT_FOUND <==>
            forall r, c :: InGrid(r, c) && Before(Position(r, c), Position(row, col)) ==> grid[r, c] != id
          invariant pos != NOT_FOUND ==>
            InGrid(pos.row, pos.col) && Before(pos, Position(row, col)) && grid[pos.row, pos.col] == id &&
            forall r, c :: InGrid(r, c) && Before(Position(r, c), Position(row, col)) && Before(pos, Position(r, c)) ==>
              grid[r, c] != id
        {
          if grid[row, col] == id {
            pos := Position(row, col);
          }
          col := col + 1;
        }
        row := row + 1;
      }
    }

    /** findFirstEmptySpace (labyrinth/labyrinth.c:262-278): the row-major
        scan stops at the first empty cell. */
    method FindFirstEmptySpace() returns (pos: Position)
      requires Valid()
      ensures pos == NOT_FOUND <==> NoEmptySpace()
      ensures pos != NOT_FOUND ==> IsFirstEmpty(pos)
    {
      var row := 0;
      while row < rows
        invariant 0 <= row <= rows
        invariant forall r, c :: Before(Position(r, c), Position(row, 0)) ==> !IsEmptySpace(r, c)
      {
        var col := 0;
        while col < cols
          invariant 0 <= col <= cols
          invariant forall r, c :: Before(Position(r, c), Position(row, col)) ==> !IsEmptySpace(r, c)
        {
          if IsEmptySpace(row, col) {
            return Position(row, col);
          }
          col := col + 1;
        }
        row := row + 1;
      }
      return NOT_FOUND;
    }

    // -------------------------------------------------------------------
    // movePlayer

    /** movePlayer (labyrinth/labyrinth.c:303-357). The player starts from
        `from`: the last cell holding `id`, or, when there is none, the
        first empty cell, into which `id` is written first. The move
        succeeds exactly when there is such a cell, the direction is one of
        the four, and the cell one step away is empty (a player's digit
        counts as empty, so the move may overwrite another player); then
        `from` becomes '.' and the target `id`. No other cell changes. */
    method MovePlayer(id: char, direction: string) returns (ok: bool, ghost from: Position)
      requires Valid()
      modifies grid
      ensures old(Absent(id)) && old(NoEmptySpace()) ==> from == NOT_FOUND
      ensures !old(Absent(id)) ==> old(IsLastOf(from, id))
      ensures old(Absent(id)) && !old(NoEmptySpace()) ==> old(IsFirstEmpty(from))
      ensures ok <==> from != NOT_FOUND && IsDirection(direction) && old(IsEmptySpace(Step(from, direction).row, Step(from, direction).col))
      ensures forall r, c :: 0 <= r < MAX_ROWS && 0 <= c < MAX_COLS ==>
        grid[r, c] ==
          if ok && Position(r, c) == Step(from, direction) then id
          else if ok && Position(r, c) == from then '.'
          else if Position(r, c) == from && old(Absent(id)) then id
          else old(grid[r, c])
    {
      var pos := FindPlayer(id);
      from := pos;
      if pos.row == -1 && pos.col == -1 {
        var firstEmpty := FindFirstEmptySpace();
        if firstEmpty.row != -1 && firstEmpty.col != -1 {
          grid[firstEmpty.row, firstEmpty.col] := id;
          pos := firstEmpty;
          from := pos;
        } else {
          return false, from;
        }
      }
      var next;
      if direction == "up" {
        next := Position(pos.row - 1, pos.col);
      } else if direction == "down" {
        next := Position(pos.row + 1, pos.col);
      } else if direction == "left" {
        next := Position(pos.row, pos.col - 1);
      } else if direction == "right" {
        next := Position(pos.row, pos.col + 1);
      } else {
        return false, from;
      }
      assert next == Step(pos, direction);
      if IsEmptySpace(next.row, next.col) {
        grid[pos.row, pos.col] := '.';
        grid[next.row, next.col] := id;
        return true, from;
      }
      return false, from;
    }

    // -------------------------------------------------------------------
    // Connectivity

    /** dfs (labyrinth/labyrinth.c:394-409): from an empty unvisited cell,
        marks it and recurses into its four neighbours. It marks only
        empty cells reachable from (row, col), marks (row, col) when it is
        empty, clears no mark, and keeps the marks closed under empty
        neighbours outside `stack`. */
    method Dfs(row: int, col: int, visited: array2<bool>, ghost stack: set<Position>)
      requires Valid() && visited.Length0 == MAX_ROWS && visited.Length1 == MAX_COLS
      requires Closed(Marked(visited), stack)
      modifies visited
      ensures old(Marked(visited)) <= Marked(visited)
      ensures IsEmptySpace(row, col) ==> Position(row, col) in Marked(visited)
      ensures forall w :: w in Marked(visited) - old(Marked(visited)) ==>
        IsEmptySpace(w.row, w.col) && Reachable(Position(row, col), w)
      ensures Closed(Marked(visited), stack)
      decreases AllCells() - Marked(visited), 0
    {
      if row < 0 || row >= rows || col < 0 || col >= cols || visited[row, col] || !IsEmptySpace(row, col) {
        return;
      }
      ghost var u := Position(row, col);
      ghost var V0 := Marked(visited);
      visited[row, col] := true;
      MarkOne(visited, V0, u);
      CloseMark(V0, stack, u);
      ReachSelf(u);
      Visit(u, Position(row + 1, col), visited, stack + {u}, V0);
      ghost var M1 := Marked(visited);
      Visit(u, Position(row - 1, col), visited, stack + {u}, V0);
      ghost var M2 := Marked(visited);
      Visit(u, Position(row, col + 1), visited, stack + {u}, V0);
      ghost var M3 := Marked(visited);
      Visit(u, Position(row, col - 1), visited, stack + {u}, V0);
      ghost var M4 := Marked(visited);
      assert M1 <= M2 <= M3 <= M4;
      CloseUnmark(M4, stack, u);
    }

    /** One of the recursive calls of dfs (labyrinth/labyrinth.c:405-408):
        from u, already marked and on the stack, into its neighbour n. What
        it marks is reachable from u, and n is marked when it is empty. */
    method Visit(ghost u: Position, n: Position, visited: array2<bool>, ghost stack: set<Position>, ghost V0: set<Position>)
      requires Valid() && visited.Length0 == MAX_ROWS && visited.Length1 == MAX_COLS
      requires IsEmptySpace(u.row, u.col) && Adjacent(u, n)
      requires u in Marked(visited) && Closed(Marked(visited), stack)
      requires forall w :: w in Marked(visited) - V0 ==> IsEmptySpace(w.row, w.col) && Reachable(u, w)
      modifies visited
      ensures old(Marked(visited)) <= Marked(visited)
      ensures IsEmptySpace(n.row, n.col) ==> n in Marked(visited)
      ensures forall w :: w in Marked(visited) - V0 ==> IsEmptySpace(w.row, w.col) && Reachable(u, w)
      ensures Closed(Marked(visited), stack)
      decreases AllCells() - Marked(visited), 1
    {
      ghost var A := Marked(visited);
      Dfs(n.row, n.col, visited, stack);
      ExtendReach(u, n, V0, A, Marked(visited));
    }

    /** isConnected (labyrinth/labyrinth.c:411-435): true exactly when every
        empty cell is reachable from every other through 4-adjacent empty
        cells (so vacuously true when there is none). */
    method IsConnected() returns (b: bool)
      requires Valid()
      ensures b <==> forall x: Position, y: Position :: IsEmptySpace(x.row, x.col) && IsEmptySpace(y.row, y.col) ==> Reachable(x, y)
    {
      var first := FindFirstEmptySpace();
      if first.row == -1 || first.col == -1 {
        return true;
      }
      var visited := new bool[MAX_ROWS, MAX_COLS]((_, _) => false);
      assert Marked(visited) == {};
      Dfs(first.row, first.col, visited, {});
      var missed := FirstUnvisited(visited);
      if missed != NOT_FOUND {
        Unreached(Marked(visited), first, missed);
        return false;
      }
      AllReached(Marked(visited), first);
      return true;
    }

    /** The checking loop of isConnected (labyrinth/labyrinth.c:424-433):
        the first empty cell, in row-major order, that dfs did not mark, or
        NOT_FOUND when it marked them all. */
    method FirstUnvisited(visited: array2<bool>) returns (pos: Position)
      requires Valid() && visited.Length0 == MAX_ROWS && visited.Length1 == MAX_COLS
      ensures pos == NOT_FOUND <==> forall r, c :: IsEmptySpace(r, c) ==> Position(r, c) in Marked(visited)
      ensures pos != NOT_FOUND ==> IsEmptySpace(pos.row, pos.col) && pos !in Marked(visited)
    {
      var row := 0;
      while row < rows
        invariant 0 <= row <= rows
        invariant forall r, c :: InGrid(r, c) && r < row && IsEmptySpace(r, c) ==> visited[r, c]
      {
        var col := 0;
        while col < cols
          invariant 0 <= col <= cols
          invariant forall r, c :: InGrid(r, c) && Before(Position(r, c), Position(row, col)) && IsEmptySpace(r, c) ==> visited[r, c]
        {
          if IsEmptySpace(row, col) && visited[row, col] == false {
            assert Position(row, col) !in Marked(visited);
            return Position(row, col);
          }
          col := col + 1;
        }
        row := row + 1;
      }
      return NOT_FOUND;
    }

    // -------------------------------------------------------------------
    // Lemmas about paths and marks

    /** Setting the flag of u adds exactly u to the marked cells. */
    lemma MarkOne(visited: array2<bool>, V0: set<Position>, u: Position)
      requires visited.Length0 == MAX_ROWS && visited.Length1 == MAX_COLS
      requires 0 <= u.row < MAX_ROWS && 0 <= u.col < MAX_COLS && visited[u.row, u.col]
      requires forall r, c :: 0 <= r < MAX_ROWS && 0 <= c < MAX_COLS && Position(r, c) != u ==>
        (visited[r, c] <==> Position(r, c) in V0)
      requires V0 <= AllCells() && u !in V0
      ensures Marked(visited) == V0 + {u}
    {
    }

    /** A single empty cell is a path. */
    lemma ReachSelf(u: Position)
      requires Valid() && IsEmptySpace(u.row, u.col)
      ensures Reachable(u, u)
    {
      assert IsPath([u]);
    }

    /** Marking u, and putting it on the stack, keeps the marks closed. */
    lemma CloseMark(V: set<Position>, stack: set<Position>, u: Position)
      requires Valid() && Closed(V, stack)
      ensures Closed(V + {u}, stack + {u})
    {
    }

    /** Once every empty neighbour of u is marked, u can leave the stack. */
    lemma {:induction false} CloseUnmark(V: set<Position>, stack: set<Position>, u: Position)
      requires Valid() && Closed(V, stack + {u})
      requires IsEmptySpace(u.row + 1, u.col) ==> Position(u.row + 1, u.col) in V
      requires IsEmptySpace(u.row - 1, u.col) ==> Position(u.row - 1, u.col) in V
      requires IsEmptySpace(u.row, u.col + 1) ==> Position(u.row, u.col + 1) in V
      requires IsEmptySpace(u.row, u.col - 1) ==> Position(u.row, u.col - 1) in V
      ensures Closed(V, stack)
    {
      forall w, n | w in V && w !in stack && Adjacent(w, n) && IsEmptySpace(n.row, n.col)
        ensures n in V
      {
        if w == u {
          assert n == Position(u.row + 1, u.col) || n == Position(u.row - 1, u.col) ||
                 n == Position(u.row, u.col + 1) || n == Position(u.row, u.col - 1);
        }
      }
    }

    /** What a call of dfs on a neighbour n of u newly marks is reachable
        from u, so everything marked since u was entered is. */
    lemma ExtendReach(u: Position, n: Position, V0: set<Position>, A: set<Position>, B: set<Position>)
      requires Valid() && IsEmptySpace(u.row, u.col) && Adjacent(u, n)
      requires forall w :: w in A - V0 ==> IsEmptySpace(w.row, w.col) && Reachable(u, w)
      requires forall w :: w in B - A ==> IsEmptySpace(w.row, w.col) && Reachable(n, w)
      ensures forall w :: w in B - V0 ==> IsEmptySpace(w.row, w.col) && Reachable(u, w)
    {
      forall w | w in B - V0 && w !in A
        ensures Reachable(u, w)
      {
        assert w in B - A;
        var p :| IsPath(p) && p[0] == n && p[|p| - 1] == w;
        assert IsPath([u] + p);
        assert ([u] + p)[|[u] + p| - 1] == w;
      }
    }

    /** A path walked backwards is a path. */
    lemma ReachBack(a: Position, b: Position)
      requires Valid() && Reachable(a, b)
      ensures Reachable(b, a)
    {
      var p :| IsPath(p) && p[0] == a && p[|p| - 1] == b;
      var q := seq(|p|, i requires 0 <= i < |p| => p[|p| - 1 - i]);
      forall i | 0 <= i < |q| - 1
        ensures Adjacent(q[i], q[i + 1])
      {
        assert Adjacent(p[|p| - 2 - i], p[|p| - 1 - i]);
      }
      assert IsPath(q);
    }

    /** Paths join end to start. */
    lemma ReachJoin(a: Position, b: Position, c: Position)
      requires Valid() && Reachable(a, b) && Reachable(b, c)
      ensures Reachable(a, c)
    {
      var p :| IsPath(p) && p[0] == a && p[|p| - 1] == b;
      var q :| IsPath(q) && q[0] == b && q[|q| - 1] == c;
      var pq := p + q[1..];
      assert forall i :: 0 <= i < |pq| - 1 ==> Adjacent(pq[i], pq[i + 1]) by {
        forall i | 0 <= i < |pq| - 1
          ensures Adjacent(pq[i], pq[i + 1])
        {
          if i < |p| - 1 {
            assert pq[i] == p[i] && pq[i + 1] == p[i + 1];
          } else {
            assert pq[i] == q[i - |p| + 1] && pq[i + 1] == q[i - |p| + 2];
          }
        }
      }
      assert IsPath(pq);
    }

    /** A path that starts in a closed set of marks stays in it. */
    lemma {:induction false} ClosedPath(V: set<Position>, p: seq<Position>)
      requires Valid() && Closed(V, {}) && IsPath(p) && p[0] in V
      ensures p[|p| - 1] in V
      decreases |p|
    {
      if |p| > 1 {
        var p' := p[..|p| - 1];
        assert IsPath(p');
        ClosedPath(V, p');
        assert Adjacent(p[|p| - 2], p[|p| - 1]);
      }
    }

    /** An empty cell outside a closed set of marks holding `first` is not
        reachable from it, so the empty cells are not connected. */
    lemma Unreached(V: set<Position>, first: Position, e: Position)
      requires Valid() && Closed(V, {}) && first in V && e !in V
      requires IsEmptySpace(first.row, first.col) && IsEmptySpace(e.row, e.col)
      ensures !forall x: Position, y: Position :: IsEmptySpace(x.row, x.col) && IsEmptySpace(y.row, y.col) ==> Reachable(x, y)
    {
      if Reachable(first, e) {
        var p :| IsPath(p) && p[0] == first && p[|p| - 1] == e;
        ClosedPath(V, p);
      }
    }

    /** When every empty cell is marked, and every marked cell is reachable
        from `first`, every empty cell is reachable from every other. */
    lemma AllReached(V: set<Position>, first: Position)
      requires Valid()
      requires forall w :: w in V ==> Reachable(first, w)
      requires forall r, c :: InGrid(r, c) && IsEmptySpace(r, c) ==> Position(r, c) in V
      ensures forall x: Position, y: Position :: IsEmptySpace(x.row, x.col) && IsEmptySpace(y.row, y.col) ==> Reachable(x, y)
    {
      forall x: Position, y: Position | IsEmptySpace(x.row, x.col) && IsEmptySpace(y.row, y.col)
        ensures Reachable(x, y)
      {
        assert Position(x.row, x.col) == x && Position(y.row, y.col) == y;
        ReachBack(first, x);
        ReachJoin(x, first, y);
      }
    }
  }
}
