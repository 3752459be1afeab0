/**
 * The grid kitchen map of moduls/kitchen_map.py: a rectangular matrix of cell
 * codes (0 empty, 1 table, 2 stove, 3 sink), from which the positions of the
 * three stations are read and a complete graph is built whose edge weights
 * are breadth-first-search distances over the grid. The search treats every
 * in-grid cell as walkable, so those distances are Manhattan distances.
 */
module KitchenMap {
  import opened Wrappers

  type Pos = (int, int)

  /** A numpy matrix: its rows and its width (the shape's second component). */
  datatype Matrix = Matrix(rows: seq<seq<int>>, width: int)

  predicate WellFormed(m: Matrix) {
    m.width >= 0 && forall y :: 0 <= y < |m.rows| ==> |m.rows[y]| == m.width
  }

  predicate InGrid(m: Matrix, p: Pos) {
    0 <= p.0 < |m.rows| && 0 <= p.1 < m.width
  }

  function Code(m: Matrix, p: Pos): int
    requires WellFormed(m) && InGrid(m, p)
  {
    m.rows[p.0][p.1]
  }

  /** Node ids; node `n` is marked by cell code `n + 1`. */
  const Stol := 0
  const Plita := 1
  const Moyka := 2
  const NodeCount := 3

  /** Row-major order: `p` is scanned before `q`. */
  predicate Earlier(p: Pos, q: Pos) {
    p.0 < q.0 || (p.0 == q.0 && p.1 < q.1)
  }

  // ---------------------------------------------------------------------
  // _extract_nodes
  // ---------------------------------------------------------------------

  /** Code `n + 1` occurs in a cell scanned before the cursor. */
  ghost predicate Seen(m: Matrix, n: int, cursor: Pos)
    requires WellFormed(m)
  {
    exists p :: InGrid(m, p) && Earlier(p, cursor) && Code(m, p) == n + 1
  }

  /** `p` is the last cell before the cursor that carries code `n + 1`. */
  ghost predicate LastSeen(m: Matrix, n: int, cursor: Pos, p: Pos)
    requires WellFormed(m)
  {
    && InGrid(m, p) && Earlier(p, cursor) && Code(m, p) == n + 1
    && forall q :: InGrid(m, q) && Earlier(q, cursor) && Earlier(p, q) ==> Code(m, q) != n + 1
  }

  /** The position map is right for every cell scanned before the cursor. */
  ghost predicate ScanInv(m: Matrix, pos: map<int, Pos>, cursor: Pos)
    requires WellFormed(m)
  {
    && (forall n :: n in pos ==> 0 <= n < NodeCount && LastSeen(m, n, cursor, pos[n]))
    && (forall n :: 0 <= n < NodeCount && Seen(m, n, cursor) ==> n in pos)
  }

  /** One cell of the scan: codes 1, 2, 3 record the cell for their node, overwriting. */
  function Absorb(pos: map<int, Pos>, p: Pos, cell: int): map<int, Pos>
  {
    if cell == 1 then pos[Stol := p]
    else if cell == 2 then pos[Plita := p]
    else if cell == 3 then pos[Moyka := p]
    else pos
  }

  lemma ScanStep(m: Matrix, pos: map<int, Pos>, y: int, x: int)
    requires WellFormed(m) && InGrid(m, (y, x))
    requires ScanInv(m, pos, (y, x))
    ensures ScanInv(m, Absorb(pos, (y, x), Code(m, (y, x))), (y, x + 1))
  {
    var pos' := Absorb(pos, (y, x), Code(m, (y, x)));
    forall n | n in pos' ensures 0 <= n < NodeCount && LastSeen(m, n, (y, x + 1), pos'[n]) {
      if Code(m, (y, x)) != n + 1 {
        assert pos'[n] == pos[n];
        assert LastSeen(m, n, (y, x), pos[n]);
      }
    }
    forall n | 0 <= n < NodeCount && Seen(m, n, (y, x + 1)) ensures n in pos' {
      var p :| InGrid(m, p) && Earlier(p, (y, x + 1)) && Code(m, p) == n + 1;
      if p != (y, x) {
        assert Seen(m, n, (y, x));
      }
    }
  }

  lemma RowDone(m: Matrix, pos: map<int, Pos>, y: int)
    requires WellFormed(m) && 0 <= y < |m.rows|
    requires ScanInv(m, pos, (y, m.width))
    ensures ScanInv(m, pos, (y + 1, 0))
  {
    forall n | n in pos ensures LastSeen(m, n, (y + 1, 0), pos[n]) {
      assert LastSeen(m, n, (y, m.width), pos[n]);
    }
    forall n | 0 <= n < NodeCount && Seen(m, n, (y + 1, 0)) ensures n in pos {
      var p :| InGrid(m, p) && Earlier(p, (y + 1, 0)) && Code(m, p) == n + 1;
      assert Earlier(p, (y, m.width));
    }
  }

  /**
   * `_extract_nodes`: scanning row by row, each station code records its
   * cell, so a node is present exactly when its code occurs, and its
   * position is the last cell in row-major order carrying that code.
   */
  method ExtractNodes(m: Matrix) returns (pos: map<int, Pos>)
    requires WellFormed(m)
    ensures forall n :: n in pos <==> 0 <= n < NodeCount && exists p :: InGrid(m, p) && Code(m, p) == n + 1
    ensures forall n :: n in pos ==> InGrid(m, pos[n]) && Code(m, pos[n]) == n + 1
    ensures forall n, q :: n in pos && InGrid(m, q) && Earlier(pos[n], q) ==> Code(m, q) != n + 1
  {
    pos := map[];
    var y := 0;
    while y < |m.rows|
      invariant 0 <= y <= |m.rows|
      invariant ScanInv(m, pos, (y, 0))
    {
      var x := 0;
      while x < m.width
        invariant 0 <= x <= m.width
        invariant ScanInv(m, pos, (y, x))
      {
        ScanStep(m, pos, y, x);
        pos := Absorb(pos, (y, x), m.rows[y][x]);
        x := x + 1;
      }
      RowDone(m, pos, y);
      y := y + 1;
    }
    forall n | 0 <= n < NodeCount && exists p :: InGrid(m, p) && Code(m, p) == n + 1
      ensures n in pos
    {
      var p :| InGrid(m, p) && Code(m, p) == n + 1;
      assert Earlier(p, (y, 0));
    }
  }

  // ---------------------------------------------------------------------
  // _bfs_distance
  // ---------------------------------------------------------------------

  function Abs(a: int): nat { if a < 0 then -a else a }

  function Manhattan(p: Pos, q: Pos): nat {
    Abs(p.0 - q.0) + Abs(p.1 - q.1)
  }

  /** One of the four moves up, down, left, right. */
  predicate Adj(p: Pos, q: Pos) {
    Manhattan(p, q) == 1
  }

  /** The four neighbours in the order the search tries them. */
  function Neighbours(p: Pos): (ns: seq<Pos>)
    ensures |ns| == 4
    ensures forall k :: 0 <= k < 4 ==> Adj(p, ns[k])
    ensures forall q :: Adj(p, q) ==> q in ns
  {
    [(p.0 - 1, p.1), (p.0 + 1, p.1), (p.0, p.1 - 1), (p.0, p.1 + 1)]
  }

  /** Every cell the search may ever visit. */
  ghost function Universe(m: Matrix, start: Pos): set<Pos> {
    (set y, x | 0 <= y < |m.rows| && 0 <= x < m.width :: (y, x)) + {start}
  }

  /** `p` is the cell of some queue entry. */
  ghost predicate Queued(q: seq<(Pos, int)>, p: Pos) {
    exists i :: 0 <= i < |q| && q[i].0 == p
  }

  /**
   * The breadth-first invariant: visited cells are either finished or queued,
   * queue cells are distinct, queue distances are sorted and span at most one
   * layer, every finished cell has all its in-grid neighbours visited, and,
   * when the start is in the grid, every queued distance is the Manhattan
   * distance from the start.
   */
  ghost predicate Frontier(m: Matrix, start: Pos, goal: Pos, q: seq<(Pos, int)>, visited: set<Pos>, done: set<Pos>) {
    && start in visited
    && visited <= Universe(m, start)
    && done <= visited
    && goal !in done
    && (forall i :: 0 <= i < |q| ==> q[i].0 in visited && q[i].0 !in done)
    && (forall p :: p in visited && p !in done ==> Queued(q, p))
    && QueueShape(start, q)
    && Exact(m, start, q)
    && (forall p, n :: p in done && InGrid(m, n) && Adj(p, n) ==> n in visited)
  }

  /** Queue cells are distinct, distances are sorted, non-negative and within one layer, and the start sits at 0. */
  ghost predicate QueueShape(start: Pos, q: seq<(Pos, int)>) {
    && (forall i :: 0 <= i < |q| ==> q[i].1 >= 0 && (q[i].0 == start ==> q[i].1 == 0))
    && (forall i, j :: 0 <= i < j < |q| ==> q[i].0 != q[j].0 && q[i].1 <= q[j].1)
    && (forall i :: 0 <= i < |q| ==> q[i].1 <= q[0].1 + 1)
  }

  /** With the start in the grid, every queued distance is the Manhattan distance. */
  ghost predicate Exact(m: Matrix, start: Pos, q: seq<(Pos, int)>) {
    InGrid(m, start) ==> forall i :: 0 <= i < |q| ==> q[i].1 == Manhattan(start, q[i].0)
  }

  /** What one expansion of cell `c` at distance `d` did to the rest of the queue and the visited set. */
  ghost predicate Expanded(m: Matrix, c: Pos, d: int, q: seq<(Pos, int)>, visited: set<Pos>,
                           q': seq<(Pos, int)>, visited': set<Pos>) {
    && |q'| >= |q| && q'[..|q|] == q
    && visited <= visited'
    && (forall p :: p in visited' ==> p in visited || Queued(q'[|q|..], p))
    && (forall i :: |q| <= i < |q'| ==>
         && q'[i].0 in visited' && q'[i].0 !in visited
         && InGrid(m, q'[i].0) && Adj(c, q'[i].0) && q'[i].1 == d + 1)
    && (forall i, j :: |q| <= i < j < |q'| ==> q'[i].0 != q'[j].0)
    && (forall n :: InGrid(m, n) && Adj(c, n) ==> n in visited')
  }

  /** A neighbour of `n` one step closer to `s`, inside the grid when both are. */
  function StepToward(n: Pos, s: Pos): (p: Pos)
    requires n != s
    ensures Adj(p, n) && Manhattan(s, p) + 1 == Manhattan(s, n)
  {
    if n.0 < s.0 then (n.0 + 1, n.1)
    else if n.0 > s.0 then (n.0 - 1, n.1)
    else if n.1 < s.1 then (n.0, n.1 + 1)
    else (n.0, n.1 - 1)
  }

  lemma StepTowardInGrid(m: Matrix, n: Pos, s: Pos)
    requires n != s && InGrid(m, n) && InGrid(m, s)
    ensures InGrid(m, StepToward(n, s))
  {
  }

  /**
   * While the start is in the grid, every in-grid cell no farther from the
   * start than the head of the queue has already been visited.
   */
  lemma {:induction false} Layered(m: Matrix, start: Pos, goal: Pos, q: seq<(Pos, int)>, visited: set<Pos>, done: set<Pos>, n: Pos)
    requires Frontier(m, start, goal, q, visited, done)
    requires InGrid(m, start) && |q| > 0
    requires InGrid(m, n) && Manhattan(start, n) <= q[0].1
    ensures n in visited
    decreases Manhattan(start, n)
  {
    if n != start {
      var p := StepToward(n, start);
      StepTowardInGrid(m, n, start);
      Layered(m, start, goal, q, visited, done, p);
      assert forall i :: 0 <= i < |q| ==> q[i].0 != p;
      assert Adj(p, n);
    }
  }

  /** A set holding the in-grid start and closed under in-grid moves holds the whole grid. */
  lemma {:induction false} Closed(m: Matrix, start: Pos, done: set<Pos>, n: Pos)
    requires InGrid(m, start) && start in done
    requires forall p, n :: p in done && InGrid(m, n) && Adj(p, n) ==> n in done
    requires InGrid(m, n)
    ensures n in done
    decreases Manhattan(start, n)
  {
    if n != start {
      var p := StepToward(n, start);
      StepTowardInGrid(m, n, start);
      Closed(m, start, done, p);
      assert Adj(p, n);
    }
  }

  /**
   * The inner loop over the four neighbours: every in-grid neighbour not yet
   * visited is marked visited and queued at distance `d + 1`, in order.
   */
  method Expand(m: Matrix, c: Pos, d: int, q: seq<(Pos, int)>, visited: set<Pos>)
    returns (q': seq<(Pos, int)>, visited': set<Pos>)
    ensures |q'| >= |q| && q'[..|q|] == q
    ensures visited <= visited'
    ensures forall p :: p in visited' ==> p in visited || Queued(q'[|q|..], p)
    ensures forall i :: |q| <= i < |q'| ==>
      && q'[i].0 in visited' && q'[i].0 !in visited
      && InGrid(m, q'[i].0) && Adj(c, q'[i].0) && q'[i].1 == d + 1
    ensures forall i, j :: |q| <= i < j < |q'| ==> q'[i].0 != q'[j].0
    ensures forall n :: InGrid(m, n) && Adj(c, n) ==> n in visited'
  {
    var ns := Neighbours(c);
    q', visited' := q, visited;
    var k := 0;
    while k < 4
      invariant 0 <= k <= 4
      invariant |q'| >= |q| && q'[..|q|] == q
      invariant visited <= visited'
      invariant forall p :: p in visited' ==> p in visited || Queued(q'[|q|..], p)
      invariant forall i :: |q| <= i < |q'| ==>
        && q'[i].0 in visited' && q'[i].0 !in visited
        && InGrid(m, q'[i].0) && Adj(c, q'[i].0) && q'[i].1 == d + 1
      invariant forall i, j :: |q| <= i < j < |q'| ==> q'[i].0 != q'[j].0
      invariant forall j :: 0 <= j < k && InGrid(m, ns[j]) ==> ns[j] in visited'
    {
      var n := ns[k];
      if InGrid(m, n) && n !in visited' {
        ghost var before := q';
        visited' := visited' + {n};
        q' := q' + [(n, d + 1)];
        assert q'[..|q|] == before[..|q|];
        forall p | p in visited' ensures p in visited || Queued(q'[|q|..], p) {
          if p == n {
            assert q'[|q|..][|q'| - 1 - |q|].0 == n;
          } else if p !in visited {
            var i :| 0 <= i < |before[|q|..]| && before[|q|..][i].0 == p;
            assert q'[|q|..][i].0 == p;
          }
        }
      }
      k := k + 1;
    }
  }

  /**
   * `_bfs_distance(start, goal)`: breadth-first search over the in-grid
   * cells. The start is returned at distance 0; a goal that is neither the
   * start nor inside the grid is never reached and raises; and with the
   * start in the grid, an in-grid goal is found at its Manhattan distance.
   * `dequeues` counts the queue pops: each cell is queued at most once.
   */
  method BfsDistance(m: Matrix, start: Pos, goal: Pos) returns (r: Result<int>, ghost dequeues: nat)
    requires WellFormed(m)
    ensures r.Success? ==> goal == start || InGrid(m, goal)
    ensures start == goal ==> r == Success(0)
    ensures InGrid(m, start) && InGrid(m, goal) ==> r == Success(Manhattan(start, goal))
    ensures dequeues <= |Universe(m, start)|
  {
    var q: seq<(Pos, int)> := [(start, 0)];
    var visited: set<Pos> := {start};
    ghost var done: set<Pos> := {};
    dequeues := 0;
    FrontierInit(m, start, goal);
    while |q| > 0
      invariant Frontier(m, start, goal, q, visited, done)
      invariant dequeues == |done|
      invariant start == goal ==> q == [(start, 0)]
      decreases |Universe(m, start) - visited|, |q|
    {
      var c := q[0].0;
      var d := q[0].1;
      if c == goal {
        SubsetCard(done + {c}, Universe(m, start));
        return Success(d), dequeues + 1;
      }
      var q', visited' := Expand(m, c, d, q[1..], visited);
      BfsStep(m, start, goal, q, visited, done, q', visited');
      q, visited, done := q', visited', done + {c};
      dequeues := dequeues + 1;
    }
    if InGrid(m, start) && InGrid(m, goal) {
      Closed(m, start, done, goal);
      assert false;
    }
    SubsetCard(done, Universe(m, start));
    r := Failure("ValueError: no path between the objects");
  }

  lemma FrontierInit(m: Matrix, start: Pos, goal: Pos)
    ensures Frontier(m, start, goal, [(start, 0)], {start}, {})
  {
    var q := [(start, 0)];
    assert q[0].0 == start;
  }

  lemma {:induction false} SubsetCard<T>(a: set<T>, b: set<T>)
    requires a <= b
    ensures |a| <= |b|
    decreases |a|
  {
    if a != {} {
      var x :| x in a;
      SubsetCard(a - {x}, b - {x});
    }
  }

  /** One round of the search keeps the breadth-first invariant. */
  lemma BfsStep(m: Matrix, start: Pos, goal: Pos, q: seq<(Pos, int)>, visited: set<Pos>, done: set<Pos>,
                q': seq<(Pos, int)>, visited': set<Pos>)
    requires Frontier(m, start, goal, q, visited, done)
    requires |q| > 0 && q[0].0 != goal
    requires Expanded(m, q[0].0, q[0].1, q[1..], visited, q', visited')
    ensures Frontier(m, start, goal, q', visited', done + {q[0].0})
    ensures q[0].0 !in done
    ensures |Universe(m, start) - visited'| < |Universe(m, start) - visited|
      || (|Universe(m, start) - visited'| == |Universe(m, start) - visited| && |q'| < |q|)
  {
    BfsMeasure(Universe(m, start), visited, visited', q, q');
    BfsShape(m, start, goal, q, visited, done, q', visited');
    BfsExact(m, start, goal, q, visited, done, q', visited');
    BfsQueueOpen(m, start, goal, q, visited, done, q', visited');
    BfsOpenQueued(m, start, goal, q, visited, done, q', visited');
  }

  /** After the round, every queued cell is visited and not finished. */
  lemma BfsQueueOpen(m: Matrix, start: Pos, goal: Pos, q: seq<(Pos, int)>, visited: set<Pos>, done: set<Pos>,
                     q': seq<(Pos, int)>, visited': set<Pos>)
    requires Frontier(m, start, goal, q, visited, done)
    requires |q| > 0
    requires Expanded(m, q[0].0, q[0].1, q[1..], visited, q', visited')
    ensures forall i :: 0 <= i < |q'| ==> q'[i].0 in visited' && q'[i].0 !in done + {q[0].0}
  {
    var done' := done + {q[0].0};
    var k := |q| - 1;
    forall i | 0 <= i < |q'| ensures q'[i].0 in visited' && q'[i].0 !in done' {
      if i < k {
        assert q'[i] == q[i + 1];
        assert q[i + 1].0 != q[0].0;
      }
    }
  }

  /** After the round, every visited cell that is not finished is queued. */
  lemma BfsOpenQueued(m: Matrix, start: Pos, goal: Pos, q: seq<(Pos, int)>, visited: set<Pos>, done: set<Pos>,
                      q': seq<(Pos, int)>, visited': set<Pos>)
    requires Frontier(m, start, goal, q, visited, done)
    requires |q| > 0
    requires Expanded(m, q[0].0, q[0].1, q[1..], visited, q', visited')
    ensures forall p :: p in visited' && p !in done + {q[0].0} ==> Queued(q', p)
  {
    var done' := done + {q[0].0};
    var k := |q| - 1;
    forall p | p in visited' && p !in done' ensures Queued(q', p) {
      if p in visited {
        var i :| 0 <= i < |q| && q[i].0 == p;
        assert i != 0;
        assert q'[i - 1] == q[1..][i - 1];
      } else {
        var i :| 0 <= i < |q'[k..]| && q'[k..][i].0 == p;
        assert q'[k + i].0 == p;
      }
    }
  }

  lemma BfsMeasure(u: set<Pos>, visited: set<Pos>, visited': set<Pos>, q: seq<(Pos, int)>, q': seq<(Pos, int)>)
    requires visited <= visited' <= u
    requires |q| > 0 && |q'| >= |q| - 1
    requires forall i :: |q| - 1 <= i < |q'| ==> q'[i].0 in visited' && q'[i].0 !in visited
    requires forall p :: p in visited' ==> p in visited || Queued(q'[|q| - 1..], p)
    ensures |u - visited'| < |u - visited| || (|u - visited'| == |u - visited| && |q'| < |q|)
  {
    if |q'| > |q| - 1 {
      var n := q'[|q| - 1].0;
      assert n in u - visited && n !in u - visited';
      SubsetCard(u - visited', (u - visited) - {n});
    } else {
      assert visited' == visited;
    }
  }

  lemma BfsShape(m: Matrix, start: Pos, goal: Pos, q: seq<(Pos, int)>, visited: set<Pos>, done: set<Pos>,
                 q': seq<(Pos, int)>, visited': set<Pos>)
    requires Frontier(m, start, goal, q, visited, done)
    requires |q| > 0
    requires Expanded(m, q[0].0, q[0].1, q[1..], visited, q', visited')
    ensures QueueShape(start, q')
  {
    var k := |q| - 1;
    assert forall i :: 0 <= i < k ==> q'[i] == q[i + 1];
    forall i, j | 0 <= i < j < |q'| ensures q'[i].0 != q'[j].0 && q'[i].1 <= q'[j].1 {
      if j < k {
        assert q'[i] == q[i + 1] && q'[j] == q[j + 1];
      } else if i < k {
        assert q'[i] == q[i + 1];
        assert q[i + 1].1 <= q[0].1 + 1;
        assert q'[i].0 in visited;
      }
    }
    forall i | 0 <= i < |q'| ensures q'[i].1 <= q'[0].1 + 1 && q'[i].1 >= 0 && (q'[i].0 == start ==> q'[i].1 == 0) {
      if i < k {
        assert q'[i] == q[i + 1];
        assert q[0].1 <= q[1].1;
      } else {
        assert q'[i].0 !in visited;
      }
      if k > 0 {
        assert q'[0] == q[1];
        assert q[0].1 <= q[1].1;
      }
    }
  }

  lemma BfsExact(m: Matrix, start: Pos, goal: Pos, q: seq<(Pos, int)>, visited: set<Pos>, done: set<Pos>,
                 q': seq<(Pos, int)>, visited': set<Pos>)
    requires Frontier(m, start, goal, q, visited, done)
    requires |q| > 0
    requires Expanded(m, q[0].0, q[0].1, q[1..], visited, q', visited')
    ensures Exact(m, start, q')
  {
    var c, d := q[0].0, q[0].1;
    var k := |q| - 1;
    if InGrid(m, start) {
      forall n | InGrid(m, n) && Manhattan(start, n) <= d ensures n in visited {
        Layered(m, start, goal, q, visited, done, n);
      }
      forall i | k <= i < |q'| ensures q'[i].1 == Manhattan(start, q'[i].0) {
        var n := q'[i].0;
        assert n !in visited;
        assert Manhattan(start, n) <= Manhattan(start, c) + 1;
        assert Manhattan(start, c) <= Manhattan(start, n) + 1;
      }
      forall i | 0 <= i < k ensures q'[i].1 == Manhattan(start, q'[i].0) {
        assert q'[i] == q[i + 1];
      }
    }
  }

  // ---------------------------------------------------------------------
  // _build_graph
  // ---------------------------------------------------------------------

  /**
   * `_build_graph`: an undirected edge between every two distinct found
   * nodes, weighted by the search distance between their cells. The
   * undirected edge {a, b} is stored under both (a, b) and (b, a); adding it a
   * second time from the other end overwrites the weight.
   */
  method BuildGraph(m: Matrix, pos: map<int, Pos>) returns (g: map<(int, int), int>)
    requires WellFormed(m)
    requires forall n :: n in pos ==> 0 <= n < NodeCount && InGrid(m, pos[n])
    ensures forall e :: e in g <==> e.0 in pos && e.1 in pos && e.0 != e.1
    ensures forall e :: e in g ==> g[e] == Manhattan(pos[e.0], pos[e.1]) && (e.1, e.0) in g && g[(e.1, e.0)] == g[e]
  {
    g := map[];
    var a := 0;
    while a < NodeCount
      invariant 0 <= a <= NodeCount
      invariant GraphInv(pos, g, a, 0)
    {
      var b := 0;
      while b < NodeCount
        invariant 0 <= b <= NodeCount
        invariant GraphInv(pos, g, a, b)
      {
        if a in pos && b in pos && a != b {
          var r, _ := BfsDistance(m, pos[a], pos[b]);
          AddEdge(pos, g, a, b, r.value);
          g := g[(a, b) := r.value][(b, a) := r.value];
        } else {
          SkipPair(pos, g, a, b);
        }
        b := b + 1;
      }
      NextSource(pos, g, a);
      a := a + 1;
    }
    GraphComplete(pos, g);
  }

  /** Once every source has been scanned, the graph holds every edge between found nodes, both ways. */
  lemma GraphComplete(pos: map<int, Pos>, g: map<(int, int), int>)
    requires forall n :: n in pos ==> 0 <= n < NodeCount
    requires GraphInv(pos, g, NodeCount, 0)
    ensures forall e :: e in g <==> e.0 in pos && e.1 in pos && e.0 != e.1
    ensures forall e :: e in g ==> g[e] == Manhattan(pos[e.0], pos[e.1]) && (e.1, e.0) in g && g[(e.1, e.0)] == g[e]
  {
    assert forall e :: Wanted(pos, e) ==> Covered(e, NodeCount, 0);
    forall e | e in g ensures (e.1, e.0) in g && g[(e.1, e.0)] == g[e] {
      assert Wanted(pos, (e.1, e.0)) && Covered((e.1, e.0), NodeCount, 0);
    }
  }

  /** After the loops reach (a, b): exactly the edges covered so far are present, with Manhattan weights. */
  ghost predicate GraphInv(pos: map<int, Pos>, g: map<(int, int), int>, a: int, b: int) {
    && (forall e :: e in g <==> Wanted(pos, e) && Covered(e, a, b))
    && (forall e :: e in g ==> e.0 in pos && e.1 in pos && g[e] == Manhattan(pos[e.0], pos[e.1]))
  }

  lemma AddEdge(pos: map<int, Pos>, g: map<(int, int), int>, a: int, b: int, w: int)
    requires GraphInv(pos, g, a, b)
    requires a in pos && b in pos && a != b && w == Manhattan(pos[a], pos[b])
    ensures GraphInv(pos, g[(a, b) := w][(b, a) := w], a, b + 1)
  {
  }

  lemma SkipPair(pos: map<int, Pos>, g: map<(int, int), int>, a: int, b: int)
    requires GraphInv(pos, g, a, b)
    requires !(a in pos && b in pos && a != b)
    ensures GraphInv(pos, g, a, b + 1)
  {
  }

  lemma NextSource(pos: map<int, Pos>, g: map<(int, int), int>, a: int)
    requires forall n :: n in pos ==> 0 <= n < NodeCount
    requires GraphInv(pos, g, a, NodeCount)
    ensures GraphInv(pos, g, a + 1, 0)
  {
  }

  /** The edge between two distinct found nodes. */
  predicate Wanted(pos: map<int, Pos>, e: (int, int)) {
    e.0 in pos && e.1 in pos && e.0 != e.1
  }

  /** The loops have added the edge once they reach (a, b): one end is below `a`, or is `a` with the other below `b`. */
  predicate Covered(e: (int, int), a: int, b: int) {
    e.0 < a || e.1 < a || (e.0 == a && e.1 < b) || (e.1 == a && e.0 < b)
  }

  /** `KitchenMap(matrix)`: the station positions and the graph over them. */
  method NewKitchenMap(m: Matrix) returns (pos: map<int, Pos>, g: map<(int, int), int>)
    requires WellFormed(m)
    ensures forall n :: n in pos <==> 0 <= n < NodeCount && exists p :: InGrid(m, p) && Code(m, p) == n + 1
    ensures forall e :: e in g <==> e.0 in pos && e.1 in pos && e.0 != e.1
    ensures forall e :: e in g ==> g[e] == Manhattan(pos[e.0], pos[e.1])
  {
    pos := ExtractNodes(m);
    g := BuildGraph(m, pos);
  }
}
