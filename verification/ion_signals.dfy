/**
 * `integrate` of the ion-signal code: a breadth-first flood fill from a
 * start cell over the 4-neighbours that lie in the image and within
 * Euclidean distance `r` of the start, summing the value of every cell it
 * takes off the queue. A cell is marked seen only when it is taken off the
 * queue, so a cell can be queued, and summed, more than once.
 */
module IonSignals {
  import opened Grids

  type Cell = (int, int)

  /** The i-th of the four moves, in the order the source tries them. */
  function Move(k: int): Cell
  {
    if k == 0 then (1, 0) else if k == 1 then (0, 1) else if k == 2 then (-1, 0) else (0, -1)
  }

  function Step(c: Cell, k: int): Cell
  {
    (c.0 + Move(k).0, c.1 + Move(k).1)
  }

  /** Orthogonal neighbours. */
  predicate Adjacent(a: Cell, b: Cell)
  {
    b == Step(a, 0) || b == Step(a, 1) || b == Step(a, 2) || b == Step(a, 3)
  }

  /** `0 <= row < len(data)` and `0 <= col < len(data[0])`. */
  predicate InBounds(data: Grid, c: Cell)
  {
    |data| > 0 && 0 <= c.0 < |data| && 0 <= c.1 < |data[0]|
  }

  /** The Euclidean norm of `c - start` is at most `r` (squared, which is the same test). */
  predicate WithinRadius(start: Cell, c: Cell, r: real)
  {
    r >= 0.0 && ((c.0 - start.0) * (c.0 - start.0) + (c.1 - start.1) * (c.1 - start.1)) as real <= r * r
  }

  /** The source's test for putting a neighbour on the queue (besides not yet seen). */
  predicate Admissible(data: Grid, start: Cell, r: real, c: Cell)
  {
    InBounds(data, c) && WithinRadius(start, c, r)
  }

  /** The sum of the values at the given cells, counting repeats. */
  function SumAt(data: Grid, cells: seq<Cell>): int
    requires IsRect(data)
    requires forall i :: 0 <= i < |cells| ==> InBounds(data, cells[i])
  {
    if |cells| == 0 then 0
    else
      var c := cells[|cells| - 1];
      assert InBounds(data, c);
      assert |data[c.0]| == Width(data);
      SumAt(data, cells[..|cells| - 1]) + data[c.0][c.1]
  }

  /** All cells of the image. */
  function Universe(data: Grid): set<Cell>
  {
    set i, j | 0 <= i < |data| && 0 <= j < Width(data) :: (i, j)
  }

  /** The number of queue entries that are already seen (a termination measure). */
  function SeenEntries(q: seq<Cell>, seen: set<Cell>): nat
  {
    if |q| == 0 then 0 else SeenEntries(q[..|q| - 1], seen) + (if q[|q| - 1] in seen then 1 else 0)
  }

  lemma {:induction false} SeenEntriesFront(q: seq<Cell>, seen: set<Cell>)
    requires |q| > 0
    ensures SeenEntries(q, seen) == (if q[0] in seen then 1 else 0) + SeenEntries(q[1..], seen)
  {
    if |q| > 1 {
      SeenEntriesFront(q[..|q| - 1], seen);
      assert q[..|q| - 1][1..] == q[1..][..|q| - 2];
    }
  }

  /** A cell other than the start is at distance at least 1 from it. */
  lemma OnlyStartWithinSubUnitRadius(start: Cell, c: Cell, r: real)
    requires r < 1.0 && c != start
    ensures !WithinRadius(start, c, r)
  {
    var dy, dx := c.0 - start.0, c.1 - start.1;
    if r >= 0.0 {
      assert dy * dy + dx * dx >= 1 by {
        if dy != 0 { assert dy * dy >= 1; } else { assert dx != 0; assert dx * dx >= 1; }
      }
      assert r * r < 1.0 by { assert r * r <= r * 1.0; }
    }
  }

  /** Appending cells that are not seen leaves the measure unchanged. */
  lemma {:induction false} SeenEntriesUnseenSuffix(q: seq<Cell>, extra: seq<Cell>, seen: set<Cell>)
    requires forall j :: 0 <= j < |extra| ==> extra[j] !in seen
    ensures SeenEntries(q + extra, seen) == SeenEntries(q, seen)
  {
    if |extra| == 0 {
      assert q + extra == q;
    } else {
      var e := extra[..|extra| - 1];
      assert (q + extra)[..|q + extra| - 1] == q + e;
      assert (q + extra)[|q + extra| - 1] == extra[|extra| - 1];
      SeenEntriesUnseenSuffix(q, e, seen);
    }
  }

  /**
   * The neighbours of `cell` among the first `n` moves, in move order, that
   * the loop appends: not seen, in the image and within the radius. Whether
   * a neighbour is already queued plays no part.
   */
  function Candidates(data: Grid, start: Cell, r: real, cell: Cell, seen: set<Cell>, n: nat): seq<Cell>
    requires n <= 4
  {
    if n == 0 then []
    else
      var c := Step(cell, n - 1);
      Candidates(data, start, r, cell, seen, n - 1) + (if c !in seen && Admissible(data, start, r, c) then [c] else [])
  }

  /**
   * The appended neighbours are unseen, admissible and next to `cell`, at
   * most one per move; and every admissible neighbour among the first `n`
   * moves is either seen or appended.
   */
  lemma {:induction false} CandidatesSound(data: Grid, start: Cell, r: real, cell: Cell, seen: set<Cell>, n: nat)
    requires n <= 4
    ensures var cs := Candidates(data, start, r, cell, seen, n);
      |cs| <= n
      && (forall j :: 0 <= j < |cs| ==> Admissible(data, start, r, cs[j]) && cs[j] !in seen && Adjacent(cell, cs[j]))
      && (forall k :: 0 <= k < n && Admissible(data, start, r, Step(cell, k)) ==> Step(cell, k) in seen || Step(cell, k) in cs)
  {
    if n > 0 {
      CandidatesSound(data, start, r, cell, seen, n - 1);
      var c := Step(cell, n - 1);
      assert Adjacent(cell, c) by {
        assert n - 1 == 0 || n - 1 == 1 || n - 1 == 2 || n - 1 == 3;
      }
    }
  }

  /**
   * The loop over the four moves: appends, in move order, each neighbour of
   * `cell` that is not seen, lies in the image and is within the radius.
   */
  method EnqueueNeighbours(data: Grid, start: Cell, r: real, cell: Cell, seen: set<Cell>, queue: seq<Cell>)
    returns (q: seq<Cell>)
    requires |data| > 0
    ensures q == queue + Candidates(data, start, r, cell, seen, 4)
    ensures |q| >= |queue| && q[..|queue|] == queue
    ensures forall j :: |queue| <= j < |q| ==> Admissible(data, start, r, q[j]) && q[j] !in seen && Adjacent(cell, q[j])
    ensures forall k :: 0 <= k < 4 && Admissible(data, start, r, Step(cell, k)) ==> Step(cell, k) in seen || Step(cell, k) in q
    ensures |q| <= |queue| + 4
  {
    var maxRows, maxCols := |data|, |data[0]|;
    q := queue;
    for d := 0 to 4
      invariant q == queue + Candidates(data, start, r, cell, seen, d)
    {
      var next := Step(cell, d);
      if next !in seen && next.0 >= 0 && next.1 >= 0 && next.0 < maxRows && next.1 < maxCols && WithinRadius(start, next, r) {
        q := q + [next];
      }
    }
    var cs := Candidates(data, start, r, cell, seen, 4);
    CandidatesSound(data, start, r, cell, seen, 4);
    assert forall j :: |queue| <= j < |q| ==> q[j] == cs[j - |queue|];
    assert forall c :: c in cs ==> c in q;
  }

  /** What holds of the cells visited so far; `parent[i]` is an earlier visit next to `visits[i]`. */
  ghost predicate Explored(data: Grid, start: Cell, r: real, visits: seq<Cell>, parent: seq<int>)
  {
    |parent| == |visits|
    && (|visits| > 0 ==> visits[0] == start)
    && (forall i :: 0 <= i < |visits| ==> InBounds(data, visits[i]))
    && (forall i :: 0 < i < |visits| ==> Admissible(data, start, r, visits[i]) && visits[i] != start)
    && (forall i :: 0 < i < |visits| ==> 0 <= parent[i] < i && Adjacent(visits[parent[i]], visits[i]))
  }

  /** What holds of the queue; `origin[j]` is a visit next to `queue[j]`. */
  ghost predicate Pending(data: Grid, start: Cell, r: real, visits: seq<Cell>, queue: seq<Cell>, origin: seq<int>)
  {
    |origin| == |queue|
    && (|visits| == 0 ==> queue == [start])
    && (forall j :: 0 <= j < |queue| ==> InBounds(data, queue[j]))
    && (|visits| > 0 ==> forall j :: 0 <= j < |queue| ==> Admissible(data, start, r, queue[j]) && queue[j] != start)
    && (|visits| > 0 ==> forall j :: 0 <= j < |queue| ==> 0 <= origin[j] < |visits| && Adjacent(visits[origin[j]], queue[j]))
  }

  /** Every admissible neighbour of a visit is seen or waiting in the queue. */
  ghost predicate Closed(data: Grid, start: Cell, r: real, visits: seq<Cell>, seen: set<Cell>, queue: seq<Cell>)
  {
    forall i, k :: 0 <= i < |visits| && 0 <= k < 4 && Admissible(data, start, r, Step(visits[i], k)) ==>
      Step(visits[i], k) in seen || Step(visits[i], k) in queue
  }

  /** The neighbours `EnqueueNeighbours` appended to `rest` to give `next`. */
  ghost predicate Enqueued(data: Grid, start: Cell, r: real, cell: Cell, seen: set<Cell>, rest: seq<Cell>, next: seq<Cell>)
  {
    |next| >= |rest| && next[..|rest|] == rest
    && (forall j :: |rest| <= j < |next| ==> Admissible(data, start, r, next[j]) && next[j] !in seen && Adjacent(cell, next[j]))
    && (forall k :: 0 <= k < 4 && Admissible(data, start, r, Step(cell, k)) ==> Step(cell, k) in seen || Step(cell, k) in next)
  }

  lemma ExploredStep(data: Grid, start: Cell, r: real, visits: seq<Cell>, parent: seq<int>, queue: seq<Cell>, origin: seq<int>)
    requires |queue| > 0
    requires Explored(data, start, r, visits, parent) && Pending(data, start, r, visits, queue, origin)
    ensures Explored(data, start, r, visits + [queue[0]], parent + [origin[0]])
  {
  }

  lemma PendingStep(data: Grid, start: Cell, r: real, visits: seq<Cell>, seen: set<Cell>, queue: seq<Cell>, origin: seq<int>, next: seq<Cell>)
    requires |queue| > 0 && start in seen + {queue[0]}
    requires Pending(data, start, r, visits, queue, origin)
    requires Enqueued(data, start, r, queue[0], seen + {queue[0]}, queue[1..], next)
    ensures Pending(data, start, r, visits + [queue[0]], next, origin[1..] + seq(|next| - |queue| + 1, _ => |visits|))
  {
    var visits', origin' := visits + [queue[0]], origin[1..] + seq(|next| - |queue| + 1, _ => |visits|);
    forall j | 0 <= j < |next|
      ensures InBounds(data, next[j])
      ensures Admissible(data, start, r, next[j]) && next[j] != start
      ensures 0 <= origin'[j] < |visits'| && Adjacent(visits'[origin'[j]], next[j])
    {
      if j < |queue| - 1 {
        assert next[j] == queue[j + 1];
        assert origin'[j] == origin[j + 1];
        if |visits| == 0 {
          assert false;
        }
        assert visits'[origin'[j]] == visits[origin[j + 1]];
      } else {
        assert origin'[j] == |visits|;
      }
    }
  }

  lemma ClosedStep(data: Grid, start: Cell, r: real, visits: seq<Cell>, seen: set<Cell>, queue: seq<Cell>, next: seq<Cell>)
    requires |queue| > 0
    requires Closed(data, start, r, visits, seen, queue)
    requires Enqueued(data, start, r, queue[0], seen + {queue[0]}, queue[1..], next)
    ensures Closed(data, start, r, visits + [queue[0]], seen + {queue[0]}, next)
  {
    var visits' := visits + [queue[0]];
    forall i, k | 0 <= i < |visits'| && 0 <= k < 4 && Admissible(data, start, r, Step(visits'[i], k))
      ensures Step(visits'[i], k) in seen + {queue[0]} || Step(visits'[i], k) in next
    {
      var c := Step(visits'[i], k);
      if i < |visits| {
        assert visits'[i] == visits[i];
        if c in queue && c !in seen + {queue[0]} {
          var j :| 0 <= j < |queue| && queue[j] == c;
          assert j > 0;
          assert next[j - 1] == queue[1..][j - 1];
        }
      }
    }
  }

  /** Each turn of the loop either sees a new cell or drops a queue entry that was already seen. */
  lemma MeasureDrops(data: Grid, seen: set<Cell>, queue: seq<Cell>, next: seq<Cell>)
    requires |queue| > 0 && InBounds(data, queue[0]) && seen <= Universe(data)
    requires |next| >= |queue| - 1 && next[..|queue| - 1] == queue[1..]
    requires forall j :: |queue| - 1 <= j < |next| ==> next[j] !in seen + {queue[0]}
    ensures var seen' := seen + {queue[0]};
      |Universe(data) - seen'| < |Universe(data) - seen|
      || (|Universe(data) - seen'| == |Universe(data) - seen| && SeenEntries(next, seen') < SeenEntries(queue, seen))
  {
    var cell := queue[0];
    SeenEntriesFront(queue, seen);
    assert next == queue[1..] + next[|queue| - 1..];
    var extra := next[|queue| - 1..];
    forall j | 0 <= j < |extra|
      ensures extra[j] !in seen + {cell}
    {
      assert extra[j] == next[|queue| - 1 + j];
    }
    SeenEntriesUnseenSuffix(queue[1..], next[|queue| - 1..], seen + {cell});
    if cell !in seen {
      assert cell in Universe(data);
      assert Universe(data) - (seen + {cell}) < Universe(data) - seen;
    } else {
      assert seen + {cell} == seen;
    }
  }

  /** The loop invariant of `integrate`, with the ghost witnesses `parent` and `origin`. */
  ghost predicate LoopInv(data: Grid, start: Cell, r: real, res: int, seen: set<Cell>, queue: seq<Cell>,
                          visits: seq<Cell>, parent: seq<int>, origin: seq<int>)
  {
    IsRect(data)
    && Explored(data, start, r, visits, parent)
    && Pending(data, start, r, visits, queue, origin)
    && Closed(data, start, r, visits, seen, queue)
    && res == SumAt(data, visits)
    && (forall c :: c in seen <==> c in visits)
    && seen <= Universe(data)
  }

  lemma LoopInvInit(data: Grid, start: Cell, r: real)
    requires IsRect(data) && InBounds(data, start)
    ensures LoopInv(data, start, r, 0, {}, [start], [], [], [0])
  {
  }

  /** The queue's witnesses after a turn: the head's is dropped and `n` new entries come from visit `v`. */
  function NextOrigin(origin: seq<int>, n: int, v: int): seq<int>
    requires |origin| > 0 && n >= 0
  {
    origin[1..] + seq(n, _ => v)
  }

  /** One turn of the loop keeps the invariant and lowers the termination measure. */
  lemma LoopInvStep(data: Grid, start: Cell, r: real, res: int, seen: set<Cell>, queue: seq<Cell>,
                    visits: seq<Cell>, parent: seq<int>, origin: seq<int>, next: seq<Cell>)
    requires LoopInv(data, start, r, res, seen, queue, visits, parent, origin) && |queue| > 0
    requires Enqueued(data, start, r, queue[0], seen + {queue[0]}, queue[1..], next)
    ensures InBounds(data, queue[0]) && |origin| == |queue|
    ensures LoopInv(data, start, r, res + data[queue[0].0][queue[0].1], seen + {queue[0]}, next,
                    visits + [queue[0]], parent + [origin[0]], NextOrigin(origin, |next| - |queue| + 1, |visits|))
    ensures var seen' := seen + {queue[0]};
      |Universe(data) - seen'| < |Universe(data) - seen|
      || (|Universe(data) - seen'| == |Universe(data) - seen| && SeenEntries(next, seen') < SeenEntries(queue, seen))
  {
    var cell := queue[0];
    assert start in seen + {cell} by {
      if |visits| == 0 {
        assert cell == start;
      } else {
        assert visits[0] in seen;
      }
    }
    ExploredStep(data, start, r, visits, parent, queue, origin);
    PendingStep(data, start, r, visits, seen, queue, origin, next);
    ClosedStep(data, start, r, visits, seen, queue, next);
    MeasureDrops(data, seen, queue, next);
    assert (visits + [cell])[..|visits|] == visits;
  }

  /** When the queue is empty the invariant gives the promised result. */
  lemma LoopInvExit(data: Grid, start: Cell, r: real, res: int, seen: set<Cell>,
                    visits: seq<Cell>, parent: seq<int>, origin: seq<int>)
    requires InBounds(data, start)
    requires LoopInv(data, start, r, res, seen, [], visits, parent, origin)
    requires |visits| > 0
    ensures visits[0] == start
    ensures forall i :: 0 <= i < |visits| ==> InBounds(data, visits[i])
    ensures res == SumAt(data, visits)
    ensures forall i :: 0 < i < |visits| ==> Admissible(data, start, r, visits[i]) && visits[i] != start
    ensures forall i :: 0 < i < |visits| ==> exists k :: 0 <= k < i && Adjacent(visits[k], visits[i])
    ensures forall i, k :: 0 <= i < |visits| && 0 <= k < 4 && Admissible(data, start, r, Step(visits[i], k)) ==>
      Step(visits[i], k) in visits
    ensures r < 1.0 ==> visits == [start] && res == data[start.0][start.1]
  {
    forall i | 0 < i < |visits|
      ensures exists k :: 0 <= k < i && Adjacent(visits[k], visits[i])
    {
      assert Adjacent(visits[parent[i]], visits[i]);
    }
    if r < 1.0 {
      if |visits| > 1 {
        OnlyStartWithinSubUnitRadius(start, visits[1], r);
      }
      assert visits == [start];
      assert visits[..0] == [];
    }
  }

  /**
   * One pass of `integrate`'s loop: take the front cell off the queue, mark
   * it seen, add its value and enqueue its admissible unseen neighbours. The
   * loop invariant is kept and the termination measure drops.
   */
  method VisitFront(data: Grid, start: Cell, r: real, res0: int, seen0: set<Cell>, queue0: seq<Cell>,
                    ghost visits0: seq<Cell>, ghost parent0: seq<int>, ghost origin0: seq<int>)
    returns (res: int, seen: set<Cell>, queue: seq<Cell>, ghost visits: seq<Cell>, ghost parent: seq<int>, ghost origin: seq<int>)
    requires LoopInv(data, start, r, res0, seen0, queue0, visits0, parent0, origin0) && |queue0| > 0
    ensures LoopInv(data, start, r, res, seen, queue, visits, parent, origin)
    ensures seen == seen0 + {queue0[0]} && visits == visits0 + [queue0[0]]
    ensures queue == queue0[1..] + Candidates(data, start, r, queue0[0], seen0 + {queue0[0]}, 4)
    ensures |Universe(data) - seen| < |Universe(data) - seen0|
      || (|Universe(data) - seen| == |Universe(data) - seen0| && SeenEntries(queue, seen) < SeenEntries(queue0, seen0))
  {
    var cell := queue0[0];
    var next := EnqueueNeighbours(data, start, r, cell, seen0 + {cell}, queue0[1..]);
    LoopInvStep(data, start, r, res0, seen0, queue0, visits0, parent0, origin0, next);
    seen, res, visits, parent, origin, queue :=
      seen0 + {cell}, res0 + data[cell.0][cell.1], visits0 + [cell], parent0 + [origin0[0]],
      NextOrigin(origin0, |next| - |queue0| + 1, |visits0|), next;
  }

  /**
   * `integrate`: returns the flood-fill sum. `visits` is the order in which
   * cells were taken off the queue; the result is the sum over it, repeats
   * included. The visited cells are exactly those connected to the start
   * through admissible cells: every later visit is next to an earlier one,
   * and every admissible neighbour of a visit is itself visited.
   */
  method Integrate(data: Grid, row: int, col: int, r: real) returns (res: int, ghost visits: seq<Cell>)
    requires IsRect(data) && InBounds(data, (row, col))
    ensures |visits| > 0 && visits[0] == (row, col)
    ensures forall i :: 0 <= i < |visits| ==> InBounds(data, visits[i])
    ensures res == SumAt(data, visits)
    ensures forall i :: 0 < i < |visits| ==> Admissible(data, (row, col), r, visits[i]) && visits[i] != (row, col)
    ensures forall i :: 0 < i < |visits| ==> exists k :: 0 <= k < i && Adjacent(visits[k], visits[i])
    ensures forall i, k :: 0 <= i < |visits| && 0 <= k < 4 && Admissible(data, (row, col), r, Step(visits[i], k)) ==>
      Step(visits[i], k) in visits
    ensures r < 1.0 ==> visits == [(row, col)]
    ensures r < 1.0 ==> res == data[row][col]
  {
    var start := (row, col);
    res := 0;
    var seen: set<Cell> := {};
    var queue: seq<Cell> := [start];
    visits := [];
    // parent[i] is an earlier visit next to visits[i]; origin[j] a visit next to queue[j]
    ghost var parent: seq<int> := [];
    ghost var origin: seq<int> := [0];
    LoopInvInit(data, start, r);
    while |queue| > 0
      invariant LoopInv(data, start, r, res, seen, queue, visits, parent, origin)
      invariant |visits| == 0 ==> |queue| > 0
      decreases |Universe(data) - seen|, SeenEntries(queue, seen)
    {
      res, seen, queue, visits, parent, origin := VisitFront(data, start, r, res, seen, queue, visits, parent, origin);
    }
    LoopInvExit(data, start, r, res, seen, visits, parent, origin);
  }
}
