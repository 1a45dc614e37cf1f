/**
 * The ion event-counting kernel `event_counting`: scan the interior of a
 * frame, keep the offset-corrected pixels that reach the threshold and have
 * no strictly greater neighbour in their window, stamp each one's weight
 * into a square footprint of a fresh map, and count them.
 *
 * The specification is functional: `IsPeak` says which centres are
 * detections, `Painted` replays the raster scan cell by cell, and the method
 * `EventCounting` is proved to produce exactly `EventMap` and `|Peaks|`.
 */
module IonEventCounting {
  import opened Grids

  /** The kernel's arguments besides the frame (`nxnarea` is the window side). */
  datatype Params = Params(
    threshold: int,
    mode: int,
    nxnarea: int,
    multiplyFactor: int,
    intOffset: int,
    eventSize: int)

  /**
   * A non-negative window, and a footprint no wider than the window's half
   * so that every footprint write of an interior peak stays in the frame.
   */
  predicate ParamsOk(p: Params)
  {
    p.nxnarea >= 0 && p.eventSize / 2 <= p.nxnarea / 2
  }

  /** `nxnarea // 2`: the width of the unscanned border. */
  function Half(p: Params): int
  {
    p.nxnarea / 2
  }

  /** `event_size // 2` (floor division, as in Python, for every sign). */
  function HalfEvent(p: Params): int
  {
    p.eventSize / 2
  }

  function Max(a: int, b: int): int
  {
    if a < b then b else a
  }

  /** One past the last scanned row; `Half(p)` when no row is scanned. */
  function RowEnd(g: Grid, p: Params): int
  {
    Max(Half(p), |g| - Half(p))
  }

  /** One past the last scanned column; `Half(p)` when no column is scanned. */
  function ColEnd(g: Grid, p: Params): int
  {
    Max(Half(p), Width(g) - Half(p))
  }

  /** (y, x) is a scanned centre: at least `Half(p)` away from every edge. */
  predicate Interior(g: Grid, p: Params, y: int, x: int)
  {
    Half(p) <= y < |g| - Half(p) && Half(p) <= x < Width(g) - Half(p)
  }

  /** `input_buffer[y, x] - int_offset`. */
  function Corrected(g: Grid, p: Params, y: int, x: int): int
    requires 0 <= y < |g| && 0 <= x < |g[y]|
  {
    g[y][x] - p.intOffset
  }

  /** (i, j) is one of the other cells of the window centred on (y, x). */
  predicate InWindow(p: Params, y: int, x: int, i: int, j: int)
  {
    y - Half(p) <= i <= y + Half(p) && x - Half(p) <= j <= x + Half(p) && (i, j) != (y, x)
  }

  /** Some other window cell has a strictly greater corrected value. */
  predicate Dominated(g: Grid, p: Params, y: int, x: int)
    requires IsRect(g) && ParamsOk(p) && Interior(g, p, y, x)
  {
    exists i, j | y - Half(p) <= i <= y + Half(p) && x - Half(p) <= j <= x + Half(p) ::
      InWindow(p, y, x, i, j) && g[i][j] - p.intOffset > g[y][x] - p.intOffset
  }

  /** A detection: corrected value at least the threshold, and not dominated (ties survive). */
  predicate IsPeak(g: Grid, p: Params, y: int, x: int)
    requires IsRect(g) && ParamsOk(p) && Interior(g, p, y, x)
  {
    Corrected(g, p, y, x) >= p.threshold && !Dominated(g, p, y, x)
  }

  /** The weight stamped for a peak of corrected value `value`. */
  function Weight(p: Params, value: int): int
  {
    if p.mode >= 10 then value * p.multiplyFactor else p.multiplyFactor
  }

  /** (r, c) lies in the square of half side `he` centred on (y, x). */
  predicate InSquare(y: int, x: int, he: int, r: int, c: int)
  {
    y - he <= r <= y + he && x - he <= c <= x + he
  }

  /** (r, c) lies in the footprint of a peak at (y, x). */
  predicate Covers(p: Params, y: int, x: int, r: int, c: int)
  {
    InSquare(y, x, HalfEvent(p), r, c)
  }

  /**
   * A point of the raster scan: rows `Half(p)..y-1` are done and row `y` is
   * done up to column `x - 1`; the final point is (RowEnd, Half).
   */
  predicate ScanPoint(g: Grid, p: Params, y: int, x: int)
  {
    Half(p) <= y <= RowEnd(g, p) && Half(p) <= x <= ColEnd(g, p) && (y == RowEnd(g, p) ==> x == Half(p))
  }

  /** (i, j) is a peak the scan has passed by the point (y, x). */
  predicate PeakBefore(g: Grid, p: Params, i: int, j: int, y: int, x: int)
    requires IsRect(g) && ParamsOk(p)
  {
    Interior(g, p, i, j) && (i < y || (i == y && j < x)) && IsPeak(g, p, i, j)
  }

  /**
   * The value of map cell (r, c) once the scan has reached (y, x): each
   * peak passed overwrites its footprint with its weight, so the last
   * covering peak in raster order decides the cell.
   */
  function Painted(g: Grid, p: Params, r: int, c: int, y: int, x: int): int
    requires IsRect(g) && ParamsOk(p) && ScanPoint(g, p, y, x)
    decreases y, x
  {
    if x > Half(p) then
      var before := Painted(g, p, r, c, y, x - 1);
      if IsPeak(g, p, y, x - 1) && Covers(p, y, x - 1, r, c) then Weight(p, Corrected(g, p, y, x - 1))
      else before
    else if y > Half(p) then
      Painted(g, p, r, c, y - 1, ColEnd(g, p))
    else
      0
  }

  /** Cell (r, c) of the kernel's output map. */
  function MapAt(g: Grid, p: Params, r: int, c: int): int
    requires IsRect(g) && ParamsOk(p)
  {
    Painted(g, p, r, c, RowEnd(g, p), Half(p))
  }

  /** The kernel's output map: the frame's shape, each cell as `MapAt`. */
  function EventMap(g: Grid, p: Params): (m: Grid)
    requires IsRect(g) && ParamsOk(p)
    ensures IsRect(m) && SameShape(m, g)
    ensures forall r, c :: 0 <= r < |g| && 0 <= c < Width(g) ==> m[r][c] == MapAt(g, p, r, c)
  {
    seq(|g|, r requires 0 <= r < |g| => seq(Width(g), c => MapAt(g, p, r, c)))
  }

  /** The detections the scan has passed by (y, x). */
  function PeaksBefore(g: Grid, p: Params, y: int, x: int): set<(int, int)>
    requires IsRect(g) && ParamsOk(p)
  {
    set i, j | Half(p) <= i < |g| - Half(p) && Half(p) <= j < Width(g) - Half(p) && PeakBefore(g, p, i, j, y, x) :: (i, j)
  }

  /** All detections of the frame. */
  function Peaks(g: Grid, p: Params): set<(int, int)>
    requires IsRect(g) && ParamsOk(p)
  {
    set i, j | Half(p) <= i < |g| - Half(p) && Half(p) <= j < Width(g) - Half(p) && IsPeak(g, p, i, j) :: (i, j)
  }

  // ---------------------------------------------------------------------------
  // Lemmas about the specification
  // ---------------------------------------------------------------------------

  /** Scanning one more centre adds it to the passed peaks exactly when it is a peak. */
  lemma PeaksBeforeStep(g: Grid, p: Params, y: int, x: int)
    requires IsRect(g) && ParamsOk(p) && Interior(g, p, y, x)
    ensures (y, x) !in PeaksBefore(g, p, y, x)
    ensures PeaksBefore(g, p, y, x + 1) ==
      PeaksBefore(g, p, y, x) + (if IsPeak(g, p, y, x) then {(y, x)} else {})
  {
    var a, b := PeaksBefore(g, p, y, x), PeaksBefore(g, p, y, x + 1);
    if IsPeak(g, p, y, x) {
      assert PeakBefore(g, p, y, x, y, x + 1);
      assert (y, x) in b;
    }
  }

  /** Reaching the end of a row is the same point as the start of the next. */
  lemma PeaksBeforeNextRow(g: Grid, p: Params, y: int)
    requires IsRect(g) && ParamsOk(p) && Half(p) <= y
    ensures PeaksBefore(g, p, y + 1, Half(p)) == PeaksBefore(g, p, y, ColEnd(g, p))
  {
  }

  /** At the end of the scan every detection has been passed. */
  lemma PeaksBeforeEnd(g: Grid, p: Params)
    requires IsRect(g) && ParamsOk(p)
    ensures PeaksBefore(g, p, RowEnd(g, p), Half(p)) == Peaks(g, p)
  {
  }

  /** A cell no passed peak covers still holds the initial 0. */
  lemma {:induction false} PaintedZero(g: Grid, p: Params, r: int, c: int, y: int, x: int)
    requires IsRect(g) && ParamsOk(p) && ScanPoint(g, p, y, x)
    requires forall i, j :: PeakBefore(g, p, i, j, y, x) ==> !Covers(p, i, j, r, c)
    ensures Painted(g, p, r, c, y, x) == 0
    decreases y, x
  {
    if x > Half(p) {
      assert forall i, j :: PeakBefore(g, p, i, j, y, x - 1) ==> PeakBefore(g, p, i, j, y, x);
      PaintedZero(g, p, r, c, y, x - 1);
      if IsPeak(g, p, y, x - 1) {
        assert PeakBefore(g, p, y, x - 1, y, x);
      }
    } else if y > Half(p) {
      assert forall i, j :: PeakBefore(g, p, i, j, y - 1, ColEnd(g, p)) ==> PeakBefore(g, p, i, j, y, x);
      PaintedZero(g, p, r, c, y - 1, ColEnd(g, p));
    }
  }

  /**
   * Last write wins: if (a, b) is the raster-last passed peak whose
   * footprint covers (r, c), the cell holds (a, b)'s weight.
   */
  lemma {:induction false} PaintedLast(g: Grid, p: Params, r: int, c: int, y: int, x: int, a: int, b: int)
    requires IsRect(g) && ParamsOk(p) && ScanPoint(g, p, y, x)
    requires PeakBefore(g, p, a, b, y, x) && Covers(p, a, b, r, c)
    requires forall i, j :: PeakBefore(g, p, i, j, y, x) && Covers(p, i, j, r, c) ==> i < a || (i == a && j <= b)
    ensures Painted(g, p, r, c, y, x) == Weight(p, Corrected(g, p, a, b))
    decreases y, x
  {
    if x > Half(p) {
      if (a, b) != (y, x - 1) {
        assert forall i, j :: PeakBefore(g, p, i, j, y, x - 1) ==> PeakBefore(g, p, i, j, y, x);
        if IsPeak(g, p, y, x - 1) {
          assert PeakBefore(g, p, y, x - 1, y, x);
        }
        PaintedLast(g, p, r, c, y, x - 1, a, b);
      }
    } else if y > Half(p) {
      assert forall i, j :: PeakBefore(g, p, i, j, y - 1, ColEnd(g, p)) ==> PeakBefore(g, p, i, j, y, x);
      PaintedLast(g, p, r, c, y - 1, ColEnd(g, p), a, b);
    }
  }

  /** Every map cell outside all detected footprints is 0. */
  lemma ZeroOutsideFootprints(g: Grid, p: Params, r: int, c: int)
    requires IsRect(g) && ParamsOk(p)
    requires forall i, j :: Interior(g, p, i, j) && IsPeak(g, p, i, j) ==> !Covers(p, i, j, r, c)
    ensures MapAt(g, p, r, c) == 0
  {
    PaintedZero(g, p, r, c, RowEnd(g, p), Half(p));
  }

  /**
   * Where footprints overlap, the detection latest in raster order decides
   * the cell: the map holds its weight.
   */
  lemma LastWriteWins(g: Grid, p: Params, r: int, c: int, a: int, b: int)
    requires IsRect(g) && ParamsOk(p)
    requires Interior(g, p, a, b) && IsPeak(g, p, a, b) && Covers(p, a, b, r, c)
    requires forall i, j :: Interior(g, p, i, j) && IsPeak(g, p, i, j) && Covers(p, i, j, r, c) ==>
      i < a || (i == a && j <= b)
    ensures MapAt(g, p, r, c) == Weight(p, Corrected(g, p, a, b))
  {
    PaintedLast(g, p, r, c, RowEnd(g, p), Half(p), a, b);
  }

  /**
   * Border rule: a frame with no more than `2 * Half(p)` rows or columns has
   * no scanned centre, so it has no detection and an all-zero map.
   */
  lemma SmallFrameIsBlank(g: Grid, p: Params)
    requires IsRect(g) && ParamsOk(p)
    requires |g| <= 2 * Half(p) || Width(g) <= 2 * Half(p)
    ensures Peaks(g, p) == {}
    ensures forall r, c :: 0 <= r < |g| && 0 <= c < Width(g) ==> EventMap(g, p)[r][c] == 0
  {
    forall r, c | 0 <= r < |g| && 0 <= c < Width(g)
      ensures MapAt(g, p, r, c) == 0
    {
      ZeroOutsideFootprints(g, p, r, c);
    }
  }

  /**
   * With a fixed weight (`mode < 10`) and a single-pixel footprint
   * (`event_size` 0 or 1), the map holds `multiply_factor` exactly at the
   * detections and 0 everywhere else.
   */
  lemma SinglePixelFixedWeight(g: Grid, p: Params, r: int, c: int)
    requires IsRect(g) && ParamsOk(p) && p.mode < 10 && HalfEvent(p) == 0
    ensures MapAt(g, p, r, c) == if Interior(g, p, r, c) && IsPeak(g, p, r, c) then p.multiplyFactor else 0
  {
    if Interior(g, p, r, c) && IsPeak(g, p, r, c) {
      LastWriteWins(g, p, r, c, r, c);
    } else {
      ZeroOutsideFootprints(g, p, r, c);
    }
  }

  /**
   * Ties do not suppress: an interior centre that reaches the threshold and
   * has no window cell above it is a detection, even when neighbours equal it.
   */
  lemma TiesDoNotSuppress(g: Grid, p: Params, y: int, x: int)
    requires IsRect(g) && ParamsOk(p) && Interior(g, p, y, x)
    requires Corrected(g, p, y, x) >= p.threshold
    requires forall i, j :: InWindow(p, y, x, i, j) ==> g[i][j] <= g[y][x]
    ensures IsPeak(g, p, y, x)
  {
  }

  // ---------------------------------------------------------------------------
  // The kernel
  // ---------------------------------------------------------------------------

  /**
   * The window test of one candidate: scan the window row by row and stop at
   * the first other cell whose corrected value exceeds `value`.
   */
  method CheckPeak(frame: Grid, p: Params, y: int, x: int, value: int) returns (isPeak: bool)
    requires IsRect(frame) && ParamsOk(p) && Interior(frame, p, y, x)
    requires value == Corrected(frame, p, y, x)
    ensures isPeak <==> !Dominated(frame, p, y, x)
  {
    var half := p.nxnarea / 2;
    isPeak := true;
    ghost var wi, wj := y, x;
    var dy := -half;
    while dy <= half
      invariant -half <= dy <= half + 1
      invariant isPeak
      invariant forall i, j :: InWindow(p, y, x, i, j) && i < y + dy ==> frame[i][j] - p.intOffset <= value
    {
      var i, dx := y + dy, -half;
      while dx <= half
        invariant -half <= dx <= half + 1
        invariant isPeak
        invariant forall j :: InWindow(p, y, x, i, j) && j < x + dx ==> frame[i][j] - p.intOffset <= value
      {
        if (dy, dx) != (0, 0) && frame[i][x + dx] - p.intOffset > value {
          isPeak := false;
          wi, wj := y + dy, x + dx;
          break;
        }
        dx := dx + 1;
      }
      if !isPeak {
        break;
      }
      dy := dy + 1;
    }
    if !isPeak {
      assert InWindow(p, y, x, wi, wj) && frame[wi][wj] - p.intOffset > value;
    }
  }

  /** Write `w` into the square of half side `he` centred on (y, x). */
  method Stamp(ev: array2<int>, y: int, x: int, he: int, w: int)
    requires he <= y && y + he < ev.Length0 && he <= x && x + he < ev.Length1
    modifies ev
    ensures forall r, c :: 0 <= r < ev.Length0 && 0 <= c < ev.Length1 ==>
      ev[r, c] == if InSquare(y, x, he, r, c) then w else old(ev[r, c])
  {
    if he < 0 {
      return;
    }
    var ey := -he;
    while ey <= he
      invariant -he <= ey <= he + 1
      invariant forall r, c :: 0 <= r < ev.Length0 && 0 <= c < ev.Length1 ==>
        ev[r, c] == if InSquare(y, x, he, r, c) && r < y + ey then w else old(ev[r, c])
    {
      var ex := -he;
      while ex <= he
        invariant -he <= ex <= he + 1
        invariant forall r, c :: 0 <= r < ev.Length0 && 0 <= c < ev.Length1 ==>
          ev[r, c] == if InSquare(y, x, he, r, c) && (r < y + ey || (r == y + ey && c < x + ex)) then w else old(ev[r, c])
      {
        ev[y + ey, x + ex] := w;
        ex := ex + 1;
      }
      ey := ey + 1;
    }
  }

  /**
   * The body of the inner loop at centre (y, x): test it and, when it is a
   * detection, stamp its footprint and count it.
   */
  method ScanCentre(frame: Grid, p: Params, ev: array2<int>, y: int, x: int, n0: int) returns (n: int)
    requires IsRect(frame) && ParamsOk(p) && Interior(frame, p, y, x)
    requires ev.Length0 == |frame| && ev.Length1 == Width(frame)
    requires forall r, c :: 0 <= r < ev.Length0 && 0 <= c < ev.Length1 ==> ev[r, c] == Painted(frame, p, r, c, y, x)
    requires n0 == |PeaksBefore(frame, p, y, x)|
    modifies ev
    ensures forall r, c :: 0 <= r < ev.Length0 && 0 <= c < ev.Length1 ==> ev[r, c] == Painted(frame, p, r, c, y, x + 1)
    ensures n == |PeaksBefore(frame, p, y, x + 1)|
  {
    n := n0;
    var value := frame[y][x] - p.intOffset;
    var isPeak := false;
    if value >= p.threshold {
      isPeak := CheckPeak(frame, p, y, x, value);
      if isPeak {
        var adjusted := if p.mode >= 10 then value * p.multiplyFactor else p.multiplyFactor;
        Stamp(ev, y, x, p.eventSize / 2, adjusted);
        n := n + 1;
      }
    }
    assert isPeak == IsPeak(frame, p, y, x);
    PeaksBeforeStep(frame, p, y, x);
  }

  /**
   * One pass of the outer loop: scan row `y` from left to right, testing
   * each centre and stamping the footprint of each detection.
   */
  method ScanRow(frame: Grid, p: Params, ev: array2<int>, y: int, n0: int) returns (n: int)
    requires IsRect(frame) && ParamsOk(p) && Half(p) <= y < |frame| - Half(p)
    requires ev.Length0 == |frame| && ev.Length1 == Width(frame)
    requires forall r, c :: 0 <= r < ev.Length0 && 0 <= c < ev.Length1 ==> ev[r, c] == Painted(frame, p, r, c, y, Half(p))
    requires n0 == |PeaksBefore(frame, p, y, Half(p))|
    modifies ev
    ensures forall r, c :: 0 <= r < ev.Length0 && 0 <= c < ev.Length1 ==> ev[r, c] == Painted(frame, p, r, c, y + 1, Half(p))
    ensures n == |PeaksBefore(frame, p, y + 1, Half(p))|
  {
    n := n0;
    var half := p.nxnarea / 2;
    var maxcol := ev.Length1;
    var x := half;
    while x < maxcol - half
      invariant half <= x <= ColEnd(frame, p)
      invariant forall r, c :: 0 <= r < ev.Length0 && 0 <= c < ev.Length1 ==> ev[r, c] == Painted(frame, p, r, c, y, x)
      invariant n == |PeaksBefore(frame, p, y, x)|
    {
      n := ScanCentre(frame, p, ev, y, x, n);
      x := x + 1;
    }
    PeaksBeforeNextRow(frame, p, y);
  }

  /**
   * `event_counting`: returns the event map and the number of detections.
   * The map has the frame's shape and equals `EventMap`; the count is the
   * number of detections.
   */
  method EventCounting(frame: Grid, p: Params) returns (ev: array2<int>, n: int)
    requires IsRect(frame) && ParamsOk(p)
    ensures fresh(ev) && ev.Length0 == |frame| && ev.Length1 == Width(frame)
    ensures Contents(ev) == EventMap(frame, p)
    ensures n == |Peaks(frame, p)|
  {
    var maxrow, maxcol := |frame|, Width(frame);
    ev := new int[maxrow, maxcol]((i, j) => 0);
    n := 0;
    var half := p.nxnarea / 2;
    var y := half;
    while y < maxrow - half
      invariant half <= y <= RowEnd(frame, p)
      invariant forall r, c :: 0 <= r < maxrow && 0 <= c < maxcol ==> ev[r, c] == Painted(frame, p, r, c, y, half)
      invariant n == |PeaksBefore(frame, p, y, half)|
    {
      n := ScanRow(frame, p, ev, y, n);
      y := y + 1;
    }
    PeaksBeforeEnd(frame, p);
    GridExt(Contents(ev), EventMap(frame, p));
  }
}
