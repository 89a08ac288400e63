/**
 * The backward walk that recovers a route from final g-values, stated as
 * functions: the choice the inner loop makes among a cell's neighbours,
 * the walk from the goal back to the start, and the route it yields.
 */
module Reconstruction {
  import opened Wrappers
  import opened Grid
  import opened Costs

  /**
   * The index of the neighbour the inner loop settles on: scanning the
   * neighbours in order with a running minimum that starts at INFINITY and
   * is replaced only on a strictly smaller g-value.  None when every
   * neighbour reads INFINITY or more.
   */
  function MinIndex(g: map<Cell, int>, ns: seq<Cell>): (r: Option<nat>)
    ensures r.Some? ==> r.value < |ns| && GValueOf(g, ns[r.value]) < INFINITY
    ensures r.Some? ==> forall j :: 0 <= j < |ns| ==> GValueOf(g, ns[r.value]) <= GValueOf(g, ns[j])
    ensures r.Some? ==> forall j :: 0 <= j < r.value ==> GValueOf(g, ns[r.value]) < GValueOf(g, ns[j])
    ensures r.None? <==> forall j :: 0 <= j < |ns| ==> GValueOf(g, ns[j]) >= INFINITY
    decreases |ns|
  {
    if ns == [] then None
    else
      var earlier := MinIndex(g, ns[..|ns| - 1]);
      var best := if earlier.Some? then GValueOf(g, ns[earlier.value]) else INFINITY;
      if GValueOf(g, ns[|ns| - 1]) < best then Some(|ns| - 1) else earlier
  }

  /** The running minimum the inner loop holds after scanning `ns`. */
  function MinValue(g: map<Cell, int>, ns: seq<Cell>): (v: int)
    ensures v <= INFINITY
    ensures forall j :: 0 <= j < |ns| ==> v <= GValueOf(g, ns[j]) || GValueOf(g, ns[j]) >= INFINITY
    ensures v == INFINITY || exists j :: 0 <= j < |ns| && v == GValueOf(g, ns[j])
  {
    match MinIndex(g, ns)
    case None => INFINITY
    case Some(k) => GValueOf(g, ns[k])
  }

  /** The neighbour chosen does not depend on cells that were only read through the default. */
  lemma {:induction false} MinIndexDefaults(g: map<Cell, int>, h: map<Cell, int>, ns: seq<Cell>)
    requires forall c :: GValueOf(h, c) == GValueOf(g, c)
    ensures MinIndex(h, ns) == MinIndex(g, ns)
    decreases |ns|
  {
    if ns != [] {
      MinIndexDefaults(g, h, ns[..|ns| - 1]);
    }
  }

  /** The three ways the backward walk can end within a given number of steps. */
  datatype Outcome = ReachedStart | NoPredecessor | OutOfSteps

  /** The cells visited from some cell backwards, first cell first, and how the walk ended. */
  datatype Walk = Walk(cells: seq<Cell>, outcome: Outcome)

  /**
   * The walk the reconstruction loop makes from `cur`, for at most `n`
   * steps: stop on reaching `start`, fail when no neighbour reads below
   * INFINITY, and otherwise step to the chosen neighbour.
   */
  function WalkFrom(g: map<Cell, int>, nbrs: Cell -> seq<Cell>, start: Cell, cur: Cell, n: nat): (w: Walk)
    ensures 1 <= |w.cells| <= n + 1 && w.cells[0] == cur
    ensures w.outcome == OutOfSteps ==> |w.cells| == n + 1
    decreases n
  {
    if cur == start then Walk([cur], ReachedStart)
    else if n == 0 then Walk([cur], OutOfSteps)
    else
      match MinIndex(g, nbrs(cur))
      case None => Walk([cur], NoPredecessor)
      case Some(k) =>
        var rest := WalkFrom(g, nbrs, start, nbrs(cur)[k], n - 1);
        Walk([cur] + rest.cells, rest.outcome)
  }

  /** A walk ends because it reached the start exactly when its last cell is the start. */
  lemma {:induction false} WalkLast(g: map<Cell, int>, nbrs: Cell -> seq<Cell>, start: Cell, cur: Cell, n: nat)
    ensures var w := WalkFrom(g, nbrs, start, cur, n);
      w.outcome == ReachedStart <==> w.cells[|w.cells| - 1] == start
    decreases n
  {
    if cur != start && n > 0 {
      match MinIndex(g, nbrs(cur))
      case None =>
      case Some(k) =>
        WalkLast(g, nbrs, start, nbrs(cur)[k], n - 1);
    }
  }

  /** Each step of a walk goes from a cell other than the start to the neighbour MinIndex chooses. */
  lemma {:induction false} WalkStep(g: map<Cell, int>, nbrs: Cell -> seq<Cell>, start: Cell, cur: Cell, n: nat, i: nat)
    requires i + 1 < |WalkFrom(g, nbrs, start, cur, n).cells|
    ensures var w := WalkFrom(g, nbrs, start, cur, n);
      && w.cells[i] != start
      && MinIndex(g, nbrs(w.cells[i])).Some?
      && nbrs(w.cells[i])[MinIndex(g, nbrs(w.cells[i])).value] == w.cells[i + 1]
    decreases n
  {
    var k := MinIndex(g, nbrs(cur)).value;
    if i > 0 {
      WalkStep(g, nbrs, start, nbrs(cur)[k], n - 1, i - 1);
    }
  }

  /** A walk that ends for want of a predecessor ends at a cell none of whose neighbours reads below INFINITY. */
  lemma {:induction false} WalkStuck(g: map<Cell, int>, nbrs: Cell -> seq<Cell>, start: Cell, cur: Cell, n: nat)
    requires WalkFrom(g, nbrs, start, cur, n).outcome == NoPredecessor
    ensures var w := WalkFrom(g, nbrs, start, cur, n);
      var last := w.cells[|w.cells| - 1];
      last != start && MinIndex(g, nbrs(last)).None?
    decreases n
  {
    match MinIndex(g, nbrs(cur))
    case None =>
    case Some(k) =>
      WalkStuck(g, nbrs, start, nbrs(cur)[k], n - 1);
  }

  /** Once a walk has ended, a larger step budget reproduces it exactly. */
  lemma {:induction false} WalkFuelIrrelevant(g: map<Cell, int>, nbrs: Cell -> seq<Cell>, start: Cell, cur: Cell, n1: nat, n2: nat)
    requires WalkFrom(g, nbrs, start, cur, n1).outcome != OutOfSteps
    requires WalkFrom(g, nbrs, start, cur, n2).outcome != OutOfSteps
    ensures WalkFrom(g, nbrs, start, cur, n1) == WalkFrom(g, nbrs, start, cur, n2)
    decreases n1
  {
    if cur != start {
      match MinIndex(g, nbrs(cur))
      case None =>
      case Some(k) =>
        WalkFuelIrrelevant(g, nbrs, start, nbrs(cur)[k], n1 - 1, n2 - 1);
    }
  }

  /** The reconstruction loop terminates: some step budget lets the walk from the goal end. */
  ghost predicate WalkEnds(g: map<Cell, int>, nbrs: Cell -> seq<Cell>, start: Cell, goal: Cell)
  {
    exists n: nat :: WalkFrom(g, nbrs, start, goal, n).outcome != OutOfSteps
  }

  /** The walk the reconstruction loop makes from the goal, whatever budget lets it end. */
  ghost function BackwardWalk(g: map<Cell, int>, nbrs: Cell -> seq<Cell>, start: Cell, goal: Cell): (w: Walk)
    requires WalkEnds(g, nbrs, start, goal)
    ensures w.outcome != OutOfSteps
  {
    var n: nat :| WalkFrom(g, nbrs, start, goal, n).outcome != OutOfSteps;
    WalkFrom(g, nbrs, start, goal, n)
  }

  /** The walk from the goal is the same for every budget that lets it end. */
  lemma BackwardWalkIs(g: map<Cell, int>, nbrs: Cell -> seq<Cell>, start: Cell, goal: Cell, n: nat)
    requires WalkFrom(g, nbrs, start, goal, n).outcome != OutOfSteps
    ensures WalkEnds(g, nbrs, start, goal)
    ensures BackwardWalk(g, nbrs, start, goal) == WalkFrom(g, nbrs, start, goal, n)
  {
    forall m: nat | WalkFrom(g, nbrs, start, goal, m).outcome != OutOfSteps
      ensures WalkFrom(g, nbrs, start, goal, m) == WalkFrom(g, nbrs, start, goal, n)
    {
      WalkFuelIrrelevant(g, nbrs, start, goal, m, n);
    }
  }

  /** The cells whose neighbours the walk scans: all of them, except a start it stops at. */
  function Expanded(w: Walk): seq<Cell>
    requires |w.cells| >= 1
  {
    if w.outcome == ReachedStart then w.cells[..|w.cells| - 1] else w.cells
  }

  /**
   * The cells whose neighbours the loop scans are exactly the cells of the
   * walk that are not the start, and they come first and in walk order.
   */
  lemma {:induction false} ExpandedAvoidsStart(g: map<Cell, int>, nbrs: Cell -> seq<Cell>, start: Cell, goal: Cell, n: nat)
    ensures var w := WalkFrom(g, nbrs, start, goal, n);
      && Expanded(w) == w.cells[..|Expanded(w)|]
      && forall i :: 0 <= i < |w.cells| ==> (i < |Expanded(w)| <==> w.cells[i] != start)
  {
    var w := WalkFrom(g, nbrs, start, goal, n);
    var e := Expanded(w);
    WalkLast(g, nbrs, start, goal, n);
    if w.outcome == ReachedStart {
      assert e == w.cells[..|w.cells| - 1];
    } else {
      assert e == w.cells[..|w.cells|];
    }
    forall i | 0 <= i < |w.cells|
      ensures i < |e| <==> w.cells[i] != start
    {
      if i < |w.cells| - 1 {
        WalkStep(g, nbrs, start, goal, n, i);
      }
    }
  }

  /**
   * One turn of the reconstruction loop at a cell of the walk other than
   * the start: when a neighbour is chosen the walk continues with it, and
   * when none is, the walk ends there for want of a predecessor.
   */
  lemma {:induction false} WalkChoice(g: map<Cell, int>, nbrs: Cell -> seq<Cell>, start: Cell, goal: Cell, n: nat, i: nat)
    requires WalkFrom(g, nbrs, start, goal, n).outcome != OutOfSteps
    requires i < |WalkFrom(g, nbrs, start, goal, n).cells|
    requires WalkFrom(g, nbrs, start, goal, n).cells[i] != start
    ensures var w := WalkFrom(g, nbrs, start, goal, n);
      match MinIndex(g, nbrs(w.cells[i]))
      case None => i + 1 == |w.cells| && w.outcome == NoPredecessor
      case Some(k) => i + 1 < |w.cells| && w.cells[i + 1] == nbrs(w.cells[i])[k]
  {
    var w := WalkFrom(g, nbrs, start, goal, n);
    if i + 1 < |w.cells| {
      WalkStep(g, nbrs, start, goal, n, i);
    } else {
      WalkLast(g, nbrs, start, goal, n);
      WalkStuck(g, nbrs, start, goal, n);
    }
  }

  /**
   * One turn of the reconstruction loop, on the walk: when the cells `path`
   * of the walk have been visited and the last is not the start, a chosen
   * neighbour extends `path` along the walk, and no choice means `path` is
   * the whole walk, which ended for want of a predecessor.
   */
  lemma {:induction false} WalkTurn(g: map<Cell, int>, nbrs: Cell -> seq<Cell>, start: Cell, goal: Cell, n: nat, path: seq<Cell>)
    requires WalkFrom(g, nbrs, start, goal, n).outcome != OutOfSteps
    requires 1 <= |path| <= |WalkFrom(g, nbrs, start, goal, n).cells|
    requires path == WalkFrom(g, nbrs, start, goal, n).cells[..|path|]
    requires path[|path| - 1] != start
    ensures var w := WalkFrom(g, nbrs, start, goal, n);
      match MinIndex(g, nbrs(path[|path| - 1]))
      case None => path == w.cells && w.outcome == NoPredecessor
      case Some(k) =>
        (&& |path| < |w.cells|
         && w.cells[|path|] == nbrs(path[|path| - 1])[k]
         && w.cells[..|path| + 1] == path + [nbrs(path[|path| - 1])[k]])
  {
    var w := WalkFrom(g, nbrs, start, goal, n);
    WalkChoice(g, nbrs, start, goal, n, |path| - 1);
    match MinIndex(g, nbrs(path[|path| - 1]))
    case None =>
    case Some(k) =>
      assert w.cells[..|path| + 1] == w.cells[..|path|] + [w.cells[|path|]];
  }

  /**
   * One turn of the reconstruction loop, on the g-values: when the
   * neighbours of all cells of `path` but the last have been scanned into
   * `before`, the choice at the last cell is the one made from the original
   * g-values, and scanning its neighbours too gives the scan of `path`.
   */
  lemma {:induction false} ScanTurn(g: map<Cell, int>, nbrs: Cell -> seq<Cell>, path: seq<Cell>, before: map<Cell, int>)
    requires |path| >= 1
    requires before == ScanDefaults(g, nbrs, path[..|path| - 1])
    ensures MinIndex(before, nbrs(path[|path| - 1])) == MinIndex(g, nbrs(path[|path| - 1]))
    ensures WithDefaults(before, nbrs(path[|path| - 1])) == ScanDefaults(g, nbrs, path)
  {
    ScanDefaultsValues(g, nbrs, path[..|path| - 1]);
    MinIndexDefaults(g, before, nbrs(path[|path| - 1]));
  }

  /**
   * The g-value map after the neighbours of each cell of `cs`, cell by
   * cell and in the field's order, have been read through the default.
   */
  function ScanDefaults(g: map<Cell, int>, nbrs: Cell -> seq<Cell>, cs: seq<Cell>): map<Cell, int>
    decreases |cs|
  {
    if cs == [] then g
    else WithDefaults(ScanDefaults(g, nbrs, cs[..|cs| - 1]), nbrs(cs[|cs| - 1]))
  }

  /** The keys ScanDefaults adds are exactly the neighbours of the cells scanned. */
  lemma {:induction false} ScanDefaultsKeys(g: map<Cell, int>, nbrs: Cell -> seq<Cell>, cs: seq<Cell>, c: Cell)
    ensures c in ScanDefaults(g, nbrs, cs) <==> c in g || exists i :: 0 <= i < |cs| && c in nbrs(cs[i])
    decreases |cs|
  {
    if cs != [] {
      var init := cs[..|cs| - 1];
      ScanDefaultsKeys(g, nbrs, init, c);
      WithDefaultsKeys(ScanDefaults(g, nbrs, init), nbrs(cs[|cs| - 1]));
      if exists i :: 0 <= i < |init| && c in nbrs(init[i]) {
        var i :| 0 <= i < |init| && c in nbrs(init[i]);
        assert cs[i] == init[i];
      }
      if exists i :: 0 <= i < |cs| && c in nbrs(cs[i]) {
        var i :| 0 <= i < |cs| && c in nbrs(cs[i]);
        if i < |init| {
          assert init[i] == cs[i];
        }
      }
    }
  }

  /** Scanning changes how no cell reads: old entries keep their value and new entries are INFINITY. */
  lemma {:induction false} ScanDefaultsValues(g: map<Cell, int>, nbrs: Cell -> seq<Cell>, cs: seq<Cell>)
    ensures g.Keys <= ScanDefaults(g, nbrs, cs).Keys
    ensures forall c :: GValueOf(ScanDefaults(g, nbrs, cs), c) == GValueOf(g, c)
    decreases |cs|
  {
    if cs != [] {
      ScanDefaultsValues(g, nbrs, cs[..|cs| - 1]);
      WithDefaultsKeys(ScanDefaults(g, nbrs, cs[..|cs| - 1]), nbrs(cs[|cs| - 1]));
      WithDefaultsValues(ScanDefaults(g, nbrs, cs[..|cs| - 1]), nbrs(cs[|cs| - 1]));
    }
  }

  /** Python's `s[::-1]`. */
  function Reversed(s: seq<Cell>): seq<Cell>
  {
    seq(|s|, i requires 0 <= i < |s| => s[|s| - 1 - i])
  }

  /** Reversing twice gives back the original sequence. */
  lemma ReversedTwice(s: seq<Cell>)
    ensures Reversed(Reversed(s)) == s
  {
    forall i | 0 <= i < |s|
      ensures Reversed(Reversed(s))[i] == s[i]
    {
      assert Reversed(s)[|s| - 1 - i] == s[i];
    }
  }

  /** What reconstruction yields: a route from start to goal, or the cell it got stuck at. */
  datatype Route = Found(path: seq<Cell>) | Stuck(at: Cell)

  /** The route the reconstruction loop returns for the g-values `g`. */
  ghost function Reconstruct(g: map<Cell, int>, nbrs: Cell -> seq<Cell>, start: Cell, goal: Cell): Route
    requires WalkEnds(g, nbrs, start, goal)
  {
    var w := BackwardWalk(g, nbrs, start, goal);
    if w.outcome == ReachedStart then Found(Reversed(w.cells)) else Stuck(w.cells[|w.cells| - 1])
  }

  /** When start and goal coincide the route is the goal alone. */
  lemma ReconstructSameCell(g: map<Cell, int>, nbrs: Cell -> seq<Cell>, goal: Cell)
    ensures WalkEnds(g, nbrs, goal, goal)
    ensures Reconstruct(g, nbrs, goal, goal) == Found([goal])
  {
    BackwardWalkIs(g, nbrs, goal, goal, 0);
  }

  /** A reconstructed route runs from the start to the goal and meets the start only at its head. */
  lemma ReconstructEndpoints(g: map<Cell, int>, nbrs: Cell -> seq<Cell>, start: Cell, goal: Cell)
    requires WalkEnds(g, nbrs, start, goal)
    requires Reconstruct(g, nbrs, start, goal).Found?
    ensures var p := Reconstruct(g, nbrs, start, goal).path;
      |p| >= 1 && p[0] == start && p[|p| - 1] == goal
    ensures var p := Reconstruct(g, nbrs, start, goal).path;
      forall i :: 0 < i < |p| ==> p[i] != start
  {
    var n: nat :| WalkFrom(g, nbrs, start, goal, n).outcome != OutOfSteps;
    BackwardWalkIs(g, nbrs, start, goal, n);
    WalkLast(g, nbrs, start, goal, n);
    var w := WalkFrom(g, nbrs, start, goal, n);
    var p := Reconstruct(g, nbrs, start, goal).path;
    forall i | 0 < i < |p|
      ensures p[i] != start
    {
      WalkStep(g, nbrs, start, goal, n, |w.cells| - 1 - i);
    }
  }

  /**
   * Each cell of a reconstructed route, but the last, is the neighbour of
   * the next one that reads the smallest g-value, strictly below INFINITY,
   * and the first such neighbour in the field's order.
   */
  lemma ReconstructStep(g: map<Cell, int>, nbrs: Cell -> seq<Cell>, start: Cell, goal: Cell, i: nat)
    requires WalkEnds(g, nbrs, start, goal)
    requires Reconstruct(g, nbrs, start, goal).Found?
    requires i + 1 < |Reconstruct(g, nbrs, start, goal).path|
    ensures var p := Reconstruct(g, nbrs, start, goal).path;
      var ns := nbrs(p[i + 1]);
      exists k :: 0 <= k < |ns| && ns[k] == p[i]
        && GValueOf(g, p[i]) < INFINITY
        && (forall j :: 0 <= j < |ns| ==> GValueOf(g, p[i]) <= GValueOf(g, ns[j]))
        && (forall j :: 0 <= j < k ==> GValueOf(g, p[i]) < GValueOf(g, ns[j]))
  {
    var n: nat :| WalkFrom(g, nbrs, start, goal, n).outcome != OutOfSteps;
    BackwardWalkIs(g, nbrs, start, goal, n);
    var w := WalkFrom(g, nbrs, start, goal, n);
    var p := Reconstruct(g, nbrs, start, goal).path;
    var back := |w.cells| - 2 - i;
    WalkStep(g, nbrs, start, goal, n, back);
    assert w.cells[back] == p[i + 1] && w.cells[back + 1] == p[i];
    var k := MinIndex(g, nbrs(p[i + 1])).value;
    assert nbrs(p[i + 1])[k] == p[i];
  }

  /** Consecutive cells of a reconstructed route are neighbours. */
  lemma ReconstructAdjacent(g: map<Cell, int>, nbrs: Cell -> seq<Cell>, start: Cell, goal: Cell)
    requires WalkEnds(g, nbrs, start, goal)
    requires Reconstruct(g, nbrs, start, goal).Found?
    ensures var p := Reconstruct(g, nbrs, start, goal).path;
      forall i :: 0 <= i < |p| - 1 ==> p[i] in nbrs(p[i + 1])
  {
    var p := Reconstruct(g, nbrs, start, goal).path;
    forall i | 0 <= i < |p| - 1
      ensures p[i] in nbrs(p[i + 1])
    {
      ReconstructStep(g, nbrs, start, goal, i);
    }
  }

  /** Reconstruction gets stuck only at a cell other than the start none of whose neighbours reads below INFINITY. */
  lemma ReconstructStuck(g: map<Cell, int>, nbrs: Cell -> seq<Cell>, start: Cell, goal: Cell)
    requires WalkEnds(g, nbrs, start, goal)
    requires Reconstruct(g, nbrs, start, goal).Stuck?
    ensures var c := Reconstruct(g, nbrs, start, goal).at;
      c != start && forall j :: 0 <= j < |nbrs(c)| ==> GValueOf(g, nbrs(c)[j]) >= INFINITY
  {
    var n: nat :| WalkFrom(g, nbrs, start, goal, n).outcome != OutOfSteps;
    BackwardWalkIs(g, nbrs, start, goal, n);
    WalkStuck(g, nbrs, start, goal, n);
  }
}
