/**
 * The cost bookkeeping shared by every path planning algorithm: the
 * INFINITY sentinel, the reading of the g-value map with that sentinel as
 * default, and the get-or-insert update both caches are built on.
 */
module Costs {
  import opened Grid

  /** The sentinel used for "no known cost". */
  const INFINITY: int := 1000

  /** The g-value of a cell as the search reads it: its entry, or INFINITY when it has none. */
  function GValueOf(g: map<Cell, int>, c: Cell): int
  {
    if c in g then g[c] else INFINITY
  }

  /**
   * Reading a g-value through setdefault with INFINITY as default yields
   * what GValueOf says, and afterwards every cell, the one read included,
   * reads as before.
   */
  lemma GValueOfSetDefault(g: map<Cell, int>, c: Cell)
    ensures SetDefault(g, c, INFINITY).1 == GValueOf(g, c)
    ensures forall d :: GValueOf(SetDefault(g, c, INFINITY).0, d) == GValueOf(g, d)
  {
  }

  /**
   * Python's dict.setdefault: the new map and the value now stored under
   * the key.  A present key keeps its entry; an absent key receives the
   * default; no other entry is touched.
   */
  function SetDefault<V>(m: map<Cell, V>, key: Cell, default: V): (r: (map<Cell, V>, V))
    ensures r.0.Keys == m.Keys + {key}
    ensures key in r.0 && r.1 == r.0[key]
    ensures forall k :: k in m ==> r.0[k] == m[k]
    ensures key !in m ==> r.1 == default
  {
    if key in m then (m, m[key]) else (m[key := default], default)
  }

  /**
   * The g-value map after each cell of `cells`, in order, has been read
   * through the default.  What this amounts to is stated by
   * WithDefaultsKeys and WithDefaultsValues.
   */
  function WithDefaults(g: map<Cell, int>, cells: seq<Cell>): map<Cell, int>
    decreases |cells|
  {
    if cells == [] then g
    else SetDefault(WithDefaults(g, cells[..|cells| - 1]), cells[|cells| - 1], INFINITY).0
  }

  /** Reading cells through the default adds exactly those cells as keys. */
  lemma {:induction false} WithDefaultsKeys(g: map<Cell, int>, cells: seq<Cell>)
    ensures forall c :: c in WithDefaults(g, cells) <==> c in g || c in cells
    decreases |cells|
  {
    if cells != [] {
      var init := cells[..|cells| - 1];
      WithDefaultsKeys(g, init);
      assert cells == init + [cells[|cells| - 1]];
    }
  }

  /**
   * Reading cells through the default changes how no cell reads: entries
   * already present keep their value and every new entry is INFINITY.
   */
  lemma {:induction false} WithDefaultsValues(g: map<Cell, int>, cells: seq<Cell>)
    ensures forall c :: GValueOf(WithDefaults(g, cells), c) == GValueOf(g, c)
    decreases |cells|
  {
    if cells != [] {
      WithDefaultsValues(g, cells[..|cells| - 1]);
    }
  }
}
