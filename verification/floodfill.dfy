/** Connectivity on the hexagonal grid: walks through a region of cells, the
    two depth-first searches of the bubble shooter (the same-colour cluster
    of a cell and the cells anchored to the ceiling), and the loose-bubble
    pruning they implement. */
module FloodFill {
  import opened HexGrid

  /** The cells listed in `s`. */
  function Elems(s: seq<Cell>): (r: set<Cell>)
    ensures forall c :: c in r <==> c in s
  {
    set c | c in s
  }

  /** No cell is listed twice. */
  predicate Distinct(s: seq<Cell>) {
    forall i, j | 0 <= i < j < |s| :: s[i] != s[j]
  }

  /** A walk through `region`: a non-empty list of cells of `region`, each one
      adjacent to the next. */
  ghost predicate IsWalk(region: set<Cell>, w: seq<Cell>) {
    |w| > 0 &&
    (forall i | 0 <= i < |w| :: w[i] in region) &&
    (forall i | 0 <= i < |w| - 1 :: Adjacent(w[i], w[i + 1]))
  }

  /** Some walk through `region` leads from `a` to `b`. */
  ghost predicate Reaches(region: set<Cell>, a: Cell, b: Cell) {
    exists w :: IsWalk(region, w) && w[0] == a && w[|w| - 1] == b
  }

  /** The cells of `region` that some walk through `region` connects to one of
      `sources`. */
  ghost function ReachableFrom(region: set<Cell>, sources: set<Cell>): set<Cell> {
    set c | c in region && exists s :: s in sources && Reaches(region, s, c)
  }

  /** Every cell of `s` outside `open` has all its neighbours that lie in
      `region` inside `s` as well. */
  ghost predicate ClosedExcept(region: set<Cell>, s: set<Cell>, open: set<Cell>) {
    forall c, n | c in s && c !in open && n in Neighbors(c) && n in region :: n in s
  }

  lemma ReachesSelf(region: set<Cell>, a: Cell)
    requires a in region
    ensures Reaches(region, a, a)
  {
    assert IsWalk(region, [a]);
  }

  /** A walk can be extended by one adjacent cell of the region. */
  lemma ReachesStep(region: set<Cell>, a: Cell, b: Cell, n: Cell)
    requires Reaches(region, a, b) && n in region && Adjacent(b, n)
    ensures Reaches(region, a, n)
  {
    var w :| IsWalk(region, w) && w[0] == a && w[|w| - 1] == b;
    var w' := w + [n];
    forall i | 0 <= i < |w'|
      ensures w'[i] in region
    {
      if i < |w| {
        assert w'[i] == w[i];
      }
    }
    forall i | 0 <= i < |w'| - 1
      ensures Adjacent(w'[i], w'[i + 1])
    {
      if i < |w| - 1 {
        assert w'[i] == w[i] && w'[i + 1] == w[i + 1];
      } else {
        assert w'[i] == b;
      }
    }
    assert IsWalk(region, w');
  }

  /** A walk stays inside every region that is closed under adjacency and
      contains its start; so a closed region that contains the sources
      contains every cell reachable from them. This is what makes a finished
      depth-first search complete. */
  lemma {:induction false} ClosedContainsReachable(region: set<Cell>, sources: set<Cell>, s: set<Cell>)
    requires sources * region <= s
    requires ClosedExcept(region, s, {})
    ensures ReachableFrom(region, sources) <= s
  {
    forall c | c in ReachableFrom(region, sources)
      ensures c in s
    {
      var src :| src in sources && Reaches(region, src, c);
      var w :| IsWalk(region, w) && w[0] == src && w[|w| - 1] == c;
      var i := 0;
      while i < |w| - 1
        invariant 0 <= i < |w|
        invariant w[i] in s
      {
        assert Adjacent(w[i], w[i + 1]) && w[i + 1] in region;
        i := i + 1;
      }
    }
  }

  /** Every cell of a walk is reachable from its first cell. */
  lemma {:induction false} WalkPrefixReaches(region: set<Cell>, w: seq<Cell>, i: nat)
    requires IsWalk(region, w) && i < |w|
    ensures Reaches(region, w[0], w[i])
  {
    assert IsWalk(region, w[..i + 1]);
  }

  /** Reachability within a smaller region implies reachability within a
      larger one. */
  lemma ReachesMonotone(small: set<Cell>, large: set<Cell>, a: Cell, b: Cell)
    requires small <= large && Reaches(small, a, b)
    ensures Reaches(large, a, b)
  {
    var w :| IsWalk(small, w) && w[0] == a && w[|w| - 1] == b;
    assert IsWalk(large, w);
  }

  // ---------------------------------------------------------------------
  // The same-colour cluster (`_getSameColorNeighbors`)
  // ---------------------------------------------------------------------

  /** The occupied cells of `f` that hold `color`. */
  function SameColorCells<V(==)>(f: map<Cell, V>, color: V): (r: set<Cell>)
    ensures forall c :: c in r <==> c in f && f[c] == color
  {
    set c | c in f && f[c] == color
  }

  /** The cluster of `start`: the cells of its colour that are connected to it
      through neighbours of the same colour. */
  ghost function Cluster<V>(f: map<Cell, V>, start: Cell): set<Cell>
    requires start in f
  {
    ReachableFrom(SameColorCells(f, f[start]), {start})
  }

  /** The cluster of an occupied cell contains the cell and only occupied
      cells. */
  lemma ClusterInField<V>(f: map<Cell, V>, start: Cell)
    requires start in f
    ensures start in Cluster(f, start) && Cluster(f, start) <= f.Keys
  {
    ReachesSelf(SameColorCells(f, f[start]), start);
  }

  /** A list that extends another lists every cell the shorter one lists. */
  lemma PrefixElems(a: seq<Cell>, b: seq<Cell>)
    requires a <= b
    ensures Elems(a) <= Elems(b)
  {
    forall x | x in a
      ensures x in b
    {
      var k :| 0 <= k < |a| && a[k] == x;
      assert b[k] == x;
    }
  }

  /** Once every neighbour of `c` that lies in `region` is in `s`, `c` need
      not stay open. */
  lemma CloseCell(region: set<Cell>, s: set<Cell>, open: set<Cell>, c: Cell)
    requires ClosedExcept(region, s, open + {c})
    requires forall j | 0 <= j < 6 && Neighbors(c)[j] in region :: Neighbors(c)[j] in s
    ensures ClosedExcept(region, s, open)
  {
    forall d, n | d in s && d !in open && n in Neighbors(d) && n in region
      ensures n in s
    {
      if d == c {
        var j :| 0 <= j < 6 && Neighbors(c)[j] == n;
      }
    }
  }

  /** Recording `c` leaves fewer cells of `region` to visit: the measure
      that makes the search terminate. */
  lemma Shrinks(region: set<Cell>, found: seq<Cell>, c: Cell, found': seq<Cell>)
    requires c in region && c !in found && found + [c] <= found'
    ensures region - Elems(found') < region - Elems(found)
  {
    PrefixElems(found + [c], found');
    assert c in region - Elems(found) && c !in region - Elems(found');
  }

  /** What a nested visit of `n` keeps: everything listed before stays
      listed, in the same place, and `n` is now listed too. */
  lemma GrowsByVisit(prefix: seq<Cell>, before: seq<Cell>, n: Cell, after: seq<Cell>)
    requires prefix <= before && before + [n] <= after
    ensures prefix <= after
    ensures Elems(before) <= Elems(after) && n in Elems(after)
  {
    PrefixElems(before + [n], after);
  }

  /** One call of the search's inner `recurser`: records `c`, then visits each
      neighbour of `c`, in the order of `Neighbors`, that holds `color` and is
      not recorded yet. `open` holds the cells whose calls are still running
      further up the stack. */
  method CollectCluster<V(==)>(f: map<Cell, V>, color: V, c: Cell, found: seq<Cell>,
                               ghost start: Cell, ghost open: set<Cell>)
      returns (found': seq<Cell>)
    requires c in f && f[c] == color && c !in found
    requires c in ReachableFrom(SameColorCells(f, color), {start})
    requires Distinct(found)
    requires Elems(found) <= ReachableFrom(SameColorCells(f, color), {start})
    requires open <= Elems(found)
    requires ClosedExcept(SameColorCells(f, color), Elems(found), open)
    ensures found + [c] <= found'
    ensures Distinct(found')
    ensures Elems(found') <= ReachableFrom(SameColorCells(f, color), {start})
    ensures ClosedExcept(SameColorCells(f, color), Elems(found'), open)
    decreases SameColorCells(f, color) - Elems(found), 1
  {
    ghost var region := SameColorCells(f, color);
    found' := found + [c];
    assert Distinct(found') by {
      assert forall i | 0 <= i < |found| :: found'[i] == found[i];
    }
    var ns := Neighbors(c);
    var i := 0;
    while i < 6
      invariant 0 <= i <= 6
      invariant found + [c] <= found'
      invariant Distinct(found')
      invariant Elems(found') <= ReachableFrom(region, {start})
      invariant open + {c} <= Elems(found')
      invariant ClosedExcept(region, Elems(found'), open + {c})
      invariant forall j | 0 <= j < i && ns[j] in region :: ns[j] in Elems(found')
    {
      ghost var listed := Elems(found');
      found' := VisitNeighbor(f, color, c, ns[i], found, found', start, open);
      forall j | 0 <= j < i + 1 && ns[j] in region
        ensures ns[j] in Elems(found')
      {
        if j < i {
          assert ns[j] in listed;
        }
      }
      i := i + 1;
    }
    CloseCell(region, Elems(found'), open, c);
  }

  /** The body of the search's loop over the neighbours of `c`: visits
      neighbour `n` when it holds `color` and is not recorded yet. */
  method VisitNeighbor<V(==)>(f: map<Cell, V>, color: V, c: Cell, n: Cell,
                              ghost found: seq<Cell>, current: seq<Cell>,
                              ghost start: Cell, ghost open: set<Cell>)
      returns (found': seq<Cell>)
    requires c in f && f[c] == color && c !in found && n in Neighbors(c)
    requires c in ReachableFrom(SameColorCells(f, color), {start})
    requires found + [c] <= current
    requires open + {c} <= Elems(current)
    requires Distinct(current)
    requires Elems(current) <= ReachableFrom(SameColorCells(f, color), {start})
    requires ClosedExcept(SameColorCells(f, color), Elems(current), open + {c})
    ensures found + [c] <= found'
    ensures Distinct(found')
    ensures Elems(current) <= Elems(found')
    ensures Elems(found') <= ReachableFrom(SameColorCells(f, color), {start})
    ensures ClosedExcept(SameColorCells(f, color), Elems(found'), open + {c})
    ensures n in SameColorCells(f, color) ==> n in Elems(found')
    decreases SameColorCells(f, color) - Elems(found), 0
  {
    found' := current;
    if n in f && f[n] == color && n !in current {
      ghost var region := SameColorCells(f, color);
      ReachesStep(region, start, c, n);
      Shrinks(region, found, c, current);
      PrefixElems(found + [c], current);
      found' := CollectCluster(f, color, n, current, start, open + {c});
      GrowsByVisit(found + [c], current, n, found');
    }
  }

  /** `_getSameColorNeighbors`: the cells of the cluster of `start`, each
      listed once, `start` first. */
  method SameColorComponent<V(==)>(f: map<Cell, V>, start: Cell) returns (cells: seq<Cell>)
    requires start in f
    ensures |cells| > 0 && cells[0] == start
    ensures Distinct(cells)
    ensures Elems(cells) == Cluster(f, start)
  {
    ghost var region := SameColorCells(f, f[start]);
    ReachesSelf(region, start);
    cells := CollectCluster(f, f[start], start, [], start, {});
    ClosedContainsReachable(region, {start}, Elems(cells));
  }

  // ---------------------------------------------------------------------
  // Anchoring and loose-bubble pruning (`_removeLooseBubbles`)
  // ---------------------------------------------------------------------

  /** The occupied cells of row 0 whose column is one of the `xLimit` columns
      the search starts from. */
  function Roots<V>(f: map<Cell, V>, xLimit: int): (r: set<Cell>)
    ensures forall c {:trigger c in r} {:trigger c in f} :: c in r <==> c in f && c.y == 0 && 0 <= c.x < xLimit
  {
    set c {:trigger c in f} | c in f && c.y == 0 && 0 <= c.x < xLimit
  }

  /** The cells that hang from the ceiling: connected through occupied cells
      to an occupied cell of row 0. */
  ghost function Anchored<V>(f: map<Cell, V>, xLimit: int): set<Cell> {
    ReachableFrom(f.Keys, Roots(f, xLimit))
  }

  /** One call of the anchoring search's `recurser`: if `c` is occupied and
      not yet marked, marks it and visits all six neighbours. */
  method MarkAnchored<V>(f: map<Cell, V>, xLimit: int, c: Cell, marked: set<Cell>, ghost open: set<Cell>)
      returns (marked': set<Cell>)
    requires c in f ==> c in Anchored(f, xLimit)
    requires marked <= Anchored(f, xLimit)
    requires open <= marked
    requires ClosedExcept(f.Keys, marked, open)
    ensures marked <= marked' <= Anchored(f, xLimit)
    ensures c in f ==> c in marked'
    ensures ClosedExcept(f.Keys, marked', open)
    decreases f.Keys - marked
  {
    marked' := marked;
    if c in f && c !in marked {
      marked' := marked + {c};
      var ns := Neighbors(c);
      var i := 0;
      while i < 6
        invariant 0 <= i <= 6
        invariant marked + {c} <= marked' <= Anchored(f, xLimit)
        invariant ClosedExcept(f.Keys, marked', open + {c})
        invariant forall j | 0 <= j < i && ns[j] in f :: ns[j] in marked'
      {
        var n := ns[i];
        if n in f {
          ghost var src :| src in Roots(f, xLimit) && Reaches(f.Keys, src, c);
          ReachesStep(f.Keys, src, c, n);
        }
        assert f.Keys - marked' < f.Keys - marked by {
          assert c in f.Keys - marked && c !in f.Keys - marked';
        }
        marked' := MarkAnchored(f, xLimit, n, marked', open + {c});
        i := i + 1;
      }
    }
  }

  /** The marking phase of `_removeLooseBubbles`: starting the search at each
      of the cells `(x, 0)` with `0 <= x < xLimit` marks exactly the anchored
      cells. */
  method AnchoredCells<V>(f: map<Cell, V>, xLimit: int) returns (notLoose: set<Cell>)
    ensures notLoose == Anchored(f, xLimit)
  {
    notLoose := {};
    var x := 0;
    while x < xLimit
      invariant notLoose <= Anchored(f, xLimit)
      invariant ClosedExcept(f.Keys, notLoose, {})
      invariant forall r | r in Roots(f, xLimit) && r.x < x :: r in notLoose
    {
      if Cell(x, 0) in f {
        ReachesSelf(f.Keys, Cell(x, 0));
      }
      notLoose := MarkAnchored(f, xLimit, Cell(x, 0), notLoose, {});
      x := x + 1;
    }
    ClosedContainsReachable(f.Keys, Roots(f, xLimit), notLoose);
  }

  /** `f` without the cells that do not hang from the ceiling. */
  ghost function Prune<V>(f: map<Cell, V>, xLimit: int): map<Cell, V> {
    map c | c in f && c in Anchored(f, xLimit) :: f[c]
  }

  /** Every occupied cell hangs from the ceiling. The trigger keeps the
      solver from applying this to every cell of every walk it meets. */
  ghost predicate NoLoose<V>(f: map<Cell, V>, xLimit: int) {
    forall c {:trigger c in Anchored(f, xLimit)} | c in f :: c in Anchored(f, xLimit)
  }

  /** After one pruning pass nothing is loose any more, although the pass
      removed cells that other cells might have hung from: every walk that
      anchored a kept cell runs through kept cells only. */
  lemma {:induction false} PruneLeavesNoLoose<V>(f: map<Cell, V>, xLimit: int)
    ensures NoLoose(Prune(f, xLimit), xLimit)
  {
    var g := Prune(f, xLimit);
    var a := Anchored(f, xLimit);
    forall c | c in g
      ensures c in Anchored(g, xLimit)
    {
      var src :| src in Roots(f, xLimit) && Reaches(f.Keys, src, c);
      var w :| IsWalk(f.Keys, w) && w[0] == src && w[|w| - 1] == c;
      forall i | 0 <= i < |w|
        ensures w[i] in g
      {
        WalkPrefixReaches(f.Keys, w, i);
      }
      assert IsWalk(g.Keys, w);
      assert src in Roots(g, xLimit);
    }
  }

  /** Pruning keeps exactly the anchored cells, each with its contents. */
  lemma PruneKeeps<V>(f: map<Cell, V>, xLimit: int)
    ensures Prune(f, xLimit).Keys == f.Keys * Anchored(f, xLimit)
    ensures forall c | c in Prune(f, xLimit) :: Prune(f, xLimit)[c] == f[c]
  {
  }

  /** A field with no loose cell is left alone by pruning. */
  lemma {:induction false} PruneNoLooseUnchanged<V>(f: map<Cell, V>, xLimit: int)
    requires NoLoose(f, xLimit)
    ensures Prune(f, xLimit) == f
  {
    PruneKeeps(f, xLimit);
  }

  /** A second pruning pass changes nothing: the source's repeated pass stops
      after at most two rounds. */
  lemma {:induction false} PruneIdempotent<V>(f: map<Cell, V>, xLimit: int)
    ensures Prune(Prune(f, xLimit), xLimit) == Prune(f, xLimit)
  {
    PruneLeavesNoLoose(f, xLimit);
    PruneNoLooseUnchanged(Prune(f, xLimit), xLimit);
  }
}
