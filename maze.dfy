/**
 * Maze carving (src/state/maze.rs): the four grid neighbours of a cell, unordered passage
 * membership, and the randomised depth-first carve that records a spanning tree of passages.
 */
module Maze {
  import opened Wrappers
  import opened Util

  /** A passage between two cells, in the order it was recorded. */
  type Passage = (nat, nat)

  /** Column and row of a cell index in a grid `width` cells wide. */
  function Col(i: nat, width: nat): nat
    requires width > 0
  {
    i % width
  }

  function Row(i: nat, width: nat): nat
    requires width > 0
  {
    i / width
  }

  /**
   * The up, down, left and right neighbours of `index`, in that order; `None` past an edge.
   * "Up" is the next row (index + width). The subtractions cannot underflow once the grid is
   * at least one cell wide and high, which is what the source needs of its caller.
   */
  function FindNeighbors(index: nat, width: nat, height: nat): (r: seq<Option<nat>>)
    requires width > 0 && height > 0
    ensures |r| == 4
  {
    var numCells := width * height;
    var up := if index < numCells - width then Some(index + width) else None;
    var down := if index > width - 1 then Some(index - width) else None;
    var left := if index % width != 0 then Some(index - 1) else None;
    var right := if (index + 1) % width != 0 then Some(index + 1) else None;
    [up, down, left, right]
  }

  /** `b` is one of the neighbours `FindNeighbors` reports for `a`. */
  predicate IsNeighbor(a: nat, b: nat, width: nat, height: nat)
    requires width > 0 && height > 0
  {
    Some(b) in FindNeighbors(a, width, height)
  }

  /** Reference definition: two cells of the grid that share an edge. */
  predicate Adjacent(a: nat, b: nat, width: nat, height: nat)
    requires width > 0 && height > 0
  {
    && a < width * height && b < width * height
    && ((Row(a, width) == Row(b, width) && (Col(a, width) + 1 == Col(b, width) || Col(b, width) + 1 == Col(a, width)))
     || (Col(a, width) == Col(b, width) && (Row(a, width) + 1 == Row(b, width) || Row(b, width) + 1 == Row(a, width))))
  }

  lemma Decompose(i: nat, width: nat)
    requires width > 0
    ensures i == Col(i, width) + Row(i, width) * width
  {
  }

  lemma RowInGrid(i: nat, width: nat, height: nat)
    requires width > 0 && i < width * height
    ensures Row(i, width) < height
  {
    if Row(i, width) >= height {
      MulLeq(height, Row(i, width), width);
      Decompose(i, width);
      assert false;
    }
  }

  /** Cell (col, row) of the grid, as an index. */
  lemma CellAt(col: nat, row: nat, width: nat, height: nat)
    requires width > 0 && col < width && row < height
    ensures col + row * width < width * height
    ensures Col(col + row * width, width) == col && Row(col + row * width, width) == row
  {
    CellInGrid(col, row, width, height);
    DivModUnique(col, row, width);
  }

  /**
   * Each of the four neighbours, in grid coordinates: up is the next row and down the previous
   * one, left and right the adjacent columns; each is `None` exactly at the matching edge.
   */
  lemma NeighborsByCoordinates(index: nat, width: nat, height: nat)
    requires width > 0 && height > 0 && index < width * height
    ensures var r, c, ns := Row(index, width), Col(index, width), FindNeighbors(index, width, height);
      && ns[0] == (if r + 1 < height then Some(c + (r + 1) * width) else None)
      && ns[1] == (if r > 0 then Some(c + (r - 1) * width) else None)
      && ns[2] == (if c > 0 then Some((c - 1) + r * width) else None)
      && ns[3] == (if c + 1 < width then Some((c + 1) + r * width) else None)
  {
    UpNeighbor(index, width, height);
    DownNeighbor(index, width, height);
    LeftNeighbor(index, width, height);
    RightNeighbor(index, width, height);
  }

  lemma UpNeighbor(index: nat, width: nat, height: nat)
    requires width > 0 && height > 0 && index < width * height
    ensures var r, c := Row(index, width), Col(index, width);
      (index < width * height - width <==> r + 1 < height) && index + width == c + (r + 1) * width
  {
    var r, c := Row(index, width), Col(index, width);
    Decompose(index, width);
    RowInGrid(index, width, height);
    assert width * height == height * width;
    if r + 1 < height {
      MulLeq(r, height - 2, width);
      assert (height - 2) * width == height * width - 2 * width;
    } else {
      assert r == height - 1;
      assert r * width == height * width - width;
    }
  }

  lemma DownNeighbor(index: nat, width: nat, height: nat)
    requires width > 0 && height > 0 && index < width * height
    ensures var r, c := Row(index, width), Col(index, width);
      (index > width - 1 <==> r > 0) && (r > 0 ==> index - width == c + (r - 1) * width)
  {
    var r := Row(index, width);
    Decompose(index, width);
    if r > 0 {
      MulAtLeast(r, width);
    }
  }

  lemma LeftNeighbor(index: nat, width: nat, height: nat)
    requires width > 0 && height > 0 && index < width * height
    ensures var r, c := Row(index, width), Col(index, width);
      c > 0 ==> index - 1 == (c - 1) + r * width
  {
    Decompose(index, width);
  }

  lemma RightNeighbor(index: nat, width: nat, height: nat)
    requires width > 0 && height > 0 && index < width * height
    ensures var r, c := Row(index, width), Col(index, width);
      ((index + 1) % width != 0 <==> c + 1 < width) && index + 1 == (c + 1) + r * width
  {
    var r, c := Row(index, width), Col(index, width);
    Decompose(index, width);
    if c + 1 == width {
      DivModUnique(0, r + 1, width);
    } else {
      DivModUnique(c + 1, r, width);
    }
  }

  /** The neighbours of a cell are exactly the cells that share an edge with it. */
  lemma NeighborsAreAdjacent(index: nat, b: nat, width: nat, height: nat)
    requires width > 0 && height > 0 && index < width * height
    ensures IsNeighbor(index, b, width, height) <==> Adjacent(index, b, width, height)
  {
    var r, c := Row(index, width), Col(index, width);
    NeighborsByCoordinates(index, width, height);
    RowInGrid(index, width, height);
    var ns := FindNeighbors(index, width, height);
    if r + 1 < height { CellAt(c, r + 1, width, height); }
    if r > 0 { CellAt(c, r - 1, width, height); }
    if c > 0 { CellAt(c - 1, r, width, height); }
    if c + 1 < width { CellAt(c + 1, r, width, height); }
    if Adjacent(index, b, width, height) {
      Decompose(b, width);
      RowInGrid(b, width, height);
      assert Some(b) in ns;
    }
  }

  /** Every neighbour of a cell lies in the grid and is a different cell. */
  lemma NeighborInGrid(index: nat, b: nat, width: nat, height: nat)
    requires width > 0 && height > 0 && index < width * height
    requires IsNeighbor(index, b, width, height)
    ensures b < width * height && b != index
  {
    NeighborsAreAdjacent(index, b, width, height);
  }

  /** The neighbour relation is symmetric. */
  lemma NeighborSymmetric(a: nat, b: nat, width: nat, height: nat)
    requires width > 0 && height > 0 && a < width * height
    requires IsNeighbor(a, b, width, height)
    ensures IsNeighbor(b, a, width, height)
  {
    NeighborsAreAdjacent(a, b, width, height);
    NeighborsAreAdjacent(b, a, width, height);
  }

  /** A list whose equal entries are all `None` holds each `Some` at most once. */
  lemma {:induction false} SomeOnce(ns: seq<Option<nat>>)
    requires forall i, j :: 0 <= i < j < |ns| && ns[i] == ns[j] ==> ns[i] == None
    ensures forall n :: multiset(ns)[Some(n)] <= 1
  {
    if ns != [] {
      SomeOnce(ns[1..]);
      assert ns == [ns[0]] + ns[1..];
      assert multiset(ns) == multiset{ns[0]} + multiset(ns[1..]);
      if ns[0] != None {
        assert Some(ns[0].value) !in ns[1..];
      }
    }
  }

  /** No cell is reported twice among the neighbours of a cell. */
  lemma NeighborsOnce(index: nat, width: nat, height: nat)
    requires width > 0 && height > 0
    ensures forall n :: multiset(FindNeighbors(index, width, height))[Some(n)] <= 1
  {
    var ns := FindNeighbors(index, width, height);
    if width == 1 {
      assert index % 1 == 0 && (index + 1) % 1 == 0;
    }
    SomeOnce(ns);
  }

  /** The three cases of the `wont_you_be_my_neighbor` test on a 4 x 4 grid. */
  lemma NeighborsOnFourByFour()
    ensures FindNeighbors(0, 4, 4) == [Some(4), None, None, Some(1)]
    ensures FindNeighbors(5, 4, 4) == [Some(9), Some(1), Some(4), Some(6)]
    ensures FindNeighbors(13, 4, 4) == [None, Some(9), Some(12), Some(14)]
  {
  }

  /** The passage `p` joins `a` and `b`, in either order. */
  predicate Joins(p: Passage, a: nat, b: nat)
  {
    (a == p.0 && b == p.1) || (a == p.1 && b == p.0)
  }

  /** Some recorded passage joins `a` and `b`. */
  ghost predicate HasPassage(a: nat, b: nat, passages: seq<Passage>)
  {
    exists i :: 0 <= i < |passages| && Joins(passages[i], a, b)
  }

  /** Linear scan of the passage list, stopping at the first passage joining the two cells. */
  function ThereIsNoPassageHere(index: nat, neighbor: nat, passages: seq<Passage>): (r: bool)
    ensures r <==> !HasPassage(index, neighbor, passages)
  {
    if |passages| == 0 then true
    else if Joins(passages[0], index, neighbor) then false
    else
      var rest := ThereIsNoPassageHere(index, neighbor, passages[1..]);
      assert HasPassage(index, neighbor, passages[1..]) ==> HasPassage(index, neighbor, passages) by {
        if HasPassage(index, neighbor, passages[1..]) {
          var i :| 0 <= i < |passages[1..]| && Joins(passages[1..][i], index, neighbor);
          assert Joins(passages[i + 1], index, neighbor);
        }
      }
      assert HasPassage(index, neighbor, passages) ==> HasPassage(index, neighbor, passages[1..]) by {
        if HasPassage(index, neighbor, passages) {
          var i :| 0 <= i < |passages| && Joins(passages[i], index, neighbor);
          assert i > 0 && Joins(passages[1..][i - 1], index, neighbor);
        }
      }
      rest
  }

  /** Membership does not depend on the order of the two cells. */
  lemma NoPassageSymmetric(a: nat, b: nat, passages: seq<Passage>)
    ensures ThereIsNoPassageHere(a, b, passages) == ThereIsNoPassageHere(b, a, passages)
  {
    if HasPassage(a, b, passages) {
      var i :| 0 <= i < |passages| && Joins(passages[i], a, b);
      assert Joins(passages[i], b, a);
    }
    if HasPassage(b, a, passages) {
      var i :| 0 <= i < |passages| && Joins(passages[i], b, a);
      assert Joins(passages[i], a, b);
    }
  }

  /** The `Some` entries of a neighbour list, in order (`Iterator::flatten`). */
  function Flatten(ns: seq<Option<nat>>): (r: seq<nat>)
    ensures forall n :: n in r <==> Some(n) in ns
  {
    if ns == [] then []
    else
      var rest := Flatten(ns[1..]);
      assert forall n :: Some(n) in ns <==> ns[0] == Some(n) || Some(n) in ns[1..];
      match ns[0]
      case Some(n) => [n] + rest
      case None => rest
  }

  /** Flattening keeps each `Some` entry as often as it occurs. */
  lemma {:induction false} FlattenCounts(ns: seq<Option<nat>>)
    ensures forall n :: multiset(Flatten(ns))[n] == multiset(ns)[Some(n)]
  {
    if ns != [] {
      FlattenCounts(ns[1..]);
      assert ns == [ns[0]] + ns[1..];
      assert multiset(ns) == multiset{ns[0]} + multiset(ns[1..]);
      match ns[0]
      case Some(n) =>
        assert Flatten(ns) == [n] + Flatten(ns[1..]);
        assert multiset(Flatten(ns)) == multiset{n} + multiset(Flatten(ns[1..]));
      case None =>
    }
  }

  /**
   * Flattening distributes over concatenation, so the kept cells stay in the order of the
   * input: `Flatten` of a list is the `Flatten` of its parts, one after another.
   */
  lemma {:induction false} FlattenConcat(a: seq<Option<nat>>, b: seq<Option<nat>>)
    ensures Flatten(a + b) == Flatten(a) + Flatten(b)
  {
    if a != [] {
      FlattenConcat(a[1..], b);
      assert (a + b)[0] == a[0] && (a + b)[1..] == a[1..] + b;
    } else {
      assert a + b == b;
    }
  }

  /** The elements of `s` that `keep` accepts, in order (`Iterator::filter`). */
  function Filter(s: seq<nat>, keep: nat -> bool): (r: seq<nat>)
    ensures forall n :: n in r <==> n in s && keep(n)
  {
    if s == [] then []
    else
      var rest := Filter(s[1..], keep);
      assert forall n :: n in s <==> n == s[0] || n in s[1..];
      if keep(s[0]) then [s[0]] + rest else rest
  }

  /** Filtering distributes over concatenation, so the accepted cells stay in the order of the input. */
  lemma {:induction false} FilterConcat(a: seq<nat>, b: seq<nat>, keep: nat -> bool)
    ensures Filter(a + b, keep) == Filter(a, keep) + Filter(b, keep)
  {
    if a != [] {
      FilterConcat(a[1..], b, keep);
      assert (a + b)[0] == a[0] && (a + b)[1..] == a[1..] + b;
    } else {
      assert a + b == b;
    }
  }

  /** Filtering keeps each accepted element as often as it occurs, and no other. */
  lemma {:induction false} FilterCounts(s: seq<nat>, keep: nat -> bool)
    ensures forall n :: multiset(Filter(s, keep))[n] == if keep(n) then multiset(s)[n] else 0
  {
    if s != [] {
      FilterCounts(s[1..], keep);
      assert s == [s[0]] + s[1..];
      assert multiset(s) == multiset{s[0]} + multiset(s[1..]);
      if keep(s[0]) {
        assert multiset(Filter(s, keep)) == multiset{s[0]} + multiset(Filter(s[1..], keep));
      }
    }
  }

  /** A shuffle may return its candidates in any order, but must return exactly them. */
  ghost predicate IsPermuter(shuffle: (nat, seq<nat>) -> seq<nat>)
  {
    forall c: nat, s: seq<nat> :: multiset(shuffle(c, s)) == multiset(s)
  }

  /** Neighbours of `index` that are unvisited and not yet joined to it by a passage. */
  function CarveCandidates(index: nat, width: nat, height: nat, visited: seq<bool>, passages: seq<Passage>): (r: seq<nat>)
    requires width > 0 && height > 0
    ensures forall n: nat :: n in r <==>
      IsNeighbor(index, n, width, height) && n < |visited| && !visited[n] && !HasPassage(index, n, passages)
  {
    var unvisited := Filter(Flatten(FindNeighbors(index, width, height)), (n: nat) => n < |visited| && !visited[n]);
    Filter(unvisited, (n: nat) => ThereIsNoPassageHere(index, n, passages))
  }

  /** Number of unvisited cells. */
  function CountFalse(s: seq<bool>): nat
  {
    if s == [] then 0 else (if s[0] then 0 else 1) + CountFalse(s[1..])
  }

  /** Marking one cell visited lowers the count by one exactly when it was unvisited. */
  lemma {:induction false} CountFalseMark(s: seq<bool>, i: nat)
    requires i < |s|
    ensures CountFalse(s[i := true]) == CountFalse(s) - (if s[i] then 0 else 1)
  {
    if i > 0 {
      CountFalseMark(s[1..], i - 1);
      assert s[i := true][1..] == s[1..][i - 1 := true];
    }
  }

  lemma {:induction false} CountFalseAllTrue(s: seq<bool>)
    requires forall i :: 0 <= i < |s| ==> s[i]
    ensures CountFalse(s) == 0
  {
    if s != [] {
      CountFalseAllTrue(s[1..]);
    }
  }

  lemma {:induction false} CountFalseAllFalse(s: seq<bool>)
    requires forall i :: 0 <= i < |s| ==> !s[i]
    ensures CountFalse(s) == |s|
  {
    if s != [] {
      CountFalseAllFalse(s[1..]);
    }
  }

  /** Every neighbour of cell `c` is visited. */
  ghost predicate Closed(c: nat, width: nat, height: nat, visited: seq<bool>)
    requires width > 0 && height > 0
  {
    forall n: nat :: IsNeighbor(c, n, width, height) ==> n < |visited| && visited[n]
  }

  /** Every cell visited in `before` is still visited in `after`. */
  ghost predicate Grows(before: seq<bool>, after: seq<bool>)
  {
    |before| == |after| && forall c :: 0 <= c < |before| && before[c] ==> after[c]
  }

  /** Both cells of every passage at a position in [from, to) are visited. */
  ghost predicate EndpointsVisited(ps: seq<Passage>, from: nat, to: nat, visited: seq<bool>)
    requires to <= |ps|
  {
    forall j :: from <= j < to ==>
      ps[j].0 < |visited| && ps[j].1 < |visited| && visited[ps[j].0] && visited[ps[j].1]
  }

  /** Both cells of every passage are visited or are `index`. */
  ghost predicate EndpointsVisitedBut(ps: seq<Passage>, visited: seq<bool>, index: nat)
  {
    forall j :: 0 <= j < |ps| ==>
      (ps[j].0 == index || (ps[j].0 < |visited| && visited[ps[j].0])) &&
      (ps[j].1 == index || (ps[j].1 < |visited| && visited[ps[j].1]))
  }

  /**
   * The passages at positions in [from, to) join grid neighbours, and each one leads to a cell
   * that was unvisited in `before` and that no earlier one of them touches.
   */
  ghost predicate FreshEdges(ps: seq<Passage>, from: nat, to: nat, before: seq<bool>, width: nat, height: nat)
    requires width > 0 && height > 0 && to <= |ps|
  {
    forall j :: from <= j < to ==>
      && IsNeighbor(ps[j].0, ps[j].1, width, height)
      && ps[j].1 < |before| && !before[ps[j].1]
      && forall i :: from <= i < j ==> ps[j].1 != ps[i].0 && ps[j].1 != ps[i].1
  }

  /** Every cell that became visited between `before` and `after` has all its neighbours visited. */
  ghost predicate NewlyClosed(before: seq<bool>, after: seq<bool>, width: nat, height: nat)
    requires width > 0 && height > 0
  {
    forall c :: 0 <= c < |after| && c < |before| && after[c] && !before[c] ==> Closed(c, width, height, after)
  }

  /** Closing is transitive: cells closed by two successive steps are closed after both. */
  lemma NewlyClosedTrans(v0: seq<bool>, v1: seq<bool>, v2: seq<bool>, width: nat, height: nat)
    requires width > 0 && height > 0 && Grows(v0, v1) && Grows(v1, v2)
    requires NewlyClosed(v0, v1, width, height) && NewlyClosed(v1, v2, width, height)
    ensures NewlyClosed(v0, v2, width, height)
  {
    forall c | 0 <= c < |v2| && c < |v0| && v2[c] && !v0[c]
      ensures Closed(c, width, height, v2)
    {
      if v1[c] {
        ClosedGrows(c, width, height, v1, v2);
      }
    }
  }

  /** Every cell in `cells` is visited. */
  ghost predicate AllVisited(cells: seq<nat>, visited: seq<bool>)
  {
    forall j :: 0 <= j < |cells| ==> cells[j] < |visited| && visited[cells[j]]
  }

  /** A list of visited cells stays visited as more cells are visited, and may take a visited cell. */
  lemma AllVisitedStep(cells: seq<nat>, c: nat, before: seq<bool>, after: seq<bool>)
    requires AllVisited(cells, before) && Grows(before, after) && c < |after| && after[c]
    ensures AllVisited(cells + [c], after)
  {
  }

  /** Some passage leads into cell `c`. */
  ghost predicate Entered(ps: seq<Passage>, c: nat)
  {
    exists i :: 0 <= i < |ps| && ps[i].1 == c
  }

  /**
   * Every passage at a position in [from, to) starts at `root` or at a cell an earlier passage
   * leads into: the passages grow one tree out of `root`.
   */
  ghost predicate Rooted(ps: seq<Passage>, from: nat, to: nat, root: nat)
    requires to <= |ps|
  {
    forall j :: from <= j < to ==> ps[j].0 == root || Entered(ps[..j], ps[j].0)
  }

  /** Facts about a prefix of a passage list hold of every extension of it. */
  lemma ExtendPassages(ps: seq<Passage>, qs: seq<Passage>, from: nat, to: nat,
                       before: seq<bool>, visited: seq<bool>, width: nat, height: nat)
    requires width > 0 && height > 0 && to <= |ps| <= |qs| && qs[..|ps|] == ps
    ensures FreshEdges(ps, from, to, before, width, height) ==> FreshEdges(qs, from, to, before, width, height)
    ensures EndpointsVisited(ps, from, to, visited) ==> EndpointsVisited(qs, from, to, visited)
    ensures forall root: nat :: Rooted(ps, from, to, root) ==> Rooted(qs, from, to, root)
    ensures forall c: nat :: Entered(ps, c) ==> Entered(qs, c)
  {
    assert forall j :: 0 <= j < |ps| ==> qs[j] == qs[..|ps|][j];
    assert forall j :: 0 <= j <= |ps| ==> qs[..j] == ps[..j];
    forall c: nat | Entered(ps, c) ensures Entered(qs, c) {
      var i :| 0 <= i < |ps| && ps[i].1 == c;
      assert qs[i].1 == c;
    }
  }

  /**
   * Two runs of fresh passages make one: those of the second run lead to cells unvisited when it
   * started, when the cells of the first run were already visited.
   */
  lemma FreshConcat(ps: seq<Passage>, from: nat, mid: nat, vStart: seq<bool>, vMid: seq<bool>, width: nat, height: nat)
    requires width > 0 && height > 0 && from <= mid <= |ps|
    requires Grows(vStart, vMid)
    requires FreshEdges(ps, from, mid, vStart, width, height)
    requires EndpointsVisited(ps, from, mid, vMid)
    requires FreshEdges(ps, mid, |ps|, vMid, width, height)
    ensures FreshEdges(ps, from, |ps|, vStart, width, height)
  {
  }

  /** Cells visited earlier stay visited, so visited endpoints of two runs make one run. */
  lemma EndpointsConcat(ps: seq<Passage>, from: nat, mid: nat, vMid: seq<bool>, after: seq<bool>)
    requires from <= mid <= |ps| && Grows(vMid, after)
    requires EndpointsVisited(ps, from, mid, vMid)
    requires EndpointsVisited(ps, mid, |ps|, after)
    ensures EndpointsVisited(ps, from, |ps|, after)
  {
  }

  /** Visiting more cells keeps every closed cell closed. */
  lemma ClosedGrows(c: nat, width: nat, height: nat, before: seq<bool>, after: seq<bool>)
    requires width > 0 && height > 0 && Grows(before, after)
    requires Closed(c, width, height, before)
    ensures Closed(c, width, height, after)
  {
  }

  /**
   * What a carve step did to the passage list and the visited cells: it kept `passages` as a
   * prefix within `capacity`, added one passage per newly visited cell, each leading from the
   * tree grown out of `root` to a grid neighbour unvisited in `before`, and left every cell it
   * touched visited.
   */
  ghost predicate Carved(passages: seq<Passage>, ps: seq<Passage>, capacity: nat,
                         before: seq<bool>, after: seq<bool>, width: nat, height: nat, root: nat)
    requires width > 0 && height > 0
  {
    && Grows(before, after)
    && |passages| <= |ps| <= capacity && ps[..|passages|] == passages
    && |ps| - |passages| + CountFalse(after) == CountFalse(before)
    && FreshEdges(ps, |passages|, |ps|, before, width, height)
    && EndpointsVisited(ps, |passages|, |ps|, after)
    && Rooted(ps, |passages|, |ps|, root)
    && NewlyEntered(ps, before, after)
  }

  /** Every cell visited in `after` but not in `before` is one some passage leads into. */
  ghost predicate NewlyEntered(ps: seq<Passage>, before: seq<bool>, after: seq<bool>)
  {
    forall c: nat :: c < |after| && c < |before| && after[c] && !before[c] ==> Entered(ps, c)
  }

  /** Two carve steps in a row make one. */
  lemma CarvedTrans(p0: seq<Passage>, p1: seq<Passage>, p2: seq<Passage>, capacity: nat,
                    v0: seq<bool>, v1: seq<bool>, v2: seq<bool>, width: nat, height: nat, root: nat)
    requires width > 0 && height > 0
    requires Carved(p0, p1, capacity, v0, v1, width, height, root)
    requires Carved(p1, p2, capacity, v1, v2, width, height, root)
    ensures Carved(p0, p2, capacity, v0, v2, width, height, root)
  {
    ExtendPassages(p1, p2, |p0|, |p1|, v0, v1, width, height);
    EndpointsConcat(p2, |p0|, |p1|, v1, v2);
    assert p2[..|p0|] == p2[..|p1|][..|p0|];
    FreshConcat(p2, |p0|, |p1|, v0, v1, width, height);
    forall c: nat | c < |v2| && c < |v0| && v2[c] && !v0[c] ensures Entered(p2, c) {
      if v1[c] {
        assert Entered(p1, c);
      }
    }
  }

  /** A carve step from a list whose cells are all visited leaves a list whose cells are all visited. */
  lemma CarvedEndpoints(p0: seq<Passage>, p1: seq<Passage>, capacity: nat,
                        v0: seq<bool>, v1: seq<bool>, width: nat, height: nat, root: nat)
    requires width > 0 && height > 0
    requires Carved(p0, p1, capacity, v0, v1, width, height, root)
    requires EndpointsVisited(p0, 0, |p0|, v0)
    ensures EndpointsVisited(p1, 0, |p1|, v1)
  {
    ExtendPassages(p0, p1, 0, |p0|, v0, v0, width, height);
    EndpointsConcat(p1, 0, |p0|, v0, v1);
  }

  /**
   * Marks `index` visited, then hands the candidate neighbours, in the order `shuffle` gives
   * them, to `CarveEach`. The passage list holds at most `capacity` entries; a push on a full
   * list is the source's `unwrap` panic, returned here as `ok == false` with the carve stopped.
   * `root` is the cell the whole carve started from, and only serves the proof.
   */
  method FindNextPassage(index: nat, width: nat, height: nat, visited: array<bool>,
                         passages: seq<Passage>, capacity: nat, shuffle: (nat, seq<nat>) -> seq<nat>,
                         ghost root: nat)
    returns (ps: seq<Passage>, ok: bool)
    requires width > 0 && height > 0 && visited.Length == width * height && index < visited.Length
    requires |passages| <= capacity
    requires index == root || Entered(passages, index)
    requires IsPermuter(shuffle)
    modifies visited
    decreases CountFalse(visited[..][index := true]), 2
    ensures visited[index]
    ensures Grows(old(visited[..]), visited[..])
    ensures Carved(passages, ps, capacity, old(visited[..])[index := true], visited[..], width, height, root)
    ensures !ok ==> |ps| == capacity && CountFalse(visited[..]) > 0
    ensures |passages| + CountFalse(old(visited[..])[index := true]) <= capacity ==> ok
    ensures ok && EndpointsVisitedBut(passages, old(visited[..]), index) ==>
      EndpointsVisited(ps, 0, |ps|, visited[..]) && NewlyClosed(old(visited[..]), visited[..], width, height)
    ensures !old(visited[index]) ==> CountFalse(old(visited[..])) - CountFalse(visited[..]) == |ps| - |passages| + 1
  {
    ghost var v0 := visited[..];
    CountFalseMark(v0, index);
    visited[index] := true;
    ghost var v1 := visited[..];
    assert v1 == v0[index := true];
    var candidates := CarveCandidates(index, width, height, visited[..], passages);
    var order := shuffle(index, candidates);
    ShuffledCandidates(index, width, height, v1, passages, candidates, order);
    ps, ok := CarveEach(index, order, width, height, visited, passages, capacity, shuffle, root);
    if ok && EndpointsVisitedBut(passages, v0, index) {
      assert EndpointsVisited(passages, 0, |passages|, v1);
      IndexClosed(index, width, height, visited[..], v0, passages, candidates, order);
      forall c | 0 <= c < |visited[..]| && c < |v0| && visited[..][c] && !v0[c]
        ensures Closed(c, width, height, visited[..])
      {
        if c != index {
          assert !v1[c];
        }
      }
    }
  }

  /** The shuffled candidates are the candidates, and each is a neighbour of `index` in the grid. */
  lemma ShuffledCandidates(index: nat, width: nat, height: nat, visited: seq<bool>,
                           passages: seq<Passage>, candidates: seq<nat>, order: seq<nat>)
    requires width > 0 && height > 0
    requires multiset(order) == multiset(candidates)
    requires forall n: nat :: n in candidates ==> IsNeighbor(index, n, width, height)
    ensures forall n :: n in order <==> n in candidates
    ensures forall j :: 0 <= j < |order| ==> IsNeighbor(index, order[j], width, height)
  {
    forall n ensures n in order <==> n in candidates {
      assert n in order <==> n in multiset(order);
      assert n in candidates <==> n in multiset(candidates);
    }
    forall j | 0 <= j < |order| ensures IsNeighbor(index, order[j], width, height) {
      assert order[j] in order;
    }
  }

  /**
   * The loop of `FindNextPassage`: each cell of `order` in turn goes to `CarveCandidate`, and the
   * loop stops early when a push finds the passage list full.
   */
  method CarveEach(index: nat, order: seq<nat>, width: nat, height: nat, visited: array<bool>,
                   passages: seq<Passage>, capacity: nat, shuffle: (nat, seq<nat>) -> seq<nat>,
                   ghost root: nat)
    returns (ps: seq<Passage>, ok: bool)
    requires width > 0 && height > 0 && visited.Length == width * height && index < visited.Length
    requires visited[index]
    requires index == root || Entered(passages, index)
    requires forall j :: 0 <= j < |order| ==> IsNeighbor(index, order[j], width, height)
    requires |passages| <= capacity
    requires IsPermuter(shuffle)
    modifies visited
    decreases CountFalse(visited[..]), 1
    ensures Carved(passages, ps, capacity, old(visited[..]), visited[..], width, height, root)
    ensures !ok ==> |ps| == capacity && CountFalse(visited[..]) > 0
    ensures |passages| + CountFalse(old(visited[..])) <= capacity ==> ok
    ensures ok ==> AllVisited(order, visited[..])
    ensures ok && EndpointsVisited(passages, 0, |passages|, old(visited[..])) ==>
      EndpointsVisited(ps, 0, |ps|, visited[..]) && NewlyClosed(old(visited[..]), visited[..], width, height)
  {
    ghost var v0 := visited[..];
    ps := passages;
    var k := 0;
    while k < |order|
      invariant 0 <= k <= |order|
      invariant visited[index]
      invariant Carved(passages, ps, capacity, v0, visited[..], width, height, root)
      invariant index == root || Entered(ps, index)
      invariant AllVisited(order[..k], visited[..])
      invariant EndpointsVisited(passages, 0, |passages|, v0) ==>
        EndpointsVisited(ps, 0, |ps|, visited[..]) && NewlyClosed(v0, visited[..], width, height)
    {
      var pass := order[k];
      ghost var vBefore := visited[..];
      var ps', ok' := CarveCandidate(index, pass, width, height, visited, ps, capacity, shuffle, root);
      CarveEachStep(index, order, k, passages, ps, ps', ok', capacity, v0, vBefore, visited[..], width, height, root);
      ps := ps';
      if !ok' {
        ok := false;
        return;
      }
      k := k + 1;
    }
    ok := true;
    assert order[..k] == order;
  }

  /** After the loop every neighbour of `index` is visited: it was a candidate or it was filtered out. */
  lemma IndexClosed(index: nat, width: nat, height: nat, visited: seq<bool>, v0: seq<bool>,
                    passages: seq<Passage>, candidates: seq<nat>, order: seq<nat>)
    requires width > 0 && height > 0 && |visited| == |v0| == width * height && index < width * height
    requires Grows(v0, visited)
    requires EndpointsVisitedBut(passages, v0, index)
    requires forall n: nat :: n in candidates <==>
      IsNeighbor(index, n, width, height) && n < |v0[index := true]| && !v0[index := true][n] && !HasPassage(index, n, passages)
    requires forall n :: n in order <==> n in candidates
    requires AllVisited(order, visited)
    ensures Closed(index, width, height, visited)
  {
    forall n: nat | IsNeighbor(index, n, width, height)
      ensures n < |visited| && visited[n]
    {
      NeighborInGrid(index, n, width, height);
      if n !in candidates {
        if HasPassage(index, n, passages) {
          var i :| 0 <= i < |passages| && Joins(passages[i], index, n);
        }
      } else {
        var j :| 0 <= j < |order| && order[j] == n;
      }
    }
  }

  /** The invariant of the loop in `CarveEach` survives one call of `CarveCandidate`. */
  lemma CarveEachStep(index: nat, order: seq<nat>, k: nat, passages: seq<Passage>, ps: seq<Passage>,
                      ps': seq<Passage>, ok': bool, capacity: nat, v0: seq<bool>, vBefore: seq<bool>,
                      vAfter: seq<bool>, width: nat, height: nat, root: nat)
    requires width > 0 && height > 0 && k < |order|
    requires Carved(passages, ps, capacity, v0, vBefore, width, height, root)
    requires index == root || Entered(ps, index)
    requires AllVisited(order[..k], vBefore)
    requires EndpointsVisited(passages, 0, |passages|, v0) ==>
      EndpointsVisited(ps, 0, |ps|, vBefore) && NewlyClosed(v0, vBefore, width, height)
    requires Carved(ps, ps', capacity, vBefore, vAfter, width, height, root)
    requires order[k] < |vAfter| && (ok' ==> vAfter[order[k]])
    requires ok' && EndpointsVisited(ps, 0, |ps|, vBefore) ==> NewlyClosed(vBefore, vAfter, width, height)
    ensures Carved(passages, ps', capacity, v0, vAfter, width, height, root)
    ensures index == root || Entered(ps', index)
    ensures ok' ==> AllVisited(order[..k + 1], vAfter)
    ensures ok' && EndpointsVisited(passages, 0, |passages|, v0) ==>
      EndpointsVisited(ps', 0, |ps'|, vAfter) && NewlyClosed(v0, vAfter, width, height)
  {
    CarvedTrans(passages, ps, ps', capacity, v0, vBefore, vAfter, width, height, root);
    ExtendPassages(ps, ps', 0, 0, v0, vBefore, width, height);
    if ok' {
      AllVisitedStep(order[..k], order[k], vBefore, vAfter);
      assert order[..k + 1] == order[..k] + [order[k]];
      if EndpointsVisited(passages, 0, |passages|, v0) {
        CarvedEndpoints(ps, ps', capacity, vBefore, vAfter, width, height, root);
        NewlyClosedTrans(v0, vBefore, vAfter, width, height);
      }
    }
  }

  /**
   * One turn of the loop over the shuffled candidates of `index`: if `pass` is still unvisited,
   * record the passage (index, pass) and carve on from `pass`.
   */
  method CarveCandidate(index: nat, pass: nat, width: nat, height: nat, visited: array<bool>,
                        passages: seq<Passage>, capacity: nat, shuffle: (nat, seq<nat>) -> seq<nat>,
                        ghost root: nat)
    returns (ps: seq<Passage>, ok: bool)
    requires width > 0 && height > 0 && visited.Length == width * height && index < visited.Length
    requires IsNeighbor(index, pass, width, height) && visited[index]
    requires index == root || Entered(passages, index)
    requires |passages| <= capacity
    requires IsPermuter(shuffle)
    modifies visited
    decreases CountFalse(visited[..]), 0
    ensures pass < visited.Length && (ok ==> visited[pass])
    ensures Carved(passages, ps, capacity, old(visited[..]), visited[..], width, height, root)
    ensures !ok ==> |ps| == capacity && CountFalse(visited[..]) > 0
    ensures |passages| + CountFalse(old(visited[..])) <= capacity ==> ok
    ensures ok && EndpointsVisited(passages, 0, |passages|, old(visited[..])) ==>
      NewlyClosed(old(visited[..]), visited[..], width, height)
  {
    NeighborInGrid(index, pass, width, height);
    if visited[pass] {
      return passages, true;
    }
    ghost var v0 := visited[..];
    CountFalseMark(v0, pass);
    if |passages| == capacity {
      return passages, false;
    }
    var pushed := passages + [(index, pass)];
    assert pushed[..|passages|] == passages;
    assert Entered(pushed, pass) by {
      assert pushed[|passages|].1 == pass;
    }
    assert Carved(passages, pushed, capacity, v0, v0[pass := true], width, height, root);
    assert v0[pass := true] == visited[..][pass := true];
    ps, ok := FindNextPassage(pass, width, height, visited, pushed, capacity, shuffle, root);
    CarvedTrans(passages, pushed, ps, capacity, v0, v0[pass := true], visited[..], width, height, root);
    if ok && EndpointsVisited(passages, 0, |passages|, v0) {
      assert EndpointsVisitedBut(pushed, v0, pass);
    }
  }
}

/**
 * The carve run on a fresh grid from cell 0, what `State::generate_maze` does before it turns
 * the passages into walls: the passages form a spanning tree of the grid rooted at cell 0.
 */
module Carve {
  import opened Wrappers
  import opened Util
  import opened Maze

  /**
   * The passages form a tree grown from `root`: each joins two grid neighbours, starts at
   * `root` or at a cell an earlier passage leads into, and leads into a cell other than `root`
   * that no earlier passage leads into.
   */
  ghost predicate IsTree(ps: seq<Passage>, root: nat, width: nat, height: nat)
    requires width > 0 && height > 0
  {
    forall j :: 0 <= j < |ps| ==>
      && IsNeighbor(ps[j].0, ps[j].1, width, height)
      && ps[j].1 != root
      && (ps[j].0 == root || Entered(ps[..j], ps[j].0))
      && forall i :: 0 <= i < j ==> ps[i].1 != ps[j].1
  }

  /** Every cell has all its neighbours visited once it is visited itself. */
  ghost predicate AllClosed(visited: seq<bool>, width: nat, height: nat)
    requires width > 0 && height > 0
  {
    forall c :: 0 <= c < |visited| && visited[c] ==> Closed(c, width, height, visited)
  }

  /** The first row is reached from cell 0 through right neighbours. */
  lemma {:induction false} FirstRowVisited(col: nat, visited: seq<bool>, width: nat, height: nat)
    requires width > 0 && height > 0 && |visited| == width * height
    requires visited[0] && AllClosed(visited, width, height)
    requires col < width
    ensures visited[col]
  {
    if col > 0 {
      FirstRowVisited(col - 1, visited, width, height);
      CellAt(col - 1, 0, width, height);
      NeighborsByCoordinates(col - 1, width, height);
      assert FindNeighbors(col - 1, width, height)[3] == Some(col);
      assert IsNeighbor(col - 1, col, width, height);
    }
  }

  /** Each column is reached from the first row through up neighbours. */
  lemma {:induction false} ColumnVisited(col: nat, row: nat, visited: seq<bool>, width: nat, height: nat)
    requires width > 0 && height > 0 && |visited| == width * height
    requires visited[0] && AllClosed(visited, width, height)
    requires col < width && row < height
    ensures col + row * width < |visited| && visited[col + row * width]
  {
    CellAt(col, row, width, height);
    if row == 0 {
      FirstRowVisited(col, visited, width, height);
    } else {
      ColumnVisited(col, row - 1, visited, width, height);
      var below := col + (row - 1) * width;
      CellAt(col, row - 1, width, height);
      NeighborsByCoordinates(below, width, height);
      assert FindNeighbors(below, width, height)[0] == Some(col + row * width);
      assert IsNeighbor(below, col + row * width, width, height);
    }
  }

  /** The grid is connected: once cell 0 is visited and every visited cell is closed, all are visited. */
  lemma GridConnected(visited: seq<bool>, width: nat, height: nat)
    requires width > 0 && height > 0 && |visited| == width * height
    requires visited[0] && AllClosed(visited, width, height)
    ensures forall c :: 0 <= c < |visited| ==> visited[c]
  {
    forall c | 0 <= c < |visited| ensures visited[c] {
      Decompose(c, width);
      RowInGrid(c, width, height);
      ColumnVisited(Col(c, width), Row(c, width), visited, width, height);
    }
  }

  /**
   * Allocates an unvisited grid and carves from cell 0. The passage list holds at most
   * `capacity` entries (the source's `MAX_PASSAGES`); the carve fails exactly when the grid
   * needs more. On success it records one passage into each cell but 0, which together form a
   * tree rooted at 0.
   */
  method CarveMaze(width: nat, height: nat, capacity: nat, shuffle: (nat, seq<nat>) -> seq<nat>)
    returns (passages: seq<Passage>, ok: bool)
    requires width > 0 && height > 0 && IsPermuter(shuffle)
    ensures ok <==> width * height - 1 <= capacity
    ensures |passages| <= capacity
    ensures ok ==> |passages| == width * height - 1
    ensures IsTree(passages, 0, width, height)
    ensures ok ==> forall c: nat :: 0 < c < width * height ==> Entered(passages, c)
  {
    MulAtLeast(height, width);
    assert width * height == height * width;
    var visited := new bool[width * height](_ => false);
    ghost var v0 := visited[..];
    CountFalseAllFalse(v0);
    CountFalseMark(v0, 0);
    passages, ok := FindNextPassage(0, width, height, visited, [], capacity, shuffle, 0);
    ghost var v := visited[..];
    assert Carved([], passages, capacity, v0[0 := true], v, width, height, 0);
    assert passages[..0] == [];
    if ok {
      assert EndpointsVisitedBut([], v0, 0);
      assert AllClosed(v, width, height);
      GridConnected(v, width, height);
      CountFalseAllTrue(v);
      forall c: nat | 0 < c < width * height ensures Entered(passages, c) {
        assert v[c] && !v0[0 := true][c];
      }
    }
  }

  /** A chain of cells each joined to the next by a passage. */
  ghost predicate IsPassagePath(path: seq<nat>, ps: seq<Passage>)
  {
    |path| > 0 && forall k :: 0 <= k < |path| - 1 ==> HasPassage(path[k], path[k + 1], ps)
  }

  /** In a tree, the cell passage `j` leads into is joined to the root by a chain of passages. */
  lemma {:induction false} PathFromRoot(ps: seq<Passage>, j: nat, root: nat, width: nat, height: nat)
    returns (path: seq<nat>)
    requires width > 0 && height > 0 && IsTree(ps, root, width, height) && j < |ps|
    ensures IsPassagePath(path, ps) && path[0] == root && path[|path| - 1] == ps[j].1
  {
    assert Joins(ps[j], ps[j].0, ps[j].1);
    if ps[j].0 == root {
      path := [root, ps[j].1];
    } else {
      var i :| 0 <= i < |ps[..j]| && ps[..j][i].1 == ps[j].0;
      var prefix := PathFromRoot(ps, i, root, width, height);
      path := prefix + [ps[j].1];
      forall k | 0 <= k < |path| - 1 ensures HasPassage(path[k], path[k + 1], ps) {
        if k < |prefix| - 1 {
          assert path[k] == prefix[k] && path[k + 1] == prefix[k + 1];
        }
      }
    }
  }

  /** The carved maze is perfect in reach: every cell of the grid is joined to cell 0 by passages. */
  lemma MazeConnected(ps: seq<Passage>, c: nat, width: nat, height: nat) returns (path: seq<nat>)
    requires width > 0 && height > 0 && IsTree(ps, 0, width, height)
    requires forall d: nat :: 0 < d < width * height ==> Entered(ps, d)
    requires c < width * height
    ensures IsPassagePath(path, ps) && path[0] == 0 && path[|path| - 1] == c
  {
    if c == 0 {
      path := [0];
    } else {
      assert Entered(ps, c);
      var j :| 0 <= j < |ps| && ps[j].1 == c;
      path := PathFromRoot(ps, j, 0, width, height);
    }
  }
}
