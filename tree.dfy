/**
 * The shape of a carved maze (src/state/maze.rs): its passages form a tree rooted at cell 0
 * that enters every other cell. Each cell but the root has one parent, the cell its entering
 * passage starts from; following parents leads back to the root. The facts here are what the
 * enemy path search of src/state.rs needs: every passage joins a cell and its parent, the
 * ancestors of a cell form a chain, and a set of cells closed under passages that holds one
 * cell holds them all.
 */
module Tree {
  import opened Maze
  import opened Carve

  /** The maze `generate_maze` leaves: a tree of passages from cell 0 entering every other cell. */
  ghost predicate Spanning(ps: seq<Passage>, width: nat, height: nat)
  {
    && width > 0 && height > 0 && IsTree(ps, 0, width, height)
    && forall c: nat :: 0 < c < width * height ==> Entered(ps, c)
  }

  /** The part of `IsTree` with root 0 that does not mention the grid. */
  ghost predicate Grown(ps: seq<Passage>)
  {
    forall j :: 0 <= j < |ps| ==>
      && ps[j].1 != 0
      && (ps[j].0 == 0 || Entered(ps[..j], ps[j].0))
      && forall i :: 0 <= i < j ==> ps[i].1 != ps[j].1
  }

  lemma TreeGrown(ps: seq<Passage>, width: nat, height: nat)
    requires width > 0 && height > 0 && IsTree(ps, 0, width, height)
    ensures Grown(ps)
  {
  }

  /** The position of a passage that enters `c`. */
  ghost function EntryOf(ps: seq<Passage>, c: nat): (j: nat)
    requires Entered(ps, c)
    ensures j < |ps| && ps[j].1 == c
  {
    var j :| 0 <= j < |ps| && ps[j].1 == c; j
  }

  /** In a grown tree only one passage enters a cell, and none enters the root. */
  lemma EntryUnique(ps: seq<Passage>, c: nat, j: nat)
    requires Grown(ps) && j < |ps| && ps[j].1 == c
    ensures c != 0 && Entered(ps, c) && EntryOf(ps, c) == j
  {
    var e := EntryOf(ps, c);
  }

  /** The cell the passage entering `c` starts from. */
  ghost function Parent(ps: seq<Passage>, c: nat): nat
    requires Entered(ps, c)
  {
    ps[EntryOf(ps, c)].0
  }

  /** The position of the entering passage, or -1 for a cell that none enters. */
  ghost function Rank(ps: seq<Passage>, c: nat): int
  {
    if Entered(ps, c) then EntryOf(ps, c) else -1
  }

  /** A parent was entered before its child, or is the root. */
  lemma ParentEarlier(ps: seq<Passage>, c: nat)
    requires Grown(ps) && Entered(ps, c)
    ensures Rank(ps, Parent(ps, c)) < Rank(ps, c)
  {
    var j := EntryOf(ps, c);
    var p := ps[j].0;
    if p != 0 {
      var i :| 0 <= i < |ps[..j]| && ps[..j][i].1 == p;
      EntryUnique(ps, p, i);
    }
  }

  /** `a` is `c` or an ancestor of `c`: following parents from `c` reaches `a`. */
  ghost predicate AncestorOf(ps: seq<Passage>, a: nat, c: nat)
    decreases Rank(ps, c) + 1
  {
    a == c || (Entered(ps, c) && Rank(ps, Parent(ps, c)) < Rank(ps, c) && AncestorOf(ps, a, Parent(ps, c)))
  }

  /** An ancestor is `c` itself or was entered before `c`. */
  lemma {:induction false} AncestorRank(ps: seq<Passage>, a: nat, c: nat)
    requires Grown(ps) && AncestorOf(ps, a, c)
    ensures a == c || Rank(ps, a) < Rank(ps, c)
    decreases Rank(ps, c) + 1
  {
    if a != c {
      AncestorRank(ps, a, Parent(ps, c));
    }
  }

  /** The parent of an ancestor of `c` is an ancestor of `c`. */
  lemma {:induction false} AncestorUp(ps: seq<Passage>, a: nat, c: nat)
    requires Grown(ps) && AncestorOf(ps, a, c) && Entered(ps, a)
    ensures AncestorOf(ps, Parent(ps, a), c)
    decreases Rank(ps, c) + 1
  {
    ParentEarlier(ps, c);
    if a == c {
      assert AncestorOf(ps, Parent(ps, c), Parent(ps, c));
    } else {
      AncestorUp(ps, a, Parent(ps, c));
    }
  }

  /** The ancestors of one cell form a chain: of two of them, one is an ancestor of the other. */
  lemma {:induction false} AncestorsOrdered(ps: seq<Passage>, u: nat, v: nat, s: nat)
    requires Grown(ps) && AncestorOf(ps, u, s) && AncestorOf(ps, v, s)
    ensures AncestorOf(ps, u, v) || AncestorOf(ps, v, u)
    decreases Rank(ps, s) + 1
  {
    if u != s && v != s {
      AncestorsOrdered(ps, u, v, Parent(ps, s));
    }
  }

  /** Two ancestors of `s` with the same parent are the same cell. */
  lemma SameParentOnChain(ps: seq<Passage>, u: nat, v: nat, s: nat)
    requires Grown(ps) && AncestorOf(ps, u, s) && AncestorOf(ps, v, s)
    requires Entered(ps, u) && Entered(ps, v) && Parent(ps, u) == Parent(ps, v)
    ensures u == v
  {
    AncestorsOrdered(ps, u, v, s);
    ParentEarlier(ps, u);
    ParentEarlier(ps, v);
    if u != v {
      if AncestorOf(ps, u, v) {
        AncestorRank(ps, u, Parent(ps, v));
      } else {
        AncestorRank(ps, v, Parent(ps, u));
      }
    }
  }

  /** No ancestor of `s` is a child of `s`. */
  lemma ChildNotAncestor(ps: seq<Passage>, y: nat, s: nat)
    requires Grown(ps) && AncestorOf(ps, y, s) && Entered(ps, y)
    ensures Parent(ps, y) != s
  {
    AncestorRank(ps, y, s);
    ParentEarlier(ps, y);
  }

  /** Every passage joins a cell and its parent. */
  lemma PassageToParent(ps: seq<Passage>, a: nat, b: nat)
    requires Grown(ps) && HasPassage(a, b, ps)
    ensures (Entered(ps, b) && Parent(ps, b) == a) || (Entered(ps, a) && Parent(ps, a) == b)
  {
    var i :| 0 <= i < |ps| && Joins(ps[i], a, b);
    if ps[i] == (a, b) {
      EntryUnique(ps, b, i);
    } else {
      EntryUnique(ps, a, i);
    }
  }

  /**
   * `cells` spreads from `start` along the tree: each of its cells lies on the chain from
   * `start` up to the root or has its parent in it, and a cell of that chain is in it once its
   * parent is.
   */
  ghost predicate GrowsFrom(ps: seq<Passage>, start: nat, cells: set<nat>)
  {
    && (forall x :: x in cells ==> AncestorOf(ps, x, start) || (Entered(ps, x) && Parent(ps, x) in cells))
    && (forall y :: AncestorOf(ps, y, start) && Entered(ps, y) && Parent(ps, y) in cells ==> y in cells)
  }

  /** Adding `start`, or a cell reached by a passage from the set, keeps the set spreading from `start`. */
  lemma GrowStep(ps: seq<Passage>, start: nat, cells: set<nat>, node: nat, w: nat)
    requires Grown(ps) && GrowsFrom(ps, start, cells) && node !in cells
    requires node == start || (w in cells && HasPassage(w, node, ps))
    ensures GrowsFrom(ps, start, cells + {node})
  {
    var next := cells + {node};
    if node != start {
      PassageToParent(ps, w, node);
      if !(Entered(ps, node) && Parent(ps, node) == w) {
        AncestorUp(ps, w, start);
      }
    }
    forall y | AncestorOf(ps, y, start) && Entered(ps, y) && Parent(ps, y) in next
      ensures y in next
    {
      if Parent(ps, y) == node {
        if node == start {
          ChildNotAncestor(ps, y, start);
        } else {
          PassageToParent(ps, w, node);
          if Entered(ps, node) && Parent(ps, node) == w {
            AncestorUp(ps, y, start);
          } else {
            SameParentOnChain(ps, y, w, start);
          }
        }
      }
    }
  }

  /** In a tree, a cell outside a set spreading from `start` is joined by passages to at most one cell of it. */
  lemma OneNeighborInside(ps: seq<Passage>, start: nat, cells: set<nat>, n: nat, u: nat, v: nat)
    requires Grown(ps) && GrowsFrom(ps, start, cells) && n !in cells
    requires u in cells && v in cells && HasPassage(u, n, ps) && HasPassage(v, n, ps)
    ensures u == v
  {
    PassageToParent(ps, u, n);
    PassageToParent(ps, v, n);
    if Entered(ps, n) && Parent(ps, n) == u && Entered(ps, v) && Parent(ps, v) == n {
      AncestorUp(ps, v, start);
    } else if Entered(ps, n) && Parent(ps, n) == v && Entered(ps, u) && Parent(ps, u) == n {
      AncestorUp(ps, u, start);
    } else if Entered(ps, u) && Parent(ps, u) == n && Entered(ps, v) && Parent(ps, v) == n {
      SameParentOnChain(ps, u, v, start);
    }
  }

  /** Both ends of every passage of a tree lie in the grid. */
  lemma {:induction false} EndsInGrid(ps: seq<Passage>, j: nat, width: nat, height: nat)
    requires width > 0 && height > 0 && IsTree(ps, 0, width, height) && j < |ps|
    ensures ps[j].0 < width * height && ps[j].1 < width * height
    decreases j
  {
    if ps[j].0 != 0 {
      var i :| 0 <= i < |ps[..j]| && ps[..j][i].1 == ps[j].0;
      EndsInGrid(ps, i, width, height);
    }
    NeighborInGrid(ps[j].0, ps[j].1, width, height);
  }

  /** A passage of a tree joins two grid neighbours, in either order. */
  lemma PassageNeighbors(ps: seq<Passage>, a: nat, b: nat, width: nat, height: nat)
    requires width > 0 && height > 0 && IsTree(ps, 0, width, height) && HasPassage(a, b, ps)
    ensures a < width * height && b < width * height && IsNeighbor(a, b, width, height)
  {
    var i :| 0 <= i < |ps| && Joins(ps[i], a, b);
    EndsInGrid(ps, i, width, height);
    if ps[i] != (a, b) {
      NeighborSymmetric(b, a, width, height);
    }
  }

  /** Every passage can be walked both ways. */
  lemma PassageBack(a: nat, b: nat, ps: seq<Passage>)
    requires HasPassage(a, b, ps)
    ensures HasPassage(b, a, ps)
  {
    var i :| 0 <= i < |ps| && Joins(ps[i], a, b);
    assert Joins(ps[i], b, a);
  }

  /** No passage leads out of `cells`. */
  ghost predicate ClosedUnder(cells: set<nat>, ps: seq<Passage>)
  {
    forall w, n :: w in cells && HasPassage(w, n, ps) ==> n in cells
  }

  /** Walking a chain of passages forwards from a cell of a closed set stays inside it. */
  lemma {:induction false} WalkForward(path: seq<nat>, cells: set<nat>, ps: seq<Passage>, k: nat)
    requires IsPassagePath(path, ps) && ClosedUnder(cells, ps) && path[0] in cells && k < |path|
    ensures path[k] in cells
  {
    if k > 0 {
      WalkForward(path, cells, ps, k - 1);
      assert HasPassage(path[k - 1], path[k], ps);
    }
  }

  /** Walking a chain of passages backwards from a cell of a closed set stays inside it. */
  lemma {:induction false} WalkBackward(path: seq<nat>, cells: set<nat>, ps: seq<Passage>, k: nat)
    requires IsPassagePath(path, ps) && ClosedUnder(cells, ps) && path[|path| - 1] in cells && k < |path|
    ensures path[k] in cells
    decreases |path| - k
  {
    if k < |path| - 1 {
      WalkBackward(path, cells, ps, k + 1);
      PassageBack(path[k], path[k + 1], ps);
    }
  }

  /** In the carved maze a closed set of cells holding one cell holds every cell. */
  lemma ClosedHoldsAll(ps: seq<Passage>, width: nat, height: nat, cells: set<nat>, start: nat, c: nat)
    requires Spanning(ps, width, height) && ClosedUnder(cells, ps)
    requires start in cells && start < width * height && c < width * height
    ensures c in cells
  {
    var toStart := MazeConnected(ps, start, width, height);
    WalkBackward(toStart, cells, ps, 0);
    var toC := MazeConnected(ps, c, width, height);
    WalkForward(toC, cells, ps, |toC| - 1);
  }

  /** No entry occurs twice. */
  ghost predicate Distinct(s: seq<nat>)
  {
    forall x :: multiset(s)[x] <= 1
  }

  /** The values of a list. */
  ghost function Values(s: seq<nat>): (r: set<nat>)
    ensures forall x :: x in r <==> x in s
  {
    set x | x in s
  }

  /** A list with no repeated entry has as many entries as distinct values. */
  lemma {:induction false} DistinctCard(s: seq<nat>)
    requires Distinct(s)
    ensures |Values(s)| == |s|
  {
    if s != [] {
      var init := s[..|s| - 1];
      var last := s[|s| - 1];
      assert s == init + [last];
      assert multiset(s) == multiset(init) + multiset{last};
      assert Distinct(init) by {
        forall x ensures multiset(init)[x] <= 1 {
          assert multiset(init)[x] <= multiset(s)[x];
        }
      }
      DistinctCard(init);
      var before := Values(init);
      assert last !in before by {
        assert multiset(s)[last] == multiset(init)[last] + 1;
      }
      assert Values(s) == before + {last};
      assert |before + {last}| == |before| + 1;
    }
  }

  /** Two lists without repeats and without common entries make one without repeats. */
  lemma DistinctJoin(a: seq<nat>, b: seq<nat>)
    requires Distinct(a) && Distinct(b) && forall x :: x in b ==> x !in a
    ensures Distinct(a + b)
  {
    assert multiset(a + b) == multiset(a) + multiset(b);
    forall x ensures multiset(a + b)[x] <= 1 {
      if x in b {
        assert multiset(a)[x] == 0;
      } else {
        assert multiset(b)[x] == 0;
      }
    }
  }

  /** The cells numbered below `n`. */
  ghost function Below(n: nat): (r: set<nat>)
    ensures forall c: nat :: c in r <==> c < n
    ensures |r| == n
  {
    if n == 0 then {} else Below(n - 1) + {n - 1}
  }

  /** A list of distinct cells of the grid outside `cells` fits in the rest of the grid. */
  lemma RoomLeft(s: seq<nat>, cells: set<nat>, n: nat)
    requires Distinct(s) && forall k :: 0 <= k < |s| ==> s[k] < n && s[k] !in cells
    requires forall c :: c in cells ==> c < n
    ensures |s| + |cells| <= n
  {
    var inList := Values(s);
    DistinctCard(s);
    var all := Below(n);
    var used := inList + cells;
    assert inList * cells == {};
    assert |used| == |inList| + |cells|;
    assert used <= all;
    assert all == used + (all - used);
    assert |all| == |used| + |all - used|;
  }
}
