/**
 * The enemy path finder of src/state.rs: a depth-first search through the passages from the
 * enemy's cell, which records a trail of cells and cuts it back to the last branching cell at
 * every dead end, followed by a backward pruning pass that keeps a passage-connected chain.
 */
module Pathfinder {
  import opened Wrappers
  import opened Constants
  import opened Maze
  import opened Carve
  import opened Tree

  /** Every entry is a cell of a grid with `cells` cells. */
  predicate InGrid(s: seq<nat>, cells: nat)
  {
    forall k :: 0 <= k < |s| ==> s[k] < cells
  }

  /** `a` is `b` with some entries left out, the rest kept in order. */
  predicate IsSubsequence(a: seq<nat>, b: seq<nat>)
  {
    if a == [] then true
    else if b == [] then false
    else if a[0] == b[0] then IsSubsequence(a[1..], b[1..])
    else IsSubsequence(a, b[1..])
  }

  /** A subsequence of `b` is still one of `b` with anything put in front. */
  lemma {:induction false} SubsequenceCons(a: seq<nat>, x: nat, b: seq<nat>)
    requires IsSubsequence(a, b)
    ensures IsSubsequence(a, [x] + b)
    decreases |a| + |b|, 1
  {
    assert ([x] + b)[1..] == b;
    if a != [] && a[0] == x {
      SubsequenceDropFirst(a, b);
    }
  }

  /** Leaving out the first element of a subsequence keeps it a subsequence. */
  lemma {:induction false} SubsequenceDropFirst(a: seq<nat>, b: seq<nat>)
    requires a != [] && IsSubsequence(a, b)
    ensures IsSubsequence(a[1..], b)
    decreases |a| + |b|, 0
  {
    assert b != [];
    assert b == [b[0]] + b[1..];
    if a[0] == b[0] {
      SubsequenceCons(a[1..], b[0], b[1..]);
    } else {
      SubsequenceDropFirst(a, b[1..]);
      SubsequenceCons(a[1..], b[0], b[1..]);
    }
  }

  /** A subsequence is no longer than the list it is taken from. */
  lemma {:induction false} SubsequenceLength(a: seq<nat>, b: seq<nat>)
    requires IsSubsequence(a, b)
    ensures |a| <= |b|
  {
    if a != [] {
      if a[0] == b[0] {
        SubsequenceLength(a[1..], b[1..]);
      } else {
        SubsequenceLength(a, b[1..]);
      }
    }
  }

  /** Every entry of a subsequence is an entry of the list. */
  lemma {:induction false} SubsequenceMembers(a: seq<nat>, b: seq<nat>)
    requires IsSubsequence(a, b)
    ensures forall n :: n in a ==> n in b
  {
    if a != [] {
      if a[0] == b[0] {
        SubsequenceMembers(a[1..], b[1..]);
        assert forall n :: n in a ==> n == a[0] || n in a[1..];
      } else {
        SubsequenceMembers(a, b[1..]);
      }
    }
  }

  /** Consecutive cells of `path` are joined by recorded passages. */
  ghost predicate Chain(path: seq<nat>, passages: seq<Passage>)
  {
    forall k :: 0 <= k < |path| - 1 ==> HasPassage(path[k], path[k + 1], passages)
  }

  /**
   * The pruning pass: pops the trail from its end, keeps its last cell, and puts a popped cell
   * in front of the pruned path whenever a passage joins it to the cell kept last. Popping an
   * empty trail is the source's `unwrap` panic, returned as `ok == false`. The pruned path never
   * outgrows the trail, so its bounded inserts cannot fail.
   */
  method Prune(paths: seq<nat>, passages: seq<Passage>, capacity: nat) returns (pruned: seq<nat>, ok: bool)
    requires |paths| <= capacity
    ensures ok <==> |paths| > 0
    ensures ok ==> && |pruned| > 0 && IsSubsequence(pruned, paths)
                   && pruned[|pruned| - 1] == paths[|paths| - 1]
                   && Chain(pruned, passages)
  {
    if |paths| == 0 {
      return [], false;
    }
    var rest := paths[..|paths| - 1];
    var lastNode := paths[|paths| - 1];
    pruned := [lastNode];
    assert paths[|rest|..] == [lastNode];
    while |rest| > 0
      invariant rest == paths[..|rest|]
      invariant |pruned| > 0 && pruned[0] == lastNode
      invariant IsSubsequence(pruned, paths[|rest|..])
      invariant pruned[|pruned| - 1] == paths[|paths| - 1]
      invariant Chain(pruned, passages)
      decreases |rest|
    {
      var node := rest[|rest| - 1];
      rest := rest[..|rest| - 1];
      assert paths[|rest|..] == [node] + paths[|rest| + 1..];
      if !ThereIsNoPassageHere(lastNode, node, passages) {
        SubsequenceLength(pruned, paths[|rest| + 1..]);
        assert |pruned| < capacity;
        NoPassageSymmetric(lastNode, node, passages);
        pruned := [node] + pruned;
        lastNode := node;
      } else {
        SubsequenceCons(pruned, node, paths[|rest| + 1..]);
      }
    }
    ok := true;
  }

  /**
   * The neighbours of `node` worth a visit: unvisited, and joined to `node` by a passage
   * (`there_is_no_passage_here(..) == false`).
   */
  function PathCandidates(node: nat, width: nat, height: nat, visited: seq<bool>, passages: seq<Passage>): (r: seq<nat>)
    requires width > 0 && height > 0
    ensures forall n: nat :: n in r <==>
      IsNeighbor(node, n, width, height) && n < |visited| && !visited[n] && HasPassage(node, n, passages)
  {
    var unvisited := Filter(Flatten(FindNeighbors(node, width, height)), (n: nat) => n < |visited| && !visited[n]);
    Filter(unvisited, (n: nat) => !ThereIsNoPassageHere(node, n, passages))
  }

  /** No candidate occurs twice. */
  lemma CandidatesOnce(node: nat, width: nat, height: nat, visited: seq<bool>, passages: seq<Passage>)
    requires width > 0 && height > 0
    ensures Distinct(PathCandidates(node, width, height, visited, passages))
  {
    var ns := FindNeighbors(node, width, height);
    NeighborsOnce(node, width, height);
    FlattenCounts(ns);
    var keep := (n: nat) => n < |visited| && !visited[n];
    var also := (n: nat) => !ThereIsNoPassageHere(node, n, passages);
    assert PathCandidates(node, width, height, visited, passages) == Filter(Filter(Flatten(ns), keep), also);
    FilterCounts(Flatten(ns), keep);
    FilterCounts(Filter(Flatten(ns), keep), also);
  }

  /** The trail cut back to its last occurrence of `checkpoint`, or emptied when there is none. */
  function BacktrackTo(paths: seq<nat>, checkpoint: nat): (r: seq<nat>)
  {
    if paths == [] then []
    else if paths[|paths| - 1] == checkpoint then paths
    else BacktrackTo(paths[..|paths| - 1], checkpoint)
  }

  /**
   * Backtracking keeps a prefix of the trail: it ends at `checkpoint`, with no later copy of
   * `checkpoint` dropped, or it is empty because the trail held no `checkpoint` at all.
   */
  lemma {:induction false} BacktrackToPrefix(paths: seq<nat>, checkpoint: nat)
    ensures var r := BacktrackTo(paths, checkpoint);
      && |r| <= |paths| && r == paths[..|r|]
      && (r != [] ==> r[|r| - 1] == checkpoint)
      && (forall k :: |r| <= k < |paths| ==> paths[k] != checkpoint)
  {
    if paths != [] && paths[|paths| - 1] != checkpoint {
      BacktrackToPrefix(paths[..|paths| - 1], checkpoint);
    }
  }

  /**
   * The dead-end loop `while let Some(p) = paths.pop() { if p == checkpoint { push it back;
   * break } }`.
   */
  method Backtrack(paths: seq<nat>, checkpoint: nat) returns (r: seq<nat>)
    ensures r == BacktrackTo(paths, checkpoint)
  {
    r := paths;
    while |r| > 0
      invariant BacktrackTo(r, checkpoint) == BacktrackTo(paths, checkpoint)
      decreases |r|
    {
      var p := r[|r| - 1];
      r := r[..|r| - 1];
      if p == checkpoint {
        r := r + [checkpoint];
        assert BacktrackTo(r, checkpoint) == r;
        return;
      }
    }
  }

  /**
   * What the trail does at a popped cell with `branches` candidates: the goal is appended and
   * ends the search; a branch point is appended and becomes the checkpoint; a dead end cuts
   * the trail back to the checkpoint; a corridor cell is appended. Appending to a full trail is
   * the source's `unwrap` panic, returned as `ok == false`.
   */
  method Record(node: nat, end: nat, branches: nat, paths: seq<nat>, checkpoint: nat, capacity: nat)
    returns (paths': seq<nat>, checkpoint': nat, done: bool, ok: bool)
    requires |paths| <= capacity
    ensures done <==> node == end
    ensures checkpoint' == if node != end && branches > 1 then node else checkpoint
    ensures ok <==> (node != end && branches == 0) || |paths| < capacity
    ensures ok ==> paths' == if node != end && branches == 0 then BacktrackTo(paths, checkpoint) else paths + [node]
  {
    done := false;
    checkpoint' := checkpoint;
    if node == end {
      if |paths| == capacity {
        return paths, checkpoint', true, false;
      }
      paths' := paths + [node];
      done := true;
    } else if branches > 1 {
      checkpoint' := node;
      if |paths| == capacity {
        return paths, checkpoint', false, false;
      }
      paths' := paths + [node];
    } else if branches == 0 {
      paths' := Backtrack(paths, checkpoint);
    } else {
      if |paths| == capacity {
        return paths, checkpoint', false, false;
      }
      paths' := paths + [node];
    }
    ok := true;
  }

  /** The trail after `Record` stays within capacity and within the grid, and ends at the goal once found. */
  lemma RecordKeepsTrail(node: nat, end: nat, branches: nat, paths: seq<nat>, checkpoint: nat,
                         capacity: nat, cells: nat, paths': seq<nat>)
    requires |paths| <= capacity && InGrid(paths, cells) && node < cells
    requires node != end && branches == 0 ==> paths' == BacktrackTo(paths, checkpoint)
    requires !(node != end && branches == 0) ==> paths' == paths + [node] && |paths| < capacity
    ensures |paths'| <= capacity && InGrid(paths', cells)
    ensures node == end ==> |paths'| > 0 && paths'[|paths'| - 1] == end
  {
    BacktrackToPrefix(paths, checkpoint);
    if node != end && branches == 0 {
      assert forall k :: 0 <= k < |paths'| ==> paths'[k] == paths[k];
    }
  }

  /**
   * `for pass in potential_paths { stack.push(pass).unwrap(); }`: pushes every cell of `order`
   * in turn, failing at the first push onto a full stack.
   */
  method PushAll(stack: seq<nat>, order: seq<nat>, capacity: nat) returns (r: seq<nat>, ok: bool)
    requires |stack| <= capacity
    ensures ok <==> |stack| + |order| <= capacity
    ensures ok ==> r == stack + order
  {
    r := stack;
    var k := 0;
    while k < |order|
      invariant 0 <= k <= |order|
      invariant r == stack + order[..k]
      invariant |r| <= capacity
    {
      if |r| == capacity {
        return r, false;
      }
      r := r + [order[k]];
      k := k + 1;
    }
    assert order[..k] == order;
    ok := true;
  }

  /** The candidates in shuffled order are still unvisited neighbours of `node` in the grid. */
  lemma ShuffledPathCandidates(node: nat, width: nat, height: nat, visited: seq<bool>,
                               passages: seq<Passage>, candidates: seq<nat>, order: seq<nat>)
    requires width > 0 && height > 0 && node < width * height && |visited| == width * height
    requires multiset(order) == multiset(candidates)
    requires forall n: nat :: n in candidates <==>
      IsNeighbor(node, n, width, height) && n < |visited| && !visited[n] && HasPassage(node, n, passages)
    ensures forall k :: 0 <= k < |order| ==> order[k] < |visited| && !visited[order[k]]
    ensures forall k :: 0 <= k < |order| ==> HasPassage(node, order[k], passages)
  {
    forall k | 0 <= k < |order|
      ensures order[k] < |visited| && !visited[order[k]] && HasPassage(node, order[k], passages)
    {
      assert order[k] in multiset(order);
      assert order[k] in candidates;
    }
  }

  /** Cell `c` is visited exactly when it is expanded or is `start`. */
  ghost predicate Seen(visited: seq<bool>, start: nat, expanded: set<nat>, c: nat)
  {
    c < |visited| && (visited[c] <==> c in expanded || c == start)
  }

  /** The visited cells are the expanded ones and `start`, all in the grid. */
  ghost predicate VisitedAre(visited: seq<bool>, cells: nat, start: nat, expanded: set<nat>)
  {
    && |visited| == cells && start < cells
    && (forall c {:trigger Seen(visited, start, expanded, c)} :: 0 <= c < cells ==> Seen(visited, start, expanded, c))
    && (forall c :: c in expanded ==> c < cells)
  }

  /** Cell `n` is an unexpanded grid cell that is `start` or is joined by a passage to an expanded cell. */
  ghost predicate Reached(ps: seq<Passage>, cells: nat, start: nat, expanded: set<nat>, n: nat)
  {
    && n < cells && n !in expanded
    && (n == start || exists w :: w in expanded && HasPassage(w, n, ps))
  }

  /**
   * The stack holds distinct cells that `Reached` describes; `start` is expanded once the first
   * cell has been popped.
   */
  ghost predicate Stacked(ps: seq<Passage>, cells: nat, start: nat, expanded: set<nat>, stack: seq<nat>)
  {
    && ((expanded == {} && stack == [start]) || start in expanded)
    && Distinct(stack)
    && (forall n {:trigger Reached(ps, cells, start, expanded, n)} :: n in stack ==> Reached(ps, cells, start, expanded, n))
  }

  /** Every passage out of an expanded cell leads to an expanded or a stacked cell. */
  ghost predicate Bordered(ps: seq<Passage>, expanded: set<nat>, stack: seq<nat>)
  {
    forall w, n :: w in expanded && HasPassage(w, n, ps) ==> n in expanded || n in stack
  }

  /**
   * What the search keeps true on the carved maze while it is still looking: `expanded` is the
   * set of cells popped and expanded so far, which spreads from `start` along the tree and does
   * not hold the goal, and the trail is no longer than the number of expanded cells.
   */
  ghost predicate Frontier(ps: seq<Passage>, cells: nat, start: nat, end: nat, visited: seq<bool>,
                           expanded: set<nat>, stack: seq<nat>, paths: seq<nat>)
  {
    && end < cells && end !in expanded && InGrid(stack, cells)
    && VisitedAre(visited, cells, start, expanded)
    && Stacked(ps, cells, start, expanded, stack)
    && Bordered(ps, expanded, stack)
    && GrowsFrom(ps, start, expanded)
    && |paths| <= |expanded| && InGrid(paths, cells)
  }

  /**
   * `candidates` are the cells a passage leads to from `node` that are not visited, each once.
   */
  ghost predicate Leads(ps: seq<Passage>, node: nat, visited: seq<bool>, candidates: seq<nat>)
  {
    && Distinct(candidates)
    && forall n: nat :: n in candidates <==> n < |visited| && !visited[n] && HasPassage(node, n, ps)
  }

  /**
   * `candidates` are the grid neighbours of `node` that a passage leads to and that are not
   * visited, each once: what the search pushes, in whatever order the shuffle gives.
   */
  ghost predicate Offered(ps: seq<Passage>, node: nat, width: nat, height: nat, visited: seq<bool>, candidates: seq<nat>)
  {
    && width > 0 && height > 0
    && Distinct(candidates)
    && forall n: nat :: n in candidates <==>
      IsNeighbor(node, n, width, height) && n < |visited| && !visited[n] && HasPassage(node, n, ps)
  }

  /** Any shuffle of the candidates of a cell is an offer of them. */
  lemma CandidatesOffered(node: nat, width: nat, height: nat, visited: seq<bool>, ps: seq<Passage>, order: seq<nat>)
    requires width > 0 && height > 0
    requires multiset(order) == multiset(PathCandidates(node, width, height, visited, ps))
    ensures Offered(ps, node, width, height, visited, order)
  {
    var candidates := PathCandidates(node, width, height, visited, ps);
    CandidatesOnce(node, width, height, visited, ps);
    forall n: nat ensures n in order <==> n in candidates {
      assert n in order <==> n in multiset(order);
    }
  }

  /** On the carved maze every passage of a cell leads to a grid neighbour, so an offer leaves none out. */
  lemma OfferedLeads(ps: seq<Passage>, width: nat, height: nat, node: nat, visited: seq<bool>, candidates: seq<nat>)
    requires Spanning(ps, width, height) && Offered(ps, node, width, height, visited, candidates)
    ensures Leads(ps, node, visited, candidates)
    ensures forall n: nat :: HasPassage(node, n, ps) ==> n < width * height
  {
    forall n: nat | HasPassage(node, n, ps) ensures n < width * height && IsNeighbor(node, n, width, height) {
      PassageNeighbors(ps, node, n, width, height);
    }
  }

  /**
   * The popped cell is a new grid cell, not stacked twice; it is `start` only at the first
   * step, and otherwise the returned `w` is an expanded cell that leads to it.
   */
  lemma Popped(ps: seq<Passage>, cells: nat, start: nat, end: nat, visited: seq<bool>,
               expanded: set<nat>, stack: seq<nat>, paths: seq<nat>)
    returns (w: nat)
    requires Frontier(ps, cells, start, end, visited, expanded, stack, paths) && |stack| > 0
    ensures var node := stack[|stack| - 1]; var rest := stack[..|stack| - 1];
      && node < cells && node !in expanded && node !in rest && Distinct(rest)
      && (node == start ==> expanded == {} && rest == [])
      && (node != start ==> w in expanded && HasPassage(w, node, ps))
  {
    var node := stack[|stack| - 1];
    var rest := stack[..|stack| - 1];
    assert stack == rest + [node];
    assert Reached(ps, cells, start, expanded, node);
    assert multiset(stack) == multiset(rest) + multiset{node};
    assert Distinct(rest) by {
      forall x ensures multiset(rest)[x] <= 1 {
        assert multiset(rest)[x] <= multiset(stack)[x];
      }
    }
    assert node !in rest by {
      assert multiset(stack)[node] == multiset(rest)[node] + 1;
    }
    w := 0;
    if node != start {
      w :| w in expanded && HasPassage(w, node, ps);
    }
  }

  /**
   * In a tree the candidates of the popped cell are not on the stack yet: a stacked cell is
   * already joined to an expanded cell, and a cell outside the expanded ones is joined to at
   * most one of them.
   */
  lemma FreshCandidates(ps: seq<Passage>, cells: nat, start: nat, end: nat, visited: seq<bool>,
                        expanded: set<nat>, stack: seq<nat>, paths: seq<nat>, w: nat, candidates: seq<nat>)
    requires Grown(ps)
    requires Frontier(ps, cells, start, end, visited, expanded, stack, paths) && |stack| > 0
    requires var node := stack[|stack| - 1];
      && node !in expanded
      && (node != start ==> w in expanded && HasPassage(w, node, ps))
      && Leads(ps, node, visited[node := true], candidates)
    ensures forall n :: n in candidates ==> n !in stack[..|stack| - 1]
  {
    var node := stack[|stack| - 1];
    var rest := stack[..|stack| - 1];
    GrowStep(ps, start, expanded, node, w);
    forall n | n in candidates
      ensures n !in rest
    {
      if n in rest {
        var k :| 0 <= k < |rest| && rest[k] == n;
        assert stack[k] == n;
        assert Reached(ps, cells, start, expanded, n) && Seen(visited, start, expanded, n);
        var u :| u in expanded && HasPassage(u, n, ps);
        OneNeighborInside(ps, start, expanded + {node}, n, u, node);
      }
    }
  }

  /**
   * On the carved maze the buffers never overflow: the trail has room for one more cell, and
   * the stack for every candidate of the popped cell.
   */
  lemma Room(ps: seq<Passage>, cells: nat, start: nat, end: nat, visited: seq<bool>,
             expanded: set<nat>, stack: seq<nat>, paths: seq<nat>, w: nat, candidates: seq<nat>)
    requires Grown(ps)
    requires Frontier(ps, cells, start, end, visited, expanded, stack, paths) && |stack| > 0
    requires var node := stack[|stack| - 1];
      && (node != start ==> w in expanded && HasPassage(w, node, ps))
      && Leads(ps, node, visited[node := true], candidates)
    ensures |paths| < cells
    ensures |stack| - 1 + |candidates| <= cells
  {
    var node := stack[|stack| - 1];
    var rest := stack[..|stack| - 1];
    var _ := Popped(ps, cells, start, end, visited, expanded, stack, paths);
    FreshCandidates(ps, cells, start, end, visited, expanded, stack, paths, w, candidates);
    DistinctJoin(rest, candidates);
    var list := rest + candidates;
    forall k | 0 <= k < |list| ensures list[k] < cells && list[k] !in expanded + {node} {
      if k < |rest| {
        assert list[k] == stack[k];
        assert Reached(ps, cells, start, expanded, list[k]);
      } else {
        assert list[k] in candidates;
        assert Seen(visited, start, expanded, list[k]);
      }
    }
    RoomLeft(list, expanded + {node}, cells);
  }

  /** After the step the stack is still made of distinct fresh cells, each with its way in. */
  lemma ExpandStacked(ps: seq<Passage>, cells: nat, start: nat, end: nat, visited: seq<bool>,
                      expanded: set<nat>, stack: seq<nat>, paths: seq<nat>, w: nat,
                      candidates: seq<nat>, order: seq<nat>)
    requires Grown(ps)
    requires Frontier(ps, cells, start, end, visited, expanded, stack, paths) && |stack| > 0
    requires var node := stack[|stack| - 1];
      && (node != start ==> w in expanded && HasPassage(w, node, ps))
      && Leads(ps, node, visited[node := true], candidates)
    requires multiset(order) == multiset(candidates)
    ensures var node := stack[|stack| - 1];
      Stacked(ps, cells, start, expanded + {node}, stack[..|stack| - 1] + order)
    ensures InGrid(stack[..|stack| - 1] + order, cells)
  {
    var node := stack[|stack| - 1];
    var rest := stack[..|stack| - 1];
    var next := expanded + {node};
    var _ := Popped(ps, cells, start, end, visited, expanded, stack, paths);
    FreshCandidates(ps, cells, start, end, visited, expanded, stack, paths, w, candidates);
    assert Distinct(order);
    forall n | n in order ensures n in candidates && n !in rest {
      assert n in multiset(order);
    }
    DistinctJoin(rest, order);
    var list := rest + order;
    assert start in next by {
      if expanded == {} {
        assert stack == [start];
      }
    }
    forall n | n in list ensures Reached(ps, cells, start, next, n) {
      if n in rest {
        assert n in stack;
        assert Reached(ps, cells, start, expanded, n);
      } else {
        assert n in candidates;
        assert Seen(visited, start, expanded, n);
        assert node in next && HasPassage(node, n, ps);
      }
    }
    forall k | 0 <= k < |list| ensures list[k] < cells {
      assert list[k] in list && Reached(ps, cells, start, next, list[k]);
    }
  }

  /** After the step every passage out of an expanded cell still leads to an expanded or a stacked cell. */
  lemma ExpandBordered(ps: seq<Passage>, cells: nat, start: nat, end: nat, visited: seq<bool>,
                       expanded: set<nat>, stack: seq<nat>, paths: seq<nat>,
                       candidates: seq<nat>, order: seq<nat>)
    requires Frontier(ps, cells, start, end, visited, expanded, stack, paths) && |stack| > 0
    requires var node := stack[|stack| - 1];
      && (forall n: nat :: HasPassage(node, n, ps) ==> n < cells)
      && Leads(ps, node, visited[node := true], candidates)
    requires multiset(order) == multiset(candidates)
    ensures var node := stack[|stack| - 1];
      Bordered(ps, expanded + {node}, stack[..|stack| - 1] + order)
  {
    var node := stack[|stack| - 1];
    var rest := stack[..|stack| - 1];
    var next := expanded + {node};
    var after := visited[node := true];
    assert stack == rest + [node];
    forall v: nat, n: nat | v in next && HasPassage(v, n, ps) ensures n in next || n in rest + order {
      if v in expanded {
        assert n in expanded || n in stack;
      } else if n != node && n !in expanded {
        assert n != start by {
          if expanded == {} {
            assert stack == [start];
          }
        }
        assert Seen(visited, start, expanded, n);
        assert n < |after| && !after[n];
        assert n in candidates;
        assert n in multiset(order);
      }
    }
  }

  /**
   * One step of the search on the carved maze keeps `Frontier`: the popped cell, when it is not
   * the goal, joins the expanded cells, its candidates go on the stack, and the trail grows by
   * at most one cell.
   */
  lemma Expand(ps: seq<Passage>, cells: nat, start: nat, end: nat, visited: seq<bool>,
               expanded: set<nat>, stack: seq<nat>, paths: seq<nat>, w: nat,
               candidates: seq<nat>, order: seq<nat>, paths': seq<nat>)
    requires Grown(ps)
    requires Frontier(ps, cells, start, end, visited, expanded, stack, paths) && |stack| > 0
    requires var node := stack[|stack| - 1];
      && node != end
      && (node != start ==> w in expanded && HasPassage(w, node, ps))
      && (forall n: nat :: HasPassage(node, n, ps) ==> n < cells)
      && Leads(ps, node, visited[node := true], candidates)
    requires multiset(order) == multiset(candidates)
    requires |paths'| <= |paths| + 1 && InGrid(paths', cells)
    ensures var node := stack[|stack| - 1];
      Frontier(ps, cells, start, end, visited[node := true], expanded + {node}, stack[..|stack| - 1] + order, paths')
  {
    var node := stack[|stack| - 1];
    var _ := Popped(ps, cells, start, end, visited, expanded, stack, paths);
    GrowStep(ps, start, expanded, node, w);
    ExpandStacked(ps, cells, start, end, visited, expanded, stack, paths, w, candidates, order);
    ExpandBordered(ps, cells, start, end, visited, expanded, stack, paths, candidates, order);
    ExpandVisited(cells, start, visited, expanded, node, visited[node := true], expanded + {node});
    assert |expanded + {node}| == |expanded| + 1;
  }

  /** Marking the popped grid cell visited adds it to the expanded cells. */
  lemma ExpandVisited(cells: nat, start: nat, visited: seq<bool>, expanded: set<nat>, node: nat,
                      after: seq<bool>, next: set<nat>)
    requires VisitedAre(visited, cells, start, expanded) && node < cells
    requires after == visited[node := true] && next == expanded + {node}
    ensures VisitedAre(after, cells, start, next)
  {
    forall c | 0 <= c < cells ensures Seen(after, start, next, c) {
      assert Seen(visited, start, expanded, c);
    }
  }


  /**
   * On the carved maze, popping a cell leaves room on the trail for it and on the stack for any
   * offer of its candidates; `w` is the expanded cell it was reached from, unless it is `start`.
   */
  lemma SearchPop(ps: seq<Passage>, width: nat, height: nat, start: nat, end: nat, visited: seq<bool>,
                  expanded: set<nat>, stack: seq<nat>, paths: seq<nat>)
    returns (w: nat)
    requires Spanning(ps, width, height)
    requires Frontier(ps, width * height, start, end, visited, expanded, stack, paths) && |stack| > 0
    ensures var node := stack[|stack| - 1];
      node != start ==> w in expanded && HasPassage(w, node, ps)
    ensures |paths| < width * height
    ensures var node := stack[|stack| - 1];
      forall c :: Offered(ps, node, width, height, visited[node := true], c) ==> |stack| - 1 + |c| <= width * height
  {
    var node := stack[|stack| - 1];
    TreeGrown(ps, width, height);
    w := Popped(ps, width * height, start, end, visited, expanded, stack, paths);
    CandidatesOffered(node, width, height, visited[node := true], ps, PathCandidates(node, width, height, visited[node := true], ps));
    OfferedLeads(ps, width, height, node, visited[node := true], PathCandidates(node, width, height, visited[node := true], ps));
    Room(ps, width * height, start, end, visited, expanded, stack, paths, w, PathCandidates(node, width, height, visited[node := true], ps));
    forall c | Offered(ps, node, width, height, visited[node := true], c)
      ensures |stack| - 1 + |c| <= width * height
    {
      OfferedLeads(ps, width, height, node, visited[node := true], c);
      Room(ps, width * height, start, end, visited, expanded, stack, paths, w, c);
    }
  }

  /** On the carved maze one step of the search that does not reach the goal keeps `Frontier`. */
  lemma SearchPush(ps: seq<Passage>, width: nat, height: nat, start: nat, end: nat, visited: seq<bool>,
                   expanded: set<nat>, stack: seq<nat>, paths: seq<nat>, w: nat, order: seq<nat>, paths': seq<nat>)
    requires Spanning(ps, width, height)
    requires Frontier(ps, width * height, start, end, visited, expanded, stack, paths) && |stack| > 0
    requires var node := stack[|stack| - 1];
      node != start ==> w in expanded && HasPassage(w, node, ps)
    requires var node := stack[|stack| - 1];
      node != end && Offered(ps, node, width, height, visited[node := true], order)
    requires |paths'| <= |paths| + 1 && InGrid(paths', width * height)
    ensures var node := stack[|stack| - 1];
      Frontier(ps, width * height, start, end, visited[node := true], expanded + {node}, stack[..|stack| - 1] + order, paths')
  {
    var node := stack[|stack| - 1];
    TreeGrown(ps, width, height);
    OfferedLeads(ps, width, height, node, visited[node := true], order);
    Expand(ps, width * height, start, end, visited, expanded, stack, paths, w, order, order, paths');
  }

  /** A search of the carved maze that runs out of stack has expanded every cell, the goal included. */
  lemma Exhausted(ps: seq<Passage>, width: nat, height: nat, start: nat, end: nat, visited: seq<bool>,
                  expanded: set<nat>)
    requires Spanning(ps, width, height) && end < width * height
    requires VisitedAre(visited, width * height, start, expanded)
    requires Stacked(ps, width * height, start, expanded, []) && Bordered(ps, expanded, [])
    ensures end in expanded
  {
    ClosedHoldsAll(ps, width, height, expanded, start, end);
  }

  /**
   * One step of the search loop while still looking: mark `node` visited, record it on the
   * trail and push its unvisited passage-neighbours in shuffled order. Every pushed cell is
   * unvisited afterwards; `ok == false` is the `unwrap` of a push onto a full stack or trail.
   */
  method Visit(node: nat, end: nat, width: nat, height: nat, passages: seq<Passage>, visited: array<bool>,
               stack: seq<nat>, paths: seq<nat>, checkpoint: nat, capacity: nat, shuffle: (nat, seq<nat>) -> seq<nat>)
    returns (stack': seq<nat>, paths': seq<nat>, checkpoint': nat, done: bool, ok: bool, ghost order: seq<nat>)
    requires width > 0 && height > 0 && visited.Length == width * height && node < visited.Length
    requires IsPermuter(shuffle)
    requires InGrid(stack, visited.Length) && |stack| <= capacity && InGrid(paths, visited.Length) && |paths| <= capacity
    modifies visited
    ensures visited[..] == old(visited[..])[node := true]
    ensures done <==> node == end
    ensures Offered(passages, node, width, height, visited[..], order)
    ensures ok <==> ((node != end && |order| == 0) || |paths| < capacity) && |stack| + |order| <= capacity
    ensures ok ==> stack' == stack + order && |paths'| <= |paths| + 1
    ensures ok ==> InGrid(stack', visited.Length) && |stack'| <= capacity && InGrid(paths', visited.Length) && |paths'| <= capacity
    ensures ok && done ==> |paths'| > 0 && paths'[|paths'| - 1] == end
    ensures ok ==> |stack| <= |stack'| && stack'[..|stack|] == stack
    ensures ok ==> forall k :: |stack| <= k < |stack'| ==> !visited[stack'[k]]
  {
    visited[node] := true;
    var candidates := PathCandidates(node, width, height, visited[..], passages);
    var shuffled := shuffle(node, candidates);
    order := shuffled;
    ShuffledPathCandidates(node, width, height, visited[..], passages, candidates, shuffled);
    CandidatesOffered(node, width, height, visited[..], passages, shuffled);
    var recorded;
    paths', checkpoint', done, recorded := Record(node, end, |shuffled|, paths, checkpoint, capacity);
    stack' := stack;
    if !recorded {
      return stack', paths', checkpoint', done, false, order;
    }
    RecordKeepsTrail(node, end, |shuffled|, paths, checkpoint, capacity, visited.Length, paths');
    BacktrackToPrefix(paths, checkpoint);
    stack', ok := PushAll(stack, shuffled, capacity);
    if ok {
      assert stack'[..|stack|] == stack;
      assert forall k :: |stack| <= k < |stack'| ==> stack'[k] == shuffled[k - |stack|];
    }
  }

  /**
   * The search loop of `find_path`. It pops a cell from the stack; while still looking it marks
   * the cell visited, gathers its unvisited passage-neighbours in shuffled order and pushes them.
   * The cell itself goes onto the trail when it is the goal (which ends the looking), a branch
   * point (it becomes the checkpoint) or a corridor; at a dead end the trail is cut back to the
   * checkpoint. Once the goal is found, the remaining stack is only drained. A push onto a full
   * stack or trail is the source's `unwrap` panic, returned as `ok == false`.
   */
  method Search(start: nat, end: nat, width: nat, height: nat, passages: seq<Passage>, visited: array<bool>,
                capacity: nat, shuffle: (nat, seq<nat>) -> seq<nat>)
    returns (paths: seq<nat>, found: bool, ok: bool)
    requires width > 0 && height > 0 && visited.Length == width * height && start < visited.Length
    requires IsPermuter(shuffle)
    modifies visited
    ensures ok ==> |paths| <= capacity && InGrid(paths, width * height)
    ensures ok && found ==> |paths| > 0 && paths[|paths| - 1] == end
    ensures visited[start]
    ensures (&& Spanning(passages, width, height) && end < width * height && width * height <= capacity
             && forall c :: 0 <= c < visited.Length ==> !old(visited[c])) ==> ok && found
  {
    ghost var spanning := Spanning(passages, width, height) && end < width * height && width * height <= capacity
                          && forall c :: 0 <= c < visited.Length ==> !visited[c];
    visited[start] := true;
    if capacity == 0 {
      return [], false, false;
    }
    var stack := [start];
    paths := [];
    var stillLooking := true;
    var checkpoint := start;
    ghost var expanded: set<nat> := {};
    ghost var cells := width * height;
    while |stack| > 0
      invariant InGrid(stack, visited.Length) && |stack| <= capacity
      invariant InGrid(paths, visited.Length) && |paths| <= capacity
      invariant !stillLooking ==> |paths| > 0 && paths[|paths| - 1] == end
      invariant visited[start]
      invariant spanning && stillLooking ==> Frontier(passages, cells, start, end, visited[..], expanded, stack, paths)
      decreases (if stillLooking then 1 else 0), CountFalse(visited[..]),
        (if stillLooking && |stack| > 0 && visited[stack[|stack| - 1]] then 1 else 0), |stack|
    {
      ghost var popped := stack;
      var node := stack[|stack| - 1];
      stack := stack[..|stack| - 1];
      if stillLooking {
        ghost var before := visited[..];
        ghost var trail := paths;
        ghost var w: nat := 0;
        CountFalseMark(before, node);
        if spanning {
          w := SearchPop(passages, width, height, start, end, before, expanded, popped, trail);
        }
        var done, pushed;
        ghost var order;
        stack, paths, checkpoint, done, pushed, order :=
          Visit(node, end, width, height, passages, visited, stack, paths, checkpoint, capacity, shuffle);
        if !pushed {
          return paths, false, false;
        }
        if done {
          stillLooking := false;
        } else if spanning {
          SearchPush(passages, width, height, start, end, before, expanded, popped, trail, w, order, paths);
        }
        expanded := expanded + {node};
      }
    }
    if spanning && stillLooking {
      Exhausted(passages, width, height, start, end, visited[..], expanded);
    }
    found := !stillLooking;
    ok := true;
  }

  /**
   * `find_path`: the search from `start`, then the pruning of its trail. On success the pruned
   * path is a passage-connected chain of grid cells, taken in order from the trail and ending
   * where the trail ends, which is `end` when the search found it.
   */
  method FindPath(start: nat, end: nat, width: nat, height: nat, passages: seq<Passage>, visited: array<bool>,
                  capacity: nat, shuffle: (nat, seq<nat>) -> seq<nat>)
    returns (pruned: seq<nat>, ghost trail: seq<nat>, found: bool, ok: bool)
    requires width > 0 && height > 0 && visited.Length == width * height && start < visited.Length
    requires IsPermuter(shuffle)
    modifies visited
    ensures ok ==> && |pruned| > 0 && InGrid(pruned, width * height) && Chain(pruned, passages)
                   && IsSubsequence(pruned, trail) && pruned[|pruned| - 1] == trail[|trail| - 1]
                   && (found ==> pruned[|pruned| - 1] == end)
    ensures (&& Spanning(passages, width, height) && end < width * height && width * height <= capacity
             && forall c :: 0 <= c < visited.Length ==> !old(visited[c])) ==> ok && found
  {
    var paths, searched;
    paths, found, searched := Search(start, end, width, height, passages, visited, capacity, shuffle);
    trail := paths;
    if !searched {
      return [], trail, found, false;
    }
    pruned, ok := Prune(paths, passages, capacity);
    if ok {
      SubsequenceMembers(pruned, paths);
      forall k | 0 <= k < |pruned| ensures pruned[k] < width * height {
        assert pruned[k] in paths;
      }
    }
  }

  /**
   * The target-cell choice of `update_enemy`: a path from the enemy's cell towards the player's
   * cell over a fresh, unvisited grid; the target is the second cell of the pruned path, or the
   * enemy's own cell when the path has fewer than two cells.
   */
  method EnemyTarget(enemyIndex: nat, playerIndex: nat, passages: seq<Passage>, shuffle: (nat, seq<nat>) -> seq<nat>)
    returns (target: nat, path: seq<nat>, ok: bool)
    requires enemyIndex < NUM_CELLS
    requires IsPermuter(shuffle)
    ensures ok ==> |path| > 0 && InGrid(path, NUM_CELLS) && Chain(path, passages)
    ensures ok ==> target < NUM_CELLS
    ensures ok && |path| > 1 ==> target == path[1] && HasPassage(path[0], target, passages)
    ensures ok && |path| <= 1 ==> target == enemyIndex
    ensures Spanning(passages, WIDTH, HEIGHT) && playerIndex < NUM_CELLS ==> ok && path[|path| - 1] == playerIndex
  {
    var visited := new bool[NUM_CELLS](_ => false);
    ghost var trail;
    var found;
    path, trail, found, ok := FindPath(enemyIndex, playerIndex, WIDTH, HEIGHT, passages, visited, MAX_PASSAGES, shuffle);
    if ok && |path| > 1 {
      target := path[1];
    } else {
      target := enemyIndex;
    }
  }
}
