/**
 * The second cycle pass of `write_proto_files`: `find_cycles`, a depth-first
 * search over the import graph that keeps the current branch both as the list
 * `path` and as the set `path_set`, and `merge_cycle_files`, which gives every
 * member of a cycle one file named after its first member and redirects the
 * import graph to it.
 */
module ImportCycles {
  import opened Tables
  import opened Dependencies
  import opened CycleBreaking

  /** The state the nested `dfs` of `find_cycles` closes over. */
  datatype Walker = Walker(visited: set<Name>, path: seq<Name>, pathSet: set<Name>, cycles: seq<seq<Name>>)

  /**
   * `path` and `path_set` hold the same nodes, the path is a walk of the graph
   * inside `visited`, and every recorded cycle is a closed walk.
   */
  ghost predicate Sound(g: Graph, w: Walker) {
    && Elems(w.path) == w.pathSet
    && IsWalk(g.items, w.path)
    && w.pathSet <= w.visited <= g.items.Keys
    && forall c :: c in w.cycles ==> IsClosedWalk(g.items, c)
  }

  /** While nothing is recorded, every visited node off the path has finished, in order `fin`. */
  ghost predicate Clean(g: Graph, w: Walker, fin: seq<Name>) {
    w.visited == w.pathSet + Elems(fin) && FinishedOrder(g, fin)
  }

  /** A call `dfs(node)` may be made: `node` is a key reached along an edge from the end of the path. */
  ghost predicate Ready(g: Graph, node: Name, w: Walker) {
    && g.Valid() && Closed(g) && node in g.items && Sound(g, w)
    && (w.path == [] || node in g.items[w.path[|w.path| - 1]])
  }

  /**
   * What a call `dfs(node)` promises: the walker stays sound, `path` and
   * `path_set` come back as they were, `node` is visited, cycles are only
   * added, and while none is recorded every node it reached has finished.
   */
  ghost predicate Walked(g: Graph, node: Name, w: Walker, fin: seq<Name>, w': Walker, fin': seq<Name>) {
    && Sound(g, w') && w'.path == w.path && w'.pathSet == w.pathSet
    && w.visited <= w'.visited && node in w'.visited
    && |w.cycles| <= |w'.cycles| && w'.cycles[..|w.cycles|] == w.cycles
    && (w'.cycles == [] && Clean(g, w, fin) ==> Clean(g, w', fin') && node in fin' && forall x :: x in fin ==> x in fin')
  }

  /**
   * `dfs(node)`: a node on the path records `path[idx:] + [node]`, where `idx`
   * is its first position; a visited node is skipped; any other node is
   * expanded.
   */
  method Walk(g: Graph, node: Name, w: Walker, ghost fin: seq<Name>) returns (w': Walker, ghost fin': seq<Name>)
    requires Ready(g, node, w)
    ensures w'.path == w.path && w'.pathSet == w.pathSet
    ensures w.visited <= w'.visited && node in w'.visited
    ensures |w.cycles| <= |w'.cycles| && w'.cycles[..|w.cycles|] == w.cycles
    ensures Walked(g, node, w, fin, w', fin')
    decreases g.items.Keys - w.visited, 1
  {
    if node in w.pathSet {
      var idx := IndexOf(w.path, node);
      CloseWalk(g, w.path, idx, node);
      w', fin' := w.(cycles := w.cycles + [w.path[idx..] + [node]]), fin;
      assert w'.cycles[..|w.cycles|] == w.cycles;
    } else if node in w.visited {
      w', fin' := w, fin;
    } else {
      w', fin' := Descend(g, node, w, fin);
    }
  }

  /**
   * The state of the loop over the targets of `node`: `node` sits on top of
   * the path it was pushed on, `todo` holds the targets not yet walked, and
   * while nothing is recorded every walked target has finished.
   */
  ghost predicate Expanding(g: Graph, node: Name, w: Walker, fin: seq<Name>, clean: bool,
                            w': Walker, fin': seq<Name>, todo: set<Name>) {
    && node in g.items && todo <= g.items[node]
    && Sound(g, w') && w.visited + {node} <= w'.visited
    && w'.path == w.path + [node] && w'.pathSet == w.pathSet + {node}
    && |w.cycles| <= |w'.cycles| && w'.cycles[..|w.cycles|] == w.cycles
    && (clean && w'.cycles == [] ==>
          && Clean(g, w', fin')
          && (forall x :: x in fin ==> x in fin')
          && forall v :: v in g.items[node] && v !in todo ==> v in fin')
  }

  lemma ExpandStart(g: Graph, node: Name, w: Walker, fin: seq<Name>)
    requires Ready(g, node, w) && node !in w.visited
    ensures var clean := w.cycles == [] && Clean(g, w, fin);
      Expanding(g, node, w, fin, clean,
                w.(visited := w.visited + {node}, path := w.path + [node], pathSet := w.pathSet + {node}),
                fin, g.items[node])
  {
    ElemsSnoc(w.path, node);
  }

  lemma ExpandNext(g: Graph, node: Name, w: Walker, fin: seq<Name>, clean: bool,
                   w': Walker, fin': seq<Name>, todo: set<Name>, next: Name)
    requires g.Valid() && Closed(g) && Expanding(g, node, w, fin, clean, w', fin', todo) && next in todo
    ensures Ready(g, next, w')
  {
  }

  lemma ExpandStep(g: Graph, node: Name, w: Walker, fin: seq<Name>, clean: bool,
                   w': Walker, fin': seq<Name>, todo: set<Name>, next: Name, w'': Walker, fin'': seq<Name>)
    requires Expanding(g, node, w, fin, clean, w', fin', todo) && next in todo
    requires Walked(g, next, w', fin', w'', fin'')
    ensures Expanding(g, node, w, fin, clean, w'', fin'', todo - {next})
  {
    assert w''.cycles[..|w.cycles|] == w''.cycles[..|w'.cycles|][..|w.cycles|];
  }

  /** Taking a node whose targets have all finished off the path keeps the walker clean. */
  lemma Retreat(g: Graph, w: Walker, fin: seq<Name>, node: Name)
    requires Clean(g, w, fin) && node in w.pathSet && node in g.items
    requires forall v :: v in g.items[node] ==> v in fin
    ensures Clean(g, w.(pathSet := w.pathSet - {node}), fin + [node])
  {
    ElemsSnoc(fin, node);
    FinishedSnoc(g, fin, node);
  }

  lemma ExpandEnd(g: Graph, node: Name, w: Walker, fin: seq<Name>, w': Walker, fin': seq<Name>)
    requires Ready(g, node, w) && node !in w.visited
    requires Expanding(g, node, w, fin, w.cycles == [] && Clean(g, w, fin), w', fin', {})
    ensures w'.path[..|w.path|] == w.path
    ensures Walked(g, node, w, fin, w'.(path := w.path, pathSet := w.pathSet), fin' + [node])
  {
    assert w'.path[..|w.path|] == w.path;
    if w.cycles == [] && Clean(g, w, fin) && w'.cycles == [] {
      Retreat(g, w', fin', node);
      assert w'.pathSet - {node} == w.pathSet;
    }
  }

  /**
   * The expansion of an unvisited node: it is added to `visited`, `path` and
   * `path_set`, every target is walked, and it is popped from both again.
   */
  method Descend(g: Graph, node: Name, w: Walker, ghost fin: seq<Name>) returns (w': Walker, ghost fin': seq<Name>)
    requires Ready(g, node, w) && node !in w.visited
    ensures Walked(g, node, w, fin, w', fin')
    decreases g.items.Keys - w.visited, 0
  {
    ghost var clean := w.cycles == [] && Clean(g, w, fin);
    ExpandStart(g, node, w, fin);
    w' := w.(visited := w.visited + {node}, path := w.path + [node], pathSet := w.pathSet + {node});
    fin' := fin;
    var todo := g.items[node];
    while todo != {}
      invariant Expanding(g, node, w, fin, clean, w', fin', todo)
      decreases todo
    {
      var next :| next in todo;
      ExpandNext(g, node, w, fin, clean, w', fin', todo, next);
      ghost var (before, finBefore) := (w', fin');
      w', fin' := Walk(g, next, w', fin');
      ExpandStep(g, node, w, fin, clean, before, finBefore, todo, next, w', fin');
      todo := todo - {next};
    }
    ExpandEnd(g, node, w, fin, w', fin');
    w' := w'.(path := w'.path[..|w.path|], pathSet := w'.pathSet - {node});
    fin' := fin' + [node];
  }

  /**
   * `find_cycles()`: a walk from every node of the import graph not yet
   * visited, in key order. Every recorded cycle is a closed walk of the graph,
   * and some cycle is recorded exactly when the graph has one.
   */
  method FindCycles(g: Graph) returns (cycles: seq<seq<Name>>)
    requires g.Valid() && Closed(g)
    ensures forall c :: c in cycles ==> IsClosedWalk(g.items, c)
    ensures cycles != [] <==> HasCycle(g.items)
  {
    var w := Walker({}, [], {}, []);
    ghost var fin: seq<Name> := [];
    assert Elems(fin) == {} && Elems(w.path) == {};
    for i := 0 to |g.keys|
      invariant Sound(g, w) && w.path == [] && w.pathSet == {}
      invariant forall j :: 0 <= j < i ==> g.keys[j] in w.visited
      invariant w.cycles == [] ==> Clean(g, w, fin)
    {
      var node := g.keys[i];
      if node !in w.visited {
        w, fin := Walk(g, node, w, fin);
      }
    }
    cycles := w.cycles;
    if cycles == [] {
      NoCycleWhenFinished(g, fin);
    } else {
      assert IsClosedWalk(g.items, cycles[0]);
    }
  }

  /** `cycle[:-1]` when the cycle ends where it starts, otherwise the cycle itself. */
  function Trimmed(cycle: seq<Name>): (t: seq<Name>)
    requires |cycle| > 1
    ensures |t| >= 1 && t[0] == cycle[0] && Elems(t) == Elems(cycle)
    ensures forall x :: x in t <==> x in cycle
  {
    var k := |cycle| - 1;
    if cycle[0] == cycle[k] then
      assert cycle == cycle[..k] + [cycle[k]];
      ElemsSnoc(cycle[..k], cycle[k]);
      cycle[..k]
    else cycle
  }

  /**
   * The targets of a node outside the cycle after redirection: its edges to
   * nodes outside the cycle stay, and it points into the cycle only at
   * `mergeName`, exactly when it pointed into the cycle before.
   */
  function Redirect(targets: set<Name>, members: set<Name>, mergeName: Name): (r: set<Name>)
    requires mergeName in members
    ensures r - members == targets - members
    ensures r * members <= {mergeName}
    ensures mergeName in r <==> targets * members != {}
  {
    if targets * members != {} then (targets - members) + {mergeName}
    else
      assert mergeName !in targets * members;
      targets
  }

  /** Redirecting twice is redirecting once. */
  lemma RedirectIdempotent(targets: set<Name>, members: set<Name>, mergeName: Name)
    requires mergeName in members
    ensures Redirect(Redirect(targets, members, mergeName), members, mergeName) == Redirect(targets, members, mergeName)
  {
    var r := Redirect(targets, members, mergeName);
    var rr := Redirect(r, members, mergeName);
    if targets * members != {} {
      assert mergeName in r * members;
    }
    assert rr - members == r - members;
    assert rr * members == r * members;
    assert rr == (rr - members) + (rr * members);
    assert r == (r - members) + (r * members);
  }

  /**
   * The import graph after one cycle is merged: members lose every edge into
   * the cycle, themselves included; every other node is redirected.
   */
  function MergeEdges(e: map<Name, set<Name>>, members: set<Name>, mergeName: Name): (r: map<Name, set<Name>>)
    requires mergeName in members
    ensures r.Keys == e.Keys
    ensures forall n :: n in r && n in members ==> r[n] !! members && r[n] - members == e[n] - members
    ensures forall n :: n in r && n !in members ==>
      && r[n] - members == e[n] - members
      && r[n] * members <= {mergeName}
      && (mergeName in r[n] <==> e[n] * members != {})
  {
    map n | n in e :: if n in members then e[n] - members else Redirect(e[n], members, mergeName)
  }

  /** Merging the same cycle a second time changes nothing. */
  lemma MergeEdgesIdempotent(e: map<Name, set<Name>>, members: set<Name>, mergeName: Name)
    requires mergeName in members
    ensures MergeEdges(MergeEdges(e, members, mergeName), members, mergeName) == MergeEdges(e, members, mergeName)
  {
    var once := MergeEdges(e, members, mergeName);
    forall n | n in once && n !in members
      ensures Redirect(once[n], members, mergeName) == once[n]
    {
      RedirectIdempotent(e[n], members, mergeName);
    }
  }

  /** Every node of `members`, in order, is assigned `target`, overwriting an earlier entry. */
  function Assign(m: Dict<Name>, members: seq<Name>, target: Name): (r: Dict<Name>)
    requires m.Valid()
    ensures r.Valid()
    ensures forall n :: n in r.items <==> n in m.items || n in members
    ensures forall n :: n in r.items ==> r.items[n] == if n in members then target else m.items[n]
  {
    if members == [] then m
    else
      var init := members[..|members| - 1];
      assert members == init + [members[|members| - 1]];
      Assign(m, init, target).Put(members[|members| - 1], target)
  }

  /**
   * The import graph after one iteration of the loop over cycles in
   * `merge_cycle_files`: a cycle of at most one node is skipped; otherwise the
   * graph is rewritten around its trimmed members.
   */
  function MergeGraph(g: Graph, cycle: seq<Name>): (r: Graph)
    ensures r.keys == g.keys && r.items.Keys == g.items.Keys
    ensures |cycle| <= 1 ==> r == g
  {
    if |cycle| <= 1 then g
    else
      var t := Trimmed(cycle);
      Dict(g.keys, MergeEdges(g.items, Elems(t), t[0]))
  }

  /**
   * `merged_files` after one iteration: every node of a cycle of more than
   * one node now maps to the cycle's first node, overwriting what an earlier
   * cycle recorded; every other entry stays.
   */
  function MergeFiles(m: Dict<Name>, cycle: seq<Name>): (r: Dict<Name>)
    requires m.Valid()
    ensures r.Valid()
    ensures forall n :: n in r.items <==> n in m.items || (|cycle| > 1 && n in cycle)
    ensures |cycle| > 1 ==> forall n :: n in cycle ==> r.items[n] == cycle[0]
    ensures forall n :: n in m.items && (|cycle| <= 1 || n !in cycle) ==> r.items[n] == m.items[n]
  {
    if |cycle| <= 1 then m
    else Assign(m, Trimmed(cycle), cycle[0])
  }

  /** The import graph after the loop over all cycles. */
  function MergeAll(g: Graph, cycles: seq<seq<Name>>): (r: Graph)
    ensures r.keys == g.keys && r.items.Keys == g.items.Keys
  {
    if cycles == [] then g
    else MergeGraph(MergeAll(g, cycles[..|cycles| - 1]), cycles[|cycles| - 1])
  }

  /** `merged_files` after the loop over all cycles. */
  function MergedFiles(m: Dict<Name>, cycles: seq<seq<Name>>): (r: Dict<Name>)
    requires m.Valid()
    ensures r.Valid()
  {
    if cycles == [] then m
    else MergeFiles(MergedFiles(m, cycles[..|cycles| - 1]), cycles[|cycles| - 1])
  }

  /** Every node of every cycle is a key of the graph. */
  ghost predicate CyclesWithin(cycles: seq<seq<Name>>, names: set<Name>) {
    forall i, x :: 0 <= i < |cycles| && x in cycles[i] ==> x in names
  }

  /** Every edge ends at a key of the graph. */
  lemma MergeGraphKeepsClosed(g: Graph, cycle: seq<Name>)
    requires Closed(g) && forall x :: x in cycle ==> x in g.items
    ensures Closed(MergeGraph(g, cycle))
  {
    if |cycle| > 1 {
      var t := Trimmed(cycle);
      var r := MergeGraph(g, cycle);
      forall n | n in r.items
        ensures r.items[n] <= r.items.Keys
      {
        assert r.items[n] <= g.items[n] + {t[0]};
      }
    }
  }

  /** Merging cycles of the graph keeps every edge inside the graph. */
  lemma {:induction false} MergeAllKeepsClosed(g: Graph, cycles: seq<seq<Name>>)
    requires Closed(g) && CyclesWithin(cycles, g.items.Keys)
    ensures Closed(MergeAll(g, cycles))
  {
    if cycles != [] {
      var init := cycles[..|cycles| - 1];
      assert CyclesWithin(init, g.items.Keys);
      MergeAllKeepsClosed(g, init);
      MergeGraphKeepsClosed(MergeAll(g, init), cycles[|cycles| - 1]);
    }
  }

  /** Every merged type, and every file it is merged into, is a node of some cycle. */
  lemma {:induction false} MergedFromCycles(cycles: seq<seq<Name>>, names: set<Name>)
    requires CyclesWithin(cycles, names)
    ensures forall n :: n in MergedFiles(EmptyDict(), cycles).items ==>
      n in names && MergedFiles(EmptyDict(), cycles).items[n] in names
  {
    if cycles != [] {
      var init := cycles[..|cycles| - 1];
      assert CyclesWithin(init, names);
      MergedFromCycles(init, names);
      var last := cycles[|cycles| - 1];
      if |last| > 1 {
        assert last[0] in names;
      }
    }
  }

  /** Every merged type points at a type that is merged into itself. */
  ghost predicate AnchorClosed(merged: Dict<Name>) {
    forall n :: n in merged.items ==> merged.items[n] in merged.items && merged.items[merged.items[n]] == merged.items[n]
  }

  /** No node occurs in two different cycles. */
  ghost predicate Disjoint(cycles: seq<seq<Name>>) {
    forall i, j, x :: 0 <= i < j < |cycles| && x in cycles[i] ==> x !in cycles[j]
  }

  /** A merged type is a node of an earlier cycle of more than one node. */
  lemma {:induction false} MergedKeys(cycles: seq<seq<Name>>, n: Name)
    requires n in MergedFiles(EmptyDict(), cycles).items
    ensures exists i :: 0 <= i < |cycles| && |cycles[i]| > 1 && n in cycles[i]
  {
    var init := cycles[..|cycles| - 1];
    var last := cycles[|cycles| - 1];
    if |last| > 1 && n in last {
      assert |cycles[|cycles| - 1]| > 1 && n in cycles[|cycles| - 1];
    } else {
      MergedKeys(init, n);
      var i :| 0 <= i < |init| && |init[i]| > 1 && n in init[i];
      assert cycles[i] == init[i];
    }
  }

  /** When no two cycles share a node, every merged type points at an anchor. */
  lemma {:induction false} DisjointCyclesAnchorClosed(cycles: seq<seq<Name>>)
    requires Disjoint(cycles)
    ensures AnchorClosed(MergedFiles(EmptyDict(), cycles))
  {
    if cycles != [] {
      var init := cycles[..|cycles| - 1];
      var last := cycles[|cycles| - 1];
      assert Disjoint(init);
      DisjointCyclesAnchorClosed(init);
      var before := MergedFiles(EmptyDict(), init);
      var after := MergeFiles(before, last);
      forall n | n in after.items
        ensures after.items[n] in after.items && after.items[after.items[n]] == after.items[n]
      {
        if |last| > 1 && n in last {
          assert last[0] in last;
        } else {
          EarlierAnchor(cycles, before.items[n]);
        }
      }
    }
  }

  /** A type merged by an earlier cycle is not a node of the last one. */
  lemma EarlierAnchor(cycles: seq<seq<Name>>, a: Name)
    requires Disjoint(cycles) && cycles != []
    requires a in MergedFiles(EmptyDict(), cycles[..|cycles| - 1]).items
    ensures a !in cycles[|cycles| - 1]
  {
    var init := cycles[..|cycles| - 1];
    MergedKeys(init, a);
    var i :| 0 <= i < |init| && |init[i]| > 1 && a in init[i];
    assert a in cycles[i];
  }

  /**
   * Overlapping cycles: `x` first joins `y` under `x`, then joins `z` under
   * `z`, so `y` is left pointing at `x`, which is no longer an anchor.
   */
  lemma OverlappingCycles(x: Name, y: Name, z: Name)
    requires x != y && y != z && x != z
    ensures var merged := MergedFiles(EmptyDict(), [[x, y, x], [z, x, z]]);
      && y in merged.items && merged.items[y] == x
      && x in merged.items && merged.items[x] == z
      && !AnchorClosed(merged)
  {
    var cycles := [[x, y, x], [z, x, z]];
    assert cycles[..1] == [[x, y, x]] && cycles[..1][..0] == [];
    var first := MergeFiles(EmptyDict(), [x, y, x]);
    assert MergedFiles(EmptyDict(), cycles[..1]) == first;
    assert y in [x, y, x] && first.items[y] == x;
    assert y !in [z, x, z] && x in [z, x, z];
  }

  /** Every member of the cycle is assigned the merge file, in cycle order. */
  method AssignMembers(m: Dict<Name>, members: seq<Name>, mergeName: Name) returns (m': Dict<Name>)
    requires m.Valid()
    ensures m' == Assign(m, members, mergeName)
  {
    m' := m;
    for i := 0 to |members|
      invariant m'.Valid() && m' == Assign(m, members[..i], mergeName)
    {
      assert members[..i + 1][..i] == members[..i];
      m' := m'.Put(members[i], mergeName);
    }
    assert members[..|members|] == members;
  }

  /** One member of the cycle loses every edge it has to a member of the cycle. */
  method StripNode(g: Graph, node: Name, members: seq<Name>) returns (g': Graph)
    requires g.Valid() && node in g.items
    ensures g'.Valid() && g'.keys == g.keys && g'.items.Keys == g.items.Keys
    ensures forall n :: n in g.items ==> g'.items[n] == if n == node then g.items[n] - Elems(members) else g.items[n]
  {
    g' := g;
    assert Elems(members[..0]) == {};
    for j := 0 to |members|
      invariant g'.Valid() && g'.keys == g.keys && g'.items.Keys == g.items.Keys
      invariant forall n :: n in g.items ==> g'.items[n] == if n == node then g.items[n] - Elems(members[..j]) else g.items[n]
    {
      var other := members[j];
      assert members[..j + 1] == members[..j] + [other];
      ElemsSnoc(members[..j], other);
      if other in g'.items[node] {
        g' := g'.Put(node, g'.items[node] - {other});
      }
    }
    assert members[..|members|] == members;
  }

  /** The double loop that removes every edge between two members of the cycle. */
  method StripMembers(g: Graph, members: seq<Name>) returns (g': Graph)
    requires g.Valid() && forall x :: x in members ==> x in g.items
    ensures g'.Valid() && g'.keys == g.keys && g'.items.Keys == g.items.Keys
    ensures forall n :: n in g.items ==> g'.items[n] == if n in members then g.items[n] - Elems(members) else g.items[n]
  {
    g' := g;
    for i := 0 to |members|
      invariant g'.Valid() && g'.keys == g.keys && g'.items.Keys == g.items.Keys
      invariant forall n :: n in g.items ==> g'.items[n] == if n in members[..i] then g.items[n] - Elems(members) else g.items[n]
    {
      var node := members[i];
      assert members[..i + 1] == members[..i] + [node];
      g' := StripNode(g', node, members);
    }
    assert members[..|members|] == members;
  }

  /**
   * `for src, targets in import_graph.items(): if src not in cycle: ...`:
   * every source outside the cycle that points into it points at `mergeName`
   * instead.
   */
  method RedirectSources(g: Graph, members: seq<Name>, mergeName: Name) returns (g': Graph)
    requires g.Valid() && mergeName in members
    ensures g'.Valid() && g'.keys == g.keys && g'.items.Keys == g.items.Keys
    ensures forall n :: n in g.items ==>
      g'.items[n] == if n in members then g.items[n] else Redirect(g.items[n], Elems(members), mergeName)
  {
    g' := g;
    for i := 0 to |g.keys|
      invariant g'.Valid() && g'.keys == g.keys && g'.items.Keys == g.items.Keys
      invariant forall n :: n in g.items ==>
        g'.items[n] == if n in g.keys[..i] && n !in members then Redirect(g.items[n], Elems(members), mergeName) else g.items[n]
    {
      var src := g.keys[i];
      assert g.keys[..i + 1] == g.keys[..i] + [src];
      if src !in members {
        var cycleDeps := set t | t in g'.items[src] && t in members;
        assert cycleDeps == g'.items[src] * Elems(members);
        if src in g.keys[..i] {
          RedirectIdempotent(g.items[src], Elems(members), mergeName);
        }
        if cycleDeps != {} {
          g' := g'.Put(src, (g'.items[src] - cycleDeps) + {mergeName});
        }
      }
    }
    assert g.keys[..|g.keys|] == g.keys;
  }

  /**
   * The body of the loop over cycles in `merge_cycle_files`, for a cycle of
   * more than one node whose nodes are all keys of the import graph.
   */
  method MergeCycle(g: Graph, m: Dict<Name>, cycle: seq<Name>) returns (g': Graph, m': Dict<Name>)
    requires g.Valid() && m.Valid() && |cycle| > 1
    requires forall x :: x in cycle ==> x in g.items
    ensures g'.Valid() && g' == MergeGraph(g, cycle) && m' == MergeFiles(m, cycle)
  {
    var members := Trimmed(cycle);
    var mergeName := members[0];
    m' := AssignMembers(m, members, mergeName);
    var inner := StripMembers(g, members);
    g' := RedirectSources(inner, members, mergeName);
    ghost var merged := MergeEdges(g.items, Elems(members), mergeName);
    forall n | n in g.items
      ensures g'.items[n] == merged[n]
    {
    }
    MapsAgree(g'.items, merged);
  }
}
