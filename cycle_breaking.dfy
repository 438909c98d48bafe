/**
 * The first cycle pass of `parse_proto_file`: `detect_cycles`, a depth-first
 * search that keeps the nodes on the current branch in the set `path`, and the
 * loop that then drops the edge `cycle[-1] -> cycle[0]` of every recorded cycle.
 */
module CycleBreaking {
  import opened Tables
  import opened Dependencies

  /** The state the nested `dfs` closes over: `visited`, `path` and `cycles`. */
  datatype Search = Search(visited: set<Name>, path: set<Name>, cycles: seq<seq<Name>>)

  /** The elements of a set listed one by one: each once, in an order the set chooses. */
  method Enumerate(s: set<Name>) returns (xs: seq<Name>)
    ensures Elems(xs) == s && Distinct(xs)
  {
    xs := [];
    var rest := s;
    while rest != {}
      invariant Elems(xs) + rest == s && Elems(xs) !! rest && Distinct(xs)
      decreases rest
    {
      var x :| x in rest;
      ElemsSnoc(xs, x);
      xs := xs + [x];
      rest := rest - {x};
    }
  }

  /**
   * Every node of `fin` is a key whose targets all appear earlier in `fin`:
   * the order in which a search that met no back edge finished its nodes.
   */
  ghost predicate FinishedOrder(g: Graph, fin: seq<Name>) {
    forall i :: 0 <= i < |fin| ==> fin[i] in g.items && forall v :: v in g.items[fin[i]] ==> v in fin[..i]
  }

  /**
   * While no cycle is recorded: `path` holds the nodes of the current branch,
   * which is a walk, and every other visited node has finished.
   */
  ghost predicate Tracking(g: Graph, s: Search, stack: seq<Name>, fin: seq<Name>) {
    && Elems(stack) == s.path
    && IsWalk(g.items, stack)
    && s.visited == s.path + Elems(fin)
    && FinishedOrder(g, fin)
  }

  /**
   * What holds at every step: `path` lies inside `visited`, which holds keys
   * only, `order` lists the expanded nodes once each, and every recorded cycle
   * is a non-empty list of distinct keys.
   */
  ghost predicate Wf(g: Graph, s: Search, order: seq<Name>) {
    && s.visited <= g.items.Keys
    && s.path <= s.visited
    && Distinct(order) && Elems(order) == s.visited
    && forall c :: c in s.cycles ==> c != [] && Distinct(c) && Elems(c) <= g.items.Keys
  }

  /** Going back from the end of a walk to an earlier occurrence of a node closes a walk. */
  lemma CloseWalk(g: Graph, stack: seq<Name>, j: int, node: Name)
    requires IsWalk(g.items, stack) && 0 <= j < |stack| && stack[j] == node
    requires node in g.items[stack[|stack| - 1]]
    ensures IsClosedWalk(g.items, stack[j..] + [node])
  {
    var w := stack[j..] + [node];
    assert forall k :: 0 <= k < |w| - 1 ==> w[k] == stack[j + k];
  }

  /** A node met again on the current branch closes a walk back to itself. */
  lemma BackEdge(g: Graph, stack: seq<Name>, node: Name)
    requires IsWalk(g.items, stack) && stack != []
    requires node in g.items[stack[|stack| - 1]] && node in Elems(stack)
    ensures HasCycle(g.items)
  {
    var j :| 0 <= j < |stack| && stack[j] == node;
    CloseWalk(g, stack, j, node);
  }

  /** The first position of `x` in `s`. */
  function IndexOf(s: seq<Name>, x: Name): (i: nat)
    requires x in s
    ensures i < |s| && s[i] == x && x !in s[..i]
  {
    if s[0] == x then 0 else
      var i := 1 + IndexOf(s[1..], x);
      assert s[..i] == [s[0]] + s[1..][..i - 1];
      i
  }

  /** Along a walk over finished nodes, every step goes to a node that finished earlier. */
  lemma {:induction false} WalkDescends(g: Graph, fin: seq<Name>, w: seq<Name>, k: nat)
    requires FinishedOrder(g, fin) && IsWalk(g.items, w) && 0 < k < |w|
    requires forall x :: x in w ==> x in fin
    ensures IndexOf(fin, w[k]) < IndexOf(fin, w[0]) - k + 1
  {
    var i := IndexOf(fin, w[k - 1]);
    assert w[k] in fin[..i];
    if k > 1 {
      WalkDescends(g, fin, w, k - 1);
    }
  }

  /** A graph whose keys all finished without a back edge has no cycle. */
  lemma NoCycleWhenFinished(g: Graph, fin: seq<Name>)
    requires FinishedOrder(g, fin)
    requires forall n :: n in g.items ==> n in fin
    ensures !HasCycle(g.items)
  {
    forall w | IsClosedWalk(g.items, w)
      ensures false
    {
      WalkDescends(g, fin, w, |w| - 1);
    }
  }

  lemma FinishedSnoc(g: Graph, fin: seq<Name>, x: Name)
    requires FinishedOrder(g, fin) && x in g.items
    requires forall v :: v in g.items[x] ==> v in fin
    ensures FinishedOrder(g, fin + [x])
  {
    var f := fin + [x];
    assert f[..|fin|] == fin;
    forall i | 0 <= i < |fin|
      ensures f[..i] == fin[..i]
    {
    }
  }

  /** Pushing an unvisited node reached along an edge keeps the search tracked. */
  lemma Push(g: Graph, s: Search, stack: seq<Name>, fin: seq<Name>, node: Name)
    requires Tracking(g, s, stack, fin) && node in g.items && node !in s.visited
    requires stack == [] || node in g.items[stack[|stack| - 1]]
    ensures Tracking(g, s.(visited := s.visited + {node}, path := s.path + {node}), stack + [node], fin)
  {
    ElemsSnoc(stack, node);
    var w := stack + [node];
    forall i | 0 <= i < |w| - 1
      ensures w[i + 1] in g.items[w[i]]
    {
      assert w[i] == stack[i];
      if i + 1 < |stack| {
        assert w[i + 1] == stack[i + 1];
      }
    }
  }

  lemma WalkPrefix(g: Graph, stack: seq<Name>, node: Name)
    requires IsWalk(g.items, stack + [node])
    ensures IsWalk(g.items, stack)
  {
    assert forall i :: 0 <= i < |stack| ==> stack[i] == (stack + [node])[i];
  }

  /** Popping a node whose targets have all finished keeps the search tracked. */
  lemma Pop(g: Graph, s: Search, stack: seq<Name>, fin: seq<Name>, node: Name)
    requires Tracking(g, s, stack + [node], fin) && node !in stack && node in g.items
    requires forall v :: v in g.items[node] ==> v in fin
    ensures Tracking(g, s.(path := s.path - {node}), stack, fin + [node])
  {
    ElemsSnoc(stack, node);
    ElemsSnoc(fin, node);
    FinishedSnoc(g, fin, node);
    WalkPrefix(g, stack, node);
    assert Elems(stack) == s.path - {node};
    assert s.visited == (s.path - {node}) + Elems(fin + [node]);
  }

  /**
   * `dfs(node)`. A node already on `path` records the path as a cycle and
   * answers true; a visited node answers false; any other node is expanded.
   */
  method Visit(g: Graph, node: Name, s: Search, ghost stack: seq<Name>, ghost fin: seq<Name>, ghost order: seq<Name>)
    returns (found: bool, s': Search, ghost fin': seq<Name>, ghost order': seq<Name>)
    requires g.Valid() && Closed(g) && node in g.items && Wf(g, s, order)
    ensures Wf(g, s', order') && s.visited <= s'.visited && node in s'.visited
    ensures |s'.cycles| == |s.cycles| + (if found then 1 else 0) && s'.cycles[..|s.cycles|] == s.cycles
    ensures found ==> Elems(s'.cycles[|s.cycles|]) == s'.path
    ensures found ==> s.path <= s'.path
    ensures !found ==> s'.path == s.path
    ensures s.cycles == [] && Tracking(g, s, stack, fin) && (stack == [] || node in g.items[stack[|stack| - 1]]) ==>
      if found then HasCycle(g.items)
      else Tracking(g, s', stack, fin') && node in fin' && forall x :: x in fin ==> x in fin'
    decreases g.items.Keys - s.visited, 1
  {
    if node in s.path {
      var cycle := Enumerate(s.path);
      found, s', fin', order' := true, s.(cycles := s.cycles + [cycle]), fin, order;
      assert s'.cycles[..|s.cycles|] == s.cycles;
      if s.cycles == [] && Tracking(g, s, stack, fin) && (stack == [] || node in g.items[stack[|stack| - 1]]) {
        BackEdge(g, stack, node);
      }
    } else if node in s.visited {
      found, s', fin', order' := false, s, fin, order;
    } else {
      found, s', fin', order' := Expand(g, node, s, stack, fin, order);
    }
  }

  /**
   * The expansion of an unvisited node: it is added to `visited` and `path`
   * and its targets are searched in turn. The first that answers true makes
   * the call answer true at once, leaving `path` as it is; only when none
   * does is the node taken off `path` again.
   */
  method Expand(g: Graph, node: Name, s: Search, ghost stack: seq<Name>, ghost fin: seq<Name>, ghost order: seq<Name>)
    returns (found: bool, s': Search, ghost fin': seq<Name>, ghost order': seq<Name>)
    requires g.Valid() && Closed(g) && node in g.items && Wf(g, s, order) && node !in s.visited
    ensures Wf(g, s', order') && s.visited <= s'.visited && node in s'.visited
    ensures |s'.cycles| == |s.cycles| + (if found then 1 else 0) && s'.cycles[..|s.cycles|] == s.cycles
    ensures found ==> Elems(s'.cycles[|s.cycles|]) == s'.path
    ensures found ==> s.path + {node} <= s'.path
    ensures !found ==> s'.path == s.path
    ensures s.cycles == [] && Tracking(g, s, stack, fin) && (stack == [] || node in g.items[stack[|stack| - 1]]) ==>
      if found then HasCycle(g.items)
      else Tracking(g, s', stack, fin') && node in fin' && forall x :: x in fin ==> x in fin'
    decreases g.items.Keys - s.visited, 0
  {
    ghost var tracking := s.cycles == [] && Tracking(g, s, stack, fin) && (stack == [] || node in g.items[stack[|stack| - 1]]);
    if tracking {
      Push(g, s, stack, fin, node);
    }
    ElemsSnoc(order, node);
    s' := s.(visited := s.visited + {node}, path := s.path + {node});
    order' := order + [node];
    fin' := fin;
    var todo := g.items[node];
    while todo != {}
      invariant Wf(g, s', order') && s.visited + {node} <= s'.visited
      invariant s'.cycles == s.cycles && s'.path == s.path + {node}
      invariant todo <= g.items[node]
      invariant tracking ==> Tracking(g, s', stack + [node], fin') && forall x :: x in fin ==> x in fin'
      invariant tracking ==> forall v :: v in g.items[node] && v !in todo ==> v in fin'
      decreases todo
    {
      var next :| next in todo;
      todo := todo - {next};
      var f;
      f, s', fin', order' := Visit(g, next, s', stack + [node], fin', order');
      if f {
        return true, s', fin', order';
      }
    }
    if tracking {
      assert node !in stack by { ElemsSnoc(stack, node); }
      Pop(g, s', stack, fin', node);
    }
    s' := s'.(path := s'.path - {node});
    fin' := fin' + [node];
    found := false;
  }

  /**
   * `detect_cycles(graph)`: a search from every key not yet visited, in key
   * order. Every recorded cycle is a non-empty list of distinct keys, some
   * cycle is recorded exactly when the graph has one, and every key is
   * expanded exactly once.
   */
  method DetectCycles(g: Graph) returns (cycles: seq<seq<Name>>, ghost order: seq<Name>)
    requires g.Valid() && Closed(g)
    ensures forall c :: c in cycles ==> c != [] && Distinct(c) && Elems(c) <= g.items.Keys
    ensures cycles != [] <==> HasCycle(g.items)
    ensures Distinct(order) && Elems(order) == g.items.Keys
  {
    var s := Search({}, {}, []);
    ghost var fin: seq<Name> := [];
    order := [];
    assert Elems(fin) == {};
    for i := 0 to |g.keys|
      invariant Wf(g, s, order)
      invariant forall j :: 0 <= j < i ==> g.keys[j] in s.visited
      invariant s.cycles == [] ==> Tracking(g, s, [], fin)
      invariant s.cycles != [] ==> HasCycle(g.items)
    {
      var node := g.keys[i];
      if node !in s.visited {
        var found;
        found, s, fin, order := Visit(g, node, s, [], fin, order);
      }
    }
    cycles := s.cycles;
    if cycles == [] {
      NoCycleWhenFinished(g, fin);
    }
  }

  /** The edges the breaking loop takes out of `n`: the first node of every recorded cycle ending at `n`. */
  function Cut(cycles: seq<seq<Name>>, n: Name): set<Name> {
    set c | c in cycles && c != [] && c[|c| - 1] == n :: c[0]
  }

  lemma CutSnoc(cycles: seq<seq<Name>>, c: seq<Name>, n: Name)
    requires c != []
    ensures Cut(cycles + [c], n) == Cut(cycles, n) + (if c[|c| - 1] == n then {c[0]} else {})
  {
  }

  /**
   * The loop `for cycle in cycles: if cycle[0] in dependencies[cycle[-1]]:
   * remove it`: in one pass, each node loses exactly the targets its recorded
   * cycles name; keys and every other edge stay.
   */
  method BreakCycles(g: Graph, cycles: seq<seq<Name>>) returns (g': Graph)
    requires g.Valid()
    requires forall c :: c in cycles ==> c != [] && c[|c| - 1] in g.items
    ensures g'.Valid() && g'.keys == g.keys && g'.items.Keys == g.items.Keys
    ensures forall n :: n in g.items ==> g'.items[n] == g.items[n] - Cut(cycles, n)
  {
    g' := g;
    for i := 0 to |cycles|
      invariant g'.Valid() && g'.keys == g.keys && g'.items.Keys == g.items.Keys
      invariant forall n :: n in g.items ==> g'.items[n] == g.items[n] - Cut(cycles[..i], n)
    {
      var cycle := cycles[i];
      assert cycles[..i + 1] == cycles[..i] + [cycle];
      forall n | n in g.items {
        CutSnoc(cycles[..i], cycle, n);
      }
      var last := cycle[|cycle| - 1];
      if cycle[0] in g'.items[last] {
        g' := g'.Put(last, g'.items[last] - {cycle[0]});
      }
    }
    assert cycles[..|cycles|] == cycles;
  }

  /** Breaking never adds an edge and keeps every node's edges inside the graph. */
  lemma BreakingKeepsClosed(g: Graph, g': Graph, cycles: seq<seq<Name>>)
    requires g.Valid() && Closed(g) && g'.items.Keys == g.items.Keys
    requires forall n :: n in g.items ==> g'.items[n] == g.items[n] - Cut(cycles, n)
    ensures Closed(g')
    ensures forall n, v :: n in g.items && v in g.items[n] && v !in g'.items[n] ==>
      exists c :: c in cycles && c != [] && c[0] == v && c[|c| - 1] == n
  {
  }
}
