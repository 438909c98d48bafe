/**
 * `write_proto_files` without the file system: the import graph copied from
 * the dependency map, the merging of its cycles, and `write_file` with the
 * three driver loops, each written file kept as a name -> text entry.
 */
module Writer {
  import opened Tables
  import opened Definitions
  import opened Dependencies
  import opened ImportCycles
  import opened ImportGeneration
  import opened Sorting
  import opened Layout

  /** The import graph starts as a copy of the dependency map: every key with its own set of targets. */
  method CopyGraph(deps: Graph) returns (g: Graph)
    requires deps.Valid()
    ensures g.Valid() && g.items == deps.items
  {
    g := EmptyDict();
    var names := deps.keys;
    for i := 0 to |names|
      invariant g.Valid()
      invariant forall n :: n in g.items <==> n in names[..i]
      invariant forall n :: n in g.items ==> g.items[n] == deps.items[n]
    {
      assert names[..i + 1] == names[..i] + [names[i]];
      g := g.Put(names[i], deps.items[names[i]]);
    }
    assert names[..|names|] == names;
    MapsAgree(g.items, deps.items);
  }

  /** The loop that appends `texts[t] + "\n\n"` for every type of the group that `texts` holds. */
  method AppendBlocks(body: Text, texts: Dict<Text>, group: seq<Name>) returns (body': Text)
    ensures body' == body + Blocks(texts, group)
  {
    body' := body;
    for i := 0 to |group|
      invariant body' == body + Blocks(texts, group[..i])
    {
      assert group[..i + 1][..i] == group[..i];
      var t := group[i];
      if t in texts.items {
        body' := body' + (texts.items[t] + "\n\n");
      }
    }
    assert group[..|group|] == group;
  }

  /**
   * `full_content`: the header, `import "X.proto";` for every import in
   * sorted order, a blank line when there were imports, then the body.
   */
  method RenderFile(imports: set<Name>, body: Text) returns (text: Text)
    ensures text == Render(imports, body)
  {
    text := Preamble;
    var sorted := SortNames(imports);
    for i := 0 to |sorted|
      invariant text == Preamble + ImportLines(sorted[..i])
    {
      assert sorted[..i + 1][..i] == sorted[..i];
      text := text + ImportLine(sorted[i]);
    }
    assert sorted[..|sorted|] == sorted;
    if imports != {} {
      text := text + "\n";
    }
    text := text + body;
  }

  /** The merged branch of `write_file`: the group's enums, then its messages, then the imports. */
  method ComposeMerged(p: Patterns, cat: Catalog, deps: Graph, merged: Dict<Name>, name: Name)
    returns (text: Text)
    requires merged.Valid()
    ensures text == MergedFileText(p, cat, deps, merged, name)
  {
    var group := Group(merged, name);
    var enums := AppendBlocks("", cat.enums, group);
    assert enums == Blocks(cat.enums, group);
    var body := AppendBlocks(enums, cat.messages, group);
    assert body == GroupBody(cat, group);
    var imports := GenerateImports(p, cat, deps, merged, name, body, group);
    assert imports == Imports(cat, merged, name, group, Referenced(p, deps, body, group));
    text := RenderFile(imports, body);
  }

  /** The plain branch of `write_file`: one definition and the imports it needs. */
  method ComposeStandalone(p: Patterns, cat: Catalog, deps: Graph, merged: Dict<Name>, name: Name, content: Text)
    returns (text: Text)
    ensures text == StandaloneFileText(p, cat, deps, merged, name, content)
  {
    var body: Text;
    if name in cat.enums.items {
      body := cat.enums.items[name];
    } else if content != "" {
      body := content;
    } else if name in cat.messages.items {
      body := cat.messages.items[name];
    } else {
      body := "";
    }
    var imports := GenerateImports(p, cat, deps, merged, name, body, []);
    text := RenderFile(imports, body);
  }

  /** The text `write_file` composes for a name it does not skip. */
  method ComposeFile(p: Patterns, cat: Catalog, deps: Graph, merged: Dict<Name>, name: Name, content: Text)
    returns (text: Text)
    requires merged.Valid()
    ensures text == FileText(p, cat, deps, merged, name, content)
  {
    if name in merged.items {
      text := ComposeMerged(p, cat, deps, merged, name);
    } else {
      text := ComposeStandalone(p, cat, deps, merged, name, content);
    }
  }

  /** The loop of `merge_cycle_files` over the cycles found, each merged in turn. */
  method MergeCycles(g: Graph, m: Dict<Name>, cycles: seq<seq<Name>>) returns (g': Graph, m': Dict<Name>)
    requires g.Valid() && m.Valid() && CyclesWithin(cycles, g.items.Keys)
    ensures g'.Valid() && g' == MergeAll(g, cycles) && m' == MergedFiles(m, cycles)
  {
    g', m' := g, m;
    for i := 0 to |cycles|
      invariant g'.Valid() && g' == MergeAll(g, cycles[..i]) && m' == MergedFiles(m, cycles[..i])
    {
      assert cycles[..i + 1][..i] == cycles[..i];
      var cycle := cycles[i];
      if |cycle| > 1 {
        g', m' := MergeCycle(g', m', cycle);
      }
    }
    assert cycles[..|cycles|] == cycles;
  }

  /** The state of `write_proto_files`: its inputs, and the locals its nested functions update. */
  class ProtoWriter {
    const p: Patterns
    const cat: Catalog
    const deps: Graph
    var importGraph: Graph
    var merged: Dict<Name>
    var written: set<Name>
    /** The output directory: the text of `<name>.proto` for every name written. */
    var files: map<Name, Text>

    ghost predicate Valid()
      reads this
    {
      cat.Valid() && deps.Valid() && importGraph.Valid() && merged.Valid()
      && forall n :: n in written <==> n in files
    }

    /** Empty `written_files` and `merged_files`, and `import_graph` a copy of the dependency map. */
    constructor(p: Patterns, cat: Catalog, deps: Graph)
      requires cat.Valid() && deps.Valid()
      ensures Valid() && this.p == p && this.cat == cat && this.deps == deps
      ensures importGraph.items == deps.items && merged == EmptyDict() && written == {} && files == map[]
    {
      var g := CopyGraph(deps);
      this.p := p;
      this.cat := cat;
      this.deps := deps;
      importGraph := g;
      merged := EmptyDict();
      written := {};
      files := map[];
    }

    /**
     * `merge_cycle_files()`: the cycles of the import graph are found once,
     * then merged one after another. Every edge of the graph still ends at a
     * key afterwards.
     */
    method MergeCycleFiles() returns (ghost cycles: seq<seq<Name>>)
      requires Valid() && Closed(importGraph)
      modifies this
      ensures Valid() && Closed(importGraph)
      ensures forall c :: c in cycles ==> IsClosedWalk(old(importGraph.items), c)
      ensures cycles != [] <==> HasCycle(old(importGraph.items))
      ensures importGraph == MergeAll(old(importGraph), cycles)
      ensures merged == MergedFiles(old(merged), cycles)
      ensures written == old(written) && files == old(files)
    {
      var found := FindCycles(importGraph);
      cycles := found;
      assert CyclesWithin(found, importGraph.items.Keys) by {
        forall i, x | 0 <= i < |found| && x in found[i]
          ensures x in importGraph.items
        {
          assert IsClosedWalk(importGraph.items, found[i]);
        }
      }
      MergeAllKeepsClosed(importGraph, found);
      importGraph, merged := MergeCycles(importGraph, merged, found);
    }

    /**
     * `write_file(name, content)`: nothing when the name is already written
     * or merged into another file; otherwise the name's file is written once.
     */
    method WriteFile(name: Name, content: Text)
      requires Valid()
      modifies this
      ensures Valid() && importGraph == old(importGraph) && merged == old(merged)
      ensures Skips(merged, old(written), name) ==> written == old(written) && files == old(files)
      ensures !Skips(merged, old(written), name) ==>
        && written == old(written) + {name}
        && files == old(files)[name := FileText(p, cat, deps, merged, name, content)]
    {
      if name in written {
      } else if name in merged.items && name != merged.items[name] {
      } else {
        Emit(name, content);
      }
    }

    /** The part of `write_file` past its two guards: compose the text, write it, record the name. */
    method Emit(name: Name, content: Text)
      requires Valid() && !Skips(merged, written, name)
      modifies this
      ensures Valid() && importGraph == old(importGraph) && merged == old(merged)
      ensures written == old(written) + {name}
      ensures files == old(files)[name := FileText(p, cat, deps, merged, name, content)]
    {
      var text := ComposeFile(p, cat, deps, merged, name, content);
      files := files[name := text];
      written := written + {name};
    }

    /** Every file written so far holds the text planned for its name. */
    ghost predicate OnPlan()
      reads this
      requires Valid()
    {
      forall n :: n in files ==> files[n] == FileText(p, cat, deps, merged, n, Content(cat, n))
    }

    /** The first driver loop: every name merged into itself is written, in `merged_files` order. */
    method WriteAnchors()
      requires Valid() && written == {}
      modifies this
      ensures Valid() && importGraph == old(importGraph) && merged == old(merged) && OnPlan()
      ensures forall n :: n in files <==> n in merged.items && merged.items[n] == n
    {
      var anchors := merged.keys;
      for i := 0 to |anchors|
        invariant Valid() && importGraph == old(importGraph) && merged == old(merged) && OnPlan()
        invariant forall n :: n in files <==> n in anchors[..i] && merged.items[n] == n
      {
        var name := anchors[i];
        assert anchors[..i + 1] == anchors[..i] + [name];
        if merged.items[name] == name {
          WriteFile(name, "");
        }
      }
      assert anchors[..|anchors|] == anchors;
    }

    /**
     * `for name in texts: if name not in written_files: write_file(name, texts[name])`,
     * for the enum dictionary and then the message dictionary: every name of
     * `texts` that is not merged gets its file.
     */
    method WriteRest(texts: Dict<Text>, ghost done: set<Name>)
      requires Valid() && OnPlan() && texts.Valid()
      requires forall n :: n in texts.items ==> Content(cat, n) == texts.items[n] || n in merged.items || n in done
      requires forall n :: n in files <==> (n in merged.items && merged.items[n] == n) || (n in done && n !in merged.items)
      modifies this
      ensures Valid() && importGraph == old(importGraph) && merged == old(merged) && OnPlan()
      ensures forall n :: n in files <==>
        (n in merged.items && merged.items[n] == n) || ((n in done || n in texts.items) && n !in merged.items)
    {
      var names := texts.keys;
      for i := 0 to |names|
        invariant Valid() && importGraph == old(importGraph) && merged == old(merged) && OnPlan()
        invariant forall n :: n in files <==>
          (n in merged.items && merged.items[n] == n) || ((n in done || n in names[..i]) && n !in merged.items)
      {
        var name := names[i];
        assert names[..i + 1] == names[..i] + [name];
        if name !in written {
          WriteFile(name, texts.items[name]);
        }
      }
      assert names[..|names|] == names;
    }

    /**
     * The three driver loops: every anchor of `merged_files` in its order,
     * then every enum, then every message not written yet. The output is
     * exactly one text per planned name.
     */
    method WriteAll()
      requires Valid() && written == {}
      modifies this
      ensures Valid() && importGraph == old(importGraph) && merged == old(merged)
      ensures files == Output(p, cat, deps, merged)
    {
      WriteAnchors();
      WriteRest(cat.enums, {});
      WriteRest(cat.messages, cat.enums.items.Keys);
      forall n
        ensures n in files <==> n in Layout.Planned(cat, merged)
      {
        PlannedExactly(cat, merged, n);
      }
      MapsAgree(files, Output(p, cat, deps, merged));
    }
  }

  /**
   * `write_proto_files(message_dict, enum_dict, dependencies, ...)`: the
   * output holds one text per planned name, after the cycles of the import
   * graph were merged; with no cycle every defined name gets its own file.
   */
  method WriteProtoFiles(p: Patterns, cat: Catalog, deps: Graph)
    returns (files: map<Name, Text>, ghost cycles: seq<seq<Name>>, ghost merged: Dict<Name>)
    requires cat.Valid() && deps.Valid() && Closed(deps)
    ensures forall c :: c in cycles ==> IsClosedWalk(deps.items, c)
    ensures cycles != [] <==> HasCycle(deps.items)
    ensures merged == MergedFiles(EmptyDict(), cycles)
    ensures files == Output(p, cat, deps, merged)
    ensures !HasCycle(deps.items) ==> files.Keys == cat.Names()
    ensures deps.items.Keys == cat.Names() ==> forall n :: n in merged.items ==> cat.Defines(merged.items[n])
    ensures Disjoint(cycles) ==> forall n :: n in cat.Names() && (n in merged.items || !cat.Clashes(n)) ==>
      Holders(cat, merged, n) == {Target(merged, n)}
  {
    var w := new ProtoWriter(p, cat, deps);
    cycles := w.MergeCycleFiles();
    w.WriteAll();
    files := w.files;
    merged := w.merged;
    if cycles == [] {
      UnmergedPlan(cat);
    }
    assert CyclesWithin(cycles, deps.items.Keys) by {
      forall i, x | 0 <= i < |cycles| && x in cycles[i]
        ensures x in deps.items
      {
        assert IsClosedWalk(deps.items, cycles[i]);
      }
    }
    MergedPlanSound(cat, deps, cycles);
  }
}
