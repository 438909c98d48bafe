/**
 * `parse_proto_file` without the file read: the two definition dictionaries,
 * the dependency map, and the single pass that breaks the cycles it records.
 */
module Parsing {
  import opened Tables
  import opened Definitions
  import opened Dependencies
  import opened CycleBreaking

  /**
   * The schema text is `content`; `messageHeaders` and `enumHeaders` are the
   * matches of `message\s+(\w+)\s*{` and `enum\s+(\w+)\s*{` over it, in text
   * order. The dependency map ends with every defined name as a key and keeps
   * every edge of `DependencyMap` except those the recorded cycles cut; it
   * loses none when the dependencies have no cycle.
   */
  method ParseProtoFile(content: string, messageHeaders: seq<Header>, enumHeaders: seq<Header>, p: Patterns)
    returns (cat: Catalog, deps: Graph, ghost cycles: seq<seq<Name>>)
    ensures cat == Catalog(Collect(content, messageHeaders), Collect(content, enumHeaders)) && cat.Valid()
    ensures deps.Valid() && Closed(deps) && deps.items.Keys == cat.Names()
    ensures cycles != [] <==> HasCycle(DependencyMap(p, cat))
    ensures forall n :: n in deps.items ==> deps.items[n] == DependencyMap(p, cat)[n] - Cut(cycles, n)
    ensures !HasCycle(DependencyMap(p, cat)) ==> deps.items == DependencyMap(p, cat)
  {
    var messages := CollectDefinitions(content, messageHeaders);
    var enums := CollectDefinitions(content, enumHeaders);
    cat := Catalog(messages, enums);
    var built := BuildDependencies(p, cat);
    var found;
    ghost var order;
    found, order := DetectCycles(built);
    cycles := found;
    deps := built;
    if found != [] {
      deps := BreakCycles(built, found);
      BreakingKeepsClosed(built, deps, found);
    }
  }
}
