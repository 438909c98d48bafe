/**
 * `get_all_referenced_types` and `generate_imports`: the names a file's text
 * uses, and the files it has to import for them once cycles are merged.
 */
module ImportGeneration {
  import opened Tables
  import opened Definitions
  import opened Dependencies
  import opened ImportCycles

  /** Capitalised words the modifier-free field scan does not take for types. */
  const Keywords: set<Name> := {"OPTIONAL", "REQUIRED", "REPEATED"}

  /** The request and response type of every signature, in match order. */
  function Flatten(pairs: seq<(Name, Name)>): seq<Name> {
    if pairs == [] then []
    else
      var last := pairs[|pairs| - 1];
      Flatten(pairs[..|pairs| - 1]) + [last.0, last.1]
  }

  /** What `get_all_referenced_types` collects from the five scans of a text. */
  function ReferencedTypes(p: Patterns, content: Text): set<Name> {
    Elems(p.modifiedFieldTypes(content))
      + (Elems(p.bareFieldTypes(content)) - Keywords)
      + Elems(p.oneofFieldTypes(content))
      + Elems(p.mapTypes(content))
      + Elems(Flatten(p.rpcTypes(content)))
  }

  /** One scan's loop: `types.add(...)` for every match. */
  method AddAll(types: set<Name>, found: seq<Name>) returns (types': set<Name>)
    ensures types' == types + Elems(found)
  {
    types' := types;
    for i := 0 to |found|
      invariant types' == types + Elems(found[..i])
    {
      assert found[..i + 1] == found[..i] + [found[i]];
      ElemsSnoc(found[..i], found[i]);
      types' := types' + {found[i]};
    }
    assert found[..|found|] == found;
  }

  /** The modifier-free scan's loop: every match but the three keywords. */
  method AddUnlessKeyword(types: set<Name>, found: seq<Name>) returns (types': set<Name>)
    ensures types' == types + (Elems(found) - Keywords)
  {
    types' := types;
    for i := 0 to |found|
      invariant types' == types + (Elems(found[..i]) - Keywords)
    {
      assert found[..i + 1] == found[..i] + [found[i]];
      ElemsSnoc(found[..i], found[i]);
      if found[i] !in Keywords {
        types' := types' + {found[i]};
      }
    }
    assert found[..|found|] == found;
  }

  /** The signature scan's loop: the request and the response type of every match. */
  method AddSignatures(types: set<Name>, rpcs: seq<(Name, Name)>) returns (types': set<Name>)
    ensures types' == types + Elems(Flatten(rpcs))
  {
    types' := types;
    for i := 0 to |rpcs|
      invariant types' == types + Elems(Flatten(rpcs[..i]))
    {
      var pair := rpcs[i];
      assert rpcs[..i + 1][..i] == rpcs[..i];
      ghost var prior := Flatten(rpcs[..i]);
      assert Flatten(rpcs[..i + 1]) == (prior + [pair.0]) + [pair.1];
      ElemsSnoc(prior, pair.0);
      ElemsSnoc(prior + [pair.0], pair.1);
      types' := types' + {pair.0};
      types' := types' + {pair.1};
    }
    assert rpcs[..|rpcs|] == rpcs;
  }

  /**
   * `get_all_referenced_types(content)`: the five loops over the scans; the
   * modifier-free scan skips the three upper-case keywords.
   */
  method GetAllReferencedTypes(p: Patterns, content: Text) returns (types: set<Name>)
    ensures types == ReferencedTypes(p, content)
  {
    types := AddAll({}, p.modifiedFieldTypes(content));
    types := AddUnlessKeyword(types, p.bareFieldTypes(content));
    types := AddAll(types, p.oneofFieldTypes(content));
    types := AddAll(types, p.mapTypes(content));
    types := AddSignatures(types, p.rpcTypes(content));
  }

  /** The modifier-free scan alone never contributes one of the keywords. */
  lemma KeywordsNeedAnotherScan(p: Patterns, content: Text, k: Name)
    requires k in Keywords && k in ReferencedTypes(p, content)
    ensures k in p.modifiedFieldTypes(content) || k in p.oneofFieldTypes(content)
         || k in p.mapTypes(content) || k in Flatten(p.rpcTypes(content))
  {
  }

  /** The union of the dependencies of the group's types; a type without an entry adds nothing. */
  function GroupDeps(deps: Graph, group: seq<Name>): (r: set<Name>)
    ensures forall t :: t in group && t in deps.items ==> deps.items[t] <= r
  {
    if group == [] then {}
    else
      var last := group[|group| - 1];
      GroupDeps(deps, group[..|group| - 1]) + (if last in deps.items then deps.items[last] else {})
  }

  /** Everything `generate_imports` looks at: the scanned types and, for a merged file, the group's dependencies. */
  function Referenced(p: Patterns, deps: Graph, content: Text, group: seq<Name>): set<Name> {
    ReferencedTypes(p, content) + GroupDeps(deps, group)
  }

  /** The file that holds a type: its `merged_files` entry, or its own. */
  function Target(merged: Dict<Name>, t: Name): Name {
    if t in merged.items then merged.items[t] else t
  }

  /**
   * A referenced type yields an import when it is not the file itself, is
   * defined, is not in the group being written, and is not merged into this
   * very file.
   */
  predicate Imported(cat: Catalog, merged: Dict<Name>, fileName: Name, group: seq<Name>, t: Name) {
    && t != fileName
    && cat.Defines(t)
    && t !in group
    && Target(merged, t) != fileName
  }

  /**
   * `generate_imports(file_name, ...)` as a set: the file of every referenced
   * type that yields an import. A file never imports itself.
   */
  function Imports(cat: Catalog, merged: Dict<Name>, fileName: Name, group: seq<Name>, referenced: set<Name>): (imports: set<Name>)
    ensures fileName !in imports
    ensures forall t :: t in referenced && Imported(cat, merged, fileName, group, t) ==> Target(merged, t) in imports
  {
    set t | t in referenced && Imported(cat, merged, fileName, group, t) :: Target(merged, t)
  }

  lemma ImportsStep(cat: Catalog, merged: Dict<Name>, fileName: Name, group: seq<Name>, done: set<Name>, t: Name)
    ensures Imports(cat, merged, fileName, group, done + {t}) ==
      Imports(cat, merged, fileName, group, done)
        + (if Imported(cat, merged, fileName, group, t) then {Target(merged, t)} else {})
  {
  }

  /** The loop that adds the dependencies of every type of the group to the referenced types. */
  method AddGroupDeps(deps: Graph, group: seq<Name>, types: set<Name>) returns (referenced: set<Name>)
    ensures referenced == types + GroupDeps(deps, group)
  {
    referenced := types;
    for i := 0 to |group|
      invariant referenced == types + GroupDeps(deps, group[..i])
    {
      assert group[..i + 1][..i] == group[..i];
      var t := group[i];
      if t in deps.items {
        referenced := referenced + deps.items[t];
      }
    }
    assert group[..|group|] == group;
  }

  /** The loop of `generate_imports` over the referenced types, visited in an arbitrary order. */
  method SelectImports(cat: Catalog, merged: Dict<Name>, fileName: Name, group: seq<Name>, referenced: set<Name>)
    returns (imports: set<Name>)
    ensures imports == Imports(cat, merged, fileName, group, referenced)
  {
    imports := {};
    var todo := referenced;
    ghost var done := {};
    while todo != {}
      invariant done + todo == referenced
      invariant imports == Imports(cat, merged, fileName, group, done)
      decreases todo
    {
      var t :| t in todo;
      ImportsStep(cat, merged, fileName, group, done, t);
      todo := todo - {t};
      done := done + {t};
      if t != fileName && cat.Defines(t) && !(group != [] && t in group) {
        if t in merged.items {
          var target := merged.items[t];
          if target != fileName {
            imports := imports + {target};
          }
        } else {
          imports := imports + {t};
        }
      }
    }
  }

  /**
   * `generate_imports(file_name, file_content, merged_group)`: the group's
   * dependencies join the scanned types, and every referenced type yields
   * its file or nothing.
   */
  method GenerateImports(p: Patterns, cat: Catalog, deps: Graph, merged: Dict<Name>,
                         fileName: Name, content: Text, group: seq<Name>)
    returns (imports: set<Name>)
    ensures imports == Imports(cat, merged, fileName, group, Referenced(p, deps, content, group))
  {
    var referenced := GetAllReferencedTypes(p, content);
    if group != [] {
      referenced := AddGroupDeps(deps, group, referenced);
    }
    imports := SelectImports(cat, merged, fileName, group, referenced);
  }

  /** Every import names a defined type, provided every `merged_files` value does. */
  lemma ImportsDefined(cat: Catalog, merged: Dict<Name>, fileName: Name, group: seq<Name>, referenced: set<Name>)
    requires forall n :: n in merged.items ==> cat.Defines(merged.items[n])
    ensures forall i :: i in Imports(cat, merged, fileName, group, referenced) ==> cat.Defines(i)
  {
  }

  /** The keys, in order, that map to `anchor`. */
  function Members(keys: seq<Name>, items: map<Name, Name>, anchor: Name): (group: seq<Name>)
    ensures forall t :: t in group <==> t in keys && t in items && items[t] == anchor
  {
    if keys == [] then []
    else
      var last := keys[|keys| - 1];
      assert keys == keys[..|keys| - 1] + [last];
      Members(keys[..|keys| - 1], items, anchor) + (if last in items && items[last] == anchor then [last] else [])
  }

  /** The types merged into the file `name`, in `merged_files` order. */
  function Group(merged: Dict<Name>, name: Name): (group: seq<Name>)
    requires merged.Valid()
    ensures forall t :: t in group <==> t in merged.items && merged.items[t] == name
  {
    Members(merged.keys, merged.items, name)
  }

  /**
   * When writing the merged file `fileName` with its own group, no import is
   * a member of that group, provided every merged type points at an anchor.
   */
  lemma ImportsOutsideGroup(cat: Catalog, merged: Dict<Name>, fileName: Name, referenced: set<Name>)
    requires merged.Valid() && AnchorClosed(merged)
    ensures forall i :: i in Imports(cat, merged, fileName, Group(merged, fileName), referenced) ==>
      i !in Group(merged, fileName)
  {
    var group := Group(merged, fileName);
    forall i | i in Imports(cat, merged, fileName, group, referenced)
      ensures i !in group
    {
      var t :| t in referenced && Imported(cat, merged, fileName, group, t) && Target(merged, t) == i;
      if t in merged.items {
        assert merged.items[i] == i != fileName;
      }
    }
  }

  /**
   * Without that proviso the property fails: `Y` merged into `X` while `X`
   * itself was later merged into `Z` makes the file `Z` import `X`, a member
   * of its own group.
   */
  lemma ImportOfGroupMember()
    ensures var merged := Dict(["X", "Y", "Z"], map["X" := "Z", "Y" := "X", "Z" := "Z"]);
      var cat := Catalog(Dict(["X", "Y", "Z"], map["X" := "", "Y" := "", "Z" := ""]), EmptyDict());
      && "X" in Group(merged, "Z")
      && Imports(cat, merged, "Z", Group(merged, "Z"), {"Y"}) == {"X"}
  {
    var merged := Dict(["X", "Y", "Z"], map["X" := "Z", "Y" := "X", "Z" := "Z"]);
    var cat := Catalog(Dict(["X", "Y", "Z"], map["X" := "", "Y" := "", "Z" := ""]), EmptyDict());
    var group := Group(merged, "Z");
    assert "X" != "Z" && "Y" != "Z";
    assert "Y" !in group;
    assert Imported(cat, merged, "Z", group, "Y");
  }
}
