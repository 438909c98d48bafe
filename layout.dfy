/**
 * What `write_proto_files` produces, as values: which names get a file, and
 * the text of each file (header, sorted imports, then the definitions).
 */
module Layout {
  import opened Tables
  import opened Definitions
  import opened Dependencies
  import opened ImportCycles
  import opened ImportGeneration
  import opened Sorting

  /** The first line of every file, followed by a blank line. */
  const Preamble: Text := "syntax = \"proto3\";\n\n"

  function ImportLine(imp: Name): Text {
    "import \"" + imp + ".proto\";\n"
  }

  /** One import line per name, in the order given. */
  function ImportLines(xs: seq<Name>): Text {
    if xs == [] then ""
    else ImportLines(xs[..|xs| - 1]) + ImportLine(xs[|xs| - 1])
  }

  /**
   * A file's text: the header, an import line per import in sorted order, a
   * blank line when there is at least one import, then the body. Without
   * imports the body follows the header directly.
   */
  ghost function Render(imports: set<Name>, body: Text): (text: Text)
    ensures |text| >= |Preamble| + |body|
    ensures text[..|Preamble|] == Preamble && text[|text| - |body|..] == body
    ensures imports == {} <==> text == Preamble + body
  {
    var head := Preamble + ImportLines(SortedListing(imports));
    if imports == {} then
      ElemsEmpty(SortedListing(imports));
      head + body
    else
      head + "\n" + body
  }

  /**
   * The definitions of the group's types that `texts` holds, each followed by
   * a blank line, in group order.
   */
  function Blocks(texts: Dict<Text>, group: seq<Name>): Text {
    if group == [] then ""
    else
      var last := group[|group| - 1];
      Blocks(texts, group[..|group| - 1]) + (if last in texts.items then texts.items[last] + "\n\n" else "")
  }

  /** `t` occurs in `text` at position `k`. */
  predicate OccursAt(t: Text, text: Text, k: int) {
    0 <= k && k + |t| <= |text| && text[k..k + |t|] == t
  }

  /** Every group type that `texts` holds has its block somewhere in `Blocks`. */
  lemma {:induction false} BlockOccurs(texts: Dict<Text>, group: seq<Name>, t: Name)
    requires t in group && t in texts.items
    ensures exists k :: OccursAt(texts.items[t] + "\n\n", Blocks(texts, group), k)
  {
    var init := group[..|group| - 1];
    var last := group[|group| - 1];
    var block := texts.items[t] + "\n\n";
    var before := Blocks(texts, init);
    var text := Blocks(texts, group);
    assert text[..|before|] == before;
    if t == last {
      assert OccursAt(block, text, |before|);
    } else {
      assert group == init + [last];
      BlockOccurs(texts, init, t);
      var k :| OccursAt(block, before, k);
      assert text[k..k + |block|] == before[k..k + |block|];
      assert OccursAt(block, text, k);
    }
  }

  /** The body of a merged file: the group's enums, then the group's messages. */
  function GroupBody(cat: Catalog, group: seq<Name>): Text {
    Blocks(cat.enums, group) + Blocks(cat.messages, group)
  }

  /**
   * In a merged file every enum of the group is written, and before every
   * message of the group.
   */
  lemma EnumsBeforeMessages(cat: Catalog, group: seq<Name>, e: Name, m: Name)
    requires e in group && e in cat.enums.items && m in group && m in cat.messages.items
    ensures exists i, j ::
      && i + |cat.enums.items[e]| <= j
      && OccursAt(cat.enums.items[e] + "\n\n", GroupBody(cat, group), i)
      && OccursAt(cat.messages.items[m] + "\n\n", GroupBody(cat, group), j)
  {
    var enums := Blocks(cat.enums, group);
    var messages := Blocks(cat.messages, group);
    var body := GroupBody(cat, group);
    var eb := cat.enums.items[e] + "\n\n";
    var mb := cat.messages.items[m] + "\n\n";
    BlockOccurs(cat.enums, group, e);
    BlockOccurs(cat.messages, group, m);
    var i :| OccursAt(eb, enums, i);
    var j :| OccursAt(mb, messages, j);
    assert body[i..i + |eb|] == enums[i..i + |eb|];
    assert body[|enums| + j..|enums| + j + |mb|] == messages[j..j + |mb|];
    assert OccursAt(eb, body, i) && OccursAt(mb, body, |enums| + j);
  }

  /**
   * The body of a file of its own: the enum's definition, else the content
   * passed in when not empty, else the message's definition, else nothing.
   */
  function StandaloneBody(cat: Catalog, name: Name, content: Text): Text {
    if name in cat.enums.items then cat.enums.items[name]
    else if content != "" then content
    else if name in cat.messages.items then cat.messages.items[name]
    else ""
  }

  /** `write_file(name, ...)` does nothing: the name is written, or merged into another file. */
  predicate Skips(merged: Dict<Name>, written: set<Name>, name: Name) {
    name in written || (name in merged.items && merged.items[name] != name)
  }

  /** The merged file of an anchor: its group's definitions and the imports they need. */
  ghost function MergedFileText(p: Patterns, cat: Catalog, deps: Graph, merged: Dict<Name>, name: Name): Text
    requires merged.Valid()
  {
    var group := Group(merged, name);
    var body := GroupBody(cat, group);
    Render(Imports(cat, merged, name, group, Referenced(p, deps, body, group)), body)
  }

  /** The file of a name that was not merged: its own definition and the imports it needs. */
  ghost function StandaloneFileText(p: Patterns, cat: Catalog, deps: Graph, merged: Dict<Name>, name: Name, content: Text): Text {
    var body := StandaloneBody(cat, name, content);
    Render(Imports(cat, merged, name, [], Referenced(p, deps, body, [])), body)
  }

  /**
   * The text `write_file(name, content)` writes for a name it does not skip:
   * a merged file for an anchor, a file of its own for any other name.
   */
  ghost function FileText(p: Patterns, cat: Catalog, deps: Graph, merged: Dict<Name>, name: Name, content: Text): Text
    requires merged.Valid()
  {
    if name in merged.items then MergedFileText(p, cat, deps, merged, name)
    else StandaloneFileText(p, cat, deps, merged, name, content)
  }

  /**
   * The names that get a file: every anchor of `merged_files`, and every
   * defined name that was not merged. A name merged into another never does.
   */
  function Planned(cat: Catalog, merged: Dict<Name>): (files: set<Name>)
    ensures forall n :: n in merged.items && merged.items[n] != n ==> n !in files
    ensures forall n :: n in cat.Names() && n !in merged.items ==> n in files
    ensures forall n :: n in files ==> n in merged.items || n in cat.Names()
  {
    (set n | n in merged.items && merged.items[n] == n) + (set n | n in cat.Names() && n !in merged.items)
  }

  lemma PlannedExactly(cat: Catalog, merged: Dict<Name>, n: Name)
    ensures n in Planned(cat, merged) <==>
      (n in merged.items && merged.items[n] == n) || (n in cat.Names() && n !in merged.items)
  {
  }

  /** What the driver loops pass as `content` for a name. */
  function Content(cat: Catalog, name: Name): Text {
    if name in cat.enums.items then cat.enums.items[name]
    else if name in cat.messages.items then cat.messages.items[name]
    else ""
  }

  /** The output directory after the three driver loops: one text per planned name. */
  ghost function Output(p: Patterns, cat: Catalog, deps: Graph, merged: Dict<Name>): (files: map<Name, Text>)
    requires merged.Valid()
    ensures files.Keys == Planned(cat, merged)
  {
    map n | n in Planned(cat, merged) :: FileText(p, cat, deps, merged, n, Content(cat, n))
  }

  /**
   * The names whose definitions the file `f` holds: a merged file holds its
   * group, any other file the name it is called after. For a name that is
   * both an enum and a message, a file of its own holds only the enum's text
   * (`ClashingMessageLost`).
   */
  function Holds(merged: Dict<Name>, f: Name): set<Name>
    requires merged.Valid()
  {
    if f in merged.items then Elems(Group(merged, f)) else {f}
  }

  /** The planned files that hold the definition of `n`. */
  function Holders(cat: Catalog, merged: Dict<Name>, n: Name): set<Name>
    requires merged.Valid()
  {
    set f | f in Planned(cat, merged) && n in Holds(merged, f)
  }

  /**
   * When every merged type points at an anchor, every message and enum is held
   * by exactly one file: its anchor's file if it was merged, its own otherwise.
   */
  lemma EveryTypeInOneFile(cat: Catalog, merged: Dict<Name>, n: Name)
    requires merged.Valid() && AnchorClosed(merged) && n in cat.Names()
    requires n in merged.items || !cat.Clashes(n)
    ensures Holders(cat, merged, n) == {Target(merged, n)}
  {
    var a := Target(merged, n);
    assert a in Planned(cat, merged) && n in Holds(merged, a);
    forall f | f in Holders(cat, merged, n)
      ensures f == a
    {
      if f in merged.items {
        assert n in Group(merged, f);
      }
    }
  }

  /** Without merged cycles every defined name gets a file of its own. */
  lemma UnmergedPlan(cat: Catalog)
    ensures Planned(cat, EmptyDict()) == cat.Names()
    ensures forall n :: n in cat.Names() && !cat.Clashes(n) ==> Holders(cat, EmptyDict(), n) == {n}
  {
    forall n | n in cat.Names() && !cat.Clashes(n)
      ensures Holders(cat, EmptyDict(), n) == {n}
    {
      EveryTypeInOneFile(cat, EmptyDict(), n);
    }
  }

  /**
   * With the overlapping cycles `x -> y -> x` and `z -> x -> z`, a defined `y`
   * is held by no file at all.
   */
  lemma StrandedType(cat: Catalog, x: Name, y: Name, z: Name)
    requires x != y && y != z && x != z && y in cat.Names()
    ensures Holders(cat, MergedFiles(EmptyDict(), [[x, y, x], [z, x, z]]), y) == {}
  {
    var merged := MergedFiles(EmptyDict(), [[x, y, x], [z, x, z]]);
    OverlappingCycles(x, y, z);
    forall f | f in Planned(cat, merged)
      ensures y !in Holds(merged, f)
    {
      if f in merged.items {
        assert f != x;
      }
    }
  }

  /**
   * A name that is both an enum and a message and was not merged is held by
   * its own file alone, and that file's body is the enum's definition: the
   * message loop then skips the name as written, so the message's definition
   * is written nowhere.
   */
  lemma ClashingMessageLost(p: Patterns, cat: Catalog, deps: Graph, merged: Dict<Name>, n: Name)
    requires merged.Valid() && cat.Clashes(n) && n !in merged.items
    ensures n in Output(p, cat, deps, merged)
    ensures exists imports :: Output(p, cat, deps, merged)[n] == Render(imports, cat.enums.items[n])
    ensures Holders(cat, merged, n) == {n}
  {
    var body := cat.enums.items[n];
    PlannedExactly(cat, merged, n);
    assert Output(p, cat, deps, merged)[n] == StandaloneFileText(p, cat, deps, merged, n, Content(cat, n));
    assert StandaloneBody(cat, n, Content(cat, n)) == body;
    ghost var imports := Imports(cat, merged, n, [], Referenced(p, deps, body, []));
    assert Output(p, cat, deps, merged)[n] == Render(imports, body);
    UnmergedHeldAlone(cat, merged, n);
  }

  /** A defined name that was not merged is held by its own file and by no other. */
  lemma UnmergedHeldAlone(cat: Catalog, merged: Dict<Name>, n: Name)
    requires merged.Valid() && n in cat.Names() && n !in merged.items
    ensures Holders(cat, merged, n) == {n}
  {
    PlannedExactly(cat, merged, n);
    assert n in Holds(merged, n);
    forall f | f in Holders(cat, merged, n)
      ensures f == n
    {
      assert n in Holds(merged, f);
    }
  }

  /**
   * What the program's own `merged_files` guarantees. When the dependency map
   * has exactly the defined names as keys (as `parse_proto_file` leaves it),
   * every merge target is a defined type, so every import names one
   * (`ImportsDefined`). When no node is in two recorded cycles, every type
   * that does not clash is held by exactly one file.
   */
  lemma MergedPlanSound(cat: Catalog, deps: Graph, cycles: seq<seq<Name>>)
    requires CyclesWithin(cycles, deps.items.Keys)
    ensures var merged := MergedFiles(EmptyDict(), cycles);
      deps.items.Keys == cat.Names() ==> forall n :: n in merged.items ==> cat.Defines(merged.items[n])
    ensures var merged := MergedFiles(EmptyDict(), cycles);
      Disjoint(cycles) ==> forall n :: n in cat.Names() && (n in merged.items || !cat.Clashes(n)) ==>
        Holders(cat, merged, n) == {Target(merged, n)}
  {
    var merged := MergedFiles(EmptyDict(), cycles);
    MergedFromCycles(cycles, deps.items.Keys);
    if Disjoint(cycles) {
      DisjointCyclesAnchorClosed(cycles);
      forall n | n in cat.Names() && (n in merged.items || !cat.Clashes(n))
        ensures Holders(cat, merged, n) == {Target(merged, n)}
      {
        EveryTypeInOneFile(cat, merged, n);
      }
    }
  }
}
