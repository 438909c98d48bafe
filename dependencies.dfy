/**
 * The dependency map of `parse_proto_file`: one entry per message and enum,
 * a message's entry holding the defined names its fields use, an enum's empty.
 */
module Dependencies {
  import opened Tables
  import opened Definitions

  /** A dependency or import graph: Python's dict of name -> set of names. */
  type Graph = Dict<set<Name>>

  /** Every edge ends at a key of the graph. */
  predicate Closed(g: Graph) {
    forall n :: n in g.items ==> g.items[n] <= g.items.Keys
  }

  /** A path along edges: every step goes from a key to one of its targets. */
  predicate IsWalk(e: map<Name, set<Name>>, w: seq<Name>) {
    && (forall i :: 0 <= i < |w| ==> w[i] in e)
    && (forall i :: 0 <= i < |w| - 1 ==> w[i + 1] in e[w[i]])
  }

  /** A walk of at least one edge that ends where it starts. */
  predicate IsClosedWalk(e: map<Name, set<Name>>, w: seq<Name>) {
    |w| >= 2 && w[0] == w[|w| - 1] && IsWalk(e, w)
  }

  ghost predicate HasCycle(e: map<Name, set<Name>>) {
    exists w :: IsClosedWalk(e, w)
  }

  /**
   * The regular expressions, as token sources: each gives the capture group of
   * every match over a text, in match order.
   */
  datatype Patterns = Patterns(
    /** the capitalised type of every field declaration, with or without a label (dependency scan) */
    fieldTypes: Text -> seq<Name>,
    /** the field types inside every `oneof name { ... }` block */
    oneofFieldTypes: Text -> seq<Name>,
    /** the capitalised value type of every map field declaration (dependency scan) */
    mapValueTypes: Text -> seq<Name>,
    /** the capitalised type of every field declaration preceded by white space (import scan) */
    modifiedFieldTypes: Text -> seq<Name>,
    /** every capitalised word that starts a word and is followed by a field name and `=` (import scan) */
    bareFieldTypes: Text -> seq<Name>,
    /** the capitalised value type of every map type (import scan) */
    mapTypes: Text -> seq<Name>,
    /** the request and the response type of every `rpc` or `method` signature */
    rpcTypes: Text -> seq<(Name, Name)>
  )

  /** `extract_dependencies`: the scanned field types that name a message or an enum. */
  function ExtractDependencies(p: Patterns, cat: Catalog, body: Text): (deps: set<Name>)
    ensures deps <= cat.Names()
  {
    var scanned := Elems(p.fieldTypes(body)) + Elems(p.oneofFieldTypes(body)) + Elems(p.mapValueTypes(body));
    set t | t in scanned && cat.Defines(t)
  }

  /**
   * The three loops of `extract_dependencies`: every scanned type, in match
   * order, is kept when it names a message or an enum.
   */
  method ScanDependencies(p: Patterns, cat: Catalog, body: Text) returns (deps: set<Name>)
    ensures deps == ExtractDependencies(p, cat, body)
  {
    deps := {};
    var fields := p.fieldTypes(body);
    for i := 0 to |fields|
      invariant deps == set t | t in fields[..i] && cat.Defines(t)
    {
      assert fields[..i + 1] == fields[..i] + [fields[i]];
      if cat.Defines(fields[i]) {
        deps := deps + {fields[i]};
      }
    }
    assert fields[..|fields|] == fields + [];
    var oneofs := p.oneofFieldTypes(body);
    for i := 0 to |oneofs|
      invariant deps == set t | t in fields + oneofs[..i] && cat.Defines(t)
    {
      assert fields + oneofs[..i + 1] == fields + oneofs[..i] + [oneofs[i]];
      if cat.Defines(oneofs[i]) {
        deps := deps + {oneofs[i]};
      }
    }
    assert fields + oneofs[..|oneofs|] == fields + oneofs + [];
    var values := p.mapValueTypes(body);
    for i := 0 to |values|
      invariant deps == set t | t in fields + oneofs + values[..i] && cat.Defines(t)
    {
      assert fields + oneofs + values[..i + 1] == fields + oneofs + values[..i] + [values[i]];
      if cat.Defines(values[i]) {
        deps := deps + {values[i]};
      }
    }
    assert fields + oneofs + values[..|values|] == fields + oneofs + values;
  }

  /**
   * The edges the map ends with for a name: the loop over messages runs again
   * after the loop over enums, so a name that is both keeps its message's edges.
   */
  function DependencyEdges(p: Patterns, cat: Catalog, n: Name): set<Name>
  {
    if n in cat.messages.items then ExtractDependencies(p, cat, cat.messages.items[n]) else {}
  }

  /** The loop that sets `dependencies[msg_name] = extract_dependencies(...)` for every message. */
  method RecordMessageDependencies(p: Patterns, cat: Catalog, g: Graph) returns (g': Graph)
    requires cat.Valid() && g.Valid()
    ensures g'.Valid()
    ensures forall n :: n in g'.items <==> n in g.items || n in cat.messages.items
    ensures forall n :: n in g'.items ==>
      g'.items[n] == if n in cat.messages.items then ExtractDependencies(p, cat, cat.messages.items[n]) else g.items[n]
  {
    var names := cat.messages.keys;
    g' := g;
    for i := 0 to |names|
      invariant g'.Valid()
      invariant forall n :: n in g'.items <==> n in g.items || n in names[..i]
      invariant forall n :: n in g'.items ==>
        g'.items[n] == if n in names[..i] then ExtractDependencies(p, cat, cat.messages.items[n]) else g.items[n]
    {
      var name := names[i];
      assert names[..i + 1] == names[..i] + [name];
      var found := ScanDependencies(p, cat, cat.messages.items[name]);
      g' := g'.Put(name, found);
    }
    assert names[..|names|] == names;
  }

  /** The map the three loops build: every defined name with its edges. */
  function DependencyMap(p: Patterns, cat: Catalog): (e: map<Name, set<Name>>)
    ensures e.Keys == cat.Names()
  {
    map n | n in cat.Names() :: DependencyEdges(p, cat, n)
  }

  /** The loop that sets `dependencies[enum_name] = set()` for every enum. */
  method RecordEnums(cat: Catalog, g: Graph) returns (g': Graph)
    requires cat.Valid() && g.Valid()
    ensures g'.Valid()
    ensures forall n :: n in g'.items <==> n in g.items || n in cat.enums.items
    ensures forall n :: n in g'.items ==> g'.items[n] == if n in cat.enums.items then {} else g.items[n]
  {
    var names := cat.enums.keys;
    g' := g;
    for i := 0 to |names|
      invariant g'.Valid()
      invariant forall n :: n in g'.items <==> n in g.items || n in names[..i]
      invariant forall n :: n in g'.items ==> g'.items[n] == if n in names[..i] then {} else g.items[n]
    {
      assert names[..i + 1] == names[..i] + [names[i]];
      g' := g'.Put(names[i], {});
    }
    assert names[..|names|] == names;
  }

  /**
   * The three loops that fill `dependencies`: messages, then enums, then
   * messages again. Every defined name is a key, every edge ends at a defined
   * name, and an enum that is not also a message has no edges.
   */
  method BuildDependencies(p: Patterns, cat: Catalog) returns (g: Graph)
    requires cat.Valid()
    ensures g.Valid() && Closed(g)
    ensures g.items.Keys == cat.Names()
    ensures g.items == DependencyMap(p, cat)
    ensures forall n :: n in cat.enums.items && n !in cat.messages.items ==> g.items[n] == {}
  {
    var first := RecordMessageDependencies(p, cat, EmptyDict());
    var second := RecordEnums(cat, first);
    g := RecordMessageDependencies(p, cat, second);
    assert g.items.Keys == cat.Names();
    forall n | n in g.items
      ensures g.items[n] == DependencyMap(p, cat)[n]
    {
    }
  }
}
