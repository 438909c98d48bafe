# proto_splitter, modelled in Dafny

`proto_splitter.py` reads one Protocol Buffers schema and writes one `.proto`
file per `message` and `enum` it defines. It works in two stages:

- **`parse_proto_file`**
  - cuts every definition out of the text, using brace matching;
  - builds a dependency map from each message to the defined types its fields use;
  - finds cycles in that map with a depth-first search;
  - deletes at most one edge per recorded cycle: the edge from its last node back to its first, when that edge exists.
- **`write_proto_files`**
  - copies the map into an import graph;
  - finds the closed walks of that graph with a second depth-first search;
  - merges the members of every such cycle into one file named after its first member, and redirects the import graph to it;
  - writes:
    - one file per merge anchor;
    - one file per remaining enum;
    - one file per remaining message.

  Each file has the `proto3` header, then its imports in sorted order, then the definitions. In a merged file the enums come before the messages.

The model keeps the program's imperative shape:

- Counter loops become `for` loops with invariants.
- The nested `dfs` closures become recursive methods. They thread the closed-over state (`visited`, `path`, `path_set`, `cycles`) as a value.
- The dictionaries that are mutated in place become a `Dict` value. It holds a map plus its key insertion order, and the loops reassign it.
- The locals of `write_proto_files` become the class `Writer.ProtoWriter`:
  - `import_graph` and `merged_files`;
  - `written_files`;
  - the output directory, as a map from type name to file text.

Each method is proved against a function that specifies it. The properties of the program are lemmas about those functions.

Modules, in pipeline order:

| Module | What it models |
|---|---|
| `Tables` | Python dicts with insertion order |
| `Braces` | `find_matching_brace` |
| `Definitions` | `message_dict` and `enum_dict` |
| `Dependencies` | `extract_dependencies` and the dependency map |
| `CycleBreaking` | `detect_cycles` and the edge removal |
| `Parsing` | `parse_proto_file` |
| `ImportCycles` | `find_cycles` and `merge_cycle_files` |
| `ImportGeneration` | `get_all_referenced_types` and `generate_imports` |
| `Sorting` | `sorted` |
| `Layout` | file plan and file texts, as values |
| `Writer` | `write_file`, the driver loops and `write_proto_files` |

### Overlapping cycles

Later cycles overwrite earlier `merged_files` entries. Suppose `find_cycles` records `x -> y -> x` and then `z -> x -> z`:

- `y` stays merged into `x`;
- `x` itself is merged into `z`.

This happens, for example, with the edges `z -> x`, `x -> y`, `x -> z` and `y -> x`, when the search starts from `z` and, among the targets of `x`, visits `y` before `z`. Python's set order decides the latter; in the other order `z -> x -> z` is recorded first, every merged type points at an anchor, and nothing is lost. As a result of the first order:

- `y` gets no file at all: `Layout.StrandedType`;
- the file `z` imports `x`, a member of its own group: `ImportGeneration.ImportOfGroupMember`.

The model keeps this behaviour as written. The properties "one file per type" and "no import from the own group" are proved under the condition `ImportCycles.AnchorClosed`, which says every merged type points at a type merged into itself. That condition holds whenever the recorded cycles are pairwise disjoint (`ImportCycles.DisjointCyclesAnchorClosed`), and `Writer.WriteProtoFiles` states the consequence for the `merged_files` it builds.

### Names that are both an enum and a message

A name can be found both by the message scan and by the enum scan, for example through nested definitions. If it is not merged, its own file carries only the enum's text (lines 295-296), and the message loop then skips the name (lines 320-321). The message's definition is written nowhere (`Layout.ClashingMessageLost`). The "one file per type" property therefore excludes such names unless they were merged.

## Model

| member | source | states |
|---|---|---|
| Braces.FindMatchingBrace | proto_splitter.py:6-15 | returns -1 exactly when no position from `start_index` on is a `}` at which the running brace count drops to 0; otherwise returns the first such position |
| Braces.MatchingBraceIsFirstClose | proto_splitter.py:6-15 | the scan's result is -1 when no closing position exists, else the first `}` where the `{`/`}` balance since `start_index` returns to 0 |
| Braces.ScanFromIsFirstClose | proto_splitter.py:8-15 | resuming the counter loop at any index with the balance so far finds the first closing position after it, or -1 when there is none |
| Definitions.CollectDefinitions | proto_splitter.py:21-46 | the header loop builds the same dictionary as the specification `Collect`, which is well-formed |
| Definitions.CollectStep | proto_splitter.py:26-27 | one more header adds its name exactly when its braces match |
| Definitions.CollectDefines | proto_splitter.py:21-46 | a name is in `message_dict`/`enum_dict` exactly when some header of that name has a matching closing brace |
| Definitions.CollectBody | proto_splitter.py:36-46 | a name's entry is the text from the last matched header of that name up to and including its matching brace |
| Dependencies.ExtractDependencies | proto_splitter.py:48-76 | the dependencies of a message are only names defined as a message or an enum |
| Dependencies.ScanDependencies | proto_splitter.py:48-76 | the three scan loops with their known-name filter collect exactly `ExtractDependencies` |
| Dependencies.RecordMessageDependencies | proto_splitter.py:79-80 | every message becomes a key mapped to its extracted dependencies; every other entry is unchanged |
| Dependencies.RecordEnums | proto_splitter.py:83-84 | every enum becomes a key mapped to the empty set; every other entry is unchanged |
| Dependencies.DependencyMap | proto_splitter.py:78-126 | the dependency map has exactly the message and enum names as keys |
| Dependencies.BuildDependencies | proto_splitter.py:78-126 | messages, enums, messages again: every defined name is a key, every edge ends at a key, an enum that is not also a message has no edges, and the map equals `DependencyMap` |
| CycleBreaking.Enumerate | proto_splitter.py:95-97 | listing the `path` set gives each of its nodes exactly once |
| CycleBreaking.Visit | proto_splitter.py:92-113 | `visited` only grows and gains the node; a `True` answer appends one cycle listing exactly the nodes of `path` and removes nothing from `path`; a `False` answer leaves `path` as it was; a first `True` answer implies the graph has a cycle |
| CycleBreaking.Expand | proto_splitter.py:101-113 | an unvisited node is expanded once; on the first `True` from a neighbour it returns at once, and the node and the old path stay on `path`; otherwise the node finishes and `path` is as before |
| CycleBreaking.DetectCycles | proto_splitter.py:87-121 | every recorded cycle is a non-empty list of distinct keys; some cycle is recorded exactly when the graph has a cycle; every key is expanded exactly once |
| CycleBreaking.BreakCycles | proto_splitter.py:133-136 | keys are kept, and each node loses exactly the edges to `cycle[0]` of the recorded cycles that end at it; nothing is added |
| CycleBreaking.BreakingKeepsClosed | proto_splitter.py:133-136 | after breaking, every edge still ends at a key, and every removed edge `n -> v` is the closing edge of some recorded cycle |
| Parsing.ParseProtoFile | proto_splitter.py:17-138 | returns the two dictionaries of `Collect`; the dependency map has every defined name as a key, every edge ends at a key, it equals `DependencyMap` minus the cut edges, and it is `DependencyMap` itself when there is no cycle |
| ImportCycles.Walk | proto_splitter.py:157-171 | a `dfs` call keeps `path` and `path_set` equal as sets, restores both, leaves the node visited, keeps every earlier cycle in place and only appends after them, and every recorded cycle is a closed walk |
| ImportCycles.Descend | proto_splitter.py:163-171 | expanding an unvisited node keeps the same promises as a `dfs` call |
| ImportCycles.FindCycles | proto_splitter.py:151-176 | every recorded cycle has length at least 2, ends where it starts and follows edges of `import_graph`; some cycle is recorded exactly when the graph has a cycle |
| ImportCycles.Trimmed | proto_splitter.py:189-190 | dropping the repeated last node keeps the first node and the set of nodes |
| ImportCycles.Redirect | proto_splitter.py:200-205 | a source outside the cycle keeps its edges to non-members; its only edge into the cycle is to `merge_name`, present exactly when it had some edge into the cycle before |
| ImportCycles.RedirectIdempotent | proto_splitter.py:200-205 | redirecting twice gives the same targets as redirecting once |
| ImportCycles.MergeEdges | proto_splitter.py:196-205 | keys are kept; members lose every edge to a member, self-loops included, and keep the rest; non-members are redirected |
| ImportCycles.MergeEdgesIdempotent | proto_splitter.py:196-205 | rewriting the graph twice for the same cycle changes nothing more |
| ImportCycles.Assign | proto_splitter.py:193-194 | every cycle member maps to `merge_name`, overwriting any earlier entry; other entries are unchanged |
| ImportCycles.MergeGraph | proto_splitter.py:184-205 | keys are kept, and a cycle of at most one node leaves the graph unchanged |
| ImportCycles.MergeFiles | proto_splitter.py:184-194 | for a cycle of more than one node, its members become keys mapped to `cycle[0]`; all other entries are unchanged |
| ImportCycles.MergeAll | proto_splitter.py:184-205 | merging every recorded cycle in turn keeps the graph's keys |
| ImportCycles.MergedFiles | proto_splitter.py:184-194 | `merged_files` after all cycles stays well-formed |
| ImportCycles.MergeGraphKeepsClosed | proto_splitter.py:196-205 | merging one cycle of graph nodes keeps every edge ending at a key |
| ImportCycles.MergeAllKeepsClosed | proto_splitter.py:184-205 | merging cycles of graph nodes keeps every edge ending at a key |
| ImportCycles.MergedFromCycles | proto_splitter.py:184-194 | every merged type, and the file it is merged into, is a node of a recorded cycle |
| ImportCycles.MergedKeys | proto_splitter.py:185-194 | a merged type is a node of some recorded cycle longer than one |
| ImportCycles.DisjointCyclesAnchorClosed | proto_splitter.py:184-194 | when no node is in two recorded cycles, every merged type points at a type merged into itself |
| ImportCycles.EarlierAnchor | proto_splitter.py:184-194 | with disjoint cycles, a type merged by earlier cycles is not a node of the last one |
| ImportCycles.OverlappingCycles | proto_splitter.py:193-194 | for cycles `x->y->x` then `z->x->z`, `y` stays merged into `x` while `x` is merged into `z`, so not every merged type points at an anchor |
| ImportCycles.AssignMembers | proto_splitter.py:193-194 | the assignment loop computes `Assign` |
| ImportCycles.StripNode | proto_splitter.py:197-199 | one node loses its edges to the cycle's members; every other entry and the keys are unchanged |
| ImportCycles.StripMembers | proto_splitter.py:196-199 | every member loses its edges to the members; non-members are unchanged |
| ImportCycles.RedirectSources | proto_splitter.py:200-205 | every source outside the cycle has its targets redirected; members are unchanged; keys are kept |
| ImportCycles.MergeCycle | proto_splitter.py:185-205 | processing one cycle of more than one node rewrites the graph to `MergeGraph` and `merged_files` to `MergeFiles` |
| ImportGeneration.AddAll | proto_splitter.py:214-215 | a scan loop adds every match and nothing else |
| ImportGeneration.AddUnlessKeyword | proto_splitter.py:217-221 | the modifier-free scan adds every match except `OPTIONAL`, `REQUIRED` and `REPEATED` |
| ImportGeneration.AddSignatures | proto_splitter.py:233-236 | the signature scan adds both the request and the response type of every match |
| ImportGeneration.GetAllReferencedTypes | proto_splitter.py:210-237 | the five loops collect exactly the union of the five scans, minus the keywords from the modifier-free scan only |
| ImportGeneration.KeywordsNeedAnotherScan | proto_splitter.py:217-221 | a keyword is referenced only when a scan other than the modifier-free one found it |
| ImportGeneration.GroupDeps | proto_splitter.py:245-247 | the dependencies of every group member that has an entry are included |
| ImportGeneration.Imports | proto_splitter.py:248-262 | a file never imports itself, and every defined referenced type outside the group, not merged into this file, contributes its merge target or itself |
| ImportGeneration.ImportsStep | proto_splitter.py:248-262 | visiting one more referenced type adds at most its target, and adds it exactly when that type qualifies |
| ImportGeneration.AddGroupDeps | proto_splitter.py:245-247 | the group loop adds exactly the group's dependencies |
| ImportGeneration.SelectImports | proto_splitter.py:248-262 | the loop over referenced types, in any iteration order, yields exactly `Imports` |
| ImportGeneration.GenerateImports | proto_splitter.py:241-263 | the result is `Imports` of the scanned types plus, for a merged group, the group's dependencies |
| ImportGeneration.ImportsDefined | proto_splitter.py:251-262 | when every `merged_files` value is a defined type, every import names a defined type |
| ImportGeneration.Members | proto_splitter.py:277 | the list holds exactly the keys whose value is the anchor |
| ImportGeneration.Group | proto_splitter.py:277 | a type is in `merged_group` exactly when it is merged into that file |
| ImportGeneration.ImportsOutsideGroup | proto_splitter.py:253-262 | when every merged type points at an anchor, a merged file imports no member of its own group |
| ImportGeneration.ImportOfGroupMember | proto_splitter.py:253-262 | with `Y` merged into `X` and `X` merged into `Z`, the file `Z` imports `X`, a member of its own group |
| Sorting.LexIrreflexive | proto_splitter.py:288 | no string sorts before itself |
| Sorting.LexTransitive | proto_splitter.py:288 | string order is transitive |
| Sorting.LexTotal | proto_splitter.py:288 | of two different strings, one sorts first |
| Sorting.LexAsymmetric | proto_splitter.py:288 | two strings never sort before each other |
| Sorting.MinExists | proto_splitter.py:288 | a non-empty set of names has a least element |
| Sorting.SortedUnique | proto_splitter.py:288 | two strictly increasing listings of the same names are equal |
| Sorting.SortedExists | proto_splitter.py:288 | every set of names has a strictly increasing listing |
| Sorting.SortedListing | proto_splitter.py:288 | the listing holds exactly the set's names, in strictly increasing order |
| Sorting.SortNames | proto_splitter.py:288 | `sorted(imports)` lists every import once, in increasing order, and is the only such listing |
| Tables.Dict.Put | proto_splitter.py:38 | assignment updates one entry and appends the key only when it is new |
| Tables.EmptyDict | proto_splitter.py:31-32 | a new dictionary is well-formed and has no entries |
| Layout.Render | proto_splitter.py:273-308 | the text starts with the header and ends with the body; without imports it is exactly header plus body |
| Layout.BlockOccurs | proto_splitter.py:280-286 | every group type with a definition has its block, followed by a blank line, in the group's text |
| Layout.EnumsBeforeMessages | proto_splitter.py:279-286 | in a merged file, every group enum occurs, and ends before every group message occurs |
| Layout.Planned | proto_splitter.py:312-322 | a type merged into another file never gets a file; every defined type that was not merged gets one; nothing else does |
| Layout.PlannedExactly | proto_splitter.py:312-322 | a name gets a file exactly when it is a merge anchor or a defined type that was not merged |
| Layout.Output | proto_splitter.py:312-322 | the output has a file for every planned name and for no other |
| Layout.EveryTypeInOneFile | proto_splitter.py:265-322 | when every merged type points at an anchor, every message and enum that was merged or does not name both is held by exactly one file: its anchor's, or its own |
| Layout.UnmergedPlan | proto_splitter.py:312-322 | without merges, the files are exactly the defined names, and every type that does not name both an enum and a message is held by its own file alone |
| Layout.UnmergedHeldAlone | proto_splitter.py:312-322 | a defined name that was not merged is held by its own file and by no other |
| Layout.ClashingMessageLost | proto_splitter.py:295-322 | an unmerged name that is both an enum and a message gets one file, whose body is the enum's definition, and no other file holds the name |
| Layout.MergedPlanSound | proto_splitter.py:179-322 | for `merged_files` built from cycles of dependency-map nodes: every merge target is a defined type when the map's keys are the defined names; with disjoint cycles every non-clashing type is held by exactly one file |
| Layout.StrandedType | proto_splitter.py:265-322 | with the overlapping cycles `x->y->x` then `z->x->z`, the defined type `y` is held by no file |
| Writer.CopyGraph | proto_splitter.py:147-148 | the import graph starts as a copy of the dependency map |
| Writer.AppendBlocks | proto_splitter.py:280-286 | a group loop appends the definitions of the group's types, each followed by a blank line |
| Writer.RenderFile | proto_splitter.py:288-292 | header, then one import line per import in sorted order, then a blank line only when there is an import, then the body |
| Writer.ComposeMerged | proto_splitter.py:275-292 | a merged file's text is the group's enums, then its messages, under the imports for that body and group |
| Writer.ComposeStandalone | proto_splitter.py:293-308 | a file of its own holds the enum definition, else the content passed in, else the message definition, else nothing |
| Writer.ComposeFile | proto_splitter.py:271-308 | the text written for a name is the merged layout for an anchor and the standalone layout otherwise |
| Writer.MergeCycles | proto_splitter.py:184-205 | the loop over recorded cycles skips cycles of at most one node, and leaves the graph as `MergeAll` and `merged_files` as `MergedFiles` |
| Writer.ProtoWriter.constructor | proto_splitter.py:142-148 | nothing is written or merged yet, and the import graph equals the dependency map |
| Writer.ProtoWriter.MergeCycleFiles | proto_splitter.py:179-207 | the recorded cycles are closed walks, found exactly when the import graph has a cycle; the graph and `merged_files` end as `MergeAll` and `MergedFiles`; edges still end at keys |
| Writer.ProtoWriter.WriteFile | proto_splitter.py:265-310 | a name that is already written, or merged into another file, changes nothing; any other name is written once, with the text `FileText`, and recorded in `written_files` |
| Writer.ProtoWriter.Emit | proto_splitter.py:271-310 | writes a name's text and records it; no other file changes |
| Writer.ProtoWriter.WriteAnchors | proto_splitter.py:313-315 | after the first driver loop, exactly the merge anchors have files |
| Writer.ProtoWriter.WriteRest | proto_splitter.py:316-322 | after a driver loop, the files are the anchors plus every name of that loop or an earlier one that was not merged |
| Writer.ProtoWriter.WriteAll | proto_splitter.py:312-322 | the three driver loops produce exactly `Output`: one file per planned name, with its text |
| Writer.WriteProtoFiles | proto_splitter.py:140-322 | cycles are found exactly when the dependency map has one; `merged_files` is `MergedFiles` of them; the output is `Output`; with no cycle, the files are exactly one per defined type; when the map's keys are the defined names, every merge target is defined (so every import is, by `ImportsDefined`); with disjoint cycles every type that was merged or does not name both is held by exactly one file |

## Left out

- File I/O: reading the input and writing files are left out. This covers `open`, `os.makedirs`, `os.path.join`, `file.write`, `main` and `sys`. The text is a parameter, and the output directory is a map from type name to the text of `<name>.proto`.
- Console output (`print`) is left out. It does not affect any result.
- The regular expressions are left out:
  - header matches are given as `Definitions.Header` values (name and start offset), in text order;
  - the scans of `extract_dependencies` and `get_all_referenced_types` are the abstract token sources of `Dependencies.Patterns`.

  Only the logic around the matches is modelled: the known-name filter and the exclusion of `OPTIONAL`/`REQUIRED`/`REPEATED`.
- Python's set iteration order is left out. This covers the order in which `path` is listed (lines 96-97), neighbours are visited (lines 108 and 168) and `referenced` is scanned (line 248). Each is an arbitrary choice inside the loop, so every contract holds for every order.
- Tables.Dict.Valid: does not require the key list to be free of duplicates. `Put` appends only new keys, but the driver loops' "written at most once" rests on `written_files` alone.
- CycleBreaking.DetectCycles: states only that each recorded cycle is non-empty, holds distinct keys, and that a cycle is recorded exactly when one exists. It does not claim that a cycle after the first follows edges: `dfs` returns without popping `path` (lines 109-110), so later records can hold stale paths.
- ImportGeneration.ImportsOutsideGroup: holds only when every merged type points at an anchor. Overlapping cycles break that condition, as `ImportGeneration.ImportOfGroupMember` shows.
- Layout.EveryTypeInOneFile: holds only when every merged type points at an anchor. Overlapping cycles break that condition, as `Layout.StrandedType` shows. It also excludes an unmerged name that is both an enum and a message, whose message definition is written nowhere (`Layout.ClashingMessageLost`).
- Python's recursion limit is not modelled. Both nested `dfs` functions (lines 92-113 and 157-171) recurse once per node on the current path, so a dependency chain of roughly a thousand types makes the program stop with `RecursionError`. The model's recursion has no such bound.
- Text encoding (UTF-8) is left out. Text is a sequence of characters.
