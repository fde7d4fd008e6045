# lsxwriter, modelled in Dafny

lsxwriter rewrites the mod load order of Baldur's Gate 3. It opens every
`.pak` archive (LSPK format) in the game's `Mods` directory and reads the
`meta.lsx` descriptor packed inside each one. From those it builds a
dependency graph of the mods. It then replaces the module list of
`modsettings.lsx` with the graph's nodes in forward topological order, so
every module comes after the modules it depends on.

This project models the three parts of `src/main.rs` that carry the logic:

- **`Pak`, `Bytes`**: the LSPK container.
  - The 40-byte packed header and the 272-byte directory records, decoded
    field by field in little-endian order, with encoders and round-trip
    lemmas.
  - `PAKFile::open`: the signature check, the directory block, its
    decompression and the count check.
  - `PAKFileEntry::name` and `PAKFileEntry::offset`.
- **`Metadata`, `Descriptor`, `Xml`**: `PAKFile::module`, which finds the
  `Mods/…/meta.lsx` entry, strips a byte-order mark and reads the descriptor
  and its dependencies. Also `ModuleDescription::{get_attr, parse, as_xml}`
  and UUID identity. The XML document is an abstract element tree: tag,
  attribute map, child elements.
- **`Graph`, `LoadOrder`**: the end of `main`.
  - Finding the module list and the base-game entry (`Gustav…`).
  - The `depend_on` calls.
  - The dependency graph as a class with a layered Kahn's algorithm.
  - Emitting one `ModuleShortDesc` per node, layer by layer, and putting
    the new list in place.

Library calls are parameters:

- LZ4 block decompression is a function `Decompressor` that may fail.
- The XML parser, which also does the UTF-8 check, is a function
  `XmlParser` that may fail.

Every fallible `unwrap`, `?` and `assert_eq!` of the modelled code becomes
an error value (`PakError`, `LoadError`, or the name of a missing descriptor
field), except the `unwrap`s at lines 230 and 445 (see "## Left out"). The
`unwrap`s in `as_xml` (lines 310-412) check element and attribute names that
are constants there, so they cannot fail and `Descriptor.AsXml` has no error
path.

The headline results:

- `LoadOrder.Reorder` states, for the whole rewrite of the module list:
  - every graph node is emitted exactly once;
  - every dependency a mod declares, including the base game, is emitted
    before that mod;
  - a cycle is reported exactly when the graph has a stuck set: a set of
    nodes that all wait on each other;
  - the new list sits where the old one was.
- `Graph.LayeringExcludesStuckSets` and `Graph.LayersFailExactlyOnStuckSets` show
  that the layered Kahn's algorithm fails exactly on graphs with a stuck
  set. `Graph.CycleIsStuck` shows that every cycle is a stuck set, so a
  graph with a cycle is always rejected.
- `Descriptor.ParseShortDesc` shows that parsing a rendered descriptor gives
  back its fields.

## Model

| member | source | states |
|---|---|---|
| Bytes.ToLittleEndianOfLittleEndian | src/main.rs:88-92 | re-encoding the value that `from_le_bytes` reads gives back the same bytes, so a little-endian field is decoded without loss |
| Bytes.Slice | src/main.rs:84-96 | `as_slice(offset, len)` succeeds exactly when the range lies inside the file, and then yields those `len` bytes |
| Pak.HeaderRoundTrip | src/main.rs:193-204 | decoding the encoding of any header gives back the header: the 40-byte packed layout loses no field |
| Pak.HeaderBytesRoundTrip | src/main.rs:193-204 | encoding the decoding of any 40 bytes gives back the bytes: every byte of the record belongs to exactly one field |
| Pak.EntryRoundTrip | src/main.rs:206-216 | decoding the encoding of any directory record gives back the record |
| Pak.EntryBytesRoundTrip | src/main.rs:206-216 | encoding the decoding of any 272 bytes gives back the bytes |
| Pak.Offset | src/main.rs:233-235 | the offset is below 2^48; its low 32 bits are the low part and the bits above are the 16-bit high part |
| Pak.OffsetBitwise | src/main.rs:233-235 | on 64-bit words, `low \| (high << 32)` equals `low + high * 2^32`, masking gives back `low` and shifting gives back `high` |
| Pak.NameOf | src/main.rs:219-231 | the name is a prefix of the 256-byte buffer, at most 255 bytes long, with no zero byte, and stops at a zero byte unless it reaches the 255-byte cap |
| Pak.NameOfUnique | src/main.rs:219-224 | only one byte string has those properties, so they define the name |
| Pak.Name | src/main.rs:219-231 | the loop that searches for the terminator and the copy into a fresh vector return exactly NameOf of the buffer |
| Pak.DecodeEntries | src/main.rs:98-110 | the directory holds `count` entries, and entry `i` is the record at bytes `[272*i, 272*(i+1))` |
| Pak.RecordsOfPrefix | src/main.rs:102-110 | when the length divided by 272 is `count`, the `count` whole records lie in the first `272*count` bytes |
| Pak.Open | src/main.rs:74-118 | a file shorter than the header is an out-of-range read; `BadMagic` is returned exactly when the first four bytes are not `LSPK`; a success carries the decoded header and a directory read as described (count and compressed size at the list offset, payload after them, decompressed at `272*count`, count equal to length / 272); whenever such a directory exists, opening succeeds |
| Metadata.FindMetadata | src/main.rs:120-126 | the chosen entry is the first in directory order whose name starts with `Mods/` and ends with `/meta.lsx`; there is none exactly when no name matches |
| Metadata.StripBom | src/main.rs:138-143 | text that starts with the UTF-8 byte-order mark is the mark followed by the result; other text is unchanged |
| Metadata.StripBomOnce | src/main.rs:138-143 | one mark is removed, and only one, even when another follows |
| Metadata.MetadataText | src/main.rs:120-143 | `NoMetadata` exactly when no entry matches; for the first match, `ReadOutOfRange` exactly when its payload range leaves the file, and otherwise success exactly when the payload decompresses at the entry's uncompressed size; a success is that payload without a mark |
| Metadata.DependencyElements | src/main.rs:160-167 | succeeds exactly when the `Dependencies` node is found; the elements are those under that node's first `children` element, and none when it has no `children` element |
| Metadata.ModuleFromXml | src/main.rs:145-189 | succeeds exactly when the navigation, the `ModuleInfo` and `Dependencies` lookups and every parse succeed; the description is then the parsed `ModuleInfo` node, and the dependencies are the parsed dependency nodes without those whose name starts with `Gustav`; every failure is malformed metadata |
| Metadata.ModuleOf | src/main.rs:120-190 | `NoMetadata` exactly when no entry matches; an error reading the text is passed on, text that does not parse is malformed metadata, and parsed text gives exactly what `ModuleFromXml` reads from it |
| Descriptor.SameModuleIsEquivalence | src/main.rs:266-270 | equality by UUID is reflexive, symmetric and transitive |
| Descriptor.HashAgreesWithEquality | src/main.rs:260-270 | two descriptors are equal exactly when their hash keys are |
| Descriptor.GetAttrFirst | src/main.rs:291-307 | `get_attr` reads the `value` of the first child whose `id` is the key, and gives `None` when that child has no `value` |
| Descriptor.GetAttrAbsent | src/main.rs:291-300 | `get_attr` gives `None` when no child has the key as its `id` |
| Descriptor.Parse | src/main.rs:273-289 | succeeds exactly when Folder, MD5, Name, UUID and Version64 are all present, with those values and an optional PublishHandle; a failure names a missing required field |
| Descriptor.ParseAll | src/main.rs:167-169 | succeeds exactly when every element parses, element by element; a failure is some element's failure |
| Descriptor.WithoutBaseGame | src/main.rs:170-181 | the kept dependencies are exactly the given ones whose name does not start with `Gustav` |
| Descriptor.WithoutBaseGameKeepsOrder | src/main.rs:170-181 | the filter treats each dependency on its own and keeps the declaration order |
| Seqs.FilterAppend | src/main.rs:170-181 | filtering a concatenation is concatenating the filtered parts |
| Descriptor.ShortDesc | src/main.rs:309-416 | a `node` with id `ModuleShortDesc` and exactly six `attribute` children in the order Folder, MD5, Name, PublishHandle, UUID, Version64, typed LSString, LSString, LSString, uint64, guid, int64, carrying the fields, with PublishHandle `"0"` when absent |
| Descriptor.ShortDescField | src/main.rs:291-416 | `get_attr` on a rendered descriptor reads back each of the six field values |
| Descriptor.ParseShortDesc | src/main.rs:273-416 | parsing a rendered descriptor gives back its fields, with the publish handle made explicit, and the same UUID |
| Descriptor.AsXml | src/main.rs:309-416 | the element built by setting `id` and appending the six attributes one by one is ShortDesc of the descriptor |
| Xml.FirstByName | src/main.rs:147-151 | the first child with the tag, or none when no child has it |
| Xml.FindById | src/main.rs:153-156 | the first child whose `id` is the key, with every child before it carrying another `id`; an error when a child before it has no `id`; not found when every child has another `id` |
| Xml.SetAttr | src/main.rs:312 | sets one attribute and leaves the others, the tag and the children unchanged |
| Xml.Append | src/main.rs:313-327 | adds the child after the existing ones |
| Xml.RemoveElementsByName | src/main.rs:476-477 | keeps exactly the children with another tag |
| Xml.RemoveElementsByNameKeepsOrder | src/main.rs:476-477 | removal works child by child: the result for two lists of children joined is the two results joined, and one child is kept exactly when its tag differs, so the kept children keep their order and appear once each |
| Xml.Locate | src/main.rs:450-459 | when the navigation succeeds it yields a valid path of one index per step |
| Xml.LocateSelects | src/main.rs:450-459 | each index of a located path is the child its step selects in the element the earlier indices reach |
| Xml.LocateFails | src/main.rs:450-459 | navigation fails only at a step that finds no child in the element the earlier steps reach |
| Xml.AtReplaceAt | src/main.rs:497 | after a replacement, the path leads to the new element |
| Xml.LocateAfterReplace | src/main.rs:450-497 | replacing the located element by one with the same tag and attributes leaves the navigation result unchanged |
| Graph.InsertNode | src/main.rs:481-487 | a descriptor becomes a node under its UUID; a UUID already present keeps its first descriptor |
| Graph.InsertEdge | src/main.rs:481-487 | both UUIDs become nodes, the dependant gains the dependency, and every other node keeps its dependencies |
| Graph.BuildNodesMentioned | src/main.rs:479-489 | the nodes are exactly the UUIDs named by some `depend_on` call |
| Graph.BuildEdgesCalled | src/main.rs:479-489 | `u` depends on `v` exactly when some call made it so |
| Graph.BuildStep | src/main.rs:481-487 | one more call updates the node and edge tables by InsertNode and InsertEdge |
| Graph.FirstMentionWins | src/main.rs:479-489 | a node's descriptor is the one from the first call that names its UUID |
| Graph.NothingReadyIsStuck | src/main.rs:491 | when nothing is ready but nodes remain, the remaining nodes are a stuck set |
| Graph.DependenciesInEarlierLayers | src/main.rs:491 | every dependency of a node lies in an earlier layer |
| Graph.LayersDisjoint | src/main.rs:491 | no node is in two layers |
| Graph.StuckNeverEmitted | src/main.rs:491 | no layer holds a node of a stuck set |
| Graph.CycleIsStuck | src/main.rs:479-491 | the nodes of a dependency cycle form a stuck set |
| Graph.LayeringExcludesStuckSets | src/main.rs:491 | a graph with a layering has no stuck set, and so, by `Graph.CycleIsStuck`, no cycle |
| Graph.LayersFailExactlyOnStuckSets | src/main.rs:491 | the layering succeeds exactly when the graph has no stuck set |
| Graph.DependencyGraph.constructor | src/main.rs:479 | the new graph has no nodes and no edges |
| Graph.DependencyGraph.DependOn | src/main.rs:481-487 | the tables become InsertNode and InsertEdge of the old ones, and the graph stays well formed |
| Graph.DependencyGraph.Layers | src/main.rs:491 | a success is a layering: every layer is non-empty, each is what became ready after the ones before, and together they cover the graph; a failure is a stuck set |
| LoadOrder.BaseModule | src/main.rs:461-471 | a success is a parsed entry of the list whose name starts with `Gustav`; `MissingBaseModule` exactly when every entry is named and none has the prefix; `UnnamedModule` points at an entry without a name |
| LoadOrder.BaseModuleIsFirstMatch | src/main.rs:461-471 | the base game is the first such entry, provided every entry before it is named |
| LoadOrder.BaseModuleStopsAt | src/main.rs:461-471 | when every entry before `k` is named without the prefix, an unnamed entry `k` gives `UnnamedModule(k)`, and a base-game entry `k` that lacks a required field gives `MalformedBaseModule` naming that field |
| LoadOrder.ModuleCallsDeclared | src/main.rs:480-488 | the calls for one mod make it depend on exactly the base game and its declared dependencies |
| LoadOrder.AllCallsDeclared | src/main.rs:480-489 | the calls make `u` depend on `v` exactly when some mod declares it |
| LoadOrder.GraphEdgesDeclared | src/main.rs:479-489 | the graph's dependencies are exactly the declared ones |
| LoadOrder.DeclaredAreNodes | src/main.rs:479-489 | both ends of every declared dependency are nodes |
| LoadOrder.BaseIsNode | src/main.rs:482 | with at least one mod, the base game is a node |
| LoadOrder.BaseHasNoDependencies | src/main.rs:479-489 | in a graph without a stuck set, the base game depends on nothing |
| LoadOrder.BaseInFirstLayer | src/main.rs:479-491 | with at least one mod, every layering puts the base game in the first layer |
| LoadOrder.Call | src/main.rs:481-487 | one `depend_on` call extends the tables by that call |
| LoadOrder.AddModule | src/main.rs:480-489 | the inner loop leaves the tables equal to those of the calls so far followed by the mod's calls |
| LoadOrder.BuildGraph | src/main.rs:479-489 | the nested loops build the graph whose tables are those of all the calls |
| LoadOrder.EmitLayer | src/main.rs:492-494 | appends one entry per node of the layer, each node once, in some order |
| LoadOrder.EmitLayers | src/main.rs:491-495 | appends one entry per node, each node once, layer after layer |
| LoadOrder.DependenciesFirst | src/main.rs:491-495 | in an order that follows a layering, every dependency comes before the node that depends on it |
| LoadOrder.EmittedOrderFacts | src/main.rs:479-495 | an order emitted layer by layer that covers the graph names every mod, the base game and every declared dependency, and puts each declared dependency before the mod that declares it |
| LoadOrder.Reorder | src/main.rs:450-497 | `MissingModList` exactly when the navigation fails; otherwise the base-game search decides any error. Then a cycle error carries a stuck set, and there is none when the graph has no stuck set. On success (`EmittedOrder`, `ListReplaced`): every node is emitted once, layer after layer of the graph's layering, with the base game in the first layer when there is a mod; every mod, the base game and every declared dependency appears; a mod comes after everything it declares; no mods means no entries; the new list keeps the old one's non-`node` children, then holds one entry per emitted node, sits where the old one was, and the rest of the document is unchanged |

## Left out

- The command line, the directory listing and the `.pak` suffix filter
  (lines 25-35 and 420-443) are not modelled. The mods are a parameter of
  `LoadOrder.Reorder`, and the archive-level functions work on one file.
- The aborting `unwrap` of each archive's module at line 445 is not
  modelled. `Metadata.ModuleOf` returns the error that aborts the program.
- Reading `modsettings.lsx` (lines 447-448), writing it to a file or to
  standard output (lines 499-509), and every `Display` impl and `println!`
  are I/O. The settings document is a parameter and the result is returned.
- Memory mapping: the archive is a byte sequence, and `as_slice` is
  `Bytes.Slice`. The lifetimes, `Arc` and `unsafe` reinterpretation are
  replaced by explicit field decoding.
- LZ4 decompression is the parameter `Pak.Decompressor`, which may fail.
  The length of its output is not assumed; the model follows the code's
  check `count == len / 272`.
- UTF-8 validation (lines 136 and 230) and kiss_xml parsing and printing are
  foreign. Validation of the metadata text is folded into the parser
  parameter `Metadata.XmlParser`.
- Pak.Name: returns the name bytes, without the UTF-8 check and the panic
  of line 230.
- The element tree holds only child elements. Text, comments and
  declarations are not modelled, since the source only looks at child
  elements.
- A `?` on a failed navigation (an error return) and an `unwrap` panic both
  become the same error value.
- Xml.Locate: a sibling without an `id` before the `Mods` node panics at
  line 456. The model folds this into `MissingModList`, like a missing node.
- The `topologic` crate is replaced by an explicit layered Kahn's algorithm.
  Its internals, and the order of nodes inside a layer, are not modelled:
  `LoadOrder.EmitLayer` takes the nodes of a layer in any order.
- Where a cycle is detected: `depend_on` fails, and the program panics, on
  the call that closes a cycle. The model makes every call and finds the
  cycle when it builds the layers. Both behaviours produce no output, and
  both fail exactly when the complete graph has a cycle, because a graph
  without a cycle has no cyclic subgraph. The model does not say which call
  would have failed. A mod that names itself, or has the base game's UUID,
  is such a cycle.
- Graph.StuckSet: that a finite stuck set contains a cycle is argued, not
  proved. Only the converse is proved (`Graph.CycleIsStuck`), so the model's
  cycle error is stated in terms of stuck sets.
- Pak.Open: `file_list_offset + 8` is computed in unbounded integers.
  The u64 overflow the source would panic on is not modelled.
- Duplicate UUIDs: the graph keeps the first descriptor inserted for a UUID
  (`Graph.InsertNode`, `Graph.FirstMentionWins`). The crate's behaviour here
  is not visible.

Notes on the source:

- The high part of an entry offset is a 16-bit field, so offsets are 48-bit
  values (`Pak.Offset`).
- The base game is itself a graph node as soon as there is one mod, so it is
  emitted into the new list along with the mods (`LoadOrder.Reorder`,
  `LoadOrder.BaseInFirstLayer`). With no mods, the new list has no module
  entries at all.
- Dependency edges point from a mod to what it depends on, in the order the
  calls are made: the base game first, then each declared dependency.
