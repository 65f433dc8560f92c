# A verified model of the TNE configuration tree

This project models the in-memory core of the New Config Library. The library reads
a YAML document into a tree of configuration sections, looks values up by dotted
path, lists keys, and fills the tree either from the document or from a second
document of defaults. It covers two Java classes:

- `ConfigSection`: a section optionally owns one YAML node and keeps an
  insertion-ordered map from one path segment to a child section. The model covers
  `getSection`, `getNode`, `contains`, `getNodeValues`, `getKeys`, `createSection`,
  `isConfigurationSection` and the typed getters `getInt`, `getShort`, `getBool`,
  `getString` and `getStringList`, each with its default overload.
- `CommentedConfiguration`: a configuration document whose root section owns no
  node. The model covers `decodeNodes`, the three `load` overloads with their
  default-seeding logic, and `ignored`.

The files are laid out as follows:

- `java_lang.dfy` (module `JavaLang`) writes out the Java behaviour the core
  inherits:
  - `String.split("\\.")`, exactly: a string without a dot comes back whole and
    trailing empty pieces are dropped;
  - `equalsIgnoreCase` (case folded for the ASCII letters only), `contains` and
    `replace(target, "")`;
  - `Integer.valueOf` and `Short.valueOf`, in radix 10;
  - the exceptions the core can raise, as a `Result`.
- `config_tree.dfy` (module `ConfigTree`) holds the tree as values. A `Node` is a
  path and its values. A `Child` is one map entry: its key, the node of the child
  section, and that section's own children. A `Section` is an optional node with
  its children. It also holds `LinkedHashMap.get`/`put` on a sequence of entries
  and the specification functions of every query.
- `config_section.dfy` (module `Sections`) holds the class `ConfigSection`. Its
  fields are the node and the children map. Its methods are the Java loops, each
  proved equal to the matching specification function. `CreateSection` updates
  the map in place.
- `getters.dfy` (module `Getters`) holds the typed getters.
- `configuration.dfy` (module `Configuration`) holds:
  - `decodeNodes` as a function and as a method on the class
    `CommentedConfiguration`;
  - the `copied` loop of `load`, and `ignored`;
  - `load`, with the choice between the loaded nodes and the seeded defaults.
- `round_trip.dfy` (module `RoundTrip`) relates building the tree to listing it:
  - A tree in which every section sits at the path its node names is rebuilt
    exactly from its own `getNodeValues` listing.
  - Every node list with distinct well-formed paths, where each node's parent path
    appears earlier, decodes without an exception. Its listing is then a
    permutation of the input.
- `scenarios.dfy` (module `Scenarios`) works through concrete documents:
  - a document seeded from its defaults;
  - the shallow and the deep key listings of one section.

The YAML parser sits outside the model. A source is the list of nodes the parser
yields for it, and `None` stands for a null reader. Java exceptions are explicit
`Err` outcomes (`NullPointer`, `NoSuchElement`, `IndexOutOfBounds`). Every null
dereference caused by a missing map entry or by a section without a node is
modelled, not excluded. The arguments themselves cannot be null here: strings,
lists and sections are values (see "## Left out").

Where the library's own Javadoc and its code disagree, the model follows the code:

- The Javadoc of `getSection` and `getNode`
  (src/net/tnemc/config/ConfigSection.java:81-87 and :108-114) says they return
  the section or node when it exists and null otherwise. The code raises a
  null-pointer exception in some of those cases:
  - when the segment just before the last one is missing, `getSection`
    dereferences null (`SectionAtCharacterized`);
  - when the final child is missing, `getNode` dereferences null
    (`NodeAtCharacterized`).
- The Javadoc of `load(boolean)` (src/net/tnemc/config/CommentedConfiguration.java:146-148)
  says it copies the defaults that are not present in the file. The code copies
  defaults only when the file is null or yields no node at all (line 169). A
  file with even one node gets no defaults. The branch that keeps a loaded
  node in place of its default (lines 185-188) therefore never runs
  (`LoadCases`).

Other behaviour of the code, stated as it is:

- Lookup is case-sensitive. Every step is `children.get(segment)`, and
  `equalsIgnoreCase` only decides at which segment `getSection`/`getNode` stop
  (`SectionAtStopsAtFirstMatch`, `SectionAtCaseSensitive`).
- When a parent is missing, `createSection`/`decodeNodes` dereference null
  (`CreateInOutcome`).
- `load` never clears the tree. `decodeNodes` only puts entries
  (`DecodeKeepsKeys`, `LoadKeepsKeys`).
- `getKeys` removes every occurrence of the section's path and a dot, not only a
  leading one (`KeyOfRepeatedBase`).
- The ignore test `node.contains(entry)` is case-sensitive. Only the whole-path
  comparison ignores case.
- The permutation theorem asks that each node's immediate parent path be listed
  earlier. Over a whole list this is equivalent to asking it of every proper
  prefix, by induction; the theorem uses this local form of the assumption.

## Model

| member | source | states |
|---|---|---|
| JavaLang.Pieces | src/net/tnemc/config/ConfigSection.java:89 | definition: the pieces of a string between its dots, empty pieces included |
| JavaLang.DropTrailingEmpty | src/net/tnemc/config/ConfigSection.java:89 | definition: the list with its trailing empty strings removed, as `split` does |
| JavaLang.Split | src/net/tnemc/config/ConfigSection.java:89 | definition of `split("\\.")`: a string without a dot comes back whole, otherwise its pieces without the trailing empty ones |
| JavaLang.Lower | src/net/tnemc/config/ConfigSection.java:94 | definition: lower case for the ASCII letters, every other character unchanged |
| JavaLang.EqualsIgnoreCase | src/net/tnemc/config/ConfigSection.java:94 | definition of `equalsIgnoreCase`: same length and equal characters up to ASCII case |
| JavaLang.ContainsSubstring | src/net/tnemc/config/CommentedConfiguration.java:204 | definition of `String.contains`: the second string occurs at some position of the first; the empty string occurs everywhere |
| JavaLang.RemoveAll | src/net/tnemc/config/ConfigSection.java:60 | definition of `replace(t, "")`: every occurrence of t, found left to right without overlap, is removed; the result is never longer |
| JavaLang.ParseDecimal | src/net/tnemc/config/ConfigSection.java:194 | definition of radix-10 parsing: one optional sign, then at least one ASCII digit and nothing else; a result starts with a sign or a digit |
| JavaLang.ToDecimal | src/net/tnemc/config/ConfigSection.java:194 | definition of `Integer.toString`, the independent form that `ParseToDecimal` reads back |
| JavaLang.SplitWellFormed | src/net/tnemc/config/ConfigSection.java:89 | on a path without empty segments, `split("\\.")` keeps every dot-separated piece and joining them with dots gives the path back |
| JavaLang.SplitInjective | src/net/tnemc/config/ConfigSection.java:89 | two well-formed paths with the same segments are the same path |
| JavaLang.SplitDropsTrailingEmpty | src/net/tnemc/config/ConfigSection.java:63 | "a.b." splits into the two segments a and b: Java drops trailing empty strings |
| JavaLang.SplitKeepsInnerEmpty | src/net/tnemc/config/ConfigSection.java:63 | "a..b" splits into a, the empty string and b, and ".a" into the empty string and a: inner and leading empty strings stay |
| JavaLang.SplitDotsOnly | src/net/tnemc/config/ConfigSection.java:63 | "." splits into no segments (so `split(...)[0]` raises), while "" comes back as one empty segment |
| JavaLang.PiecesAt | src/net/tnemc/config/ConfigSection.java:89 | the first dot ends the first segment |
| JavaLang.RemoveAllAbsent | src/net/tnemc/config/ConfigSection.java:60 | `replace(t, "")` leaves a string in which t does not occur unchanged |
| JavaLang.RemoveAllPrefix | src/net/tnemc/config/ConfigSection.java:60 | when the rest of the path holds no further occurrence, `replace` strips exactly the leading section path and dot |
| JavaLang.ParseInt32 | src/net/tnemc/config/ConfigSection.java:194 | `Integer.valueOf` succeeds exactly on an optionally signed decimal within 32 bits, with that value |
| JavaLang.ParseInt16 | src/net/tnemc/config/ConfigSection.java:239 | `Short.valueOf` succeeds exactly on an optionally signed decimal within 16 bits, with that value |
| JavaLang.ParseToDecimal | src/net/tnemc/config/ConfigSection.java:194 | every integer's decimal form parses back to it |
| JavaLang.ParseRejects | src/net/tnemc/config/ConfigSection.java:193-197 | "", "-", "abc" and "1x" are not numbers |
| ConfigTree.Lookup | src/net/tnemc/config/ConfigSection.java:95 | definition: `children.get(key)` on a section, as the child section found |
| ConfigTree.Walk | src/net/tnemc/config/ConfigSection.java:93-101 | definition of getSection's loop from one iteration on: stop at the first segment equal to the last ignoring case and return that child of the cursor, a null cursor there being a null pointer; at another segment a null cursor breaks out with null |
| ConfigTree.SectionAt | src/net/tnemc/config/ConfigSection.java:88-102 | definition of `getSection(path)`: the loop over the segments of `split`, starting at this section |
| ConfigTree.NodeWalk | src/net/tnemc/config/ConfigSection.java:120-129 | definition of getNode's loop: as getSection's, except that a missing child at the stopping segment is a null pointer and the loop's end gives the cursor's node |
| ConfigTree.NodeAt | src/net/tnemc/config/ConfigSection.java:115-130 | definition of `getNode(path)`: the loop over the segments of `split`, starting at this section |
| ConfigTree.Follow | src/net/tnemc/config/ConfigSection.java:158-164 | definition: the case-sensitive descent, one `children.get` per segment, missing as soon as one segment is missing |
| ConfigTree.Flatten | src/net/tnemc/config/ConfigSection.java:136-146 | definition of `getNodeValues`: each child's node in insertion order, followed at once by the nodes below it |
| ConfigTree.KeyOf | src/net/tnemc/config/ConfigSection.java:60-64 | definition of one node's key: its path with every occurrence of the section's path and a dot removed (the whole path when the section has no node), cut to the first segment unless deep; no segment at all is an index out of bounds |
| ConfigTree.KeyStrings | src/net/tnemc/config/ConfigSection.java:59-64 | definition: the keys of the listed nodes in order, or the first exception |
| ConfigTree.KeySet | src/net/tnemc/config/ConfigSection.java:56-69 | definition of `getKeys(deep)`: the keys of `getNodeValues` added to a `LinkedHashSet` |
| ConfigTree.AttachAt | src/net/tnemc/config/ConfigSection.java:155-165 | definition of createSection's walk: one `getSection(segment)` per segment before the last, a missing section being dereferenced by the next step, then a `put` in the section reached |
| ConfigTree.CreateIn | src/net/tnemc/config/ConfigSection.java:152-169 | definition of `createSection`: a one-segment path is put under the whole path here, a longer one under its last segment in the parent; a section without a node is a null pointer |
| ConfigTree.Get | src/net/tnemc/config/ConfigSection.java:95 | `children.get(key)` finds an entry exactly when the key is in the map, and the entry is under that key |
| ConfigTree.Put | src/net/tnemc/config/ConfigSection.java:161 | `LinkedHashMap.put`: a present key keeps its position, a new key goes last, get then finds the new entry, every other key keeps its entry, and distinct keys stay distinct |
| ConfigTree.Contains | src/net/tnemc/config/ConfigSection.java:76-78 | contains raises exactly when getSection raises, and otherwise holds exactly when getSection finds a section |
| ConfigTree.SectionAtCharacterized | src/net/tnemc/config/ConfigSection.java:88-102 | getSection stops at the first segment equal, ignoring case, to the last one. It finds the case-sensitive descent through the segments up to that one when the earlier sections exist. It raises when only the section just before is missing, and gives null when one further back is missing. A path with no segments gives the section itself |
| ConfigTree.SectionAtDistinctLast | src/net/tnemc/config/ConfigSection.java:88-102 | when the last segment differs from all earlier ones, getSection descends one case-sensitive level per segment, with the same null and exception cases |
| ConfigTree.SectionAtSegment | src/net/tnemc/config/ConfigSection.java:88-102 | a dot-free key is one `children.get` |
| ConfigTree.SectionAtCaseSensitive | src/net/tnemc/config/ConfigSection.java:94-98 | with "Core" present and "core" absent, "Core" is found and "core" is not |
| ConfigTree.SectionAtStopsAtFirstMatch | src/net/tnemc/config/ConfigSection.java:93-95 | "a.b.A" returns the top-level child "a", whatever lies under it |
| ConfigTree.SplitABA | src/net/tnemc/config/ConfigSection.java:89 | "a.b.A" splits into a, b, A |
| ConfigTree.NodeWalkFrom | src/net/tnemc/config/ConfigSection.java:120-129 | getNode's loop from any iteration up to its stopping segment: the node of the child there, a null pointer when that child is missing under an existing section, and otherwise getSection's null-pointer and null cases |
| ConfigTree.NodeAtCharacterized | src/net/tnemc/config/ConfigSection.java:115-130 | getNode stops where getSection stops. When the earlier sections exist it gives the node of the child at that segment, and raises a null pointer when that child is missing. It raises when only the section just before is missing, and gives null when one further back is missing. A path with no segments gives this section's own node |
| ConfigTree.NodeAtAgrees | src/net/tnemc/config/ConfigSection.java:115-130 | getNode gives the base node of the section getSection finds, raises where getSection raises, and where getSection gives null it gives null or dereferences the missing final child |
| ConfigTree.FlattenLength | src/net/tnemc/config/ConfigSection.java:136-146 | getNodeValues lists one node per section below |
| ConfigTree.FlattenAt | src/net/tnemc/config/ConfigSection.java:136-146 | pre-order: the earlier children's nodes, then child i's node, then everything below child i, then the later children's nodes |
| ConfigTree.FlattenAppend | src/net/tnemc/config/ConfigSection.java:139-144 | the listing of two runs of children is the first run's listing followed by the second's |
| ConfigTree.Dedup | src/net/tnemc/config/ConfigSection.java:57-66 | the LinkedHashSet of keys has no repeats and holds exactly the keys added |
| ConfigTree.DedupSnoc | src/net/tnemc/config/ConfigSection.java:66 | a key is appended to the set exactly when it is new |
| ConfigTree.KeyStringsNext | src/net/tnemc/config/ConfigSection.java:59-64 | the keys of one more node are the keys so far followed by that node's key, or the first exception |
| ConfigTree.DedupFirstSeenOrder | src/net/tnemc/config/ConfigSection.java:57-66 | the set's order is first-seen order |
| ConfigTree.DedupOfDistinct | src/net/tnemc/config/ConfigSection.java:66 | a list without repeats is its own set |
| ConfigTree.KeySetDistinctInFirstSeenOrder | src/net/tnemc/config/ConfigSection.java:56-69 | getKeys has no repeats, holds exactly the derived keys, and lists them in first-seen order |
| ConfigTree.ShallowKeysHaveNoDot | src/net/tnemc/config/ConfigSection.java:62-64 | no shallow key contains a dot |
| ConfigTree.RootDeepKeysArePaths | src/net/tnemc/config/ConfigSection.java:60 | on a section without a node, the deep keys are the full paths of getNodeValues, each once, and exactly those paths when they are distinct |
| ConfigTree.FirstIndexSnoc | src/net/tnemc/config/ConfigSection.java:66 | a key seen earlier keeps its first position when more keys follow |
| ConfigTree.FollowSnoc | src/net/tnemc/config/ConfigSection.java:158-164 | walking one more segment looks that segment up in the section reached |
| ConfigTree.FollowMissing | src/net/tnemc/config/ConfigSection.java:97 | once a segment is missing, every longer walk is missing |
| ConfigTree.WalkFrom | src/net/tnemc/config/ConfigSection.java:93-101 | getSection's loop from any iteration up to its stopping segment, in terms of the case-sensitive descent |
| ConfigTree.AttachAtFollow | src/net/tnemc/config/ConfigSection.java:155-165 | createSection's walk succeeds exactly when the parent exists, and otherwise raises a null pointer. On success the parent holds the new entry put there, and the top-level map keeps its keys and every entry but the one walked through |
| ConfigTree.CreateInOutcome | src/net/tnemc/config/ConfigSection.java:152-169 | a one-segment path is put under its full path here. A longer one is put under its last segment in the parent, which must exist. Top-level keys keep their order and all other entries stay |
| ConfigTree.CreateThenFollow | src/net/tnemc/config/ConfigSection.java:152-169 | a section created at a well-formed path sits at that path afterwards |
| ConfigTree.CreateThenFind | src/net/tnemc/config/ConfigSection.java:152-169 | when the last segment differs from the earlier ones ignoring case, getSection returns the section just created |
| Getters.FirstValue | src/net/tnemc/config/ConfigSection.java:194 | definition of `getBaseNode().getValues().getFirst()`: a null pointer without a node, no such element without values |
| Getters.Stored | src/net/tnemc/config/ConfigSection.java:189-194 | definition: the first value of the section getSection finds at the path, when it has one |
| Getters.ReadsAs | src/net/tnemc/config/ConfigSection.java:194 | definition: the stored value parses as a decimal number within the given range |
| Getters.GetInt | src/net/tnemc/config/ConfigSection.java:189-198 | raises exactly when getSection raises, with the same exception. Returns the stored number when the first value is an optionally signed decimal within 32 bits, and the default otherwise: path absent, no node, no values, or not such a number |
| Getters.GetIntOrZero | src/net/tnemc/config/ConfigSection.java:185-187 | the same with default 0 |
| Getters.GetShort | src/net/tnemc/config/ConfigSection.java:234-243 | as getInt, within 16 bits, with getSection's exception passed on unchanged |
| Getters.GetShortOrZero | src/net/tnemc/config/ConfigSection.java:230-232 | the same with default 0 |
| Getters.GetBool | src/net/tnemc/config/ConfigSection.java:204-213 | raises exactly when getSection raises, with the same exception. With a stored first value, true exactly when it equals "true" ignoring case; the default only when there is none |
| Getters.GetBoolOrFalse | src/net/tnemc/config/ConfigSection.java:200-202 | true exactly when the stored first value is "true" up to case |
| Getters.GetString | src/net/tnemc/config/ConfigSection.java:279-284 | the stored first value, the default when the path is absent; raises exactly when getSection raises (the same exception) or the section found has no node (a null pointer) or no values (no such element) |
| Getters.GetStringOrEmpty | src/net/tnemc/config/ConfigSection.java:275-277 | the same with default "" |
| Getters.GetStringList | src/net/tnemc/config/ConfigSection.java:286-291 | all values of the found node in order, none when absent; raises exactly when getSection raises (the same exception) or the section found has no node (a null pointer) |
| Getters.IsConfigurationSection | src/net/tnemc/config/ConfigSection.java:178-183 | false when absent; true only when getStringList is empty; raises exactly when getStringList does, with the same exception |
| Getters.GetIntReadsBack | src/net/tnemc/config/ConfigSection.java:189-198 | a number stored in decimal form reads back through getInt |
| Getters.GetShortReadsBack | src/net/tnemc/config/ConfigSection.java:234-243 | a number stored in decimal form reads back through getShort |
| Getters.GetIntNonNumeric | src/net/tnemc/config/ConfigSection.java:193-197 | a stored "abc" gives the default |
| Sections.ConfigSection.constructor | src/net/tnemc/config/ConfigSection.java:30-32 | a new section holds the given node and no children |
| Sections.ConfigSection.GetSection | src/net/tnemc/config/ConfigSection.java:88-102 | the loop returns getSection's specification value and changes nothing |
| Sections.ConfigSection.GetNode | src/net/tnemc/config/ConfigSection.java:115-130 | the loop returns getNode's specification value |
| Sections.ConfigSection.Contains | src/net/tnemc/config/ConfigSection.java:76-78 | raises exactly when getSection raises; otherwise true exactly when getSection finds a section |
| Sections.ConfigSection.GetNodeValues | src/net/tnemc/config/ConfigSection.java:136-146 | returns the pre-order listing of the children |
| Sections.ConfigSection.NodeValuesOf | src/net/tnemc/config/ConfigSection.java:136-146 | the recursive loop computes the pre-order listing |
| Sections.ConfigSection.GetKeys | src/net/tnemc/config/ConfigSection.java:56-69 | the loop returns the set of derived keys, or the exception of the first node whose relative path has no segment |
| Sections.ConfigSection.GetKeysShallow | src/net/tnemc/config/ConfigSection.java:47-49 | getKeys() is getKeys(false) |
| Sections.ConfigSection.CreateSection | src/net/tnemc/config/ConfigSection.java:152-169 | on success the map becomes the specified attach result; on a null-pointer exception it is unchanged |
| Sections.ParentOf | src/net/tnemc/config/ConfigSection.java:158-164 | calling getSection(segment) in turn reaches the case-sensitive descent through the walk |
| Sections.KeyStringsStopsAtError | src/net/tnemc/config/ConfigSection.java:59-64 | once one key fails, getKeys raises that key's exception |
| Configuration.Decode | src/net/tnemc/config/CommentedConfiguration.java:122-144 | definition of `decodeNodes`: each node in turn becomes a childless section attached as createSection attaches it; the first exception ends the pass and leaves the tree built so far |
| Configuration.Matches | src/net/tnemc/config/CommentedConfiguration.java:204 | definition of one ignore entry's test: it occurs in the path, or equals the path ignoring case |
| Configuration.Copied | src/net/tnemc/config/CommentedConfiguration.java:172-189 | definition of the `copied` list: for each default node in order, the loaded node with its path if there is one, otherwise the default unless it is ignored |
| Configuration.Loaded | src/net/tnemc/config/CommentedConfiguration.java:160 | definition: the nodes the primary source yields, none for a null reader |
| Configuration.Seeds | src/net/tnemc/config/CommentedConfiguration.java:164-169 | definition: defaults are copied exactly when asked for, a defaults source exists, and the file is null or yields nothing |
| Configuration.ToDecode | src/net/tnemc/config/CommentedConfiguration.java:164-196 | definition of the list load hands to decodeNodes: the copied defaults when seeding, else the loaded nodes; an exception in loading the defaults document is passed on |
| Configuration.LoadResult | src/net/tnemc/config/CommentedConfiguration.java:155-196 | definition of `load(copyDefaults, ignore)`: decode the list ToDecode gives into the root |
| Configuration.DecodeAppend | src/net/tnemc/config/CommentedConfiguration.java:122-144 | decoding a concatenation decodes the second part into what the first built, unless the first raised |
| Configuration.CreateKeepsKeys | src/net/tnemc/config/CommentedConfiguration.java:124-142 | one decoded node keeps all top-level keys, in order, in front |
| Configuration.DecodeKeepsKeys | src/net/tnemc/config/CommentedConfiguration.java:122-144 | decodeNodes never removes or reorders the root's children, whether or not it raises |
| Configuration.DecodeReplaces | src/net/tnemc/config/CommentedConfiguration.java:131-142 | a node whose path is present replaces the section there by a childless one holding it, and the key keeps its place among its siblings |
| Configuration.DecodeOne | src/net/tnemc/config/CommentedConfiguration.java:124-142 | decoding one node that attaches is attaching it |
| Configuration.ReplaceKeepsKeys | src/net/tnemc/config/CommentedConfiguration.java:135 | putting under a key the parent already has leaves the parent's keys unchanged |
| Configuration.Ignored | src/net/tnemc/config/CommentedConfiguration.java:202-207 | true exactly when some entry occurs in the path or equals it ignoring case; an empty entry ignores every path |
| Configuration.FindPath | src/net/tnemc/config/CommentedConfiguration.java:179-187 | finds a loaded node with the given path exactly when there is one |
| Configuration.CopyDefaults | src/net/tnemc/config/CommentedConfiguration.java:172-189 | the loop builds the `copied` list |
| Configuration.Unignored | src/net/tnemc/config/CommentedConfiguration.java:177-184 | keeps exactly the nodes that are not ignored |
| Configuration.UnignoredSnoc | src/net/tnemc/config/CommentedConfiguration.java:181-183 | one more default is appended unless it is ignored |
| Configuration.CopiedFromDefaults | src/net/tnemc/config/CommentedConfiguration.java:169-190 | with nothing loaded, `copied` is the defaults in order with the ignored ones removed |
| Configuration.CopiedIgnoringNothing | src/net/tnemc/config/CommentedConfiguration.java:149-190 | with nothing loaded and an empty ignore list, `copied` is the defaults themselves |
| Configuration.CopiedMembers | src/net/tnemc/config/CommentedConfiguration.java:177-188 | every copied node is the loaded node for its path or a non-ignored default without one, and a loaded node whose path a default has is always copied |
| Configuration.CopiedAgrees | src/net/tnemc/config/CommentedConfiguration.java:179-187 | the loop sees the loaded list only through lookups by path |
| Configuration.CopiedIdempotent | src/net/tnemc/config/CommentedConfiguration.java:169-190 | when the loaded nodes cover every non-ignored default, merging again into the result changes nothing |
| Configuration.LoadCases | src/net/tnemc/config/CommentedConfiguration.java:155-196 | without seeding, load decodes the loaded nodes unchanged. Seeding happens only when nothing was loaded, and then load decodes the defaults tree's listing minus the ignored nodes |
| Configuration.LoadKeepsKeys | src/net/tnemc/config/CommentedConfiguration.java:155-196 | load never removes or reorders the root's children |
| Configuration.CommentedConfiguration.constructor | src/net/tnemc/config/CommentedConfiguration.java:106-111 | a new document keeps its two sources and has an empty root without a node |
| Configuration.CommentedConfiguration.DecodeNodes | src/net/tnemc/config/CommentedConfiguration.java:122-144 | the loop leaves the root's children and exception as the decode function describes |
| Configuration.CommentedConfiguration.Load | src/net/tnemc/config/CommentedConfiguration.java:116-120 | load() is load(true) with no ignore entries |
| Configuration.CommentedConfiguration.LoadWith | src/net/tnemc/config/CommentedConfiguration.java:149-153 | load(copyDefaults) is load(copyDefaults, an empty list) |
| Configuration.CommentedConfiguration.LoadWithIgnore | src/net/tnemc/config/CommentedConfiguration.java:155-196 | the method leaves the tree and exception that the load function describes, seeding from a second document loaded without copying |
| RoundTrip.Placed | src/net/tnemc/config/CommentedConfiguration.java:131-141 | definition: children as decodeNodes arranges them, with distinct keys and every node's path spelling its place in the tree |
| RoundTrip.Buildable | src/net/tnemc/config/CommentedConfiguration.java:124-143 | definition: distinct well-formed paths, and each node below the top level comes after its parent |
| RoundTrip.DecodeFlatten | src/net/tnemc/config/CommentedConfiguration.java:122-144 | decoding the pre-order listing of a placed tree into an empty root raises nothing and rebuilds that tree exactly |
| RoundTrip.ListingRoundTrip | src/net/tnemc/config/CommentedConfiguration.java:122-144 | a list in pre-order (the listing of a placed tree) is listed back exactly after decoding |
| RoundTrip.DecodeInto | src/net/tnemc/config/CommentedConfiguration.java:122-144 | decoding a placed run of children's listing under an existing section appends exactly that run there |
| RoundTrip.DecodeBuildable | src/net/tnemc/config/CommentedConfiguration.java:122-144 | a list with distinct well-formed paths, each node's parent listed earlier, decodes without an exception into a placed tree whose listing is a permutation of the input |
| RoundTrip.BuildStep | src/net/tnemc/config/CommentedConfiguration.java:124-142 | one more node with a new path and a listed parent keeps the tree placed and adds exactly that node to the listing |
| RoundTrip.DecodeThenList | src/net/tnemc/config/CommentedConfiguration.java:122-144 | on the objects: a fresh document's decodeNodes on such a list raises nothing, and getNodeValues lists the input nodes in some order |
| RoundTrip.ListDecodeList | src/net/tnemc/config/CommentedConfiguration.java:122-144 | on the objects: listing a placed tree, decoding it and listing again gives the same listing |
| RoundTrip.AttachIsSet | src/net/tnemc/config/CommentedConfiguration.java:131-139 | with an existing parent, attaching replaces the parent's children by the put map |
| RoundTrip.AttachLeaf | src/net/tnemc/config/CommentedConfiguration.java:124-142 | a node with a new key under an existing parent is appended there as a childless section |
| RoundTrip.FoundInPlaced | src/net/tnemc/config/ConfigSection.java:136-146 | every node listed below a placed tree sits at the path its own segments spell |
| RoundTrip.PutFresh | src/net/tnemc/config/ConfigSection.java:161 | putting a new key appends the entry |
| RoundTrip.PutSame | src/net/tnemc/config/ConfigSection.java:161 | putting an entry that is already there changes nothing |
| RoundTrip.PutTwice | src/net/tnemc/config/ConfigSection.java:161 | a second put under the same key overrides the first |
| RoundTrip.PutLast | src/net/tnemc/config/ConfigSection.java:161 | putting the key only the last entry has replaces that entry in place |
| RoundTrip.GetUnique | src/net/tnemc/config/ConfigSection.java:95 | with distinct keys, get finds every entry under its own key |
| RoundTrip.FlattenPut | src/net/tnemc/config/ConfigSection.java:136-146 | replacing an entry by one with the same node changes the listing only below it |
| RoundTrip.FlattenSetGrow | src/net/tnemc/config/ConfigSection.java:136-146 | appending children to the section at a path adds exactly their listing |
| RoundTrip.PlacedSet | src/net/tnemc/config/CommentedConfiguration.java:131-139 | giving the section at a path placed children keeps the whole tree placed |
| Scenarios.DecodeTwoTopLevel | src/net/tnemc/config/CommentedConfiguration.java:140-142 | two dot-free nodes become two childless entries, in order |
| Scenarios.SeedTree | src/net/tnemc/config/CommentedConfiguration.java:164-190 | an empty primary source with defaults A: 1 and B: 2 yields exactly the two entries A and B |
| Scenarios.SeedLookups | src/net/tnemc/config/ConfigSection.java:279-284 | in that tree getString finds "1" and "2", and the listing is the two defaults |
| Scenarios.SeedFromDefaults | src/net/tnemc/config/CommentedConfiguration.java:155-200 | on the objects: load seeds from the defaults, getString finds each value, and getNodeValues, which save would write, is the two defaults in order |
| Scenarios.KeyStringsOfSectionA | src/net/tnemc/config/ConfigSection.java:59-64 | under a section A holding A.B (with A.B.D) and A.C, the derived keys are B, B, C shallow and B, B.D, C deep |
| Scenarios.ShallowKeysOfSectionA | src/net/tnemc/config/ConfigSection.java:47-69 | getKeys(false) on A is B, C |
| Scenarios.DeepKeysOfSectionA | src/net/tnemc/config/ConfigSection.java:56-69 | getKeys(true) on A is B, B.D, C |
| Scenarios.KeyOfRepeatedBase | src/net/tnemc/config/ConfigSection.java:60-64 | under section A, the node A.B.A.C has the deep key "B.C" (both occurrences of "A." are removed) and the shallow key "B" |
| Scenarios.RemoveEveryBase | src/net/tnemc/config/ConfigSection.java:60 | `"A.B.A.C".replace("A.", "")` is "B.C" |
| Scenarios.SplitPair | src/net/tnemc/config/ConfigSection.java:63 | a path of two one-character segments, such as "B.D", splits into both |
| Scenarios.Relative | src/net/tnemc/config/ConfigSection.java:60 | removing "A." from "A." followed by a rest without an A gives the rest |

## Left out

- YAML parsing and composing are outside the model. They are the Cuttlefish
  library's `CuttlefishBuilder` and `YamlComposer`. A source is the node list the
  parser yields, or `None` for a null reader.
- `save` and `realFile` are left out: file existence, creation and writing are
  filesystem I/O. `SeedFromDefaults` returns the listing that `save` would hand to
  the composer.
- The `File`-taking constructors and the `debug` flag are left out. They open a
  `FileReader`, an I/O step. The model's constructor takes the two sources as
  node lists, as the `Reader` constructor does.
- `set` (src/net/tnemc/config/ConfigSection.java:104-106) is left out. Its whole
  effect is inside `YamlNode.set`, which is not part of this model.
- `getDouble`, `getFloat` and `getBigDecimal` are left out: they need
  floating-point parsing and the `BigDecimal` grammar, which are library behaviour.
- `getBaseNode` is left out as a separate member: it is the `baseNode` field.
- src/test/config/MainTest.java is left out: a smoke program without assertions.
- Nodes are values, so aliasing is not modelled. A section stored in a map is a
  copy, and the Java object identity of sections and nodes is not tracked.
  - A nested `put` during `createSection`/`decodeNodes` is modelled by rebuilding
    the path from the root down. `CreateSection` states the new map; in Java only
    the parent's map object changes.
  - `YamlNode.equals` is taken to compare paths. `loaded.contains` and
    `loaded.indexOf` become a search by path (`FindPath`).
- Reader exhaustion is not modelled. A Java reader can be read only once, so a
  second `load` on the same document reads exhausted streams; here a source
  yields the same nodes every time.
- Configuration.Ignored, Getters.GetBool, ConfigTree.Walk, ConfigTree.SectionAt,
  ConfigTree.NodeWalk, ConfigTree.NodeAt, ConfigTree.SectionAtCharacterized,
  ConfigTree.SectionAtDistinctLast, ConfigTree.SectionAtStopsAtFirstMatch,
  ConfigTree.WalkFrom, ConfigTree.NodeWalkFrom, ConfigTree.NodeAtCharacterized,
  ConfigTree.NodeAtAgrees, ConfigTree.Contains, ConfigTree.CreateThenFind,
  Sections.ConfigSection.GetSection, Sections.ConfigSection.GetNode,
  Sections.ConfigSection.Contains, and every getter that goes through getSection:
  `equalsIgnoreCase` folds case for the ASCII letters only, not the full Unicode
  case mapping. So on a path such as "é.b.É" Java stops at the first segment, while the model walks on.
- Null arguments are not modelled. A null path, a null `ignore` list or entry, a
  `createSection(null)` call and null values would all raise in Java. Strings,
  lists, sections and nodes are values here and cannot be null. A section whose
  own node is null is modelled.
- JavaLang.ParseInt32 and JavaLang.ParseInt16: only the ASCII digits 0-9 count,
  while Java also accepts other Unicode decimal digits.
- RoundTrip.DecodeBuildable: the permutation is proved for lists whose every
  node's parent path is listed earlier. The model does not describe which nodes
  an out-of-order list loses before the null-pointer exception ends the pass;
  `DecodeAppend` and `DecodeKeepsKeys` hold for those lists too.
