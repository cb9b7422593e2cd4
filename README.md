# File tree of a Quartz site, modelled in Dafny

This project models the client-side file tree of a Quartz site. The script
takes the keys of the site's content index (one path per page). It builds a
tree of folder and file nodes and drops:
- folders whose names are on a deny-list;
- files that are not Markdown documents.

It then sorts every node's children, folders first and then by name. It
counts the folders and files, and renders the tree as an HTML fragment.

The model is split by stage:

- `paths.dfy` (`Paths`): splitting a key on `/`, dropping empty segments, and
  the cumulative path `currentPath ? currentPath + "/" + part : part`. It also
  has the `.md` tests and the suffix removal.
- `exclusion.dfy` (`Exclusion`): the eleven-word deny-list and the
  case-insensitive substring test `shouldExcludeFolder`.
- `tree.dfy` (`FileTree`): the node record and the builder's `pathMap`,
  modelled as a map from slug to node. Children are held as child slugs. This
  file also holds the invariant `Valid` that every built tree keeps:
  - each slug is the join of its segments;
  - the level is the number of segments;
  - each node is listed exactly once under its parent;
  - names follow the segment (a file loses its `.md`);
  - no excluded folder is present.
- `build.dfy` (`Build`): the nested loops of `buildTreeFromData`, as the
  method `BuildPathMap` with `for` loops, `continue` and `break`. The method is
  proved equal to the fold `BuildUnsorted` over the keys. Lemmas show:
  - the invariant is kept;
  - every node comes from a key;
  - every wanted node is created;
  - reading a key twice changes nothing.
- `sort.dfy` (`Sort`): the comparator, the in-place `children.sort`, and the
  recursive `sortTree`. `SortTree` is a recursive method with a loop over the
  sorted children, proved to sort exactly the subtree it is called on.
  `BuildTreeFromData` is the whole operation: build, then sort from the root.
- `stats.dfy` (`Stats`): `calculateStats` as a recursive method with a loop.
  It is proved to return the number of folder nodes and file nodes in the
  subtree. The caller shows the folder count minus one, for the root.
- `render.dfy` (`Render`): `renderTreeNode` as mutually recursive functions.
  They are proved to print the items of the subtree in depth-first order, one
  item per node except the root.
- `scenarios.dfy` (`Scenarios`): small content indexes worked through.
  `["a/b.md", "a/c.md", "notes.md"]` gives `a` and `notes` under the root and
  `b`, `c` under `a`. It shows 1 folder and 3 files, rendered as a, b, c,
  notes. `["ekler/x.md"]` and `["z.txt"]` give an empty tree,
  `["x/ekler/y.md"]` only the folder `x`, and the keys `a.md` and
  `a.md/b.md` give a file or a folder `a.md` depending on their order.

Behaviour of the code that is easy to miss:

- A folder segment is checked against the deny-list only when its node is
  about to be created. A key such as `x/ekler/y.md` still creates the folder
  `x` and then stops. A final `.md` segment is never checked, so `images.md` is kept as a
  file.
- A final segment without `.md` is skipped, not turned into a folder.
- A node's slug is the join of the key's non-empty segments, not the key
  itself. `/a//b.md` gives the slug `a/b.md`, and the file links to `/a/b.md`.
- A path already in the map is reused whatever its kind. After `a.md` has
  been read, a later key `a.md/b.md` hangs `b` under the file `a`. If the keys
  come the other way round, `a.md` stays a folder and no file `a` appears. The
  model keeps this behaviour; the stats count such nodes by their kind.

## Model

| member | source | states |
|---|---|---|
| `Exclusion.ShouldExcludeFolder` | quartz/components/scripts/filetree.inline.ts:15-20 | a folder is excluded exactly when one of the listed words occurs as a substring of its lower-cased name |
| `Exclusion.AnyMatchesIff` | quartz/components/scripts/filetree.inline.ts:17-19 | the `=== excluded` test adds nothing: a list entry matches exactly when it occurs in the name |
| `Exclusion.IncludesIff` | quartz/components/scripts/filetree.inline.ts:18 | `includes` holds exactly when the word occurs at some offset |
| `Exclusion.ProfilesExcluded` | quartz/components/scripts/filetree.inline.ts:2-5 | "Profiles" is excluded, through "files" |
| `Exclusion.UpperCaseExcluded` | quartz/components/scripts/filetree.inline.ts:16 | the match ignores case: "GÖRSELLER" is excluded |
| `Exclusion.ShortNameKept` | quartz/components/scripts/filetree.inline.ts:2-5 | every listed word has at least three letters, so a shorter name is never excluded |
| `Exclusion.FourLetterNameKept` | quartz/components/scripts/filetree.inline.ts:2-5 | only "pdf" is shorter than five letters, so a lower-cased name of at most four letters without a `p` matches no listed word |
| `Exclusion.Lower` | quartz/components/scripts/filetree.inline.ts:16 | lower-casing keeps the length and maps each character on its own |
| `Paths.Split` | quartz/components/scripts/filetree.inline.ts:31 | splitting gives at least one piece and no piece holds a slash |
| `Paths.JoinAllSplit` | quartz/components/scripts/filetree.inline.ts:31 | joining the pieces with `/` gives the key back |
| `Paths.NonEmpty` | quartz/components/scripts/filetree.inline.ts:31 | the filter keeps exactly the non-empty pieces, and every piece it returns is non-empty |
| `Paths.NonEmptyCounts` | quartz/components/scripts/filetree.inline.ts:31 | each non-empty piece is kept as often as it occurs and every empty one is dropped |
| `Paths.NonEmptyAppend` | quartz/components/scripts/filetree.inline.ts:31 | filtering a concatenation is concatenating the filtered parts, so the kept pieces stay in their order |
| `Paths.SegmentsOfJoin` | quartz/components/scripts/filetree.inline.ts:38 | the cumulative path built from segments splits back into those segments, and is empty only for no segments |
| `Paths.StripMd` | quartz/components/scripts/filetree.inline.ts:54 | the trailing `.md` is removed exactly when present, and adding it back gives the segment |
| `FileTree.EmptyTreeValid` | quartz/components/scripts/filetree.inline.ts:23-28 | the map holding only the root (name "root", slug "", a folder at level 0) satisfies the invariant |
| `FileTree.ChildSegments` | quartz/components/scripts/filetree.inline.ts:55-58 | a child's slug has its parent's segments plus one, and its level is the parent's plus one |
| `FileTree.AncestorsPresent` | quartz/components/scripts/filetree.inline.ts:35-66 | every cumulative prefix of a node's slug is itself a node |
| `FileTree.BelowSomeChild` | quartz/components/scripts/filetree.inline.ts:62 | every node strictly below another lies below one of its children |
| `FileTree.ChildrenDisjoint` | quartz/components/scripts/filetree.inline.ts:44-62 | two children of a node share no descendant unless they are the same child |
| `Build.NewNode` | quartz/components/scripts/filetree.inline.ts:46-59 | the new node's slug is the next cumulative path, its level the segment's index plus one, it has no children, it is a folder exactly when its segment is not last or is not `.md`, and its name is the segment, without `.md` for a file |
| `Build.AddChild` | quartz/components/scripts/filetree.inline.ts:61-62 | creating a node adds exactly that slug, appends it to the current node's children, and leaves every other node as it was |
| `Build.Walk` | quartz/components/scripts/filetree.inline.ts:35-67 | the inner loop only adds nodes and appends children: nothing is removed or renamed |
| `Build.AddChildValid` | quartz/components/scripts/filetree.inline.ts:44-62 | adding a fresh node under its parent path keeps the tree invariant |
| `Build.WalkValid` | quartz/components/scripts/filetree.inline.ts:35-67 | walking one key's segments keeps the tree invariant: one node per path, no duplicate children, slug/level/name rules |
| `Build.Insert` | quartz/components/scripts/filetree.inline.ts:31-67 | reading one key only adds nodes and appends children: nothing is removed or renamed |
| `Build.BuildUnsorted` | quartz/components/scripts/filetree.inline.ts:22-68 | the path map after all keys holds the root and satisfies the tree invariant |
| `Build.BuildUnsortedFromKeys` | quartz/components/scripts/filetree.inline.ts:37-54 | every folder comes from a non-final segment of some key and every file from the whole of some key |
| `Build.WalkComplete` | quartz/components/scripts/filetree.inline.ts:35-67 | every segment the walk reaches before an excluded folder ends up in the map when it is not last or is a `.md` segment; folders made before the `break` stay |
| `Build.BuildUnsortedComplete` | quartz/components/scripts/filetree.inline.ts:30-68 | each cumulative path of a key up to a segment is in the map when no folder up to it is excluded and the segment is not last or names a document |
| `Build.NothingBelowExcludedFolder` | quartz/components/scripts/filetree.inline.ts:48-51 | every prefix of a node's slug is a node, and no folder among them has an excluded name |
| `Build.WalkTwice` | quartz/components/scripts/filetree.inline.ts:44-45 | walking the same segments again from the same place changes nothing |
| `Build.InsertIdempotent` | quartz/components/scripts/filetree.inline.ts:44-45 | reading the same key twice gives the same map as reading it once |
| `Build.BuildPathMap` | quartz/components/scripts/filetree.inline.ts:27-68 | the nested loops, with `continue` and `break`, compute the fold of the inner loop over the keys |
| `Sort.CompareNodes` | quartz/components/scripts/filetree.inline.ts:72-76 | the callback returns -1, 0 or 1, puts a folder before a file, and returns 0 exactly for two nodes of the same kind and name |
| `Sort.LocaleCompare` | quartz/components/scripts/filetree.inline.ts:75 | the name comparison returns -1, 0 or 1, and 0 only for equal names |
| `Sort.LocaleCompareTransitive` | quartz/components/scripts/filetree.inline.ts:75 | the name order is transitive |
| `Sort.BeforeTotal` | quartz/components/scripts/filetree.inline.ts:72-76 | any two children are ordered one way or the other by the sort callback |
| `Sort.BeforeTransitive` | quartz/components/scripts/filetree.inline.ts:72-76 | the sort callback's order is transitive |
| `Sort.InsertBy` | quartz/components/scripts/filetree.inline.ts:72-76 | inserting a child keeps the children, adds it once, and keeps a sorted list sorted |
| `Sort.SortChildren` | quartz/components/scripts/filetree.inline.ts:72-76 | the sorted children are a permutation of the children in callback order |
| `Sort.SortChildrenOrder` | quartz/components/scripts/filetree.inline.ts:72-76 | after sorting, every folder precedes every file and each kind is in name order |
| `Sort.SortChildrenIdempotent` | quartz/components/scripts/filetree.inline.ts:72-76 | sorting children twice is sorting them once |
| `Sort.SortChildrenSameLabels` | quartz/components/scripts/filetree.inline.ts:72-76 | the order depends only on the children's kinds and names |
| `Sort.SortedPermutationUnique` | quartz/components/scripts/filetree.inline.ts:72-76 | when no two children compare equal, only one sorted permutation exists, whatever the sorting algorithm |
| `Sort.SiblingsStrict` | quartz/components/scripts/filetree.inline.ts:72-76 | in a built tree no two siblings compare equal, so the sorted order is unique |
| `Sort.ReorderedValid` | quartz/components/scripts/filetree.inline.ts:71-78 | reordering children lists keeps the tree invariant |
| `Sort.SortTree` | quartz/components/scripts/filetree.inline.ts:71-78 | `sortTree(node)` sorts the children of exactly the nodes in the node's subtree and leaves every other node as it was |
| `Sort.SortedFromRoot` | quartz/components/scripts/filetree.inline.ts:80 | a tree sorted from the root is the whole tree with every node's children sorted |
| `Sort.SortAllValid` | quartz/components/scripts/filetree.inline.ts:71-80 | the sorted tree differs only in the order of children and satisfies the tree invariant |
| `Sort.SortAllOrdered` | quartz/components/scripts/filetree.inline.ts:71-80 | in the sorted tree every node's children are a permutation of the old ones, folders first, each kind by name |
| `Sort.SortAllIdempotent` | quartz/components/scripts/filetree.inline.ts:71-80 | sorting a sorted tree changes nothing |
| `Sort.BuildTreeFromData` | quartz/components/scripts/filetree.inline.ts:22-82 | the built tree is the path map of all keys with every node's children sorted |
| `Sort.BuiltTreeValid` | quartz/components/scripts/filetree.inline.ts:22-82 | the returned tree satisfies the invariant and each node comes from a key |
| `Sort.BuiltTreeComplete` | quartz/components/scripts/filetree.inline.ts:22-82 | each cumulative path of a key up to a segment is in the returned tree when no folder up to it is excluded and the segment is not last or names a document |
| `Stats.CountDisjoint` | quartz/components/scripts/filetree.inline.ts:121-125 | counts of disjoint groups of nodes add up |
| `Stats.CalculateStats` | quartz/components/scripts/filetree.inline.ts:111-128 | `calculateStats(node)` returns the number of folder nodes and of file nodes in the node's subtree, the node included |
| `Stats.DisplayedCounts` | quartz/components/scripts/filetree.inline.ts:155-159 | the shown counts are the folders other than the root and all files |
| `Stats.WholeTree` | quartz/components/scripts/filetree.inline.ts:158 | the root's subtree is the whole tree and the root is one of its folders |
| `Render.Repeat` | quartz/components/scripts/filetree.inline.ts:89 | `repeat(n)` is n copies long and holds only the repeated characters |
| `Render.Indent` | quartz/components/scripts/filetree.inline.ts:89 | the indent is two spaces per level after the first, and none at level 0 |
| `Render.NatToStringValue` | quartz/components/scripts/filetree.inline.ts:93 | the printed level reads back as the level |
| `Render.NatToStringInjective` | quartz/components/scripts/filetree.inline.ts:93 | different levels print differently |
| `Render.Item` | quartz/components/scripts/filetree.inline.ts:93-102 | the item opens with the tag naming its kind, followed by the `data-level` digits, which read back as its level, and its label follows the head |
| `Render.ItemLabel` | quartz/components/scripts/filetree.inline.ts:96-100 | a file's item links to `/` plus its slug with its name unescaped; a folder's shows its name in a span |
| `Render.RenderTreeNode` | quartz/components/scripts/filetree.inline.ts:84-109 | a non-root node prints the items of its subtree in depth-first order, the node first; the root prints only the items below it |
| `Render.RenderChildren` | quartz/components/scripts/filetree.inline.ts:104-106 | the children's renderings follow each other in child order, each the depth-first items of its subtree |
| `Render.RenderRoot` | quartz/components/scripts/filetree.inline.ts:85-87 | the root prints no item of its own, only its subtree's other items in depth-first order |
| `Render.PreorderExact` | quartz/components/scripts/filetree.inline.ts:84-109 | the depth-first order lists every node of the subtree exactly once |
| `Render.ItemCount` | quartz/components/scripts/filetree.inline.ts:155-160 | the page shows as many items as the displayed folder count plus the file count |
| `Render.PrefixOnlyBelowTop` | quartz/components/scripts/filetree.inline.ts:89-91 | the branch mark is shown exactly on nodes that are not children of the root, and the indent is two spaces per ancestor other than the root |
| `Scenarios.TextFileSkipped` | quartz/components/scripts/filetree.inline.ts:40-42 | `["z.txt"]` gives a root without children |
| `Scenarios.ExcludedFolderSkipped` | quartz/components/scripts/filetree.inline.ts:48-51 | `["ekler/x.md"]` gives a root without children |
| `Scenarios.PrefixBeforeExcludedKept` | quartz/components/scripts/filetree.inline.ts:48-51 | `["x/ekler/y.md"]` gives the folder `x` under the root and nothing below it |
| `Scenarios.PrefixBeforeExcludedComplete` | quartz/components/scripts/filetree.inline.ts:48-51 | the completeness lemma puts `x` in the tree built from `["x/ekler/y.md"]` |
| `Scenarios.FileGainsChild` | quartz/components/scripts/filetree.inline.ts:44-62 | `["a.md", "a.md/b.md"]` gives the file `a` with the file `b` as its child |
| `Scenarios.FolderKeepsKind` | quartz/components/scripts/filetree.inline.ts:44-62 | `["a.md/b.md", "a.md"]` gives the folder `a.md` holding the file `b`, and no file `a` |
| `Scenarios.ExampleBuilt` | quartz/components/scripts/filetree.inline.ts:30-68 | `["a/b.md", "a/c.md", "notes.md"]` builds `a` and `notes` under the root, `b` and `c` under `a` |
| `Scenarios.ExampleSorted` | quartz/components/scripts/filetree.inline.ts:71-80 | that example is already in order, so sorting keeps it |
| `Scenarios.ExampleCounts` | quartz/components/scripts/filetree.inline.ts:111-128 | that example shows 1 folder and 3 files |
| `Scenarios.ExampleRenderOrder` | quartz/components/scripts/filetree.inline.ts:84-109 | that example renders the items of a, b, c and notes in that order |

## Left out

- The modal and page wiring are not modelled (quartz/components/scripts/filetree.inline.ts:130-176). This covers opening and closing the dialog, the `nav` listener, the element lookups, writing `innerHTML` and `textContent`, and the cleanup callbacks. They hold no logic beyond toggling an attribute and a class.
- The `klasör` / `dosya` label text around the counts is not modelled; `DisplayedCounts` returns the two numbers.
- The content index is an input: the keys come in as a sequence. A missing index is the empty sequence, and the key order of `Object.keys` is whatever order the sequence has.
- The tree is a map from slug to node, and a node lists its children by slug. The source links node objects and reaches them through `pathMap`. The two agree because every node is stored under its own slug, but the model does not capture object identity or aliasing.
- `BuildTreeFromData` returns the whole map; the source's root object is the entry under the empty slug.
- `LocaleCompare` is lexicographic order on code points, not the host's locale-aware collation, which depends on the ICU data of the browser.
- `Exclusion.LowerChar` lowers ASCII capitals and the Latin-1 capitals `À`–`Þ` (except `×`) only. Full Unicode case mapping, such as Turkish `İ`, is not modelled.
- `SortChildren` uses a stable insertion sort in place of the engine's `Array.prototype.sort`. In a built tree no two siblings compare equal (`SiblingsStrict`), and only one sorted permutation of such a list exists (`SortedPermutationUnique`). Any correct sort therefore gives the same order.
- `Sort.SortTree` takes a ghost upper bound on the levels as a termination measure; the source needs none because its tree is finite and acyclic.
- `Render.RenderTreeNode` prints `level` in decimal via `NatToString`; JavaScript number formatting of fractional or huge values does not arise, since levels are small counts.
