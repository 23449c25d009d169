# QDeck values editing: a verified model

QDeck edits Helm values by moving between a YAML node graph and a flat table of
keys and values.  This project models that translation in Dafny and proves what
it keeps.

* **The node graph** (`YamlNode`, `DeepCopy`, `Anchors`, `Lookup`, `Reading`,
  `AliasKeys`, `Walk`, `Gates`, `AnchorEdits`, `Visiting`).  `yaml.Node` is a class whose
  fields the methods write in place.  A `Graph` is a snapshot of a set of nodes,
  and `Denote` is the tree that a reader of the document sees, with aliases
  followed.  Well-formed graphs are acyclic along children and aliases, aliases
  point at anchored non-aliases (section 7.1 of YAML 1.2.2), and keys are no
  aliases; what the code does with alias keys is in `AliasKeys`.  Sharing below
  children is allowed wherever a theorem does not say otherwise.
* **Writing and saving** (`Upsert`, `UpsertNodes`, `UpsertTrail`, `Upserting`,
  `Deletion`, `PatchTree`, `PhysicalLeaves`, `Cosmetics`, `CopyReads`,
  `PatchPlan`, `Patch`, `Patching`, `Pruning`, `StaleLeaves`, `ListSaves`,
  `AnchorsStay`).  `upsertPath`, `deletePath` and `PatchNodeTree`, each proved against a
  function on trees, and then what a save as a whole does.
* **The flat-key language** (`FlatKey`, `KeyPath`, `Flattening`, `Ordering`,
  `FileOrder`, `FileListing`, `Rows`).  Escaping, parsing and printing of keys, the table
  made from a value, and its order.
* **There and back** (`Loading`, `Reloading`).  From a document to its table, through the
  editor's cells to the overrides, and into a save: when nothing was edited, the entries
  agree with the document, which makes the save a copy, exactly if every row shows what is
  there.
* **Whole runs** (`Debouncing`, `Running`, `Collapsing`, `Nullifying`).  Each
  component is a class with the code of its critical sections or handlers; runs
  are sequences of events over a state machine whose steps are the functions that
  the contracts of the class are stated with.
* **Text** (`Text`, `Comments`, `EditorText`, `Splicing`, `BlankLines`,
  `MissingLines`).  Comment round trips and the line patches of a save.

What follows an alias is settled once: `Expands` says that some aliases became
local copies and that no node denotes anything new, and `Edit` says which nodes a
write may touch.  The theorems about operations are stated with these two.

## Results that differ from what the code or its comments promise

Each is a lemma with the exact condition or a concrete input.

* A key whose first name is empty collides with a shorter one, and an empty name
  directly before an index is lost: `KeyPath.RoundTrip`, `KeyPath.UnrootedCollides`.
* A quoted `"<<"` is an ordinary key of the decoded value, and the lookup merges it:
  `Lookup.QuotedMergeKey`.  On documents that the decoder accepts, lookup and value
  agree on every path if and only if no such key is among those that the lookup gets
  to: `Lookup.LazyAgreesExactly`.
* A key that is an alias is found under the anchor's name instead of the anchored text:
  `AliasKeys.AliasKeyMissed`.  All names are found if and only if every such anchor is
  called like its text: `AliasKeys.AliasKeysAgree`.
* `SetNodeAlias` can make the graph cyclic; its guard only rules out the anchor's
  own slot: `AnchorEdits.SetAliasMeans`, `AnchorEdits.AliasClosesCycle`.
* An upsert through an alias writes to no other old node if and only if the alias shows
  a container; otherwise the container that holds the alias changes as well:
  `Upserting.AliasAlone`, `Upserting.ScalarAliasExample`.
* Deleting stale leaves one after the other deletes other items where a stale item
  stands before another in its sequence, and, if the items differ, only there:
  `StaleLeaves.StaleRemovedExactly`, `StaleLeaves.StaleItemsShift`.
* A save that deletes scalars stores exactly its entries if no deleted item stands before
  another leaf of its sequence, and, where every item has a scalar in it, only then:
  `ListSaves.SaveStoresExactly`, `ListSaves.MiddleItemGoes`.
* What is saved without an edit agrees with the document, which makes the save a copy, if
  and only if every row shows the text of its scalar, or another spelling of its null; a
  number written in another way than it is shown, such as `0x10`, is written as shown:
  `Reloading.NothingEditedNothingChanges`, `Loading.OtherSpelling`.
* A `Flush` that finds a write in flight and a newer value pending returns without it; in
  all other cases the last value is written: `Debouncing.FlushWritesExactly`,
  `Debouncing.FlushSkips`.
* A value scheduled while a `Flush` writes can stay unwritten for good:
  `Debouncing.StrandedExactly`.
* A section that a search had opened and the user closes is open again when the search
  ends: `Collapsing.ToggleKeepsIntent`, `Collapsing.ClosedAgainOpens`.
* A saved state that is loaded during a search is lost when the search ends, unless
  nothing changes by it: `Collapsing.LoadKeptExactly`.
* When nothing else is counted, a value that looks like a comment is not saved:
  `Nullifying.RowsAreSaved`, `Nullifying.CommentLikeValueDropped`.
* Splicing keeps the rest of the file if and only if the node starts with the text of
  the scalar, which ends on its own line with nothing but a comment behind it:
  `Splicing.KeepsTheRestExactly`, and the inputs `Splicing.AnchorLost`,
  `Splicing.FlowLosesTheRest`, `Splicing.ContinuationStays`,
  `Splicing.TrailingBlanksLost`.  With a longer character before the value, the column
  is not its offset: `Splicing.ColumnIsOffset`, `Splicing.WideKey`.
* Where it keeps the rest, a value that is plain in a block reads back if and only if it
  has no flow indicators where these count and did not replace an empty one right after
  its colon: `Splicing.SafeValueReadsBack`, `Splicing.CommaEndsValue`,
  `Splicing.EmptyValueJoins`.

## Model

| member | source | states |
|---|---|---|
| DeepCopy.CopyNodeRec | service/yaml_tree.go:409-444 | From any memo, the node gets its one copy, the memo grows only by nodes that every closed set around it holds, every finished copy mirrors its original, and no old node changes; nothing is required of cycles, and it terminates on them |
| DeepCopy.CopyContent | service/yaml_tree.go:436-441 | The child loop fills the copy with the copies of the children in order, whatever the recursion adds to the memo |
| DeepCopy.DeepCopyYAMLNode | service/yaml_tree.go:405-407 | The copy is a fresh graph isomorphic to exactly the reachable part, shared nodes shared again, and the source is untouched |
| Anchors.MoveInto | service/yaml_anchors.go:350-361 | The alias node takes kind, style, tag, value and children of the copy, loses anchor and alias, and keeps its comments |
| Anchors.Sever | service/yaml_anchors.go:349-361 | An alias becomes a copy of its target with only new nodes below it |
| Anchors.BreakAliasInPlace | service/yaml_anchors.go:344-362 | As Sever; a node that is no alias is left alone |
| Anchors.BrokenLooks | service/yaml_anchors.go:344-362 | The former alias has its target's kind, style, tag and value under its own three comments, and no anchor |
| Anchors.BrokenMeaning | service/yaml_anchors.go:344-362 | Breaking an alias keeps the graph acyclic and changes what no node denotes, and each new node denotes what its original does |
| Reading.ResolveAlias | service/yaml_anchors.go:365-371 | Ends at a non-alias that denotes the same tree |
| Reading.MappingKeyIndex | service/yaml_tree.go:567-584 | Finds the first local key whose own text is that name, passing over merge keys; where no key is an alias, that is the first key that shows it |
| Reading.MappingValueWithMerge | service/yaml_tree.go:526-562 | Terminates on every acyclic graph and returns the node of the local value, else of the first merge source that has one |
| Reading.SourceValue | service/yaml_tree.go:537-558 | One merge source: a mapping, a sequence of mappings, or nothing |
| Reading.FirstItemWithMerge | service/yaml_tree.go:542-550 | The first mapping of a merge sequence that has the name |
| Reading.EffectiveNode | service/yaml_serialize.go:627-662 | The walk through aliases and merge keys reaches the node of the lazy lookup, or nothing where that finds nothing |
| Reading.FindEffectiveScalar | service/yaml_serialize.go:627-662 | Returns what the lazy lookup reads; that is the scalar of the fully expanded document wherever no quoted `<<` is among the keys the lookup gets to |
| Reading.TreeNodeMatchesContainerType | service/yaml_tree.go:151-193 | True exactly if the lazy lookup ends in a mapping or sequence of the asked type |
| Reading.LookupRawValue | service/yaml_serialize.go:124-160 | Finds what the expanded value holds at the path; the empty path finds nothing |
| AliasKeys.AliasKeysAgree | service/yaml_tree.go:567-584 | mappingKeyIndex finds the key that stands for each name if and only if every alias among the keys is of an anchor called like its text |
| AliasKeys.AliasKeyMissed | service/yaml_tree.go:567-584 | In `a: &x foo`, `*x : 1` it finds nothing under `foo` and the second entry under `x` |
| Lookup.ValueAgrees | service/yaml_tree.go:526-562 | One lazy step agrees with the eager expansion of a mapping whose keys are resolved: local entries first, then earlier merge sources |
| Lookup.EntriesAgreeExactly | service/yaml_tree.go:526-562 | On a mapping the lookup and the merge-key type agree at every name if and only if none of the `<<` keys it depends on is quoted |
| Lookup.LazyAgreesExactly | service/yaml_serialize.go:627-662 | On every path the lazy walk ends in the subtree whose expansion is found there, or both end in nothing, if and only if that holds of every mapping the walk can get to |
| Lookup.QuotedMergeKey | service/yaml_tree.go:526-584 | With a quoted `<<` the lookup finds a scalar where the value has none, and none where the value has it |
| Lookup.LazyRefinesEager | service/yaml_serialize.go:627-662 | findEffectiveScalar and LookupRawValue agree on every path of every document whose merge sources are mappings or lists of mappings and whose `<<` keys are resolved as merge keys |
| Lookup.NestedMergeListIsSearched | service/yaml_tree.go:542-550 | A list item reading `<<` and a mapping is searched through, although the expansion has nothing there |
| Visiting.VisitsInOrder | service/yaml_anchors.go:273-283 | The content walk takes every way down from its root once, each node before what is below it and earlier children first |
| Visiting.FirstInOrder | service/yaml_anchors.go:243-267 | Of several anchors of a name, the one that is found stands first in the file |
| AnchorEdits.FindAnchorNode | service/yaml_anchors.go:243-267 | Finds the first non-alias of that anchor name in visiting order |
| AnchorEdits.VisitWithin | service/yaml_anchors.go:273-283 | The content walk stays in every content-closed set that holds its root |
| AnchorEdits.VisitClosed | service/yaml_anchors.go:273-283 | The nodes it visits are closed under children; with VisitWithin, they are the least such set |
| AnchorEdits.CollectAliases | service/yaml_anchors.go:142-148 | Collects exactly the aliases of that name, in visiting order |
| AnchorEdits.SeverAll | service/yaml_anchors.go:150-152 | The loop turns every collected alias into a local copy and changes no meaning |
| AnchorEdits.DeleteAnchor | service/yaml_anchors.go:129-157 | Every node denotes what it did; of the old nodes only the visited aliases of the name, which are aliases no more, and the first anchor of the name are written, the latter losing its name and nothing else; for a uniquely named anchor nothing visited afterwards mentions the name; on error nothing changes |
| AnchorEdits.NoMentionLeft | service/yaml_anchors.go:129-157 | With all its aliases severed and the anchor cleared, no node of the tree, copies included, mentions a unique anchor name |
| AnchorEdits.ClearNodeAlias | service/yaml_anchors.go:163-190 | Succeeds exactly on paths that lead somewhere, changes what no node denotes, writes to no old node off the path, and leaves no alias at its end |
| AnchorEdits.RenameVisit | service/yaml_anchors.go:105-115 | Every node is renamed once for each time the walk meets it, and no other is written |
| AnchorEdits.RenameAnchor | service/yaml_anchors.go:84-118 | Succeeds exactly for a legal new name that is free while the old one is present, or equal names; renames anchors and aliases of the name, each once for every visit, and nothing on error |
| AnchorEdits.ValidNames | service/yaml_anchors.go:16 | Legal names are the words over letters, digits, underscores and hyphens that start with neither a digit nor a hyphen |
| AnchorEdits.RenamedOnce | service/yaml_anchors.go:105-115 | Visits after the first change nothing, unless an alias carries the anchor itself |
| AnchorEdits.RenamingIsConsistent | service/yaml_anchors.go:84-118 | A rename changes no meaning, keeps every alias called what its anchor is called, merges no two anchors, and is undone by renaming back |
| AnchorEdits.PutAlias | service/yaml_anchors.go:226-235 | The slot holds a new alias of the target with the comments of what stood there |
| AnchorEdits.SetNodeAlias | service/yaml_anchors.go:196-238 | Succeeds exactly if the anchor is found, the path leads somewhere and the anchored node is not what stands there; then exactly the last slot holds a new alias of it with the comments of what stood there, after expansions along the path that change no meaning; on failure nothing but such expansions happened |
| AnchorEdits.SetAliasMeans | service/yaml_anchors.go:220-235 | The graph stays acyclic if and only if, in the document as it was, the anchored node reaches neither the first alias on the path nor, if there is none, the container; then the path reads the anchored node and nodes that cannot reach that place read as before |
| AnchorEdits.AliasClosesCycle | service/yaml_anchors.go:196-238 | In `a: &x {b: 1}`, setting `a.b` to an alias of `x` succeeds and closes a cycle |
| Gates.ReachesContainer | service/yaml_tree.go:275-288 | After a walk, an old node reaches the container if and only if it reached, before it, the first alias on the path or else the container |
| Gates.SlotAfterWalk | service/yaml_anchors.go:220-224 | What stands in the slot after the walk is an old node if and only if no alias was on the path to it |
| Walk.ExpandAlias | service/yaml_anchors.go:344-362 | Breaking an alias is an expansion: only it changes, and no meaning does |
| Walk.StepPhysical | service/yaml_tree.go:246-269 | Finds the local child at a segment, breaking at most the node it starts from |
| Walk.ResolvePhysicalForMutation | service/yaml_tree.go:275-288 | Reaches the node at a path through local keys, or nothing if the path is not there; meanings are kept |
| Walk.FindParentSlot | service/yaml_tree.go:361-400 | Returns the container and slot of the last segment, through nodes each reached from the one before, and writes to no other old node; fails exactly where the path is not there |
| Walk.FindParentSlotReadOnly | service/yaml_tree.go:304-354 | Changes nothing, so the alias-breaking branch is never taken, and returns the slot and whether an alias was met |
| Walk.ReadSlotWalks | service/yaml_tree.go:304-354 | That slot holds what the path denotes, and is missing exactly if the path is not there |
| Walk.TrailReads | service/yaml_tree.go:275-288 | The nodes along a physical walk spell out what both the local and the merge-aware lookup read |
| UpsertNodes.LeafNodeFromValue | service/yaml_tree.go:589-607 | A new scalar with the tag and text of the value that takes style, anchor and all three comments from the scalar it replaces, if there is one |
| UpsertNodes.ContainerForNextSegment | service/yaml_tree.go:747-753 | A new empty container of the shape the next segment needs, tagged as such |
| UpsertNodes.PadTo | service/yaml_tree.go:657-661 | Appends bare nulls, new nodes each, until the index exists; an index in range changes nothing |
| UpsertNodes.DescendSequence | service/yaml_tree.go:652-674 | Steps to the item, padding, breaking an alias or replacing a scalar as needed, and denotes the corresponding step on trees; fails exactly on a non-sequence, changing nothing |
| UpsertNodes.DescendMapping | service/yaml_tree.go:676-701 | The same for a key, which is appended if it is missing |
| UpsertNodes.SetItem | service/yaml_tree.go:707-721 | The item is the written scalar and every other child is as before |
| UpsertNodes.SetEntry | service/yaml_tree.go:727-744 | The entry is the written scalar, appended if missing, and an alias is replaced outright |
| UpsertNodes.SetLeaf | service/yaml_tree.go:706-745 | Writes the leaf, or fails exactly on a container of the wrong kind and changes nothing |
| Upsert.UpsertSucceeds | service/yaml_tree.go:614-639 | An upsert succeeds exactly when every container already on the path has the shape its segment needs |
| Upsert.UpsertedAsPlug | service/yaml_tree.go:614-639 | Upserting through existing containers is upserting below and putting the result in place |
| Upsert.UpsertedAfterStep | service/yaml_tree.go:644-650 | Creating the next container first makes no difference to the upsert |
| UpsertTrail.PlugDenote | service/yaml_tree.go:614-639 | Without aliases, changing the node at the end of a path changes the document in that one place |
| Upserting.DescendOrCreate | service/yaml_tree.go:644-650 | One step down, by key or by index |
| Upserting.WalkDown | service/yaml_tree.go:619-636 | The loop keeps what is left to write equal to what was to be written, and touches nothing outside the allowed nodes |
| Upserting.UpsertPath | service/yaml_tree.go:614-639 | Fails exactly if the path does not fit; of the old nodes exactly those of Touched change; on success the path reads back the scalar; written over a scalar, behind aliases or not, it has that one's style, anchor and three comments, and otherwise neither anchor nor comments; without aliases the document is exactly the upserted tree |
| AnchorsStay.TouchedIs | service/yaml_tree.go:614-745 | An upsert of what is there writes to its container alone, or, if an alias is on the way, to aliases alone |
| AnchorsStay.ScalarKeepsAnchors | service/yaml_tree.go:586-745 | An upsert over an existing scalar leaves every anchor of the document defined at the path where it was |
| Upserting.TouchedShape | service/yaml_tree.go:614-745 | Of the old nodes an upsert writes to an alias alone, or to an alias and the container around it, and to the latter if and only if the alias is not the root and shows no container |
| Upserting.TouchedExactly | service/yaml_tree.go:614-745 | An old node changes if and only if it is in Touched |
| Upserting.AliasAlone | service/yaml_tree.go:614-745 | An upsert through an alias below the root writes to no other old node if and only if the alias shows a container |
| Upserting.ScalarAliasExample | service/yaml_tree.go:676-701 | In `a: &x 1`, `b: *x`, writing below `b` writes to the alias and to the root |
| Upserting.AnchorUntouched | service/yaml_tree.go:614-745 | What an alias on the path points at keeps its fields and its meaning |
| Upserting.OtherAliasUntouched | service/yaml_tree.go:614-745 | Every other alias of that anchor reads what it read |
| Upserting.UntouchedDenote | service/yaml_tree.go:614-745 | Every node that cannot reach a written one denotes what it did |
| Deletion.CutSlot | service/yaml_tree.go:764-773 | The container loses exactly that item, or that key with its value |
| Deletion.DeletePath | service/yaml_tree.go:758-776 | Succeeds exactly if the path is physically there; the container loses that child and no other node changes, after expansions that change no meaning |
| Deletion.DeletedRemoves | service/yaml_tree.go:758-776 | Without aliases the whole document is the one with that path removed |
| PatchTree.RegularRead | service/yaml_serialize.go:627-662 | Without merge keys the merge-aware lookup is the local one |
| PatchTree.UpsertAt | service/yaml_tree.go:614-639 | The written path leads to the written leaf |
| PatchTree.UpsertElsewhere | service/yaml_tree.go:614-639 | Scalars at paths neither above nor below the written one stay |
| PatchTree.UpsertEffect | service/yaml_tree.go:614-639 | Along names: the path reads the value, paths above and below read nothing, all others read as before |
| PatchTree.RemoveEffect | service/yaml_tree.go:758-776 | Deleting a path of names takes away what is at or below it and nothing else |
| PhysicalLeaves.WalkPhysicalLeaves | service/yaml_tree.go:479-521 | Collects the keys of scalars and empty containers in document order, never crossing an alias or a merge key |
| PhysicalLeaves.LeafKeyIsPath | service/yaml_tree.go:471-521 | On nested mappings every collected key is that of a path to a leaf |
| PhysicalLeaves.ScalarHasKey | service/yaml_tree.go:471-521 | And every scalar's key is collected |
| CopyReads.CopyDenote | service/yaml_tree.go:405-444 | A deep copy denotes what its source denotes |
| CopyReads.CopyLeafKeys | service/yaml_tree.go:471-521 | It has the same leaf keys |
| CopyReads.CopyReadSlot | service/yaml_tree.go:304-354 | And the same slots, up to the copying |
| PatchPlan.EntriesReadBack | service/yaml_serialize.go:252-304 | With sequences too: if writing succeeds, what is read for every scalar entry is the converted value or the entry's own text, or, for a null, one spelling of it for another |
| PatchPlan.DropLeaves | service/yaml_serialize.go:239-250 | Dropping leaves of nested mappings takes away exactly those |
| PatchPlan.ApplyReads | service/yaml_serialize.go:252-304 | Writing entries at names always succeeds, stores each, and leaves every other path alone |
| PatchPlan.StoresExactly | service/yaml_serialize.go:232-304 | On nested mappings the scalars of the result are exactly the entries |
| Patch.EffectiveComments | service/yaml_serialize.go:679-700 | Reads the comments at the slot of the path and whether an alias was met, changing nothing |
| Patch.CommentsOfEntry | service/yaml_serialize.go:679-700 | Of two head comments the key's counts, of two line comments the value's, and one alone counts wherever it stands |
| Patch.ApplyOverrideComments | service/yaml_serialize.go:728-769 | Replaces head and line comment of the value at the path and of its key, or of the item, changes no meaning and no other node, and effectiveComments then reads the cleaned head and trimmed line; if the path is not there nothing but expansions happened |
| Patch.WriteEntry | service/yaml_serialize.go:295-303 | Writes the value unless unchanged and then the comments unless unchanged; on every document the entry then reads back |
| Patch.PatchEntry | service/yaml_serialize.go:253-303 | An entry the document agrees with changes nothing at all; any other goes through exactly if its key parses and the containers on its path fit, and then reads back, through aliases and merge keys too; comments that differ are written and read back afterwards; on documents without aliases and merge keys the value is stored as the plan says |
| Patch.CommentsReadBack | service/yaml_serialize.go:679-769 | Comments written at a path are what effectiveComments reads there |
| Patch.WrittenCommentsAgree | service/yaml_serialize.go:708-718 | The document then agrees with the entry if and only if its head comment is clean without blank lines and its line comment trimmed |
| Patching.DropStale | service/yaml_serialize.go:239-250 | Deletes the leaves whose keys no entry has, in order; with none stale nothing changes; fails exactly on a key that does not parse |
| Pruning.StillPrunes | service/yaml_serialize.go:239-250 | Deleting paths one after the other, in document order, is removing them all at once, if none of them is an item before another in its sequence |
| Pruning.ShiftChanges | service/yaml_serialize.go:239-250 | And only then, if the items of every sequence differ and none is an empty container |
| StaleLeaves.LeafKeysAre | service/yaml_tree.go:471-521 | The collected keys are those of the paths of all leaves, in document order, sequences included |
| StaleLeaves.PrunedKeeps | service/yaml_serialize.go:239-250 | Removing leaves all at once leaves the texts of all other scalars, in document order |
| StaleLeaves.StaleRemovedExactly | service/yaml_serialize.go:232-250 | What is deleted are the leaves that no entry names; exactly those go, and the texts of all other scalars stay in order, if none is an item before another in its sequence, and, where items differ, only then |
| StaleLeaves.StaleItemsShift | service/yaml_serialize.go:232-304 | With `s: [a, b, c]` and `s[2]` as the only entry the save leaves `b` and writes `c` two places behind it |
| ListSaves.SettledReads | service/yaml_serialize.go:239-250 | If no path to delete is an item with a leaf after it, deleting them leaves exactly the other scalars, each at its path |
| ListSaves.ShiftShows | service/yaml_serialize.go:239-250 | Otherwise, where every item has a scalar in it, a scalar is read at or below a deleted path |
| ListSaves.ApplyThere | service/yaml_serialize.go:252-304 | Entries for scalars that are there always go through, each is stored, and no other path changes |
| ListSaves.SaveStoresExactly | service/yaml_serialize.go:232-304 | A save that changes scalars and deletes others, sequences included, ends with exactly its entries if no leaf that goes is an item before another leaf of its sequence, and, where every item has a scalar in it, only then |
| ListSaves.MiddleItemGoes | service/yaml_serialize.go:232-304 | `s: [a, b, c]` without `b` is saved as `s: [a, c, c]` |
| Patching.ApplyEntries | service/yaml_serialize.go:252-304 | If every entry agrees with the document nothing changes; else entries apply in order up to the first failure |
| Patching.CopyAgrees | service/yaml_serialize.go:227-304 | Entries agree with the working copy exactly if they agree with the source |
| Patching.PatchLoops | service/yaml_serialize.go:234-304 | Both loops together: agreement leaves the copy as it is, success stores every scalar entry, and on nested mappings exactly the entries |
| Patching.PatchNodeTree | service/yaml_serialize.go:227-304 | The source is never modified; saving what nobody edited yields a field-for-field copy; a save that succeeds leaves at every scalar entry the converted value, the entry's own text or another spelling of its null; on nested mappings it always succeeds and stores nothing else |
| Loading.LeavesAreCollected | service/yaml_tree.go:471-521 | On documents with distinct keys, aliases and merge keys included, the collected keys are exactly those of the scalars and empty containers that are reached past no alias |
| Loading.RowUnedited | service/yaml_serialize.go:252-304 | Saving the unedited row of a path, with its comment as it was loaded, changes nothing if and only if the row is a container's or shows the scalar's text or another spelling of its null |
| Loading.TableAgrees | service/yaml_serialize.go:227-304 | Entries made of unedited rows, one at least for every value that is no section, agree with the document if and only if every row shows what is there |
| Loading.OtherSpelling | service/yaml_serialize.go:275-298 | `a: 0x10`, shown as 16, has a table whose row does not show what is there, so that saving it unedited writes 16 |
| Reloading.RowShows | service/values_service.go:819-906 | A row is tagged map or list exactly where the lookup finds a mapping or a sequence, is a section exactly if that has something in it, is a placeholder for it, and shows any other value by its text and type |
| Reloading.UneditedTableSaved | ui/state/editor_state.go:97-259 | From a table as it was loaded, exactly the rows' own values are collected, sections aside, a null set to null where the file has one |
| Reloading.NothingEditedNothingChanges | ui/state/editor_state.go:97-259 | Loading a document, flattening it, collecting its cells unedited and saving them agrees with the document, so that the save is a copy, if and only if every row shows what is there |
| FlatKey.UnescapeEscape | domain/flatkey.go:44-100 | Unescaping undoes escaping, for every name |
| FlatKey.EscapeOne | domain/flatkey.go:44-63 | A dot, an opening bracket and a backslash get a backslash, and no other character changes |
| FlatKey.UnescapeErrs | domain/flatkey.go:68-100 | After any escaped text, a backslash at the end or before another character is an error |
| FlatKey.EscapeSegment | domain/flatkey.go:44-63 | The loop computes the escape function |
| FlatKey.UnescapeSegment | domain/flatkey.go:68-100 | The loop computes its inverse, with an error on every unknown or dangling escape |
| FlatKey.YieldsConcat | domain/flatkey.go:137-154 | Scanning a text of complete escapes followed by another is scanning each in turn |
| FlatKey.SplitEncoded | domain/flatkey.go:160-178 | Splits at the unescaped dots and nowhere else |
| FlatKey.FindIsFirst | domain/flatkey.go:184-192 | The position found is the first unescaped one, and none is found only if there is none |
| FlatKey.IndexUnescaped | domain/flatkey.go:184-192 | The loop finds that position |
| FlatKey.Depth | domain/flatkey.go:196-210 | The number of parts that SplitEncoded yields |
| FlatKey.LastBoundary | domain/flatkey.go:279-289 | The last unescaped dot or bracket |
| FlatKey.BoundaryConcat | domain/flatkey.go:279-289 | The last boundary of two texts is that of the second, if it has one |
| FlatKey.Parent | domain/flatkey.go:220-227 | What stands before it, which is always shorter |
| KeyPath.ParseKeySegments | service/yaml_tree.go:45-110 | The loop computes the parse function, all error returns included |
| KeyPath.BuildKey | service/values_service.go:916-923 | A child's key is the container's key, a dot unless at the root, and the escaped name |
| KeyPath.ParseEncode | service/yaml_tree.go:45-110 | For every path: its key is an error exactly if an index is over 10000, and else reads back as the path without the names that leave no trace |
| KeyPath.ParsedReadsBack | service/yaml_tree.go:45-110 | Whatever key parses, printed by the program or not, has indices of at most 10000, and reads back once it is printed |
| KeyPath.RoundTrip | service/yaml_tree.go:45-110 | Parsing inverts printing if and only if no empty name stands first or before an index and all indices are at most 10000 |
| KeyPath.EncodeInjective | service/values_service.go:916-923 | Different paths have different keys, unless one starts with an empty name |
| KeyPath.UnrootedCollides | service/values_service.go:916-923 | An empty first name leaves no trace: the path and its tail share one key |
| KeyPath.ParentEncode | domain/flatkey.go:220-227 | The parent of a path's key is the key of the enclosing container |
| KeyPath.FlatKeyHasAncestor | ui/page/values_controller_actions.go:1063-1075 | The walk over parents terminates and finds exactly the keys on the chain |
| KeyPath.ParentChainEncode | ui/page/values_controller_actions.go:1063-1075 | The chain holds exactly the keys of the proper prefixes |
| KeyPath.DescendantIsPrefix | ui/widget/override_table_anchors.go:124-136 | The byte-prefix test is the prefix order of paths |
| KeyPath.AncestorTestsAgree | ui/widget/override_table_anchors.go:124-136 | The byte-prefix test, the walk over parents and the prefix order of paths are one relation |
| Flattening.FlattenValues | service/values_service.go:819-906 | The stack loop terminates and emits one row for every path but that of a section with an empty key, sorted |
| Flattening.OneRowPerValue | service/values_service.go:819-906 | Without an empty key at the root there is exactly one row for each value below it, in strictly increasing key order |
| Flattening.RowsLookUp | service/values_service.go:819-906 | Every row shows the value at some path, and looking its key up finds that path if and only if no empty name stands first or before an index and all indices are at most 10000 |
| FileOrder.Number | service/values_service.go:720-725 | A key takes the next number unless it has one |
| FileOrder.Walk | service/values_service.go:703-759 | The walk numbers the keys in document order, looking through aliases and past merge keys |
| FileOrder.BuildFlatKeyPositions | service/values_service.go:685-764 | The positions of a file are the numbers of its keys in document order; other roots have none |
| FileOrder.PrePathsOrdered | service/values_service.go:703-759 | In document order, every section comes before what is below it, and that stands together |
| FileListing.PathsListed | service/values_service.go:703-759 | With distinct keys the paths numbered are exactly those that lead somewhere in the file, sequence items and what is behind aliases included |
| FileListing.PathsInOrder | service/values_service.go:703-759 | They are numbered in the order of the file: what is below a path after it, and of two that part at a container first the one through the earlier child |
| FileListing.RowsInFileOrder | service/values_service.go:685-815 | In every sorted table the rows of the file stand in the order of the file |
| FileOrder.EffectivePosition | service/values_service.go:803-815 | The own position, else the nearest positioned container's, else the end |
| FileOrder.SortByFilePositions | service/values_service.go:779-796 | The rows are permuted in place into order of position and then key, rows with equal keys staying in their order; without positions nothing moves |
| FileOrder.EffPosOfPath | service/values_service.go:803-815 | The effective position is where the longest positioned prefix of the path stands |
| FileOrder.SectionFirst | service/values_service.go:779-815 | A positioned section sorts before every row below it, overlay-only rows included |
| FileOrder.SectionTogether | service/values_service.go:779-815 | What sorts between two rows of a positioned section is in the section |
| FileOrder.NestingRespected | service/values_service.go:779-815 | In every sorted table a positioned section stands before all rows below it, and its rows stand together |
| FileOrder.BuiltPositions | service/values_service.go:685-764 | The positions built from a mapping with distinct keys are such as the nesting theorems need if and only if no key at its root is empty |
| Debouncing.Debouncer.Schedule | ui/async/debouncer.go:34-47 | Replaces the pending value and arms the timer |
| Debouncing.Debouncer.FlushEnter | ui/async/debouncer.go:53-72 | Takes the pending value unless a write is in flight |
| Debouncing.Debouncer.FlushExit | ui/async/debouncer.go:76-85 | Ends the write and re-arms the timer if a value is pending |
| Debouncing.Debouncer.StopEnter | ui/async/debouncer.go:93-116 | Stops the timer and takes the pending value unless a write is in flight |
| Debouncing.Debouncer.StopExit | ui/async/debouncer.go:120-122 | Ends the write and does not re-arm |
| Debouncing.OneWriterInOrder | ui/async/debouncer.go:34-123 | In every interleaving at most one write is in flight, and values are written in the order they were scheduled, each at most once |
| Debouncing.NoUpdateLost | ui/async/debouncer.go:34-86 | Without Flush a pending value always has a timer, a callback or a write to see to it; what is left to do is bounded; and when it is quiet the last value scheduled is the last written |
| Debouncing.QuietIsStuck | ui/async/debouncer.go:53-86 | When it is quiet, no step of the debouncer itself is left |
| Debouncing.FlushWritesExactly | ui/async/debouncer.go:88-123 | However the run goes on without a Schedule, the last value is written once no write is in flight, if and only if the Flush found no write in flight or nothing pending |
| Debouncing.FlushSkips | ui/async/debouncer.go:88-105 | A run: a value scheduled while the timer's write is on is still pending, and nothing written, when Flush has returned |
| Debouncing.StrandedExactly | ui/async/debouncer.go:93-123 | A newly scheduled value can be left pending for good if and only if a Flush's own write is in flight |
| Running.Runner.constructor | ui/async/runner.go:34-39 | The result channel holds at least one result |
| Running.Runner.Dispatch | ui/async/runner.go:64-85 | The new operation has a generation that no result in the channel has, and the one before is cancelled |
| Running.Runner.Poll | ui/async/runner.go:107-126 | What it returns is the oldest result, of the current generation, and no result left is newer |
| Running.DispatchedIsNew | ui/async/runner.go:77-80 | In every interleaving a dispatched operation has a generation that no worker, result or answer has |
| Running.ResultsMove | ui/async/runner.go:71-75 | A result once sent is taken out only by the drain of a dispatch, or by a Poll that finds it stale |
| Running.ReturnedIncreases | ui/async/runner.go:117-122 | No step lets Poll return anything but the current generation, and that once |
| Running.NewestKept | ui/async/runner.go:64-136 | No step drops the newest result, unless its operation was cancelled |
| Running.Delivery | ui/async/runner.go:64-136 | Over every interleaving Poll returns strictly newer generations, and the newest operation's result is never dropped unless that operation was cancelled |
| Running.NewestArrives | ui/async/runner.go:64-126 | A newest worker that wants to send is not kept waiting by stale results: polling alone lets it send, and the next Poll returns its result |
| Collapsing.VisibleRows | service/values_service.go:509-565 | Returns, in order, exactly the rows that no collapsed section above hides, with comments following their row |
| Collapsing.HiddenBelow | service/values_service.go:537-563 | However deep it is, a row hides if and only if a section above it is collapsed and it is not itself collapsed |
| Collapsing.CommentsFollow | service/values_service.go:520-535 | Comment rows show with the row they follow |
| Collapsing.AboveIs | service/values_service.go:571-597 | The sections opened for a row are exactly the containers of its path |
| Collapsing.CollapseState.OnCollapseToggle | ui/page/values_page_events.go:107-133 | Flips the key in the shown set and, during a search, in the snapshot |
| Collapsing.CollapseState.SyncSearchCollapseSnapshot | ui/page/values_page_events.go:140-157 | Takes the snapshot when a search starts and restores it when it ends |
| Collapsing.CollapseState.UncollapseMatchAncestors | service/values_service.go:571-597 | Opens exactly the sections above the matches, and says whether anything changed |
| Collapsing.CollapseState.JumpToFlatKey | ui/page/values_page_anchors.go:562-574 | Opens exactly the sections above the key |
| Collapsing.CollapseState.LoadState | ui/page/values_controller.go:908 | The loaded state replaces the shown set |
| Collapsing.CollapseState.Frame | ui/page/values_page.go:397-410 | A frame takes or restores the snapshot and opens the sections above the matches |
| Collapsing.MatchesVisible | service/values_service.go:571-597 | In every run, a frame of a search leaves every matched row visible |
| Collapsing.SearchLeavesNoTrace | ui/page/values_controller.go:837-843 | At every moment of every run the saved set is the initial one changed by the user's toggles, and by jumps and loads outside a search, alone |
| Collapsing.LoadKeptExactly | ui/page/values_controller.go:837-908 | A state that is loaded is what will be saved if and only if no search is on or it is what would have been saved anyway; else the end of the search discards it |
| Collapsing.ToggleKeepsIntent | ui/page/values_page_events.go:107-133 | In every run, a toggle during a search is saved as the user sees it if and only if the search had not opened that section |
| Collapsing.ClosedAgainOpens | ui/page/values_page_events.go:107-157 | A run: the search opens the section above its match, the user closes it, and after the search it is open |
| Nullifying.HasNullifiedAncestor | ui/state/editor_state.go:264-276 | Finds a nullified key on the chain of containers |
| Nullifying.ColumnState.MarkNullified | ui/state/values_state.go:198-208 | Adds the key, unless it is empty |
| Nullifying.ColumnState.IsNullifiedCovered | ui/state/values_state.go:220-226 | The key or one of its containers is nullified |
| Nullifying.ColumnState.ClearNullified | ui/state/values_state.go:231-241 | The key is covered no more, and exactly the keys on its chain are removed |
| Nullifying.CollectOverrides | ui/state/editor_state.go:97-259 | The rows' overrides in order and then null for the keys without a row, sorted; nothing if the first pass counts nothing |
| Nullifying.NullifiedOnce | ui/state/editor_state.go:97-259 | A nullified key that no other covers is saved as null exactly once, with its row's comment, a covered one not at all, and nothing below a nullified key is saved |
| Nullifying.EditedCellSaved | ui/state/editor_state.go:192-222 | A cell with a comment above a value saves exactly one override of its key: that value, split at an inline comment unless it is the loaded one, that comment and the row's type; an empty value only over an empty one, and nothing for a row without a value |
| Nullifying.UneditedCellSaved | ui/state/editor_state.go:175-190 | A cell as it was loaded saves exactly the loaded value, the row's comment and its type, whatever the value looks like |
| Nullifying.RowsAreSaved | ui/state/editor_state.go:134-141 | All overrides of the rows are saved if and only if there are none, or a key is nullified, or some row counts |
| Nullifying.CommentLikeValueDropped | ui/state/editor_state.go:127-141 | An unedited cell whose value is a `#` line is dropped when it stands alone |
| Comments.CleanCommentLines | service/comment_parser.go:284-317 | The loop computes the cleaned text, with inner blank lines kept or dropped |
| Comments.FormatHeadComment | service/yaml_serialize.go:804-823 | Every line gets its `#` |
| Comments.FormatLines | service/yaml_serialize.go:804-823 | Line by line a hash and a blank are put before the text, and a hash alone for none |
| Comments.CleanIsClean | service/comment_parser.go:284-317 | Cleaned text has trimmed lines and no blank one at either end |
| Comments.CleanFormat | service/comment_parser.go:140-160 | Cleaning undoes formatting if and only if the text is clean |
| Comments.CleanFormatCompact | service/comment_parser.go:284-317 | When blank lines are dropped, exactly the clean texts without blank lines come back |
| Comments.CleanFormatCleanAgain | service/comment_parser.go:140-160 | For every text, cleaning, formatting and cleaning again is cleaning |
| EditorText.LoadFormForEditor | ui/state/editor_state.go:284-302 | The comment's lines with `# ` before each, and then the value |
| EditorText.LoadFormShows | ui/state/editor_state.go:284-302 | Each line of the comment comes with `# ` before it, and the lines of the value follow |
| EditorText.StripYAMLComments | ui/state/editor_state.go:333-357 | Drops the blank and commented lines at the front |
| EditorText.ExtractLeadingComment | ui/state/editor_state.go:399-426 | Collects the text of the commented lines at the front |
| EditorText.ExtractIsLoadable | ui/state/editor_state.go:399-426 | What is extracted is always a comment that loading takes |
| EditorText.LoadedTextReadsBack | ui/state/editor_state.go:284-426 | Value and comment are recovered if and only if the comment's lines are trimmed, its first not empty, and the value could not be mistaken for more comment |
| Splicing.PlainScalarLineEnd | service/yaml_splice.go:84-101 | The value ends at the first blanks that lead to a `#`, else with the line |
| Splicing.SpliceScalarValue | service/yaml_splice.go:37-78 | Succeeds exactly if the edit fits, and then replaces that value's span in that line; else the text is as it was |
| Splicing.SpliceScalarValues | service/yaml_splice.go:18-35 | All edits in turn or none at all |
| Splicing.KeepsTheRestExactly | service/yaml_splice.go:37-78 | A splice puts the value in place of the scalar's text, as the parser delimits it, and keeps the rest of the file, if and only if the node's column is where that text starts and the text ends on its line with nothing but a comment behind it |
| Splicing.LinesSpliced | service/yaml_splice.go:18-35 | On distinct lines the edits apply all or none, each to its own line |
| Splicing.ScanReadsBack | service/yaml_splice.go:84-101 | The scan ends after a spliced value if and only if the value holds no comment and no trailing blank joins it to one |
| Splicing.OnlySpansChange | service/yaml_splice.go:18-78 | On distinct lines it succeeds exactly if every edit fits the original text, and then changes the texts of the edited scalars and nothing else if and only if every one of them starts at its node's column and ends on its line with nothing but a comment behind it |
| Splicing.OrderDoesNotMatter | service/yaml_splice.go:18-35 | On distinct lines the order of the edits makes no difference |
| Splicing.SplicedValueReadsBack | service/yaml_splice.go:37-101 | Where the rest is kept, the parser finds the new value as a plain scalar in its place if and only if it is plain text in that context and there was a text before or the place is set off; a second splice there then does the same |
| Splicing.SafeValueReadsBack | service/yaml_splice.go:37-120 | For values that the encoder leaves plain in a block, that is: no flow indicators in a flow collection, and no empty value right after its colon |
| Splicing.PlainInFlow | service/yaml_splice.go:103-120 | A text that is plain in a block, where the encoder tries it, is plain in a flow collection if and only if it has no flow indicators |
| Splicing.CommaEndsValue | service/yaml_splice.go:103-120 | In a flow mapping over several lines, writing `x, y` reads back as `x` |
| Splicing.EmptyValueJoins | service/yaml_splice.go:52-78 | In `a: # note`, writing 5 leaves `a:5 # note` |
| Splicing.SplicesUndone | service/yaml_splice.go:18-78 | Putting all old values back restores the text if and only if every new value was such |
| Splicing.FlowLosesTheRest | service/yaml_splice.go:68-75 | In `m: {a: 1, b: 2}`, writing 5 to `a` leaves `m: {a: 5` |
| Splicing.ContinuationStays | service/yaml_splice.go:68-75 | Writing `x` to a scalar that goes on in the next line leaves that line |
| Splicing.TrailingBlanksLost | service/yaml_splice.go:68-101 | Blanks at the end of the line are lost |
| Splicing.AnchorLost | service/yaml_splice.go:37-78 | In `a: &x 1`, `b: *x`, writing 5 to `a` takes the anchor away |
| Splicing.ColumnIsOffset | service/yaml_splice.go:52-78 | On a line of bytes, with a node that starts with its text, the splice at the parser's column keeps the rest if and only if the text before the value is ASCII and the scalar ends cleanly |
| Splicing.WideKey | service/yaml_splice.go:52-78 | With `é` as the key, writing 5 takes the blank after the colon away |
| BlankLines.InSortedRegion | service/yaml_blank_lines.go:344-356 | With its early exit, true exactly for the lines inside a region |
| BlankLines.File.CollectBlankRuns | service/yaml_blank_lines.go:97-150 | Each run of blank lines that a text line closes goes to the key that the line before the run declares, and to none if that declares none |
| BlankLines.RestoreBlankLines | service/yaml_blank_lines.go:22-86 | The lines of the result are those of the encoded text with the collected blank lines after each |
| BlankLines.OnlyBlanksAdded | service/yaml_blank_lines.go:71-85 | Whatever is inserted, the other lines stay as they are and in order |
| BlankLines.SurvivorsRestored | service/yaml_blank_lines.go:22-150 | From an encoding that drops the blank lines outside block scalars, exactly those come back that follow a keyed line and lead to a text line |
| BlankLines.FileRestored | service/yaml_blank_lines.go:22-150 | The file comes back byte for byte if and only if it ends in one newline, or in a block scalar, and every other such blank line is empty and survives |
| MissingLines.Job.CollectInsertions | service/yaml_substitute.go:263-288 | Each missing single-line key is to go after the encoded line of the last present key before it, or to the top |
| MissingLines.FillBuckets | service/yaml_substitute.go:297-300 | The buckets hold the insertions by line, in order |
| MissingLines.EmitBucket | service/yaml_substitute.go:304-310 | A bucket is emitted in order, but for lines outside the file |
| MissingLines.InsertMissingSourceLines | service/yaml_substitute.go:253-323 | The lines of the result are those of the plan |
| MissingLines.EachOnceInPlace | service/yaml_substitute.go:297-320 | The plan has every encoded line in order and every missing line exactly once, after its line and in the order of the source |
| MissingLines.DroppedLinesRestored | service/yaml_substitute.go:253-323 | If the encoder dropped some single-line keys and did nothing else, the result is the source, line for line |
| MissingLines.SourceOrder | service/yaml_substitute.go:253-323 | If the encoder kept the order of the keys, the result has all keyed lines in the order of the source |

## Left out

Operations and inputs:

- The YAML parser and encoder, Helm, files, Gio and the JSON store: nodes, maps from lines to keys, and lines and columns of scalars are inputs.
- `convertValue`, `SplitInlineComment`, `isYAMLPlainSafe` and the text of a value (`fmt.Sprintf`, `inferType`) are function parameters, so the theorems hold for every choice of them.
- `parseComments`: the comment of a row is taken to be the best one that `effectiveComments` reads at its path.
- `applyDocFoots`, `applySectionHeads`, encoding with document comments, and `FlatEntriesToYAML`, which takes over when the root is no mapping.
- `SetNodeAnchor` and `ClearNodeAnchor`, which write one field of the node that `Walk.ResolvePhysicalForMutation` finds; at an alias the former names the alias node itself.
- `planScalarSplice`, `lineToFlatKey`, `insertableSingleLineKeys`, `substituteBlockScalarRanges`, `substituteUnchangedLinesFromSource`, `blockScalarRegions` and `unescapeYAMLSupplementaryRunes`.
- `EnsurePath`, `MapSegments`, `ParentMapPath` and `LastSegment`: each joins or cuts a segment list that the key theorems already describe.
- Dialogs, layout, navigation, git, recent lists and diffs.
- The line passes return an encoded text that does not parse as it is; the model starts after that check.
- nil nodes inside `Content`, which the parser never makes; a nil root is covered where it means that nothing is found.
- Text is a sequence of characters.  The key walkers index bytes, which makes no difference since every byte they look for is ASCII; the splicer takes the parser's column, which counts characters, as an offset in bytes, and so does its model, whose lines may be read as bytes (Splicing.ColumnIsOffset).

Contracts weaker than the code's whole domain:

- AnchorEdits.DeleteAnchor: that no mention of the name is left is stated for anchors defined once; a second anchor of the name keeps its own.
- Reading.MappingValueWithMerge: what is found is stated for merge sources that are mappings or sequences of mappings, as the decoder demands of a file before it is shown; on others only that it terminates inside the graph. What the code would do with a list inside a merge list is in Lookup.NestedMergeListIsSearched.
- Upserting.UpsertPath: for a path with the name `<<` only which nodes may change and when it fails is stated, since such a key is appended anew each time and never found again; what existing aliases of a replaced anchored scalar read is what they read before, since they keep the old node.
- AliasKeys.AliasKeysAgree: the only statement about mappings whose keys are aliases; the other modules take graphs without them, since a document on which it fails is misread by every lookup.
- Patching.PatchNodeTree: that all entries are stored in the end is stated on documents without aliases and merge keys, for scalar entries none of which is above or below another; that nothing else is stored, on nested mappings, and with sequences for entries of scalars that are there (ListSaves.SaveStoresExactly). On other documents each entry reads back right after its turn (Patch.PatchEntry), but a later entry may write to a node that an earlier path reads through an alias.
- Patch.PatchEntry: that written comments are read back is stated right after their entry; no lemma carries it over the entries that follow.
- Splicing.SplicedValueReadsBack: what the parser finds is stated for the line of the value; that the next line does not continue it holds of the new value as of the old one, and is not part of this model.
- BlankLines.SurvivorsRestored: the lines of block scalars are taken to be in the encoded text, as an earlier pass puts them there; that a region takes the blank lines behind its text is a condition, met by `blockScalarRegions`.
- Running.Runner.Poll: the window is not redrawn in the model, and a panic in the operation is one of its results.
- MissingLines.Job.CollectInsertions: the sorted list of keyed source lines is an input, since the code gets it by sorting the keys of a map; a key has one line in the encoded text.
