# A verified model of the UIMA C++ CAS

UIMA C++ keeps the results of text analysis in a CAS: a typed heap of feature
structures, several views with indexes over it, and serializers that write the
whole of it and read it back. This project models the algorithms that hold a CAS
together and proves what they promise, for every type system, heap, index
definition, run and interleaving.

Code that updates its state step by step is modelled by classes and methods with
loops, each proved against a function or a relation on values; what the system
promises is then proved of those as lemmas. `dafny verify dfyconfig.toml` checks
the whole project.

## Components

- **Type system** (`TopologicalSort`, `TypeTree`, `TypeLayout`, `TypePriority`,
  `SiblingOrder`, `TypeSystem`). The type tree in its two forms, feature layout, type
  priorities that are kept acyclic, and commit, which turns them into one total order.
- **Type system tables** (`TypeSystemSerialization`). The tables of a committed
  type system, and their replay into another one.
- **Indexes** (`IndexComparator`, `KeyMeaning`, `HeapMeaning`, `IndexKeys`,
  `SingleIndex`, `CompositeIndex`, `IndexRepository`, `InsertionOrder`, `IndexRebuild`, `IndexedFSs`,
  `AnnotationIterators`). The comparator over several keys, the sorted vectors of
  exact types, the merged caches of types with subtypes and the sets that tell which
  caches are clean, indexes that are rebuilt and whose keys then change, the lists of
  indexed structures, and the annotation iterators on top.
- **Heap** (`CellHeap`, `FSHeap`, `ListFS`, `CloneFS`, `CloneMeaning`, `ListWalk`,
  `XmiLists`). The array
  of cells and its growth, structures as cells of a growing vector, linked lists that are changed in place, clones, walks along the
  tails of any heap, and lists as text.
- **Serializers** (`Blob`, `BlobLayout`, and `Xcas`, `XcasText`, `XcasWriter`,
  `XcasReader`, `XcasValues`, `XcasRoundTrip`, `XcasTransfer`, `XcasIndexes`). The packed blob, and the XCAS
  document: the tags and texts that are written, the events that a parser reports of
  them, and the CAS that is built from these, with its indexes.
- **Threads** (`ThreadAnnotator`). The hand-off between a caller and the worker
  thread that runs an annotator, as a system of steps.

What functions compute that both a program and its specification use is also said
without them, of cells, bytes, tables and pairs: in `SiblingOrder`, `KeyMeaning`,
`HeapMeaning`, `CloneMeaning`, `XcasValues` and `BlobLayout`.

The heap under an index is an argument or a field, so a run may create structures,
change cells that no key reads, reset the heap and use addresses again.

## What the code does not do

Where the code does not meet what one would expect of it, the model follows the code.
There is then an input at which the expected property fails and a lemma about all
inputs that says exactly when it holds.

- `remove` and the `add` for one index leave the clean sets alone, so the next iterator
  over a type with subtypes yields the old cache. For `remove` the iterator is right if
  and only if everything of that type in the index precedes the structure
  (`IndexRepository.RemoveIsNotSeen`, `IndexRepository.RemovedIsStillYielded`,
  `IndexRepository.AddToIndexIsNotSeen`).
- `OrderedSingleIndex::remove` erases the element at the lower bound without asking whether it
  is the structure or ties with it (`SingleIndex.RemovalIsExactIffFound`,
  `SingleIndex.RemovingAnAbsentStructure`).
- `SubIterator` skips its anchor once; moving back over it from the first structure yields
  what stands before the anchor (`AnnotationIterators.BackFromFirst`,
  `AnnotationIterators.BackToTheOutside`).
- The first call of a `ThreadAnnotator` hangs if its signal comes before the worker waits
  (`ThreadAnnotator.FirstCallCanHang`, `ThreadAnnotator.FirstSignalDecides`).
- `append` and `prepend` find out about a circle only if both lists start with the same
  node. Lists that share a later node become a ring (`ListFS.ListFS.Append`,
  `ListFS.AppendSharedNode`).
- `clone` to a type with which no feature is shared copies cells into unrelated features,
  because the number zero stands for all features (`CloneFS.CloneAs`, `CloneFS.NothingInCommon`,
  `CloneFS.IntegerAsFloat`). A copied cell that is no string reference may then be read as one.
- `getIndexedFSs` forgets to cut off what `std::unique` leaves behind, so structures that were
  added twice or are covered by two indexes leave a longer vector (`IndexedFSs.GetIndexedFSs`,
  `IndexedFSs.AddedTwice`).
- The reader of the index lists does not step over an empty base section, and then takes each
  list for that of the view before (`IndexedFSs.IndexListsReturn`, `IndexedFSs.ViewReadAsBase`).
- `deserializeBlob` rebuilds the indexes before it restores the heap of 64-bit numbers, so an
  index over a 64-bit key is sorted by the numbers of the previous document. Afterwards it is
  sorted if and only if each structure got a place among those listed before it that the new
  numbers accept (`InsertionOrder.SortedAgain`, `IndexRebuild.ChangeKeys`,
  `Blob.DeserializeBlob`); in a target that was reset, if and only if the numbers ascend along
  the list (`Blob.FreshTarget`, `Blob.TransferOutOfOrder`).
- A refused pair of types changes no pair, but it counts as a priority given by the user, and
  then commit merges in the pre-order. That can be seen if and only if nothing else was accepted
  and some type was created between a type and its subtype without being a subtype itself,
  which the built-in types always bring about (`TypePriority.RefusedPairIsSeen`,
  `TypeSystem.RefusedPairAlwaysSeen`).
- Writing an FS list as text ends if and only if the walk enters no ring of nodes that all have
  null heads, because only nodes with a head are remembered (`ListWalk.EndsUnlessNullRing`,
  `ListWalk.NodeOnItself`).
- An XCAS document with an empty array of bytes lacks the end of its start tag and the end tag,
  so it is not well-formed and cannot be read (`XcasTransfer.UnclosedFails`); every other
  document that is written can (`XcasTransfer.Transfer`).

## Model

| member | source | states |
|---|---|---|
| TopologicalSort.Sort | src/cas/lowlevel_typesystem.cpp:382-411 | For distinct nodes and edges over them the sort ends, is true if and only if the edges have no cycle, and then numbers the nodes along the order that takes the first node without an unplaced predecessor each time. |
| TopologicalSort.HasCycle | src/cas/lowlevel_typesystem.cpp:416-427 | True if and only if the edges have a cycle. |
| TopologicalSort.OrderRespectsEdges | src/cas/lowlevel_typesystem.cpp:382-411 | Such a numbering is a bijection from the nodes onto 0..n-1, and every edge goes from a smaller to a greater number. |
| TopologicalSort.GreedyOrderUnique | src/cas/lowlevel_typesystem.cpp:353-411 | There is only one such order, so nodes and edges determine the result of the sort. |
| TypeTree.SubsumesIsPartialOrder | src/cas/lowlevel_typesystem.cpp:482-495 | Subsumption is reflexive, antisymmetric and transitive on the types, and the top type subsumes every type. |
| TypeTree.SubsumesIsRootPath | src/cas/lowlevel_typesystem.cpp:482-495 | The recursion over the parent vector is true if and only if the first type is on the path from the second one to the top type. |
| TypeSystem.TypeSystem.FindInTree | src/cas/lowlevel_typesystem.cpp:466-480 | The search through the child lists finds a type if and only if it is subsumed according to the parent vector: the two forms of the tree agree. |
| TypeSystem.TypeSystem.GetMostSpecificCommonSupertype | src/cas/lowlevel_typesystem.cpp:686-697 | The climb ends, and returns the common supertype of the two types that every other common supertype subsumes. |
| TypeTree.CommonSupertypeSymmetric | src/cas/lowlevel_typesystem.cpp:686-697 | Most specific common supertypes of two types, in either order of the arguments, are the same type; with the row above the climb is symmetric in its arguments. |
| TypeSystem.TypeSystem.GetParentType | src/cas/lowlevel_typesystem.cpp:715-728 | Searching the child lists returns the entry of the parent vector, and the invalid type for the top type. |
| TypeSystem.TypeSystem.CreateTypeNoChecks | src/cas/lowlevel_typesystem.cpp:203-234 | Refuses exactly the names that are taken, and then changes nothing; otherwise the type is appended below its parent, and tree, names and priorities still agree. |
| TypeSystem.TypeSystem.CreateType | src/cas/lowlevel_typesystem.cpp:186-201 | Also refuses exactly the final built-in types as parents; every created type keeps the type system valid. |
| TypeSystem.TypeSystem.CreateStringSubtype | src/cas/lowlevel_typesystem.cpp:292-302 | The values are stored at a place of their own and only a type that was created refers to them. |
| TypeSystem.TypeSystem.CreateFeature | src/cas/lowlevel_typesystem.cpp:237-280 | Refuses exactly the types that cannot have features and names that the type or a supertype already has, and then changes nothing; otherwise appends the feature. |
| TypeSystem.TypeSystem.GetFeatureByBaseName | src/cas/lowlevel_typesystem.cpp:760-779 | Returns a feature of that name of the type or a supertype, and the invalid feature only if there is none. |
| TypeSystem.TypeSystem.AddTypePriority | src/cas/lowlevel_typesystem.cpp:430-457 | The stored pairs stay acyclic; a pair is accepted if and only if it closes no cycle, and a refused pair changes no pair. |
| TypePriority.OnlyOwnPairRefused | src/cas/lowlevel_typesystem.cpp:430-457 | The first pair is refused if and only if its types are the same. |
| TypeSystem.TypeSystem.CombineWithSiblingPriority | src/cas/lowlevel_typesystem.cpp:589-623 | The chain of the sibling-sorted pre-order is merged into the accepted pairs if all of them go forward in it, and left out otherwise. |
| TypePriority.ComputePreOrder | src/cas/lowlevel_typesystem.cpp:553-564 | Appends the pre-order of the subtree. |
| TypeTree.PreOrderIsEveryType | src/cas/lowlevel_typesystem.cpp:553-564 | The pre-order from the top type lists every type exactly once. |
| TypePriority.SiblingPreOrderUnique | src/cas/lowlevel_typesystem.cpp:566-623 | The sibling-sorted pre-order is determined by the tree and the accepted pairs. |
| SiblingOrder.PreOrderFollowsPair | src/cas/lowlevel_typesystem.cpp:589-604 | If a pair of siblings was accepted, the first one and all its subtypes stand before the second one and all its subtypes in the pre-order. |
| SiblingOrder.PreOrderPlaces | src/cas/lowlevel_typesystem.cpp:566-604 | Of any two types the first one stands before the other in the pre-order if and only if it is a supertype of the other, or the two lie under siblings of which its own comes first in the sorted order. |
| SiblingOrder.MergeAccepted | src/cas/lowlevel_typesystem.cpp:589-623 | The merge is accepted if and only if every accepted pair goes from a supertype down or follows the order of the siblings above its types. |
| SiblingOrder.MergeFollowsSiblings | src/cas/lowlevel_typesystem.cpp:566-623 | If every accepted pair is between siblings, goes down, or follows from a pair of siblings above, the merge is accepted, and in what commit numbers all siblings of accepted pairs stand with their subtypes in that order, and supertypes first. |
| TypePriority.PriorityListIsTotalOrder | src/cas/lowlevel_typesystem.cpp:625-639 | What the closure numbers is a list of all types, each once, in which every accepted pair goes forward. |
| TypePriority.ChainForcesForward | src/cas/lowlevel_typesystem.cpp:589-623 | Pairs that stay acyclic with the chain of a list all go forward in that list, so the merge is refused exactly if some accepted pair disagrees with the pre-order. |
| TypePriority.ChainFixesOrder | src/cas/lowlevel_typesystem.cpp:625-639 | Once the whole chain of a list is among the pairs, the sort can only give that list. |
| TypePriority.PreOrderIsCreationOrder | src/cas/lowlevel_typesystem.cpp:553-564 | The pre-order of the child lists is the order of creation if and only if every type that was created between another one and its subtype is a subtype of that one, too. |
| TypePriority.RefusedPairIsSeen | src/cas/lowlevel_typesystem.cpp:430-457 | A refused pair, with none accepted, leaves commit with the same priority list if and only if the pre-order is the order of creation; with some pair accepted the flag is set already, which is part of the invariant of the class. |
| TypeSystem.RefusedPairAlwaysSeen | src/cas/lowlevel_typesystem.cpp:430-457 | The pre-order of any type system with the built-in types is not the order of creation, so there the refused pair is always seen. |
| TypeSystem.TypeSystem.ComputeTypePriorityClosure | src/cas/lowlevel_typesystem.cpp:625-639 | The types are numbered along the priority list that tree, accepted pairs and the merge with the pre-order determine; for every accepted pair the first number is smaller, and if the pairs agree with the tree this holds for all below siblings of a pair. |
| TypeSystem.TypeSystem.ComputeApprop | src/cas/lowlevel_typesystem.cpp:498-530 | Every proper subtype of the type gets the number, the offsets and the row of its inherited and own features, and no entry of another type changes. |
| TypeSystem.TypeSystem.ComputeLayout | src/cas/lowlevel_typesystem.cpp:642-672 | The layout part of commit: in every type a feature has as its offset its place among the inherited and then the own features, the rows mark exactly the features of the type, and the offset table is the inverse. |
| TypeLayout.FeaturesAreInherited | src/cas/lowlevel_typesystem.cpp:498-530 | The features laid out for a type are exactly those that it or a supertype introduces, each once. |
| TypeLayout.SupertypeIsPrefix | src/cas/lowlevel_typesystem.cpp:498-530 | The layout of a supertype is a prefix of the layout of every subtype. |
| TypeLayout.OffsetsAreBijection | src/cas/lowlevel_typesystem.cpp:532-550 | Supplements TypeSystem.TypeSystem.ComputeLayout: in tables such as it builds, the offsets of a type are a bijection from its features onto 1..featureNumber, and the offset table is the inverse. |
| TypeLayout.LayoutDetermined | src/cas/lowlevel_typesystem.cpp:498-530 | Hierarchy and features determine the layout tables completely. |
| TypeSystem.TypeSystem.Commit | src/cas/lowlevel_typesystem.cpp:642-672 | A valid type system stays valid: layout tables, inverse table and a total numbering of the types, in which every accepted pair ascends, and, if the pairs agree with the tree, supertypes come first and siblings of a pair keep its order with all their subtypes. |
| TypeSystem.TypeSystem.Reset | src/cas/lowlevel_typesystem.cpp:828-835 | Whatever was there before, a valid type system with the built-in types and features and no priorities is left. |
| TypeSystemSerialization.SerializeTypeSystem | src/cas/internal_casserializer.cpp:112-240 | The tables describe a committed type system: parents, names, features, ranges, reference flags, value sets of the string subtypes, and the types in the order of their priority numbers. |
| TypeSystemSerialization.AddTypePriorities | src/cas/internal_casdeserializer.cpp:260-270 | All neighbours of a table of distinct types are accepted: the priority list is the chain of the table. |
| TypeSystemSerialization.CreateNewTypesAndFeatures | src/cas/internal_casdeserializer.cpp:274-355 | After a reset, the types, value sets and features of the tables are there with the same numbers. |
| TypePriority.ChainSurvivesMerge | src/cas/lowlevel_typesystem.cpp:589-639 | When the accepted pairs are the chain of a list of all types, merging in the sibling-sorted pre-order leaves that list as the order. |
| TypeSystemSerialization.DeserializeTypeSystem | src/cas/internal_casdeserializer.cpp:357-363 | Whatever the target held, afterwards it holds exactly what the tables describe, committed. |
| TypeSystemSerialization.RoundTrip | src/cas/internal_casdeserializer.cpp:357-363 | Writing a committed type system and replaying the tables into another one restores numbers, names, tree, features, ranges, flags, value sets, feature numbers, offsets, appropriateness and the numbering of the priorities, field by field, although commit runs the merge again. |
| IndexComparator.StrCompare | src/cas/lowlevel_indexcomparator.cpp:123-164 | The sign is the lexicographic order of the code units, also for strings that start at the same place, and zero only for equal strings. |
| IndexComparator.Compare | src/cas/lowlevel_indexcomparator.cpp:166-300 | 1, -1 or 0 if and only if the first key that differs, reversed or not, puts the first before or after the second, or no key differs. |
| IndexComparator.IsTotalPreorder | src/cas/lowlevel_indexcomparator.cpp:166-300 | For any list of integer, string, boolean, byte, short, long and type priority keys the comparator is a total preorder: asymmetric, transitive on not coming after, and ties exactly where neither precedes. |
| KeyMeaning.PriorityDecides | src/cas/lowlevel_indexcomparator.cpp:180-200 | If the keys before tie and the next is type priority, the structure of the type with the smaller number comes first, or last if the key is reversed; structures of one type tie. |
| KeyMeaning.NumbersDecide | src/cas/lowlevel_indexcomparator.cpp:205-249 | In the same way for integers, bytes and shorts: the smaller of the signed numbers that the low 32, 8 or 16 bits of the cells mean. |
| KeyMeaning.BooleansDecide | src/cas/lowlevel_indexcomparator.cpp:229-235 | In the same way for booleans: what is not 1 comes before 1. |
| KeyMeaning.LongsDecide | src/cas/lowlevel_indexcomparator.cpp:250-256 | In the same way for longs: the smaller of the numbers in the 64-bit heap, where an unset one reads as 10. |
| KeyMeaning.TextsDecide | src/cas/lowlevel_indexcomparator.cpp:220-228 | In the same way for strings: the lexicographically smaller of the units from the position on, as many as the length says. |
| KeyMeaning.LexIsByUnits | src/cas/lowlevel_indexcomparator.cpp:123-164 | Lexicographically less is a proper prefix, or what has the smaller unit where the two first differ. |
| KeyMeaning.AcceptedPairDecides | src/cas/lowlevel_indexcomparator.cpp:180-200 | With the numbers of commit and type priority as the first key, a structure of the first type of an accepted pair comes before every one of the second. |
| IndexKeys.KeyList.AddKey | src/cas/lowlevel_indexcomparator.cpp:79-121 | The new key reads the cell in which structures of the type keep the feature, in the way the range of the feature asks for; offset zero stands for type priority only. |
| IndexKeys.KeyReadsSameFeatureBelow | src/cas/lowlevel_indexcomparator.cpp:79-121 | A key for a type reads the same feature in structures of all subtypes. |
| IndexKeys.CommittedPrioritiesAreInjective | src/cas/lowlevel_typesystem.cpp:625-639 | After commit different types have different priority numbers, as the comparator needs. |
| IndexComparator.CompareWithoutEquality | src/cas/lowlevel_internal_indexes.cpp:373-388 | Orders by the comparator and then by address; zero only for the same structure. |
| IndexComparator.StrictlyBeforeIsStrictTotalOrder | src/cas/lowlevel_internal_indexes.cpp:373-388 | That is a strict total order on distinct structures which extends the comparator. |
| SingleIndex.OrderedSingleIndex.Add | src/cas/lowlevel_internal_indexes.cpp:630-649 | The structure is put at the end or at its lower bound, and the vector holds it once more and stays sorted. |
| SingleIndex.InsertionKeepsOrder | src/cas/lowlevel_internal_indexes.cpp:630-649 | Both ways of adding keep the order and add exactly one element. |
| InsertionOrder.FilledIsSorted | src/cas/lowlevel_internal_indexes.cpp:630-649 | Adding the structures of a list one by one gives a sorted vector of just these. |
| InsertionOrder.SortedAgain | src/cas/lowlevel_internal_indexes.cpp:630-649 | For any two comparators and any list, the vector that adding one by one gives under the first is sorted under the second if and only if each structure, when it is added, is not preceded there by one that it is put in front of and does not precede one that it is put behind. |
| SingleIndex.OrderedSingleIndex.Remove | src/cas/lowlevel_internal_indexes.cpp:651-657 | The element at the lower bound is erased, whatever it is. |
| SingleIndex.RemovalTakesLowerBound | src/cas/lowlevel_internal_indexes.cpp:651-657 | The order is kept; nothing is removed if and only if all elements precede the structure; otherwise one element is gone, the first that ties with it or, if none does, one that it precedes. |
| SingleIndex.RemovalIsExactIffFound | src/cas/lowlevel_internal_indexes.cpp:651-657 | Removing takes out exactly one occurrence of the structure if and only if `find` returns that structure. |
| SingleIndex.RemovingAnAbsentStructure | src/cas/lowlevel_internal_indexes.cpp:651-657 | An index and a structure not in it whose removal takes out another structure. |
| SingleIndex.OrderedSingleIndex.Find | src/cas/lowlevel_internal_indexes.cpp:590-600 | Returns the first element that ties with the structure, and the invalid structure if and only if none does. |
| SingleIndex.LowerBound | src/cas/lowlevel_internal_indexes.cpp:630-657 | Halving finds the place before which all elements precede the structure and from which on none does. |
| SingleIndex.IndexIterator.MoveTo | src/cas/lowlevel_internal_indexes.cpp:163-188 | Goes to the first occurrence of the structure itself, or else to its lower bound; at the end the iterator stays where it was. |
| CompositeIndex.SwapRemovesInversion | src/cas/lowlevel_internal_indexes.cpp:438-462 | Swapping two neighbours in the wrong order leaves exactly one inversion less. |
| CompositeIndex.BubbleSortIterators | src/cas/lowlevel_internal_indexes.cpp:438-462 | Ends, because inversions get fewer, with the same iterators in the order of their heads. |
| CompositeIndex.OrderedCompositeIndex.EmitRun | src/cas/lowlevel_internal_indexes.cpp:526-533 | Writes structures of the first iterator for as long as they come before the second, at least one, and leaves a merge of what has been taken. |
| CompositeIndex.OrderedCompositeIndex.FillByMerging | src/cas/lowlevel_internal_indexes.cpp:522-543 | Ends with a sorted interleaving of all components in which each keeps its order, and fills the cache exactly. |
| CompositeIndex.OrderedCompositeIndex.ClearAndFillCache | src/cas/lowlevel_internal_indexes.cpp:488-550 | Ends for any sorted components; the cache becomes a sorted interleaving of all of them that keeps the own order of each and has as many cells as they have together. |
| CompositeIndex.MergeKeepsElements | src/cas/lowlevel_internal_indexes.cpp:488-550 | A sorted interleaving holds every element of every component as often as they do. |
| IndexRepository.IndexRepository.Init | src/cas/lowlevel_indexrepository.cpp:75-144 | For every index definition a vector for each subtype and a composite index for each subtype with subtypes; nothing is indexed, and the invariant of the repository holds. |
| IndexRepository.CoversRootPath | src/cas/lowlevel_indexrepository.cpp:75-144 | An index covers exactly the types whose path to the top type goes through its own. |
| IndexRepository.IndexRepository.Add | src/cas/lowlevel_indexrepository.cpp:273-307 | The structure is added to every index that covers its type, all caches over it become dirty, and the invariant holds with one structure more. |
| IndexRepository.IndexRepository.IsDirtyForIndex | src/cas/lowlevel_indexrepository.cpp:325-340 | Dirty if and only if some type under the composite index does not list it as clean. |
| IndexRepository.IndexRepository.ClearDirtyFlagForIndex | src/cas/lowlevel_indexrepository.cpp:310-322 | The composite index is entered as clean for every type under it, and nothing else changes. |
| IndexRepository.IndexRepository.CreateIterator | src/cas/lowlevel_internal_indexes.cpp:246-255 | In every state of a run of add, reset, heap changes and iterators, an iterator yields, sorted by the comparator, exactly the structures added since the last reset whose type is subsumed, as often as they were added: caches and clean sets cannot be observed. |
| HeapMeaning.SortedByText | src/cas/lowlevel_indexcomparator.cpp:220-228 | In an index with one string key, over heaps that are read as they are, structures are sorted if and only if their texts ascend. |
| HeapMeaning.IterateByText | src/cas/lowlevel_internal_indexes.cpp:246-255 | Iterating over such an index of a valid repository yields what was added and is subsumed, by ascending texts. |
| IndexRepository.IndexRepository.Reset | src/cas/lowlevel_indexrepository.cpp:203-222 | Nothing is indexed any more and the invariant holds, even if the heap was replaced under the indexes before. |
| IndexRepository.IndexRepository.HeapChanged | src/cas/lowlevel_indexrepository.cpp:65-72 | Creating structures or writing cells keeps the invariant, as long as types and keys of what is indexed stay the same. |
| IndexRepository.IndexRepository.HeapReplaced | src/cas/lowlevel_indexrepository.cpp:65-72 | With any other heap under the indexes all that a reset needs is still in order. |
| IndexRebuild.Refill | src/cas/internal_casdeserializer.cpp:620-690 | A repository is emptied and gets the structures of a list; every vector then holds what adding those of its type one by one gives. |
| IndexRebuild.ChangeKeys | src/cas/internal_casdeserializer.cpp:901-940 | When the heap changes under a repository that was just refilled and types stay, it is valid over the new heap if and only if in every index every structure got a place that the new keys accept. |
| IndexRepository.HeldWasAdded | src/cas/lowlevel_indexrepository.cpp:273-307 | Whatever an index holds was added since the last reset. |
| IndexRepository.IndexRepository.Remove | src/cas/uima/lowlevel_indexrepository.hpp:266-278 | Each index that covers the type erases at the lower bound; no clean set changes. |
| IndexRepository.IndexRepository.AddToIndex | src/cas/uima/lowlevel_indexrepository.hpp:281-285 | Only the vector of that index and type gets the structure; no clean set changes. |
| IndexRepository.IndexRepository.RemoveFromIndex | src/cas/uima/lowlevel_indexrepository.hpp:287-291 | Only the vector of that index and type erases at the lower bound; no clean set changes. |
| IndexRepository.RemoveIsNotSeen | src/cas/uima/lowlevel_indexrepository.hpp:266-278 | After an iterator, a removal and another iterator the second yields the same as the first; it yields what the indexes hold if and only if every structure of that exact type in the index preceded the removed one. |
| IndexRepository.RemovedIsStillYielded | src/cas/uima/lowlevel_indexrepository.hpp:266-278 | A repository in which an iterator yields a structure that no index holds any more. |
| IndexRepository.AddToIndexIsNotSeen | src/cas/uima/lowlevel_indexrepository.hpp:281-285 | After an iterator and an addition to one index, the next iterator always lacks exactly the added structure. |
| IndexedFSs.GetIndexedFSs | src/cas/lowlevel_indexrepository.cpp:180-201 | In front stand the structures added since the last reset, ascending and without repeats; they are all that is returned if and only if none was added twice and none is covered by two indexes, because what `std::unique` leaves behind is not cut off. |
| IndexedFSs.AddedTwice | src/cas/lowlevel_indexrepository.cpp:180-201 | A repository to which one structure was added twice, and the longer vector that is returned. |
| IndexedFSs.UsedHoldCopies | src/cas/lowlevel_indexrepository.cpp:186-197 | The vectors of the used types hold every structure as often as it was added, times the number of indexes that cover its type. |
| IndexedFSs.Unique | src/cas/lowlevel_indexrepository.cpp:198-200 | On a sorted vector `std::unique` brings the ascending elements to the front, and keeps the length if and only if there are no repeats. |
| IndexedFSs.SortUnique | src/cas/internal_casserializer.cpp:479-486 | Sorting and dropping repeats gives the ascending list of the elements. |
| IndexedFSs.SerializeIndexedFSs | src/cas/internal_casserializer.cpp:423-488 | The number of views, then for the base and each view the length and the ascending list of what is indexed. |
| IndexedFSs.IndexListsReturn | src/cas/internal_casdeserializer.cpp:620-690 | The reader gets back the base list always, and all view lists if and only if the base list is not empty or all lists are empty; with an empty base list it reads each list as that of the view before. |
| IndexedFSs.ViewReadAsBase | src/cas/internal_casdeserializer.cpp:620-690 | With nothing in the base CAS the only structure of the only view is not read back. |
| IndexedFSs.DeserializeIndexedFSs | src/cas/internal_casdeserializer.cpp:620-690 | Repositories of any earlier document are emptied and filled with the lists read, views without structures are left alone, and each filled repository satisfies its invariant. |
| IndexedFSs.IndexedStructuresReturn | src/cas/internal_casdeserializer.cpp:620-690 | With a non-empty base list the base and each view are indexed as they were written; a view written empty comes back empty if and only if it was empty before. |
| AnnotationIterators.AnnotationIndexIsSortedByBegin | src/cas/cas.cpp:1452-1462 | In the order of the annotation index, positions below 2^31 are sorted by begin. |
| AnnotationIterators.PositionsAre | src/cas/cas.cpp:1298-1310 | Begin and end are the signed integers in the two cells; a negative one counts from the end of 64 bits. |
| AnnotationIterators.SubIterator.MoveToFirst | src/cas/cas.cpp:1452-1462 | Behind the anchor if it is in the index, or to its lower bound. |
| AnnotationIterators.SubIterator.MoveToLast | src/cas/cas.cpp:1486-1508 | Ends at the last structure that forward iteration yields, or nowhere if there is none. |
| AnnotationIterators.Traverse | src/cas/cas.cpp:1452-1473 | Forward iteration yields, in order and without gaps, exactly the structures that begin before the end position, from behind the anchor on or, if it is not in the index, from its lower bound on. |
| AnnotationIterators.BackFromFirst | src/cas/cas.cpp:1476-1484 | From the first structure, moving back is valid if and only if the structure before the anchor begins where the anchor does, and then goes to it. |
| AnnotationIterators.BackToTheOutside | src/cas/cas.cpp:1476-1484 | Three nested annotations and a sub-iterator that, moved back from its first structure, is valid at the one that encloses the anchor. |
| AnnotationIterators.PicksDoNotOverlap | src/cas/cas.cpp:1638-1649 | Structures that an unambiguous iteration yields do not overlap, near or far apart. |
| AnnotationIterators.TraverseUnambiguous | src/cas/cas.cpp:1632-1649 | Starts with the first structure, skips exactly those that begin before the end of the last one yielded, and yields no two that overlap. |
| AnnotationIterators.TraverseUnAmbiguousSub | src/cas/cas.cpp:1569-1604 | The same over the structures that the sub-iterator ranges over. |
| ThreadAnnotator.StepKeepsInv | scriptators/ThreadAnnotator.h:48-102 | Every step of either thread keeps the invariant that ties the places of both threads, the mutex, the shared fields and the calls so far. |
| ThreadAnnotator.RunsAreSafe | scriptators/ThreadAnnotator.h:48-102 | In every interleaving the two threads never touch the shared fields at once, each request is run once and in order, and each answer is the result of the run of its own request. |
| ThreadAnnotator.NoDeadlock | scriptators/ThreadAnnotator.h:97-102 | While a call is outstanding, destroy included, some step is possible. |
| ThreadAnnotator.EveryCallReturns | scriptators/ThreadAnnotator.h:129-172 | However the threads are scheduled, a call is over after at most 19 further steps, and its answer is what the annotator returned for this method and argument. |
| ThreadAnnotator.FirstSignalDecides | scriptators/ThreadAnnotator.h:51-54 | Before the first wait of the worker, the wait leads to the invariant and a signal to a state without return; no other step decides. |
| ThreadAnnotator.LostForever | scriptators/ThreadAnnotator.h:97-102 | From there no step leads out, no request can begin, and every step brings the standstill nearer. |
| ThreadAnnotator.FirstCallCanHang | scriptators/ThreadAnnotator.h:105-125 | A run from the constructor to a state in which neither thread can take a step. |
| FSHeap.CommittedSchemaIsOK | src/cas/lowlevel_typesystem.cpp:642-672 | The layout tables of a committed type system are what the heap needs. |
| CellHeap.CellHeap.IncreaseHeap | src/cas/uima/lowlevel_internal_heap.hpp:179-201 | With room behind the top only the top moves, otherwise the array is replaced by one of at least twice the size; either way the cells in front are the same and the new ones are zero, because nothing is written behind the top. |
| CellHeap.CellHeap.Reset | src/cas/uima/lowlevel_internal_heap.hpp:207-217 | Painting over the used cells leaves one zero cell and an array fit for the next increase; a heap with only its first cell keeps that cell as it is. |
| FSHeap.FSHeap.IncreaseHeap | src/cas/uima/lowlevel_internal_heap.hpp:179-201 | The same on the sequence of cells: appends zero cells and returns the first of them; no cell changes. |
| FSHeap.FSHeap.CreateFS | src/cas/uima/lowlevel_fsheap.hpp:259-285 | A new structure behind all others with all its features unset. |
| ListFS.ListIsAcyclic | src/cas/listfs.cpp:148-165 | A chain that ends visits no node twice. |
| CloneFS.HeadAndTail | src/cas/lowlevel_typesystem.cpp:96-106 | In the nodes of all four kinds of lists the cell of the feature head is in front of that of the feature tail, as the list operations suppose. |
| ListFS.ListIsUnique | src/cas/listfs.cpp:148-165 | The heap determines the nodes and the end of a chain. |
| ListFS.OtherListKept | src/cas/listfs.cpp:148-217 | A list none of whose cells changed has the same nodes and elements. |
| ListFS.ListFS.GetLength | src/cas/listfs.cpp:287-297 | The number of elements. |
| ListFS.ListFS.GetLastListElement | src/cas/listfs.cpp:148-165 | The last node, and the number of nodes before it. |
| ListFS.ListFS.AddFirst | src/cas/listfs.cpp:379-387 | The list becomes the element followed by the old list; no cell that was there changes. |
| ListFS.ListFS.AddLast | src/cas/listfs.cpp:397-414 | The list becomes the old list followed by the element, and keeps its end; at most the tail of the last node changes. |
| ListFS.ListFS.Append | src/cas/listfs.cpp:424-437 | Refused exactly when a non-empty list is appended to itself, and then nothing changes. Otherwise the list becomes the concatenation if the two share no node, and no list at all if they do; at most the tail of the last node changes. |
| ListFS.LinkingMakesRing | src/cas/listfs.cpp:203-217 | Linking lists that share a node makes a ring from which no chain ends. |
| ListFS.AppendSharedNode | src/cas/listfs.cpp:424-437 | In any heap two lists, the one a tail of the other, whose appending is not refused and leaves no list. |
| ListFS.ListFS.Prepend | src/cas/listfs.cpp:447-458 | As append, with the other list in front; an empty list in front changes nothing. |
| ListFS.ListFS.DeleteElementFromList | src/cas/listfs.cpp:503-518 | Behind a node of the list, takes out the first node with the element and makes it a list of its own, changing only that tail and the one before. |
| ListFS.ListFS.RemoveElement | src/cas/listfs.cpp:528-543 | Without the element nothing changes and no structure is returned; otherwise the list loses its first occurrence, and the node that held it is returned as a list of one element. |
| CloneFS.CopyFeatures | src/cas/lowlevel_fsheap.cpp:151-173 | The first features, or all for zero, are copied from any address, set strings through new references up to the first zero unit; no other cell changes. |
| CloneMeaning.CopiedFeature | src/cas/lowlevel_fsheap.cpp:151-173 | Of the features copied, one whose range is or is below the string type gets a new reference if it is set and keeps its cell if not, and any other gets the cell. |
| CloneFS.FreshCopyText | src/cas/lowlevel_fsheap.cpp:151-173 | The new reference reads as the same text if and only if that text has no zero unit in it and is followed by one or by the end of the heap. |
| CloneFS.Clone | src/cas/featurestructure.cpp:245-250 | A new structure of the same type with every feature kept, strings through references of their own. |
| CloneFS.CloneAs | src/cas/featurestructure.cpp:252-261 | If the most specific common supertype has a feature, every feature of it is kept and the others are unset; if it has none, all offsets of the new type are copied. |
| CloneMeaning.ClonedFeature | src/cas/featurestructure.cpp:245-261 | In the tables of a committed type system: every feature kept by a clone whose range has the string type on its path to the top type has a reference of its own, to the same text if that ends at its first zero unit; every other one has the same cell. |
| CloneFS.NothingInCommon | src/cas/featurestructure.cpp:252-261 | In the second case no copied value belongs to a feature that both types have. |
| CloneFS.IntegerAsFloat | src/cas/featurestructure.cpp:252-261 | An integer list node cloned to a float list node: the integer 7 becomes the bits of its head. |
| XmiLists.AtoiOfDecimal | src/cas/xmideserializer_handler.cpp:1123-1130 | Reading a written integer gives it back, and it contains no blank. |
| XmiLists.AtoiByDigits | src/cas/xmideserializer_handler.cpp:1123-1130 | Every digit counts ten times as much as the one behind it, and a minus sign negates. |
| XmiLists.Tokenize | src/cas/xmideserializer_handler.cpp:1058-1072 | The words between blanks. |
| XmiLists.WordsOfJoin | src/cas/xmideserializer_handler.cpp:1058-1072 | Splitting words that were joined by single blanks gives the words back. |
| XmiLists.IntListToString | src/cas/xmiwriter.cpp:1059-1087 | Ends for every heap, rings included, and for a list writes one word for each element, which reads as the signed number that its 32 bits mean. |
| XmiLists.CreateIntList | src/cas/xmideserializer_handler.cpp:1123-1130 | A list of the numbers that the words stand for, in order. |
| XmiLists.IntListRoundTrip | src/cas/xmideserializer_handler.cpp:1123-1130 | Writing any non-empty list of integers, splitting the text and building a list gives the same elements. |
| ListWalk.EndsUnlessNullRing | src/cas/xmiwriter.cpp:1114-1153 | From any address in any heap the walk ends if and only if it enters no ring of nodes that all have null heads. |
| ListWalk.NullRingNeverEnds | src/cas/xmiwriter.cpp:1114-1153 | Once in such a ring the walk goes on for ever. |
| ListWalk.NodeOnItself | src/cas/xmiwriter.cpp:1114-1153 | A heap with such a ring: one node without a head that is its own tail. |
| XmiLists.FSListToString | src/cas/xmiwriter.cpp:1114-1153 | Whenever the walk ends, rings with some head included, what is written is the text of the steps up to there; for a list that is one word for each head, which reads as its id, and as 0 for null. |
| XmiLists.FSListRoundTrip | src/cas/xmideserializer_handler.cpp:1141-1154 | For any list, null heads included, the rebuilt list holds the ids of the heads, in order, and 0 for null. |
| XmiLists.EnqueueFSListElements | src/cas/xmiwriter.cpp:1034-1056 | The walk along the tails ends for every heap, rings included, visits no node twice, and follows the non-null heads of the nodes visited. |
| XmiLists.WalkFollows | src/cas/xmiwriter.cpp:1034-1056 | On a list that walk visits the nodes of the list in order. |
| Blob.UnpackOfPack | src/cas/internal_casdeserializer.cpp:870-940 | Cells that were packed into bytes are read back, also in front of padding. |
| Blob.CASSerializer.GetBlobSize | src/cas/internal_casserializer.cpp:555-595 | Collects the lists of indexed structures and announces the number of bytes for them and all heaps. |
| Blob.CASSerializer.GetBlob | src/cas/internal_casserializer.cpp:598-686 | Writes nothing and returns zero if the announced size does not fit; otherwise the buffer holds key, version and the seven sections, and the size returned is the announced one. |
| Blob.ImageIsLaid | src/cas/internal_casserializer.cpp:598-686 | The sections end exactly at the announced size. |
| BlobLayout.ImageLayout | src/cas/internal_casserializer.cpp:598-686 | The bytes of a blob: the letters of the key, the version, and for each section its count and its cells, each with its lowest byte first, at their places up to the announced size. |
| Blob.LaidIsWritten | src/cas/internal_casserializer.cpp:640-681 | Every section can be found where it was laid out, and no byte before or behind them changed. |
| Blob.WrittenIsRead | src/cas/internal_casdeserializer.cpp:870-940 | Reading the sections gives the cells of each, followed by less than four bytes of padding. |
| Blob.DeserializeBlob | src/cas/internal_casdeserializer.cpp:837-944 | Accepts a blob if and only if key, version and first cells are right; then the heaps hold what is in the blob, all repositories read their cells, texts and longs from these heaps, each repository that got a list holds its structures, and it is valid over the restored heaps if and only if every place found by the old 64-bit numbers fits the new ones. |
| Blob.BlobReturns | src/cas/internal_casdeserializer.cpp:837-944 | The blob of any contents is accepted if and only if their first cells are zero; cells, string references, long heap and index list come back exactly, and the unit, byte and short heaps with at most 1, 3 and 1 cells of padding behind them. |
| Blob.TextsReturn | src/cas/internal_casdeserializer.cpp:880-899 | Every string reference stands for the same text afterwards. |
| Blob.KeysWithoutLongs | src/cas/internal_casdeserializer.cpp:901-940 | Without 64-bit keys the heaps that are restored after the indexes change no key. |
| Blob.NoLongsInOrder | src/cas/internal_casdeserializer.cpp:901-940 | Without 64-bit keys every place fits, whatever the old numbers were. |
| Blob.SettledWithoutLongs | src/cas/internal_casdeserializer.cpp:901-940 | So a rebuilt repository without 64-bit keys is valid over the restored heaps. |
| Blob.FreshTarget | src/cas/internal_casdeserializer.cpp:901-940 | If the 64-bit heap of the target was as after a reset, the places in an index over 64-bit numbers fit if and only if the numbers ascend along the list as it was read. |
| Blob.BlobTransfer | src/cas/internal_casdeserializer.cpp:837-944 | Announcing the size, writing, reading and rebuilding the indexes as one: it succeeds if and only if the blob fits and the first cells are zero. Then all heaps are back and are what the repositories read, the views hold what the reader of the index lists makes of them, and each repository that got a list is valid exactly under the condition above, without 64-bit keys always. |
| Blob.TransferOutOfOrder | src/cas/internal_casdeserializer.cpp:837-944 | A run of all that with two structures and an index over a 64-bit number that succeeds and leaves a repository that is not valid. |
| Xcas.ClosedContainsReachable | src/cas/xmlwriter.cpp:604-637 | A set that references do not leave holds everything its elements reach. |
| Xcas.ParsedOfPrinted | src/cas/xmlwriter.cpp:421-470 | A number that was written is read back. |
| XcasWriter.XCASWriter.FindReferencedFSs | src/cas/xmlwriter.cpp:604-637 | The recursion ends on every graph, cyclic or not; it adds only structures that the start leads to and leaves none of their references out. |
| XcasWriter.XCASWriter.EnqueueIndexed | src/cas/xmlwriter.cpp:711-732 | Enters the structure for a view, once, with all it leads to. |
| XcasWriter.EnqueuedIsReachable | src/cas/xmlwriter.cpp:639-694 | What is enqueued is exactly what indexed structures reach; each has as its list the views that index it, ascending and without repeats, and all its references are enqueued. |
| XcasWriter.XCASWriter.EnqueueViews | src/cas/xmlwriter.cpp:639-684 | The first phase of writing, over the iterators of the indexes of all views, leads to such a queue. |
| XcasWriter.XCASWriter.Write | src/cas/xmlwriter.cpp:639-694 | Writes one element for every structure that is reachable from an indexed one, ascending by address, with its views. |
| XcasValues.CellTextIs | src/cas/xmlwriter.cpp:421-470 | The text written for a cell reads as the signed number in its low 32, 16 or 8 bits, as 1 or 0, as the long or the address, or is the text itself. |
| XcasValues.DocumentTells | src/cas/xmlwriter.cpp:506-601 | A written document tells of every structure its number, its views, every feature that is set, under its name and with its value, no string or reference that is null, and every element of an array in order. |
| XcasReader.XCASDeserializerHandler.ReadFS | src/cas/xcasdeserializer_handler.cpp:331-507 | Creates the structure, sets its features from the attributes, and notes its number and its views. |
| XcasReader.XCASDeserializerHandler.ReadArrayFS | src/cas/xcasdeserializer_handler.cpp:509-569 | Creates the array of the given size, or fails for an attribute that arrays do not have. |
| XcasReader.XCASDeserializerHandler.AddArrayElement | src/cas/xcasdeserializer_handler.cpp:597-693 | Stores the element at the current position of the array, or fails if there is no more room. |
| XcasValues.TextIsStored | src/cas/xcasdeserializer_handler.cpp:750-797 | What any text stores in a cell: the low 32 bits of an integer, the low 8 bits of a byte with their sign, a short cut off at the ends of its range, and true for 1 alone. |
| XcasValues.TextIsStoredAside | src/cas/xcasdeserializer_handler.cpp:635-674 | The same for elements in the heaps of 8, 16 and 64 bits. |
| XcasReader.XCASDeserializerHandler.Parse | src/cas/xcasdeserializer_handler.cpp:131-273 | The events in order, up to the first error, as the state machine says. |
| XcasReader.XCASDeserializerHandler.FinalizeFS | src/cas/xcasdeserializer_handler.cpp:834-892 | Replaces exactly the reference cells of one structure by the places of what they name, nulls and unknown numbers staying, and adds it to its views. |
| XcasReader.XCASDeserializerHandler.EndDocument | src/cas/xcasdeserializer_handler.cpp:276-301 | The loop, whose bound grows because looking up a number enters it, ends and finishes every structure once. |
| XcasRoundTrip.StoredIsCopied | src/cas/xcasdeserializer_handler.cpp:705-831 | A cell that gets the written text of another has the same 32, 16 or 8 bits, is 1 if and only if the other is, or refers to the same text or to a 64-bit cell that is the same, and 10 for an unset one. |
| XcasRoundTrip.FeaturesAreRead | src/cas/xcasdeserializer_handler.cpp:331-507 | The attributes of a structure fill all features of the new one with copies. |
| XcasRoundTrip.ElementsAreRead | src/cas/xcasdeserializer_handler.cpp:571-693 | The elements of an array are read into their places, for arrays of 32-bit cells and in the 8-, 16- and 64-bit heaps. |
| XcasRoundTrip.NumberedIsIdentity | src/cas/xcasdeserializer_handler.cpp:381-425 | With Sofas numbered in order of appearance the mapping of view numbers is the identity. |
| XcasRoundTrip.StructureLoads | src/cas/xcasdeserializer_handler.cpp:313-507 | The events of any structure are accepted and build a copy of it, with its number and its views. |
| XcasText.StructureReported | src/cas/xmlwriter.cpp:506-601 | A parser reports the element of a structure as its start with the attributes, its items and its end, whatever text comes next. |
| XcasRoundTrip.BodyLoads | src/cas/xcasdeserializer_handler.cpp:131-273 | The body of a document is accepted if and only if it has no empty array of bytes, and then all structures are loaded. |
| XcasTransfer.UnclosedFails | src/cas/xmlwriter.cpp:537-549 | The text of an empty array of bytes, in front of any other tag, is refused in every state of the reader: its start tag is still open. |
| XcasTransfer.BodyReported | src/cas/xmlwriter.cpp:506-601 | Reading the written body is running the events of its structures, up to the first structure that is not closed. |
| XcasTransfer.LoadedCanFinish | src/cas/xcasdeserializer_handler.cpp:276-301 | Whatever was loaded from a written document meets what the end of a document needs: the new structures share no cell, and every view they name exists. |
| XcasTransfer.RenamingIsInjective | src/cas/xcasdeserializer_handler.cpp:276-301 | The map from old to new addresses is defined exactly on what was written, and injective. |
| XcasTransfer.LoadedIsRebuilt | src/cas/xcasdeserializer_handler.cpp:276-301 | Finishing rebuilds every structure: type, size, numbers and texts are the same, every reference and array element leads to the new place of what it led to, and null stays null. |
| XcasTransfer.ViewsReturn | src/cas/xcasdeserializer_handler.cpp:834-851 | A copy is added to a view once if the structure was indexed in it, and a Sofa once more to the base CAS; there are no other calls. |
| XcasTransfer.WrittenIsRebuilt | src/cas/xcasdeserializer_handler.cpp:276-301 | Reading a written document, from its start to its end, succeeds if and only if no reachable array of bytes is empty; then an injective renaming, defined exactly on what is reachable from indexed structures, rebuilds heap and views, each with the exact number of additions. |
| XcasTransfer.Transfer | src/cas/xmlwriter.cpp:639-694 | The same for the two objects: a writer over valid indexes, then a reader over any heap. |
| XcasIndexes.TransferIndexes | src/cas/xcasdeserializer_handler.cpp:834-851 | With the repositories of the target: each is valid over the new heap, reads its cells, texts and longs, and holds the renamed structures of its view, as often as they are added, so its iterators yield them in order. |

## Left out

- CloneFS.CloneAs: requires, when the two types have no feature in common, that the cells exist which the code then reads and that those read as strings are string references; the original takes whatever stands there.
- CloneFS.CopyFeatures: requires that the cells of the source exist, that those of string features are string references, and that none is overwritten before it is read; the original looks at none of this.
- XmiLists.FSListToString: requires that the walk ends, by ListWalk.EndsUnlessNullRing exactly that it enters no ring of null heads; the case with shared data, where a null head is written as a saved attribute or not at all, is not part of this model.
- XcasReader.XCASDeserializerHandler.EndDocument: requires structures that share no cell and views that exist; this is proved of every document that the writer writes, not of documents from elsewhere.
- XcasTransfer.Transfer: views other than the base CAS and the initial view need a Sofa in the document, numbered as in version 2; the order of the calls of `add` is not stated, only how often each comes.
- XcasTransfer.WrittenIsRebuilt: strings that are set but empty come back unset, texts with zero units are excluded, and integers, references and longs have to fit their 32 or 64 bits.
- Blob.FreshTarget: is about indexes all of whose keys are 64-bit numbers that are set; for other keys InsertionOrder.SortedAgain is the condition.
- Blob.DeserializeBlob: requires that the sections lie within the buffer and that the index list is well formed and names structures of valid types; the original does not look.
- IndexComparator.Compare: leaves out float and double keys.
- IndexedFSs.DeserializeIndexedFSs: requires a complete list of structures of valid types; the bookkeeping of Sofas and views that a CAS does at the same time is not part of this model.
- AnnotationIterators.Traverse: iterates over what the index held when the iterator was made; adding to the index meanwhile is not modelled.
- ThreadAnnotator.EveryCallReturns: supposes that the worker has reached its first wait and that no thread wakes up without a signal.
- ThreadAnnotator.FirstSignalDecides: the first wait is on a mutex that the worker does not own, which leaves the outcome undefined; it is taken to wait and to release nothing.
- XcasReader.XCASDeserializerHandler.ReadFS: leaves out `_content` attributes, the upkeep of document annotations and Sofas of version 1.
- Float and double: their keys, features, arrays and number formats are not part of this model.
- Integer widths: type and feature numbers, addresses and sizes are unbounded; signed readings of 8, 16, 32 and 64 bits are modelled where values are compared, written or read.
- Names: type and feature names are compared for equality only, so name syntax, prefixes and creator ids are left out.
- XML: documents are sequences of tags and texts, and well-formed as far as a start tag is finished before the next tag and before the end; escaping, encodings, the limit on the text of one `_indexed` attribute, whitespace between elements and the matching of end tags to start tags are left out.
- XCAS of version 1: document text elements, renumbered Sofas, `_content` attributes and the upkeep of document annotations are left out.
- Index kinds: set, FIFO and bag indexes, their composite indexes and iterators over sets of types are left out.
- Index keys: keys are fixed before indexes are built; adding keys later is left out.
- XMI: only lists as text; string and float lists, arrays, out-of-type-system data and remapping of list heads are left out.
- Byte order: blobs are read on machines of the order on which they were written; `swapBlob` is left out.
- Memory: reference counts, ownership, sizes of pages without any cell and exhausted memory are left out.
- Handles and wrappers (`FSIndex`, `FSIterator`, `Type`, `Feature`, filters), pools, scripting bridges, dynamic loading and logging would only add easy members.
