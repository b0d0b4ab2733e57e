# Verification of a descriptor index, an arena allocator and a packet codec

This Dafny project models the parts of the game server repository in which the
algorithms are: the protobuf runtime vendored under `Libraries/Include`, the
generated proto3 messages, and the packet framing built on them. It proves what
these parts are for. `dafny verify dfyconfig.toml` checks everything.

## What is modelled

**Descriptor databases.** `Names`, `Ordered` and `Descriptors` define symbol
names, ordered tables and files. `SimpleIndex` and `EncodedIndex` are the two
indexes as functions on values, `SimpleDatabase`, `EncodedDatabase` and
`MergedDatabase` the classes, each method tied to its function. `SymbolLookup`
turns the nine-step argument in the header into a proof, `SimpleRuns` is about
whole runs of Adds, `FileContents` and `FileAcceptance` about what an Add makes
known and which files are accepted, `SymbolOrder` about the two-part comparator,
`EncodedRefinement` shows that the encoded index refines the simple one,
`EncodedAcceptance` exactly which names they disagree about in each direction,
`EncodedContents` what an Add makes known there, `EncodedQuirks` what refused
duplicates leave behind, and `EncodedRuns` when the answers of an encoded index
fit together.

**Arenas.** A block is a range of bytes: header, data upwards, cleanup nodes
downwards. `SerialArena` has the functions, `SerialArenaRuns` the layout,
`SerialArenaCleanup` the node list, `SerialArenaHistory` the theorems over all
histories, `ArenaObjects` and `ObjectRuns` objects of any alignment,
`SerialArenaObject` the class. `ThreadSafeArena`, `ThreadSafeArenaRuns`,
`ThreadSafeArenaLives` and `ThreadSafeArenaObject` do the same for the list of
serial arenas with its initial block, Reset and destruction, with an account of
every block obtained from the allocator. `LifecycleIds` is about the ids that the thread caches are
keyed by. `ArenaSteps` is a step system of any number of threads and arenas, one
access to shared memory a step; `ArenaSafety` and `ArenaLifetimes` prove what
every interleaving keeps: the lists for ever, lookups and caches until ids come
back; `ArenaProgress` that a lookup let run ends, and with what. Freed addresses may be used again at once, and so may the thread-local
storage of a thread that has ended.

**Messages.** `Varint` and `VarintLoops` are the variable-length integers,
`WireFields` the unknown fields and groups, `Utf8` well-formed strings (sections
3 and 4 of RFC 3629). `Messages` is the generated code as one codec over a
description of the fields, `MessagesRoundTrip`, `Nesting`, `ParsePieces` and
`ParsedMessages` its theorems for all descriptions. `Protocol` has the seven
descriptions and the class `Player`, `Login` the class `S_LOGIN` with its nested
players, inner loop and cached sizes, `WireForms` the tags and bytes of each message.

**Packets.** `SendBuffers` are the chunks that send buffers are cut from,
`Packets` is the four-byte header, the handler table and dispatch of both sides,
`PacketStream` the receive buffer and the loop that cuts a stream into packets
again, `ProtoParser` the generator's parser, `Generated` its result for
Protocol.proto.

Block addresses, results of the block allocator, interleavings, spurious
failures of a weak compare-exchange, the answers of DataAvailable, the pieces in
which bytes arrive and what the interpreter takes for white space and upper case
are parameters, so that every theorem holds for all of them.

## Where the code differs from its comments

- The comment in AddSymbol says that the two neighbour tests protect the map
  invariant. Below the least key they do not: the search stops on that key and
  steps past it (`SymbolLookup.AddSymbolKeepsPrefixFree`).
- The encoded index tests tree and flat part each by itself, so that it accepts
  names that the simple index refuses, and refuses names that the simple index
  accepts, depending on when lookups happen (`EncodedAcceptance.IndexesDisagreeIff`,
  `EncodedAcceptance.EncodedCanAcceptMore`, `EncodedAcceptance.SimpleCanAcceptMore`).
- It inserts a duplicate file name or extension into its tree before it looks at
  the flat part, and the refused entry then answers
  (`EncodedQuirks.RefusedDuplicateAnswers`, `EncodedQuirks.RefusedExtensionAnswers`),
  which can part the answers for symbols from those for names
  (`EncodedRuns.RunAnswersFitIff`, `EncodedRuns.TakeoverCanPart`).
- SymbolCompare is not the order on full names for entries with empty symbols
  (`SymbolOrder.SymbolCompareIsLess`), and the set drops a symbol that is
  equivalent to one it holds (`EncodedQuirks.AcceptedSymbolIsDroppedIff`).
- FindAllExtensionNumbers starts at number 0, so negative numbers are not listed
  (`SimpleRuns.ExtensionNumbersAreExact`).
- The limit of a later block is not masked to 8, but CleanupList masks it
  (`SerialArenaCleanup.CleanupOnceInReverse`).
- AllocationPolicy::IsDefault compares the start size with the default maximum
  (`ThreadSafeArenaLives.IsDefaultIsRightIff`).
- The last 64-bit id with its tag is the value of an unused thread cache
  (`ArenaLifetimes.LastIdMatchesNewThread`).
- The comment on next_lifecycle_id masks with kPerThreadIds - 1; the code, which
  is followed here, masks with twice that less one.
- MakeSendBuffer cuts both sizes to 16 bits, and chunks are smaller than what 16
  bits allow (`Packets.FrameIsWhole`); the table has no entry for the id 65535
  (`Packets.OutsideTableIff`, `PacketStream.StreamLeavesTableIff`).
- OnRecv hands on a packet however short its size field says it is, and the id is
  read from behind it. It does not get past a header of size 0
  (`PacketStream.EndlessIffEmptyPacket`).

## Model

| member | source | states |
|---|---|---|
| Names.BetweenParentAndChild | Libraries/Include/google/protobuf/descriptor_database.h:246-258 | steps 5 to 8 of the informal proof: a valid name that sorts between a parent and one of its children is itself a child of that parent |
| Names.SubSymbolIsAtMost | Libraries/Include/google/protobuf/descriptor_database.cc:187-191 | a parent never sorts after its children |
| Names.SubSymbolIsDotted | Libraries/Include/google/protobuf/descriptor_database.cc:184-191 | a name is at or below another exactly if it is that one, or that one followed by a dot and more |
| Names.LessIsLexicographic | Libraries/Include/google/protobuf/descriptor_database.cc:168-173 | strings are compared where they part, byte by byte |
| Names.ValidNamesAreSpelled | Libraries/Include/google/protobuf/descriptor_database.cc:151-162 | valid names are those spelled with letters, digits, underscores and periods |
| SymbolLookup.FindLastIsLast | Libraries/Include/google/protobuf/descriptor_database.cc:168-173 | the search stops at the greatest key not above the argument, whenever there is one |
| SymbolLookup.FoundKeyIsBelowMatch | Libraries/Include/google/protobuf/descriptor_database.h:233-258 | without the map invariant: if some key matches the query, the found key is that key or one of its children |
| SymbolLookup.LookupIsSoundAndComplete | Libraries/Include/google/protobuf/descriptor_database.cc:297-305 | with valid, prefix-free keys, FindSymbol answers every query with the unique key that equals it or is its dotted parent, and with the default value exactly when there is none |
| SymbolLookup.SpoilerHidesParent | Libraries/Include/google/protobuf/descriptor_database.cc:297-305 | if one key is a parent of another, some name under the parent is not found |
| SymbolLookup.LookupIsCompleteIffPrefixFree | Libraries/Include/google/protobuf/descriptor_database.h:216-265 | the map invariant is exactly what makes lookup complete |
| SymbolLookup.RelatedKeysAreNeighbours | Libraries/Include/google/protobuf/descriptor_database.cc:227-232 | every parent of a new name is a parent of the found key, and if it has children the next key is one |
| SymbolLookup.AddSymbolDecidesAllKeys | Libraries/Include/google/protobuf/descriptor_database.cc:195-250 | the two neighbour tests accept a valid name exactly when no key at all equals it, is its parent or is its child, if the least key is not above the name |
| SymbolLookup.AddSymbolBelowLeastKey | Libraries/Include/google/protobuf/descriptor_database.cc:168-173 | below the least key, acceptance tests all keys but the least one, and the least key is never a parent of the name |
| SymbolLookup.AddSymbolAcceptsIff | Libraries/Include/google/protobuf/descriptor_database.cc:195-250 | with the map invariant, a name is accepted exactly if it is valid and the only related key, if any, is the least key, with the name below it |
| SymbolLookup.AddSymbolAcceptsExactly | Libraries/Include/google/protobuf/descriptor_database.cc:195-250 | with or without the map invariant: a valid name is let in exactly if the greatest key at most the name neither equals it nor is its parent, and no key but the least is its child |
| SymbolLookup.AddSymbolKeepsOrder | Libraries/Include/google/protobuf/descriptor_database.cc:246-249 | an accepted name is inserted in order, a refused one changes nothing, and an existing key is never accepted |
| SymbolLookup.AddSymbolKeepsPrefixFree | Libraries/Include/google/protobuf/descriptor_database.cc:195-250 | an accepted name keeps the map prefix-free if and only if it is not a parent of the least key sorting below it; the only related pair that can arise is the name and the old least key |
| SymbolLookup.ParentCanEnterBelowItsChild | Libraries/Include/google/protobuf/descriptor_database.cc:210-240 | for every child name and every parent of it, adding them in this order to an empty map is accepted twice and breaks the invariant and a lookup |
| Ordered.FindIsExact | Libraries/Include/google/protobuf/descriptor_database.cc:291-295 | FindWithDefault finds exactly the entries present |
| Ordered.InsertIfNotPresentKeeps | Libraries/Include/google/protobuf/descriptor_database.cc:119-122 | InsertIfNotPresent succeeds exactly for a new key, keeps the order, and changes no other answer |
| Ordered.MergeHasBoth | Libraries/Include/google/protobuf/descriptor_database.cc:803-811 | std::merge of tree and flat part has exactly the entries of both |
| Ordered.MergeKeepsOrder | Libraries/Include/google/protobuf/descriptor_database.cc:803-811 | the merged table is strictly ascending |
| Ordered.InsertThenMerge | Libraries/Include/google/protobuf/descriptor_database.cc:803-811 | inserting before or after a merge gives the same table |
| Descriptors.ExtLessIsStrictTotalOrder | Libraries/Include/google/protobuf/descriptor_database.h:214 | pairs of extendee and number are strictly and totally ordered |
| SimpleRuns.AddSymbolKeepsAnswers | Libraries/Include/google/protobuf/descriptor_database.cc:195-250 | once a query is answered, no further AddSymbol changes the answer, whether or not the map is prefix-free |
| SimpleRuns.RefusedIfBetween | Libraries/Include/google/protobuf/descriptor_database.cc:219-225 | an accepted name at most the query sorts below the found key: names in between are refused |
| SimpleRuns.RunKeepsAnswers | Libraries/Include/google/protobuf/descriptor_database.cc:117-147 | answers for files, symbols and extensions are stable over every sequence of Adds, accepted, refused or partial |
| SimpleRuns.AcceptedFileIsIndexed | Libraries/Include/google/protobuf/descriptor_database.cc:117-147 | after an accepted Add the file is found by its name and by what each call made for it stores |
| FileContents.CallsAreContents | Libraries/Include/google/protobuf/descriptor_database.cc:130-145 | AddFile makes one call for each message, enum, extension and service that the file declares and for each extension it has, nested at any depth, and no other |
| FileContents.AcceptedFileIsFound | Libraries/Include/google/protobuf/descriptor_database.cc:116-147 | after an accepted Add the file is found by its name, by every name it declares, with the package and a dot in front, and by every extension of an absolute type, at top level or in a message or a type nested in it at any depth |
| FileContents.NothingElseIsAdded | Libraries/Include/google/protobuf/descriptor_database.cc:116-147 | and nothing else gets into the tables, whether the Add is accepted or refused, nor does anything get lost |
| FileAcceptance.FileIsAcceptedIff | Libraries/Include/google/protobuf/descriptor_database.cc:116-147 | if no declared name is a parent or child of another one or of a symbol in the index, a file is accepted exactly if its name is new, its declared names are valid, new and pairwise different, and so are the keys of its absolute extensions |
| SimpleRuns.FoundFilesAreBound | Libraries/Include/google/protobuf/descriptor_database.cc:117-147 | over every run of Adds, a file found by symbol or extension is the one bound to its own name |
| SimpleRuns.NumbersFromAreExact | Libraries/Include/google/protobuf/descriptor_database.cc:321-325 | from any position the loop lists, ascending, exactly the numbers stored for the type |
| SimpleRuns.ExtensionNumbersAreExact | Libraries/Include/google/protobuf/descriptor_database.cc:314-328 | the numbers listed are strictly ascending and exactly those with a lookup, except that negative ones are skipped |
| SimpleDatabase.DescriptorIndex.constructor | Libraries/Include/google/protobuf/descriptor_database.h:212-214 | a new index is empty |
| SimpleDatabase.DescriptorIndex.AddSymbol | Libraries/Include/google/protobuf/descriptor_database.cc:195-250 | result and new map are those of the specification function |
| SimpleDatabase.DescriptorIndex.AddExtension | Libraries/Include/google/protobuf/descriptor_database.cc:266-289 | result and new map are those of the specification function |
| SimpleDatabase.DescriptorIndex.AddNestedExtensions | Libraries/Include/google/protobuf/descriptor_database.cc:252-264 | the recursive loops add nested extensions first and stop at the first refusal |
| SimpleDatabase.DescriptorIndex.AddMessages | Libraries/Include/google/protobuf/descriptor_database.cc:130-134 | the message loop of AddFile as a prefix of all additions |
| SimpleDatabase.DescriptorIndex.AddSymbols | Libraries/Include/google/protobuf/descriptor_database.cc:135-137 | the enum and service loops of AddFile |
| SimpleDatabase.DescriptorIndex.AddTopExtensions | Libraries/Include/google/protobuf/descriptor_database.cc:138-141 | the extension loop of AddFile |
| SimpleDatabase.DescriptorIndex.AddFile | Libraries/Include/google/protobuf/descriptor_database.cc:116-147 | result and whole new index, partial additions of a refused file included |
| SimpleDatabase.DescriptorIndex.FindFile | Libraries/Include/google/protobuf/descriptor_database.cc:291-295 | the answer of the specification |
| SimpleDatabase.DescriptorIndex.FindSymbol | Libraries/Include/google/protobuf/descriptor_database.cc:297-305 | the answer of the specification |
| SimpleDatabase.DescriptorIndex.FindAllExtensionNumbers | Libraries/Include/google/protobuf/descriptor_database.cc:314-328 | the loop appends exactly the numbers of the specification |
| SymbolOrder.SymbolCompareIsLess | Libraries/Include/google/protobuf/descriptor_database.cc:485-520 | the two-part comparator equals the order on full names except on exactly one kind of pair, with an empty symbol |
| SymbolOrder.SymbolCompareIsLessOnNames | Libraries/Include/google/protobuf/descriptor_database.cc:485-520 | with non-empty symbols it equals that order for every mix of entries and strings |
| SymbolOrder.EquivalentIffCollides | Libraries/Include/google/protobuf/descriptor_database.cc:485-520 | two different names are equivalent to the comparator exactly if they are such a pair |
| EncodedRefinement.AddSymbolRefines | Libraries/Include/google/protobuf/descriptor_database.cc:691-728 | a symbol both indexes accept leaves the encoded tables rendering to the simple map |
| EncodedRefinement.AddSymbolInserts | Libraries/Include/google/protobuf/descriptor_database.cc:691-728 | a symbol the encoded index accepts is inserted in order, whether or not the simple index would accept it |
| EncodedRefinement.AddFileRefines | Libraries/Include/google/protobuf/descriptor_database.cc:623-661 | so does a whole file |
| EncodedRefinement.EnsureFlatRefines | Libraries/Include/google/protobuf/descriptor_database.cc:813-819 | merging into the flat vectors changes nothing the simple index can see |
| EncodedRefinement.SameAnswers | Libraries/Include/google/protobuf/descriptor_database.cc:770-863 | related indexes answer every file, symbol, extension and number query alike |
| EncodedRefinement.PlayRefines | Libraries/Include/google/protobuf/descriptor_database.cc:623-863 | the relation survives every sequence of accepted Adds and of lookups |
| EncodedRefinement.EncodedRefinesSimple | Libraries/Include/google/protobuf/descriptor_database.cc:623-863 | after every run of Adds that both accept, with lookups interleaved anyhow, both databases answer alike |
| EncodedQuirks.MergePrefersTree | Libraries/Include/google/protobuf/descriptor_database.cc:803-811 | after a merge, a key in both parts is answered by the tree entry |
| EncodedQuirks.RefusedDuplicateAnswers | Libraries/Include/google/protobuf/descriptor_database.cc:636-643 | a refused Add of a known file name takes over the lookup of that name if the first file had already been merged |
| EncodedQuirks.RefusedExtensionAnswers | Libraries/Include/google/protobuf/descriptor_database.cc:742-768 | the same for a refused duplicate extension: the lookup gives the file being added unless the first entry is still in the tree |
| EncodedQuirks.MergeDoubles | Libraries/Include/google/protobuf/descriptor_database.cc:803-811 | a key in the flat part that gets into the tree as well is doubled by the merge, the tree's entry first |
| EncodedQuirks.RefusedExtensionIsListedTwice | Libraries/Include/google/protobuf/descriptor_database.cc:821-845 | after such a refusal the list of extension numbers is the old one with that number twice, unless it is negative |
| EncodedQuirks.AcceptedSymbolIsDroppedIff | Libraries/Include/google/protobuf/descriptor_database.cc:691-728 | an accepted symbol does not get into the set exactly if the entry before its place is equivalent to it, although the names differ |
| EncodedAcceptance.EncodedAcceptsSymbol | Libraries/Include/google/protobuf/descriptor_database.cc:691-728 | while the map is prefix-free, the encoded index accepts every symbol the simple one accepts |
| EncodedAcceptance.EncodedAcceptsFile | Libraries/Include/google/protobuf/descriptor_database.cc:623-661 | the same for files |
| EncodedAcceptance.EncodedAcceptsIff | Libraries/Include/google/protobuf/descriptor_database.cc:691-728 | whatever was added before, the encoded index accepts a valid name exactly if tree and flat part each let it in, and the simple index exactly if the whole map does |
| EncodedAcceptance.PartsLetInMoreIff | Libraries/Include/google/protobuf/descriptor_database.cc:663-689 | of any sorted table in two parts: both parts let a name in that the whole does not exactly if a child of the name, the least key of one part, has a smaller key in the other |
| EncodedAcceptance.WholeLetsInMoreIff | Libraries/Include/google/protobuf/descriptor_database.cc:663-689 | and the whole lets a name in that a part does not exactly if the greatest key at most the name in that part equals it or is its parent |
| EncodedAcceptance.IndexesDisagreeIff | Libraries/Include/google/protobuf/descriptor_database.cc:691-728 | exactly when the encoded index accepts a symbol that the simple one refuses, and exactly when the simple one accepts a symbol that the encoded one refuses, in every pair of related states |
| EncodedAcceptance.ThirdIsAcceptedIff | Libraries/Include/google/protobuf/descriptor_database.cc:691-728 | after Add, lookup, Add a third name is tested against each of the two by itself |
| EncodedAcceptance.EncodedCanAcceptMore | Libraries/Include/google/protobuf/descriptor_database.cc:623-661 | the first is reached by a run of Add, lookup, Add for all unrelated names a below b: any parent of b is then accepted by the encoded and refused by the simple index |
| EncodedAcceptance.SimpleCanAcceptMore | Libraries/Include/google/protobuf/descriptor_database.cc:623-661 | the second is reached by Add of b, lookup, Add of a parent of b, which both accept: any later unrelated child of that parent is then accepted by the simple and refused by the encoded index |
| EncodedRuns.CoherentAnswersFit | Libraries/Include/google/protobuf/descriptor_database.cc:770-863 | in an encoded index whose entries are all listed under the names of their files, a file found by symbol or extension is the file found under its name |
| EncodedRuns.AddFileIsCoherent | Libraries/Include/google/protobuf/descriptor_database.cc:623-661 | an Add keeps this, accepted, refused or refused half-way, unless it takes over a merged name |
| EncodedRuns.RunAnswersFit | Libraries/Include/google/protobuf/descriptor_database.cc:623-863 | so over every run of Adds and lookups in which no Add takes over a merged name |
| EncodedRuns.AcceptedRunAnswersFit | Libraries/Include/google/protobuf/descriptor_database.cc:623-863 | in particular over every run whose Adds are accepted |
| EncodedRuns.TakeoverAnswers | Libraries/Include/google/protobuf/descriptor_database.cc:636-643 | a takeover is refused, changes the answer under the one name, and no other answer |
| EncodedRuns.TakeoverAnswersFit | Libraries/Include/google/protobuf/descriptor_database.cc:636-643 | and the answers still fit together exactly if no symbol or extension is answered with another file of that name |
| EncodedRuns.TakeoverCanPart | Libraries/Include/google/protobuf/descriptor_database.cc:636-643 | which a run of three calls violates, for every message name and any two files of one name |
| EncodedRuns.NameGivesOwner | Libraries/Include/google/protobuf/descriptor_database.cc:636-643 | over every run, takeovers included, a name gives the file of the latest Add, refused or not, that was the first one under that name since the start or a lookup |
| EncodedRuns.TakesOverIff | Libraries/Include/google/protobuf/descriptor_database.cc:636-643 | after every run, an Add takes over a name exactly if the name was added before, but not since the last lookup |
| EncodedRuns.RunAnswersFitIff | Libraries/Include/google/protobuf/descriptor_database.cc:623-863 | after every run the answers fit together exactly if every file that a symbol or extension is answered with is still the one that the calls leave under its name |
| EncodedContents.EncodedSymbolsAreFound | Libraries/Include/google/protobuf/descriptor_database.cc:623-661 | after an accepted Add to the encoded index every name the file declares gives the file, and the symbol table has exactly these new entries |
| EncodedContents.EncodedExtensionsAreFound | Libraries/Include/google/protobuf/descriptor_database.cc:623-661 | and so do its own name and its absolute extensions, nested at any depth; the answer for every other name and extension is what it was |
| EncodedContents.RunIsSound | Libraries/Include/google/protobuf/descriptor_database.cc:623-863 | the tables are in order after every run of Adds, accepted, refused or refused half-way, and lookups |
| EncodedContents.AcceptedFileIsFoundAfterRun | Libraries/Include/google/protobuf/descriptor_database.cc:623-863 | so after every such run an accepted Add makes the whole file known |
| EncodedDatabase.DescriptorIndex.constructor | Libraries/Include/google/protobuf/descriptor_database.cc:464-550 | a new index is empty |
| EncodedDatabase.DescriptorIndex.AddSymbol | Libraries/Include/google/protobuf/descriptor_database.cc:691-728 | result and new state are those of the specification: both parts are tested, then the tree grows unless it holds an equivalent entry |
| EncodedDatabase.DescriptorIndex.AddExtension | Libraries/Include/google/protobuf/descriptor_database.cc:742-768 | result and new state are those of the specification: tree first, flat part after |
| EncodedDatabase.DescriptorIndex.AddNestedExtensions | Libraries/Include/google/protobuf/descriptor_database.cc:730-740 | result and new state are those of the specification: as the recursive loops do |
| EncodedDatabase.DescriptorIndex.AddMessages | Libraries/Include/google/protobuf/descriptor_database.cc:645-648 | result and new state are those of the specification: message loop of AddFile |
| EncodedDatabase.DescriptorIndex.AddSymbols | Libraries/Include/google/protobuf/descriptor_database.cc:649-651 | result and new state are those of the specification: enum and service loops |
| EncodedDatabase.DescriptorIndex.AddTopExtensions | Libraries/Include/google/protobuf/descriptor_database.cc:652-655 | result and new state are those of the specification: extension loop |
| EncodedDatabase.DescriptorIndex.AddFile | Libraries/Include/google/protobuf/descriptor_database.cc:623-661 | result and new state are those of the specification: whole new index, the pushed value and partial additions included |
| EncodedDatabase.DescriptorIndex.EnsureFlat | Libraries/Include/google/protobuf/descriptor_database.cc:813-819 | result and new state are those of the specification: all three tables are merged |
| EncodedDatabase.DescriptorIndex.FindSymbol | Libraries/Include/google/protobuf/descriptor_database.cc:770-774 | result and new state are those of the specification: flattens, then answers as specified |
| EncodedDatabase.DescriptorIndex.FindFile | Libraries/Include/google/protobuf/descriptor_database.cc:853-863 | result and new state are those of the specification: flattens, then answers as specified |
| MergedDatabase.SimpleFitsTogether | Libraries/Include/google/protobuf/descriptor_database.cc:291-305 | a coherent simple index finds each found file under its own name |
| MergedDatabase.EncodedFitsTogether | Libraries/Include/google/protobuf/descriptor_database.cc:770-863 | so does an encoded index after every run in which no Add takes over a merged name |
| MergedDatabase.AcceptedRunIsReachable | Libraries/Include/google/protobuf/descriptor_database.cc:623-661 | which all runs of accepted Adds are |
| MergedDatabase.FirstContainingFits | Libraries/Include/google/protobuf/descriptor_database.cc:963-1005 | what the layered search finds, the layered lookup by name finds too |
| MergedDatabase.MergedFileIff | Libraries/Include/google/protobuf/descriptor_database.cc:953-961 | a merged database gives a file for a name exactly if some source does and no earlier one has a file of that name |
| MergedDatabase.MergedSearchIff | Libraries/Include/google/protobuf/descriptor_database.cc:963-1005 | it gives a file for a symbol or extension exactly if some source does, no earlier source answers the query, and none has a file of that name |
| MergedDatabase.EveryDatabaseFitsTogether | Libraries/Include/google/protobuf/descriptor_database.cc:953-1005 | for databases merged to any depth, of simple ones after any Adds and encoded ones after any Adds that take over no merged name: a file found by symbol or extension is the file found under its name |
| MergedDatabase.MergedNumbersAreUnion | Libraries/Include/google/protobuf/descriptor_database.cc:1007-1027 | merged extension numbers are the strictly ascending union of those of the sources |
| MergedDatabase.MergedDescriptorDatabase.constructor | Libraries/Include/google/protobuf/descriptor_database.cc:943-950 | the sources in order |
| MergedDatabase.MergedDescriptorDatabase.FindFile | Libraries/Include/google/protobuf/descriptor_database.cc:953-961 | the first source that has the file answers |
| MergedDatabase.MergedDescriptorDatabase.FindContaining | Libraries/Include/google/protobuf/descriptor_database.cc:963-1005 | the first source that finds the symbol or extension decides, and an earlier file of the same name hides it |
| MergedDatabase.MergedDescriptorDatabase.FindAllNumbers | Libraries/Include/google/protobuf/descriptor_database.cc:1007-1027 | the loop computes the ascending union |
| SerialArenaRuns.OneNewBlockSuffices | Libraries/Include/google/protobuf/arena.cc:134-147 | the fallback allocates at most one block and its second attempt always finds room; the state and region served |
| SerialArenaRuns.NewBlockKeepsLayout | Libraries/Include/google/protobuf/arena.cc:149-169 | a new block keeps the layout of all blocks |
| SerialArenaRuns.BumpKeepsLayout | Libraries/Include/google/protobuf/arena_impl.h:151-163 | taking bytes from the bottom and nodes from the top keeps data inside, 8-aligned and pairwise disjoint |
| SerialArenaRuns.ServeKeepsLayout | Libraries/Include/google/protobuf/arena_impl.h:179-199 | every aligned request keeps the layout |
| SerialArenaCleanup.ServeKeepsList | Libraries/Include/google/protobuf/arena_impl.h:179-199 | every request keeps the stored nodes equal to the registrations, newest first |
| SerialArenaCleanup.BlockCallsAreNodes | Libraries/Include/google/protobuf/arena.cc:183-191 | in one block CleanupList calls every node, or misses the only one if the block is passed over |
| SerialArenaCleanup.CleanupOnceInReverse | Libraries/Include/google/protobuf/arena.cc:179-194 | CleanupList calls each registered cleanup once in reverse order if and only if no later block holds a single node while its size is no multiple of 8 |
| SerialArenaHistory.NextSizeIsWhole | Libraries/Include/google/protobuf/arena.cc:57-68 | after a size that is a multiple of 4, with a maximum that is a multiple of 8, the next block size is a multiple of 8 |
| SerialArenaHistory.HistoryIsRequests | Libraries/Include/google/protobuf/arena_impl.h:151-199 | what was handed out is what was requested: no request lost, reordered or cut short |
| SerialArenaHistory.FirstRequestIsPlaced | Libraries/Include/google/protobuf/arena_impl.h:118-176 | the first request goes behind the 24 bytes of the header and the 56 of the arena, its cleanup node of 16 bytes to the top of the block |
| SerialArenaHistory.RunKeepsAll | Libraries/Include/google/protobuf/arena.cc:134-169 | layout, node list and accounts hold after every history of requests |
| SerialArenaHistory.EverythingIsApart | Libraries/Include/google/protobuf/arena.cc:108-169 | after every history data regions, cleanup nodes, headers and the embedded SerialArena are pairwise disjoint, inside their blocks, with ptr at most limit |
| SerialArenaHistory.NodesAreAligned | Libraries/Include/google/protobuf/arena.cc:164 | nodes are 8-aligned while block sizes stay multiples of 8 |
| SerialArenaHistory.SpaceIsConserved | Libraries/Include/google/protobuf/arena.cc:171-177 | SpaceUsed is always the sum of the bytes requested, SpaceAllocated the sum of the block sizes |
| SerialArenaHistory.BlockSizesGrow | Libraries/Include/google/protobuf/arena.cc:53-77 | over every history each block is at least twice the one before up to the maximum, and larger only for a request that needs it |
| SerialArenaHistory.SpaceIsAmortized | Libraries/Include/google/protobuf/arena.cc:53-77 | whatever the requests and limits, all blocks but the newest hold at most twice the data and cleanup bytes consumed |
| SerialArenaHistory.CleanupsRunOnceInReverse | Libraries/Include/google/protobuf/arena.cc:179-194 | with a first size that is a multiple of 4 and a maximum that is a multiple of 8, each cleanup runs exactly once in reverse order, over every history |
| SerialArenaHistory.CleanupsRunUnlessPassedOver | Libraries/Include/google/protobuf/arena.cc:179-194 | for every policy and history: a cleanup is missed exactly when a block is passed over |
| SerialArenaHistory.CleanupCanBeMissed | Libraries/Include/google/protobuf/arena.cc:183-187 | with a maximum block size of 132 the only cleanup of the second block is never called |
| ArenaObjects.AlignToIsLeast | Libraries/Include/google/protobuf/arena.h:96-100 | AlignTo gives the least aligned address not below its argument |
| ArenaObjects.ObjectFits | Libraries/Include/google/protobuf/arena.h:517-537 | an object of any power-of-two alignment is aligned and inside what was reserved for it, and the reserved size is a multiple of 8 |
| ArenaObjects.ReservedIsLeast | Libraries/Include/google/protobuf/arena.h:517-537 | and no smaller multiple of 8 would do at every place |
| ArenaObjects.ObjectIsServed | Libraries/Include/google/protobuf/arena.h:517-537 | AllocateInternal is one request to the serial arena, with the cleanup registered for the aligned address; so the results on histories cover objects |
| ObjectRuns.CreateIsRun | Libraries/Include/google/protobuf/arena.h:517-537 | making any objects is a history of requests, with each destructor registered for its object |
| ObjectRuns.ObjectsArePlaced | Libraries/Include/google/protobuf/arena.h:517-537 | after every sequence of objects of any sizes, alignments and destructors: each is aligned, inside one block, and apart from all other objects, cleanup nodes and headers |
| ObjectRuns.DestructorsRunOnceInReverse | Libraries/Include/google/protobuf/arena.cc:179-194 | with a first size that is a multiple of 4 and a maximum that is a multiple of 8, each destructor is called once with its object, last object first |
| SerialArenaObject.SerialArena.constructor | Libraries/Include/google/protobuf/arena.cc:108-120 | the arena inside its own first block |
| SerialArenaObject.SerialArena.AllocateNewBlock | Libraries/Include/google/protobuf/arena.cc:149-169 | whole new state as specified |
| SerialArenaObject.SerialArena.AllocateAligned | Libraries/Include/google/protobuf/arena_impl.h:151-163 | region and state as specified, through the fallback |
| SerialArenaObject.SerialArena.MaybeAllocateAligned | Libraries/Include/google/protobuf/arena_impl.h:166-177 | succeeds exactly if there is space, and otherwise changes nothing |
| SerialArenaObject.SerialArena.AllocateAlignedWithCleanup | Libraries/Include/google/protobuf/arena_impl.h:179-192 | region, node slot and state as specified |
| SerialArenaObject.SerialArena.AddCleanup | Libraries/Include/google/protobuf/arena_impl.h:194-199 | an owned request of no bytes |
| SerialArenaObject.SerialArena.Free | Libraries/Include/google/protobuf/arena.cc:122-132 | the loop deallocates every block but the first, newest first, and returns the first |
| SerialArenaObject.SerialArena.CleanupList | Libraries/Include/google/protobuf/arena.cc:179-194 | the loops over blocks and nodes make exactly the specified calls |
| SerialArenaObject.SerialArena.CleanupBlock | Libraries/Include/google/protobuf/arena.cc:183-191 | the inner loop over one block |
| SerialArenaObject.SerialArena.SpaceUsed | Libraries/Include/google/protobuf/arena.cc:171-177 | the value of the specification |
| ThreadSafeArenaRuns.FreeLeavesFirst | Libraries/Include/google/protobuf/arena.cc:122-132 | SerialArena::Free gives up every block but the first |
| ThreadSafeArenaRuns.FreeVisitsAllBlocks | Libraries/Include/google/protobuf/arena.cc:309-317 | Free visits each block of each serial arena once and holds back the first block of the last |
| ThreadSafeArenaRuns.FreeAllIsExact | Libraries/Include/google/protobuf/arena.cc:281-307 | every live block is returned exactly once, nothing else is, and the user-owned block never |
| ThreadSafeArenaRuns.AllocateKeeps | Libraries/Include/google/protobuf/arena.cc:432-456 | a request by any thread keeps blocks, space and registrations accounted for |
| ThreadSafeArenaRuns.InitializeFromKeeps | Libraries/Include/google/protobuf/arena.cc:217-226 | initialization from a block of any size establishes the invariant |
| ThreadSafeArenaRuns.InitializeWithPolicyKeeps | Libraries/Include/google/protobuf/arena.cc:228-259 | so does initialization with a policy, for which there is always room in the first block |
| ThreadSafeArenaLives.ConstructKeeps | Libraries/Include/google/protobuf/arena_impl.h:256-272 | every constructor establishes the invariant |
| ThreadSafeArenaLives.ResetKeeps | Libraries/Include/google/protobuf/arena.cc:319-352 | Reset returns what SpaceAllocated was, reports it, keeps the user block and policy, and leaves at most the initial block |
| ThreadSafeArenaLives.DestroyReturnsAll | Libraries/Include/google/protobuf/arena.cc:288-307 | after destruction no block is left and none was returned twice; the collector gets the space allocated |
| ThreadSafeArenaLives.LifeKeepsInv | Libraries/Include/google/protobuf/arena.cc:281-352 | at every point of every life: live blocks are the arena's but the user's, SpaceUsed is accounted for, and no thread has two serial arenas |
| ThreadSafeArenaLives.LifeServesRequests | Libraries/Include/google/protobuf/arena_impl.h:296-330 | SpaceUsed is the sum of what the steps requested since the last Reset; each thread that requested something has a serial arena, with its cleanups in the order registered |
| ThreadSafeArenaLives.UserBlockIsUsedIff | Libraries/Include/google/protobuf/arena.cc:217-259 | a user's block is used exactly if it has 80 bytes, or 120 if a policy is to be stored, and nothing is allocated then |
| ThreadSafeArenaLives.LifeKeepsSettings | Libraries/Include/google/protobuf/arena.cc:319-352 | the policy in use and the use of the user's block never change |
| ThreadSafeArenaLives.LifeFirstSizes | Libraries/Include/google/protobuf/arena.cc:53-70 | at every point of every life the first block of every serial arena has the start size of the policy, 256 without one, or what is needed if that is more; or it is the user's block |
| ThreadSafeArenaLives.ResetCleansUpOnce | Libraries/Include/google/protobuf/arena.cc:427-429 | Reset and destruction call every cleanup registered since the last Reset exactly once, per thread in reverse order |
| ThreadSafeArenaLives.ConstructIsWhole | Libraries/Include/google/protobuf/arena_impl.h:256-272 | the constructors start with such blocks, given such sizes |
| ThreadSafeArenaLives.LifeStaysWhole | Libraries/Include/google/protobuf/arena.cc:57-68 | start sizes that are multiples of 4 and a maximum that is a multiple of 8 keep every block of every life one that CleanupList walks in full |
| ThreadSafeArenaLives.IsDefaultIsRightIff | Libraries/Include/google/protobuf/arena_impl.h:104-108 | IsDefault tells the default policy from others for exactly the policies other than the default and the one with start size 8192; a constructor stores every policy but the latter |
| ThreadSafeArenaLives.IsDefaultMistakesStartSize | Libraries/Include/google/protobuf/arena_impl.h:104-108 | so the default policy is stored, and a policy with start size 8192 is dropped for one with 256 |
| ThreadSafeArenaObject.ThreadSafeArena.constructor | Libraries/Include/google/protobuf/arena_impl.h:256-272 | state as specified, by the test IsDefault |
| ThreadSafeArenaObject.ThreadSafeArena.InitializeFrom | Libraries/Include/google/protobuf/arena.cc:217-226 | a block too small is ignored |
| ThreadSafeArenaObject.ThreadSafeArena.InitializeWithPolicy | Libraries/Include/google/protobuf/arena.cc:228-259 | state and heap as specified |
| ThreadSafeArenaObject.ThreadSafeArena.GetSerialArena | Libraries/Include/google/protobuf/arena.cc:432-450 | the search loop, and a new serial arena in front if it fails |
| ThreadSafeArenaObject.ThreadSafeArena.Allocate | Libraries/Include/google/protobuf/arena.cc:374-386 | whole new state as specified |
| ThreadSafeArenaObject.ThreadSafeArena.SpaceAllocated | Libraries/Include/google/protobuf/arena.cc:409-416 | the loop sums all serial arenas |
| ThreadSafeArenaObject.ThreadSafeArena.SpaceUsed | Libraries/Include/google/protobuf/arena.cc:418-425 | the sum, less the stored policy |
| ThreadSafeArenaObject.ThreadSafeArena.CleanupList | Libraries/Include/google/protobuf/arena.cc:427-429 | all serial arenas in list order |
| ThreadSafeArenaObject.ThreadSafeArena.Free | Libraries/Include/google/protobuf/arena.cc:309-317 | the loop with the pending block |
| ThreadSafeArenaObject.ThreadSafeArena.Drop | Libraries/Include/google/protobuf/arena.cc:324-348 | what Reset and destruction share |
| ThreadSafeArenaObject.ThreadSafeArena.Reset | Libraries/Include/google/protobuf/arena.cc:319-352 | new state and returned space as specified |
| ThreadSafeArenaObject.ThreadSafeArena.Destroy | Libraries/Include/google/protobuf/arena.cc:288-307 | new state as specified |
| LifecycleIds.NewIdIsFresh | Libraries/Include/google/protobuf/arena.cc:261-279 | an id handed out is even and differs from all before it, until all batches are used |
| LifecycleIds.IdsAreDistinct | Libraries/Include/google/protobuf/arena.cc:261-279 | over every interleaving all ids are even, and pairwise distinct if and only if at most 2 to the 55 batches were fetched |
| LifecycleIds.FetchCovers256 | Libraries/Include/google/protobuf/arena_impl.h:423-430 | each fetch covers exactly 256 ids of its thread |
| LifecycleIds.IdsAreBelowLast | Libraries/Include/google/protobuf/arena.cc:261-279 | ids stay below the last one of 64 bits while a batch is left |
| ArenaSafety.MatchingCacheIsMine | Libraries/Include/google/protobuf/arena_impl.h:381-392 | a thread cache that matches an arena's id, tagged or not, holds the thread's own serial arena in its list, unless the tag is the value of an unused cache |
| ArenaSafety.SearchFits | Libraries/Include/google/protobuf/arena.cc:433-439 | each step of the owner search fits the invariant: what it has passed belongs to others, whatever is pushed meanwhile |
| ArenaSafety.PushKeepsLists | Libraries/Include/google/protobuf/arena.cc:447-451 | a successful compare-exchange keeps every list linked, without cycle, with one node a thread |
| ArenaSafety.WriteCacheKeepsLists | Libraries/Include/google/protobuf/arena_impl.h:355-358 | writing the thread cache keeps the lists |
| ArenaSafety.StoreHintKeepsLists | Libraries/Include/google/protobuf/arena_impl.h:362 | storing the hint keeps the lists |
| ArenaSafety.AdvanceKeepsLists | Libraries/Include/google/protobuf/arena.cc:432-456 | every step of any thread keeps the lists, whatever the ids |
| ArenaSafety.EndsWithMine | Libraries/Include/google/protobuf/arena_impl.h:365-392 | where a lookup ends it has the thread's own serial arena, unless the arena's tag is the value of an unused cache |
| ArenaSafety.AdvanceKeepsInv | Libraries/Include/google/protobuf/arena.cc:432-456 | every step of any thread keeps lists, caches and finished lookups right |
| ArenaLifetimes.InitializeKeepsInv | Libraries/Include/google/protobuf/arena.cc:261-286 | so does construction, whose new id no cache has |
| ArenaLifetimes.DestroyKeepsInv | Libraries/Include/google/protobuf/arena.cc:288-307 | so does destruction: no other list, matching cache or thread needs the nodes freed |
| ArenaLifetimes.ResetIsDestroyAndConstruct | Libraries/Include/google/protobuf/arena.cc:319-352 | Reset is destruction followed by construction in the same place |
| ArenaLifetimes.NewThreadKeepsInv | Libraries/Include/google/protobuf/arena.cc:207-214 | so does a new thread at the address of one that has ended: it takes over that one's serial arenas, and its empty cache matches no id |
| ArenaLifetimes.RunKeepsLists | Libraries/Include/google/protobuf/arena.cc:432-456 | the lists are sound in every reachable state of any interleaving over any number of threads and arenas, however many ids were used |
| ArenaLifetimes.RunKeepsInv | Libraries/Include/google/protobuf/arena_impl.h:355-392 | the whole invariant holds in every reachable state with at most 2 to the 55 batches of ids fetched |
| ArenaLifetimes.LookupIsRight | Libraries/Include/google/protobuf/arena_impl.h:365-392 | an operation returns only the serial arena in this arena's present list owned by the caller, the one the slow search finds: with at most 2 to the 55 batches fetched, in every arena whose tag is not the value of an unused cache |
| ArenaLifetimes.NoLastIdWhileBatchLeft | Libraries/Include/google/protobuf/arena.cc:261-279 | no arena has that tag while a batch is left |
| ArenaLifetimes.StaleEntriesNeverMatch | Libraries/Include/google/protobuf/arena_impl.h:355-392 | under the same conditions a cache entry that would match is the answer of the slow search |
| ArenaProgress.OperationEndsAtDone | Libraries/Include/google/protobuf/arena_impl.h:365-392 | an operation is left only from where it has its answer, and by its own thread |
| ArenaProgress.OperationsAnswer | Libraries/Include/google/protobuf/arena.cc:432-456 | so every operation that is over has given the serial arena that the slow search finds |
| ArenaProgress.LookupEnds | Libraries/Include/google/protobuf/arena.cc:432-456 | from every reachable state a thread inside an operation that runs alone is done after at most eleven steps more than the list is long: with its serial arena and the list as it was if it has one in the list, and with a new one of its own in front of the list if it has none |
| ArenaProgress.AnswerIsKept | Libraries/Include/google/protobuf/arena_impl.h:355-363 | where a lookup ends its answer is in hint_ or in the thread cache under the arena's id, and in both after a search or a push |
| ArenaProgress.InitialIsKept | Libraries/Include/google/protobuf/arena.cc:281-286 | a new arena with an initial block has the serial arena in it as its list, as hint_, and in the thread cache |
| ArenaLifetimes.ListsAreSound | Libraries/Include/google/protobuf/arena.cc:432-456 | in every reachable state the pointers visit exactly the list, without a cycle, with at most one serial arena a thread, and a hint is the answer of the slow search of its owner |
| ArenaLifetimes.ListOnlyGrows | Libraries/Include/google/protobuf/arena.cc:447-451 | until Reset or destruction the old list is always a suffix of the new one |
| ArenaLifetimes.LastIdMatchesNewThread | Libraries/Include/google/protobuf/arena.cc:207-214 | a run of all 2 to the 63 ids reaches an arena with that tag, and a lookup by a new thread that ends with a null serial arena |
| ArenaLifetimes.IdThatComesBackMatches | Libraries/Include/google/protobuf/arena_impl.h:381-392 | a run with one batch more reaches a lookup that ends with a freed serial arena |
| Varint.Varint64RoundTrip | Libraries/Include/google/protobuf/parse_context.cc:387-397 | reading gives back any 64-bit value and leaves what follows; at most ten bytes |
| Varint.TagRoundTrip | Libraries/Include/google/protobuf/parse_context.cc:399-408 | the same for 32-bit tags, at most five bytes |
| Varint.SizeRoundTrip | Libraries/Include/google/protobuf/parse_context.cc:410-428 | the same for sizes up to INT_MAX less the slop bytes |
| Varint.ReadIff | Libraries/Include/google/protobuf/parse_context.cc:387-408 | a value is read exactly if one of the first ten bytes is below 128, a tag if one of the first five is |
| Varint.SizeIsReadIff | Libraries/Include/google/protobuf/parse_context.cc:410-428 | a size is read exactly if it is at most INT_MAX less 16 |
| Varint.VarintSizeIsLength | Libraries/Include/google/protobuf/io/coded_stream.h:1688-1696 | the size computed from the logarithm is the encoded length, for every 64-bit value |
| VarintLoops.UnsafeVarint | Libraries/Include/google/protobuf/io/coded_stream.h:905-929 | the write loop leaves exactly the encoding in the buffer |
| VarintLoops.OneStep | Libraries/Include/google/protobuf/parse_context.cc:390-391 | adding the byte less one, shifted, cancels the top bit of the byte before, modulo 32 or 64 bits |
| VarintLoops.ReadVarint | Libraries/Include/google/protobuf/parse_context.cc:387-397 | the loop of wrapping sums computes the value of the groups of seven bits |
| VarintLoops.VarintParse | Libraries/Include/google/protobuf/parse_context.h:518-533 | reads as the specification, ten bytes at most |
| VarintLoops.ParseTag | Libraries/Include/google/protobuf/parse_context.h:542-557 | reads as the specification, five bytes at most |
| VarintLoops.ParseSize | Libraries/Include/google/protobuf/parse_context.cc:410-428 | reads as the specification, large sizes refused |
| WireFields.FieldRoundTrip | Libraries/Include/google/protobuf/parse_context.h:733-778 | an unknown field is read back as it was written, if and only if its groups nest within the limit |
| WireFields.GroupRoundTrip | Libraries/Include/google/protobuf/parse_context.h:402-412 | the same for the fields of a group and its end tag |
| WireFields.FieldsSizeIsExact | Libraries/Include/google/protobuf/wire_format.cc:266-306 | ComputeUnknownFieldsSize is the number of bytes written, for data of up to INT_MAX bytes |
| Utf8.ValidIffEncoded | Libraries/Include/google/protobuf/parse_context.cc:441-447 | the strings accepted are exactly the encodings of sequences of Unicode scalar values |
| MessagesRoundTrip.ParseNumber | GameServer/Struct.pb.cc:157-179 | a written bool, integer or enum field is parsed to its value, and a default one is not written |
| MessagesRoundTrip.ParseText | GameServer/Struct.pb.cc:163-171 | a written string is parsed to its value if it is UTF-8 and fails the parse otherwise |
| MessagesRoundTrip.ParseList | GameServer/Protocol.pb.cc:413-424 | written nested messages are parsed and appended in order, each within its length and one level deeper |
| MessagesRoundTrip.UnknownFields | GameServer/Struct.pb.cc:180-191 | written unknown fields are parsed and appended in order |
| MessagesRoundTrip.ParseSerialized | GameServer/Protocol.pb.cc:400-474 | parsing a serialized message and what follows it, into any message, merges it in; it fails exactly for invalid UTF-8 or too deep nesting; for all messages of all schemas |
| MessagesRoundTrip.RoundTrip | GameServer/Protocol.pb.cc:400-474 | serializing and parsing is the identity on exactly the acceptable messages |
| Nesting.AcceptableIff | Libraries/Include/google/protobuf/parse_context.cc:328-340 | a message is acceptable for a limit exactly if all strings in it, nested ones included, are UTF-8, and messages and groups are nested no deeper than the limit |
| Nesting.ReadBackIff | Libraries/Include/google/protobuf/message_lite.cc:135-147 | so serializing and parsing from an array is the identity exactly if strings are UTF-8 and nesting is at most 100 deep |
| Nesting.BothReadBackIff | Libraries/Include/google/protobuf/message_lite.cc:135-147 | and the concatenation of two serialized messages is parsed to their merge exactly if that holds of both |
| Nesting.HundredLevels | Libraries/Include/google/protobuf/io/coded_stream.cc:89 | groups nested 100 deep are parsed, 101 are refused, in every message |
| MessagesRoundTrip.ConcatenationMerges | GameServer/Protocol.pb.cc:520-531 | parsing the concatenation of two serialized messages gives their MergeFrom |
| MessagesRoundTrip.MergeIntoDefault | GameServer/Protocol.pb.cc:520-531 | merging into a cleared message gives the other message |
| MessagesRoundTrip.ByteSizeIsExact | GameServer/Protocol.pb.cc:476-503 | ByteSizeLong is the number of bytes written, nested prefixes and ten-byte negative enums included, for strings and nested bodies of up to INT_MAX bytes |
| ParsedMessages.ParseGives | GameServer/Protocol.pb.cc:400-446 | whatever the bytes, a parsed message has values in range, valid strings, foreign unknown fields and bounded nesting |
| ParsedMessages.SmallIsValid | Libraries/Include/google/protobuf/parse_context.cc:410-428 | nothing in a message is longer than what the message is written as |
| ParsedMessages.ParsedIsStable | GameServer/Protocol.pb.cc:400-474 | a message parsed from any bytes is parsed again from its own serialization, if that is not too large |
| ParsePieces.ParseAppends | GameServer/Protocol.pb.cc:400-442 | whatever the bytes: what is parsed on its own is parsed the same with more behind it, and the rest is parsed into the result |
| ParsePieces.OtherWireTypes | Libraries/Include/google/protobuf/parse_context.h:734-783 | wire type 1 takes eight bytes, 5 takes four, and 4, 6 and 7 are no field |
| Protocol.Player.constructor | GameServer/Struct.pb.cc:88-114 | a cleared message |
| Protocol.Player.InternalParse | GameServer/Struct.pb.cc:150-201 | succeeds and changes the fields exactly as the specification parse |
| Protocol.Player.InternalSerialize | GameServer/Struct.pb.cc:203-238 | appends exactly the specified bytes |
| Protocol.Player.ByteSizeLong | GameServer/Struct.pb.cc:240-275 | returns the specified size and caches it |
| Protocol.Player.MergeFrom | GameServer/Struct.pb.cc:292-308 | merges as specified |
| Protocol.PlayerField | GameServer/Struct.pb.cc:155-192 | the cases of the switch over tags 8, 18 and 24 |
| Login.SLogin.constructor | GameServer/Protocol.pb.cc:350-367 | a cleared message |
| Login.SLogin.ParsePlayer | GameServer/Protocol.pb.cc:419-420 | one nested player at the end of the list, as the specification parses one field |
| Login.SLogin.ParsePlayers | GameServer/Protocol.pb.cc:416-422 | the inner loop over a run of tag 18 equals one tag at a time, whatever DataAvailable says |
| Login.SLogin.InternalParse | GameServer/Protocol.pb.cc:400-446 | succeeds and changes the fields exactly as the specification parse |
| Login.SLogin.ByteSizeLong | GameServer/Protocol.pb.cc:476-503 | returns the specified size, and caches the size of each player |
| Login.SLogin.InternalSerialize | GameServer/Protocol.pb.cc:448-474 | with sizes cached, appends exactly the specified bytes |
| Login.SLogin.PlayerSizes | GameServer/Protocol.pb.cc:484-489 | the sizes of the players, each left in its cache |
| Login.SLogin.AppendCopy | GameServer/Protocol.pb.cc:527 | a copy of one player as a new object at the end |
| Login.SLogin.CopyPlayers | GameServer/Protocol.pb.cc:527 | appends copies of the other list's players as new objects |
| Login.SLogin.MergeFrom | GameServer/Protocol.pb.cc:520-531 | merges as specified |
| Login.CachedSizeIsLength | Libraries/Include/google/protobuf/wire_format_lite.h:1691-1698 | the prefix from the cached size is the length of what follows |
| Login.LoginFields | GameServer/Protocol.pb.cc:404-440 | tag 8 is success, every other tag but 18 an unknown field |
| Login.PlayersField | GameServer/Protocol.pb.cc:414-424 | tag 18 is one more player, one level deeper |
| WireForms.PlayerIsWritten | GameServer/Struct.pb.cc:203-240 | Player is written under the tags 8, 18 and 24, in this order, then its unknown fields |
| WireForms.LoginIsWritten | GameServer/Protocol.pb.cc:448-476 | S_LOGIN as the bytes 8 and 1 if successful, and each player with tag 18 and its length |
| WireForms.ChatTags | GameServer/Protocol.pb.cc:1208-1245 | S_CHAT reads tag 8 as the player, 18 as the text, and every other tag as an unknown field |
| WireForms.ChatIsWritten | GameServer/Protocol.pb.cc:1253-1282 | S_CHAT is written under the tags 8 and 18, in this order, then its unknown fields |
| WireForms.SmallMessageTags | GameServer/Protocol.pb.cc:617-1035 | C_CHAT reads tag 10 as text, C_ENTER_GAME tag 8 as a number and S_ENTER_GAME tag 8 as a boolean; every other tag, and each one in C_LOGIN, is an unknown field |
| WireForms.SmallMessagesAreWritten | GameServer/Protocol.pb.cc:653-1062 | and they are written under these tags |
| SendBuffers.SendBufferManager.constructor | ServerCore/SendBuffer.h:52-56 | an empty chunk, closed |
| SendBuffers.SendBufferManager.Open | ServerCore/SendBuffer.cpp:66-91 | a chunk without enough room is replaced, and a buffer of more than 6000 bytes refused; place and new state as specified |
| SendBuffers.SendBufferManager.Close | ServerCore/SendBuffer.cpp:21-26 | the bytes written count as used |
| SendBuffers.OpensIffFits | ServerCore/SendBuffer.cpp:42-52 | every size up to that of a chunk is granted, and no other, and the buffer lies inside its chunk |
| SendBuffers.BuffersAreApart | ServerCore/SendBuffer.cpp:42-61 | whatever sizes are asked for, no two buffers share a byte |
| Packets.FillSendBuffer | GameServer/ClientPacketHandler.h:55-69 | header fields and body in memory from the place of the opened buffer on, whatever size was opened; nothing else is changed |
| Packets.Init | GameServer/ClientPacketHandler.h:26-33 | the loop and assignments give a table with exactly the side's own handlers |
| Packets.OutsideTableIff | GameServer/ClientPacketHandler.h:35-39 | a received packet of whatever length is looked up outside the table exactly if it carries the id 65535 |
| Packets.FrameIsWhole | GameServer/ClientPacketHandler.h:55-69 | the buffer opened is filled exactly by header and body if and only if the body has at most 5996 bytes; up to 65531 the chunk refuses the buffer; from 65532 to 65535 the size wraps around and header and body are written past the buffer and its chunk; beyond that an assertion fails |
| Packets.HeaderBytes | GameServer/ClientPacketHandler.h:55-69 | the header has size and id in 16 bits each, low byte first |
| Packets.EndToEnd | DummyClient/ServerPacketHandler.h:35-53 | what one side sends, the other delivers to the handler of the same type with an equal message, if and only if the body has at most 5996 bytes, its strings are UTF-8, and it nests at most 100 deep, as every message without unknown fields does |
| Packets.OnlyOwnPacketsAreDelivered | GameServer/ClientPacketHandler.h:35-39 | only packets under the side's own ids reach a packet handler |
| PacketStream.CutPackets | ServerCore/Session.cpp:323-347 | the loop over the bytes at hand hands on the packets of the specification |
| PacketStream.RecvBuffer.constructor | ServerCore/RecvBuffer.cpp:8-12 | an empty buffer of ten buffer sizes |
| PacketStream.RecvBuffer.OnWrite | ServerCore/RecvBuffer.cpp:50-57 | the bytes are appended if there is room |
| PacketStream.RecvBuffer.OnRead | ServerCore/RecvBuffer.cpp:41-48 | the bytes read are dropped from the front |
| PacketStream.RecvBuffer.Clean | ServerCore/RecvBuffer.cpp:18-39 | no byte is lost, and there is room for a whole buffer size again unless too much is unread |
| PacketStream.RecvBuffer.ProcessRecv | ServerCore/Session.cpp:239-269 | bytes received are cut into packets together with those left before; less than a packet is left, and there is always room for the next 64 KB |
| PacketStream.CopyDoesNotOverlap | ServerCore/RecvBuffer.cpp:34 | what Clean copies lies wholly behind where it goes |
| PacketStream.OnRecvAppends | ServerCore/Session.cpp:323-347 | bytes that come later change nothing for the packets that are whole |
| PacketStream.PiecesDoNotMatter | ServerCore/Session.cpp:239-269 | however a stream is cut into pieces, the same packets are handed on |
| PacketStream.StreamIsDelivered | ServerCore/Session.cpp:239-347 | everything one side sends, in whatever pieces it arrives, is delivered by the other in order, to the handler of its type, with an equal message: any messages whose strings are UTF-8 and whose bodies have at most 5996 bytes, unless unknown fields in them nest too deep |
| PacketStream.EndlessIffEmptyPacket | ServerCore/Session.cpp:327-344 | the loop ends exactly if no packet begins with a size of 0 |
| PacketStream.StreamLeavesTableIff | ServerCore/Session.cpp:323-347 | over any stream, a packet handed on is looked up outside the table exactly if one that begins at a boundary, and is there as a whole, carries the id 65535 |
| ProtoParser.ProtoParser.constructor | Tools/PacketGenerator/ProtoParser.py:3-10 | empty lists and the start id |
| ProtoParser.ProtoParser.ParseProto | Tools/PacketGenerator/ProtoParser.py:12-31 | the loop numbers the matching names in order and splits them by prefix; it fails exactly if a message line has no name; for every notion of white space and upper case |
| ProtoParser.SwappedRunsAgree | Tools/PacketGenerator/ProtoParser.py:20-29 | runs with swapped prefixes give the same packets the same consecutive ids, and swap the two lists if and only if no name has both prefixes |
| ProtoParser.ListsAreByPrefix | Tools/PacketGenerator/ProtoParser.py:20-29 | the packets are the names with one of the prefixes; received are those with the first, sent are the others |
| ProtoParser.OnlyMessageLinesMatter | Tools/PacketGenerator/ProtoParser.py:16-18 | the other lines of the file do not matter |
| ProtoParser.NameOfLine | Tools/PacketGenerator/ProtoParser.py:20 | the name of a plain message line |
| Generated.IdsAreGenerated | GameServer/ClientPacketHandler.h:7-15 | for Protocol.proto both runs give the ids of the two headers, and a packet is received by the side that handles it |

## Left out

- Sockets, events, rooms, threads, timers and the two main programs: input and output around the modelled code; of sessions only the receive buffer and its loop.
- Reference counts of send buffers and chunks, and the pool that chunks go back to: a chunk that is replaced is one that no other buffer uses.
- The buffer stream under the parser (slop bytes, chunk seams): the input is a sequence of bytes with limits, and reading past a limit is a failure at once rather than at the next check of the limit.
- Memory orders weaker than sequential consistency, ASAN hooks, and `operator new` failing or size_t arithmetic wrapping around.
- Alignment masks are written as remainders: `ArenaObjects` takes alignments to be powers of two and the bases of blocks to be multiples of 8.
- CleanupList divides a pointer difference by the node size; where the difference is no multiple of it, the model takes the quotient that the division of the byte distance gives.
- SerialArenaObject.SerialArena.CleanupList: requires that the slots between the lowest node and the top are written, which every history establishes, because the model has no reading of unwritten memory.
- ThreadSafeArenaObject.ThreadSafeArena.Reset: takes as a precondition that a user-owned block is in use and large enough, which every life establishes.
- ArenaSteps models lists, caches and ids only; sizes and data of the serial arenas are in ThreadSafeArena, where operations do not overlap.
- Which functions allocate and free a block, MaybeAllocateAligned of ThreadSafeArena, the metrics hooks of single allocations, and the functions of Arena that only choose a destructor.
- MessagesRoundTrip.RoundTrip: takes strings and nested messages to be at most INT_MAX less 16 bytes long, because larger sizes are refused when read; sizes are exact up to INT_MAX.
- Login.SLogin.InternalSerialize: what is written is a sequence appended to, not an array written in place; the in-place writing of varints is in VarintLoops.
- The classes C_LOGIN, C_ENTER_GAME, S_ENTER_GAME, C_CHAT and S_CHAT are instances of the codec over descriptions; as objects they would repeat Player.
- Reflection, descriptor tables, swapping, arena-aware construction, and the logging of invalid UTF-8 when serializing.
- UTF-8 is decided by the grammar; the table-driven scanner of the runtime is not part of this model.
- FindNameOfFileContainingSymbol's shortcut and the decoding of stored files: a stored file is a value with name, package, symbols and extensions.
- EncodedRefinement.EncodedRefinesSimple: is about files in which every symbol has a non-empty name, because entries without one are not ordered by full name; so are EncodedAcceptance and EncodedContents. EncodedRuns is not restricted in this way.
- FindAllFileNames, FindAllPackageNames and FindAllMessageNames: listings of the same tables.
- DescriptorPoolDatabase: a wrapper of DescriptorPool, which is not part of this model.
- Packets.HandlePacket: behind an own handler a length below that of a header is a parse that fails; in builds with assertions the check of StringPiece stops the program there.
- LifecycleIds.FetchCovers256: is about threads that do not end; a thread that ends leaves the rest of its batch unused.
- PacketHeader is two 16-bit fields, size first, each with the low byte first, as on the platforms the game runs on.
