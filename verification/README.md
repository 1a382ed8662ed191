# MaxMind DB Writer: a verified model

MaxMind DB Writer builds a binary search tree from networks to data and writes it as a MaxMind DB file. This project
models the tree and its merging (`c/tree.c`), the serializer of the data section (`lib/MaxMind/DB/Writer/Serializer.pm`),
the hash table under the data table (`c/uthash.h`) and the iteration that Perl code sees
(`lib/MaxMind/DB/Writer/Tree.xs`), and proves what the parts promise, separately and together.

The code is modelled in its own form. The tree is an object whose records are overwritten in place (`SearchTree`,
`Shapes`), with the reference-counted data table and the merge cache as fields; the merge loops, the range loop, the
serializer, the traversals, the hash table and the loops of freezing and thawing are methods. Each is proved against a
function on values, and the properties are proved about those functions:

| files | what they hold |
|---|---|
| `Data`, `Merge`, `MergeLaws`, `MergeLoops` | Perl data, the four merge strategies, their laws, the loops |
| `Trie`, `TrieLaws`, `CanonicalTree` | the tree as a value: one insert, canonical form, whole runs |
| `InsertMeaning` | what an insert makes of each record and which status it has, case by case |
| `Aliases`, `FreshTree`, `NewTrees` | aliased networks; what a new tree contains and what stays of it |
| `Refusals`, `FailedInserts` | which record refuses an insert first, when a key leaks, and what a failed insert leaves |
| `Address`, `Ranges`, `RangeUpdates` | bits, bytes and numbers; splitting a range; what inserting one does |
| `Shapes`, `DataTable`, `SearchTree` | the tree on the heap: ownership, counts, merge cache, every public operation |
| `FieldCodec`, `DataSection`, `DataSectionLaws`, `Serializer` | the data section, a reader for it, deduplication |
| `Numbering`, `FileLookup`, `Writing` | preorder numbers, rows, a reader of the search tree, writing a file |
| `FrozenTree`, `FrozenFile`, `Freezing` | freezing to a file and thawing it again |
| `WireFormat` | the bytes that are written: fields, pointers, rows, frozen files |
| `Iteration` | the calls that iteration makes |
| `UtHash` | intrusive bucket chains and the app-order list |

The results to look at first:

- `Writing.WriteTree` with `Writing.WrittenAnswers`: whenever nothing stands in the way a file is written, and reading its
  bytes with the search algorithm and the data format of the MaxMind DB specification gives, for every address whose data
  is in range, what a lookup in memory gives.
- `TrieLaws.InsertPointwise`, `TrieLaws.InsertSucceedsIff` and `SearchTree.SearchTree.InsertNetwork`: an insert on the
  heap is a pointwise update of the mutable addresses of its network, and succeeds exactly when no alias and no merge is
  in the way.
- `InsertMeaning.InsertedRecord`, `InsertMeaning.InsertStatus`, `MergeLaws.TopLevelReplaces`, `MergeLaws.HashesDescend`
  and `MergeLaws.ArraysDescend`: the same said case by case, for each strategy.
- `NewTrees.ReservedFindsNothing` and `NewTrees.AliasedFormsAgree`: whatever is inserted, reserved addresses stay without
  data, and the three IPv6 forms of an IPv4 address look up what `::a.b.c.d` does.
- `CanonicalTree.CanonicalUnique` and what follows from it: the order of disjoint inserts, halves and re-inserts, a range
  in any split, and thawing do not matter, down to the shape of the tree.
- `DataSectionLaws.StoreReadsIff` and `DataSectionLaws.StoreReads`: when a stored field reads back, and that with distinct
  keys every stored and every remembered position does exactly when its field is in range, whatever has been deduplicated.
- `WireFormat`, with `FileLookup` and `Numbering.RowOfNode`: the bytes of a file, written out in numbers.
- `Iteration.CallsAreForRecords`, `Iteration.RecordsAreCalledFor` and `Iteration.CallsInOrder`: which calls iteration makes,
  with all their arguments, and in which order.
- `Freezing.FreezeAndThaw`: the thawed tree is the frozen tree, trimmed, with the same data, or thawing croaks exactly when
  a leaked key is held by no record.

Three assumptions are made throughout. Keys of different contents differ (`Data.IsKeyFunction`), which for
27 characters over a finite alphabet could hold of no function, so the characters of a key are drawn from an unbounded one.
Networks and addresses come as bytes, and the reserved networks as any list of networks. Where the code croaks, the model
returns a status or `None`.

What the code does that its comments or documentation do not say:

- A croak from inside a merge of hashes (`c/tree.c:1178-1202`) jumps over the decrement that ends `insert_network`, so
  the inserted key stays counted: `leaked` in `SearchTree`. It happens exactly when no alias is met and the first record
  to refuse the new one, the right side being done before the left, is a hash that does not merge with the inserted one
  (`Refusals.MismatchIff`; for ranges `Refusals.BlocksMismatchIff`; an input is `Refusals.MismatchExample`). `free_tree`
  then reports elements left in the data table, and a frozen tree with a leaked key that no record holds cannot be
  thawed. The croak of `merge_hashes_for_keys` gives the key back first, so nothing leaks there.
- The same croaks skip the trims above them. `FailedInserts.FailedTrimmedIff` says exactly when something is left to trim,
  `FailedInserts.InsertExact` which records have been updated by then, and two inputs are
  `FailedInserts.StaysSplitExample` and `FailedInserts.StaysTwinExample`. Freezing and thawing such a tree makes up for
  the trims (`Freezing.FreezeAndThaw`).
- Inserting the same data a second time is not always harmless. Objects such as Math::UInt128 numbers, which are allowed
  as data (`lib/MaxMind/DB/Writer/Tree.pm:719-724`), do not merge, not even with themselves. `CanonicalTree.ReinsertInside`
  says exactly when the second insert croaks; an input is `CanonicalTree.RefusesAgainExample`, and one for the whole
  IPv6 range is `Refusals.WholeRangeLeaksExample`.
- The comment at `c/tree.c:1133-1134` says that existing values are not replaced; under the top-level strategy they
  are, and that is what the model does.
- What the serializer stores does not always read back. `DataSectionLaws.StoreReadsIff` says exactly when it does: every
  nested number and size is in range, and every nested field that meets its key in the cache is the one remembered for it.
- Control bytes of the two sizes 285 and 65821 wrap and are read as 29 and 285 (`FieldCodec.ControlRoundTripIff`,
  `DataSectionLaws.WrappedContainerIsLost`).
- The guard for 64 and 128 bit unsigned integers checks only `Math::UInt128` objects, and of 64 bits those with a division
  that lets 65 bits through; a string of digits passes whatever its length (`FieldCodec.AcceptedButTooBig`). Exactly what
  fits its type reads back (`FieldCodec.UnsignedRoundTripIff`). 32 bit signed integers are not checked at all
  (`FieldCodec.Int32RoundTripIff`).
- The key of the serializer's cache does not include the type, so bytes stored after an equal string read back as the
  string (`DataSectionLaws.KeyIgnoresType`, `DataSectionLaws.BytesReadAsText`).
- The whole IPv6 range is inserted as `::/0` and then `8000::/1`; the second insert changes no record
  (`RangeUpdates.WholeRangeTwice`).
- The sum of position, node count and separator is made in 32 bits. The data of an address is found exactly when the sum
  for its own position does not wrap (`FileLookup.FileAnswersIff`, for data in range and data sections of at most 2^32
  bytes; an input is `FileLookup.WrappedNumberExample`).

## Model

| member | source | states |
|---|---|---|
| `Merge.AppendableEnd` | c/tree.c:1217-1243 | an array that outgrows the existing one stops growing at the first reference that add-only may not create, and not before |
| `MergeLoops.MergeNewFromHashIntoHash` | c/tree.c:1135-1176 | the loop over the inserted hash, in any order of its keys, gives the merged hash that `MergeLaws.TopLevelReplaces` and `MergeLaws.HashesDescend` describe member by member, and croaks exactly when there is none |
| `MergeLoops.MergeHashes` | c/tree.c:1119-1132 | copying the existing hash and adding the inserted one to the copy is the merge of the two |
| `MergeLoops.MergeTwo` | c/tree.c:1178-1202 | merging two values agrees with the merge function, croaks included, among them those for objects such as Math::UInt128 numbers |
| `MergeLoops.MergeArrays` | c/tree.c:1204-1245 | the array loop agrees with the merge function, croaks included |
| `MergeLaws.TopLevelReplaces` | c/tree.c:1158-1172 | under toplevel the merge of two hashes is the existing one overwritten with the members of the inserted one, whole, and never croaks |
| `MergeLaws.HashesDescend` | c/tree.c:1146-1172 | under recurse and add-only shared members are merged in turn, members of the existing hash alone stay, and of the members of the inserted hash alone recurse takes every one and add-only exactly the scalars |
| `MergeLaws.ArraysDescend` | c/tree.c:1204-1245 | shared items are merged in turn, the longer array keeps its other items, and add-only lets the existing array grow only up to the inserted one's first reference |
| `MergeLaws.OnlyLikeKindsMerge` | c/tree.c:1178-1202 | of two scalars the inserted one wins; a scalar and a reference, references of two kinds, and objects make the merge croak |
| `MergeLaws.MergeIdempotent` | c/tree.c:1178-1245 | merging a value with itself gives the value, or croaks exactly when the merge comes to an object, under every strategy |
| `MergeLaws.MergeAbsorbs` | c/tree.c:1119-1245 | merging the same data a second time changes nothing, or croaks exactly when the strategy descends to an object of that data; under add-only it never croaks |
| `MergeLaws.RecurseAssociative` | c/tree.c:1119-1245 | the recursive merge is associative as a partial function: both groupings croak on the same inputs and otherwise agree, over arbitrarily nested data |
| `MergeLaws.AddOnlyKeepsContainers` | c/tree.c:1146-1243 | add-only never creates or removes a hash, an array or an object at any path |
| `MergeLaws.InsertedScalarWins` | c/tree.c:1186-1191 | under the recursive strategies, wherever both sides have a value and the inserted one is a scalar, that scalar is in the result |
| `MergeLaws.ExistingPathsSurvive` | c/tree.c:1119-1245 | under the recursive strategies no path of the existing data is lost, and what the inserted data does not reach keeps its scalars |
| `TrieLaws.InsertPointwise` | c/tree.c:778-967 | a successful insert replaces, at every address of its network, the mutable record by the strategy's function of it, leaves fixed empty and alias records, and touches no other address |
| `InsertMeaning.InsertedRecord` | c/tree.c:969-1117 | what a successful insert leaves at each address, case by case: outside the network, reserved or aliased nothing changes; an empty record takes the data unless the insert only adds; other data is replaced without merging, and merged, hash with hash, with it |
| `InsertMeaning.RemovedRecord` | c/tree.c:428-444 | a successful remove empties exactly the data records of its network |
| `InsertMeaning.InsertStatus` | c/tree.c:849-917 | the status of any insert: refused at an alias or below one; otherwise a success exactly when no data of the network refuses the new data, and else the croak for the refusing data at the largest address |
| `InsertMeaning.MeetsAliasIff` | c/tree.c:849-883 | an insert comes to an alias exactly when one stands at its network or above it |
| `InsertMeaning.AboveIsLarger` | c/tree.c:892-917 | the order in which records are done is that of the numbers of their addresses, largest first |
| `FailedInserts.InsertExact` | c/tree.c:892-917 | whatever its status, a user insert updates exactly the records that it gets to: those of its network from the largest address down to the first that refuses, and none when an alias is in the way |
| `TrieLaws.InsertSucceedsIff` | c/tree.c:788-883 | a user insert succeeds exactly when no alias lies at or above its network and every record below accepts the new one |
| `Refusals.FailsAtFirstRefusal` | c/tree.c:892-917 | an insert that no alias stops fails with the status of the first record that refuses it, the one with the largest address |
| `Refusals.MismatchIff` | c/tree.c:1178-1202 | a user insert croaks out of a merge, and so leaks its key, exactly when no alias is met and the first record to refuse it is a hash whose merge with the inserted hash is undefined |
| `Refusals.BlocksMismatchIff` | c/tree.c:316-344 | a range insert leaks its key exactly when the tree as it was says that one of its networks would and that all networks before it go through |
| `Refusals.WholeRangeLeaksExample` | c/tree.c:338-343 | inserting {k: object} into the whole of IPv6 over {j: 1} croaks at the second network only |
| `Refusals.MismatchExample` | c/tree.c:1178-1202 | inserting {k: []} over {k: scalar} under the recursive strategy leaks |
| `TrieLaws.AliasRefused` | c/tree.c:849-874 | an insert into or over an alias is refused with the matching status and leaves the tree as it is |
| `TrieLaws.InsertKeepsWellFormed` | c/tree.c:885-891 | below a plain node nothing is ever fixed or aliased, whatever is inserted |
| `TrieLaws.InsertKeepsHeight` | c/tree.c:823-917 | no insert makes the tree deeper than the address width |
| `TrieLaws.InsertKeepsSkeleton` | c/tree.c:788-883 | no user insert or remove changes the fixed nodes, fixed empty records or aliases, whether or not it succeeds |
| `TrieLaws.FixedRecordsStay` | c/tree.c:788-891 | a fixed node or alias reached through fixed nodes stays where it is, whatever is inserted and whether or not that succeeds |
| `TrieLaws.InsertKeepsTrimmed` | c/tree.c:919-965 | after a successful insert no plain node has two empty or two equal data records |
| `FailedInserts.FailedTrimmedIff` | c/tree.c:892-965 | a user insert that does not succeed leaves something to trim exactly when it has split a data record, or when a left record refuses after all records to its right have become what it is |
| `FailedInserts.TwinsNeedObjects` | c/tree.c:1178-1202 | the second case needs data with objects and the recursive strategy |
| `FailedInserts.StaysSplitExample` | c/tree.c:1311-1327 | inserting {k: []} into one half of {k: scalar} leaves two copies of that record |
| `FailedInserts.StaysTwinExample` | c/tree.c:892-917 | inserting {k: object} over {j: 1, k: object} and {j: 1} leaves two equal records |
| `TrieLaws.NeverFreesFixed` | c/tree.c:1357-1388 | the three statuses for freeing a fixed record or an alias cannot occur |
| `TrieLaws.OverwriteNeverCroaks` | c/tree.c:1028-1031 | without merging no insert ends in a merge croak |
| `TrieLaws.FreesEverything` | c/tree.c:1338-1388 | with removal of fixed records allowed, freeing always succeeds |
| `CanonicalTree.CanonicalUnique` | c/tree.c:919-965 | two trimmed trees with the same fixed part and the same record at every address are the same tree |
| `CanonicalTree.DisjointCommute` | c/tree.c:919-965 | operations on disjoint networks commute, node for node, whatever their strategies |
| `CanonicalTree.UpdatedTwice` | c/tree.c:1028-1041 | updating a record a second time with the same data changes nothing, and croaks exactly when the data has an object and the record adds something to the data |
| `CanonicalTree.RefusesAgainExample` | c/tree.c:1178-1202 | {j: 1} takes {k: object} and refuses it the second time |
| `CanonicalTree.ReinsertInside` | c/tree.c:1028-1041 | inserting the same record again into the network or a part of it changes no record, and goes through, leaving the same tree, exactly when no alias is in the way and no record below refuses it the second time |
| `FailedInserts.ReinsertKeepsTree` | c/tree.c:919-965 | inserting the same record again leaves the same tree, unless it croaks after splitting a data record |
| `CanonicalTree.HalvesSucceedIff` | c/tree.c:885-917 | the two halves of a network can be inserted one after the other exactly when the network can be inserted and neither half is aliased |
| `CanonicalTree.TwoHalves` | c/tree.c:885-917 | inserting the two halves of a network gives the tree that inserting the network does |
| `CanonicalTree.RunEndsWith` | c/tree.c:759-776 | a run is its operations one after the other, each on the tree that those before it left |
| `CanonicalTree.RunPointwise` | c/tree.c:760-967 | after any run of user operations that no merge croaks out of, the tree is canonical, its fixed part is unchanged, and each address has what the operations make of it alone |
| `FailedInserts.RunExact` | c/tree.c:760-967 | after any run of user operations at all, caught croaks included, the fixed part is unchanged and each address has what the operations make of the records |
| `CanonicalTree.SameFoldSameTree` | c/tree.c:760-967 | two runs that agree address by address end in the same tree, node for node |
| `Aliases.AliasSafeStays` | c/tree.c:849-883 | no insert but that of an alias moves an alias or makes it unsafe to follow |
| `Aliases.AliasedLooksUpIpv4` | c/tree.c:1284-1309 | every address of an aliased network looks up the record of the IPv4 address in its next 32 bits |
| `Aliases.LookupEndsOnLeaf` | c/tree.c:1267-1275 | a lookup of a full address never ends on a node or an alias |
| `FreshTree.NewContentsFacts` | c/tree.c:583-757 | a new tree is canonical, holds no data, and its aliases are in place and safe |
| `NewTrees.NewTreeRecords` | c/tree.c:204-247 | a new tree can be made exactly when no reserved network lies in an aliased one, and then every address of an aliased network holds an alias, every other one of a reserved network a fixed empty record, and all the rest nothing |
| `NewTrees.ReservedFindsNothing` | lib/MaxMind/DB/Writer/Tree.pm:699-703 | whatever is inserted into a new tree, and with whatever statuses, looking up an address of a reserved network outside the aliased ones finds nothing |
| `NewTrees.RunKeepsFixed` | c/tree.c:836-845 | no run of inserts and removes, whatever its statuses, changes a fixed empty record or an alias |
| `NewTrees.AliasedNetworks` | c/tree.c:575-581 | the aliased networks in bytes: ::ffff:0:0/96, 2001::/32 and 2002::/16 |
| `NewTrees.AliasedFormsAgree` | c/tree.c:575-631 | whatever is inserted into a new IPv6 tree with aliases, 2002:a.b.c.d::, 2001:0:a.b.c.d:: and ::ffff:a.b.c.d look up the record of ::a.b.c.d |
| `NewTrees.BitOfByte` | c/tree.c:1077-1079 | the bits of an address are those of its bytes, most significant first |
| `FreshTree.PathsApart` | c/tree.c:575-581 | the IPv4 root and the three aliased networks are pairwise disjoint |
| `FreshTree.EmbeddedBits` | c/tree.c:550-569 | an IPv4 address in an IPv6 tree has the bits of the IPv4 root followed by its own |
| `DataTable.MergeCacheKeyInjective` | c/tree.c:1043-1049 | the merge cache key tells strategy and both keys apart |
| `DataTable.CacheGrows` | c/tree.c:1070-1072 | a stored merge keeps the cache truthful |
| `SearchTree.SearchTree.NewTree` | c/tree.c:204-247 | creating a tree croaks exactly for a bad argument or a reserved network inside an aliased one, and otherwise gives a valid tree in which the aliased addresses hold aliases, the other reserved ones fixed empty records, and all the rest nothing |
| `SearchTree.SearchTree.AliasIpv4Networks` | c/tree.c:583-631 | aliasing gives the fixed node at ::/96 and three aliases that point at that very node |
| `SearchTree.SearchTree.InsertNetworksAsFixedEmpty` | c/tree.c:734-757 | reserving networks stops at the first refused one and leaves aliases in place |
| `SearchTree.SearchTree.InsertNetwork` | c/tree.c:249-278 | the heap after an insert is the insert on values; counts match the records held plus the leaked keys, and the key is leaked exactly when the tree before the call has a mismatch first (`Refusals.MismatchIff`); without a strategy of the caller's the tree's own is used (c/tree.c:765-767) |
| `SearchTree.SearchTree.InsertRange` | c/tree.c:287-355 | inserting a range inserts the networks of its split until one is refused, croaks first when the range is backwards, and leaks its key exactly when one of those networks has a mismatch first in the tree before the call; without a strategy of the caller's the tree's own is used |
| `SearchTree.SearchTree.RemoveNetwork` | c/tree.c:428-444 | removing is inserting an empty record without merging |
| `SearchTree.SearchTree.LookupIpAddress` | c/tree.c:1247-1282 | a lookup returns the data of the record for the address, through aliases, and never meets a node |
| `SearchTree.SearchTree.FindRecordForNetwork` | c/tree.c:1284-1309 | the walk reaches the very record object that stands for the address |
| `SearchTree.SearchTree.FreeTree` | c/tree.c:2117-2128 | freeing empties the data table exactly when no key was leaked |
| `SearchTree.SearchTree.InsertRecordForNetwork` | c/tree.c:759-776 | any insert, internal ones included, is the insert on values with the caller's strategy or else the tree's own, and keeps counts, cache, ownership and the identity of fixed nodes |
| `SearchTree.SearchTree.InsertRecordIntoNextNode` | c/tree.c:778-967 | the recursive insert on the heap is the insert on values, with the counts of every key settled |
| `SearchTree.SearchTree.InsertRecordIntoCurrentRecord` | c/tree.c:969-1021 | overwriting one record frees what was there, counts what is written, and undoes the extra count of a merge |
| `SearchTree.SearchTree.MaybeMergeRecords` | c/tree.c:1023-1075 | the merged key is that of the true merge, whether it comes from the cache or not, and is counted once more |
| `SearchTree.SearchTree.MergeCacheLookup` | c/tree.c:2082-2103 | a stale cache entry is dropped and never returned |
| `SearchTree.SearchTree.MergeHashesForKeys` | c/tree.c:1085-1117 | two records merge when both are hashes; otherwise the inserted key is given back before the croak |
| `SearchTree.SearchTree.SplitRecord` | c/tree.c:1311-1327 | splitting a data record counts its key once more |
| `SearchTree.SearchTree.TrimRecord` | c/tree.c:919-965 | trimming a node with twin data records counts its key once less |
| `SearchTree.SearchTree.FreeRecordValue` | c/tree.c:1357-1388 | freeing gives back the keys below up to where it stops, each as often as it is held |
| `SearchTree.SearchTree.FreeNodeAndSubnodes` | c/tree.c:1338-1355 | freeing a node frees its left record and then its right one |
| `SearchTree.SearchTree.IncrementDataReferenceCount` | c/tree.c:454-475 | the count of a known key goes up by one, an unknown key starts at one without data, and no other entry changes |
| `SearchTree.SearchTree.DecrementDataReferenceCount` | c/tree.c:495-511 | the count of the key goes down by one, the entry leaves the table at zero, and no other entry changes |
| `Shapes.HeldCounts` | c/tree.c:454-511 | the number of times a key is held is the number of places in the tree with data of that key |
| `SearchTree.SearchTree.SetStoredData` | c/tree.c:477-493 | data is set once, for known keys only |
| `SearchTree.SearchTree.InsertThawed` | c/tree.c:1600-1606 | inserting one frozen network is an overwriting insert of its data |
| `Ranges.PrefixLengthForLargestSubnet` | c/tree.c:399-426 | the loop finds the largest 2^k addresses that begin at the start of the range, aligned, and end in the range, and returns their mask, one bit short for the whole of IPv6 |
| `Ranges.BlocksTile` | c/tree.c:316-344 | the networks of a range follow each other without gap or overlap from its start to its end, each aligned and as large as possible |
| `Ranges.TilesCover` | c/tree.c:316-344 | every address of the range lies in exactly one of the networks and no other address in any |
| `Ranges.BlockCount` | c/tree.c:316-344 | a range of w bit addresses needs at most 2w - 2 networks |
| `RangeUpdates.RangePointwise` | c/tree.c:316-344 | a range insert that completes updates every address of the range once and no other, the whole IPv6 range included |
| `RangeUpdates.RangeStops` | c/tree.c:316-344 | a range insert that fails has updated, once, every address of the range before the network that fails, and then does what inserting that network does |
| `RangeUpdates.WholeRangeTwice` | c/tree.c:338-343 | for the whole of IPv6 the second network changes no record, and goes through exactly when no alias is all of it and no record in it refuses the data the second time |
| `RangeUpdates.EmittedStep` | c/tree.c:338-343 | one turn of the loop takes one network off the front of the split, and the overflow ends it |
| `RangeUpdates.IpBytesToInteger` | c/tree.c:365-373 | address bytes to their number |
| `RangeUpdates.IntegerToIpBytes` | c/tree.c:375-382 | a number to its address bytes |
| `RangeUpdates.BytesOfInt` | c/tree.c:365-382 | the two conversions are inverse |
| `RangeUpdates.BytesBits` | c/tree.c:1077-1079 | the bits of an address's bytes are the bits of its number |
| `RangeUpdates.InBlockIsPrefix` | c/tree.c:1077-1079 | an address lies in a network exactly when it starts with its prefix bits |
| `FieldCodec.ControlBytes` | lib/MaxMind/DB/Writer/Serializer.pm:516-573 | control bytes exist exactly for sizes below the fourth threshold and take one to five bytes |
| `WireFormat.SizeIsWritten` | lib/MaxMind/DB/Writer/Serializer.pm:543-566 | a size is written in the low five bits, or in one, two or three bytes less 29, 285 or 65821 behind 29, 30 or 31 |
| `WireFormat.StringsAreWritten` | lib/MaxMind/DB/Writer/Serializer.pm:289-327 | strings begin with 64 and byte strings with 128 plus the low bits of their size, and die from 16843037 bytes on |
| `WireFormat.FloatsAreWritten` | lib/MaxMind/DB/Writer/Serializer.pm:299-317 | doubles begin with 104, floats with 4 and 8, booleans are their truth and 7 |
| `WireFormat.ShortIsWritten` | lib/MaxMind/DB/Writer/Serializer.pm:437-461 | 16 bit numbers begin with 160 and 32 bit ones with 192 plus their length, without leading zero bytes, and die when they do not fit |
| `WireFormat.LongIsWritten` | lib/MaxMind/DB/Writer/Serializer.pm:437-507 | 64 bit numbers begin with their length and 2, 128 bit ones with it and 3, and only objects die for their size |
| `WireFormat.SignedIsWritten` | lib/MaxMind/DB/Writer/Serializer.pm:385-398 | signed numbers begin with their length and 1, and are the low 32 bits of their two's complement |
| `WireFormat.ContainersBegin` | lib/MaxMind/DB/Writer/Serializer.pm:338-370 | hashes begin with 224 plus the low bits of the number of their members, arrays with these low bits and 4 |
| `WireFormat.SmallHash` | lib/MaxMind/DB/Writer/Serializer.pm:338-357 | a hash is its keys, each followed by its value |
| `WireFormat.SmallArray` | lib/MaxMind/DB/Writer/Serializer.pm:359-370 | an array is its items in order |
| `WireFormat.ArrayInArrayDies` | lib/MaxMind/DB/Writer/Serializer.pm:359-370 | an array inside an array dies, unless deduplication finds it |
| `WireFormat.ScalarIsStored` | lib/MaxMind/DB/Writer/Serializer.pm:118-127 | storing a scalar that no remembered key stands for appends exactly its bytes, or dies where it has none |
| `WireFormat.AbcdIsStored` | lib/MaxMind/DB/Writer/Serializer.pm:319-327 | storing "abcd" first writes 0x44 and four letters |
| `WireFormat.StoredTwice` | lib/MaxMind/DB/Writer/Serializer.pm:155-202 | what is stored a second time is written as a pointer exactly when it is a hash, an array, a string of four bytes or more, a 64 or 128 bit number of 16 digits or more, or another number with a text of four bytes or more; 16 and 32 bit integers are written again |
| `FieldCodec.ControlReads` | lib/MaxMind/DB/Writer/Serializer.pm:503-573 | control bytes read as type and size, with the two wrapping sizes read as smaller ones |
| `FieldCodec.ControlRoundTripIff` | lib/MaxMind/DB/Writer/Serializer.pm:543-556 | a legal size reads back exactly when it is neither 285 nor 65821 |
| `FieldCodec.PointerBytes` | lib/MaxMind/DB/Writer/Serializer.pm:241-287 | a pointer exists exactly below 2^32, and its four ranges take two to five bytes |
| `WireFormat.PointerIsWritten` | lib/MaxMind/DB/Writer/Serializer.pm:218-287 | the bytes of every pointer, with the four ranges below 2048, 526336, 134744064 and 2^32 |
| `FieldCodec.PointerRoundTrip` | lib/MaxMind/DB/Writer/Serializer.pm:218-287 | every pointer reads back, across the four ranges |
| `FieldCodec.UnsignedRoundTripIff` | lib/MaxMind/DB/Writer/Serializer.pm:437-461 | an unsigned integer reads back exactly when it fits its type |
| `FieldCodec.AcceptedButTooBig` | lib/MaxMind/DB/Writer/Serializer.pm:463-507 | the values that are accepted although they do not fit: objects of 65 bits for 64 bit integers, and digits of any length for 64 and 128 bits |
| `FieldCodec.Int32RoundTripIff` | lib/MaxMind/DB/Writer/Serializer.pm:385-398 | a signed integer reads back exactly when it fits 32 bits |
| `FieldCodec.StripZeros` | lib/MaxMind/DB/Writer/Serializer.pm:452 | stripping leading zero bytes keeps the value |
| `DataSection.DecodeGrows` | lib/MaxMind/DB/Writer/Serializer.pm:576-585 | what reads back goes on reading the same when more is written |
| `DataSectionLaws.ScalarRoundTripIff` | lib/MaxMind/DB/Writer/Serializer.pm:289-461 | a scalar that can be encoded reads back exactly when its size does not wrap and its number fits, whatever bytes follow it |
| `DataSectionLaws.StoreReadsIff` | lib/MaxMind/DB/Writer/Serializer.pm:86-128 | the returned position reads as the stored field exactly when every nested number and size is in range and every nested field that meets its key in the cache is the one remembered for it; otherwise no later write and no deeper reader makes it read so |
| `DataSectionLaws.UniverseIsClean` | lib/MaxMind/DB/Writer/Serializer.pm:104-117 | where no two different fields that may be cached share a key, that condition is that the field is in range all the way down |
| `DataSectionLaws.StoreReads` | lib/MaxMind/DB/Writer/Serializer.pm:86-128 | for fields of which no two that may be cached share a key, the returned position and every cached position go on reading as what they were stored for exactly when that is in range, also where storing another field dies half way, and every pointer met leads backwards to something that is not a pointer |
| `DataSectionLaws.ContainerReads` | lib/MaxMind/DB/Writer/Serializer.pm:338-370 | hashes and arrays read back with their members in order, however these were deduplicated, exactly when all of them are in range |
| `DataSectionLaws.StoresExactly` | lib/MaxMind/DB/Writer/Serializer.pm:338-370 | without deduplication, storing dies exactly for a number that its guard refuses, a size beyond the last threshold, or an array inside an array |
| `DataSectionLaws.StorableIsStored` | lib/MaxMind/DB/Writer/Serializer.pm:86-128 | with deduplication, what is storable is stored as long as the buffer stays below 2^32 |
| `DataSectionLaws.StoreCosts` | lib/MaxMind/DB/Writer/Serializer.pm:86-128 | storing a field, whether or not it dies, appends at most what the field takes without deduplication |
| `DataSectionLaws.StoreGrows` | lib/MaxMind/DB/Writer/Serializer.pm:118-127 | whatever is stored, the buffer only grows and no cached position moves |
| `DataSectionLaws.WrappedContainerIsLost` | lib/MaxMind/DB/Writer/Serializer.pm:543-556 | a hash or array of 285 or 65821 members never reads back, whatever its members are and whatever follows it |
| `DataSectionLaws.KeyIgnoresType` | lib/MaxMind/DB/Writer/Serializer.pm:104-117 | what meets a remembered key is stored as a pointer to the field that the key was remembered for, and reads as that field |
| `DataSectionLaws.BytesReadAsText` | lib/MaxMind/DB/Writer/Serializer.pm:104-117 | bytes stored after an equal string read back as the string |
| `Serializer.Serializer.StoreData` | lib/MaxMind/DB/Writer/Serializer.pm:86-128 | the object's buffer and cache after storing are those of the pure function, and valid again |
| `Serializer.Serializer.EncodeMap` | lib/MaxMind/DB/Writer/Serializer.pm:338-357 | the loop over the members stores each key and its value |
| `Serializer.Serializer.EncodeArray` | lib/MaxMind/DB/Writer/Serializer.pm:359-370 | the loop over the items; an array inside an array is found in the cache or dies |
| `Serializer.Serializer.EncodePointer` | lib/MaxMind/DB/Writer/Serializer.pm:241-271 | a pointer is appended, or storing dies beyond 2^32 |
| `Numbering.IndexOnto` | c/tree.c:1390-1402 | every number below the node count is some node's |
| `Numbering.IndexInjective` | c/tree.c:1390-1402 | no two nodes have the same number |
| `Numbering.IndexIncreases` | c/tree.c:1848-1860 | a node's number is less than that of every node below it, so only the root has number 0 |
| `Numbering.IndexOrder` | c/tree.c:1991-2035 | what lies below a left record is numbered before what lies below the right one, which with the above makes the numbers those of preorder |
| `Numbering.RowOfNode` | c/tree.c:1873-1961 | the row at a node's number has, left then right, the number of each record: a node's own, that of the IPv4 root for an alias, that of the data, or the node count |
| `Numbering.SearchIsLookup` | c/tree.c:1872-1961 | searching the rows ends, for every address and through aliases, on the number of the record that a lookup finds, when that number is not below the node count |
| `Numbering.RowRoundTrip` | c/tree.c:1802-1841 | a row whose records fit reads back for 24, 28 and 32 bit records |
| `WireFormat.RowIsWritten` | c/tree.c:1784-1841 | the bytes of a row for 24, 28 and 32 bit records |
| `WireFormat.RecordLimits` | c/tree.c:1963-1966 | the largest record values |
| `Numbering.SearchBytesIsSearch` | c/tree.c:1802-1841 | searching the bytes is searching the rows |
| `FileLookup.FileAnswersLikeTree` | c/tree.c:1761-1961 | for every address whose data has a number that did not wrap, and every address without data, the file answers what the tree in memory answers, exactly when the data is in range |
| `FileLookup.SmallIsExact` | c/tree.c:1934-1949 | no number wraps when data section, node count and separator together fit 32 bits |
| `FileLookup.FileAnswersIff` | c/tree.c:1934-1949 | with data in range and a data section of at most 2^32 bytes, the file answers rightly for an address exactly when the number of its data did not wrap |
| `FileLookup.WrappedNumberExample` | c/tree.c:1934-1949 | a field 17 bytes below 2^32 in the file of a tree of one node gets the number 0 and is not found |
| `FileLookup.DataNumberIsExact` | c/tree.c:1934-1949 | the 32 bit sum is exact below 2^32, and a wrapped one falls below the numbers that data can have |
| `WireFormat.FileIsWritten` | c/tree.c:1761-1841 | a file has the row of each node at its number, then 16 zero bytes, then the data section and what follows it |
| `Writing.AssignNodeNumbers` | c/tree.c:1390-1402 | every node gets its preorder number and the node count is the number of nodes; it croaks exactly when the root is not a node |
| `Writing.NumberNodes` | c/tree.c:1991-2035 | the traversal numbers a part of the tree consecutively and never reaches the depth croak |
| `Writing.CheckRecordSanity` | c/tree.c:1844-1871 | the check croaks exactly for a child number that is not larger and for an alias to node 0 |
| `Writing.CheckNode` | c/tree.c:1791-1792 | in a numbered tree the checks never croak |
| `Writing.TargetNumber` | c/tree.c:1864-1870 | the node that aliases point at has the number of the IPv4 root, which is not 0 |
| `Writing.RecordValueAsNumber` | c/tree.c:1873-1961 | a record's value is the node count, a node number, or the number of its data, and it croaks only for an obstacle that the record meets in the state that storing has come to: its number does not fit, there is no data, or storing it dies |
| `Writing.DataRecordNumber` | c/tree.c:1903-1949 | data is stored once per key, its number is the 32 bit sum of its position, and the serializer is left as storing leaves it |
| `Writing.DataOfIsEmitted` | c/tree.c:1794-1797 | data is stored in the order of the numbers of its nodes, left before right, which is the order of `FrozenTree.EmittedInOrder` |
| `Writing.FirstOnesDiffer` | c/tree.c:1890-1901 | no key is stored twice |
| `Writing.FirstOnesCover` | c/tree.c:1890-1901 | every key is stored |
| `Writing.EncodeNode` | c/tree.c:1784-1842 | a node's row has the numbers of its two records, in this order, and it croaks only for an obstacle that one of them meets |
| `Writing.EncodeNodes` | c/tree.c:1991-2035 | the rows of a part of the tree follow in preorder, and it croaks only for an obstacle that the part meets |
| `Writing.WritableIsFree` | c/tree.c:1872-1961 | no obstacle is left when the root is a node, every held key has data, all of it is storable, and data section, node count and separator together fit a record |
| `Writing.WriteSearchTree` | c/tree.c:1761-1782 | the output is the rows of the tree, every data record's number was made from the position of its data, nothing is written for a tree without nodes, writing succeeds whenever nothing is in its way, the data section grows by at most what all records take without deduplication, and any croak is for an obstacle that some data record or the node count meets in the state that storing has come to; the data section is what storing the data of all records makes, each once, in the order of `Writing.DataOf` |
| `Writing.WrittenAnswers` | c/tree.c:1761-1961 | a written file answers an address as the tree does exactly when its data is in range, if its number did not wrap; with all data in range and at most 2^32 bytes of it, exactly where the number did not wrap |
| `Writing.WritableAnswers` | c/tree.c:1761-1961 | where nothing stood in the way of writing, the file answers every address whose data is in range, and no other, as the tree does |
| `Writing.WriteTree` | lib/MaxMind/DB/Writer/Tree.pm:292-308 | the file is the rows of the tree, 16 zero bytes, the data section and the metadata, with every number made from the position of its data; whenever nothing is in the way it is written and answers every address whose data is in range as the tree does, and any croak is for an obstacle that is met; the data section is what storing the data of all records makes, each once, in the order of `Writing.DataOf` |
| `FrozenTree.FlipIsRight` | c/tree.c:2037-2040 | flipping the bit at a node's depth gives the first address of its right record |
| `FrozenTree.EmitIsFrozenOps` | c/tree.c:1465-1499 | what is frozen is first address, depth and key of the data records |
| `FrozenTree.EmitSound` | c/tree.c:1465-1487 | every frozen network is that of a data record, with its data |
| `FrozenTree.EmitComplete` | c/tree.c:1465-1487 | the network of every data record below the root is frozen |
| `FrozenTree.EmittedInOrder` | c/tree.c:1465-1487 | networks are frozen in the order of the numbers of their nodes, left record before right record |
| `FrozenTree.TrimAllIsCanonical` | c/tree.c:919-965 | trimming a tree everywhere gives a canonical tree with the same fixed part |
| `FrozenTree.TrimAllRecords` | c/tree.c:919-965 | trimming a tree everywhere changes the record of no address |
| `FrozenTree.ReinsertGivesBack` | c/tree.c:1598-1617 | inserting the frozen networks into a tree that has only the fixed part gives the frozen tree, trimmed |
| `FrozenFile.StreamReads` | c/tree.c:1645-1697 | the stream of networks reads back without ambiguity up to the end mark |
| `FrozenFile.ThawsBack` | c/tree.c:1664-1697 | a thawed network is the one that was frozen |
| `WireFormat.NetworkIsWritten` | c/tree.c:1489-1499 | a frozen network is 16 bytes of address, least significant first, a byte of depth, and the key |
| `WireFormat.FrozenFileIsWritten` | c/tree.c:1410-1447 | a frozen file is four bytes of length, the parameters, the networks, 17 zero bytes, "not an SHA1 key", eight bytes of length, and the data |
| `Freezing.FreezeNodes` | c/tree.c:1465-1487 | the traversal writes the data records of a part of the tree |
| `Freezing.FreezeTree` | c/tree.c:1416-1463 | freezing croaks exactly when the root is not a node, and otherwise writes parameters, networks, end mark and data |
| `Freezing.ThawNetworks` | c/tree.c:1598-1617 | the first loop of thawing inserts the networks of the file and croaks where one is refused or malformed |
| `Freezing.SetAllData` | c/tree.c:1625-1631 | the second loop sets the data of every key, and croaks exactly when a key is unknown |
| `Freezing.ThawTree` | c/tree.c:1564-1636 | thawing gives a tree with the contents and the data of the file, or croaks exactly when there is none |
| `Freezing.FrozenThaws` | c/tree.c:1416-1499 | the file of any tree with a node as root thaws to the same tree, trimmed, and the same data, or croaks exactly when it has data of a key that no record holds |
| `Freezing.FreezeAndThaw` | eg/freeze-thaw:55-65 | freezing and thawing any tree with a node as root gives the tree, trimmed, and its data, the same tree and counts when nothing was left untrimmed and no key leaked, and croaks exactly when a leaked key is held by no record |
| `Iteration.IterateTree` | c/tree.c:1991-2035 | the traversal makes the calls of the left part, the node, and the right part, whose arguments `Iteration.CallsAreForRecords` spells out |
| `Iteration.CallPerlObject` | lib/MaxMind/DB/Writer/Tree.xs:103-140 | a node visit makes at most two calls, left record first, with each record's network and depth |
| `Iteration.CallForRecord` | lib/MaxMind/DB/Writer/Tree.xs:23-78 | the call for one record, if the object has the method for it, with the arguments that `Iteration.CallsAreForRecords` spells out |
| `Iteration.Iterate` | lib/MaxMind/DB/Writer/Tree.xs:243-276 | iteration croaks exactly for a tree without nodes or an object without methods, and else makes the calls of `Iteration.CallsAreForRecords` and `Iteration.RecordsAreCalledFor` |
| `Iteration.CallsAreForRecords` | lib/MaxMind/DB/Writer/Tree.xs:29-68 | every call is for one side of one node and passes that node's preorder number, first address and depth, the record's first address and depth, and its data, the number of the node it points at, that of the IPv4 root for an alias, or nothing |
| `Iteration.RecordsAreCalledFor` | lib/MaxMind/DB/Writer/Tree.xs:80-140 | the call for a record is made exactly when the object has the method for records of its kind |
| `Iteration.CallsInOrder` | c/tree.c:1991-2035 | the calls come in the order of where the right halves of their nodes start, and those for one node left before right |
| `Iteration.DataIsReportedExactly` | c/tree.c:1991-2040 | data is reported in disjoint ascending networks that cover, with their values, exactly the addresses that have data outside aliased space |
| `Iteration.EachSideOnce` | lib/MaxMind/DB/Writer/Tree.xs:80-140 | each of the two records of each node is reported once when the object has the method for its type, and never otherwise |
| `Iteration.NoOtherNode` | c/tree.c:1991-2035 | nothing is reported for a number that no node has |
| `UtHash.HashTable.Find` | c/uthash.h:103-114 | finding agrees with the finite map of the added and not yet deleted items |
| `UtHash.FindInBucket` | c/uthash.h:608-619 | walking a chain finds the item with the key when it is there |
| `UtHash.HashTable.Add` | c/uthash.h:182-207 | adding an absent key extends the map and appends to the app-order list; the table may no longer grow exactly after more than one ineffective expansion in a row |
| `UtHash.HashTable.Delete` | c/uthash.h:224-257 | deleting removes from map, list and chain; the last item takes the buckets with it |
| `UtHash.HashTable.AppendToList` | c/uthash.h:182-197 | the new item becomes the tail, linked both ways |
| `UtHash.HashTable.AddToBucket` | c/uthash.h:622-633 | the item becomes the head of the chain its hash masks to, and the table doubles exactly when that chain then has at least ten times its multiplier plus one items and growing is still allowed; otherwise nothing else changes |
| `UtHash.HashTable.ExpandBuckets` | c/uthash.h:677-722 | doubling keeps exactly the same items, each in the chain its hash now masks to, and sets the ideal length, the multipliers, the number of excess items, and whether the table may go on growing |
| `UtHash.Redistribute` | c/uthash.h:692-711 | the outer loop of the doubling loses and duplicates no item, counts the excess items, and leaves each bucket the multiplier of its length |
| `UtHash.MoveChain` | c/uthash.h:694-710 | the inner loop moves every item of a chain, in place, with the counts and multipliers of the new chains kept up |
| `UtHash.DeleteFromChain` | c/uthash.h:636-646 | a chain without the deleted item is linked both ways and counted |
| `UtHash.PatchNeighbours` | c/uthash.h:241-251 | the list neighbours of a deleted item are linked to each other |
| `UtHash.BucketIndex` | c/uthash.h:207-210 | masking a hash gives its remainder by the number of buckets |
| `UtHash.IdealLength` | c/uthash.h:688-690 | the ideal chain length is the rounded-up quotient and is never the 0 that the doubling would divide by |
| `UtHash.ExcessMeans` | c/uthash.h:699-703 | no item is in excess exactly when no chain is longer than ideal |
| `UtHash.HashTable.FsckPasses` | c/uthash.h:287-337 | a valid table passes every check of HASH_FSCK, and each item is in the chain its key hashes to |

## Left out

- IP text: `inet_pton`, `inet_ntop`, `resolve_ip` and the choice between IPv4 and IPv6 text are not modelled; addresses are bytes. `FreshTree.EmbeddedBits` says where an IPv4 address lies in an IPv6 tree.
- The two tables of reserved networks (c/tree.c:634-708) are not spelled out: a new tree takes any list of networks and stops at the first that is refused, as the code does.
- Perl glue: SV reference counts, `call_pv`, `call_method`, typemaps, argument checks in Tree.pm, and the Perl stack are not modelled.
- SHA-1, Sereal and UTF-8 encoding are parameters: a key function that is assumed injective, and an encoder of the data hash with its decoder.
- Floating point and character encoding: doubles and floats are their IEEE bytes, strings their UTF-8 bytes; whether Perl's text of a number or a boolean has four bytes or more is a parameter (`longText`), and the length of a string's internal form is taken to be that of its UTF-8 bytes.
- A hash given to the serializer is the list of its members in the order of their keys, so the sort in `_encode_map` is not modelled; the type that the map key callback returns is part of the field.
- What Math::Int128 makes of a string of digits of 2^128 or more is taken modulo 2^128, and whether an integer is an object or digits is a function of the typed value (`isObject`).
- Writing.WriteTree: is stated for data of which no two different fields that may be cached share a key (`DataSectionLaws.Universe`); what colliding keys do to single fields is `DataSectionLaws.StoreReadsIff`.
- DataSectionLaws.StoreCosts: is an upper bound, which counts five bytes for every control byte or pointer.
- Objects of classes that are built on hashes or arrays merge as hashes and arrays do and are modelled as these.
- Arrays given to the serializer may mix item types, which one member type per array does not allow.
- File and stream I/O, mmap, host byte order (little endian is assumed, as the thawing code does) and allocation failure are not modelled; writing builds a byte sequence.
- Reference counts, node numbers and the table's counters are unbounded; the sources use 32 bits.
- SearchTree.SearchTree.InsertNetwork: what a croak inside a nested merge leaves of the partly built Perl hash is not modelled, only the tree, the data table and the cache.
- SearchTree.SearchTree.InsertThawed: the key is counted while the insert runs and released after it, where the source relies on the counts that the insert itself makes; the table afterwards is the same.
- SearchTree.SearchTree.FindRecordForNetwork: is stated for full addresses, the only ones it is called with.
- Writing.WriteSearchTree: a croak drops the bytes written so far.
- Freezing.ThawNetworks: requires keys that the key function can produce and networks that fit the tree, as `Freezing.ThawTree` does.
- Freezing.ThawTree: requires keys that the key function can produce and networks that fit the tree, which a file from freeze_tree has; a truncated file croaks in the model and reads past its end in the source.
- UtHash.HashTable.Add: the data table and the merge cache are finite maps in `SearchTree`; that the hash table refines such a map is proved in `UtHash` on its own.
- HASH_SORT, HASH_SELECT, HASH_REPLACE, the Bloom filter, HASH_EMIT_KEYS and the hash functions themselves are not modelled; the hash function is arbitrary.
- The metadata section of a file is an arbitrary byte sequence after the data section.
- VisualizeTree, the Math::Int64 and Math::Int128 loaders, and build scripts have no part in this.
