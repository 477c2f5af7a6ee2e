# StackContainer in Dafny

A model of the `StackContainer` class (StackContainer/StackContainer.cs). It is
a tree of named byte arrays and named sub-containers, browsed through a stack
of open containers. Its parts:

- the tree and the stack: `OpenContainer`, `TryOpenContainer`, `Back`,
  `BackToRoot`, `CreateContainer`, `WriteValue`, `ReadValue`, `Delete`,
  `ContainerExists`, `ValueExists`, `GetContainerNames`, `GetValueNames`;
- the flattening encoder behind `Serialize()` (`Read` and the private
  `Serialize`);
- the decoder behind `new StackContainer(byte[])` (`Deserialize` and `Write`);
- the recursive merge `Join`.

Layout:

- `types.dfy`: the data model. A store is an arena `seq<Dir>`; dictionary 0 is
  the root. A `Dir` is the insertion-ordered list of a dictionary's entries. An
  entry holds a value (`Data(bytes)`) or a reference to another dictionary
  (`Sub(id)`). Names are sequences of UTF-16 code units, like C# strings.
  `StoreValid` is the invariant every store keeps:
  - keys are unique;
  - references point into the arena and to a later dictionary;
  - the one exception is the root's ".." self-entry.
  `TreeShaped` adds that no dictionary is the target of two entries, so the
  containers form a tree, as they do in the class, where each `Dictionary`
  object is created by one `CreateContainer` or one `Write`.
- `dirs.dfy`: the dictionary operations (`ContainsKey`, lookup, `Add`,
  assignment, `Remove`, enumeration) and what each public method does to the
  current dictionary.
- `containers.dfy`: the class `StackContainer`.
  - Fields: `store` and `cursor`, the stack of open dictionaries.
  - Its methods are specified against the functions of `dirs.dfy` and
    `merge.dfy`.
  - `Open` is the pure meaning of `OpenContainer`.
- `merge.dfy`: `Join` as a function on stores, and what a merge keeps and adds.
- `wire.dfy`: the byte layout `BinaryWriter`/`BinaryReader` produce:
  - little-endian `Int32`;
  - one-byte `bool`;
  - strings prefixed by a 7-bit-encoded byte count, in UTF-16LE;
  - decoding each of them inverts encoding.
- `encoder.dfy`: `Read` (the depth-first walk that lists the entities) and the
  writing of the entity list.
- `decoder.dfy`: parsing the entity list and `Write`, which rebuilds the tree
  from entity 0.
- `roundtrip.dfy`: `new StackContainer(c.Serialize())` rebuilds the tree `c`
  held.
- `subtrees.dfy`: paths of container names (`Walk`), and `Join` at every depth
  of the source.
- `findings.dfy`: three places where the code does not do what it evidently
  means to (see Findings).

Failures are a single outcome in the model. An exception becomes `Fail`, a
`false` result or `Merged(false, …)`.

Where the design description and the code differ, the model follows the code:

- The decoder skips a child index equal to the *parent* entity's index (line
  313), not one equal to the current entity's own index.
- Entity 0 is not the root itself but the root's first entry. For a fresh
  container that is the ".." self-entry, so a first load drops ".." from the
  root.
- `OpenContainer("..")` does more than go back (see Findings).

## Model

| member | source | states |
|---|---|---|
| Dirs.IndexOfName | StackContainer/StackContainer.cs:55-58 | the position of the first entry with the key, or -1 exactly when no entry has it |
| Dirs.FindAt | StackContainer/StackContainer.cs:55-58 | with unique keys, looking up an entry's own key finds that entry's item |
| Dirs.FindAppend | StackContainer/StackContainer.cs:132 | `Add` of an absent key makes it found with its item and changes no other lookup |
| Dirs.Remove | StackContainer/StackContainer.cs:174 | `Remove` takes out exactly the entry with the key: one entry fewer, the others kept |
| Dirs.FindRemove | StackContainer/StackContainer.cs:173-174 | after `Remove` the key is absent, keys stay unique and every other lookup is unchanged |
| Dirs.FindReplace | StackContainer/StackContainer.cs:160 | assigning an existing key changes its item and no other lookup |
| Dirs.CreateIn | StackContainer/StackContainer.cs:124-133 | creating succeeds exactly when the name is absent (a container fails the check at 126, a value the duplicate `Add`); on success one new empty dictionary is added, the name is appended last and refers to it, no other name and no other dictionary changes |
| Dirs.CreateKeepsValid | StackContainer/StackContainer.cs:124-133 | creating a container keeps the store invariant |
| Dirs.CreateKeepsTree | StackContainer/StackContainer.cs:124-133 | creating a container keeps every dictionary the target of at most one entry: the new one is referred to only by the new key |
| Dirs.WriteIn | StackContainer/StackContainer.cs:153-161 | writing succeeds exactly when the name is not a container and either `overwrite` is set or it is not a value; the name then holds the bytes, no other name changes, keys stay unique, and the dictionary grows by one entry exactly when the name was new |
| Dirs.WriteKeepsContainers | StackContainer/StackContainer.cs:153-161 | a successful write leaves every container entry of the dictionary at its place |
| Dirs.SameContainersKeepTree | StackContainer/StackContainer.cs:153-161 | replacing a dictionary by one with the same container entries at the same places keeps the store tree-shaped |
| Dirs.ReadIn | StackContainer/StackContainer.cs:140-146 | reading succeeds exactly when the name is a value, and gives its bytes |
| Dirs.DeleteIn | StackContainer/StackContainer.cs:171-177 | deleting succeeds exactly when the name is present, of either kind; it removes that entry and no other |
| Dirs.RemoveKeepsTree | StackContainer/StackContainer.cs:171-177 | removing an entry keeps every dictionary the target of at most one entry |
| Dirs.ContainerNames | StackContainer/StackContainer.cs:102-111 | the listing holds exactly the keys of container entries |
| Dirs.ValueNames | StackContainer/StackContainer.cs:113-122 | the listing holds exactly the keys of value entries |
| Dirs.ContainerNamesExact | StackContainer/StackContainer.cs:55-58 | a name is listed by `GetContainerNames` exactly when `ContainerExists` holds for it |
| Dirs.ContainerNamesDistinct | StackContainer/StackContainer.cs:102-111 | with unique keys the container listing names no container twice |
| Dirs.ValueNamesExact | StackContainer/StackContainer.cs:135-138 | a name is listed by `GetValueNames` exactly when `ValueExists` holds for it |
| Dirs.WriteOrder | StackContainer/StackContainer.cs:153-161 | a new key is enumerated last and an existing key keeps its place, now holding the bytes; the order of the other keys is unchanged |
| Dirs.DeleteOrder | StackContainer/StackContainer.cs:171-177 | deleting takes the key out of the enumeration and keeps the other keys in their order |
| Dirs.WriteThenRead | StackContainer/StackContainer.cs:140-161 | after a successful `WriteValue(n, b)`, `ReadValue(n)` gives `b` and reading any other name is unchanged |
| Merge.MergeValueMeaning | StackContainer/StackContainer.cs:200-209 | one value pass succeeds exactly when the destination's value is kept (no `overwrite`) or the name is a source value and not a destination container; it changes only that name, to the source's bytes unless kept; a failure changes nothing |
| Merge.MergeValue | StackContainer/StackContainer.cs:200-209 | copying one value keeps the destination a valid store with the same dictionaries |
| Merge.MergeValues | StackContainer/StackContainer.cs:198-209 | the value loop keeps the destination a valid store with the same dictionaries |
| Merge.MergeValuesFails | StackContainer/StackContainer.cs:198-209 | the value loop fails exactly when one of its names is a container in the destination |
| Merge.MergeValuesKeeps | StackContainer/StackContainer.cs:198-209 | the value loop changes only the destination's current dictionary, only at its own names, and keeps every key and every container |
| Merge.MergeValuesResult | StackContainer/StackContainer.cs:198-209 | after the value loop each name holds the source's bytes, or the destination's own value when `overwrite` is off and one existed |
| Merge.MergeLevel | StackContainer/StackContainer.cs:186-220 | a merge keeps the destination valid and never removes a dictionary |
| Merge.MergeKids | StackContainer/StackContainer.cs:211-214 | the container loop keeps the destination a valid store and only adds dictionaries |
| Merge.MergeChild | StackContainer/StackContainer.cs:188-198 | merging one child keeps the destination valid and only adds dictionaries; ".." is skipped with nothing changed (line 189), and a name the source does not hold as a container fails (line 193) |
| Merge.MergeLevelKeeps | StackContainer/StackContainer.cs:186-220 | a merge leaves the dictionaries before the current one alone and keeps every key and every container of the current one |
| Merge.KeepsFromTrans | StackContainer/StackContainer.cs:211-214 | what a merge keeps is kept across consecutive merges of the container loop |
| Merge.MergeKidsKeeps | StackContainer/StackContainer.cs:211-214 | the container loop keeps the destination's keys and items; every key it adds is a container; on success every name of the loop other than ".." is a container of the destination |
| Merge.MergeKidsAfter | StackContainer/StackContainer.cs:211-214 | the same for the rest of the loop, after one child is merged |
| Merge.MergeChildKeeps | StackContainer/StackContainer.cs:188-198 | one child merge keeps every existing key and adds at most its own name, as a container; on success that name is a container, except ".." which is skipped |
| Merge.ChildCases | StackContainer/StackContainer.cs:191-198 | for a source container, the child merge descends into the destination's container of that name, fails on a destination value of that name, or creates the container and descends into it |
| Merge.MergeKidsClash | StackContainer/StackContainer.cs:211-214 | the container loop fails when one of its names other than ".." is a value of the destination |
| Merge.MergeLevelClash | StackContainer/StackContainer.cs:186-220 | a merge fails when a source value is a destination container, or a source container other than ".." is a destination value |
| Merge.MergeLevelResult | StackContainer/StackContainer.cs:186-220 | after a successful merge every source value is present with the right bytes (kept destination values when `overwrite` is off), every source container other than ".." is a destination container, and every destination key is still there; this is one level, and `Subtrees.JoinDeep` states every depth |
| Merge.MergeLevelKeepsValues | StackContainer/StackContainer.cs:200-214 | after a successful merge, a value of the destination's current container that the source's does not hold keeps its bytes; `Subtrees.LevelKept` states every depth |
| Containers.OpenMeaning | StackContainer/StackContainer.cs:60-94 | opening fails exactly for ".." at the root, for a value, or for a missing name without `createNew`, and a failure changes nothing; ".." pops one level; any other name pushes the container the current one holds under it, and the stack below is unchanged |
| Containers.Open | StackContainer/StackContainer.cs:60-94 | opening keeps the store valid and tree-shaped and the stack inside it; a failure changes neither |
| Containers.Enter | StackContainer/StackContainer.cs:68-83 | entering succeeds exactly when `name` is a container, or is missing and `createNew` is set; success pushes one level on top of the old stack; failure changes nothing; the store stays valid and tree-shaped |
| Containers.OpenOrCreateSteps | StackContainer/StackContainer.cs:68-74 | opening with `createNew` is opening, or else `CreateContainer` followed by opening |
| Containers.FailureStops | StackContainer/StackContainer.cs:31-35 | once a source fails, the sources after it change nothing (the exception leaves the loop) |
| Containers.StackContainer.Top | StackContainer/StackContainer.cs:12 | the current dictionary is in the store |
| Containers.StackContainer.constructor | StackContainer/StackContainer.cs:26-29 | a fresh container is a root holding itself under "..", with only the root on the stack |
| Containers.StackContainer.Start | StackContainer/StackContainer.cs:14-19 | the stack starts with only the given root |
| Containers.StackContainer.Load | StackContainer/StackContainer.cs:21-24 | loading bytes fails exactly when decoding fails; otherwise it is a fresh container holding the decoded store, which is valid and tree-shaped (`Decoder.LoadStoreTree`), root on the stack |
| Containers.StackContainer.OpenContainer | StackContainer/StackContainer.cs:60-84 | the new store, stack and result are those `Open` gives, so `OpenMeaning` holds of them |
| Containers.StackContainer.OpenOrCreate | StackContainer/StackContainer.cs:193-198 | `TryOpenContainer(name)`, falling back to create-then-open, has exactly the effect of `OpenContainer(name, true)` for a name other than ".." |
| Containers.StackContainer.CreateThenOpen | StackContainer/StackContainer.cs:195-196 | when no container `name` exists, `CreateContainer(name)` then `OpenContainer(name)` has the effect of `OpenContainer(name, true)`: a value of that name fails with nothing changed, a missing name is created and pushed |
| Containers.StackContainer.TryOpenContainer | StackContainer/StackContainer.cs:42-53 | `OpenContainer(name)` with the failure turned into `false` |
| Containers.StackContainer.Back | StackContainer/StackContainer.cs:86-94 | pops exactly one level and answers true when more than one container is open; otherwise answers false and changes nothing |
| Containers.StackContainer.BackToRoot | StackContainer/StackContainer.cs:96-100 | ends with only the root open and the store unchanged |
| Containers.StackContainer.ContainerExists | StackContainer/StackContainer.cs:55-58 | holds exactly when the name is among those `GetContainerNames` lists |
| Containers.StackContainer.ValueExists | StackContainer/StackContainer.cs:135-138 | holds exactly when the name is among those `GetValueNames` lists, and exactly when `ReadValue` finds it |
| Containers.StackContainer.GetContainerNames | StackContainer/StackContainer.cs:102-111 | gives the container names of the current dictionary, in order |
| Containers.StackContainer.GetValueNames | StackContainer/StackContainer.cs:113-122 | gives the value names of the current dictionary, in order |
| Containers.StackContainer.CreateContainer | StackContainer/StackContainer.cs:124-133 | succeeds as `CreateIn` does on the current dictionary, stack unchanged, store unchanged on failure |
| Containers.StackContainer.ReadValue | StackContainer/StackContainer.cs:140-146 | gives what `ReadIn` gives on the current dictionary |
| Containers.StackContainer.WriteValue | StackContainer/StackContainer.cs:153-161 | succeeds as `WriteIn` does and replaces only the current dictionary; stack unchanged; store unchanged on failure |
| Containers.StackContainer.Delete | StackContainer/StackContainer.cs:171-177 | succeeds as `DeleteIn` does and replaces only the current dictionary; stack unchanged; store unchanged on failure |
| Containers.StackContainer.Serialize | StackContainer/StackContainer.cs:179-184 | leaves only the root open and gives the bytes of the whole store |
| Containers.StackContainer.Join | StackContainer/StackContainer.cs:37-40 | merges the source's current container into the current one as `MergeLevel`, keeps the source's store and, on success, both stacks; `Subtrees.JoinDeep` states what that merge does at every depth |
| Containers.StackContainer.JoinAll | StackContainer/StackContainer.cs:31-35 | merges the sources one after another up to the first failure; the sources' stores are unchanged, and on success all stacks are as before |
| Containers.StackContainer.JoinEach | StackContainer/StackContainer.cs:31-35 | the loop of `Join(params)` against the merges of the sources' starting views |
| Containers.StackContainer.JoinNext | StackContainer/StackContainer.cs:33-34 | one pass of that loop adds the next source's merge |
| Containers.StackContainer.CopyValue | StackContainer/StackContainer.cs:200-209 | one value of the source copied as `MergeValue` says, stack unchanged |
| Containers.StackContainer.CopyNext | StackContainer/StackContainer.cs:198-209 | one pass of the value loop, followed by the rest of the loop, is the whole loop; a failure ends it |
| Containers.StackContainer.JoinValues | StackContainer/StackContainer.cs:198-209 | the value loop of `Join` as `MergeValues` |
| Containers.StackContainer.JoinLevel | StackContainer/StackContainer.cs:186-220 | `Join` on the current containers as `MergeLevel`; the source's store is unchanged, and on success both stacks are as before |
| Containers.StackContainer.JoinKids | StackContainer/StackContainer.cs:211-214 | the container loop of `Join` as `MergeKids` |
| Containers.StackContainer.JoinChild | StackContainer/StackContainer.cs:188-198 | one child of the container loop as `MergeChild`, both stacks back where they were on success |
| Wire.ToInt32 | StackContainer/StackContainer.cs:244 | a length as the `Int32` the writer stores: in range and equal modulo 2^32 |
| Wire.EncInt32 | StackContainer/StackContainer.cs:232 | four bytes; `Int32Bytes` gives their value and `Int32RoundTrip` reads them back |
| Wire.DecInt32 | StackContainer/StackContainer.cs:271 | reading succeeds exactly when four bytes are left, gives a 32-bit signed value and consumes exactly those four bytes |
| Wire.EncBool | StackContainer/StackContainer.cs:238-239 | one byte, non-zero exactly for true |
| Wire.DecBool | StackContainer/StackContainer.cs:275 | reading succeeds exactly when a byte is left, gives true exactly for a non-zero byte and consumes that byte |
| Wire.Enc7Bit | StackContainer/StackContainer.cs:236 | never empty, and one byte exactly for numbers below 128 |
| Wire.Enc7BitShape | StackContainer/StackContainer.cs:236 | every byte but the last has its high bit set and the last has it clear |
| Wire.Utf16 | StackContainer/StackContainer.cs:230 | two bytes per code unit |
| Wire.Int32Bytes | StackContainer/StackContainer.cs:232 | the four bytes written are `n` modulo 2^32, least significant first |
| Wire.Int32RoundTrip | StackContainer/StackContainer.cs:271 | `ReadInt32` after `Write(int)` gives back the number and leaves the rest of the stream |
| Wire.SevenBitRoundTrip | StackContainer/StackContainer.cs:274 | reading the 7-bit-encoded length prefix gives back the length |
| Wire.Utf16RoundTrip | StackContainer/StackContainer.cs:230 | UTF-16LE decoding inverts encoding |
| Wire.EncName | StackContainer/StackContainer.cs:236 | a non-empty length prefix followed by the UTF-16LE bytes of the name |
| Wire.NameRoundTrip | StackContainer/StackContainer.cs:236 | `ReadString` after `Write(string)` gives back the name and leaves the rest |
| Wire.EncInts | StackContainer/StackContainer.cs:250-255 | four bytes per child index |
| Wire.EncRecord | StackContainer/StackContainer.cs:236-256 | each entity takes at least six bytes: the name's prefix, the flag and a count |
| Wire.EncRecords | StackContainer/StackContainer.cs:234-257 | the entities take at least six bytes each |
| Wire.EncodeAll | StackContainer/StackContainer.cs:228-259 | the buffer starts with the entity count and holds at least six bytes per entity after it; `EncodeAllRoundTrip` reads it back |
| Wire.ParseInts | StackContainer/StackContainer.cs:283-287 | reading `n` indices appends exactly `n` of them to what was read before (none for a count of zero or less) and never grows the input |
| Wire.ParseRecords | StackContainer/StackContainer.cs:272-290 | reading `n` entities appends exactly `n` of them to what was read before (none for a count of zero or less) |
| Wire.ParseAll | StackContainer/StackContainer.cs:267-292 | a successful parse gives as many entities as the leading count says, none for zero or less |
| Wire.Dec7BitPrefix | StackContainer/StackContainer.cs:274 | a 7-bit number takes one to five bytes, counting those read before, from the front of the input and leaves the rest |
| Wire.DecNamePrefix | StackContainer/StackContainer.cs:274 | a string takes from the front more bytes than twice its length and leaves the rest |
| Wire.ParseIntsShape | StackContainer/StackContainer.cs:283-287 | reading `n` indices succeeds exactly when 4n bytes are left (none for a count of zero or less); it keeps what was read before, reads 32-bit values and leaves exactly the input after those 4n bytes |
| Wire.ParseRecordPrefix | StackContainer/StackContainer.cs:274-289 | an entity takes at least six bytes from the front of the input and leaves the rest |
| Wire.IntsRoundTrip | StackContainer/StackContainer.cs:283-287 | the child index loop reads back the indices written at 250-255 |
| Wire.HeadRoundTrip | StackContainer/StackContainer.cs:274-275 | name then kind flag read back as written at 236-239 |
| Wire.ValueRoundTrip | StackContainer/StackContainer.cs:276-279 | a value entity reads back as written at 241-246 |
| Wire.ContainerRoundTrip | StackContainer/StackContainer.cs:280-289 | a container entity reads back as written at 247-256 |
| Wire.RecordRoundTrip | StackContainer/StackContainer.cs:272-290 | any entity that fits the format reads back as written |
| Wire.ParseRecordsStep | StackContainer/StackContainer.cs:272-290 | one pass of the entity loop |
| Wire.FirstRecordRoundTrip | StackContainer/StackContainer.cs:272-290 | the first pass of the loop reads the first entity written |
| Wire.RecordsRoundTrip | StackContainer/StackContainer.cs:272-290 | the entity loop reads back every entity written at 234-257, in order |
| Wire.EncodeAllRoundTrip | StackContainer/StackContainer.cs:271-290 | the entity list parsed from the bytes written at 232-257 is the list written |
| Encoder.FlattenDir | StackContainer/StackContainer.cs:340-357 | the walk only extends the list; everything it adds is an entry of the store, with its children listed; it adds no container twice; every entry of the dictionary ends up listed |
| Encoder.FlattenEntries | StackContainer/StackContainer.cs:342-356 | the same, from the `i`-th entry of the dictionary on |
| Encoder.DescentExtends | StackContainer/StackContainer.cs:346-350 | listing a container and walking it extends the list as the walk promises |
| Encoder.Entities | StackContainer/StackContainer.cs:224-226 | every container entity refers into the store |
| Encoder.IndexOf | StackContainer/StackContainer.cs:253 | the first position holding the entity, or -1 exactly when it is not listed |
| Encoder.ChildIndices | StackContainer/StackContainer.cs:249-255 | one index per child; what each index is, `ChildIndexMeaning` states |
| Encoder.ChildIndexMeaning | StackContainer/StackContainer.cs:250-255 | the index written for a child is -1 exactly when the child is not listed, and otherwise a position of the list holding that child |
| Encoder.RecordOf | StackContainer/StackContainer.cs:236-256 | an entity is written under its name, as a value exactly when it is one; `RecordOfMeaning` adds its bytes or its child count |
| Encoder.RecordOfMeaning | StackContainer/StackContainer.cs:236-256 | an entity is written under its name, as a value exactly when it is one, with its bytes, or with one index per child |
| Encoder.Records | StackContainer/StackContainer.cs:234-257 | one record per listed entity |
| Encoder.ChildIndicesValid | StackContainer/StackContainer.cs:249-255 | no container entity is listed twice, and every child index written for a container entity is in range and names the very entry of that child |
| Encoder.EntryOrigin | StackContainer/StackContainer.cs:340-357 | every entity is an entry of some dictionary of the store |
| Encoder.FirstEntity | StackContainer/StackContainer.cs:342-348 | entity 0 is the root's first entry |
| Encoder.Read | StackContainer/StackContainer.cs:340-357 | the loop lists what `FlattenDir` lists |
| Encoder.WriteChildIndices | StackContainer/StackContainer.cs:250-255 | writes `IndexOf` of each child, in order |
| Encoder.WriteEntity | StackContainer/StackContainer.cs:236-256 | writes the record of one entity |
| Encoder.WriteEntities | StackContainer/StackContainer.cs:234-257 | the loop writes the records of the entity list, in order |
| Encoder.Serialize | StackContainer/StackContainer.cs:222-261 | writes the count, then the records of every entity |
| Encoder.SerializeStore | StackContainer/StackContainer.cs:222-261 | the bytes start with the number of listed entities and hold at least six bytes per entity after it |
| Decoder.ReadIndices | StackContainer/StackContainer.cs:282-287 | the index loop parses as `ParseInts` |
| Decoder.ReadEntity | StackContainer/StackContainer.cs:274-289 | one entity parses as `ParseRecord` |
| Decoder.ReadNext | StackContainer/StackContainer.cs:273-289 | one pass of the entity loop: either the rest fails, or the rest parses from where this pass ends |
| Decoder.ReadRecords | StackContainer/StackContainer.cs:272-290 | the entity loop parses as `ParseRecords` |
| Decoder.ReadEntities | StackContainer/StackContainer.cs:271-290 | the count, then the entities, as `ParseAll` |
| Decoder.Expand | StackContainer/StackContainer.cs:301-308 | rebuilding a dictionary only adds dictionaries, only appends to the one being filled, and keeps the rebuilt part ordered with unique keys |
| Decoder.ExpandKids | StackContainer/StackContainer.cs:310-337 | the same, from the `j`-th child index on |
| Decoder.AddKeepsBuilt | StackContainer/StackContainer.cs:331-335 | an `Add` of a new key referring forward keeps the rebuilt part ordered with unique keys |
| Decoder.DeserializeBytes | StackContainer/StackContainer.cs:263-299 | a successful decode is a valid store |
| Decoder.Write | StackContainer/StackContainer.cs:301-338 | `Write` rebuilds as `Expand` |
| Decoder.Deserialize | StackContainer/StackContainer.cs:263-299 | the parse, then `Write(root, entities, 0, 0)`, as `DeserializeBytes` |
| Decoder.LoadStore | StackContainer/StackContainer.cs:26-29 | a loaded store is valid and gets the root's ".." self-entry in front of the decoded entries, as a fresh container has it |
| Decoder.Load | StackContainer/StackContainer.cs:21-24 | loading as `LoadStore` |
| Decoder.ExpandTree | StackContainer/StackContainer.cs:301-338 | rebuilding a dictionary keeps the arena closed and every dictionary the target of at most one entry, and changes no reference to an earlier dictionary |
| Decoder.ExpandKidsTree | StackContainer/StackContainer.cs:310-337 | the same for the child loop from the `j`-th child index on |
| Decoder.AddChildKeeps | StackContainer/StackContainer.cs:325-332 | adding a filled child under its key, once, keeps the arena closed and tree-shaped |
| Decoder.AddChildTree | StackContainer/StackContainer.cs:331 | adding a reference to a dictionary nothing referred to keeps the arena tree-shaped |
| Decoder.LoadStoreTree | StackContainer/StackContainer.cs:21-24 | a loaded store is tree-shaped: every dictionary is the target of at most one entry |
| RoundTrip.UnfoldDir | StackContainer/StackContainer.cs:102-122 | the tree of a dictionary lists its keys in order |
| RoundTrip.ChildFacts | StackContainer/StackContainer.cs:313-318 | each child index of a written container entity is in range, names the child, and equals the parent index exactly for the root's ".." |
| RoundTrip.FreshName | StackContainer/StackContainer.cs:331-335 | the key the decoder adds next is not yet in the dictionary being rebuilt |
| RoundTrip.ValueStep | StackContainer/StackContainer.cs:333-336 | decoding a value child adds that value and keeps the rebuilt prefix equal to the original |
| RoundTrip.AttachChild | StackContainer/StackContainer.cs:331 | adding a rebuilt container keeps the rebuilt prefix equal to the original |
| RoundTrip.ChildRebuilt | StackContainer/StackContainer.cs:325-330 | the recursive `Write` on a container child rebuilds that child's whole tree |
| RoundTrip.ContainerStep | StackContainer/StackContainer.cs:325-332 | decoding a container child adds it with its rebuilt tree |
| RoundTrip.KidStep | StackContainer/StackContainer.cs:310-337 | one pass of the child loop keeps the rebuilt prefix equal to the original |
| RoundTrip.KidsRebuild | StackContainer/StackContainer.cs:310-337 | the child loop from any point succeeds and rebuilds the original dictionary |
| RoundTrip.Rebuild | StackContainer/StackContainer.cs:301-338 | `Write` on any container entity rebuilds the tree of that container |
| RoundTrip.RecordsEncodable | StackContainer/StackContainer.cs:234-257 | every entity written for a store that fits the format's `Int32` counts can be read back |
| RoundTrip.SerializeThenDeserialize | StackContainer/StackContainer.cs:222-299 | for a store whose root starts with its ".." self-entry, decoding `Serialize()` succeeds and gives the same tree less that entry: same keys in the same order, same bytes, same nesting |
| RoundTrip.UnfoldPrepend | StackContainer/StackContainer.cs:26-29 | putting ".." back in front of the root adds exactly that entry to its tree |
| RoundTrip.SerializeThenLoad | StackContainer/StackContainer.cs:179-184 | with ".." put back, serializing and loading gives the whole tree back, in a store of the same shape |
| Subtrees.Walk | StackContainer/StackContainer.cs:60-84 | the dictionary a chain of `OpenContainer` calls reaches, when it reaches one, is in the store |
| Subtrees.ExtendsTrans | StackContainer/StackContainer.cs:186-220 | a store grown from one grown from a third has grown from that third |
| Subtrees.WalkForward | StackContainer/StackContainer.cs:60-84 | opening containers only moves to later dictionaries, strictly so for a non-empty path |
| Subtrees.WalkLast | StackContainer/StackContainer.cs:60-84 | a path reaches the container of its last name in the dictionary the rest of the path reaches |
| Subtrees.StepReaches | StackContainer/StackContainer.cs:60-84 | what a container reaches, the dictionary holding it reaches too |
| Subtrees.WalkExtends | StackContainer/StackContainer.cs:186-220 | a path that leads somewhere in a store leads to the same dictionary after the store has grown |
| Subtrees.SameWalks | StackContainer/StackContainer.cs:198-209 | stores with the same containers under the same keys have the same paths |
| Subtrees.WalkUnchanged | StackContainer/StackContainer.cs:186-220 | a path from a dictionary is unchanged when nothing it reaches has changed |
| Subtrees.WalksMeet | StackContainer/StackContainer.cs:124-133 | in a tree, two paths that end at the same dictionary start one above the other |
| Subtrees.NotBelowSibling | StackContainer/StackContainer.cs:211-214 | in a tree, a container does not reach a sibling container of another name |
| Subtrees.Disjoint | StackContainer/StackContainer.cs:211-214 | in a tree, two sibling containers reach no dictionary in common |
| Subtrees.BelowChildExtends | StackContainer/StackContainer.cs:186-220 | a dictionary under a container stays under it as the store grows |
| Subtrees.ValuesFrame | StackContainer/StackContainer.cs:198-209 | the value loop changes only the current dictionary and leaves its container entries where they were |
| Subtrees.ValuesTree | StackContainer/StackContainer.cs:198-209 | the value loop keeps the store a tree with the same containers under the same keys |
| Subtrees.LevelFrame | StackContainer/StackContainer.cs:186-220 | a merge only grows the destination, keeps it a tree, and changes only dictionaries the current one reaches |
| Subtrees.KidsFrame | StackContainer/StackContainer.cs:211-214 | the container loop only grows the destination, keeps it a tree, and changes besides the current dictionary only dictionaries under a container it merges |
| Subtrees.ChildFrame | StackContainer/StackContainer.cs:188-198 | merging one container changes besides the current dictionary only dictionaries under the destination's container of that name |
| Subtrees.LevelBelow | StackContainer/StackContainer.cs:186-220 | a successful merge does its work at every path of the source |
| Subtrees.KidsBelow | StackContainer/StackContainer.cs:211-214 | a successful container loop does its work at every path below each name it merges |
| Subtrees.FirstKid | StackContainer/StackContainer.cs:211-214 | the work done for one child survives the merges of the later children |
| Subtrees.LaterKid | StackContainer/StackContainer.cs:211-214 | the merge of one child leaves the paths below another child as they were |
| Subtrees.ChildBelow | StackContainer/StackContainer.cs:188-198 | merging one container does its work at every path below that name |
| Subtrees.LevelKept | StackContainer/StackContainer.cs:200-214 | a successful merge leaves alone, at every path of the destination, each value the source does not hold at that path |
| Subtrees.ValuesKept | StackContainer/StackContainer.cs:201-209 | the value loop changes nothing below the current dictionary, so what the container loop keeps is kept from the original destination |
| Subtrees.OtherKidKept | StackContainer/StackContainer.cs:211-214 | a dictionary under a destination container the source lacks is not changed by the container loop |
| Subtrees.KidsKept | StackContainer/StackContainer.cs:211-214 | below each name of the container loop, the values the source does not hold keep their bytes |
| Subtrees.FirstKidKept | StackContainer/StackContainer.cs:211-214 | the rest of the loop does not change what lies under the name merged first |
| Subtrees.LaterKidKept | StackContainer/StackContainer.cs:211-214 | merging one name does not change what lies under a later name |
| Subtrees.ChildKept | StackContainer/StackContainer.cs:188-198 | merging one container leaves alone, below that name, the values the source does not hold |
| Subtrees.JoinDeep | StackContainer/StackContainer.cs:186-220 | a successful `Join` keeps every path of the destination, keeps it a tree, and at every path the source reaches from its current container the destination holds a dictionary with each of the source's values there: the source's bytes, or the destination's own value when it had one and `overwrite` is off; and at every path of the destination, each value the source does not hold at that path keeps its bytes |
| Subtrees.NestedInner | StackContainer/StackContainer.cs:186-220 | merging "p" of that source into a newly created "p" succeeds |
| Subtrees.NestedJoin | StackContainer/StackContainer.cs:186-220 | joining that source into a fresh root succeeds and leaves "p"/"v1" = [1] in the destination |
| Findings.OpenAsWritten | StackContainer/StackContainer.cs:60-84 | `OpenContainer` as written: after `Back()` for "..", the lookup of ".." continues in the parent; the store stays valid |
| Findings.BackFromChildReentersRoot | StackContainer/StackContainer.cs:62-83 | one level down, ".." as written leaves the root open twice, where `Open` leaves it once |
| Findings.BackFromDeeperFails | StackContainer/StackContainer.cs:62-71 | two or more levels down, ".." as written fails after losing a level, where `Open` succeeds |
| Findings.BackFromDeeperCreates | StackContainer/StackContainer.cs:62-83 | with `createNew`, ".." as written creates a container named ".." and descends into it |
| Findings.NestedBackFails | StackContainer/StackContainer.cs:62-71 | the failure on the store root/"a"/"b" with "b" open |
| Findings.JoinAsWritten | StackContainer/StackContainer.cs:186-220 | `Join` as written, where "" does not open a child; the store stays valid |
| Findings.LevelAsWritten | StackContainer/StackContainer.cs:200-214 | one level of it |
| Findings.KidsAsWritten | StackContainer/StackContainer.cs:211-214 | its container loop |
| Findings.EmptyNameNeverJoins | StackContainer/StackContainer.cs:191-214 | a source container holding a container named "" never joins successfully, however deep the calls go |
| Findings.EmptyKidNeverJoins | StackContainer/StackContainer.cs:211-214 | a container loop that reaches "" never succeeds |
| Findings.EmptyNameDiverges | StackContainer/StackContainer.cs:191-214 | joining a root that holds only an empty "" into an empty root neither fails nor ends |
| Findings.CreateEmptyNamed | StackContainer/StackContainer.cs:124-133 | creating "" in an empty root gives that store |
| Findings.EmptyLevelJoins | StackContainer/StackContainer.cs:186-220 | the empty "" merges without change |
| Findings.EmptyChildJoins | StackContainer/StackContainer.cs:188-198 | `MergeChild` creates "" in the destination |
| Findings.EmptyNameJoins | StackContainer/StackContainer.cs:186-220 | `MergeLevel` copies that "" container and succeeds |
| Findings.ReloadLosesRoot | StackContainer/StackContainer.cs:294-308 | a store whose root lacks ".." and starts with a value decodes, after `Serialize`, to an empty root |
| Findings.FirstReloadDropsParent | StackContainer/StackContainer.cs:294-316 | the first load of a fresh container's bytes has no ".." in its root and starts with the next key |
| Findings.WithParentEntities | StackContainer/StackContainer.cs:340-357 | the walk of root {"..", "a"} lists "..", "a", "a" |
| Findings.LoneValueReload | StackContainer/StackContainer.cs:294-308 | a root holding only a value loads back empty |
| Findings.ReloadTwiceEmpties | StackContainer/StackContainer.cs:21-24 | root {"..", "a": [1]} loads as {"a": [1]}, which, serialized and loaded again, is {} |

## Left out

- The text overloads `ReadValue(name, Encoding)` and `WriteValue(name, text, Encoding)` (lines 148-151, 163-169): thin wrappers over `System.Text.Encoding`.
- Exception types and messages (lines 359-370), including the `FormatException` the format strings at 158 and 176 raise: every failure is one outcome.
- Streams (`MemoryStream`, `BinaryWriter`, `BinaryReader`): only the byte layout they produce is modelled.
- `ReadBytes` returning fewer bytes on a truncated stream: truncation fails in the model, as does an odd number of bytes in a UTF-16 string.
- `null` values: values are byte sequences. A `null` written by `WriteValue` would crash `Serialize` at line 244.
- .NET `Dictionary` slot reuse after `Remove`, which can change enumeration order: dictionaries are insertion-ordered lists.
- Byte-array identity: values are compared by content. .NET compares `byte[]` by reference (lines 253 and 346), so where a value child has the same name and equal bytes as a value listed earlier from another container, `Encoder.IndexOf` gives the earlier entity's index and .NET the child's own. The indices `Serialize` writes then differ from .NET's, though both decode to the same tree.
- Reference identity of dictionaries: entries are compared by name and arena index, which is what `KeyValuePair` equality compares.
- `Join` with the same object as source and destination: the methods require distinct objects.
- Concurrency: the class has none.
- Decoder.ExpandKids: a child index whose (parent, current) call is already running fails. The source would recurse until the stack overflows.
- Containers.StackContainer.JoinAll: on failure it does not state where the stacks are left, in the destination or in the sources. The source throws with them part-way down.
- Containers.StackContainer.JoinLevel: on failure it does not state the stacks either.
- Containers.StackContainer.OpenContainer: models the intended behaviour of "..". The code as written is `Findings.OpenAsWritten` (see Findings).
- Containers.StackContainer.Load: puts the root's ".." back in front. The code as written is `Decoder.DeserializeBytes` (see Findings).
- Containers.StackContainer.Join: "" is an ordinary name. The code as written is `Findings.JoinAsWritten` (see Findings).
- Containers.StackContainer.JoinAll: a source child named "" is merged like any other container, as in `Join`; the code as written is `Findings.JoinAsWritten`.
- Containers.StackContainer.JoinLevel: a source child named "" is merged like any other container. As written, the recursive call at line 213 passes "", which lines 191 and 216 take for the top-level call, so the current level is merged again (`Findings.EmptyNameNeverJoins`).
- Containers.StackContainer.JoinKids: a child named "" is opened in both containers and merged as an ordinary container. As written, line 213 re-runs the current level for it and never finishes (`Findings.EmptyKidNeverJoins`, `Findings.EmptyNameDiverges`).
- Containers.StackContainer.JoinChild: for the name "" it opens the child in both containers and goes back afterwards. As written, lines 191 and 216 skip the open and the `Back()` for "", so the current level is merged again instead of the child (`Findings.JoinAsWritten`).
- Containers.StackContainer.TryOpenContainer: ".." pops one level and answers true whenever two or more containers are open; with only the root open it answers false and changes nothing, as the source does. As written (lines 42-53 with 62-83), the pop is followed by a lookup of ".." in the new top. With exactly two open, that top is the root, whose ".." refers to itself, so it answers true with the root open twice (`Findings.BackFromChildReentersRoot`). With three or more open, the new top has no ".." key, so it answers false with the stack one level shorter (`Findings.BackFromDeeperFails`). `TryOpenContainer` passes no `createNew`, so the ".." container that `Findings.BackFromDeeperCreates` shows being created does not arise through it.
- Wire.Dec7Bit: follows .NET Framework's `Read7BitEncodedInt`, which accepts any fifth byte below 0x80 and keeps the low 32 bits. .NET Core 3.0 and later throw `FormatException` for a fifth byte above 0x0F, so such a length prefix reads here and not there.
- Wire.Utf16: writes an unpaired surrogate code unit unchanged. .NET's `Encoding.Unicode` writes U+FFFD (bytes FD FF) in its place.
- Wire.NameRoundTrip: holds for every sequence of code units. In .NET a name holding an unpaired surrogate comes back with U+FFFD in its place, so the round trip holds there only for well-formed UTF-16 names.
- RoundTrip.SerializeThenDeserialize: the same gap for the keys of the store: in .NET a key with an unpaired surrogate is not read back unchanged.
- RoundTrip.SerializeThenLoad: the same gap as `RoundTrip.SerializeThenDeserialize`.
- StackContainer.CLI/Program.cs: console and file-system I/O around the class.

## Findings

| source | as written | input that shows it | evidently intended | confidence | as-written member | corrected member |
|---|---|---|---|---|---|---|
| StackContainer/StackContainer.cs:62-66 | after a successful `Back()` for "..", `OpenContainer` goes on to look up ".." in the parent and push it | "b" open in root/"a"/"b": `OpenContainer("..")` throws not-found with "a" already open; from "a" it leaves the root open twice; with `createNew` it creates a container named ".." | return after `Back()`: ".." pops one level | high, not executed | Findings.OpenAsWritten, Findings.BackFromDeeperFails, Findings.BackFromChildReentersRoot, Findings.BackFromDeeperCreates | Containers.Open, Containers.OpenMeaning |
| StackContainer/StackContainer.cs:188-220 | the top-level call passes the name "", which is also a legal container name; a child named "" re-runs the current level | source root {"": {}} joined into an empty root: recursion without end (stack overflow) | "" opens its child like any other name | high, not executed | Findings.JoinAsWritten, Findings.EmptyNameNeverJoins, Findings.EmptyNameDiverges | Merge.MergeChild, Findings.EmptyNameJoins |
| StackContainer/StackContainer.cs:21-24 | `new StackContainer(byte[])` does not put back the root's ".." self-entry, so `Serialize()` of a loaded container makes the root's first key entity 0 | {"..", "a": [1]} loads as {"a": [1]}; that loads again as {} | the byte constructor installs ".." before the decoded entries, for example in the dictionary handed to `Write` | high, not executed | Findings.FirstReloadDropsParent, Findings.ReloadLosesRoot, Findings.ReloadTwiceEmpties | Decoder.LoadStore, RoundTrip.SerializeThenLoad |
