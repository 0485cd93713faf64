# micronfs in Dafny

micronfs is a small NFS version 3 client. This project models its three parts in which the most can go
wrong, and proves what they are for.

**The metadata cache** (`cache/cached_tree.c`). Names are interned in a binary tree whose key comparison
wraps around and is not transitive. Directories are slices of one arena of entries. A flat table of
contents maps full directory paths to entries, so that a path is looked up without walking the tree.
File handles are packed into one word and an append-only array. `NameCache`, `DirectoryTree`,
`PathCreation`, `FileHandles` and `FileCache` say what each operation does to the contents of the arenas
and prove the laws; `CacheRuns`, `OwnKeys` and `FileRuns` prove them over all runs from the initial state, and
`Capacity` says when creations succeed; the class
`CachedTree.Cache` has the arrays and counters of `cache_t`, with methods that change them in place and are
proved to do what those functions say. `Crc32c` covers the checksum behind the keys and the files.

**The RPC layer** (`rpc_serializer.c`, `rpc_serializer.h`). `Xdr` defines encodings and reads of flat byte
strings. `RpcSerializer` is the buffer that calls are built in. `RpcDeserializer` is the window of 1460
bytes over a TCP stream; its ghost fields hold the whole reply and the position in it, and every read is
proved to return what the same read of the flat reply returns, for every way in which `recv` cuts the stream.

**The protocol loops** (`nfs_common.inl`, `nfsls.c`). `Replies`, `DirListing`, `Readdirplus` and `NfsRead`
decode READDIRPLUS and READ replies through that window; `SentHandles` says which handles reach the server as it gave
them, and `Paging` sends the calls and pages through a directory against an abstract server. `Population`
joins the three parts: what the listing callback leaves in the cache; `PopulationRoom` says when it gets through.

Bytes are bit-vectors (`byte`) in the cache, where checksums are computed, and numbers (`Octet`) in the RPC
layer, where words are.

Where the C code aborts, overruns memory, dereferences a null pointer or waits for bytes that never come,
the model returns `Stopped` with that reason (`Outcomes`), so contracts say when that happens.

`recv` may return any non-empty prefix of what is pending. Two assumptions about it are named where a
theorem needs them (`RpcDeserializer.Policy`): `wholeWords`, it returns whole words; `prompt`, a call that
the code does not repeat delivers all it is asked for. What is decoded never depends on them, only whether
decoding gets through.

## Where the code does not do what it is for

The model follows the code. The members named say exactly when the code does what it is for, or what it does instead.

- `ResetCache` sets `metadata_size` to 0 after `InitCache` set it to 1, so the root's own entry is handed
  out (`CacheRuns.InitialInvariant`, `CacheRuns.RootSlotMustBeTaken`, `CacheRuns.RootOverwritten`). The
  theorems on runs start from a counter of at least 1.
- `GetOrCreateEntryFromFullPath` keeps the key of the previous segment after creating parents
  (`PathCreation.AsIntendedWhen`, `PathCreation.CreateFromPathStale`, `PathCreation.StaleKeyExample`);
  `PathCreation.CreateAsIntendedCorrect` is about the same operation with the right key. With a stale key a
  directory can come to hold one name twice (`OwnKeys.NameTwice`, `OwnKeys.CreateFromPathOwnKey`).
- `AddFile` takes file records of 24 bytes out of the arena of directory records of 32 bytes (the sizes
  with 64-bit pointers), with the same counter (`FileCache.CarvedRecordOverlaps`, `FileCache.ArenaApartWhen`).
- `AddFile` keeps the length of a path in sixteen bits (`FileCache.LongPathCut`).
- `handleToPtr` measures eight words and reserves the value 1 (`FileHandles.RoundTrip`).
- Calls push as many bytes of a handle as `fhandle3_length` measures, not as many as the server gave
  (`SentHandles.SentIsGiven`, `Paging.HandleReadBack`).
- `populateCache_cb` gives a file a size while it has no data (`Population.WrittenToNothing`).
- The check in `RPCSerializer_PushString` wraps around near four gigabytes (`RpcSerializer.StringCheckIsExact`).
- `SkipAuth` and `ReadFileHandle` step over padding they did not ask for: without whole-word
  refills they may leave the received bytes (`RpcDeserializer.PaddingSureWhen`,
  `RpcDeserializer.PaddingMayBeMissing`).
- `RefillBuffer` calls `recv` at most twice, so a later assertion may fail for want of bytes
  (`RpcDeserializer.RefillSufficesWhen`).
- The last copy in `nfs_read` takes the rest of the window, so it needs room for the padding
  (`NfsRead.ReceiveRead`, `NfsRead.BufferAfterRead`).
- `nfs_readdirplus` goes on after an error status, which comes with attributes only, and so never gets
  through such a reply (`Paging.ReadableWhenOk`, with `Paging.NfsReaddirplus`); `nfs_read` returns -1
  (`NfsRead.ReadRefused`).

## Model

| member | source | states |
|---|---|---|
| Crc32c.TableIsEightSteps | cache/crc32.c:42-107 | each of the 256 table words is its index reduced bit by bit, eight steps of the reflected Castagnoli polynomial |
| Crc32c.TableUpdateIsUpdate | cache/crc32.c:129-130 | the table step equals the bitwise step for every state and byte |
| Crc32c.SingleTableCrc32c | cache/crc32.c:109-133 | the byte loop computes the bitwise CRC for every length and initial value |
| Crc32c.SingleTableCrc32cBy4 | cache/crc32.c:113-133 | the four-at-a-time loop with its tail computes the same bitwise CRC |
| Crc32c.IntrinsicCrc32c | cache/crc32.c:155-203 | the alignment-peeling word loop computes the same bitwise CRC from every start address |
| Crc32c.Crc32c | cache/crc32.c:209-219 | whichever form is compiled in, the result is the bitwise CRC |
| Crc32c.CrcConcat | cache/crc32.c:109-133 | the CRC of a concatenation is the CRC of the second part started from the CRC of the first |
| Crc32c.CrcOfWord | cache/crc32.c:116-122 | up to four bytes may be xored into the state at once and then stepped through |
| Crc32c.CrcInjectiveInState | cache/crc32.c:129-130 | over the same bytes, different states never meet: the step can be inverted |
| Crc32c.SmallChangeChangesCrc | cache/cached_tree.c:614-630 | two contents of equal length that differ only inside four consecutive bytes and have one CRC are equal |
| NameCache.SameKey | cache/cached_tree.h:215-223 | two names have one key exactly when their lengths, modulo 65536, and the lower sixteen bits of their checksums agree |
| NameCache.KeyIs | cache/cached_tree.h:215-223 | a key is the length modulo 65536 above the lower sixteen bits of the checksum started from all ones |
| NameCache.WrappedDifferenceIs | cache/cached_tree.c:203 | the comparison of keys is their difference as a signed 32-bit number |
| NameCache.MemcmpSign | cache/cached_tree.c:208 | of two blocks of one length, the first byte in which they differ decides the order |
| NameCache.KeyOrderIsCyclic | cache/cached_tree.c:203 | the wrapped comparison of keys is not transitive: any names of 1, 20480 and 40960 bytes stand in a circle, each below the next, whatever their checksums |
| NameCache.SearchSound | cache/cached_tree.c:200-224 | a search ends at a node with that key and those bytes, or at a free link |
| NameCache.SearchUndisturbed | cache/cached_tree.c:225-256 | a name found before an insertion is found at the same node after it, although the tree is not sorted |
| NameCache.SearchFindsNew | cache/cached_tree.c:225-256 | the search for the inserted name retraces the insertion and ends at the new node |
| NameCache.InsertedWellFormed | cache/cached_tree.c:225-256 | an insertion leaves every earlier node as it was, but for the free link it fills, and every stored byte string |
| NameCache.InsertedValid | cache/cached_tree.c:225-256 | an insertion where the search ended keeps the invariant: every node is found again from the root, and pointers increase |
| NameCache.GetOrAddNameCorrect | cache/cached_tree.c:192-261 | a call keeps the invariant and all that was stored, and its pointer denotes the given name |
| NameCache.DenotesExact | cache/cached_tree.c:192-261 | two pointers are equal exactly when their keys and byte strings are |
| NameCache.DenotesTerminated | cache/cached_tree.c:242-248 | a pointer leads to its bytes and the NUL after them, inside the string table |
| NameCache.InterningIsExact | cache/cached_tree.c:263-277 | over every list of interned names of 0 to 65535 bytes, pointers are equal iff the names are, and at the end each still leads to its NUL-terminated name |
| DirectoryTree.TakeSlotEffect | cache/cached_tree.c:568-576 | the slot taken is the next one of the slice, of a new slice of 256 at the entry counter if there was none, and nothing else changes |
| DirectoryTree.LookupIsMap | cache/cached_tree.c:308-335 | under the invariant a directory is a map: a hit is an owned entry with that key and name, a miss means no owned entry has them |
| DirectoryTree.LookupFinds | cache/cached_tree.c:308-335 | every owned entry is found under its own name |
| DirectoryTree.CreateEntryKeepsInv | cache/cached_tree.c:555-582 | creating an entry keeps the whole cache invariant |
| DirectoryTree.SubdirectoryKeepsInv | cache/cached_tree.c:400-441 | creating a subdirectory and its table entry keeps the whole cache invariant |
| DirectoryTree.CreateEntryAdds | cache/cached_tree.c:555-582 | an existing name is refused and nothing changes; otherwise exactly one entry with that name is added |
| DirectoryTree.SubdirectoryAdds | cache/cached_tree.c:400-441 | an existing directory is returned, an existing file refused, both with nothing changed; otherwise exactly one directory is added |
| DirectoryTree.AddedLookup | cache/cached_tree.c:308-335 | after an addition every lookup in every directory is as before, except for the new name in its directory |
| DirectoryTree.AddedWalkDir | cache/cached_tree.c:308-335 | walks to directories are as before, except to the new directory |
| DirectoryTree.AddedWalk | cache/cached_tree.c:308-335 | walks to entries are as before, except to the new entry |
| DirectoryTree.FullPathIsJoin | cache/cached_tree.c:349-365 | the path assembled in the 4096-byte buffer is the parent's path, a slash and the name |
| DirectoryTree.WalkReachesPath | cache/cached_tree.c:342-379 | a component-by-component walk reaches a directory exactly when the path stored for it is the join of the components |
| DirectoryTree.TocAgrees | cache/cached_tree.c:33-58 | the scan of the table finds the directory the walk reaches, and finds nothing exactly when the walk fails, whatever 16-bit hashes collide |
| DirectoryTree.LookupPathIsWalk | cache/cached_tree.c:143-190 | LookupPath on every well-formed path returns exactly the entry a walk from the root finds, and none when the walk fails |
| PathCreation.LookupParentIsWalk | cache/cached_tree.c:450-485 | LookupParent splits off the last component and returns the directory a walk along the others reaches, or none |
| DirectoryTree.LookupParentInRoot | cache/cached_tree.c:455-485 | the parent of a path whose last slash is its second character is the root, and its name starts behind that slash |
| PathCreation.MakeAncestorsCorrect | cache/cached_tree.c:512-526 | the segment loop arrives in the parent directory, having created only prefixes of the path, and leaves the key of the last segment it walked |
| PathCreation.CreateAsIntendedCorrect | cache/cached_tree.c:487-542 | with the last segment's own key (as on line 508), whatever ancestors are missing: LookupPath then returns the entry, all directories above it exist, a second call returns it unchanged, and only missing prefixes of the path look up differently |
| PathCreation.AsIntendedWhen | cache/cached_tree.c:527-528 | the code does exactly that if and only if the parent existed or the last two components have one key |
| PathCreation.CreateFromPathCorrect | cache/cached_tree.c:487-542 | the entry the code returns is what LookupPath then finds if and only if the parent existed or the last two components have one key; then a second call returns it unchanged, and only missing prefixes of the path look up differently |
| PathCreation.CreateFromPathStale | cache/cached_tree.c:527-534 | otherwise LookupPath finds nothing; the parent now holds an entry with the previous component's key and, as its name, as many bytes from the last component's start as the previous one has; every other walk is as before, except along missing ancestors |
| PathCreation.FinalSegmentHolds | cache/cached_tree.c:531-534 | the entry returned for the last segment stands in its directory under the key and name given |
| PathCreation.StaleKeyExample | cache/cached_tree.c:527-534 | creating "/a/ab" where "/a" is missing creates "/a/a", and "/a/ab" is not found |
| PathCreation.MakeAncestorsEntriesKept | cache/cached_tree.c:512-526 | the segment loop moves and changes no existing entry |
| CacheRuns.InitialInvariant | nfs_common.inl:110-179 | after initialisation one empty root directory is there, named "/", all other entries are zero, and the cache invariant holds if and only if the entry counter is at least 1 |
| CacheRuns.InitialStateDone | nfs_common.inl:146-178 | initialisation succeeds with room for one name |
| CacheRuns.RootSlotMustBeTaken | cache/cached_tree.c:297-306 | the first subdirectory created is found by LookupPath if and only if the entry counter starts at 1 or more; ResetCache sets it to 0 |
| CacheRuns.RootOverwritten | cache/cached_tree.c:391-398 | with the counter at 0 the first slot handed out is the root's own, and the root becomes the new empty directory |
| CacheRuns.StepKeeps | cache/cached_tree.c:400-582 | every creation keeps the invariant and every walk that succeeded |
| CacheRuns.RunKeeps | cache/cached_tree.c:400-582 | so does every run of creations |
| CacheRuns.IndexAgreesAfterEveryRun | cache/cached_tree.c:143-190 | from an initial state with the root's slot taken, after any run of subdirectory, entry and full-path creations, LookupPath equals the walk for every well-formed path |
| CacheRuns.LookupsPersist | cache/cached_tree.c:143-190 | a path that was found keeps finding the same entry over every run |
| CacheRuns.TableHoldsThePaths | cache/cached_tree.c:367-376 | the table has one entry per directory other than the root, with the join of its ancestors' names, and no two share a path |
| CacheRuns.SlicesApart | cache/cached_tree.c:391-432 | whole slices are disjoint, inside the slots handed out and off the root's slot, used slots lie in their slice, and no directory holds a name twice under one key |
| OwnKeys.AddedOwnKey | cache/cached_tree.c:555-582 | if every entry in use has its own name's key, they all still have it after an addition exactly when the new entry gets its own |
| OwnKeys.OwnKeysUnique | cache/cached_tree.c:308-335 | while they have, no directory holds a name twice |
| OwnKeys.NamesUniqueAfterEveryRun | cache/cached_tree.c:400-582 | from an initial state with the root's slot taken, after every run of creations with paths created as intended, every entry has its own name's key and no directory holds a name twice |
| OwnKeys.CreateFromPathOwnKey | cache/cached_tree.c:527-534 | creation by path as the code has it keeps that if and only if the last segment's key is right or the stale key is that of the bytes it takes |
| OwnKeys.StepOwnKey | cache/cached_tree.c:400-582 | the same for every step of a run of the code |
| OwnKeys.NameTwice | cache/cached_tree.c:527-534 | creating "/xx/abc" and then "/xx/ab" with "/xx" missing leaves two entries "ab" in one directory, under two keys |
| Capacity.GetOrAddNameDoneWhen | cache/cached_tree.c:226-248 | a name is interned exactly when it was before, or a node and room for its bytes and NUL are left |
| Capacity.GetOrAddNamePlaces | cache/cached_tree.c:226-248 | a known name changes nothing; a new one gets the next node and stands behind the others with its NUL, rounded up to words; without a node or with a full table the call aborts, otherwise it overruns the table |
| Capacity.CreateEntryDoneWhen | cache/cached_tree.c:560-578 | an entry is created, or refused as taken, exactly when its name is taken or slot and name have room |
| Capacity.SubdirectoryDoneWhen | cache/cached_tree.c:417-438 | a subdirectory is created or returned exactly when its name is taken, or slot, record, name, path and table entry have room |
| Capacity.PathCreatedWhen | cache/cached_tree.c:510-534 | given room, creation by path as intended succeeds exactly when no prefix of the path is an entry that is no directory; the code also needs the bytes a stale key takes |
| Capacity.FileInTheWayStops | cache/cached_tree.c:512-526 | with an entry that is no directory among the segments above, whatever room there is, creation by path dereferences a null pointer |
| Capacity.StepDoneWhen | cache/cached_tree.c:400-582 | each creation of a run succeeds exactly when its directory exists and it has the room it needs |
| Capacity.CreateFileDoneWhen | cache/cached_tree.c:279-295 | CreateFileEntry succeeds exactly under a free name with room for slot and name and a record left; a taken name aborts |
| Capacity.AddFileMakesWhen | cache/cached_tree.c:594-611 | given room for the path, AddFile of a path not in the cache succeeds exactly when no file is in the way, the bytes a stale key takes are there, a record is left, and the slot taken does not carry the virtual flag unasked |
| CacheRuns.StepEntriesKept | cache/cached_tree.c:400-582 | a creation neither moves nor changes an entry in use, and makes no entry a file |
| FileHandles.HandleLength | cache/cached_tree.h:225-238 | the measured length ends before the first zero word, or at eight words |
| FileHandles.UnpackPointer | cache/cached_tree.c:64-66 | flag, length and start are read back from the packed word, and the reserved value 1 is only met by an empty handle at limb 1 |
| FileHandles.Compression | cache/cached_tree.c:97-141 | three words are left out exactly for a handle that starts with 0x1000001 and the root's next two words, bit 31 says so, the stored words are the others up to the first zero or the eighth, and the pointer holds their number and place; it succeeds exactly for the root's handle and when at least no word is to be stored and a limb is left over; the other calls abort or overrun as stated |
| FileHandles.PointerReads | cache/cached_tree.c:60-95 | word for word, what any 32-bit pointer is read as, and when reading it leaves the arrays |
| FileHandles.RoundTrip | cache/cached_tree.c:60-141 | unpacking what was packed gives the handle back if and only if the handle is the root's, or is zero from its measured length on and not confused with the reserved value |
| FileHandles.EarlierPointersStay | cache/cached_tree.c:97-141 | storing another handle leaves what earlier pointers read |
| FileHandles.StoredHandlesSurvive | cache/cached_tree.c:97-141 | after any list of stored handles each measurable one is still read back, and only the root's has the value 1 |
| FileCache.RewriteCorrect | cache/cached_tree.c:614-630 | after a write size and CRC match; the data is the new content or was kept with equal size and CRC, and never kept when only four consecutive bytes changed |
| FileCache.RewriteWhen | cache/cached_tree.c:614-630 | the data afterwards is the new content, unless size and CRC of the old data are the same |
| FileCache.AddFileDoneWhen | cache/cached_tree.c:586-633 | on a path in the cache AddFile succeeds if and only if the entry is a file with the virtual flag as given, and else aborts; on another path if and only if creation by path succeeds, a record is left, and the slot taken does not carry the flag unasked |
| FileCache.AddFileCorrect | cache/cached_tree.c:586-633 | AddFile returns the entry LookupPath found, or a new one with the next record, keeps all invariants and every other file's data, and leaves the new content unless size and CRC were the same, so it stores any small change; when it succeeds is FileCache.AddFileDoneWhen |
| FileCache.AddFileAgain | cache/cached_tree.c:591-633 | after AddFile the file is found at its path if and only if it was there before or the last segment got its own key; then another AddFile succeeds on the same entry |
| FileCache.LongPathCut | cache/cached_tree.c:589 | of a longer path only as many bytes count as its length modulo 65536; a multiple of 65536 makes the lookup read before the path |
| FileCache.CreateFileKeeps | cache/cached_tree.c:279-295 | CreateFileEntry makes the new entry a file with the next record, which is empty, found in its directory under its name; all other entries, lookups and earlier records stay, and all invariants |
| FileRuns.PerformKeeps | cache/cached_tree.c:279-633 | every creation, CreateFileEntry and AddFile keeps the invariants of directories and files together |
| FileRuns.ChecksumsMatch | cache/cached_tree.c:586-633 | from an initial state with the root's slot taken, after every run of creations, CreateFileEntry and AddFile, each written file record's size and CRC match its data, and LookupPath equals the walk on every path |
| FileCache.NewPathEntry | cache/cached_tree.c:594-600 | the entry made for a missing path was in no directory before |
| FileCache.CarvedRecordOverlaps | cache/cached_tree.c:598-600 | in an arena that hands out both kinds of record with one counter, a record lies over an earlier one if and only if it is a file's at index i and the other a directory's at 3i/4 or (3i+2)/4 |
| FileCache.ArenaApartWhen | cache/cached_tree.c:598-600 | so, with the root directory at index 0, records stay apart if and only if no file has been given one |
| CachedTree.Cache.InitCache | nfs_common.inl:110-179 | a new cache has arrays of 4096 nodes, 65536 bytes, 131072 entries, 2048 directories, 2048 table entries, 16384 files and 16384 limbs, the root entry linked to an empty root directory, and is the initial state with the entry counter at 0 |
| CachedTree.Cache.ResetCache | cache/cached_tree.c:297-306 | the name tree is emptied and the counters of entries and table are set to 0, nothing else |
| CachedTree.Cache.Initialise | nfs_common.inl:110-179 | leaves the arrays in the initial state, with the entry counter at 0 as ResetCache leaves it |
| CachedTree.Cache.GetOrAddNameByKey | cache/cached_tree.c:192-261 | the loop over child links, with insertion in place, does what the search of the name cache specifies, including where it aborts or overruns |
| CachedTree.Cache.GetOrAddNameLength | cache/cached_tree.c:263-272 | names over 65535 bytes abort; others are interned under their own key |
| CachedTree.Cache.LookupInDirectoryByKey | cache/cached_tree.c:308-335 | the scan of a directory's slice returns the specified entry |
| CachedTree.Cache.LookupDirPathByKey | cache/cached_tree.c:33-58 | the scan of the table returns the specified entry |
| CachedTree.Cache.LookupPath | cache/cached_tree.c:143-190 | split at the last slash, table scan and directory scan return the specified entry |
| CachedTree.Cache.LookupParent | cache/cached_tree.c:450-485 | returns the specified parent and the start of the last component |
| CachedTree.Cache.AllocateDirEntries | cache/cached_tree.c:391-398 | hands out the next 256 slots or aborts |
| CachedTree.Cache.CreateEntryInDirectoryByKey | cache/cached_tree.c:555-582 | the arrays change as specified for an entry, or the call aborts as specified |
| CachedTree.Cache.GetOrCreateTocEntryForDir | cache/cached_tree.c:342-379 | the arrays change as specified for a table entry |
| CachedTree.Cache.GetOrCreateSubdirectoryByKey | cache/cached_tree.c:400-441 | the arrays change as specified for a subdirectory |
| CachedTree.Cache.GetOrCreateEntryFromFullPath | cache/cached_tree.c:487-542 | the segment loop changes the arrays as specified for a path, including the key it keeps |
| CachedTree.Cache.CreateFileEntry | cache/cached_tree.c:279-295 | the arrays change as CreateFile specifies (what that is: FileCache.CreateFileKeeps, Capacity.CreateFileDoneWhen) |
| CachedTree.Cache.AddFile | cache/cached_tree.c:586-633 | the arrays change as FileCache.AddFile specifies (what that is: FileCache.AddFileDoneWhen, FileCache.AddFileCorrect) |
| CachedTree.Cache.HandleToPtr | cache/cached_tree.c:97-141 | the limb array and the pointer are as FileHandles.HandleToPtr specifies (what that is: FileHandles.Compression, FileHandles.RoundTrip) |
| CachedTree.Cache.PtrToHandle | cache/cached_tree.c:60-95 | the handle read from the limb array is as specified |
| CachedTree.Cache.MeasureHandle | cache/cached_tree.h:225-238 | the loop returns the measured length |
| Xdr.HtonlIsNetworkOrder | rpc_serializer.h:168-189 | on either byte order, storing HTONL of a word writes its most significant byte first, and loading inverts it |
| Xdr.NetworkOrder | rpc_serializer.h:168-189 | each octet of a word and of a double word in numbers, most significant first |
| Xdr.StringLayout | rpc_serializer.c:56-71 | a string is its length, its bytes, and zeros to the next multiple of four |
| Xdr.ArrayLayout | rpc_serializer.c:73-83 | an array is its length and its words in their order |
| Xdr.CredentialLayout | rpc_serializer.c:91-115 | flavor 1, body length, stamp, machine name, user, group, groups, and two zero words, each at its place |
| Xdr.DecodeEncodedU64 | rpc_serializer.c:365-375 | a double word is read back from its two words |
| Xdr.ReadEncodedString | rpc_serializer.c:46-71 | a string is read back, and the position after it is past the padding, for every length |
| Xdr.ItemsRoundTrip | rpc_serializer.c:46-71 | any list of words, double words and strings is read back, up to the end of its encoding |
| Xdr.SkipAuthTwice | rpc_serializer.c:85-115 | skipping twice over an encoded AUTH_UNIX credential and its verifier lands exactly behind them: the computed length is exact for every machine name and group list |
| Xdr.SkipNullAuthTwice | rpc_serializer.c:33-44 | the same for null credentials |
| RpcSerializer.StringCheckIsExact | rpc_serializer.c:56-60 | the size check of PushString decides exactly whether the string fits, except when its sum wraps around 32 bits |
| RpcSerializer.MessageLayout | rpc_serializer.h:131-161 | a message is the record mark with the last-fragment bit and the count of what follows, xid, 0, 2, program, version and procedure at bytes 4 to 27, and the arguments from byte 28 |
| RpcSerializer.RPCSerializer.PushU32 | rpc_serializer.h:168-174 | appends the word most significant byte first, or aborts exactly when it does not fit, with nothing written |
| RpcSerializer.RPCSerializer.PushNullAuth | rpc_serializer.c:33-44 | appends 16 zero bytes, or aborts exactly when they do not fit |
| RpcSerializer.RPCSerializer.PushU64 | rpc_serializer.c:46-54 | appends both words, or aborts exactly when they do not fit |
| RpcSerializer.RPCSerializer.PushString | rpc_serializer.c:56-71 | appends length, bytes and zero padding exactly when they fit; says which other calls abort and which overrun |
| RpcSerializer.RPCSerializer.PushU32Array | rpc_serializer.c:73-83 | appends the count and the words, or aborts exactly when they do not fit |
| RpcSerializer.RPCSerializer.PushUnixAuth | rpc_serializer.c:91-115 | appends the encoded credential and an empty verifier exactly when they fit |
| RpcSerializer.RPCSerializer.ByteFlipArray | rpc_serializer.h:69-77 | turns words of the host into network order in place and touches nothing behind them |
| RpcSerializer.RPCSerializer.InitCall | rpc_serializer.h:131-161 | writes xid, 0, 2, program, version and procedure in this order behind the place of the mark; on a zeroed serializer the write offset is then Size + 4 and the rest is zero |
| RpcSerializer.RPCSerializer.Finalize | rpc_serializer.c:26-31 | the record mark gets the last-fragment bit and the count of bytes that follow |
| RpcSerializer.RPCSerializer.SerializeCall | rpc_serializer.h:131-174 | a call with any sequence of pushes succeeds exactly when 28 bytes and the arguments fit 512, and is then the record mark with its count, the header words in order, and the arguments |
| RpcDeserializer.RPCDeserializer.FragmentAccounting | rpc_serializer.c:132-184 | consumed, buffered and outstanding bytes add up to the whole record at every step |
| RpcDeserializer.RPCDeserializer.RecvHeader | rpc_serializer.c:132-147 | mark, xid and flag are those of the flat reply, and the accounting starts right |
| RpcDeserializer.RPCDeserializer.RefillBuffer | rpc_serializer.c:149-174 | the stream of unread bytes does not change, whatever arrives; the window grows by what two calls of recv may return |
| RpcDeserializer.RefillSufficesWhen | rpc_serializer.c:155-173 | two calls of recv are sure to bring what is wanted, however the stream is cut, if and only if at most two bytes are missing |
| RpcDeserializer.PaddingSureWhen | rpc_serializer.c:191-195 | ensuring a length is sure to bring its padding too, however the stream is cut, if and only if the padding is buffered already, or a refill is made and at most two bytes are missing |
| RpcDeserializer.PaddingMayBeMissing | rpc_serializer.c:228-231 | with nothing buffered, recv may return one and then four of eight bytes: five are there and their padding is not |
| RpcDeserializer.RPCDeserializer.EnsureSize | rpc_serializer.c:176-184 | refills only if needed, and then leaves what two calls of recv may bring; with full last deliveries every size up to 1460 within the record becomes available |
| RpcDeserializer.RPCDeserializer.ReadU32 | rpc_serializer.h:183-189 | returns the word of the flat reply, and aborts exactly when fewer than four bytes are buffered |
| RpcDeserializer.RPCDeserializer.ReadBool | rpc_serializer.h:191-195 | returns the flag of the flat reply |
| RpcDeserializer.RPCDeserializer.ReadU64 | rpc_serializer.c:365-375 | returns the double word of the flat reply |
| RpcDeserializer.RPCDeserializer.SkipAuth | rpc_serializer.c:186-198 | lands where skipping in the flat reply lands |
| RpcDeserializer.RPCDeserializer.ReadString | rpc_serializer.c:200-220 | returns the bytes of the flat reply, and overruns exactly when bytes or padding are not buffered or the target is too small |
| RpcDeserializer.RPCDeserializer.ReadFileHandle | rpc_serializer.c:222-242 | returns the handle of the flat reply, zero-filled to 64 bytes; succeeds when recv keeps to whole words and delivers in full |
| RpcDeserializer.RPCDeserializer.ReadFileAttribs | rpc_serializer.c:244-290 | returns the attributes of the flat reply |
| Replies.ReadEncodedAttribs | rpc_serializer.c:244-290 | every attribute is read back from its encoding |
| Replies.AttribsLayout | rpc_serializer.c:244-290 | where each attribute stands in an encoded fattr3, in bytes |
| Replies.ReplyLayout | nfs_common.inl:669-682 | an accepted reply is mark, xid, 1, 0, verifier, 0, status and result, each at its place |
| Replies.OtherXidRefused | nfs_common.inl:677 | a reply with another xid is refused, whatever it holds |
| Replies.ReadEncodedAccepted | nfs_common.inl:669-682 | the common head of a reply is read back for every verifier, and the result follows up to the end of the record |
| Replies.ReceiveAccepted | nfs_common.inl:669-682 | reading the common head through the window gives the status of the flat reply, for every chunking |
| DirListing.ReadEncodedEntry | nfs_common.inl:692-726 | an encoded entry is read back with its name, cookie, optional attributes and optional handle |
| DirListing.ListLayout | nfs_common.inl:684-726 | an encoded list is 1, file id, name, cookie, optional attributes and optional handle for each entry, then 0 and the eof flag |
| DirListing.ReadEncodedPage | nfs_common.inl:690-749 | the loop over an encoded list delivers exactly its entries, as far as the callback lets it, keeps the last cookie and obeys the eof flag |
| DirListing.ReadEncodedResult | nfs_common.inl:684-690 | attributes and cookie verifier before the list are read back |
| Readdirplus.ReceiveName | nfs_common.inl:694-702 | file id and name through the window are those of the flat reply; a whole name of up to 1023 bytes is read, a longer one overruns the buffer |
| Readdirplus.ReceiveEntry | nfs_common.inl:694-726 | one entry through the window is that of the flat reply, and is read whenever the flat one is if recv is prompt and keeps to whole words |
| Readdirplus.Drain | nfs_common.inl:731-740 | after an early stop the flush loop ends with nothing of the record left on the socket, for every whole-word chunking |
| Readdirplus.ReceiveEntries | nfs_common.inl:690-749 | the entry loop through the window delivers what the flat reply holds, for every chunking |
| SentHandles.MeasuredInAnyOrder | cache/cached_tree.h:225-238 | the measured length of an fhandle3 does not depend on the byte order of the host |
| SentHandles.SentIsGiven | nfs_common.inl:644-645 | of a handle received in an fhandle3 exactly the server's bytes are pushed if and only if they are at most 32, whole words, and none of the words is zero |
| Paging.ArgumentsEncoded | nfs_common.inl:642-662 | given the bytes pushed for the handle, the pushes of the call write the layout of section 3.3.17 of RFC 1813, and fit the buffer |
| Paging.RequestReadBack | nfs_common.inl:639-665 | a server reads from the call: program 100003, version 3, procedure 17, a credential for user 0 and group 0, the counts 4096 and 32768, and exactly the bytes pushed for the handle, the cookie and the verifier |
| Paging.HandleReadBack | nfs_common.inl:644-645 | a server finds its own handle in the call exactly when the handle is at most 32 bytes, whole words, and without a zero word |
| Paging.Ask | nfs_common.inl:636-665 | the measured bytes of the handle are pushed, and the server is sent exactly that call |
| Paging.ReadableWhenOk | nfs_common.inl:680-690 | on a server's answer with any status, the reply can be decoded if and only if the status is NFS3_OK |
| Paging.NfsReaddirplus | nfs_common.inl:630-755 | one exchange returns what the flat reply holds and leaves the stream empty |
| Paging.ReadAnswer | nfs_common.inl:669-749 | an answer of a server offers the callback exactly its entries |
| Paging.OfferInPages | nfsls.c:84-93 | offering a run of entries and then, unless stopped, the rest is offering all of them |
| Paging.DeliveredInOrder | nfsls.c:84-93 | what is delivered is the directory's entries in order, each once, up to and including the first refusal |
| Paging.ListDirectory | nfsls.c:84-93 | against a server answering each cookie with any non-empty run of what follows, or all of it and eof, the loop ends and has delivered the directory's entries in order, each once, up to the first refusal |
| Population.Entered | nfs_common.inl:875-906 | an item of type 1 becomes a file with the next record, of the size given modulo 2^32 and without data, an item of type 2 a directory; it is found at its path, and no other walk changes |
| Population.StoreSettles | nfs_common.inl:917-920 | the handle is read back from its entry if it is the root's or has words with zeros after them, and no other entry's handle changes |
| Population.StoreHandleDoneWhen | nfs_common.inl:917-920 | without a handle nothing is stored; without an entry it is a null pointer; otherwise it succeeds exactly when the handle can be compressed into the limbs left |
| Population.HandleWithoutAttribs | nfs_common.inl:913-920 | a handle that comes without attributes is fatal |
| Population.ItemKinds | nfs_common.inl:875-887 | files are of type 1, directories of type 2; those read have names of at least three bytes with no dot among the first two |
| Population.NameEnds | nfs_common.inl:872 | the name of an item ends before the first NUL |
| Population.EmptySound | nfs_common.inl:146-178 | the cache after initialisation, with the root's slot taken and no handles stored, is one that can be populated |
| Population.PopulateSettles | nfs_common.inl:863-923 | after a listing and the listings of the directories in it, walks find exactly what they found before and the listed paths, at any depth; each entry has its handle, each file its size, and nothing that was there before is lost |
| Population.TwoLevels | nfs_common.inl:883-900 | below a directory whose name has three bytes or more, the first two not dots, every file and directory listed is found, with its handle where that can be had back |
| Population.NothingBelow | nfs_common.inl:883-900 | below a directory with any other name no walk leads anywhere new |
| Population.CacheIsTheListing | nfs_common.inl:863-923 | populating an empty cache makes LookupPath find exactly the paths listed |
| PopulationRoom.PopulatesWithRoom | nfs_common.inl:863-923 | a listing without repeated names that fits is cached with everything below it whenever there is an entry, a name and a path, a record and eight limbs for each item; what room it does not use is left |
| PopulationRoom.FreshCacheHoldsTheListing | nfs_common.inl:863-923 | from the state after initialisation with the root's slot taken and arenas large enough, a listing that fits is cached, and LookupPath then finds exactly the paths in it |
| Population.ListingIsCached | nfsls.c:75-93 | after a directory is listed from a server into the cache, LookupPath finds every file and directory listed, files have the size listed, and a measurable handle is recovered from the cache and would be sent as the server gave it |
| Population.WrittenToNothing | nfs_common.inl:904-905 | AddFile of the size a listed file is given without data writes to a null pointer, or stores nothing if its CRC is 0; other sizes are stored |
| NfsRead.ReadEncodedData | nfs_common.inl:589-595 | an encoded READ reply is read back with its count and data |
| NfsRead.ResultLayout | nfs_common.inl:592-598 | the result of READ is optional attributes, count, eof flag and the data as a string |
| NfsRead.NextWindow | nfs_common.inl:600-607 | one turn of the copy loop copies a window, in order, and progresses |
| NfsRead.CopyData | nfs_common.inl:595-615 | the copy loop ends with the data at the front of the buffer, without gap or repeat, and writes nothing behind what it copied from the record |
| NfsRead.ReadRefused | nfs_common.inl:582-589 | an error status is recognised, whatever follows it |
| NfsRead.ReceiveRead | nfs_common.inl:564-627 | when recv is prompt and returns whole words and the head fits the first window, the call succeeds exactly when the caller's buffer holds the data rounded up to words; an error status gives -1 |
| NfsRead.BufferAfterRead | nfs_common.inl:612-615 | the buffer then holds the data and its padding; only the data is written exactly when it is whole words or the padding was there |

## Left out

- CachedTree.Cache.AddFile: the record comes from the arena of files, whose capacity is checked, as in `CreateFileEntry`, not from the arena of directories; what a record written over another destroys is not modelled, only where records overlap (`FileCache.CarvedRecordOverlaps`, `FileCache.ArenaApartWhen`).
- FileCache.AddFileDoneWhen: the record that has to be left is one of the arena of files, as under `CachedTree.Cache.AddFile`.
- Capacity.AddFileMakesWhen: likewise.
- FileCache.AddFileAgain: which entry a second call for the same path returns after the first was created with a stale key is left to `PathCreation.CreateFromPathStale`.
- PopulationRoom.PopulatesWithRoom: the room asked for is enough, not least: 8200 bytes of names for each item, however short.
- CacheRuns.IndexAgreesAfterEveryRun: starts from an entry counter of at least 1, which ResetCache does not leave; `CacheRuns.RootSlotMustBeTaken` says why it has to.
- CacheRuns.StepKeeps: names in a run are non-empty, without '/' and NUL, and full paths are shorter than 65536 bytes, as the callers see to.
- RpcDeserializer.RPCDeserializer.RecvHeader: the stream holds exactly one reply of one fragment; several fragments, and replies sent ahead, are not modelled.
- Paging.NfsReaddirplus: the stream is empty before the call, and the server answers with one record of one fragment.
- RpcDeserializer.RPCDeserializer.RefillBuffer: recv never fails or ends the stream; with nothing pending the call waits forever.
- RpcSerializer.RPCSerializer.SerializeCall: only the buffer inside a zeroed serializer; `RPCSerializer_Init` with a caller's buffer is used nowhere with `InitCall`.
- Paging.ListDirectory: the callback's answer depends only on what it was given so far; the server is a function from calls to replies.
- Population.PopulateSettles: the callback is modelled on values, not on the arrays; what a nested `nfs_readdirplus` delivers for a directory is given, its exchange is not modelled again.
- NfsRead.ReceiveRead: the sending half of `nfs_read`, which pushes handle, offset and size, is not modelled.
- 32-bit wrap-around of the cache's counters and of `malloc` sizes: the arenas are far smaller.
- The global `err` that records an errno is not modelled; the returned null pointer is.
- Entries are indices into arrays instead of pointers, and the union of file and directory pointers is a tagged `Link`.
- Handles and attributes are passed by value; the dangling block-scope pointers of `nfs_readdirplus` are not modelled.
- `UpdateFile`, `FreeEntry` and the FUSE handlers are not modelled: they move bytes instead of entries and never update the table.
- `RPCSerializer_PushSattr3` and `RandomXid`: the first is never called; the xid is a parameter.
- The calls of the port mapper and the mount daemon, `nfs_readdir`, `nfs_write`, `nfs_create` and `nfs_mknod`: their loops and pushes are of the kinds proved here.
- Sockets, name resolution, Winsock and printing are foreign code.
