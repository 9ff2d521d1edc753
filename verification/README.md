# A verified model of the encrypted file layer, its shared mode and its card-backed store

The repository is a fork of gocryptfs, an encrypted overlay file system, with two additions: content keys that
never leave a smart card, and a flat store of opaque blobs with an index. This project models its core in Dafny
and proves what users of it rely on. `dafny verify dfyconfig.toml` checks everything.

What is modelled, and the main result of each part:

- **Encrypted files** (`SymbolicArith`, `ByteSeqs`, `ContentEnc`, `BlockLayout`, `ContentOps`, `DiskImage`,
  `OpenFileTable`, `EncryptedFile`, `FileSystem`, `StreamingWrites`). A file is an 18-byte header and fixed-size sealed blocks; an
  all-zero block is a hole; only the last block may be short. For any number of files, handles, opens and closes, every
  sequence of reads, writes, truncations and allocations gives the results of plain zero-extending byte files, and
  every reachable backing file is well formed (`FileSystem.Run`). On a device that refuses nothing, and for requests
  that are not themselves in error, the result is a function of the calls alone (`FileSystem.TameRunIsPlain`).
  Where calls on many handles interleave, the streaming shortcut of writes skips only padding that would do nothing,
  exactly if files are not truncated by path (`StreamingWrites.ShortcutSafe`).
  Block size, nonce length and the kernel's write limit stay symbolic; the cipher is a record of functions of which
  only "Open undoes Seal" and the tag length are used. That a block is bound to its number and file is a separate
  theorem, with the cipher's part in it as a hypothesis about the texts at hand.
- **Shared storage** (`SharedWriters`, `SharedHeader`). State machines of mounts whose lock, read, seal, write and unlock
  steps interleave freely. Writes inside the file lose no update. All mounts agree on the file header exactly if two
  branches of the code are not used; two runs show how each of them breaks it.
- **Card keys** (`KeyCache`, `KeyClient`). The doubly linked least-recently-used list and its map on the heap behave as a
  plain sequence that holds the most recently used keys, and no key array is dropped without being zeroed. Above it, whatever was cached, evicted, wiped or
  re-established, a block is sealed and opened under the card's key for its number. Which round trips to the card fail is
  an input, and the calls that fail are told from it.
- **Blob store and index** (`MetaRecord`, `InfoChunk`, `BlobStore`, `FsIndex`, `IndexBody`, `Vault`). The record codec and the
  512-byte sealed units round-trip; replacing metadata keeps content; and across crashes between any two steps, a
  process that comes up has exactly the records the blobs hold, and its lookups find exactly those other than the root
  if and only if no two of them share a parent and a name. For arbitrary runs of puts and removals, the condition under
  which each step keeps lookup exact is given in terms of the records alone, both ways (`FsIndex.RunExact`).
- **Smaller machines** (`InoMap`, `CardEnvelope`, `ReverseFile`). Inode translation, card response matching, and reverse
  mode as slices of one ciphertext, with the exact condition under which forward mode decrypts it.

How to read the proofs. `Times`, `Quot` and `Rem` are multiplication, division and remainder (lemmas `TimesIsMul`,
`QuotIsDiv`, `RemIsMod`), defined by recursion so that everything above stays within linear arithmetic. Where the source changes
state, the model is a class whose methods are tied to a pure specification; whole runs are methods that build a
new system and execute an arbitrary list of calls. Device failures, crashes and random bytes are nondeterministic; card
failures follow a schedule the caller gives. A `reliable` device is one that refuses nothing, so that "always fail" does
not satisfy a contract.

Where code and documentation differ, the model follows the code:

- The comment on `doWrite` allows empty writes; the code indexes the first block of the request unconditionally, so the
  model asks for a non-empty one (internal/fusefrontend/file.go:283-319).
- A truncation that shrinks a file first cuts it to whole blocks and then writes the rest of the last one. If that write is
  refused, the rest is gone (`WholeBlocks` in `TruncateOutcome`, internal/fusefrontend/file_allocate_truncate.go:172-197).
- In reverse mode a comment says that an empty file stays empty. A read that does not reach past the header still returns
  header bytes (`ReverseFile.File.Read`, internal/fusefrontend_reverse/file.go:35-61).
- A comment in the open file table says that every operation that modifies a file takes the content lock. Truncation by path
  does not, and a write that follows it can skip padding it needs (`StreamingWrites.TruncatedBehindHandle`,
  internal/fusefrontend/node.go:240-253, internal/openfiletable/open_file_table.go:25-31).
- A rebuilt index and one loaded from the tree need not agree: the tree is written in map order, and of two records with one
  parent and name the one read last is found (`IndexBody.OrderMatters`, carter/fsindex/fsindex.go:265-282).
- A record that is accepted can be too long to be stored again, because the optional fields it lacks are written out
  (`MetaRecord.AcceptedTooLong`, carter/blobmeta/record.go:188-228).
- In reverse mode a block IV can be all zero, which forward mode refuses (`ReverseFile.ZeroIVUnreadable`,
  internal/pathiv/pathiv.go:51-59, internal/contentenc/content.go:139-181).
- `GetBlockKey` can report a missing key without any failure if the prefetch is larger than the cache
  (`KeyCache.BatchFits`, internal/externalenc/externalenc.go:699-718).

## Model

| member | source | states |
|---|---|---|
| `ContentEnc.HeaderRoundTrip` | internal/contentenc/file_header.go:34-69 | A header parses to an ID exactly if packing that ID made it: the bytes 0 and 2 and the ID, which is not all zero |
| `ContentEnc.Enc.BlockRoundTrip` | internal/contentenc/content.go:139-181 | A sealed block decrypts to its plaintext under its own number and file ID, and is longer by nonce and tag |
| `ContentEnc.Enc.ADInjective` | internal/contentenc/content.go:118-133 | The associated data of a block determines its number, in 64 bits, and the file ID |
| `ContentEnc.Enc.BlockBound` | internal/contentenc/content.go:139-181 | A sealed block decrypts under no other number and in no other file, for a cipher that tells the associated data at hand apart |
| `BlockLayout.BodySize` | internal/contentenc/offsets.go:39-77 | The size measured from a body of n plaintext bytes is n |
| `BlockLayout.SizeRoundTrip` | internal/contentenc/offsets.go:39-86 | Translating a plaintext size to a ciphertext size and back gives the size |
| `BlockLayout.OverheadExitUnreachable` | internal/contentenc/offsets.go:66-76 | The exit for an overhead larger than the file is never taken, for any size including illegal ones |
| `BlockLayout.PlainSizeMonotone` | internal/contentenc/offsets.go:80-86 | A larger plaintext has a larger ciphertext |
| `BlockLayout.CipherSizeMonotone` | internal/contentenc/offsets.go:39-77 | A larger ciphertext file never shows a smaller plaintext size, illegal sizes included |
| `BlockLayout.EncodesUnique` | internal/contentenc/content.go:99-116 | A body stores at most one plaintext |
| `BlockLayout.DecryptRange` | internal/contentenc/content.go:99-116 | Decrypting the whole blocks of a range of a stored file gives that range of the plaintext |
| `BlockLayout.OverwriteBlocks` | internal/fusefrontend/file.go:316-386 | Writing newly sealed blocks over a body stores the plaintext with the data written into it, gaps as zeros |
| `BlockLayout.CutBlocks` | internal/fusefrontend/file_allocate_truncate.go:153-197 | Cutting a body at a block boundary stores the plaintext cut at the matching offset |
| `BlockLayout.GrowHoles` | internal/fusefrontend/file_allocate_truncate.go:237-262 | Extending a body of full blocks by zeros stores the plaintext extended by zeros |
| `BlockLayout.MovedBlock` | internal/contentenc/content.go:99-181 | A sealed block found at another position or in another file makes every range it lies in unreadable, and the body stores no plaintext that reaches it |
| `ContentOps.ExplodePlainRange` | internal/contentenc/offsets.go:97-114 | The parts tile the range: consecutive block numbers, only the first skips, only the last ends early, none empty |
| `ContentOps.RequestFitsBuffers` | internal/contentenc/content.go:60-86 | A request of legal size touches at most limit/block size + 1 blocks, so their ciphertext and plaintext fit the pooled buffers |
| `ContentOps.EncryptBlock` | internal/contentenc/content.go:249-292 | The result decrypts to the plaintext under the same number and ID, whatever nonzero nonce was drawn |
| `ContentOps.DoEncryptBlocks` | internal/contentenc/content.go:240-244 | Exactly the slots of its part of the output are filled, each with its own block sealed |
| `ContentOps.EncryptBlocksParallel` | internal/contentenc/content.go:190-215 | However the work is divided among CPUs, every slot holds its own block sealed |
| `ContentOps.EncryptBlocks` | internal/contentenc/content.go:220-237 | The joined output, cut at ciphertext block size, is the sealed blocks in order |
| `ContentOps.DecryptBlocks` | internal/contentenc/content.go:99-116 | Decrypts block by block; fails as soon as one block does |
| `ContentOps.MergeBlocks` | internal/contentenc/content.go:296-317 | The old block with the new data written at the offset, zero-filled if short |
| `DiskImage.StoredContent` | internal/contentenc/content.go:99-181 | A header and a body that stores p make a well-formed file whose content is p |
| `DiskImage.BlocksAreSealedOrHoles` | internal/contentenc/content.go:139-181 | In a well-formed file every block is a hole or was sealed under its own number and ID, for a cipher that opens only what it sealed; with `BlockBound` it was sealed for no other place |
| `DiskImage.ReportedSize` | internal/fusefrontend/file_allocate_truncate.go:201-210 | On a well-formed file the reported size is the length of the content |
| `DiskImage.ReadDisk` | internal/fusefrontend/file.go:184-236 | Reading and decrypting whole blocks of a well-formed file gives that part of its content |
| `DiskImage.WriteDisk` | internal/fusefrontend/file.go:316-386 | Writing sealed blocks into a well-formed file leaves one whose content has the data written into it |
| `DiskImage.CutDisk` | internal/fusefrontend/file_allocate_truncate.go:153-197 | Cutting a well-formed file at a block boundary leaves a well-formed file with the content cut |
| `DiskImage.GrowDisk` | internal/fusefrontend/file_allocate_truncate.go:237-249 | Extending a well-formed file between block boundaries leaves holes that read as zeros |
| `OpenFileTable.Table.Register` | internal/openfiletable/open_file_table.go:55-66 | One entry per file; its reference count goes up by one and everything else stays |
| `OpenFileTable.Table.Unregister` | internal/openfiletable/open_file_table.go:70-79 | The count goes down by one; the last reference removes the entry |
| `OpenFileTable.Table.Lock` | internal/openfiletable/open_file_table.go:86-95 | Taking the content lock counts one write operation |
| `EncryptedFile.File.CreateHeader` | internal/fusefrontend/file.go:123-142 | A new valid header in front of the file; or no change if the device refuses the space or the write |
| `EncryptedFile.File.ReadBlocks` | internal/fusefrontend/file.go:184-236 | The blocks of the request decrypt to that slice of the content, never outgrow the pooled buffers, and the pools take those back |
| `EncryptedFile.File.DoRead` | internal/fusefrontend/file.go:153-238 | Returns the requested slice of the content; never fails to decrypt; the only error is an offset beyond 2^63-1, and it occurs exactly for those if the file has content or its ID is cached |
| `EncryptedFile.File.EnsureFileID` | internal/fusefrontend/file.go:293-315 | The file has a header and its ID is cached, the content is untouched |
| `EncryptedFile.File.NewBlock` | internal/fusefrontend/file.go:322-344 | A partial block is its old content with the data merged in |
| `EncryptedFile.File.CollectBlocks` | internal/fusefrontend/file.go:318-345 | Every part of a write becomes the new content of its block |
| `EncryptedFile.File.SealWrite` | internal/fusefrontend/file.go:316-380 | The request as sealed blocks of the content with the data written in, in a buffer that is still the pooled one, so that the pool takes it back |
| `EncryptedFile.File.DoWrite` | internal/fusefrontend/file.go:287-387 | The content has the data written into it and all of it is reported written; or the request was refused and the content is unchanged, also when a header had been created and is removed again or stays; unless the device refuses, it fails exactly if its first block, or a last block that is only partly overwritten, lies beyond offset 2^63-1 |
| `EncryptedFile.File.ZeroPad` | internal/fusefrontend/file_holes.go:47-58 | The content is padded with zeros to a block boundary, or unchanged on error |
| `EncryptedFile.File.WritePadHole` | internal/fusefrontend/file_holes.go:17-43 | Pads exactly if the target lies in a later block than the next byte of the file; afterwards a write there needs no padding |
| `EncryptedFile.File.Read` | internal/fusefrontend/file.go:241-276 | The requested slice of the content, clipped at its end; oversized requests are refused, and offsets too large, exactly then, except that an empty file whose ID is not cached reads as empty anywhere |
| `EncryptedFile.ConsecutiveWriteNeedsNoPadding` | internal/fusefrontend/file.go:394-397 | Whenever a write counts as consecutive, the padding it skips would have done nothing, also for a new handle |
| `EncryptedFile.File.PadForWrite` | internal/fusefrontend/file.go:413-421 | With or without the streaming shortcut, the content is padded exactly where needed |
| `EncryptedFile.File.Write` | internal/fusefrontend/file.go:402-433 | The content has the data written into it; an oversized request and a released handle are refused, exactly then; blocks too far out are refused, exactly then unless the device refuses first; handle bookkeeping stays sound |
| `EncryptedFile.FarTiles` | internal/fusefrontend/file.go:330-358 | The blocks that can make a write fail for their offset are the first one and a partly overwritten last one |
| `EncryptedFile.File.GrowAligned` | internal/fusefrontend/file_allocate_truncate.go:237-249 | Growing between block boundaries extends the content by zeros |
| `EncryptedFile.File.TruncateGrowFile` | internal/fusefrontend/file_allocate_truncate.go:215-262 | The content is extended by zeros to the new size; on error it is unchanged or padded |
| `EncryptedFile.File.Shrink` | internal/fusefrontend/file_allocate_truncate.go:153-197 | The content is cut to the new size; on error it is unchanged or cut to whole blocks |
| `EncryptedFile.File.Truncate` | internal/fusefrontend/file_allocate_truncate.go:100-198 | The content has the new size, cut or zero-extended, or one of the listed error outcomes |
| `EncryptedFile.File.SetSize` | internal/fusefrontend/file_setattr.go:22-85 | Truncation through a handle, under the content lock; a released handle is refused |
| `EncryptedFile.File.AllocateSpace` | internal/fusefrontend/file_allocate_truncate.go:65-78 | Reserves from the first block of the range to where a file that ends with the range would end |
| `EncryptedFile.File.Allocate` | internal/fusefrontend/file_allocate_truncate.go:44-97 | Mode 0 extends the content by zeros if it is shorter, mode 1 leaves it alone, other modes are refused; on success the space is reserved |
| `FileSystem.Mount.DoOpen` | internal/fusefrontend/file.go:62-81 | A new handle; no content changes; table entries and counts stay in step with the open handles |
| `FileSystem.Mount.DoClose` | internal/fusefrontend/file.go:436-446 | The handle is released; the last one takes the table entry and the cached ID with it |
| `FileSystem.Mount.Call` | internal/fusefrontend/file.go:241-490 | Any call on any handle is a step of plain files: it affects only its own file, as specified, and never fails to decrypt |
| `FileSystem.TameSucceeds` | internal/fusefrontend/file.go:402-433 | A call on an open handle, of legal size and reach, fails only if the device refuses |
| `FileSystem.StepIsPlain` | internal/fusefrontend/file.go:241-433 | A successful call has the effect and the result of the same call on a plain file |
| `FileSystem.TameRunIsPlain` | internal/fusefrontend/file.go:153-433 | A run of such calls on a device that refuses nothing succeeds throughout; states and results are those of plain files, call by call |
| `FileSystem.Run` | internal/fusefrontend/file.go:153-433 | For every run from empty files: results explained step by step by plain files, no decryption error ever, and all backing files well formed with the right content at the end |
| `StreamingWrites.SkipsNothing` | internal/fusefrontend/file.go:388-421 | Wherever the invariant holds, a write that counts as consecutive would not have padded |
| `StreamingWrites.StepKeepsInv` | internal/openfiletable/open_file_table.go:81-95 | Every step of every thread keeps: one thread per file lock, and what a handle remembers is inside its file unless a call on the file has been counted since |
| `StreamingWrites.TruncatedBehindHandle` | internal/fusefrontend/node.go:240-253 | A run in which a file is cut by path between two writes and the second skips padding that is needed |
| `StreamingWrites.ShortcutSafe` | internal/fusefrontend/file.go:388-433 | In all interleavings of all handles no write leaves a short block behind a gap, if and only if files are not truncated by path (or blocks are single bytes) |
| `SharedWriters.StepKeepsInv` | internal/fusefrontend/file.go:316-386 | Every step of every mount keeps: each block is current or held by one writer, and each writer has what it read |
| `SharedWriters.ReadsCurrent` | internal/fusefrontend/file.go:322-344 | A block read under the lock is the current plaintext block |
| `SharedWriters.OverlapsExactly` | internal/fusefrontend/file_lock.go:10-50 | Two locked ranges exclude each other exactly if they share a byte |
| `SharedWriters.DisjointBlocks` | internal/contentenc/intrablock.go:50-59 | Locked ranges that do not overlap share no block |
| `SharedWriters.SplitsAsTiled` | internal/contentenc/intrablock.go:50-59 | The blocks, parts and locked range of a request are those of the tiling the file layer works with |
| `SharedWriters.NoLostUpdate` | internal/fusefrontend/file.go:316-386 | In every interleaving, also with writes that give up before they have written anything, the file holds what the finished writes leave when carried out one after the other, and no mount ever meets a block it cannot decrypt |
| `SharedHeader.RunKeepsInv` | internal/fusefrontend/file.go:90-142 | Without the two branches, at most one header is ever created and every cached ID is the one on disk, in all runs, also with failed operations and IDs dropped at the last close |
| `SharedHeader.TwoGrow` | internal/fusefrontend/file_allocate_truncate.go:237-249 | A run in which two mounts grow an empty file and create two headers |
| `SharedHeader.ReadThenRollBack` | internal/fusefrontend/file.go:293-315 | A run in which a header another mount has read is removed again |
| `SharedHeader.HeaderAgreement` | internal/fusefrontend/file.go:90-142 | All runs agree on the header if and only if neither branch is allowed |
| `KeyCache.Cache.constructor` | internal/externalenc/externalenc.go:49-57 | An empty cache of the given capacity, 4096 if that is not positive |
| `KeyCache.Cache.Get` | internal/externalenc/externalenc.go:88-112 | A hit returns the stored key and its cipher and moves to the front; a miss changes nothing; list, map and keys stay consistent |
| `KeyCache.Cache.RemoveEntry` | internal/externalenc/externalenc.go:73-86 | The entry leaves list and map, and its key array is zeroed |
| `KeyCache.Cache.Put` | internal/externalenc/externalenc.go:114-157 | A bad key length is refused; a present index is rekeyed in place; otherwise the last entry makes room and the new one goes in front |
| `KeyCache.Cache.Purge` | internal/externalenc/externalenc.go:159-169 | The cache is empty and every key array it ever allocated is zero |
| `KeyCache.ReplayIsCache` | internal/externalenc/externalenc.go:88-169 | After any run: at most capacity items, one per index, each with the key last put |
| `KeyCache.ReplayIsLru` | internal/externalenc/externalenc.go:88-157 | After any run the cached indices are the most recently used ones, in the order of their last use; a use is a get that hits or a put of a new index, not a new key for a cached one |
| `KeyCache.CachedExactly` | internal/externalenc/externalenc.go:88-169 | After any run an index is cached if and only if it was used since the last purge and fewer than `capacity` different others were used after it |
| `KeyCache.GetAnswers` | internal/externalenc/externalenc.go:88-112 | A get is answered with the key last put, exactly in that case |
| `KeyCache.EvictsLeastRecent` | internal/externalenc/externalenc.go:114-157 | A put of a new index into a full cache drops exactly the index whose last use lies furthest back, and into any other cache none |
| `KeyCache.Run` | internal/externalenc/externalenc.go:49-169 | Any run of get, put and purge replies as the sequence does, and every allocated key array is owned by a live entry or zero |
| `KeyCache.BatchFits` | internal/externalenc/externalenc.go:535-587 | A wanted key survives the insertion of its batch, in every order and into every cache, if and only if the batch is no larger than the cache |
| `KeyClient.PlanKeyBatches` | internal/externalenc/externalenc.go:858-875 | The batches cover the range in order without overlap, in 64-bit arithmetic, in pieces of 1 to 3, and as few as possible |
| `KeyClient.DecodeDeriveBlockKeysResponse` | carter/proto/blockkeys.go:48-57 | Accepts exactly the right length and cuts it into 32-byte keys |
| `KeyClient.Client.FetchBlockKeys` | internal/externalenc/externalenc.go:877-898 | The card's keys for exactly the range if and only if there is a session and none of the round trips the range takes fails; a failure ends the call |
| `KeyClient.Client.WaitForKeys` | internal/externalenc/externalenc.go:598-626 | One retry: keys arrive if and only if a session could be set up and the round trips succeed at once, or again after one failure and a new session |
| `KeyClient.Client.StoreKeys` | internal/externalenc/externalenc.go:568-585 | Whatever order the map yields, the cipher for the wanted block is returned, and all keys new to the cache are in it at the end if the batch fits |
| `KeyClient.Client.GetBlockAEAD` | internal/externalenc/externalenc.go:535-587 | The cipher is keyed by the card's key for that index, from any cache and session state; there is one exactly if the key was at hand or the schedule lets a fetch succeed; a fetch that fits leaves the keys of the following blocks in the cache too |
| `KeyClient.Client.GetBlockKey` | internal/externalenc/externalenc.go:699-718 | The card's key; missing only after such failures or if the prefetch exceeds the cache |
| `KeyClient.Client.DeriveKeyCached` | internal/externalenc/externalenc.go:725-755 | The card's key for that index, and it is cached; there is one exactly if it was cached or the schedule lets one round trip succeed |
| `KeyClient.Client.Wipe` | internal/externalenc/externalenc.go:958-982 | No cached key and no session is left |
| `KeyClient.ExternalIsIdeal` | internal/externalenc/externalenc.go:926-956 | The cipher the file layer sees meets all it asks for |
| `KeyClient.ExtractsBlock` | internal/externalenc/externalenc.go:926-931 | The index taken out of the associated data is the block number content encryption put in |
| `KeyClient.BlocksUnderTheirKeys` | internal/externalenc/externalenc.go:926-956 | Content encryption over the card seals and opens each block under the card's key for its number |
| `KeyClient.Run` | internal/externalenc/externalenc.go:535-982 | For every fault schedule each call fails or answers as if there were no cache, batches or sessions; if sessions are granted and no round trip fails within one prefetch of another failure, no call fails |
| `KeyClient.RunUsesBlockKeys` | internal/externalenc/externalenc.go:933-956 | In any run, a seal or open for block k of any file fails or is carried out under the card's key for k |
| `KeyClient.OpenUndoesSeal` | internal/externalenc/externalenc.go:933-956 | Open undoes Seal however far apart in a run they are |
| `MetaRecord.SplitEncoded` | carter/blobmeta/record.go:154-165 | Cutting a buffer into fields undoes writing them |
| `MetaRecord.EncodedSplit` | carter/blobmeta/record.go:236-253 | A buffer that can be cut is the encoding of its fields |
| `MetaRecord.Utf8Exactly` | carter/blobmeta/record.go:109-125 | A string passes the UTF-8 check if and only if it is the encoding, by arithmetic on code points, of a sequence of code points that are not surrogates |
| `MetaRecord.Utf8Injective` | carter/blobmeta/record.go:109-125 | A string encodes at most one sequence of code points |
| `MetaRecord.NameExactly` | carter/blobmeta/record.go:104-125 | A name is valid exactly if it has 1 to 255 bytes that encode code points, none of them a slash or zero, and is not a dot or two; the root may have none |
| `MetaRecord.ValidExactly` | carter/blobmeta/record.go:127-151 | What a valid record is: three kinds, a target of 1 to 4096 bytes exactly for links, a valid name and valid attributes |
| `MetaRecord.StoreField` | carter/blobmeta/record.go:255-317 | Storing one field accepts exactly the legal ones and gives the record described by the fields so far |
| `MetaRecord.UnmarshalRecord` | carter/blobmeta/record.go:236-330 | Accepts exactly well-framed lists of known fields without repetition, with the required ones and a valid record, and returns that record |
| `MetaRecord.Marshal` | carter/blobmeta/record.go:188-228 | Refuses exactly invalid records and those over 65535 bytes; otherwise the fields in their fixed order |
| `MetaRecord.FieldOrder` | carter/blobmeta/record.go:188-222 | The tags 1 to 13 in order with their widths, 14 for links only, then one 15 per attribute |
| `MetaRecord.RecordRoundTrip` | carter/blobmeta/record.go:188-351 | Decoding undoes encoding for every valid record; version 0 becomes 1 |
| `MetaRecord.RecordLength` | carter/blobmeta/record.go:188-228 | The length of the encoding, computed from the lengths of the fields |
| `MetaRecord.AcceptedIsStable` | carter/blobmeta/record.go:236-330 | Whatever is accepted is valid and decodes to itself from its own encoding; it can be stored again exactly if its computed length is at most 65535 |
| `MetaRecord.AcceptedTooLong` | carter/blobmeta/record.go:188-330 | A buffer of legal length whose record is accepted but encodes to more than 65535 bytes |
| `InfoChunk.UnitCountLeast` | carter/blobmeta/chunk.go:54-60 | The unit count is the least that holds the record, and at most 137 for legal lengths, so the limit error cannot occur |
| `InfoChunk.Unit0Layout` | carter/blobmeta/chunk.go:134-144 | Where version, continuation flag, length and payload of the first unit are, in terms of bytes and bits |
| `InfoChunk.AADInjective` | carter/blobmeta/chunk.go:73-80 | The associated data of a unit determines the file and the position |
| `InfoChunk.SealInfoChunk` | carter/blobmeta/chunk.go:85-122 | Refuses exactly bad keys and records that do not marshal; otherwise every unit is sealed to file and position |
| `InfoChunk.DecodeInfoChunk` | carter/blobmeta/chunk.go:150-193 | Reads the chunk off the front of any byte string, or refuses it, as the reference says |
| `InfoChunk.ReadFullAt` | carter/blobmeta/chunk.go:252-265 | All the bytes asked for, or an error if there are fewer |
| `InfoChunk.ReadInfoChunk` | carter/blobmeta/chunk.go:198-250 | Succeeds exactly when decoding the same bytes in memory does, with the same record and content offset |
| `InfoChunk.InfoChunkRoundTrip` | carter/blobmeta/chunk.go:85-193 | A sealed record decodes to itself and to the length of its chunk, whatever bytes follow |
| `InfoChunk.MovedUnit` | carter/blobmeta/chunk.go:124-132 | A unit sealed for another file or position does not open, for a cipher that tells the associated data at hand apart |
| `InfoChunk.BadUnit` | carter/blobmeta/chunk.go:150-193 | One unit that does not open makes the chunk unreadable |
| `BlobStore.Store.ReadMeta` | carter/blobstore/blobstore.go:125-156 | The record and content offset of the blob filed under this UUID, if it carries the UUID and opens |
| `BlobStore.Store.WriteMeta` | carter/blobstore/blobstore.go:165-187 | The blob is the UUID, the record sealed under the file's own key and the content; it shows record and content, all other blobs are unchanged; or nothing changed, which a reliable device does only to records that do not marshal |
| `BlobStore.Store.ReplaceMeta` | carter/blobstore/blobstore.go:193-211 | The new record in front of the old content, even if the unit count changes, all other blobs unchanged; or nothing changed |
| `BlobStore.Store.Delete` | carter/blobstore/blobstore.go:214-223 | The blob is gone, all others are unchanged |
| `BlobStore.Store.ReadBlobAt` | carter/blobstore/blobstore.go:289-319 | The UUID in the blob and its record, if they agree, and the length of the content behind them |
| `BlobStore.Store.Scan` | carter/blobstore/blobstore.go:252-284 | Every readable blob is visited exactly once with the length of its content, unless a directory cannot be listed |
| `FsIndex.PutSound` | carter/fsindex/fsindex.go:213-228 | After a put, entries still name live records with that parent and name, without any assumption |
| `FsIndex.RemoveSound` | carter/fsindex/fsindex.go:198-210 | The same after a removal |
| `FsIndex.OneRoot` | carter/blobmeta/record.go:91-93 | Only the directory filed under the fixed UUID, with nothing above it, is the root |
| `FsIndex.PutComplete` | carter/fsindex/fsindex.go:213-228 | From any table whose records are all found, a put keeps that if and only if no other record with an entry has its new place or, if it moves, its old one |
| `FsIndex.RemoveComplete` | carter/fsindex/fsindex.go:198-210 | From any table whose records are all found, a removal keeps that if and only if no other record with an entry has the removed one as parent or shares its place |
| `FsIndex.StepExact` | carter/fsindex/fsindex.go:198-228 | From an index with exact lookup, a step leads to one if and only if it spares other entries as above and a root does not replace a record with an entry in the same place |
| `FsIndex.RunSound` | carter/fsindex/fsindex.go:190-228 | After any run whatsoever, every entry names a live record with that parent and name |
| `FsIndex.RunExact` | carter/fsindex/fsindex.go:157-228 | For every run: lookup is exact at every moment if and only if every step meets that condition on the records |
| `FsIndex.FoundIfUntouched` | carter/fsindex/fsindex.go:157-228 | After any run whatsoever, a live record other than the root is found if and only if no step has touched its place since it was last put |
| `FsIndex.LegalRunFindsExactly` | carter/fsindex/fsindex.go:157-228 | In particular, if places are never shared, only empty directories are removed and the root stays the root, lookup finds exactly the live records other than the root |
| `FsIndex.SharedPlaceLosesEntry` | carter/fsindex/fsindex.go:198-228 | Two records in one place: removing the first hides the second |
| `FsIndex.RenamedRootLosesEntry` | carter/fsindex/fsindex.go:213-228 | A file in the place of the root is hidden when the root is renamed, although all records then have places of their own |
| `FsIndex.Index.PutLocked` | carter/fsindex/fsindex.go:213-228 | Records and entries after a put, as the reference functions say |
| `FsIndex.Index.Drop` | carter/fsindex/fsindex.go:198-210 | Records and entries after a removal, as the reference functions say |
| `FsIndex.Index.Lookup` | carter/fsindex/fsindex.go:157-166 | The entry under a parent and a name |
| `FsIndex.Run` | carter/fsindex/fsindex.go:190-228 | Any run on a new index ends with the records and entries of the reference |
| `IndexBody.EncodeBody` | carter/fsindex/fsindex.go:265-282 | In whatever map order, each record that marshals is in the body once and the header counts all; so it decodes to the records exactly if none had to be dropped, and otherwise not at all |
| `IndexBody.DecodeTooMany` | carter/fsindex/fsindex.go:295-312 | A body that promises more records than it holds is refused |
| `IndexBody.BodyRoundTrip` | carter/fsindex/fsindex.go:265-314 | A body decodes to the records put in if none was dropped, and not at all otherwise |
| `IndexBody.DecodesOnlyBodies` | carter/fsindex/fsindex.go:284-314 | Whatever is accepted starts with the body of exactly the records that come out |
| `IndexBody.DecodeBody` | carter/fsindex/fsindex.go:284-314 | Accepts exactly well-formed bodies, fills the index with their records in order and takes over the generation number |
| `IndexBody.PutsFindExactly` | carter/fsindex/fsindex.go:213-228 | Put in any order, the records of a table leave that table; every occupied place finds a record that is there; and lookup finds exactly the records other than the root if and only if no two of them share a place |
| `IndexBody.OrderMatters` | carter/fsindex/fsindex.go:213-282 | Two records other than the root in one place: one order of the same table finds the first there, another the second |
| `IndexBody.EntriesDetermined` | carter/fsindex/fsindex.go:213-314 | The entries are independent of the order of the records if and only if no two records other than the root share a place |
| `Vault.SealTree` | carter/fsindex/fsindex.go:242-282 | The sealed tree loads as the index it was made from; with a dropped record it does not load at all |
| `Vault.Vault.Load` | carter/fsindex/fsindex.go:94-114 | Succeeds exactly if there is no marker, the tree unseals and decodes, and there is a root; then it has exactly the records of the blobs, every occupied place finds one of its records, and lookup is exact if and only if no two records other than the root share a place |
| `Vault.Vault.Rebuild` | carter/fsindex/fsindex.go:71-89 | The index of a full scan shows the blobs in the same sense; it never succeeds without a root, and fails with one only if the scan fails |
| `Vault.Vault.Start` | carter/fsindex/fsindex.go:118-134 | Scans exactly if the tree does not load; if the process comes up, either way, it shows the blobs in the same sense; with a root and a reliable device it comes up unless it is killed |
| `Vault.Vault.SaveAndRestart` | carter/fsindex/fsindex.go:94-256 | After a save on a reliable device and a crash, the next start needs no scan, exactly if there is a root and no record was too long to store |
| `Vault.Vault.MarkDirty` | carter/fsindex/fsindex.go:235-237 | Keeps: without a marker the tree is unusable or up to date |
| `Vault.Vault.WriteTree` | carter/fsindex/fsindex.go:242-252 | The same for the first half of a save |
| `Vault.Vault.ClearDirty` | carter/fsindex/fsindex.go:253-256 | The same for the second half, even if the marker cannot be removed; on a reliable device it is gone |
| `Vault.Vault.WriteBlob` | carter/blobstore/blobstore.go:165-187 | The same for a blob write the index does not know of yet |
| `Vault.Vault.Mirror` | carter/fsindex/fsindex.go:190-210 | The index catches up with the blob |
| `Vault.Run` | carter/fsindex/fsindex.go:71-314 | For every run of batches, crashes and restarts, each start that succeeds has exactly the records of the blobs at that moment, with lookup exact if and only if no two of them other than the root share a place; a start that has a root and a reliable device succeeds |
| `InoMap.PassthruInjective` | internal/inomap/inomap.go:109-122 | Namespace and inode number can be told from the result, which lies below the spill space |
| `InoMap.InoMap.NextSpillIno` | internal/inomap/inomap.go:77-82 | A number never handed out before; panics only when the space is used up |
| `InoMap.InoMap.Spill` | internal/inomap/inomap.go:84-96 | The number of the input, new or as before; all others keep theirs |
| `InoMap.InoMap.Translate` | internal/inomap/inomap.go:99-123 | The number of the input, new or as before; all others keep theirs |
| `InoMap.InoMap.NumbersDiffer` | internal/inomap/inomap.go:84-123 | Different inputs have different numbers, none of them from the loose pool |
| `InoMap.Run` | internal/inomap/inomap.go:50-123 | In every run equal inputs get equal numbers, different ones different numbers, spill numbers are never met again, and inodes up to 48 bits of the root device, or of the first namespace met if none is given, pass through |
| `CardEnvelope.DecodeCEFrame` | carter/proto/card.go:229-296 | Returns a frame exactly for buffers that start with a header and seven whole fields, and that frame |
| `CardEnvelope.DecodesExactly` | carter/proto/card.go:202-296 | A buffer decodes to a frame if and only if it starts with the wire encoding of that frame, with fields up to 65535 bytes |
| `CardEnvelope.FrameRoundTrip` | carter/proto/card.go:202-296 | Decoding undoes the wire encoding for fields up to 65535 bytes; trailing bytes are ignored |
| `CardEnvelope.FrameStarts` | carter/proto/card.go:202-214 | The first 14 bytes of every frame |
| `CardEnvelope.MacInputInjective` | carter/proto/card.go:202-224 | The MAC input determines every field but the MAC |
| `CardEnvelope.PadExactly` | carter/proto/card.go:298-306 | One to sixteen bytes, each of which says how many, up to a block boundary |
| `CardEnvelope.PadRoundTrip` | carter/proto/card.go:298-317 | Unpadding undoes padding |
| `CardEnvelope.CommandArrives` | carter/proto/card.go:466-493 | A card that reads short and extended command APDUs gets exactly the frame that was sent, for all frames up to 65535 bytes, and no others are sent |
| `CardEnvelope.StatusChecked` | carter/proto/card.go:495-507 | A response is looked at exactly if it ends with 90 00, and then it is what comes before |
| `CardEnvelope.ResponseRoundTrip` | carter/proto/card.go:411-464 | A response the card makes to a request is accepted and opens to what was put in |
| `CardEnvelope.AcceptedWasIssued` | carter/proto/card.go:411-464 | With an unforgeable MAC every accepted response was made by the card for exactly this request, and a wrong IV length cannot get as far as the cipher |
| `CardEnvelope.Session.NextSequence` | carter/proto/card.go:97-101 | The n-th number of the 64-bit counter |
| `CardEnvelope.Session.BuildCERequest` | carter/proto/card.go:356-404 | From its APDU the card reads an authentic frame for this session that holds the command and its payload; refused exactly when the identifiers and the padded payload exceed what an extended APDU holds |
| `CardEnvelope.BuildAll` | carter/proto/card.go:97-464 | The requests of a session, fewer than 2^64, are numbered differently, and no response is accepted for two of them |
| `ReverseFile.ViewSize` | internal/contentenc/offsets.go:80-86 | The encrypted view has the size the size translation predicts |
| `ReverseFile.IVsDiffer` | internal/pathiv/pathiv.go:51-59 | No two blocks of a file share an IV, and block 0 has the file's |
| `ReverseFile.EncryptPlain` | internal/fusefrontend_reverse/file_helpers.go:17-28 | The blocks of the plaintext, each sealed under the IV of its number |
| `ReverseFile.ExplodeCipherRange` | internal/contentenc/offsets.go:118-140 | The parts tile the ciphertext range |
| `ReverseFile.File.ReadBackingFile` | internal/fusefrontend_reverse/file_helpers.go:34-62 | That range of the view's body, clipped at its end |
| `ReverseFile.File.Read` | internal/fusefrontend_reverse/file.go:27-65 | For a non-empty file that slice of one fixed ciphertext; for an empty one, header bytes exactly if the request ends within the header |
| `ReverseFile.ForwardReadsView` | internal/fusefrontend_reverse/file_helpers.go:17-62 | Forward mode finds the view of a non-empty file well formed with the plain file as its content, if and only if every block has a nonzero IV or is a block of zeros that sealed to zeros |
| `ReverseFile.ZeroIV` | internal/pathiv/pathiv.go:51-59 | The IV of block k is zero exactly if the upper half of the file IV is zero and the lower half plus k is 0 modulo 2^64 |
| `ReverseFile.ForwardReadsUsableView` | internal/pathiv/pathiv.go:51-59 | Forward mode reads the view if no block number of the file meets a zero IV; and only then, unless some block seals to zeros |
| `ReverseFile.ZeroIVUnreadable` | internal/contentenc/content.go:139-181 | A one-byte file under the all-zero file IV is not readable in forward mode |

## Left out

- 64-bit wrap-around of file offsets: offsets are unbounded integers, with the source's explicit checks against 2^63-1; the write-operation counter does not wrap.
- `WriteAt` that fails half-way, and media that return wrong bytes: a write to the backing file happens or is refused as a whole.
- `Lseek`, whose answers depend on the kernel's view of holes.
- Calls on one mount run one after the other in `FileSystem`; interleaved calls are modelled for the streaming shortcut only, where a call changes a file's size in one step. Truncation by path, which does not take the content lock, appears only there.
- Reads through a handle that has been released.
- Goroutines inside `encryptBlocksParallel`, which work on disjoint parts of one array, run one after the other.
- Shared storage: growing writes, hole padding and the locked read retry; header writes are atomic, and the header model lets data writes happen without their locks, which only adds runs.
- The mutexes of the card client, its heartbeat and statistics, TLS pinning, HTTP and the handshake: calls are sequential, and the second cache lookup after re-acquiring the mutex is one with the first.
- The temporary copies of keys outside the cache, and the cipher objects behind them, are values; that the source overwrites those copies is not modelled.
- The file name cache `smartEMECache` mirrors the content key cache and would add nothing.
- Name encryption, rename and directory bookkeeping, FUSE, command line and logging.
- The internals of AES, GCM, SIV, CBC, HMAC and SHA-256: functions of which only the stated laws are used. That the blob id hash is injective is assumed; that the card's MAC is unforgeable, and that a sealed text opens under no other associated data, are hypotheses about the texts at hand.
- Which error a codec reports: the record, chunk and index decoders return no value for every error.
- Hex path names, temporary files and directory syncs of the blob store: a blob is stored under its id, and replacing it is atomic.
- Vaults of 2^32 records or more, whose count would not fit the tree file, and blobs from elsewhere whose record claims version 0.
- `BuildAuthChallengeAPDU`, `ParseProtectedResponse`, `EstablishSession` and base64: byte shuffling without a law of its own.
- `EncryptedFile.File.Shrink`: on a refused write the last partial block may be lost, as in the source.
