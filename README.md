# Term-file index and Raft message helpers

This project models, in Dafny, two parts of TDengine.

**The term-file ("tindex") layer of the inverted index** (`index_tfile.c`). A term file is written once, for one
column of one super table. It holds:

- a header;
- the 32-bit offset of its FST (the finite-state transducer mapping each column value to the file position of
  its table-id list);
- one block per value of the batch written, duplicates included, each block being a 32-bit count followed by
  64-bit table ids;
- the FST itself.

The model covers:

- the writer: creation, the header, the FST offset, the two passes of `tfileWriterPut` that lay out and write
  the blocks, the serialisation of one id list, and feeding the FST builder;
- the reader: opening a file image, loading an id block, searching a term, and its reference count;
- the iterator that walks every key of a reader's FST;
- the reader cache: building it from a directory listing, get, the hot-swapping put, and destroy;
- the façade `indexTFileCreate/Destroy/Search` and `tfileGetReaderByCol`;
- the file-name generator and parser, the directory filter, and the comparators.

File contents are values (`FileImage`: the header region, the byte body after it, and the FST region). The
writer, readers, iterators and the cache are classes whose methods update their fields.

**The Raft message helpers of `raft_message.h`**: the message types, the message record, the two constructors of
thread-internal messages, and the two classifications of a message type.

Modules:

| module | file |
|---|---|
| `Bytes` | `bytes.dfy`: 32-bit and 64-bit little-endian encodings |
| `CStrings` | `cstrings.dfy`: C strings, `strcmp` and `strncmp` |
| `Wrappers` | `wrappers.dfy`: `Option` |
| `Fst` | `fst.dfy`: the FST as a builder of strictly ascending pairs |
| `TFileFormat` | `tfile_format.dfy`: the file layout and what reading it means |
| `TFileWrite` | `tfile_write.dfy`: the writer |
| `TFileRead` | `tfile_read.dfy`: the reader and the iterator |
| `FileNames` | `file_names.dfy`: file names and the directory listing |
| `ReaderCache` | `reader_cache.dfy`: the reader cache |
| `TFileIndex` | `tfile_index.dfy`: the façade |
| `RaftMessage` | `raft_message.dfy`: the Raft messages |

On these points the code behaves in ways its names do not suggest; the model follows the code:

- A reader is created with reference count 0. The increment in `tfileReaderCreate` is commented out, at
  `index_tfile.c:151`.
- `tfileReaderSearch` answers -1 when the term is not found, and for prefix and other query kinds.
- `indexTFileSearch` answers 0, with the result untouched, when no reader holds the term's column.
- `tfileParseFileName` accepts any text after the version, because `sscanf` returns 3 as soon as `%d` matched;
  the literal `.tindex` is never checked.

## Model

| member | source | states |
|---|---|---|
| Bytes.DecodeEncodeI32 | source/libs/index/src/index_tfile.c:505-511 | the 4 bytes written for a 32-bit FST offset decode back to the same value |
| Bytes.DecodeEncodeU64 | source/libs/index/src/index_tfile.c:496-503 | each 8-byte table id copied into a block decodes back to the same id |
| CStrings.StrCompareIsLex | source/libs/index/src/index_tfile.c:464-468 | `tfileStrCompare` is -1, 0 or 1 and is the sign of `strcmp`; -1 exactly when the first string is lexicographically smaller, 0 exactly when the strings are equal |
| CStrings.StrCompareFlip | source/libs/index/src/index_tfile.c:464-468 | swapping the arguments negates the comparison |
| CStrings.StrCompareTransitive | source/libs/index/src/index_tfile.c:464-468 | the comparison is transitive, so sorting with it is well defined |
| CStrings.StrncmpLongEnough | source/libs/index/src/index_tfile.c:639-649 | `strncmp` bounded by the longer of the two lengths decides like `strcmp` |
| CStrings.FileCompareIsStrCompare | source/libs/index/src/index_tfile.c:639-649 | `tfileCompare` orders file names exactly as `tfileStrCompare` does |
| Fst.Insert | source/libs/index/src/index_tfile.c:324-334 | the FST builder accepts a key exactly when the builder is empty or the key is greater than the last one accepted; an accepted key is appended with its output, and a refused key leaves the builder unchanged |
| Fst.InsertKeepsSorted | source/libs/index/src/index_tfile.c:324-334 | inserting into a builder whose keys strictly ascend keeps them strictly ascending |
| Fst.Get | source/libs/index/src/index_tfile.c:185 | `fstGet` misses exactly when no pair has the key, and a hit returns the output paired with the key |
| Fst.GetFindsPair | source/libs/index/src/index_tfile.c:185 | in a strictly sorted FST, every key is found with its own output |
| TFileFormat.DecodeEncodeIds | source/libs/index/src/index_tfile.c:577-594 | reading 8-byte ids back from encoded ids gives the ids |
| TFileFormat.BlockRoundTrip | source/libs/index/src/index_tfile.c:577-594 | a block (count, ids) written anywhere in a file is read back from its offset by `tfileReaderLoadTableIds` as the same id list |
| TFileFormat.OffsetsIncrease | source/libs/index/src/index_tfile.c:270-279 | the first pass lays blocks out one after the other, so a later value's block starts after the end of an earlier one |
| TFileFormat.Build | source/libs/index/src/index_tfile.c:324-334 | the FST that the builder accepts from a sequence of values strictly ascends |
| TFileFormat.BuildFst | source/libs/index/src/index_tfile.c:324-334 | only string columns insert into the FST; for any other column type the FST is empty |
| TFileFormat.BuildStrictlyAscending | source/libs/index/src/index_tfile.c:324-334 | when the values strictly ascend, every value is accepted, in order, with its block offset |
| TFileFormat.BuildNonDecreasing | source/libs/index/src/index_tfile.c:255-264 | for values in sorted order, the first value of each run of equal keys is found in the FST with its own block offset |
| TFileFormat.BuildFromValues | source/libs/index/src/index_tfile.c:324-334 | every FST pair comes from some value and its offset |
| TFileFormat.OpenWrittenImage | source/libs/index/src/index_tfile.c:539-576 | a file as the writer leaves it reopens: the header is read back with its FST offset, the FST loads as the one built, and every value's block is read back as its table ids |
| TFileWrite.ValueCompare | source/libs/index/src/index_tfile.c:470-477 | values compare by `tfileStrCompare` of their column values |
| TFileWrite.SortByStrCompare | source/libs/index/src/index_tfile.c:255-264 | the sort leaves the array ordered by the comparator and a permutation of what it was |
| TFileWrite.SerialTableIdsToBuf | source/libs/index/src/index_tfile.c:496-503 | the buffer holds the id count as 32 bits followed by each id as 64 bits |
| TFileWrite.TFileWriter.constructor | source/libs/index/src/index_tfile.c:230-251 | a new writer has written only the header and stands at the end of the header |
| TFileWrite.TFileWriter.WriteHeader | source/libs/index/src/index_tfile.c:512-522 | the header region is written and the writer's offset is the header's size |
| TFileWrite.TFileWriter.WriteFstOffset | source/libs/index/src/index_tfile.c:505-511 | the given offset plus 4 is recorded as the header's FST offset and appended as 4 bytes, and the write position advances by 4 |
| TFileWrite.TFileWriter.WriteData | source/libs/index/src/index_tfile.c:523-538 | a string column's value is inserted into the FST builder and the answer is 0 exactly when it was accepted; other column types change nothing |
| TFileWrite.TFileWriter.TotalSize | source/libs/index/src/index_tfile.c:270-279 | the first pass computes the FST offset as the current offset plus the size of every block |
| TFileWrite.TFileWriter.WriteBlocks | source/libs/index/src/index_tfile.c:281-310 | the second pass appends every value's block in order, records each value's offset, and lays the blocks out contiguously |
| TFileWrite.TFileWriter.InsertAll | source/libs/index/src/index_tfile.c:324-334 | the insert loop leaves the builder holding the FST built from the values |
| TFileWrite.TFileWriter.PutBlocks | source/libs/index/src/index_tfile.c:253-310 | sorting (unless the input is ordered), writing the FST offset and writing every block leaves the body as the offset followed by the blocks of a permutation of the input, laid out from just after the offset |
| TFileWrite.TFileWriter.Put | source/libs/index/src/index_tfile.c:253-339 | `tfileWriterPut`: the blocks are written as in the two passes; -1 is answered exactly when the builder could not be created, which closes the writer; otherwise the FST over the sorted values ends the file, and a fresh writer's file is exactly the image that reopens |
| TFileRead.ToI32 | source/libs/index/src/index_tfile.c:188 | the 64-bit FST output is converted to the `int32_t` offset parameter modulo 2^32, and is unchanged when below 2^31 |
| TFileRead.TFileReader.constructor | source/libs/index/src/index_tfile.c:147-167 | a new reader holds the file, its header and its FST, with reference count 0 |
| TFileRead.TFileReader.Ref | source/libs/index/src/index_tfile.c:595-599 | the reference count goes up by one |
| TFileRead.TFileReader.UnRef | source/libs/index/src/index_tfile.c:601-608 | the reference count goes down by one; at 0 the reader is destroyed, and its file is removed exactly when it was marked for removal |
| TFileRead.TFileReader.Destroy | source/libs/index/src/index_tfile.c:168-174 | destroying a reader removes its file exactly when it was marked for removal |
| TFileRead.TFileReader.LoadTableIds | source/libs/index/src/index_tfile.c:577-594 | the block's ids are appended to the result |
| TFileRead.TFileReader.Search | source/libs/index/src/index_tfile.c:176-202 | a term query whose value the FST holds appends that value's ids and answers 0; any other query answers -1 with the result untouched; either way one reference is released |
| TFileRead.ReaderCreate | source/libs/index/src/index_tfile.c:147-167 | the reader is NULL exactly when the FST cannot be loaded; otherwise it is fresh and holds what the file's header and FST read as, with reference count 0 |
| TFileRead.TFileIterator.Next | source/libs/index/src/index_tfile.c:381-408 | the iterator yields the FST's keys in order, each with the ids of its block, and answers false once they are exhausted |
| TFileRead.IteratorCreate | source/libs/index/src/index_tfile.c:412-437 | an iterator over a reader starts before the first key; a NULL reader gives no iterator |
| TFileRead.WrittenFileSearch | source/libs/index/src/index_tfile.c:176-202 | for a written string column, a search for any written value finds it with that value's ids, and a value never written is not found |
| TFileRead.WrittenFileStream | source/libs/index/src/index_tfile.c:381-408 | iterating a written file yields strictly ascending keys, each a written value with that value's ids |
| FileNames.ParseGenFileName | source/libs/index/src/index_tfile.c:651-662 | parsing a generated name gives back its super-table id, column and version, for a non-empty column without '-' |
| FileNames.ParseIgnoresSuffix | source/libs/index/src/index_tfile.c:651-657 | any text after the version is accepted, `.tindex` or not |
| FileNames.DashedColumnLost | source/libs/index/src/index_tfile.c:651-662 | a column name containing '-' does not survive a round trip through the file name |
| FileNames.VersionsSortAsText | source/libs/index/src/index_tfile.c:639-649 | file names sort as text, so version 10 sorts before version 9 |
| FileNames.KeptNamesAsWritten | source/libs/index/src/index_tfile.c:617-623 | the listing as written keeps only entries of unknown type |
| FileNames.RegularFilesDropped | source/libs/index/src/index_tfile.c:618 | the listing as written drops every regular file |
| FileNames.KeptNames | source/libs/index/src/index_tfile.c:617-623 | the corrected listing keeps exactly the entries that are not directories |
| FileNames.KeptNamesInOrder | source/libs/index/src/index_tfile.c:617-623 | the corrected listing keeps those names in directory order |
| ReaderCache.HoldersUpdate | source/libs/index/src/index_tfile.c:131-146 | replacing the reader at one key changes how many keys hold each reader by exactly that one key |
| ReaderCache.TFileCache.constructor | source/libs/index/src/index_tfile.c:56-60 | a new cache is empty |
| ReaderCache.TFileCache.Get | source/libs/index/src/index_tfile.c:121-130 | a key the cache holds gives its reader with one more reference; a missing key gives NULL; the cache is unchanged |
| ReaderCache.TFileCache.Put | source/libs/index/src/index_tfile.c:131-146 | the key now maps to the new reader, which gains a reference; a different old reader is marked for removal and loses the cache's reference |
| ReaderCache.TFileCache.Register | source/libs/index/src/index_tfile.c:94-95 | startup puts the reader under its key and takes one reference, without releasing a reader it replaces |
| ReaderCache.TFileCache.OpenFile | source/libs/index/src/index_tfile.c:67-96 | one step of startup: an unparsable name is skipped, a missing file fails, and an opened file's reader is registered under its header's key |
| ReaderCache.TFileCache.OpenAll | source/libs/index/src/index_tfile.c:67-96 | startup succeeds exactly when no listed file is missing, and then holds one reference on a reader for each key, opened from the last file of that key |
| ReaderCache.TFileCache.Destroy | source/libs/index/src/index_tfile.c:104-119 | the cache is emptied, and each reader loses one reference for each key that held it |
| ReaderCache.CacheCreate | source/libs/index/src/index_tfile.c:56-103 | `tfileCacheCreate` answers NULL exactly when some listed file cannot be opened; otherwise the cache is fresh and holds the registered readers |
| ReaderCache.RegisteredFromHeaders | source/libs/index/src/index_tfile.c:85-95 | every key the cache holds is the key of the header of a listed, parsable file |
| ReaderCache.UnparsableSkipped | source/libs/index/src/index_tfile.c:70-73 | a file whose name does not parse changes nothing |
| ReaderCache.LastFileWins | source/libs/index/src/index_tfile.c:85-95 | when later files do not share a file's key, that file's reader is the one left under its key |
| TFileIndex.TermKey | source/libs/index/src/index_tfile.c:368-369 | a term is looked up under its super-table id, column name and column type |
| TFileIndex.IndexTFileCreate | source/libs/index/src/index_tfile.c:351-357 | the handle's cache is NULL exactly when startup failed, and is otherwise the cache startup built |
| TFileIndex.IndexTFileDestroy | source/libs/index/src/index_tfile.c:358-361 | destroying the handle empties its cache and releases every reference the cache held |
| TFileIndex.ReaderOf | source/libs/index/src/index_tfile.c:121-130 | a term's reader is the one its key maps to, or NULL |
| TFileIndex.IndexTFileSearch | source/libs/index/src/index_tfile.c:363-374 | no handle answers -1; no reader for the column answers 0; otherwise the reader's search answers, and the reader keeps its reference count and is not destroyed |
| TFileIndex.GetReaderByCol | source/libs/index/src/index_tfile.c:453-457 | the reader of a binary column is returned with one more reference, and is NULL exactly when the cache holds none |
| RaftMessage.CodeInjective | source/libs/sync/inc/raft_message.h:28-40 | the message types have distinct numbers |
| RaftMessage.InitPropMsg | source/libs/sync/inc/raft_message.h:71-83 | a proposal is an internal-propose message with term, sender and receiver zero, carrying the buffer, data and weak flag |
| RaftMessage.InitElectionMsg | source/libs/sync/inc/raft_message.h:85-96 | an election message is internal-election, with term and receiver zero, from the given node |
| RaftMessage.IsInternalMsg | source/libs/sync/inc/raft_message.h:98-101 | a type is internal exactly when its number is 1 or 2 |
| RaftMessage.InternalExactly | source/libs/sync/inc/raft_message.h:98-101 | only the two thread-internal types are internal, and no vote type is |
| RaftMessage.ConstructedAreInternal | source/libs/sync/inc/raft_message.h:71-101 | every message the two constructors build is internal |
| RaftMessage.VoteRespMsgTypeAsWritten | source/libs/sync/inc/raft_message.h:103-106 | as written, every type is answered with a pre-vote response |
| RaftMessage.VoteAnsweredAsPreVote | source/libs/sync/inc/raft_message.h:103-106 | as written, a vote is not answered with a vote response |
| RaftMessage.VoteRespMsgType | source/libs/sync/inc/raft_message.h:103-106 | corrected: a vote is answered with a vote response, anything else with a pre-vote response |
| RaftMessage.VoteRespAgreement | source/libs/sync/inc/raft_message.h:103-106 | a response type is never internal, and the corrected and as-written definitions differ only on a vote |

## Left out

- File and directory I/O are left out. A file is a value (`FileImage`), a directory listing is a sequence of
  entries, and the files of a directory are a map from name to image. A file that cannot be opened during cache
  startup (`writerCtxCreate` failing, `index_tfile.c:78-82`) is modelled as a name missing from that map, and
  makes `tfileCacheCreate` answer NULL. Short writes and short reads are not modelled: every write succeeds.
- Allocation failures (`calloc` returning NULL in the two create functions, the array and hash allocations) are
  not modelled.
- The byte layout of the header region is not modelled: `TFILE_HEADER_NO_FST` is an abstract constant, because
  index_tfile.h is not part of this model. The header region is kept as a value in the image.
- The FST's internals (fst.h and its automaton) are not part of this model. The FST is its strictly ascending
  (key, output) pairs. The reader's `fstCreate` succeeds exactly when the header's FST offset is where the
  builder left the FST region.
- `tfileReaderLoadFst`'s size limit (FST_MAX_SIZE) and the read of the FST bytes are abstracted as loading the
  recorded region.
- TFileWrite.TFileWriter.Put: for a non-string column only the permutation is stated, because the sort then
  uses the comparator of `getComparFunc` (`index_tfile.c:261`), which is not part of this model.
- TFileWrite.TFileWriter.Put, TFileWrite.TFileWriter.PutBlocks and TFileWrite.TFileWriter.WriteBlocks require
  the end of the last block to stay below 2^31. The source keeps `fstOffset`, `tbsz`, `ttsz` and `tw->offset`
  in `int32_t` (`index_tfile.c:266-279`, `284-287`, `307-308`), so a batch past 2 GiB overflows them, which is
  undefined behaviour in C; that overflow is not modelled.
- ReaderCache.TFileCache.Put requires a reader that is put again under the key that already holds it to have a
  reference besides the cache's. When the cache's reference is the only one, `tfileCachePut`
  (`index_tfile.c:139-144`) destroys the reader in `tfileReaderUnRef` and then `tfileReaderRef` touches the freed
  reader; that use after free is not modelled. When the precondition holds, the reader is left marked for
  removal while still in the cache, as the code does.
- Strings are sequences of Unicode characters, not of `unsigned char` bytes (CStrings.Strcmp,
  CStrings.Strncmp). The comparisons depend only on the order of the elements and on the sign of the first
  difference, so the results carry over to bytes, but multi-byte encodings are not modelled.
- TFileRead.TFileReader.LoadTableIds and TFileRead.TFileReader.Search require the id block to be readable at
  the offset (`BlockOkAt`, a count that is non-negative and fits the file). A corrupt file, where `ctx->read`
  would return a short count, is not modelled.
- ReaderCache.CacheCreate requires every parsable, present file to open (`AllOpen`), because
  `tfileCacheCreate` dereferences a NULL reader at `index_tfile.c:85-86` when `tfileReaderCreate` fails.
- TFileIndex.IndexTFileSearch and TFileIndex.GetReaderByCol require a non-NULL cache, because both dereference
  the handle's cache unconditionally.
- The NULL checks of `tfileReaderRef` and `tfileReaderUnRef` are left out: the model's readers are never NULL
  there.
- ReaderCache.TFileCache.Register: a reader replaced during startup (two files with the same key) keeps its
  reference and is never released, as at `index_tfile.c:94-95`. The model records this as a reader no key
  holds, not as a leak.
- The cache key is a (suid, column name, column type) value. `indexSerialCacheKey` and its buffer are not part of
  this model.
- Hash-table locking (`HASH_ENTRY_LOCK`) and concurrent access are left out.
- `tfileGetFileList`'s sort and `tfileRmExpireFile` (which does nothing) are left out. The cache is built from a
  file list given as input.
- The following are left out because they only allocate or free memory: `tfileValueCreate`,
  `tfileValuePush`, `tfileValueDestroy`, `tfileIteratorDestroy`, `tfileDestroyFileName`, `tfileWriterDestroy`
  and the memory side of `tfileReaderDestroy`.
- The following only open or close a file context and are left out: `tfileWriterOpen`, `tfileWriterClose`,
  `tfileReaderOpen` and `tfileGenFileFullName`.
- `indexTFilePut` and `tfileUidCompare` are left out because they are empty or unused by the core.
- Log calls are left out.
- FileNames.ParseFileName does not model `sscanf`'s buffer overflow of `col` or overflow of `%d`/`%lu` beyond
  their widths: a version outside 32 bits does not parse.
- The widths of `SyncTerm` and `SyncNodeId` (sync_type.h is not part of this model) are not modelled. They
  are unbounded integers, and the proposal's buffer and data pointers are opaque handles.
- `syncFreeMessage` and the message handlers are only declared in raft_message.h and are left out.

## Findings

| source | as written | input that shows it | evidently intended | confidence | as-written member | corrected member |
|---|---|---|---|---|---|---|
| source/libs/index/src/index_tfile.c:618 | `if (entry->d_type && DT_DIR) continue;` skips every entry whose type is known, regular files included | a directory whose only entry is a regular file `1-col-0.tindex` (`d_type == DT_REG`): the listing is empty | `entry->d_type == DT_DIR`: skip only directories | not executed | FileNames.KeptNamesAsWritten, FileNames.RegularFilesDropped | FileNames.KeptNames, FileNames.KeptNamesInOrder |
| source/libs/sync/inc/raft_message.h:103-106 | both branches of `SyncRaftVoteRespMsgType` return `RAFT_MSG_PRE_VOTE_RESP` | `RAFT_MSG_VOTE` gives `RAFT_MSG_PRE_VOTE_RESP` | a vote is answered with `RAFT_MSG_VOTE_RESP` | not executed | RaftMessage.VoteRespMsgTypeAsWritten, RaftMessage.VoteAnsweredAsPreVote | RaftMessage.VoteRespMsgType, RaftMessage.VoteRespAgreement |
