# A verified model of sqlite-fs

sqlite-fs keeps a filesystem in a SQLite database. File content is stored in numbered blocks of 4096 bytes; triggers
log every change of a block, an update as a compressed Fossil delta; names and inodes live in two tables, and an inode
that the kernel still refers to outlives its last name. This project models these parts in Dafny and proves what they
promise.

The layers build on each other:

- **Delta codec** (`Bytes`, `RollingHash`, `Base64`, `DeltaChecksum`, `DeltaFormat`, `DeltaSearch`, `DeltaCreate`,
  `DeltaApply`, `DeltaParse`). `DeltaCreate` runs the C algorithm on arrays (hash table with collision chains, rolling
  hash over a circular buffer, forward and backward extension, cost test, output pointer into a buffer of |Y| + 60
  bytes) and is proved to write exactly `DeltaCreate.Encode`; `RoundTrip`, `EncodeLength` and `ScanFindsWindow` are
  about that function. The decoder is a function with every rejection of the C code and the method that refines it.
  The cursor of `delta_parse` is a second decoder; both are proved to accept and to mean the same, up to one exact
  difference (the comma behind a copy command). When the cursor ends and when the decoder leaves its buffers is said
  exactly.
- **Compression header** (`SizeHeader`): the 7-bit size header around a zlib stream.
- **Audit log** (`AuditLog`, `DataTable`): the block table, its triggers and `apply_diffs`. Rebuilding every block from
  its last creation is proved equal to reading the log from the start, for every log whatsoever, and reading the log
  is proved to give the live table after every run of changes. The update case rests on the delta round trip and on
  the header round trip.
- **File content** (`FlatFile`, `FileStore`): `read`, `write`, `setattr` and `release_data` over the audited block table
  refine a flat file with the POSIX.1-2017 meaning of `pwrite` and `ftruncate`.
- **Names and inodes** (`Namespace`, `Lifetime`, `Replies`, `Reclaiming`, `SqliteFs`): every request keeps the linked
  directories a tree, held inodes present, inode numbers unused twice, and leaves no orphan. `Replies` gives the exact
  reply to each request; `Replies.CountsAddUp` ties the lookup counts to the replies of a run, and
  `Reclaiming.RemovedFate` says for every run when an inode without a name is there.
- **Both together** (`Session`): any run of requests on names and content behaves like a tree of names over flat files.
- **A request cut off** between its transactions (`Crash`), **views of the past** (`TimeView`, and `History` for names
  after a run of requests) and **directory reading** (`ReadDir`).

How the C and Rust are read: a plain `char` is signed; `int` is 32 bits wide and buffers are shorter than 2^31 bytes;
unsigned sums wrap modulo 2^16 or 2^32 where the code lets them (`U16`, `U32`); a buffer that the C code expects to be
NUL-terminated reads as 0 behind its end. The outcome `Undefined` of the decoder marks arguments on which a wrapped
32-bit sum makes the C code copy outside its buffers (`DeltaParse.UndefinedExactly`). The two allocations of the
encoder's table are two arrays. The variable `lastRead` of the encoder is written but never read and is not modelled.
SQLite tables are finite maps in fields of classes; a transaction is one method call, and a failing one puts the fields
back.

Where the code and its surroundings differ, the model follows the code:

- `read` always answers with as many bytes as were asked for, zeros standing in behind the end of the file; this is
  POSIX `pread` exactly when the range is empty or ends inside the file (`FlatFile.PaddedIsPlain`).
- `delta_parse` does not look at the byte that ends a copy command, `delta_apply` insists on a comma
  (`DeltaParse.DecodersAgree`, `DeltaParse.CommaMatters`).
- `delta_apply` tests the wrapped sum of offset and count, so a delta can make it read outside its source
  (`DeltaParse.OverrunIsReached`).
- `delta_parse` casts the position behind a text to an int without a test: a query can go back in the delta and never
  end (`DeltaParse.EndlessQuery`, `DeltaParse.QueryEndsExactly`).
- A directory that a rename overwrites keeps its own '.' entry and is never reclaimed, through every later run
  (`Reclaiming.RenameReclaims`, `Reclaiming.RemovedFate`) and every mount (`Reclaiming.LeakedIsMounted`); its '..' keeps
  the directory it leads to when that one is removed later (`Reclaiming.RmdirReclaims`). As long as
  two inode numbers are left, every state is four requests away from such a directory (`Reclaiming.OverwritingLeaks`).
- `get_inode` fails for an inode without names, because its link count is NULL; so `setattr` on an unlinked open file
  is refused (`Session.TruncateNeedsName`), and mkdir and create refuse a removed parent.
- A symbolic link whose text is longer than a block is refused only after its inode and entry have been made; every
  other failing request changes nothing (`Lifetime.FailuresChangeNothing`). Linux refuses texts of that length itself,
  so such a request comes from another kernel with a FUSE interface or from none.
- A rename between a file and a symbolic link fails, with ENOTDIR or ENOENT (`Lifetime.RenameSucceeds`).
- `move_dentry` of an entry onto itself deletes the entry (`Namespace.MoveOntoItself`); the kernel answers such a rename
  itself.
- A request cut off between its transactions has happened as a whole after the next mount, but a new symbolic link may
  have lost its text (`Crash.CutContentIsWhole`); a write has happened up to a block (`FileStore.Store.WriteBlock`).
- A view of the past shows more than the table held if rows tie in time with the last row of their key and disagree
  with it: a deleted row or a replaced value (`TimeView.TieShowsOld`, exact condition in `TimeView.ViewIsTable`).
  tdentry also shows entries that an update has given another name, parent or child (`TimeView.EntriesInView`).

## Model

| member | source | states |
|---|---|---|
| RollingHash.DropFirst | ext/fossildelta.c:66-70 | the weighted sum counts the first of n bytes n times, the last once |
| RollingHash.Slide | ext/fossildelta.c:98-104 | dropping the oldest byte and taking a new one in changes both exact sums by the stated amounts |
| RollingHash.NextSumsSlide | ext/fossildelta.c:98-104 | the 16-bit step gives the 16-bit sums of the new window in spite of wrap-around |
| RollingHash.RollingIsHashOnce | ext/fossildelta.c:98-130 | after any number of steps the sums are those of the last 16 bytes seen |
| RollingHash.Hash.Init | ext/fossildelta.c:82-93 | the window is the 16 given bytes and both sums are theirs |
| RollingHash.Hash.Next | ext/fossildelta.c:98-104 | the circular buffer holds the old window without its first byte and with the new one, sums included |
| RollingHash.Hash.Hash32 | ext/fossildelta.c:109-111 | the hash is the one of the current window |
| RollingHash.HashOnce | ext/fossildelta.c:121-129 | the one-shot hash equals the hash a Hash object has for the same window |
| RollingHash.HashHalves | ext/fossildelta.c:66-70 | both halves of the hash as sums over the 16 signed bytes, the first weighted 16, the last 1 |
| Base64.DigitCharIs | ext/fossildelta.c:135-136 | digit d is the d-th character of the alphabet 0-9, A-Z, _, a-z, ~ |
| Base64.DigitValueIs | ext/fossildelta.c:159-168 | a byte has the value d exactly if its low seven bits are the d-th character |
| Base64.DigitsLength | ext/fossildelta.c:185-189 | numbers below 64^k have at most k digits, from 64^(k-1) on at least k |
| Base64.GetIntAfterPutInt | ext/fossildelta.c:134-180 | reading back any 32-bit number returns it and stops right behind its digits, whatever non-digit follows |
| Base64.PutInt | ext/fossildelta.c:134-150 | appends exactly the digits of the number and leaves the rest of the buffer alone |
| Base64.DeltaGetInt | ext/fossildelta.c:158-180 | refines the reading function; the length falls by the digits consumed |
| Base64.GetIntExactly | ext/fossildelta.c:158-180 | reading stops at the first byte that is no digit and gives the value of the digits before it modulo 2^32 |
| Base64.DigitCount | ext/fossildelta.c:185-189 | below 2^30 the loop ends and returns the number of digits that putInt writes |
| DeltaChecksum.PaddingIsFree | ext/fossildelta.c:197-202 | zero padding to the next multiple of four does not change the sum |
| DeltaChecksum.ChecksumByByte | ext/fossildelta.c:197-202 | the checksum is the sum of all bytes times 2^24, 2^16, 2^8, 1 in turn, modulo 2^32 |
| DeltaChecksum.CombineWraps | ext/fossildelta.c:248 | combining wrapped partial sums gives the wrapped total |
| DeltaChecksum.ChecksumByWord | ext/fossildelta.c:215-226 | the word loop computes the sum of the big-endian words of the padded buffer mod 2^32 |
| DeltaChecksum.ChecksumStriped | ext/fossildelta.c:227-256 | the loops with four partial sums compute the same checksum |
| DeltaFormat.NumberAt | ext/fossildelta.c:158-180 | a number in front of a non-digit reads back and never starts with NUL |
| DeltaFormat.CommandStep | ext/fossildelta.c:556-603 | the decoder reads any rendered command and appends exactly its output |
| DeltaFormat.ApplyRender | ext/fossildelta.c:269-300 | any rendered delta that fits its source applies to the output of its commands, checksum tested or not |
| DeltaFormat.Example | ext/fossildelta.c:269-300 | a delta with a copy and an insert, written out |
| DeltaSearch.ChainListsBucket | ext/fossildelta.c:361-365 | a chain lists exactly the sampled blocks of its bucket, once each, strictly decreasing |
| DeltaSearch.TableInsert | ext/fossildelta.c:361-365 | storing one block extends the chain of its bucket and leaves all others intact |
| DeltaSearch.BuildTable | ext/fossildelta.c:357-365 | after the loop landmark and collide link exactly the chains of all sampled blocks, every index in bounds |
| DeltaSearch.CandidateIsSound | ext/fossildelta.c:399-424 | the region around an anchor has equal bytes in source and target and lies inside both |
| DeltaSearch.BackwardIsMaximal | ext/fossildelta.c:414-419 | the run before the anchor cannot be longer |
| DeltaSearch.CandidateIsMaximal | ext/fossildelta.c:399-424 | the match contains its anchor and cannot be extended at either end |
| DeltaSearch.TriedExactly | ext/fossildelta.c:379-383 | the blocks tried are exactly the sampled blocks of the window's bucket with fewer than 250 later ones, latest first |
| DeltaSearch.BestExactly | ext/fossildelta.c:377-438 | of those that pay, the longest match and among equals that of the latest block; nothing exactly if none pays |
| DeltaSearch.BestOfIsLongest | ext/fossildelta.c:383-438 | no paying candidate is longer than the match kept |
| DeltaSearch.BestOfIsFirst | ext/fossildelta.c:428-434 | the match kept is a paying candidate that is longer than all tried before it |
| DeltaSearch.BestIsSound | ext/fossildelta.c:377-438 | a match found is sound, pays for its commands and leaves no more literal than scanned |
| DeltaSearch.WindowIsFound | ext/fossildelta.c:377-438 | a window equal to a sampled block with fewer than 250 later ones in its bucket yields a match of at least 16 bytes |
| DeltaSearch.MatchForward | ext/fossildelta.c:406-412 | returns the length of the longest common run |
| DeltaSearch.MatchBackward | ext/fossildelta.c:414-419 | returns the length of the longest common run before the anchor, never reaching the first source byte |
| DeltaSearch.TryBlock | ext/fossildelta.c:399-434 | keeps the better of the old match and the one at this block |
| DeltaSearch.FindBest | ext/fossildelta.c:379-438 | following collide for at most 250 blocks gives the best match of the chain |
| DeltaCreate.ScanIsSound | ext/fossildelta.c:377-478 | whatever the scan stops at reproduces target bytes and pays |
| DeltaCreate.MatchCommandsReproduce | ext/fossildelta.c:443-457 | literal and copy together output exactly the target bytes they cover |
| DeltaCreate.CommandsReproduce | ext/fossildelta.c:371-488 | the commands from any base on output the rest of the target |
| DeltaCreate.MatchCommandsPay | ext/fossildelta.c:425-434 | a literal and copy take no more bytes than the target bytes they cover |
| DeltaCreate.PaysExactly | ext/fossildelta.c:425-434 | the cost test holds exactly if the two commands take no more bytes than they stand for |
| DeltaCreate.CommandsLength | ext/fossildelta.c:371-488 | all commands together take at most 6 bytes more than the target |
| DeltaCreate.EncodeLength | ext/fossildelta.c:262-264 | a delta is at most 19 bytes longer than the target, inside the documented 60 |
| DeltaCreate.RoundTrip | ext/fossildelta.c:320-621 | for lengths below 2^30 applying the delta to the source gives the target, and its size line is the target's size |
| DeltaCreate.ScanExactly | ext/fossildelta.c:377-478 | the scan stops at the first window for which anything is found, or behind the last one |
| DeltaCreate.ScanFindsWindow | ext/fossildelta.c:377-478 | the scan never passes a findable window and copies at least 16 bytes if it gets there |
| DeltaCreate.EncodeIsTight | ext/fossildelta.c:371-488 | no literal of a delta contains a findable window, save a last one of at most 16 bytes |
| DeltaCreate.ScanTarget | ext/fossildelta.c:374-478 | the sliding-window loop with the rolling hash refines the scan |
| DeltaCreate.EmitInsert | ext/fossildelta.c:446-449 | appends length, colon and text at the output pointer |
| DeltaCreate.EmitCopy | ext/fossildelta.c:453-456 | appends count, at-sign, offset and comma at the output pointer |
| DeltaCreate.CreateCommands | ext/fossildelta.c:352-488 | the main loop writes exactly the commands and stays within a buffer of target size plus 60 |
| DeltaCreate.DeltaCreate | ext/fossildelta.c:320-495 | writes exactly the specified delta into the buffer and returns its length |
| DeltaCreate.DeltaCreateFunc | ext/fossildelta.c:628-656 | the buffer of target size plus 70 suffices; the blob is the specified delta |
| DeltaApply.DeltaOutputSize | ext/fossildelta.c:506-514 | the announced size as a signed number, -1 without the newline |
| DeltaApply.CopyCommand | ext/fossildelta.c:560-583 | case '@': same rejections, same output, same position as the decoder function |
| DeltaApply.InsertCommand | ext/fossildelta.c:584-600 | case ':' likewise |
| DeltaApply.EndCommand | ext/fossildelta.c:601-615 | case ';': NUL, optional checksum test, size test |
| DeltaApply.DeltaApply | ext/fossildelta.c:537-621 | the loop over the output buffer refines the decoder function in every case |
| DeltaApply.DeltaApplyFunc | ext/fossildelta.c:663-699 | the SQL function returns exactly the output, and rejects what the decoder rejects |
| DeltaParse.Cursor.Filter | ext/fossildelta.c:967-1002 | the rewound cursor stands on the size row, or on an error row that ends the rows; an empty delta leaves no buffer |
| DeltaParse.Cursor.Next | ext/fossildelta.c:865-904 | moves to the row at iNext with the right operator, arguments and next position, which is cast to an int |
| DeltaParse.Cursor.Scan | ext/fossildelta.c:865-1003 | a query of at most n rows returns the first row and then the rows the cursor comes to, in its order |
| DeltaParse.RowsMean | ext/fossildelta.c:865-904 | as many rows as the delta has bytes mean what the recursive reading says, which DecodersAgree compares with delta_apply |
| DeltaParse.ForwardExactly | ext/fossildelta.c:865-904 | the cursor goes forward inside the delta to its end exactly if copies end inside it and texts fit or wrap into their own digits |
| DeltaParse.WrappedGoesForward | ext/fossildelta.c:882-886 | a delta of the second kind |
| DeltaParse.ReadIsOrderly | ext/fossildelta.c:865-904 | it goes forward for every delta whose rows give a text |
| DeltaParse.QueryEndsExactly | ext/fossildelta.c:865-904 | a query ends, forward or not, exactly if it has ended after as many calls as there are bytes |
| DeltaParse.EndlessQuery | ext/fossildelta.c:882-886 | a delta of nine bytes on which the cursor returns the same row for ever |
| DeltaParse.UndefinedExactly | ext/fossildelta.c:560-600 | delta_apply copies outside its buffers exactly if it reaches a copy whose offset and count wrap around past all tests |
| DeltaParse.OverrunIsReached | ext/fossildelta.c:573-577 | a delta of thirteen bytes that does so on every source |
| DeltaParse.SameCommand | ext/fossildelta.c:556-617 | the row at a position says what delta_apply does there |
| DeltaParse.DecodersAgreeFrom | ext/fossildelta.c:556-621 | from any position both decoders accept the same and produce the same bytes |
| DeltaParse.DecodersAgree | ext/fossildelta.c:537-621 | delta_apply accepts exactly the deltas whose rows are size, copies and inserts, checksum, end, with the right size and commas; same output |
| DeltaParse.CommaMatters | ext/fossildelta.c:876-882 | a delta the cursor reads and delta_apply does not accept |
| SizeHeader.HeaderRoundTrip | ext/compress.c:62-68 | the header of a 32-bit size decodes to that size and its own length, whatever follows |
| SizeHeader.HeaderIs | ext/compress.c:62-68 | the header is the size in base 128, most significant first, without leading zero, its last byte marked |
| SizeHeader.ReadHeaderExactly | ext/compress.c:96-100 | of any blob the header is what stands up to the first marked byte, at most five bytes, and the size is its value |
| SizeHeader.UncompressAfterCompress | ext/compress.c:45-108 | uncompress undoes compress, given that zlib inflates what it deflated into a large enough buffer |
| SizeHeader.FixedGroupsStrip | ext/compress.c:63-67 | dropping the leading zero groups of the five leaves the variable-length form |
| SizeHeader.Compress | ext/compress.c:45-75 | the three loops produce the specified header and stream |
| SizeHeader.Uncompress | ext/compress.c:82-108 | the loop reads the header and inflates the rest into that many bytes |
| AuditLog.PatchWorks | src/db_module/sqlite.rs:717-725 | the patch an update logs carries the old block into the new one |
| AuditLog.BadPatchIsSkipped | src/db_module/sqlite.rs:317-343 | a patch that cannot be read or applied leaves the data as it was |
| AuditLog.TriggerRows | src/db_module/sqlite.rs:706-735 | every change logs one row with all of the data, or with a compressed delta hardly longer than the new data |
| AuditLog.RebuiltIsReplay | src/db_module/sqlite.rs:273-353 | for every log: rebuilding a key from its last creation gives what reading the whole log gives |
| AuditLog.ChangeKeepsReplay | src/db_module/sqlite.rs:706-735 | upsert, REPLACE and delete keep the log a faithful history of the table |
| AuditLog.EveryRunReplays | src/db_module/sqlite.rs:273-353 | after every run of changes the log replays to the live table, and every block is rebuilt exactly |
| DataTable.Data.UpsertRow | src/db_module/sqlite.rs:1301-1306 | new table, the INSERT or UPDATE row in the log, validity |
| DataTable.Data.ReplaceRow | src/db_module/sqlite.rs:79-85 | new table, one INSERT row and no DELETE row in the log, validity |
| DataTable.Data.DeleteKeys | src/db_module/sqlite.rs:706-714 | exactly the given rows go, one DELETE row each, in some order |
| DataTable.Data.DeleteFile | src/db_module/sqlite.rs:61 | all rows of the file go, each logged once |
| DataTable.Data.DeleteAbove | src/db_module/sqlite.rs:87-90 | all rows of the file behind the block go, each logged once |
| DataTable.GetMaxCreationSeq | src/db_module/sqlite.rs:273-289 | lists each key whose last creation is behind its last deletion, once, with that creation |
| DataTable.SelectHistory | src/db_module/sqlite.rs:304-315 | the rows of the key from that seq on, in order |
| DataTable.FoldPatches | src/db_module/sqlite.rs:317-343 | pops the creation and applies all patches in order, skipping failing ones |
| DataTable.Data.ApplyDiffs | src/db_module/sqlite.rs:290-353 | the rebuilt table is the replayed log; in every valid state it is the live table |
| FlatFile.PWriteConcat | src/filesystem.rs:880-955 | two adjacent writes are one write |
| FlatFile.ReadAfterWrite | src/filesystem.rs:812-960 | what was written is read back and nothing else has changed |
| FlatFile.RegrownIsZero | src/filesystem.rs:361-387 | shrinking and growing again reads zeros in the regrown range |
| FlatFile.PaddedIsPlain | src/filesystem.rs:824-862 | the padded read is POSIX pread exactly if the range is empty or inside the file |
| FileStore.BlockWriteFiles | src/filesystem.rs:883-955 | storing one overwritten block is a pwrite to that file, changes no other, keeps the tail zero |
| FileStore.SpansTile | src/filesystem.rs:880-907 | the pieces of consecutive blocks are adjacent and cover the data |
| FileStore.NextBlock | src/filesystem.rs:883-955 | after each block of a write the files are those with that much written, tails still zero |
| FileStore.CutBehind | src/db_module/sqlite.rs:59-92 | shortening one block and dropping the later ones zeroes everything from the offset on |
| FileStore.ResizedFiles | src/db_module/sqlite.rs:898-959 | a new size with the rest cut off is ftruncate of that file and changes no other |
| FileStore.Store.WriteData | src/db_module/sqlite.rs:1292-1320 | upserts the block and lets the size grow; fails without effect if the inode is missing |
| FileStore.Store.FillBlock | src/filesystem.rs:908-941 | read-modify-write gives the old block with exactly the given range overwritten |
| FileStore.Store.WriteBlock | src/filesystem.rs:883-955 | after each transaction of a write the file is that with a prefix of the data written |
| FileStore.Store.Write | src/filesystem.rs:865-960 | the flat file after the request is pwrite of the one before; other files unchanged; zero tails throughout |
| FileStore.Store.Read | src/filesystem.rs:812-863 | exactly the requested bytes of the flat file, zeros behind its end |
| FileStore.Store.ReleaseData | src/db_module/sqlite.rs:59-92 | every byte from the offset on reads zero, all others and all other files as before |
| FileStore.Store.WriteLink | src/filesystem.rs:650-663 | the link text becomes the content, unless it is longer than a block |
| FileStore.Store.ReadLink | src/filesystem.rs:439-460 | the recorded size of the first block, zeros behind it; all of the content if it fits a block |
| Session.Mount.HandleNames | src/filesystem.rs:464-781 | a request on names keeps all content, takes away exactly that of inodes that go, and gives a new link its text |
| Session.Mount.Handle | src/filesystem.rs:345-393 | one request answers and changes names and files as on a tree over flat files; truncation asks get_inode for a name |
| Session.Mount.Serve | src/filesystem.rs:812-960 | any run of requests on names and content has the replies and the final state of a tree over flat files, and the audit log replays to the blocks |
| Session.NamesRunAlone | src/filesystem.rs:464-781 | in a run of all requests the names, and the replies about names, are those of the requests on names alone |
| Session.ContentIsItsOwn | src/filesystem.rs:812-960 | an inode's content is changed by its own successful writes and truncations and by nothing else in the run |
| Session.UnlinkedFileIsKept | src/filesystem.rs:285-300 | a file without a name is there, with its content, exactly as long as the kernel holds it |
| Session.GetReply | src/filesystem.rs:812-862 | in every run a read is answered with the bytes asked for of the content at that time, zeros behind its end |
| Session.EveryReplyAnswers | src/filesystem.rs:345-955 | in every run a write succeeds exactly if the inode is there, a truncation and a readlink under their own conditions |
| Session.NewContent | src/filesystem.rs:616-680 | an inode starts without content, a symbolic link with its text |
| Session.WriteIsReadBack | src/filesystem.rs:812-960 | a read inside the last successful write of a file is answered with the written bytes, whatever happens to names and other files |
| Session.TruncateNeedsName | src/filesystem.rs:345-360 | a file can be truncated exactly as long as it has a name |
| Session.SymlinkIsMade | src/filesystem.rs:616-680 | a symlink request that succeeds makes a link whose content is the text |
| Session.LinkReadsBack | src/filesystem.rs:399-461 | a symbolic link reads back as its text as long as something refers to it |
| Namespace.AddKeepsTree | src/db_module/sqlite.rs:863-896 | a new inode and its entries keep the tree, take the next number, lose no reference |
| Namespace.LinkKeepsTree | src/db_module/sqlite.rs:1012-1048 | a hard link keeps the tree and every reference |
| Namespace.DeleteKeepsTree | src/db_module/sqlite.rs:1050-1068 | deleting an entry keeps the tree and takes the last reference from nothing but its child |
| Namespace.MoveNaming | src/db_module/sqlite.rs:1126-1130 | after a rename every directory is still named once, by the directory its '..' leads to |
| Namespace.PathThrough | src/db_module/sqlite.rs:1127-1130 | a path to the root through the moved directory goes on from its new parent |
| Namespace.MoveKeepsTree | src/db_module/sqlite.rs:1070-1145 | a rename keeps the tree and takes the last reference from nothing but the overwritten inode |
| Namespace.DropKeepsTree | src/db_module/sqlite.rs:961-975 | an unreferenced inode's row goes, its cascade finds no entry, the tree stays |
| Namespace.MoveOntoItself | src/db_module/sqlite.rs:1121-1126 | moving an entry onto itself deletes it |
| Lifetime.RenameStep | src/filesystem.rs:682-738 | rename with reclaiming keeps tree, held inodes, absence of orphans and numbering |
| Lifetime.RenameSucceeds | src/db_module/sqlite.rs:1080-1145 | done exactly if source and new parent exist and what is overwritten has the same kind and is no filled directory |
| Lifetime.StepKeepsInv | src/filesystem.rs:234-300 | every request keeps tree, held inodes present, no zero counts, no orphans, numbering |
| Lifetime.RunKeepsInv | src/filesystem.rs:234-300 | so does every run; kinds never change and numbers are never given out twice |
| Lifetime.GoneStaysGone | src/db_module/sqlite.rs:532-550 | the number of an inode that has gone never comes back |
| Lifetime.HeldIsTheSameFile | src/filesystem.rs:285-300 | an inode held before and after a run is the same file at every point of it |
| Lifetime.NewDbIsTree | src/db_module/sqlite.rs:793-843 | a freshly initialised database is a tree |
| Lifetime.MountEstablishesInv | src/filesystem.rs:210-218 | mounting removes the orphans, loses no entry and establishes the invariant |
| Lifetime.FailuresChangeNothing | src/filesystem.rs:616-680 | a failing request changes nothing, except a symlink refused for its length, which is exactly ENAMETOOLONG |
| Replies.LookupReply | src/filesystem.rs:234-283 | the child of the entry, or ENOENT |
| Replies.MkdirReply | src/filesystem.rs:464-532 | the next number exactly if the parent is there and referred to, the name free and a number left; else ENOENT |
| Replies.CreateReply | src/filesystem.rs:1277-1362 | an existing child, or the next number under the conditions of mkdir; else ENOENT |
| Replies.SymlinkReply | src/filesystem.rs:616-680 | the next number, ENAMETOOLONG or ENOENT, each exactly when |
| Replies.LinkReply | src/filesystem.rs:740-781 | the inode, ENOENT, EPERM or EEXIST, each exactly when |
| Replies.UnlinkReply | src/filesystem.rs:534-559 | done exactly if the name is there |
| Replies.RmdirReply | src/filesystem.rs:561-614 | done, ENOENT or ENOTEMPTY, each exactly when |
| Replies.RenameReply | src/filesystem.rs:682-738 | done, ENOENT, EISDIR, ENOTDIR or ENOTEMPTY, each exactly when |
| Replies.CountsAddUp | src/filesystem.rs:276-300 | over every run the lookup count is what replies have handed out less what forgets have returned; held means more than zero |
| Reclaiming.MkdirIsUndone | src/filesystem.rs:464-614 | mkdir, rmdir and forget leave everything as it was but the number used |
| Reclaiming.ForgetReclaims | src/filesystem.rs:285-300 | the last forget reclaims an inode exactly if it has no name, no '.' of its own and no '..' leading to it |
| Reclaiming.ReferencedFileIsLinked | src/db_module/sqlite.rs:164-191 | for anything but a directory, referred to means named |
| Reclaiming.StepKeepsRemoved | src/filesystem.rs:464-781 | no request names a removed inode again, unties its leftover dots or adds new ones |
| Reclaiming.RemovedFate | src/filesystem.rs:285-300 | after any run an inode without a name is there exactly if it had leaked from the start or is still held |
| Reclaiming.LeakedIsMounted | src/db_module/sqlite.rs:1328-1334 | a leaked inode, and no other inode without a name, survives unmount and mount |
| Reclaiming.RmdirReclaims | src/filesystem.rs:561-614 | a removed directory is there afterwards exactly if it is held or a '..' led to it, and only the '..' makes it leak |
| Reclaiming.RenameReclaims | src/filesystem.rs:720-733 | an overwritten directory leaks; any other overwritten inode is there exactly if it had another name or is held |
| Reclaiming.OverwritingLeaks | src/db_module/sqlite.rs:1070-1145 | from every state with two numbers left mkdir, mkdir, rename, forget lead to a directory that leaks |
| Reclaiming.NewDbCanLeak | src/db_module/sqlite.rs:1070-1145 | such a run on a new database |
| SqliteFs.Database.GetInode | src/db_module/sqlite.rs:164-191 | nothing, an error or the row, depending on row and link count |
| SqliteFs.Database.NewInode | src/db_module/sqlite.rs:863-896 | refines the transaction; a failure leaves the tables as they were |
| SqliteFs.Database.LinkFile | src/db_module/sqlite.rs:1012-1048 | refines the transaction with all its errors |
| SqliteFs.Database.DeleteEntry | src/db_module/sqlite.rs:1050-1068 | refines the transaction |
| SqliteFs.Database.DirectoryIsEmpty | src/db_module/sqlite.rs:355-372 | true exactly if all names in the directory are dots |
| SqliteFs.Database.MoveEntry | src/db_module/sqlite.rs:1070-1145 | refines the transaction with all its errors |
| SqliteFs.Database.DeleteInodeIfNoRef | src/db_module/sqlite.rs:961-975 | drops the inode exactly if nothing refers to it |
| SqliteFs.Database.DeleteAllNoRefInode | src/db_module/sqlite.rs:1328-1334 | drops exactly the inodes nothing refers to |
| SqliteFs.SqliteFs.Init | src/filesystem.rs:210-218 | removes the orphans and establishes the invariant |
| SqliteFs.SqliteFs.Destroy | src/filesystem.rs:220-232 | after unmounting every inode is referenced, and exactly the referenced ones are left |
| SqliteFs.SqliteFs.ForgetInode | src/filesystem.rs:285-300 | counts down, and at zero drops count and unreferenced inode |
| SqliteFs.SqliteFs.MakeDirectory | src/filesystem.rs:464-532 | refines mkdir with its errors |
| SqliteFs.SqliteFs.CreateFile | src/filesystem.rs:1277-1362 | refines create, of a new file or an existing name |
| SqliteFs.SqliteFs.CreateSymlink | src/filesystem.rs:616-659 | refines symlink up to the test of the text's length, leaving inode and entry behind when it is too long |
| SqliteFs.SqliteFs.LinkInode | src/filesystem.rs:740-781 | refines link with its errors |
| SqliteFs.SqliteFs.UnlinkName | src/filesystem.rs:534-559 | refines unlink |
| SqliteFs.SqliteFs.RemoveDirectory | src/filesystem.rs:561-614 | refines rmdir |
| SqliteFs.SqliteFs.RenameName | src/filesystem.rs:682-738 | refines rename with its errors |
| SqliteFs.SqliteFs.Serve | src/filesystem.rs:234-300 | any request: reply and state of the specification, and the invariant again |
| TimeView.LiveIsVisible | src/db_module/sqlite.rs:479-488 | what the cut log says is live is in the view |
| TimeView.VisibleIsLive | src/db_module/sqlite.rs:479-488 | for each key nothing else is shown exactly if every row that ties in time with its last row agrees with it |
| TimeView.DistinctIsSettled | src/db_module/sqlite.rs:479-488 | pairwise distinct timestamps of a key are enough for that |
| TimeView.TieShowsOld | src/db_module/sqlite.rs:488 | within one tick a deleted row stays visible, and so does a replaced value |
| TimeView.TableExactly | src/db_module/sqlite.rs:582-622 | a key is in the table exactly if put and not erased since, with the value of its last statement |
| TimeView.LogDescribesTable | src/db_module/sqlite.rs:582-622 | the triggers keep the log a description of the table |
| TimeView.CutLog | src/db_module/sqlite.rs:479-482 | the rows before the cut-off are those of the statements before it |
| TimeView.ViewIsTable | src/db_module/sqlite.rs:479-488 | for each key of metadata and xattr, the view shows the entry the table had at the cut-off, and only it exactly without disagreeing ties |
| TimeView.LogDescribesEdges | src/db_module/sqlite.rs:651-681 | after any run the log describes the live entries as they are, and the stale ones besides |
| TimeView.StaleSince | src/db_module/sqlite.rs:651-681 | an edge is stale exactly if some update has left it and no row has been logged for it since |
| TimeView.EntriesInView | src/db_module/sqlite.rs:485 | for each edge tdentry shows the entry live at the cut-off, and only it exactly if the edge is not stale and has no disagreeing ties |
| TimeView.RenameLeavesStale | src/db_module/sqlite.rs:1126-1133 | a rename makes the old edge stale, and so does the update of '..' when a directory moves |
| History.StepApplied | src/db_module/sqlite.rs:863-1145 | the single-row statements of a request lead to the entries the request leads to |
| History.RunInView | src/db_module/sqlite.rs:485 | after any run, tdentry at a cut-off between two requests shows the names of that moment, and only them exactly if not stale and without disagreeing ties |
| History.NewDbIsRecorded | src/db_module/sqlite.rs:793-843 | the statements of init lead to the entries of the first mount |
| Crash.CutIsWhole | src/filesystem.rs:534-738 | a request cut off between its transactions and a mount leave the names of the whole request and a mount |
| Crash.CutContentIsWhole | src/filesystem.rs:534-738 | and the same content, but that a new symbolic link may be empty |
| ReadDir.ReplyDirectory.Add | fuse/patches/reply.rs:634-655 | appends exactly one aligned record, or reports the buffer full without change |
| ReadDir.PageFits | fuse/patches/reply.rs:634-655 | a page stays within its capacity and aligned to 8 bytes |
| ReadDir.FittingIsLongest | src/filesystem.rs:1036-1055 | the entry behind a page does not fit any more |
| ReadDir.LittleEndianByte | fuse/patches/reply.rs:634-655 | byte j of a number field is its j-th byte from the low end |
| ReadDir.RecordIsPadded | fuse/patches/reply.rs:634-655 | behind the name a record is filled up with zeros |
| ReadDir.PageReadsBack | fuse/patches/reply.rs:634-655 | parsing a page gives back the entries it was made from, with their offsets |
| ReadDir.FillPage | src/filesystem.rs:1036-1055 | the page holds the longest run of entries from the offset that fits |
| ReadDir.PagingIsInOrder | src/filesystem.rs:1036-1055 | whatever the buffer sizes, the pages show the snapshot in order, nothing twice and nothing skipped |
| ReadDir.PagingIsComplete | src/filesystem.rs:1036-1055 | if each buffer has room for the entry that comes next, the end is reached after at most as many pages as entries |
| ReadDir.EmptyPageIsEnd | src/filesystem.rs:1036-1055 | a page is empty exactly at the end or if the buffer has no room for the next entry |
| ReadDir.Handles.PageThrough | src/filesystem.rs:1013-1057 | reading one handle while others are opened, read and closed shows its own snapshot in order |
| ReadDir.Handles.Open | src/filesystem.rs:1003-1008 | a new handle for the snapshot; every other open handle keeps its own |
| ReadDir.Handles.Read | src/filesystem.rs:1013-1057 | the page comes from the snapshot of the handle, whatever has happened since |
| ReadDir.Handles.Release | src/filesystem.rs:1099-1115 | closes this handle and no other |

## Left out

- Lengths of 2^30 and more in the encoder: the bound of digit_count wraps there and its loop does not end; SQLite's
  default blob limit is lower.
- zlib: a pair of functions of which `SizeHeader.Inverse` is assumed, buffer capacity included; failures of compress.
- SQLite's engine, SQL text, pragmas and extension loading: tables are maps, keys and foreign keys are checked where the
  statements rely on them, REPLACE fires the INSERT trigger only.
- Names, content and lookup counts are one state machine in `Session`; the views of the past and the open directories
  are two others. The metadata row is split into kind and size, `FileStore.Store.Follow` carries additions and cascaded
  deletions over.
- FileStore.Store.SetSize: whether the inode has a name is a parameter; `Session.Mount.Handle` passes what get_inode
  says.
- FileStore.Store.ReadLink: the tests for a name and for the kind are in `Session.Mount.Handle`.
- FileStore.Store.DeleteInode: unconditional; that only unreferenced inodes go is in `Namespace.DropIfUnreferenced`.
- DataTable.TryPatch: an `Undefined` outcome of the decoder is treated like a rejected patch; it does not occur for logs
  that the triggers have written.
- DeltaParse.Cursor.Next: reading on without a buffer, after an empty delta, or from a position outside the delta is
  not modelled, the C code reads outside its buffer there; `DeltaParse.Cursor.Scan` stops before it. The text column of
  a row whose text does not fit is not modelled either.
- DeltaFormat.Apply: an empty delta is read as one that starts with NUL and so is rejected; SQLite hands the C code a
  null pointer for it, which is not modelled. The same holds for `DeltaApply.DeltaOutputSize`.
- DeltaApply.CopyCommand: a copy command cut off by the end of the delta makes the C code look at one byte behind the
  terminating NUL; the result does not depend on it.
- DeltaChecksum.ChecksumByWord: the four-byte alignment that the C code asserts of its buffer.
- SizeHeader.Uncompress: the allocation, whose argument is an int, so sizes from 2^31 - 1 on are not what was asked for.
- Lifetime.Sendable: requests the kernel does not send (names '.' and '..', rename onto the same inode or into its own
  subtree, unlink of a directory, links into removed directories, forgetting more than was taken) are excluded, and so
  is a lookup count that would exceed 32 bits.
- Session.Sendable: writes of no bytes and ranges that reach 2^32 are not modelled.
- ReadDir.Handles.Open: the snapshot is an argument; that it holds the entries of the directory ordered by name is one
  SELECT statement and not modelled.
- SqliteFs.SqliteFs.CreateSymlink: the write of the text is in `Session.Mount.FollowNames`.
- File data read through a view of the past (tdata holds a patch, not content, for an updated block).
- Timestamps, permissions, owners, statfs, block counts, extended attributes other than through their view, open-file
  flags, and the reply types other than the directory reply.
- The order in which SQL statements without ORDER BY and the hash maps visit their rows is left open: any order.
