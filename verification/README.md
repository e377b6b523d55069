# Verified models of five libjr components

A Dafny model of the parts of libjr whose code moves bytes, links and pointers
about in the most intricate ways, with proofs of what they promise. Run
`dafny verify dfyconfig.toml` to check all of it.

**The transactional log** (`Log*.dfy`). A log is a file of entries in network
byte order. Pad entries keep entries off block boundaries; transactions nest; a
replay hands every entry to a callback and can cut an unfinished transaction
off; byte ranges can be deleted. `LogFile` is the file (bytes and a position;
writing behind the end fills with zeros) and the loops that move one entry to or
from it. `LogReader` says where entries lie and proves that what is written is
read. `LogDelete` is range deletion, `LogExecute` replay, `LogRecovery` and
`LogStepwise` what a replay runs and leaves, in one go and transaction by
transaction, `LogTransactions` and `Log` the log object and its header, `LogReset`
the replacement of a log by a new one, `LogRuns` and `LogNesting` whole runs of its
operations, `LogReopen` runs over several openings, and `LogPadding` a truncate
offset set in the course of a run. Main results: reading back returns what was
written (`WriteReadRoundTrip`); deleting a range leaves exactly the entries around it
(`DeleteKeepsStream`); a replay ends at the first place that its style, stop offset,
truncate offset or callback asks for (`WhereAReplayEnds`); replay cuts precisely at the last point outside all
transactions, if it can (`Recovery`); replaying transaction by transaction does
what one replay does, truncation included (`StepwiseEqualsFull`); over every run the
file holds the open transactions (`EveryRunFromNewLog`, `RunAfterRecovery`); a crash
inside a transaction loses only that transaction
(`CrashLosesOnlyTheOpenTransaction`); nested transactions leave, and force to
disk, exactly what was committed (`NestedRun`); and a run behind the old contents,
cut free by a reset, leaves what the same run leaves in a new log (`ResetRun`).

Recovery has an exact condition, for every style of replay, every truncate offset and
all answers of the callback (`LogRecovery.Recovery`): the range from the last point outside all transactions to
the truncate offset has to be one that can be deleted. At the end of the file, where
the truncate offset is after an existing log was opened, it always is. Behind the end
it is not when both ends stand at the same place in their blocks: range deletion then
looks for bytes to move behind the end of the file. The replay ends in an error and
the file stays as it is. A log gets there when it keeps the truncate offset it was
opened with while truncation makes the file shorter: `RecoveredThenStuck` is a log
opened on two unfinished transactions that recovers once, and after one more BEGIN
not again. It also gets there by setting the truncate offset
(`LogPadding.RecoveryOfPadded`).

Setting the truncate offset pads the file, so that away from a block boundary no entry
ends there, but the next one starts there. A replay stops at the first end of an
entry at the truncate offset or behind it, and so it runs that next entry as well
(`LogRecovery.BehindTruncateOffset` says exactly when). Inside a transaction it is
called back and the transaction aborted, but the entry lies behind the cut and stays
in the file, outside of all transactions (`LogPadding.EntrySurvivesItsTransaction`).

A log that has been reset is in order if and only if the start time given is the
one its new header was written with, the log was not taken to be synced, and no
transaction was open (`ResetInvariantIff`); the stack of open transactions is not
moved along. A reset may be started inside transactions, as long as these are not
aborted before it is done (`ResetRun`).

**The AVL tree with subtree sizes** (`Avl*.dfy`). `AvlMemory` is memory: each
element's cell holds its child pointers, height and size. `AvlTree` is the tree
object whose methods walk and relink cells; they are proved to produce the trees
of `AvlShape` (rotations, the climb back up) and `AvlExtract`. Trees carry the
stored heights and sizes, so nothing is assumed about their being right.
`AvlIndex` has the operations by position, `AvlPath` searching and iteration,
`AvlRuns` whole runs. Heights are exact, and siblings within one of each other,
after inserts. The climb stops at the first rotation, and rotates twice when
grandchildren are equally high, which can be wrong after an extract, though never at
the place of the extracted element (`NoRotationAtReplacement`); `AvlBalance`
says exactly when an extract keeps the balance, and has a tree that loses it.
What every run keeps is weaker (`Weak`) and is what makes every rotation
possible.

**The relocating array** (`PrefixLayout`, `Relinking`, `DListLinks`,
`RelocationSteps`, `Relocation`, `AvlRelocation`, `SharedArray`). Elements of a growable array
carry the links of any number of lists and trees, as addresses. Opening a slot,
deleting slots and growing the buffer move elements, and every container's links
have to follow. `Relinking` is about one container, `RelocationSteps` about all
of them and the data words, `Relocation` is the array object, `AvlRelocation`
the same for a tree, whose elements find their parent by searching, and
`SharedArray` puts lists and a tree into the words of the same elements. Addresses
are base + slot * step, in words. Shifting renumbers every container and changes
nothing else. Growing is right under an exact condition: the buffer may move
anywhere except upwards by a whole number of slots that carries a list's head or
tail (or a tree's root) to the old place of a later element; then the pass takes
the pointer it has just repaired for one it has not
(`Relinking.OverlapBreaksHead` is an instance). It ends at a slot that is given
(`Relinking.LandsAt`) and follows that slot through later moves, while all links stay
right (`Relocation.AList.NewPrevElement`).

**The hash table** (`HTableChains`, `HTable`, `HTableRuns`). Bucket chains and
the list of deleted entries share one next field. The table refines a finite map
from entry indices to keys; an index keeps its key through every insert, delete
and rehash.

**Sorting with deletion of duplicates** (`AListSort`) and **the tar codec**
(`TarHeader`, `TarArchive`, `TarLayout`, `Tar`), the ustar Interchange Format of the pax
utility of POSIX.1. Sorting is modelled for elements without links in front.
A path stored in a new entry comes back exactly when it is shorter than 100 bytes, or
the split that is chosen leaves room for a null byte in both fields; in an entry that
is used again a path that cannot be split leaves the old prefix, and that is what
comes back (`TarHeader.ComesBack`). The split chosen is
the last one whose prefix is at most 155 bytes, so a path with a slash at index
154 is lost even when an earlier slash would do (`SplitAtFullPrefixIsLost`).
`TarLayout` says byte by byte what is written, checksum included, and what a header
that is read has to hold. The reader does not compare the checksum.

Where the code and its comments differ, the model follows the code:
- Creating a log accepts every block size but 0; opening it again refuses sizes
  below that of the header entry (`Log.ReopenAcceptedIff`).
- A directory path that already ends in a slash gets a slash stored behind it
  all the same, which the null byte then overwrites; behind a name of exactly 100
  bytes it lands in the mode field (`TarHeader.StoreName`).
- The double rotation is meant for an inner grandchild that is higher; the branch
  also takes grandchildren of equal height (`AvlBalance.TieIsNotBalanced`).
- Extracting by a negative index from a tree that is not empty takes out the
  first element (`AvlIndex.ExtractElementUsingIndex`), and inserting by one puts the
  new element behind the first one, in the place of what hung on its right
  (`AvlIndex.InsertElementUsingIndex`).
- A directory or link that comes with data is written with size 0 and the data
  behind it, which a reader takes for the next header (`TarArchive.ArchiveRoundTrip`).
- A commit that is refused because the log is being replayed cuts the transaction
  off (`Log.LogObject.TransactionCommit`).

File, clock and allocator are parameters: reads and writes succeed, the time is
given, and so are the address and the real size of a new buffer.

## Model

| member | source | states |
|---|---|---|
| LogFormat.NumberRoundTrip | include/jr/nettype.h:129-133 | a number that fits its bytes is read back from network byte order unchanged |
| LogFormat.HeaderRoundTrip | libjr/io/logfile.c:327-340 | the 16 bytes of an entry header decode to the header they were made from, negative kinds included |
| LogFormat.HeaderLayout | libjr/io/logfile.h:47-53 | where the fields of an entry header stand: magic number, 16 bit type, two counts and time, most significant byte first |
| LogFormat.IntsRoundTrip | libjr/io/logfile.c:465-496 | integer values written one after the other are read back in order, whatever bytes follow |
| LogFormat.PiecesRoundTrip | libjr/io/logfile.c:498-529 | data pieces written one after the other are cut apart again by their lengths, whatever bytes follow |
| LogFormat.BodyRoundTrip | libjr/io/logfile.c:465-529 | integers, lengths and data of an entry are read back, whatever bytes follow |
| LogFormat.EntryLayout | libjr/io/logfile.h:47-60 | the bytes of an entry, one by one: the header, the integers, the lengths of the pieces, and each piece behind those in front of it |
| LogFormat.DecodeBodyPrefix | libjr/io/logfile.c:651-713 | decoding an entry looks at no byte behind the entry |
| LogFile.SavedLength | libjr/io/logfile.c:289-307 | the loop over the data pieces computes the number of bytes the entry takes in the file |
| LogFile.AvoidBlockBoundary | libjr/io/logfile.c:977-1051 | the writer ends at the predicted offset and has put a pad header there exactly when one fits in the rest of the block |
| LogReader.NextEntryOffsetIsUsed | libjr/io/logfile.c:1054-1072 | the predicted offset is the old offset plus the gap the writer leaves: none when the old one is a block boundary or the entry fits in the rest of the block, else up to the next boundary; no entry that fits in a block then crosses a boundary |
| LogFile.AddEntryToFile | libjr/io/logfile.c:411-537 | the sequence of writes leaves the file with the whole encoded entry at the predicted offset and the position behind it |
| LogFile.PutAtEnd | libjr/io/logfile.c:411-537 | at the end of the file that is: the gap, then the entry, appended to what was there |
| LogFile.PutInPlace | libjr/io/logfile.c:411-537 | on a block boundary inside the file it replaces exactly the entry's own bytes |
| LogFile.ReadEntryFromFile | libjr/io/logfile.c:540-716 | the sequence of reads returns the next entry, end of file or an error, as a function of the bytes and the offset, and ends behind the entry |
| LogReader.WhatIsRead | libjr/io/logfile.c:558-713 | by the bytes at an offset: end of file, a pad entry to be stepped over, an error for a cut off header, a wrong magic number or counts over 127, or an entry with the type, time and counts that stand there |
| LogReader.ReadWindow | libjr/io/logfile.c:540-716 | what is read depends only on the bytes of the entry and on the offset modulo the block size |
| LogReader.PaddingIsSkipped | libjr/io/logfile.c:558-631 | padding of any length in front of a block boundary makes the reader continue at the boundary |
| LogReader.WrittenEntryIsRead | libjr/io/logfile.c:411-716 | an entry written behind any bytes is read back from the old end of the file, with its offset and end, whatever follows |
| LogReader.ReadsUnique | libjr/io/logfile.c:540-716 | a stretch of bytes parses in at most one way |
| LogReader.WriteReadRoundTrip | libjr/io/logfile.c:411-716 | writing any entries behind a log that parses gives a log that parses to the old entries followed by the new ones in order, and then end of file |
| LogDelete.CopyDownAndTruncate | libjr/io/logfile.c:1289-1389 | the chunked copy loop leaves the bytes in front of the range followed by those behind it, truncated, whatever the chunk size; a range beyond the file is an error and changes nothing |
| LogDelete.DeleteRange | libjr/io/logfile.c:1205-1389 | status, bytes and position for every pair of offsets: refused, nothing to do, truncation, copying down, or padding first and copying down |
| LogDelete.DeleteAcceptedIff | libjr/io/logfile.c:1220-1287 | for every pair of offsets: a range is deleted exactly when it is empty, or does not end in front of its start and either ends in the file with ends that agree modulo the block size, or at the end of the file or on a block boundary, or ends behind the file and its ends do not agree; one behind the file with ends that agree is the corrupted case; a refusal leaves the file alone |
| LogDelete.WhatDeletionLeaves | libjr/io/logfile.c:1205-1389 | an accepted deletion leaves the bytes in front of the range and those behind it, these at the same place in their block, and less than a block between |
| LogDelete.DeleteKeepsStream | libjr/io/logfile.c:1205-1389 | after an accepted deletion from the end of an entry to any offset from which the file can be read, the file reads as exactly the entries before the range followed by those read from there |
| LogExecute.ExecuteEntries | libjr/io/logfile.c:719-955 | result, callbacks in order, file and position of a replay by offset, for every style, stop and answers of the callback, as one function of the bytes; `LogRecovery.WhereAReplayEnds` says where it ends |
| LogExecute.CallsAreTheEntries | libjr/io/logfile.c:853-878 | the callbacks of a stream get its entries in order, header entries left out |
| LogExecute.DepthCounts | libjr/io/logfile.c:853-860 | the nesting depth is the number of BEGIN entries less that of COMMIT entries; no other entry counts |
| LogRecovery.ReplayedPart | libjr/io/logfile.c:797-891 | from any state, over a file that can be read up to some place and no further, every replay reads the entries up to the first place where one of its tests or an answer ends it, or to that place, and fails if there is damage there |
| LogRecovery.WhereAReplayEnds | libjr/io/logfile.c:719-955 | where a replay ends, for every style, stop, truncate offset and answers, in numbers: it goes on to the first end of an entry past its truncate offset if that counts, past its stop offset or behind its one entry, outside of transactions if that counts, or outside of all of them when asked to stop; no earlier end is such a place; it makes the calls up to there, and one ABORT entry when it truncates inside a transaction; it fails exactly when it gets to damage, or cannot cut |
| LogRecovery.WhereItStops | libjr/io/logfile.c:803-822 | a truncating replay that nothing else ends stops at the first end of an entry at the truncate offset or behind it, or at the end of the file |
| LogRecovery.BehindTruncateOffset | libjr/io/logfile.c:803-822 | it runs nothing that ends behind the truncate offset if and only if an entry ends just there or none ends behind it; else exactly one such entry, its last |
| LogRecovery.RunOverStream | libjr/io/logfile.c:797-891 | over the entries it reads the loop ends at their nesting depth and with the offset of the last point at depth 0 |
| LogRecovery.Recovery | libjr/io/logfile.c:797-938 | for every truncate offset, style and answers of the callback a replay with truncation makes every callback in order and adds one ABORT exactly when a transaction is open where it stops; it then succeeds if and only if the range from the last point outside all transactions to the truncate offset can be deleted, and has deleted it; else the file is left alone |
| LogRecovery.RecoveryOfWhole | libjr/io/logfile.c:797-938 | with the truncate offset at the end of the file or behind it, also of one that ends in padding, precisely the entries up to that point are left, unless a transaction is open and the truncate offset lies past the end at the same place in its block |
| LogRecovery.RecoveryInFront | libjr/io/logfile.c:797-938 | with the truncate offset in front of the end, and a file that can be read from there on, what is left reads as the entries up to the cut followed by all those behind the truncate offset, run or not |
| LogRecovery.RecoveryBehindPadding | libjr/io/logfile.c:797-974 | when an entry starts at the truncate offset behind padding it is run and counts for the depth; the cut is made in front of it, and it stays in the file |
| LogStepwise.StepRunsOneUnit | include/jr/log.h:170-194 | one call runs one top-level entry or one whole outermost transaction, always advances when it runs anything, and is incomplete only at the end of the file, or at the truncate offset when truncating |
| LogStepwise.StepwiseEqualsFull | libjr/io/logfile.c:803-938 | calling again from each returned offset, with truncation or without, makes the same callbacks in the same order as one full replay, fails when that fails, and ends at the same offset with the same file |
| Log.OpenLog | libjr/io/logfile.c:22-218 | opening creates a header in an empty file or checks the one that is there; which of the five refusals applies, and the state of an opened log |
| Log.OpenedIff | libjr/io/logfile.c:126-205 | a file with any bytes is opened exactly when its first entry can be read and holds the magic number and the block size given, of at least 32; position, start time, sync flag and truncate offset come from it, and nothing is written |
| Log.ReopenAcceptedIff | libjr/io/logfile.c:60-218 | a log with a header for some block size is opened with a block size exactly when the two agree and it is at least the size of the header entry |
| Log.LogObject.SetFileSyncBit | libjr/io/loglib.c:114-192 | reading, changing and writing back the header in place changes the sync flag and no other byte, and restores the position; refused when read-only |
| Log.LogObject.AddEntry | libjr/io/logfile.c:343-409 | a set sync flag is cleared first; then the entry is refused if the log is being replayed, or else written; a required sync is carried out outside transactions and noted on the innermost one inside; refused, without clearing the flag, when read-only |
| Log.LogObject.TransactionBegin | libjr/io/logfile.c:1075-1111 | writes a BEGIN entry and pushes the offset at which it began, unless the entry is refused |
| Log.LogObject.TransactionCommit | libjr/io/logfile.c:1114-1162 | refused outside transactions; else pops the stack and writes a COMMIT entry that carries the need for a sync outwards, and cuts the transaction off if the entry is refused |
| Log.LogObject.TransactionAbort | libjr/io/logfile.c:1165-1189 | refused outside transactions; else truncates the file at the begin offset of the innermost transaction and pops it |
| Log.LogObject.Sync | libjr/io/logfile.c:1391-1411 | sets the sync flag in the header and the log, unless read-only, and changes no other byte and not the position |
| LogTransactions.SyncSetsTheFlag | libjr/io/loglib.c:114-192 | a sync leaves a header that claims the file is synced, and all else as it was |
| LogTransactions.StepFlag | libjr/io/logfile.c:343-409 | every operation that writes an entry clears the flag, a sync sets it, and nothing else touches it |
| LogTransactions.LogHeaderLayout | libjr/io/logfile.h:40-53 | the 32 bytes of the log header: the entry header with the start time, and the second magic number, sync flag and block size |
| LogTransactions.MarkerLayout | include/jr/log.h:320-324 | BEGIN and COMMIT are bare headers of types -10 and -11 |
| Log.LogObject.Execute | libjr/io/logfile.c:719-955 | replay of this log with its truncate offset: result, callbacks, file and position; the log takes entries again afterwards and is in order when the replay started behind the header |
| Log.LogObject.SetTruncateOffset | libjr/io/logfile.c:958-974 | pads to the next block boundary, which becomes the truncate offset and the position, and touches nothing else |
| Log.LogObject.SetStartTime | libjr/io/loglib.c:195-266 | reading, changing and writing back the header in place sets the start time in the header and the log, changes no other field, and restores the position; refused when read-only |
| LogReset.WithStartTimeValid | libjr/io/loglib.c:195-266 | the header then holds that time; nothing else changes, and setting the old time back restores the log |
| Log.LogObject.GetResetOffset | libjr/io/loglib.c:269-310 | pads to the next block boundary and writes an unsynced header with the given time there; the log in front stays as it is |
| Log.LogObject.ResetFromOffset | libjr/io/loglib.c:315-358 | status and state for every offset: the start time is changed, everything in front of the offset cut off, and the old start time put back when that is refused |
| LogReset.ResetAcceptedIff | libjr/io/loglib.c:315-358 | a reset succeeds exactly at a block boundary within the file, keeping what is behind it, or away from one at the end or past it, leaving an empty file; one before the end away from a boundary changes nothing; one past the end on a boundary leaves the log with the new start time |
| LogReset.StepBehind | libjr/io/logfile.c:343-1189 | every operation on a log that stands behind old contents ending at a block boundary does to its part what it does to a log of its own |
| LogReset.ResetRun | libjr/io/loglib.c:269-358 | starting a reset, inside transactions or not, running operations that abort none of those, and resetting succeeds, and leaves the bytes that the same operations leave in a new log with as many open transactions, marked as not synced |
| LogReset.ResetInvariantIff | libjr/io/loglib.c:315-358 | after a reset started outside transactions the open log agrees with its file if and only if the start time is that of the new header, the log does not count as synced and no transaction is open |
| LogRuns.StepKeepsInvariant | libjr/io/logfile.c:1075-1189 | every operation keeps: the file parses, as many transactions are open as the stack has entries, and each stack entry is the offset of the BEGIN of one of them, at its depth |
| LogRuns.EveryRunKeepsInvariant | libjr/io/logfile.c:1075-1189 | that holds after every run of begin, add, commit, abort and sync |
| LogRuns.OffsetsIncrease | libjr/io/logfile.c:1075-1111 | the begin offsets on the stack strictly increase |
| LogRuns.RecoveryAfterRun | libjr/io/logfile.c:797-938 | recovery after any run truncates exactly at the begin of the outermost open transaction, or nothing when none is open; it fails exactly when the truncate offset is not the end of the file and stands at the same place in its block as that begin |
| LogRuns.CrashLosesOnlyTheOpenTransaction | libjr/io/logfile.c:797-938 | whatever is done inside a transaction that is still open, recovery gives back all bytes behind the header as they were at its begin, under the same condition, and else leaves the file alone |
| LogReopen.EveryRunFromNewLog | libjr/io/logfile.c:60-125 | after every run on a new log, for every time, block size of at least 32 and operations, the file parses, holds as many open transactions as the stack, and begin offsets increase |
| LogReopen.EmptyFileBecomesLog | libjr/io/logfile.c:83-125 | opening an empty file for writing gives the new log that runs start from, synced, with truncate offset 0, for every block size but 0 |
| LogReopen.SyncIsFoundAgain | libjr/io/logfile.c:126-205 | whatever was done to a new log, opening its file again finds it synced if and only if nothing was written since the last sync or since it was created |
| LogReopen.LeftLogOpens | libjr/io/logfile.c:22-218 | a file left by any run opens again with its block size, and its end is the truncate offset |
| LogReopen.RunAfterRecovery | libjr/io/logfile.c:719-955 | a new log left after any run opens, its recovery succeeds, and every further run keeps the run invariant with the entries before the outermost open transaction in front |
| LogReopen.RecoveredThenStuck | libjr/io/logfile.c:1233-1309 | a file of 64 bytes with two open transactions is recovered to its header; with the same truncate offset the 48 bytes after one more BEGIN are not |
| LogPadding.RecoveryOfPadded | libjr/io/logfile.c:958-974 | recovery right after the truncate offset was set cuts an open transaction off, unless the outermost one begins a block and the pad header does not reach the truncate offset; then it fails and leaves the file alone |
| LogPadding.EntrySurvivesItsTransaction | libjr/io/logfile.c:803-974 | in every run state away from a block boundary: after the truncate offset is set and an entry added, recovery succeeds, calls the entry back inside the open transactions, aborts these, and leaves the entries in front of them followed by that entry |
| LogPadding.EntryOfUnfinishedTransaction | libjr/io/logfile.c:803-974 | blocks of 32 bytes, BEGIN at 32, truncate offset 64, an entry there: the callbacks are BEGIN, the entry and ABORT, and the entry alone is left |
| LogNesting.NestedRun | libjr/io/logfile.c:343-409 | running any nesting of committed and aborted transactions appends exactly the entries of no aborted one, and outside transactions forces the disk once for each outermost item in which such an entry needs a sync, never before its commit |
| LogNesting.AbortRestoresTheFile | libjr/io/logfile.c:1165-1189 | an aborted transaction restores file, position and stack of its begin, except that the header no longer claims the file is synced |
| LogNesting.NoSyncInside | libjr/io/logfile.c:386-409 | a run of any operations that stays inside a transaction forces nothing to disk |
| LogNesting.NoSyncBeforeCommit | libjr/io/logfile.c:386-409 | nor does one that begins a transaction and stays in it |
| LogNesting.SyncedIff | libjr/io/logfile.c:343-409 | after any run the header claims the file is synced if and only if no entry was added, begun or committed since the last sync, or since a start at which it claimed so |
| AvlTree.TreeObject.UpdateTreeSize | libjr/avl_tree/avl_ins.c:470-486 | an element's stored size becomes one more than those of its children, and nothing else changes |
| AvlTree.TreeObject.BalanceElement | libjr/avl_tree/avl_ins.c:221-468 | relinking cells for any of the four rotations, and the parent or root, makes the rotated tree in memory and touches only cells of the tree |
| AvlTree.TreeObject.BalancePath | libjr/avl_tree/avl_ins.c:131-218 | the loop back up the path makes the tree of the climb, with both early exits |
| AvlShape.RotatedInOrder | libjr/avl_tree/avl_ins.c:221-468 | a rotation keeps the in-order sequence |
| AvlShape.RotatedSizes | libjr/avl_tree/avl_ins.c:221-468 | a rotation keeps stored sizes exact |
| AvlShape.WeakRotates | libjr/avl_tree/avl_ins.c:131-195 | as long as stored heights are not negative and 0 at leaves, a difference of 2 never asks for a rotation through a child that is not there, and the rotation keeps that so |
| AvlShape.RotatedAvl | libjr/avl_tree/avl_ins.c:221-468 | after an insert a rotation gives an exact, balanced subtree of the height the subtree had before |
| AvlShape.BalanceUpKeeps | libjr/avl_tree/avl_ins.c:131-218 | the climb keeps the in-order sequence and exact sizes wherever it stops |
| AvlShape.BalanceUpAvl | libjr/avl_tree/avl_ins.c:131-218 | after an insert, stopping at the first rotation or at the first height that is right leaves the whole tree balanced with exact heights |
| AvlShape.InsertKeepsAvl | libjr/avl_tree/avl_ins.c:90-218 | inserting anywhere into a balanced tree with exact heights gives such a tree |
| AvlShape.InsertedElements | libjr/avl_tree/avl_ins.c:90-128 | inserting puts the new element between what lay before and after its place, keeping sizes exact and heights weak |
| AvlTree.TreeObject.DescendByKey | libjr/avl_tree/avl_ins.c:55-82 | the search stops at an element with the key or at a null pointer, with all smaller elements before that place and all greater ones after it |
| AvlTree.TreeObject.AppendToPath | libjr/avl_tree/avl_ins.c:90-128 | linking a new element at the end of a path, counting it on the way and climbing back gives the tree with that element inserted |
| AvlTree.TreeObject.AppendOver | libjr/avl_tree/avl_ins.c:90-128 | the same where a subtree hangs at that place: the tree with the element in its stead, without duplicates and with rotations still possible |
| AvlTree.TreeObject.InsertElementUsingKey | libjr/avl_tree/avl_ins.c:42-87 | -1 exactly when the key is present, the tree then untouched; else the new element is in its place in strict key order, and a balanced tree stays balanced |
| AvlExtract.HoleElements | libjr/avl_tree/avl_del.c:66-254 | putting the neighbour in the place of an element leaves all elements but that one, in order |
| AvlExtract.Replacement | libjr/avl_tree/avl_del.c:99-157 | what comes into the place: the last element of the left child if that is higher or alone, else the first of the right one, with the stored height, size and other child that were there; nothing for an element without children |
| AvlExtract.ExtractedElements | libjr/avl_tree/avl_del.c:66-273 | extracting removes exactly the element at the end of the path, keeping sizes exact and heights weak |
| AvlTree.TreeObject.DetachElement | libjr/avl_tree/avl_del.c:66-254 | the relinking, with either side's replacement, an adjacent one or none, leaves memory holding the path and the subtree that rebalancing starts from; with both children the path holds the neighbour from the higher child, from the right one when they are equally high |
| AvlTree.TreeObject.ExtractPathEnd | libjr/avl_tree/avl_del.c:66-273 | the whole extraction makes that tree in memory, and the extracted element has null children and height -1 |
| AvlTree.TreeObject.ExtractElementUsingKey | libjr/avl_tree/avl_del.c:24-63 | null exactly when no element has the key, nothing changed then; else the element with the key is gone and the others are in order |
| AvlBalance.ExtractKeepsAvlIff | libjr/avl_tree/avl_del.c:66-273 | extracting from a balanced tree leaves a balanced tree with exact heights if and only if the first rotation of the climb, if any, is over grandchildren of unequal height and the rotated node has no sibling or one as high as it was |
| AvlBalance.NoRotationAtReplacement | libjr/avl_tree/avl_del.c:99-254 | extracting an element with children from a balanced tree never rotates at its place: the neighbour from the higher child stands there over what is left of that child and the other one as it was, and the climb ends or goes on one lower |
| AvlBalance.OneStepUp | libjr/avl_tree/avl_ins.c:145-216 | one step of the climb for any stored heights: rotation exactly at a difference of 2, an end where the height is right, else the height set and on to the parent |
| AvlBalance.ShrunkClimb | libjr/avl_tree/avl_ins.c:131-218 | the same for any subtree that has got one lower |
| AvlBalance.TieIsNotBalanced | libjr/avl_tree/avl_ins.c:314-330 | a double rotation over grandchildren of equal height stores a wrong height |
| AvlBalance.ExtractLosesBalance | libjr/avl_tree/avl_del.c:66-273 | a balanced tree of twelve elements that is unbalanced after extracting its first one |
| AvlRuns.EveryRun | libjr/avl_tree/avl_del.c:66-273 | over any run of inserts and extracts every step adds or removes exactly one element of the sequence, no element occurs twice, sizes are exact, and no rotation asked for needs a child that is not there |
| AvlRuns.KeyRunSorted | libjr/avl_tree/avl_ins.c:42-87 | over any run whose inserts go to the places their keys are searched at, keys stay strictly sorted |
| AvlRuns.InsertRun | include/jr/avl_tree.h:25-32 | after any run of inserts every height is exact, siblings differ by at most 1, and no search path needs more than 12 slots for each byte of a pointer |
| AvlExtract.AvlElementCount | include/jr/avl_tree.h:25-32 | a balanced tree of height h has at least Fib(h + 3) - 1 elements |
| AvlExtract.PathFits | include/jr/avl_tree.h:25-32 | in a balanced tree of fewer elements than pointers can tell apart, every path fits in the path arrays |
| AvlIndex.FindElementUsingIndex | libjr/avl_tree/avl_indx.c:4-50 | element i of the in-order sequence, for every integer i; null when there is none |
| AvlIndex.InsertElementUsingIndex | libjr/avl_tree/avl_indx.c:53-124 | s becomes s[..i] + [x] + s[i..] for every i up to the size, and a balanced tree stays balanced; for a negative i it becomes [s[0], x] + s[1+m..] where m elements hung on the right of s[0], and a balanced tree keeps exact sizes if and only if m is 0 |
| AvlIndex.ExtractElementUsingIndex | libjr/avl_tree/avl_indx.c:127-182 | s becomes s[..i] + s[i+1..] and s[i] is returned, for every i below the size; a negative i counts as 0 |
| AvlIndex.AppendLastElement | libjr/avl_tree/avl_indx.c:185-204 | s becomes s + [x] |
| AvlPath.FindElementUsingKey | libjr/avl_tree/avl_find.c:4-28 | the element with the key, null exactly when there is none |
| AvlPath.SmallestElement | libjr/avl_tree/avl_find.c:31-40 | the first element of the in-order sequence, null when the tree is empty |
| AvlPath.GreatestElement | libjr/avl_tree/avl_find.c:42-51 | the last element of the in-order sequence, null when the tree is empty |
| AvlPath.FillSearchPath | libjr/avl_tree/avl_path.c:3-32 | a path to the element with the key, or to the element under which it would be inserted |
| AvlPath.NextFromPath | libjr/avl_tree/avl_path.c:108-153 | going down, or up through the path array, finds the element right behind the end of the path in the in-order sequence |
| AvlPath.PrevFromPath | libjr/avl_tree/avl_path.c:35-80 | the same for the element right in front of it |
| AvlPath.NextElement | libjr/avl_tree/avl_path.c:155-179 | for any key, in the tree or not, the element with the least greater key; null when there is none |
| AvlPath.PrevElement | libjr/avl_tree/avl_path.c:82-106 | for any key, in the tree or not, the element with the greatest smaller key; null when there is none |
| AvlPath.ForEachElement | include/jr/avl_tree.h:398-403 | the loop over next elements terminates and visits the in-order sequence exactly once |
| AvlPath.ForEachElementRev | include/jr/avl_tree.h:406-411 | the loop over previous elements visits it backwards |
| PrefixLayout.PrefixArrayCreate | libjr/misc/pfx_lib.c:39-110 | the link areas of the containers of an element lie inside the prefix, do not overlap and leave no word of it |
| Relinking.DListMove | libjr/dlist/dlistpfx.c:73-84 | turning the links of an element's neighbours is all that a doubly linked list needs when one element moves |
| Relinking.LListMove | libjr/llist/llistpfx.c:65-84 | turning the predecessor's link is all that a singly linked list needs |
| Relinking.MoveReads | libjr/dlist/dlistpfx.c:50-84 | with head and tail turned as well the list reads as the same sequence with one slot renumbered |
| Relinking.OtherContainer | libjr/misc/pfx_lib.c:76-97 | a container whose link area does not overlap another's reads the same after the other's links were changed |
| Relinking.ChaseIsRight | libjr/alist/alistpfx.c:35-58 | the pass over all elements leaves a head or tail right if and only if no later element lay where its element lies now |
| Relinking.OvertakenIff | libjr/alist/alistpfx.c:35-58 | that is the case exactly when the buffer moved up by a whole number of slots and there are elements that far above |
| Relinking.BulkReads | libjr/alist/alistpfx.c:35-58 | after the pass a list reads as the same slots at the new addresses if and only if neither end was overtaken |
| Relinking.NoOverlapUpwards | libjr/alist/alist.c:169-241 | a buffer that moves down, or up past its own old elements, overtakes nothing |
| Relinking.OverlapBreaksHead | libjr/alist/alistpfx.c:35-58 | two elements and a move up by one slot: the pass leaves the head wrong |
| Relocation.AList.DListTransformPrefix | libjr/dlist/dlistpfx.c:34-85 | in single mode the links lead through the same slots with one renumbered, whatever head and tail were, and these are turned if they led to the element; in all-elements mode the element's own links and the ends are shifted; only this list's words change |
| Relocation.AList.LListTransformPrefix | libjr/llist/llistpfx.c:33-84 | the same for a singly linked list, whose head has to be right, and whose predecessor is found by a walk that terminates |
| Relocation.AList.TransformMoved | libjr/misc/pfx_lib.c:215-235 | after one element moved, the links of all containers are repaired, their ends turned, and no data word has changed |
| Relocation.AList.MoveElement | libjr/alist/alistadd.c:48-62 | copying an element's words and repairing: every container reads with that one slot renumbered, and the data is at the new slot |
| Relocation.AList.NewPrevElement | libjr/alist/alistadd.c:15-70 | opening slot i renumbers the links of every container by the shift, moves data words up by one slot from i on, and leaves the slots below alone; the containers read as before if and only if no end was overtaken when a full buffer moved, and one that was leads to a slot that is given |
| Relocation.AList.NewTail | libjr/alist/alistadd.c:3-13 | a new last slot leaves all data as it was, growing the buffer when it is full; every container reads as before if and only if no end is overtaken by that |
| Relocation.AList.DeleteRange | libjr/alist/alistdel.c:28-75 | deleting slots that are in no container renumbers every container by the shift and moves the data behind them down; with more slots than there are behind the first one nothing moves and the count drops all the same |
| RelocationSteps.OpenThenDelete | libjr/alist/alistdel.c:28-75 | opening a slot and deleting it again gives every container its old slots back |
| Relocation.AList.TransformPrefixes | libjr/alist/alistpfx.c:35-58 | the pass shifts every link of every element once, and leaves data words alone |
| Relocation.AList.IncreaseCapacity | libjr/alist/alist.c:169-241 | growth at least doubles the buffer, keeps all data, and each container reads as the same slots if and only if its ends are not overtaken |
| Relocation.AList.constructor | libjr/alist/alistpfx.c:16-33 | containers set on an empty array have link areas that do not overlap and are empty |
| Relocation.AList.DListInsertElement | libjr/dlist/dlistadd.c:3-36 | the list reads with the new slot in front of the given one, or at the end, whatever the element's links were; other containers are untouched, and count the element as theirs to move once its links there are null |
| Relocation.AList.DListExtractElement | libjr/dlist/dlistdel.c:3-38 | the list reads without the slot, whose links are null afterwards; other containers are untouched; an element with null links that is not in the list changes nothing at all |
| Relocation.AList.MakeNull | libjr/dlist/dlistpfx.c:87-93 | an element with null links counts as one that moves may copy freely |
| AvlRelocation.TransformMoved | libjr/avl_tree/avl_pfx.c:34-95 | after one element moved, the search for its key finds the parent, and the tree is the same with the one address replaced; elements with a negative height are skipped |
| AvlRelocation.MoveElement | libjr/avl_tree/avl_pfx.c:34-95 | copying and repairing keeps the tree valid, sorted and over live slots |
| AvlRelocation.MakeNullElement | libjr/avl_tree/avl_del.c:276-284 | a new element with null children and a negative height counts as one that moves may copy freely |
| AvlRelocation.ShiftUp | libjr/alist/alistadd.c:42-67 | opening a slot: the same tree, shape, heights and sizes, with the shifted addresses renumbered and every element keeping its key |
| AvlRelocation.ShiftDown | libjr/alist/alistdel.c:50-74 | deleting slots: the same |
| AvlRelocation.TransformPrefixes | libjr/avl_tree/avl_pfx.c:34-66 | when the whole array has moved the pass makes the same tree at the new addresses if and only if the root is not overtaken |
| AvlRelocation.MoveAll | libjr/avl_tree/avl_pfx.c:34-66 | the array moved with its cells and the pass made: the tree is valid, sorted and over the moved slots if and only if the root is not overtaken |
| SharedArray.LinkedArray.constructor | libjr/alist/alistpfx.c:16-33 | an empty array with link areas of lists and the words of a tree that do not overlap |
| SharedArray.LinkedArray.MoveElement | libjr/misc/pfx_lib.c:215-235 | lists and a tree in the words of the same elements: copying one element and repairing renumbers that slot in all of them, its key moves along, and the user's words are at the new slot |
| SharedArray.LinkedArray.ShiftUp | libjr/alist/alistadd.c:42-67 | opening a slot: every list and the tree are the same with shifted slots renumbered, and the user's words are one slot higher |
| SharedArray.LinkedArray.ShiftDown | libjr/alist/alistdel.c:50-74 | closing a gap: the same, downwards |
| SharedArray.LinkedArray.NewPrevElement | libjr/alist/alistadd.c:15-70 | the whole operation, growth included, on lists and tree together |
| SharedArray.LinkedArray.DeleteRange | libjr/alist/alistdel.c:28-75 | deleting elements that are in no list and not in the tree keeps all of them, for any number up to the count |
| SharedArray.LinkedArray.IncreaseCapacity | libjr/alist/alist.c:169-241 | after growth the lists and the tree all read as before, over the same keys and the user's words, if and only if no end of a list and no root is overtaken |
| SharedArray.LinkedArray.MakeNull | libjr/avl_tree/avl_del.c:276-284 | a new element, made null for every list and the tree, joins those that moves may copy |
| SharedArray.LinkedArray.InsertIntoList | libjr/dlist/dlistadd.c:3-36 | an element joins a list at any place; the other lists and the tree stay as they were |
| SharedArray.LinkedArray.ExtractFromList | libjr/dlist/dlistdel.c:3-38 | an element leaves a list, or nothing changes when it is in no place of it; the other lists and the tree stay as they were |
| SharedArray.LinkedArray.InsertIntoTree | libjr/avl_tree/avl_ins.c:42-128 | an element joins the tree at the place its key asks for, refused exactly when the key is there; balance is kept, and only words of the tree are written |
| SharedArray.LinkedArray.ExtractFromTree | libjr/avl_tree/avl_del.c:24-273 | the element with a key leaves the tree, if there is one; the lists stay as they were |
| HTableChains.AddedToBucket | libjr/htable/htablins.c:246-263 | an entry put in front of its bucket's chain joins the partition of live entries into chains |
| HTableChains.RemovedFromBucket | libjr/htable/htabldel.c:62-103 | an entry taken out of its chain, first or not, leaves it and changes no other chain |
| HTableChains.TakenFromFree | libjr/htable/htablins.c:165-182 | the head of the list of deleted entries can be taken off it |
| HTableChains.BucketInRange | libjr/htable/htablins.c:246-263 | the bucket is the remainder of the hash value by the number of buckets |
| HTable.HashTable.FindIndex | libjr/htable/htablins.c:3-48 | the index whose entry has the key, -1 exactly when no live entry has it, for every hash function |
| HTable.HashTable.AllocateNewIndex | libjr/htable/htablins.c:165-182 | an index that is not live: the first of the deleted ones, which is taken off them, or a new slot when none is deleted |
| HTable.HashTable.IncreaseNumBuckets | libjr/htable/htablins.c:204-244 | rehashing ends with a power of 2 and one more buckets, no fewer than slots and fewer than twice as many beyond the first 9, every live entry in the chain of its bucket, and no index or key changed |
| HTable.HashTable.NewIndex | libjr/htable/htablins.c:72-111 | a known key gives -1 and changes nothing; else one new index has the key, all others keep theirs, and there are never more slots than buckets |
| HTable.HashTable.DeleteFromBucketList | libjr/htable/htabldel.c:62-103 | the walk finds the entry in its chain and unlinks it alone |
| HTable.HashTable.DeleteIndex | libjr/htable/htabldel.c:3-22 | exactly that index is no longer live, and is the first of the deleted ones, which are reused last deleted first |
| HTable.HashTable.DeleteElement | libjr/htable/htabldel.c:25-40 | -1 exactly when the key is absent; else its index is deleted and the key is in the table no more |
| HTable.HashTable.Empty | libjr/htable/htablemt.c:3-16 | no entry is live or deleted, and the buckets stay |
| HTable.HashTable.Size | include/jr/htable.h:117-118 | slots less deleted ones is the number of live entries |
| HTableRuns.LiveIndexStays | libjr/htable/htablins.c:204-244 | over any run an index keeps its key until it is deleted or the table emptied |
| HTableRuns.SlotsAreReused | libjr/htable/htablins.c:165-182 | over any run slots are the live entries and the deleted ones, and never more than the most entries that were live at one time |
| AListSort.ItemList.SortRange | libjr/alist/alistsrt.c:3-105 | the range, cut off at the end of the list, ends ascending with the same elements, and the rest is as before |
| AListSort.ItemList.SortUniquelyRange | libjr/alist/alistsrt.c:108-252 | the range ends strictly ascending, what is kept and what was freed is together what was there, each freed element compares equal to a kept one, and the rest is as before |
| TarHeader.OctalRoundTrip | libjr/io/jr_tar.c:760-857 | octal digits with leading zeros and a null byte behind them are parsed as the number |
| TarHeader.PathRoundTripIff | libjr/io/jr_tar.c:615-745 | exactly which paths of up to 255 bytes are put together again from the two fields, whatever the entry held before: those that fit, a full name in front of an unset mode, and a path that cannot be split but happens to be the old prefix |
| TarHeader.FreshEntryIff | libjr/io/jr_tar.c:615-745 | in an entry that is new and has its mode set these are the paths that fit |
| TarHeader.FitsIff | libjr/io/jr_tar.c:626-721 | a path fits exactly when it is shorter than 100 bytes, or has no slash at index 154 and some slash leaves a prefix under 155 and a name under 100 bytes |
| TarHeader.SplitAtFullPrefixIsLost | libjr/io/jr_tar.c:656-672 | a path with slashes at 150 and 154 could be split, but is not stored so that it comes back |
| TarHeader.FullNameOverruns | libjr/io/jr_tar.c:945-949 | a name that fills its field is read on into the mode, unless that begins with a null byte |
| TarArchive.SplitRoundTrip | include/jr/tar.h:40-57 | the fields read from a header's bytes are the fields written |
| TarArchive.CheckSumSmall | libjr/io/jr_tar.c:900-934 | the checksum always fits its seven digits |
| TarLayout.CheckSumWritten | libjr/io/jr_tar.c:900-934 | the eight bytes at 148 of every header written hold, in octal digits, the sum of its 500 bytes with those eight counted as spaces |
| TarLayout.ItemCheckSum | libjr/io/jr_tar.c:900-934 | so they do in the archive, whatever the item |
| TarLayout.SumOfTwo | libjr/io/jr_tar.c:885-898 | the sum counts every byte once |
| TarLayout.ItemLayout | include/jr/tar.h:40-57 | the bytes of the header written for an item: ids, size, time and mode in octal digits, type, magic and version, each at its place |
| TarLayout.PathLayout | libjr/io/jr_tar.c:615-745 | a path that fits is in the archive as text, up to a slash in the prefix and the rest in the name, a null byte behind both; a short one in the name alone |
| TarLayout.DataLayout | libjr/io/jr_tar.c:495-550 | the data stands in the next block with null bytes around it, and takes whole blocks and no more than it needs; data of a directory is not filled up |
| TarLayout.NegativeNumbers | libjr/io/jr_tar.c:760-830 | ids below zero are written as 65535, mode and time below zero as 0 |
| TarLayout.LargeNumbers | libjr/io/jr_tar.c:760-830 | ids and modes from octal 7777777 on, and times from 2^32 - 1 on, are not stored; a size from there on is stored as that |
| TarLayout.NumberIsRead | libjr/io/jr_tar.c:156-279 | a number field is read as the octal digits behind any white space, up to the first other byte, and refused when there are none |
| TarLayout.UnderstoodIff | libjr/io/jr_tar.c:106-279 | by the bytes of a header: when it is the end, when it is understood and as what, with size 0 for the types 1 to 6, and that everything else is an error, a wrong magic text too unless a null byte or a space ends it |
| TarArchive.WrittenIsFound | libjr/io/jr_tar.c:44-279 | the header written for an item whose path fits is understood, with its mode, ids, time and path, and the size of its data, which is 0 for a directory |
| TarArchive.WrittenPathIff | libjr/io/jr_tar.c:615-745 | the path read from a written header is the item's if and only if it fits |
| TarArchive.ItemIsLost | libjr/io/jr_tar.c:423-550 | an item without a path, with one that does not fit, or a directory with data is not what is read first, whatever follows it |
| TarArchive.ArchiveRoundTrip | libjr/io/jr_tar.c:44-550 | writing any items whose numbers fit their fields, and the two null blocks, and reading the stream gives the items back in order, then end of file, if and only if every path fits and no directory comes with data |
| Tar.TarEntry.SetPathInfo | libjr/io/jr_tar.c:615-745 | the search for the split and the copies into the fields store the path; one that is too long changes nothing |
| Tar.TarEntry.FindPrefix | libjr/io/jr_tar.c:656-670 | the backwards loop finds the last slash whose prefix fits, or falls off the front |
| Tar.TarEntry.Write | libjr/io/jr_tar.c:423-550 | header, alignment, data and padding land at the position, with a right checksum in the file; the types 1, 2 and 5 get size 0 and their data no padding |
| Tar.TarEntry.InitCheckSum | libjr/io/jr_tar.c:900-934 | summing the fields one by one, with spaces for the checksum, gives the checksum of the header |
| Tar.TarEntry.SumByteString | libjr/io/jr_tar.c:885-898 | the loop computes the sum of the bytes |
| Tar.TarEntry.InitFromStream | libjr/io/jr_tar.c:44-279 | end of file, error or entry as a function of the bytes, and the stream one block further, or at its end |
| Tar.TarEntry.ReadData | libjr/io/jr_tar.c:282-381 | the data if there is that much, and the stream at the next block, or at its end |
| Tar.WriteEOF | libjr/io/jr_tar.c:1043-1069 | two null blocks at the position |
| Tar.WriteArchive | libjr/io/jr_tar.c:423-1069 | the calls for any items and the end write the encoded archive at the position |
| Tar.ReadItems | libjr/io/jr_tar.c:44-381 | the calls that read entries and their data until the end return what the bytes from the position on hold |
| Tar.WriteAndRead | libjr/io/jr_tar.c:44-1069 | writing items into an empty file and reading them from its front gives them back exactly when every path fits and no directory comes with data |

## Left out

- Files, locks, threads and the allocator: every read, write and seek succeeds, read locks and system calls are not modelled, the address and usable size of a buffer are parameters.
- Torn log entries: the reader reports them as errors, as the source does; pad entries shorter than their own header, on which the source can loop, are reported as errors too.
- Log entries with more than 127 values or pieces, null data pointers, and data of 2^31 bytes or more: the format stores counts in a signed char and lengths in a signed 32 bit integer.
- Replay by time, negative callback statuses, and a null callback.
- A block size of 0 in range deletion and replay: opening a log refuses it, and the copy loop would not advance.
- LogRecovery.RecoveryInFront: the file can be read from the truncate offset on; of one that lies inside an entry only `LogRecovery.Recovery` speaks, with the bytes that are left.
- Log.LogObject.SetTruncateOffset: writing a file that was opened read-only is an I/O failure, as in `Log.LogObject.GetResetOffset`.
- LogReset.ResetRun: no transaction that was open when the reset was started is aborted before it is done; that truncates the file in front of the new log.
- LogReset.ResetInvariantIff: the reset is started outside transactions; inside one the new log gets a COMMIT without a BEGIN.
- LogPadding.EntrySurvivesItsTransaction: the invariant of whole runs is not carried past a truncate offset set in their course.
- A log header with fewer or shorter data pieces is one refusal; the source reads past the piece.
- Overflow of 32 and 64 bit offsets, counts and sizes.
- AVL trees that do not maintain sizes: the same code without the size updates.
- The path arrays are sequences without a bound; that the real ones suffice is proved for balanced trees only (`AvlRuns.InsertRun`).
- AVL balance over runs with extracts: the code does not keep it, so that only the exact condition for one extract is stated (`AvlBalance.ExtractKeepsAvlIff`).
- Comparison functions are keys, integers, so that they are consistent total orders; element contents other than the key are not modelled in trees.
- SharedArray.LinkedArray.MoveElement: the tree's methods work on a map of cells that is kept equal to the words of the array and written back after each of them; one tree to an array.
- Relocation: containers are values inside the array object, so that the same container cannot be set on an array twice; word size is the unit of addresses.
- Relocation.AList.DeleteRange: deleting more elements than there are in all, after which the source's count is negative.
- Relocation.AList.NewPrevElement: the head of a singly linked list is not overtaken when the buffer moves; with a wrong head the repair walks from a wrong place, and what it reads is not part of this model.
- SharedArray.LinkedArray.NewPrevElement: no end of a list and no root is overtaken; with a wrong root the search for a parent starts at another element.
- The loops of `Tar.WriteArchive` and `Tar.ReadItems` are those of a program that uses the tar functions.
- DListAppendElement and the insert and extract operations of singly linked lists.
- NewNextElementPtr and copying of arrays with links; sorting elements with links, where the source adds the size of the prefix twice.
- Hash values are integers: the smallest one, whose negation overflows, is not modelled. Hash tables of elements and of pointers are one table of keys.
- Tar links, user and group names, device numbers, data in several segments or from a file, and signs in octal fields.
- Mail, DNS, sockets, MIME, PostScript, UUID, trace, exception and allocation statistics code; replacements of platform functions.
