# Verified models of the classic Mac OS Virtio drivers

This project models, in Dafny, the parts of the Virtio drivers that are hardest to get right, and proves what they are
meant to do. Code that works by changing things in place is modelled in that form, as classes and methods with loops;
each such method is proved against a specification on plain values, and the lemmas are about that specification.

**Split virtqueue** (`Virtqueue`, `VirtqDriver`; virtio/virtqueue.c, the driver side of section 2.6 of VIRTIO 1.1).
`Ring` is the shared memory and the driver's private words. A ghost `History` numbers every chain ever sent and every
used element ever returned, without wrapping. `Inv` ties the two together, every step of driver and device keeps it, and
`RunInv` extends it to runs of any length, so through any wrap-around of the 16-bit indices. It says that the
descriptors split exactly into free ones and disjoint chains in flight, that no unread slot of either ring is
overwritten, and that each chain is reported once with its own tag. Class `Virtq` does the same in place.

**Interrupt handshake** (`Handshake`, `HandshakeDriver`; virtio/virtqueue.c and virtio/transport-classic.c). Device, top
half, bottom half and clients interleave freely, one access to shared memory at a time. No wanted completion is ever
stranded, and once nothing new happens the handshake stops, within a number of steps given by `Rank`, with every wanted
completion claimed. The class's methods are the routines themselves; a ghost trace shows that each run of them is a run
of the state machine.

**Screen-update scheduler** (`GpuScheduler`, `GpuDriver`; virtio/device-gpu.c). sendPixels, DNotified and QPoll call each
other over the in-place virtqueue, with the device taking and completing chains in order meanwhile. Each send finds its
two descriptors free although an inner poll may reclaim a flush before the outer one reclaims its transfer; the device
always reads the message that was meant; and every rectangle passed in is covered by a pair queued since or by the
pending rectangle, which outside sendPixels is only kept while every buffer is busy and interest is held. `Promptness`
joins this with the handshake: a pending rectangle is sent once the device stops.

**Blitter and sizes** (`Blitter`, `Pixels`, `Blit`, `BestSize`, `AspectRatio`, `Primes`; virtio/blit.c,
virtio/device-gpu.c). Blit is compared pixel by pixel with a direct reading of the source bits at all six depths, inside
the row strides computed by rowbytesForBack. getBestSize terminates with the largest size that fits of those with the
device's aspect, rounded; which sizes its first loop reduces to lowest terms is decided by their prime factors.

**Hash table** (`HashTable`, `HashTableOps`; virtio/hashtab.c). Linear probing over slots whose keys and values are inline
or out of line in a bump-allocated blob refines a finite map, through overwriting and growing. The one kind of overwrite
that breaks this is modelled too.

**Files over 9P**. `ForkRings`, `HostFiles` and `FileIO` (virtio/device-9p.c, virtio/universalfcb.c): the blocks of open
files, linked in rings by fork, agree with the host about their lengths exactly as long as the driver tells forks apart as
the host does, and a chunked transfer equals one transfer. `Wire` and `Transact` (virtio/9p.c): messages can be read
back, in both directions. `Listing` and `DirCache`: when the cached lookup by index equals an uncached one. `Browse`,
`Reading`, `BrowseDriver`, `Trail`, `BrowseCases` and `Cnid`: browse finds exactly the file that a path names, read
character by character, and the database of catalogue numbers leads to the right files after every path but an exactly
described few.

**Names** (`NameConversion`, `MacRomanTables`, `MacRoman`; virtio/unicode.c). Mac Roman to UTF-8 and back is the identity
under an exact condition, stated for every Pascal string.

Where a specification follows the code's own computation, another definition says in other terms what it has to come to
(`Carries`, `ShownAt`, `Read`, `Shows`, `Near`, `Little`), and lemmas and the contracts of the main methods join the two.

`Words` holds machine-word arithmetic. `dafny verify dfyconfig.toml` checks everything.

## How the code and its descriptions differ

The models follow the code. Where a promise fails, a lemma or method gives an input, and another lemma says for all
inputs exactly when it holds.

- An overwrite that takes a stored value of 1 to 4 bytes to one of 5 to 8 treats the inline bytes as an offset
  (virtio/hashtab.c:151). `LoseData` destroys another key's value with three calls of HTinstall on a table as HTallocate
  first makes it. `SafeExactly`: those lengths, and no others, can do harm. `UnsafeOverwriteLosesData` does so for each of
  them and almost every value.
- The comment at virtio/device-gpu.c:549 says the aspect ratio is cancelled to its simplest form. The loop stops at the
  smaller side. `SimplestExactlyWhen`: the comment is right if and only if the smaller side of the device's size is 1, or
  does not divide the larger, or is divided at least twice by its largest prime factor. `NotSimplest`: 47 by 11750.
- A name of 31 characters survives conversion only if its last five are its own hash tag: `NameRoundTrip`.
- A path component "." can make browse record a file as its own child: `DotRecordsSelf` is such a lookup, of ":a:.".
  `RecordedExactly`: the database stays sound if and only if `Wrong` is empty, which is computed from the path's
  components alone. `ClimblessExactly`: for a path without ".." that is so if and only if each "." comes before the first
  name; `PlainTrail`: without "." it is so for every path. A "." that leads to the root renames the root's own entry, and
  nothing else does: `RootEntry`.
- GetFInfo and GetCatInfo count a directory's entries differently but share one count: `MixedCalls` misses a file.
  `ResumedExactly` says when a call that goes on from the shared count is right.
- Two inodes can share a catalogue number: `Collision`. `SameNumber` says exactly when, and `DistinctNumbers` gives a range
  of inodes that never do.
- Raising interest from 0 without polling can strand a completion: `InterestNeedsPoll`. `RaiseExactly`: in any state, the
  poll may be left out if and only if nothing on the queue is unclaimed or something that will poll it is under way. So the
  raises right after QInit (virtio/device-9p.c:343, virtio/device-input.c:153) need none.
- The blocks open on a fork are told when its length changes, but forks are told apart by catalogue number, and the host's
  files by name. A file's resource fork is the host's file of that name with ".rsrc" appended, which can also be opened as
  a file. `StaleLength` opens both and sets a length: the second block is then wrong. `LengthsExactly`: blocks that agree
  with the host go on doing so if and only if no two open forks share a file and no open fork has two. `ApartFor`: for both
  forks of a set of files that is so if and only if their numbers are distinct and none is named as another's sidecar.
  `Clash` fails for every pair of forks that are not told apart.
- SetFPos compares the offset it was passed, not the position that stands for, with the end of the fork
  (virtio/device-9p.c:1190), and GetFPos never stores the mark: `MarkPastEnd`. `SetFPosExactly` and `SetFPosByMode`: SetFPos
  is right if and only if both lie beyond the end or neither does, so always for an offset from the start.
  `GetFPosExactly`: GetFPos is right if and only if it was passed the mark.
- Getattr9 and Setattr9 have no return statement (virtio/9p.c:287-318); they are taken to return transact's result.

## Model

| member | source | states |
|---|---|---|
| Virtqueue.RunInv | virtio/virtqueue.c:73-170 | every state of every run of sends, device steps and polls keeps the whole invariant, whatever the length of the run and however often the indices wrap |
| Virtqueue.NextInv | virtio/virtqueue.c:73-170 | so does each single step, with QPoll handling what it claimed in ring order |
| Virtqueue.SendInv | virtio/virtqueue.c:73-109 | a send keeps free and used descriptors apart, and overwrites no slot of the available ring that the device has not read |
| Virtqueue.CompleteInv | virtio/virtqueue.c:150-155 | a completion by the device, in any order, overwrites no used element that is still unread |
| Virtqueue.ClaimInv | virtio/virtqueue.c:151-154 | reading the used index and advancing used_ctr to it claims exactly the completions since the last claim |
| Virtqueue.HandleInv | virtio/virtqueue.c:156-169 | reclaiming one chain frees its descriptors and no others, and reports it with its own length and tag |
| Virtqueue.DescriptorsPartition | virtio/virtqueue.c:73-96 | a descriptor is free (next is 0xffff) if and only if no chain in flight uses it, and no two chains share one |
| Virtqueue.WalkYieldsBuffers | virtio/virtqueue.c:84-93 | following next from the head of a chain ends, and yields the caller's addresses and sizes in order, with flag 1 on all but the last and flag 2 on the writable ones, which come last |
| Virtqueue.DeviceReads | virtio/virtqueue.c:73-109 | a device that counts modulo the ring size finds, at each slot up to the available index, the head of what one QSend was given |
| Virtqueue.DriverReads | virtio/virtqueue.c:150-169 | at each slot of the used ring up to the used index, counted the same way, the driver finds the head, the tag and the length of a completed chain |
| Virtqueue.ReportedExactlyOnce | virtio/virtqueue.c:150-169 | each chain is reported at most once, with its own tag and length; once QPoll has caught up, exactly the completed chains have been |
| Virtqueue.InOrderUnharmed | virtio/virtqueue.c:150-169 | while QPoll works through what it claimed in order, the device has room to complete more without harming it |
| Virtqueue.SlotWraps | virtio/virtqueue.c:102-103 | a wrapped 16-bit index addresses the slot of the unwrapped position it stands for |
| VirtqDriver.Virtq.QInit | virtio/virtqueue.c:37-65 | all descriptors start free and all counters at zero |
| VirtqDriver.Virtq.QSend | virtio/virtqueue.c:73-109 | succeeds exactly when enough descriptors are free, and then sends one chain in the highest free descriptors; a device reading the next slot walks the caller's buffers with the right flags |
| VirtqDriver.Virtq.FillDescriptors | virtio/virtqueue.c:76-96 | the backwards loop writes a chain with ascending descriptors, linked in order, or runs short exactly when too few are free |
| VirtqDriver.Virtq.QPollBegin | virtio/virtqueue.c:151-154 | the read-and-advance is the claiming step, on 16-bit words |
| VirtqDriver.Virtq.Reclaim | virtio/virtqueue.c:160-166 | the inner loop ends and frees exactly the descriptors of one chain |
| VirtqDriver.Virtq.QPollOne | virtio/virtqueue.c:156-169 | one pass hands DNotified the length and tag of the chain at that used position |
| VirtqDriver.Virtq.QPoll | virtio/virtqueue.c:150-170 | calls DNotified once, in order, for each element in the used ring at the start, while the device runs on |
| Handshake.RunInv | virtio/virtqueue.c:119-147 | in every interleaving, if interest is positive and the used index is ahead, an interrupt is raised, a bottom half is queued or has still to read the index, a poll is owed, or the device is about to interrupt |
| Handshake.StepInv | virtio/transport-classic.c:198-226 | each step of device, top half, bottom half and clients keeps that |
| Handshake.QuietMeansCaughtUp | virtio/virtqueue.c:133-147 | when nothing is on its way, every wanted queue is caught up and armed |
| Handshake.QuietOrEnabled | virtio/transport-classic.c:198-226 | nothing is on its way if and only if no internal step is possible: the handshake cannot get stuck |
| Handshake.InternalDecreases | virtio/virtqueue.c:133-147 | each internal step uses up rank, so the handshake always settles |
| Handshake.EveryRunCatchesUp | virtio/virtqueue.c:133-147 | whatever order the outstanding steps take, they end, and then every wanted completion has been claimed |
| Handshake.RaiseExactly | virtio/virtqueue.c:119-122 | in every state, a raise of interest from 0 without a poll still ends with the queue claimed, whatever order the outstanding steps take, if and only if nothing on it is unclaimed or something that will poll it is under way |
| Handshake.InterestNeedsPoll | virtio/virtqueue.c:119-122 | a reachable state where it is not so |
| Handshake.CanSettle | virtio/virtqueue.c:133-147 | from every state the outstanding steps can be taken to an end |
| Handshake.AheadIsVisible | virtio/virtqueue.c:151-156 | comparing the wrapped 16-bit words sees exactly whether the used ring is ahead |
| HandshakeDriver.Transport.InterruptTopHalf | virtio/transport-classic.c:198-216 | is a run of the state machine; a raised interrupt leaves a bottom half on its way |
| HandshakeDriver.Transport.QDisarm | virtio/virtqueue.c:125-130 | disarms every queue |
| HandshakeDriver.Transport.QInterest | virtio/virtqueue.c:119-122 | changes one counter and arms that queue exactly when it is not zero |
| HandshakeDriver.Transport.QNotified | virtio/virtqueue.c:133-147 | is a run of the state machine after which every completion made before the call has been claimed |
| HandshakeDriver.Transport.VRearm | virtio/transport-classic.c:224-226 | lets the next interrupt queue another bottom half |
| GpuScheduler.Room | virtio/device-gpu.c:829-936 | inside the window of the newest buffers a send always finds its two descriptors free |
| GpuScheduler.FreeIsRest | virtio/virtqueue.c:73-109 | chains of two buffers each cost exactly two descriptors |
| GpuScheduler.WindowUnharmed | virtio/virtqueue.c:150-169 | nor can the device overwrite a used element that an outer or inner poll has still to read |
| GpuScheduler.RoomFromFreeBuffer | virtio/device-gpu.c:878-896 | with no poll half done, a free buffer leaves room for a pair |
| GpuScheduler.RoomAfterFlush | virtio/device-gpu.c:759-765 | in a nested call, the flush just handled was the oldest chain in flight, which leaves room too |
| GpuScheduler.FreeIsUntouched | virtio/device-gpu.c:898-930 | the device has finished with the messages of a free buffer |
| GpuScheduler.HandledOnce | virtio/device-gpu.c:759-765 | however polls nest, each chain polled so far was passed to DNotified exactly once |
| GpuScheduler.SplitAtMostOnce | virtio/device-gpu.c:759-765 | at any time at most one pair has its flush reclaimed and its transfer not |
| GpuScheduler.AllBusy | virtio/device-gpu.c:878-884 | with no free buffer every buffer has a flush of its own in flight |
| GpuScheduler.CoverSend | virtio/device-gpu.c:857-861 | sending the union of the pending rectangle discharges every rectangle it stood for |
| GpuScheduler.EverythingShown | virtio/device-gpu.c:829-936 | when drained with nothing pending, the device has read, for each rectangle ever passed in and since then, a transfer and then a flush of one rectangle containing it, and the transfer takes every pixel from its own place in the front buffer |
| GpuScheduler.BuffersApart | virtio/device-gpu.c:898-930 | of the messages and reply buffers of commands the device has not finished, no two overlap, and all lie in the page |
| GpuScheduler.Union | virtio/device-gpu.c:857-861 | the least rectangle containing both |
| GpuDriver.Gpu.Initialize | virtio/device-gpu.c:347-354 | starts with all buffers free and nothing pending |
| GpuDriver.Gpu.SendPixels | virtio/device-gpu.c:829-936 | for any rectangle, empty ones included, keeps every invariant through re-entry; leaves a rectangle pending only with interest held, the poll it owes made and all buffers busy; called with a buffer free, leaves nothing pending |
| GpuDriver.Gpu.DNotified | virtio/device-gpu.c:759-765 | frees the flush's buffer and sends what was pending, unless sendPixels is already running |
| GpuDriver.Gpu.QPoll | virtio/virtqueue.c:150-170 | called from outside or nested, handles each element it claimed once; if one was a flush nothing stays pending |
| GpuDriver.Gpu.SendPair | virtio/device-gpu.c:898-930 | queues the transfer and the flush of one rectangle on one buffer, whose messages and replies have their own places in the page |
| GpuDriver.Gpu.TakeBuffer | virtio/device-gpu.c:890-896 | picks the lowest free buffer |
| GpuDriver.Gpu.Enqueue | virtio/device-gpu.c:918-930 | no send of the scheduler ever runs out of descriptors |
| GpuDriver.Gpu.Session | virtio/device-gpu.c:829-936 | all this over any sequence of updates, interrupts and device steps; every rectangle with pixels becomes a request, in order |
| GpuDriver.Gpu.NothingStuck | virtio/device-gpu.c:863-884 | if the device has finished and a rectangle is pending, a flush is waiting to be polled, so the next poll sends it |
| GpuDriver.Gpu.DrainedMeansShown | virtio/device-gpu.c:829-936 | when drained with nothing pending, every rectangle has been shown, pixel by pixel from its own place |
| GpuDriver.Gpu.InFlightApart | virtio/device-gpu.c:898-930 | between calls no two buffers in flight overlap |
| GpuDriver.Gpu.EachHandledOnce | virtio/virtqueue.c:150-169 | each chain polled so far was handled exactly once |
| Promptness.SomebodyPolls | virtio/virtqueue.c:133-147 | whatever order the outstanding steps take, a wanted queue with completions unclaimed is polled |
| Promptness.PendingIsPolled | virtio/device-gpu.c:863-884 | if a rectangle is pending when the device has finished, its queue is polled, and the poll finds a flush |
| Promptness.PollSends | virtio/device-gpu.c:759-765 | which sends it |
| Blit.Blit | virtio/blit.c:14-117 | every pixel in rows [t,b) and the widened columns shows the bits or bytes of its own place in the source, each through the right table; every other pixel is unchanged; the widened span covers [l,r) and stays in the row; with the edges crossed or negative nothing is drawn |
| Blit.WordRow | virtio/blit.c:25-81 | one row at 1, 2 or 4 bits, word by word: each pixel is the colour of its own bits, most significant first |
| Blit.PixelRow | virtio/blit.c:82-116 | one row at 8, 16 or 32 bits: each pixel is the colour of its own bytes, with red, green and blue in their places |
| Blit.ExpandBits | virtio/blit.c:33-37 | the shifting loop writes the 32 pixels of a word in order |
| Blit.Components | virtio/blit.c:96-101 | the 16-bit masks pick out the three 5-bit components |
| Pixels.WantedShows | virtio/blit.c:25-116 | the reference colour is that of the pixel's bits: an index looked up, three 5-bit fields stretched, or three bytes, each through its gamma table into its own byte of the word |
| Blitter.FieldIsPixel | virtio/blit.c:39-81 | the shifts and masks on big-endian words find the pixels of the row's bytes in order |
| Blitter.TopBit | virtio/blit.c:33-37 | after i shifts the top bit is pixel i |
| Blitter.Widened | virtio/blit.c:18-23 | widening covers the span, is aligned, and is the least that is |
| Blitter.WidenedEnd | virtio/blit.c:23 | a negative right edge too goes to the next multiple, which is not positive |
| Blitter.StrideFits | virtio/device-gpu.c:1001-1023 | the widened span stays inside both rows, and the strides keep the ratio that Blit shifts by |
| Blitter.RowbytesLeast | virtio/device-gpu.c:1001-1023 | a row of the back buffer is the least number of aligned units that holds its pixels, and the front buffer's is that many words |
| Blitter.AndNegIs | virtio/blit.c:22-23 | masking with a negated power of two rounds down to a multiple of it |
| BestSize.GetBestSize | virtio/device-gpu.c:526-576 | 800 by 600 with no enabled mode; the device's size if it fits; else the largest that fits of the sizes with the device's aspect, exactly or rounded to the nearest pixel |
| BestSize.Step | virtio/device-gpu.c:558-571 | each pass lowers width plus height and keeps both positive; it takes off one ratio, or takes 1 off the shorter side and rounds the longer to the nearest whole number, even where the two sides meet |
| BestSize.Shrink | virtio/device-gpu.c:545-572 | terminates; with a small ratio the result has exactly the device's aspect and one more ratio step would not fit; otherwise the longer side is the nearest for the shorter, and no larger such size fits |
| BestSize.StepBounds | virtio/device-gpu.c:563-571 | the rounded side stays at least 1 and never grows, also when the two approximate branches alternate |
| AspectRatio.Cancel | virtio/device-gpu.c:547-556 | the two nested loops compute the ratio that `Cancelled` gives |
| AspectRatio.CancelledRatio | virtio/device-gpu.c:547-556 | that ratio is the size's own, and no number below its smaller side divides both |
| AspectRatio.SimplestExactlyWhen | virtio/device-gpu.c:547-556 | for every size: it is in lowest terms if and only if the size's smaller side is 1, or does not divide the larger, or is divided twice by its largest prime factor |
| AspectRatio.NotSimplest | virtio/device-gpu.c:547-556 | 47 by 11750 is left as it is, although it is 1 to 250 |
| HashTable.StoredIsFound | virtio/hashtab.c:212-229 | no empty slot lies on a stored key's probe path, so a search that stops there stops at that key |
| HashTable.ProbeReaches | virtio/hashtab.c:212-229 | probing visits every slot |
| HashTable.OverwriteKeepsInv | virtio/hashtab.c:141-182 | writing over one key's value changes the map at that key only |
| HashTable.InsertKeepsInv | virtio/hashtab.c:141-182 | a new key extends the map |
| HashTable.InPlaceKeepsBytes | virtio/hashtab.c:141-160 | overwriting in place disturbs no other key or value in the blob |
| HashTable.SafeExactly | virtio/hashtab.c:141-160 | lengths pass the guard if and only if no overwrite of such lengths, in any table, leaves the blob or disturbs another key or value |
| HashTable.UnsafeOverwriteLosesData | virtio/hashtab.c:151-160 | for each old length of 1 to 4 and new one of 5 to 8 there is a table where another key's value changes |
| HashTable.RehashHasRoom | virtio/hashtab.c:62-102 | copying into a larger table always finds an empty slot |
| HashTable.RehashedMap | virtio/hashtab.c:62-102 | copying a slot adds exactly its entry |
| HashTableOps.HashTab.Find | virtio/hashtab.c:212-229 | terminates at the key's slot, at an empty one, or reports a full table |
| HashTableOps.HashTab.HTlookup | virtio/hashtab.c:184-188 | returns the latest value for the key, or none |
| HashTableOps.HashTab.Session | virtio/hashtab.c:62-188 | through any installs, lookups and allocations, each lookup returns the value last installed under its key, until an install panics |
| HashTableOps.HashTab.HTinstall | virtio/hashtab.c:141-182 | sets the map at the key if the overwrite is safe; else gives the memory that results, or says that bytes fall outside the blob; panics exactly when there is no room |
| HashTableOps.LoseData | virtio/hashtab.c:141-182 | three calls on a first table of 4096 slots and 64K, after which one key has another's value |
| HashTableOps.HashTab.Store | virtio/hashtab.c:200-210 | appends bytes at an 8-byte aligned offset |
| HashTableOps.HashTab.Rehash | virtio/hashtab.c:70-90 | the copy holds the same map |
| HashTableOps.HashTab.HTallocate | virtio/hashtab.c:62-102 | keeps the map for any allocation outcome; after a granted growth fewer than half the slots are used |
| HashTableOps.HashTab.ChooseTableSize | virtio/hashtab.c:104-108 | a power of two more than twice the slots used |
| ForkRings.CyclesAreForks | virtio/device-9p.c:1035-1047 | the links are a permutation of the open blocks whose cycles are exactly the blocks of one file and fork |
| ForkRings.SpliceIn | virtio/device-9p.c:1035-1047 | splicing a new block in keeps that |
| ForkRings.SpliceOut | virtio/device-9p.c:1091-1113 | so does taking one out |
| FileIO.Volume.UnivAllocateFCB | virtio/universalfcb.c:33-49 | finds the first free block, or reports that there is none |
| FileIO.Volume.UnivIndexFCB | virtio/universalfcb.c:63-90 | finds the next open block after a given one |
| FileIO.Volume.constructor | virtio/universalfcb.c:33-49 | a table with none of our files open is a sound start |
| FileIO.Volume.Session | virtio/device-9p.c:951-1221 | through any mix of opens, closes, set-EOFs, reads and writes the rings stay whole; and if the forks opened are told apart as the host does, every block agrees with the host on its length |
| HostFiles.LengthsExactly | virtio/device-9p.c:1064-1089 | blocks that agree with the host go on agreeing, whatever length is set through any of them, if and only if two are open on one fork just when they are open on one of the host's files |
| HostFiles.ApartExactly | virtio/device-9p.c:976-1047 | every table of blocks opened among given forks is so if and only if any two of these forks have one number and kind just when they have one file |
| HostFiles.ApartFor | virtio/device-9p.c:976-990 | for both forks of given files, that is so if and only if the files have distinct numbers and none is another's sidecar |
| HostFiles.MarksComeBack | virtio/device-9p.c:1076-1087 | marks beyond a new length come back to it, and others stay |
| FileIO.Volume.Clash | virtio/device-9p.c:951-1089 | for every two forks that are not told apart, opening both and setting a length through one leaves the other block wrong |
| FileIO.StaleLength | virtio/device-9p.c:976-1089 | the resource fork of "foo" and the data fork of "foo.rsrc" |
| FileIO.Volume.FsOpen | virtio/device-9p.c:951-1052 | each error has its own cause, and there is no other; a successful open is on the host's file for that fork, joins the fork's ring and agrees with the host on the length; other blocks keep everything but a link |
| FileIO.Volume.FsClose | virtio/device-9p.c:1091-1113 | leaves the ring; other blocks keep everything but a link |
| FileIO.Volume.FsSetEOF | virtio/device-9p.c:1064-1089 | resizes the host's file, tells every block open on the fork, clamps their marks, and changes no other block or file |
| FileIO.Volume.TellFellows | virtio/device-9p.c:1076-1087 | walking the ring terminates and reaches every fellow |
| FileIO.Volume.Transfer | virtio/device-9p.c:1191-1221 | the chunked loop terminates and equals one transfer, whatever short counts the host returns |
| FileIO.Volume.FsReadWrite | virtio/device-9p.c:1115-1221 | the whole call: bytes moved, mark, count, lengths of all fellows, and errors |
| FileIO.ReadFetches | virtio/device-9p.c:1136-1210 | a Read that succeeds fills the buffer from where the mode says, counted from the start, the end or the mark, and leaves the mark behind it; a short one is eofErr, one before the start posErr |
| FileIO.ReadsLastBytes | virtio/device-9p.c:1142-1144 | reading n bytes from the end with offset -n gives the last n |
| FileIO.WriteStores | virtio/device-9p.c:1136-1210 | a Write that succeeds stores the buffer there byte for byte, zeros in a gap, and changes no other file; a short one is ioErr, without permission wrPermErr |
| FileIO.SetFPosExactly | virtio/device-9p.c:1129-1205 | SetFPos puts the mark where it was asked to, or stops at the end with an error, if and only if the offset passed and the position meant lie on the same side of the end |
| FileIO.SetFPosByMode | virtio/device-9p.c:1140-1149 | what that means for each positioning mode; an offset from the start is always right |
| FileIO.GetFPosExactly | virtio/device-9p.c:1126-1205 | GetFPos answers with the mark if and only if it was passed the mark |
| FileIO.MarkPastEnd | virtio/device-9p.c:1126-1205 | a mark left beyond the end without an error, and a GetFPos that then answers 0 |
| FileIO.PatchTwice | virtio/device-9p.c:1191-1221 | two adjoining writes equal one |
| Wire.DecodeEncode | virtio/9p.c:384-413 | for every format and arguments that fit, reading the body by the 9P layout gives the arguments back |
| Wire.EncodeDecode | virtio/9p.c:545-572 | and whatever can be read is what writing the results would have sent: a body has one reading |
| Wire.MessageHeader | virtio/9p.c:415-418 | the size field equals the bytes sent, lowest byte first; then the type, tag 0 and the body |
| Wire.FieldLayout | virtio/9p.c:384-413 | every field is laid out as in 9P2000, integers with the lowest byte first |
| Wire.ReadBack | virtio/9p.c:31-56 | the READ macros invert the WRITE macros |
| Wire.WriteBack | virtio/9p.c:31-56 | and the other way round |
| Transact.Marshal | virtio/9p.c:384-418 | the buffer filled by moving offsets, followed by the large buffer, is the message |
| Transact.ErrorCode | virtio/9p.c:529-540 | the code of an Rlerror is the little-endian word at bytes 7 to 10 for every split between the two buffers |
| Transact.Unmarshal | virtio/9p.c:542-572 | gives back the results encoded in the reply |
| Transact.ResultBytes | virtio/9p.c:430-458 | the computed reply buffers hold any result that fits, and a large result starts exactly where the trailer does |
| Transact.AnswerBytes | virtio/9p.c:523-541 | type byte 7 tells an error from a result, and both fit the buffers |
| Transact.Transaction | virtio/9p.c:374-577 | a whole exchange returns exactly the server's error code, or exactly its results |
| Listing.Rdbuf.Readdir9 | virtio/9p.c:240-285 | returns the directory's entries in order, then the end, however the server splits them into blocks |
| Listing.FieldsOf | virtio/9p.c:254-279 | the fixed offsets find the fields of an entry |
| DirCache.Cache.GetIndexed | virtio/device-9p.c:686-733 | a call that starts a listing gives the idx-th counted entry, or fnfErr if there are fewer; one that goes on gives the entry that many more places on, whatever kinds of call came before |
| DirCache.Cache.Session | virtio/device-9p.c:686-733 | for any calls on any directories in any order, each is answered as without the cache if the earlier calls on its directory were of its kind or the directory has no folders |
| DirCache.ResumedExactly | virtio/device-9p.c:705-728 | a call that goes on is right if and only if each folder passed was treated as it would treat it, or there is nothing to find either way |
| DirCache.TallyExactly | virtio/device-9p.c:705-728 | the shared count is the one a kind of call would have reached if and only if each folder passed was treated as it would treat it |
| DirCache.MixedCalls | virtio/device-9p.c:686-733 | GetFInfo, then GetCatInfo for the second of two entries: not found |
| DirCache.CountedPrefix | virtio/device-9p.c:705-728 | counting part of a listing agrees with counting it all |
| DirCache.HiddenExactly | virtio/device-9p.c:1815-1829 | hidden are exactly the names that begin with a dot or end in .rsrc, .rdump or .idump |
| DirCache.SidecarsHidden | virtio/device-9p.c:1815-1829 | so the file of a resource fork is never listed |
| DirCache.CountsExactly | virtio/device-9p.c:719-724 | GetFInfo counts the visible entries that are not directories, GetCatInfo all visible ones |
| DirCache.FixedKind | virtio/device-9p.c:1694-1713 | the number made of a listed entry is a directory's exactly if the listing says so |
| Cnid.Qid2Cnid | virtio/device-9p.c:1694-1706 | a number is never an error or reserved, is 2 for the root only, and tells files from directories |
| Cnid.FoldBit | virtio/device-9p.c:1694-1706 | each bit of a number is the exclusive or of the inode's bits at that place, 30 above it and, for four of them, 40 above it |
| Cnid.SameNumber | virtio/device-9p.c:1694-1706 | two files get one number if and only if both are the root, or neither is, they are of one kind, and their inodes fold to numbers that are equal or differ by the lift of a low one |
| Cnid.DistinctNumbers | virtio/device-9p.c:1694-1706 | inodes from 16 to 2^30 - 1, and the root, get numbers of their own |
| Cnid.InodesAreNumbered | virtio/device-9p.c:1694-1706 | when no two of a tree's inodes meet, these are numbers as browse needs them |
| Cnid.SmallInodesNeverMeet | virtio/device-9p.c:1694-1706 | as is so for inodes in that range |
| Cnid.Collision | virtio/device-9p.c:1694-1706 | two inodes with one number |
| Browse.EntryLeads | virtio/device-9p.c:1833-1854 | every database entry reaches the root through its parents by names that lead to that file |
| Browse.SetKeepsRooted | virtio/device-9p.c:1833-1840 | recording a file whose parent is known keeps that |
| Browse.WalkFollows | virtio/9p.c:108-165 | a walk over part of a path passes its files and stops where the path breaks |
| Trail.RecordedExactly | virtio/device-9p.c:1538-1572 | after any path that stays below the root, the database leads to the right files if and only if no place is left falsely recorded, as computed from the components alone |
| Trail.ClimblessExactly | virtio/device-9p.c:1544-1572 | for a path without "..", if and only if each "." comes before the first name |
| Trail.PlainTrail | virtio/device-9p.c:1544-1564 | for a path without "." always: the trail, with dot-dots popped, is the way from the root |
| Trail.NoEntryChanges | virtio/device-9p.c:1554-1572 | when it stays sound, no entry but the root's is lost or changed |
| Trail.RootEntry | virtio/device-9p.c:1554-1572 | the root's own entry changes if and only if the path passes a "." at the root |
| BrowseCases.DotRecordsSelf | virtio/device-9p.c:1544-1572 | looking up ":a:." in a volume of one file records the file as its own child |
| BrowseCases.LeadingDotHarmless | virtio/device-9p.c:1544-1572 | looking up ":.:a" does not |
| BrowseCases.UndoneDotHarmless | virtio/device-9p.c:1544-1572 | nor does a "." undone by the ".." after it |
| BrowseDriver.Volume.SetPath | virtio/device-9p.c:1578-1601 | terminates; gives the known path of a known number and fails for any other |
| BrowseDriver.Volume.AppendRelativePath | virtio/device-9p.c:1606-1651 | appends the parts of a Mac path, empty ones as dot-dot, and fails exactly when room runs out |
| Reading.NamesRead | virtio/device-9p.c:1606-1651 | following the appended components is reading the path character by character: a name leads down, and a colon with no name before it leads to the parent |
| Reading.TooLongExactly | virtio/device-9p.c:1606-1651 | room runs out exactly when some part would be the hundredth-and-first component or a name would end beyond the blob |
| BrowseDriver.Volume.WalkPath | virtio/device-9p.c:1440-1536 | for every path, the walking loop terminates, and fails exactly when the path leads nowhere |
| BrowseDriver.Volume.RecordTrail | virtio/device-9p.c:1542-1572 | the loop over the components records exactly the trail that `Recorded` gives, and passes the file found |
| BrowseDriver.Volume.PathSplitRoot | virtio/device-9p.c:1774-1792 | splits a path after its first name |
| BrowseDriver.Volume.Browse | virtio/device-9p.c:1402-1575 | returns the number of the file that a reading of the path's characters leads to, leaves the fid there, or gives the right error; the database is what was recorded, and sound if and only if no place is left falsely recorded |
| BrowseDriver.AnswerReads | virtio/device-9p.c:1402-1575 | browse's answer is that of the character-by-character reading, for absolute and relative paths |
| BrowseDriver.UpThenName | virtio/device-9p.c:1606-1651 | "::name" in a directory means ":name" in its parent |
| BrowseDriver.Volume.ByIndex | virtio/device-9p.c:686-733 | an entry found by its index is recorded truly, and found again by its own number |
| BrowseDriver.Volume.Session | virtio/device-9p.c:686-733 | through any lookups and indexed entries that leave nothing falsely recorded, every entry ever made stays, is never changed and leads to its file; every file returned is the right one and known from then on |
| MacRoman.NameRoundTrip | virtio/unicode.c:20-93 | conversion to UTF-8 and back is the identity if and only if the name has no zero and no colon and at most 30 characters, or 31 ending in its own hash tag |
| MacRoman.TablesFit | virtio/unicode.c:95-975 | the two tables fit: no encoding starts with 0xcc, and each is read back unambiguously |
| MacRoman.AsciiKept | virtio/unicode.c:77-93 | ASCII characters keep their codes, but for slash and colon, which change places |
| NameConversion.RoundTripExact | virtio/unicode.c:20-93 | the same for any pair of tables that fit |
| NameConversion.RoundTripValue | virtio/unicode.c:20-56 | what comes back in the other cases |
| NameConversion.Mr31Name | virtio/unicode.c:20-56 | the loop, the hash tag and the length byte |
| NameConversion.Mr31Reads | virtio/unicode.c:20-56 | a string of at most 30 known characters becomes those; any other its first 26, with question marks for unknown ones, and its tag |
| NameConversion.HashTagIs | virtio/unicode.c:20-56 | the tag is # and four hexadecimal digits of the polynomial in 31 of all the bytes |
| NameConversion.Utf8Name | virtio/unicode.c:77-93 | the loop writes the encodings one after another |

## Left out

- GpuDriver.Gpu.SendPixels: coordinates are at most 0x7fff, and top and left not negative; they are values, not packed in words.
- VirtqDriver.Virtq.QInit: the ring size is given, a power of two up to 256; negotiation and pages are not modelled.
- VirtqDriver.Virtq.QSend: the panic when descriptors run out is the result false.
- HandshakeDriver.Transport.QInterest: the counter and the flag change in one step.
- HashTableOps.HashTab.HTinstall: keys are not empty, since a key length of 0 marks an empty slot; after an unsafe overwrite only the memory is described, and not at all if bytes fall outside the blob.
- HashTableOps.HashTab.HTallocate: sizes near 2^32 are given up on rather than wrapped.
- Blit.Blit: the top and left edges are not negative and the widened right edge fits a 16-bit integer; the source is a byte sequence.
- Transact.AnswerBytes: the reply buffers together hold an Rlerror, which the code assumes too (virtio/9p.c:457).
- Transact.Transaction: the same; memory locking and physical scatter are replaced by a reply laid over header and trailer buffers.
- DirCache.Cache.GetIndexed: the directory does not change, and its number is not zero.
- BrowseDriver.Volume.Browse: paths that climb back to the root or overrun the fixed arrays are excluded.
- BrowseDriver.Volume.Walk9: one batch of at most 16 names, which is all browse asks for.
- BrowseDriver.Volume.Browse: distinct files have distinct catalogue numbers; the database is a map, as the hash table is proved to be.
- BrowseDriver.Volume.SetPath: path components are a sequence; their addresses inside the blob are not modelled.
- FileIO.Volume.FsOpen: the host has no hard links, and files are neither renamed nor deleted while they are open.
- FileIO.Volume.FsClose: the block is open, which the File System Manager sees to before it calls; a free block's stale link leads into rings it is not in.
- FileIO.Volume.FsSetEOF: the block is open, likewise.
- FileIO.Volume.FsReadWrite: the block is open, likewise.
- The unreachable branch of browse that walks forward again (virtio/device-9p.c:1484-1489).
- The transact of the GPU driver, mode setting, scanout extents, gamma, cursor, input, logging, and scripts: register writes and simple loops.
- HTallocatelater's scheduling test, mr27name, working directories, renaming and deleting: easy members.
- Mac OS Toolbox calls, interrupts below the top half, and the other transport: no visible semantics, or the same shape.
- Real concurrency of two processors: the drivers run on one.
