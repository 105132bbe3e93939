# A verified model of the Nachos kernel, its simulated machine and a pthread pipeline

The project models two programs of one repository.

Nachos (`NachOS-4.0_MP1/code`) is a teaching kernel on a simulated machine. Modelled are

- the file system: packed free-sector bitmap, one-sector headers, flat directory, byte files over
  sectors, formatting, opening, creating and removing on top of them, and copying and printing a file
  (`Words`, `Bytes`, `Bitmap`, `SynchDisk`, `FileHeader`, `OpenFile`, `PersistentBitmap`, `Directory`, `FileSystem`,
  `Shell`);
- threads: semaphores, locks, condition variables, the monitor list, the synchronous disk, the scheduler
  (`Semaphore`, `Lock`, `Condition`, `Monitors`, `SynchList`, `SynchDiskProtocol`, `Scheduler`);
- the simulated hardware: interrupts and clock, disk timing, address translation, the unaligned loads and
  stores with the load delay, multiplication
  (`Interrupt`, `DiskTiming`, `Translate`, `Registers`, `Unaligned`, `UnalignedAccess`, `Machine`, `Multiply`);
- the library: linked and sorted lists on heap nodes, the self-resizing hash table (`List`, `HashTable`).

`Common` holds a few notions that several of them share.

The pipeline (`NTHU-OS-Pthreads`) reads items, transforms them in two stages with a varying number of
cancellable consumers, and writes them: `TSQueue`, `Transformer`, `Workers`, `Pipeline`, `PipelineRuns`.

## How to read it

Code that changes objects is written as classes whose methods are proved against functions of the old
state. Code whose point is concurrency is a step system besides: each action is one atomic segment, which
the source fixes. In Nachos a context switch happens only where interrupts are re-enabled or a thread goes
to sleep; in the pipeline a queue operation is atomic from the lock of its mutex to the unlock or the wait.
Runs are sequences of states and actions, and the theorems about them hold for any number of threads and
any interleaving. The methods of `Monitors` and of the scheduler are proved to be steps of these systems.

Sizes and constants are those of the source: 128-byte sectors, 1024 of them, ten directory entries with
names of nine characters, 128 frames of 128 bytes, four TLB entries.

## Findings

- The pipeline's consumer pool starts empty and is filled only when the worker queue exceeds its high
  threshold of 160. With 1 to 160 items it therefore never writes anything; with more it always can go on
  (`PipelineRuns.DeliversOnlyAboveHigh`).
- The pipeline's result is that of the iterations on integers, for an item, if and only if the item's value
  times the producer's multiplier plus its increment is below 2^64. Otherwise the very first step wraps, and no
  later step of either stage makes up for it (`Transformers.ItemExactIff`, `PipelineRuns.OutputExactIff`; an
  item with a wrong final value is in `Transformers.WrapExample`).
- The unaligned pair of loads has the right second address if and only if its base register still has the same
  value by then: a load of another value may have been pending into it, or an interrupt may have put the first
  half into it, if it is the target as well
  (`UnalignedAccess.SecondAddressIff`, `UnalignedAccess.LoadRightIff`; a state with a wrong result is in
  `UnalignedAccess.BaseOverwritten`). For the pair of stores the same holds of a load pending into the base, and
  one pending into the stored register changes what the second half stores (`UnalignedAccess.SecondStoreIff`,
  `UnalignedAccess.SettledStoreRightIff`, `UnalignedAccess.BasePending`).
- The comment of `lib/hash.cc` speaks of an array of sorted lists; the code uses plain lists, and so does
  the model. The comment on `valid` in `machine/translate.h` says the opposite of what the code does.
- `Mult` negates operands in C `int`s. For the most negative one the model takes the two's-complement
  result, its own value, on which the result is still exact.

## Model

| member | source | states |
|---|---|---|
| `Words.TestMask` | `NachOS-4.0_MP1/code/lib/bitmap.cc:90-100` | `w & (1 << k)` is nonzero exactly if bit k of the word is set, the operators being defined digit by digit |
| `Words.SetMask` | `NachOS-4.0_MP1/code/lib/bitmap.cc:56-62` | `w \| (1 << k)` sets bit k and touches no other bit |
| `Words.ClearMask` | `NachOS-4.0_MP1/code/lib/bitmap.cc:73-79` | `w & ~(1 << k)` clears bit k and touches no other bit |
| `Bitmaps.Bitmap.constructor` | `NachOS-4.0_MP1/code/lib/bitmap.cc:21-35` | a new bitmap has every bit clear |
| `Bitmaps.Bitmap.Mark` | `NachOS-4.0_MP1/code/lib/bitmap.cc:56-62` | of the packed words, exactly the named bit becomes set |
| `Bitmaps.Bitmap.Clear` | `NachOS-4.0_MP1/code/lib/bitmap.cc:73-79` | of the packed words, exactly the named bit becomes clear |
| `Bitmaps.Bitmap.Test` | `NachOS-4.0_MP1/code/lib/bitmap.cc:90-100` | reads the named bit of the packed words |
| `Bitmaps.Bitmap.FindAndSet` | `NachOS-4.0_MP1/code/lib/bitmap.cc:111-120` | takes the lowest clear bit and sets only it; returns -1, changing nothing, exactly if no bit is clear |
| `Bitmaps.Bitmap.NumClear` | `NachOS-4.0_MP1/code/lib/bitmap.cc:129-139` | counts the clear bits |
| `Bitmaps.CountClearSet` | `NachOS-4.0_MP1/code/lib/bitmap.cc:111-139` | setting a clear bit lowers the count of clear bits by one, so NumClear says how often FindAndSet succeeds |
| `Bitmaps.CountClearZero` | `NachOS-4.0_MP1/code/lib/bitmap.cc:111-139` | the count is zero exactly if every bit is set |
| `FileHeaders.HeaderRoundTrip` | `NachOS-4.0_MP1/code/filesys/filehdr.cc:84-101` | a header read back from its sector is the header that was written |
| `FileHeaders.HeaderLayout` | `NachOS-4.0_MP1/code/filesys/filehdr.h:60-64` | the sector holds, in four bytes each, the length, the number of blocks and the blocks, in this order |
| `FileHeaders.DivRoundUp` | `NachOS-4.0_MP1/code/lib/utility.h:25` | the least number of pieces that hold n |
| `FileHeaders.FileHeader.Allocate` | `NachOS-4.0_MP1/code/filesys/filehdr.cc:44-60` | succeeds exactly if the clear sectors can hold the bytes, otherwise leaves the bitmap alone; the data sectors are then the least number that holds them, the lowest clear ones, in increasing order, and exactly they become set; its assertion never fails |
| `FileHeaders.FileHeader.Deallocate` | `NachOS-4.0_MP1/code/filesys/filehdr.cc:68-77` | clears exactly the data sectors, each of which is found marked, as the assertion demands |
| `FileHeaders.FileHeader.FetchFrom` | `NachOS-4.0_MP1/code/filesys/filehdr.cc:84-88` | the object becomes the header stored in the sector |
| `FileHeaders.FileHeader.WriteBack` | `NachOS-4.0_MP1/code/filesys/filehdr.cc:97-101` | the sector, and no other, becomes the encoding of the header, which decodes to the header |
| `FileHeaders.FileHeader.ByteToSector` | `NachOS-4.0_MP1/code/filesys/filehdr.cc:113-117` | for an offset within the file, a sector of the file: on any disk, the byte at the remaining offset in it is the byte of the file's contents at that offset |
| `FileHeaders.AllocatedCount` | `NachOS-4.0_MP1/code/filesys/filehdr.cc:44-60` | an allocation of n sectors uses up exactly n clear bits |
| `OpenFiles.OpenFile.constructor` | `NachOS-4.0_MP1/code/filesys/openfile.cc:29-35` | caches the header of the file and starts at position 0 |
| `OpenFiles.OpenFile.ReadAt` | `NachOS-4.0_MP1/code/filesys/openfile.cc:115-142` | for positions from 0 on, with position plus length within an int, the result is the number of bytes that lie in the file, and the buffer receives exactly that slice of the file's contents |
| `OpenFiles.OpenFile.WriteAt` | `NachOS-4.0_MP1/code/filesys/openfile.cc:144-183` | for positions from 0 on, with position plus length within an int, the contents become the old ones with the clipped range replaced; all other bytes of the file, through partial first and last sectors, and all sectors of other files are unchanged |
| `OpenFiles.OpenFile.ReadSectors` | `NachOS-4.0_MP1/code/filesys/openfile.cc:126-141` | within the file, whole-sector reads and one copy give exactly the requested slice |
| `OpenFiles.OpenFile.WriteSectors` | `NachOS-4.0_MP1/code/filesys/openfile.cc:152-182` | within the file, the read-modify-write of whole sectors replaces exactly the requested range |
| `OpenFiles.OpenFile.PrepareBuffer` | `NachOS-4.0_MP1/code/filesys/openfile.cc:158-176` | the buffer written back holds the old bytes at both edges and the new ones between |
| `OpenFiles.OpenFile.Read` | `NachOS-4.0_MP1/code/filesys/openfile.cc:73-79` | reads at the seek position and moves it by the number of bytes read |
| `OpenFiles.OpenFile.Write` | `NachOS-4.0_MP1/code/filesys/openfile.cc:81-87` | writes at the seek position and moves it by the number of bytes written |
| `OpenFiles.EdgesRead` | `NachOS-4.0_MP1/code/filesys/openfile.cc:165-172` | reading the first and the last sector, each only if it is partly overwritten, puts in place every byte that the new ones do not cover |
| `OpenFiles.LoadedContents` | `NachOS-4.0_MP1/code/filesys/openfile.cc:129-140` | the sectors of a range, read one after the other, contain the requested slice of the contents |
| `OpenFiles.FlushedContents` | `NachOS-4.0_MP1/code/filesys/openfile.cc:176-180` | writing a buffer over a range of sectors gives exactly the contents that the buffer stands for |
| `OpenFiles.ContentsFrame` | `NachOS-4.0_MP1/code/filesys/openfile.cc:115-183` | a file's contents depend only on the sectors of its header |
| `Bytes.WordsRoundTrip` | `NachOS-4.0_MP1/code/filesys/pbitmap.cc:63-79` | an array of words survives being laid out in bytes and read back |
| `PersistentBitmaps.BitmapLayout` | `NachOS-4.0_MP1/code/filesys/pbitmap.cc:63-79` | the bit of sector s is bit s modulo 8 of byte s / 8 of the file |
| `PersistentBitmaps.FetchFrom` | `NachOS-4.0_MP1/code/filesys/pbitmap.cc:63-67` | the bitmap becomes the one that the bytes of its file stand for |
| `PersistentBitmaps.WriteBack` | `NachOS-4.0_MP1/code/filesys/pbitmap.cc:76-79` | the bytes of the bitmap's file come to stand for it, and only that file's sectors change |
| `Directories.StrncmpMeansSameKey` | `NachOS-4.0_MP1/code/filesys/directory.cc:90-97` | the bounded comparison of a stored with a given name is zero exactly if both agree up to the end of the string or the ninth character |
| `Directories.StrncpyStoresKey` | `NachOS-4.0_MP1/code/filesys/directory.cc:129-143` | a name copied into an entry compares equal to exactly the names with the same first nine characters |
| `Directories.TableRoundTrip` | `NachOS-4.0_MP1/code/filesys/directory.cc:63-79` | the table survives being written to and read from its file |
| `Directories.TableLayout` | `NachOS-4.0_MP1/code/filesys/directory.h:32-39` | of the twenty bytes of each entry, where its use flag, its sector and its ten name bytes are |
| `Directories.Directory.FetchFrom` | `NachOS-4.0_MP1/code/filesys/directory.cc:63-66` | the table becomes the one in the directory's file |
| `Directories.Directory.WriteBack` | `NachOS-4.0_MP1/code/filesys/directory.cc:76-79` | the file comes to hold the table, and only its own sectors change |
| `Directories.Directory.FindIndex` | `NachOS-4.0_MP1/code/filesys/directory.cc:90-97` | the first used entry with that name, or -1 exactly if there is none |
| `Directories.Directory.Find` | `NachOS-4.0_MP1/code/filesys/directory.cc:108-115` | the sector recorded under a name, or -1 exactly if the name is absent |
| `Directories.Directory.Add` | `NachOS-4.0_MP1/code/filesys/directory.cc:129-145` | succeeds exactly if the name is absent and an entry is free; then the first free entry, and no other, maps the name to the sector |
| `Directories.Directory.Remove` | `NachOS-4.0_MP1/code/filesys/directory.cc:153-162` | frees exactly the entry of the name, or fails and changes nothing |
| `FileSystems.SystemSeparate` | `NachOS-4.0_MP1/code/filesys/filesys.cc:81-143` | the two header sectors and the blocks of the bitmap and the directory never overlap |
| `FileSystems.FileSeparate` | `NachOS-4.0_MP1/code/filesys/filesys.cc:174-286` | no sector of a file is one of the system's, and its header sector is none of its own data sectors |
| `FileSystems.FilesDisjoint` | `NachOS-4.0_MP1/code/filesys/filesys.cc:174-286` | two files share no sector |
| `FileSystems.FileMarked` | `NachOS-4.0_MP1/code/filesys/filesys.cc:174-286` | every sector of every file is marked in the bitmap, and none belongs to the bitmap or the directory |
| `FileSystems.CreateKeepsInv` | `NachOS-4.0_MP1/code/filesys/filesys.cc:174-219` | creation keeps the ownership invariant: each set bit of the bitmap is owned exactly once, each clear one not at all, and names differ within nine characters |
| `FileSystems.RemoveKeepsInv` | `NachOS-4.0_MP1/code/filesys/filesys.cc:256-286` | removal keeps the ownership invariant |
| `FileSystems.WriteKeepsInv` | `NachOS-4.0_MP1/code/filesys/filesys.cc:174-286` | writing through an open file keeps the ownership invariant, the bitmap and the directory |
| `FileSystems.RunKeepsInv` | `NachOS-4.0_MP1/code/filesys/filesys.cc:81-286` | the ownership invariant holds after any sequence of creations, removals and writes, successful or not |
| `FileSystems.CreateKeepsFiles` | `NachOS-4.0_MP1/code/filesys/filesys.cc:174-219` | a created file has the requested length, and every other file keeps its name and bytes |
| `FileSystems.RemoveKeepsFiles` | `NachOS-4.0_MP1/code/filesys/filesys.cc:256-286` | a removed name is gone, and every other file keeps its name and bytes |
| `FileSystems.WriteKeepsFiles` | `NachOS-4.0_MP1/code/filesys/filesys.cc:226-240` | a write replaces just its range in just its file |
| `FileSystems.CreateThenRemove` | `NachOS-4.0_MP1/code/filesys/filesys.cc:174-286` | removing what was just created restores the bitmap bit for bit and the map from names to entries |
| `FileSystems.FormatFlushes` | `NachOS-4.0_MP1/code/filesys/filesys.cc:81-143` | the three flushes of formatting establish the ownership invariant with an empty directory |
| `FileSystems.CreateFlushes` | `NachOS-4.0_MP1/code/filesys/filesys.cc:204-212` | flushing header, directory and bitmap one after the other adds up to the creation of the file |
| `FileSystems.RemoveFlushes` | `NachOS-4.0_MP1/code/filesys/filesys.cc:274-281` | flushing bitmap and directory one after the other adds up to the removal of the file |
| `FileSystems.FileSystem.Format` | `NachOS-4.0_MP1/code/filesys/filesys.cc:81-143` | from any disk contents, formatting gives a consistent disk without files; the bitmap is a file of 128 bytes with its header in sector 0, the directory one of 200 bytes with its in sector 1 |
| `FileSystems.FileSystem.Mount` | `NachOS-4.0_MP1/code/filesys/filesys.cc:144-151` | opening a consistent disk changes nothing |
| `FileSystems.FileSystem.Open` | `NachOS-4.0_MP1/code/filesys/filesys.cc:226-240` | fails exactly if the name is absent; otherwise the open file has the header stored in the header sector of the entry of that name, and so its contents |
| `FileSystems.WriteIsStep` | `NachOS-4.0_MP1/code/filesys/filesys.cc:226-240` | splicing bytes into a file through a header that is the one of its entry is a write step of the file system: the ownership invariant, both system files and the header stay, the file has the spliced bytes, every other file its old ones |
| `FileSystems.FileSystem.WriteOpened` | `NachOS-4.0_MP1/code/filesys/openfile.cc:144-183` | a write through a file that was opened is that step, of the clipped range; a write of nothing changes nothing |
| `FileSystems.FileIsUnique` | `NachOS-4.0_MP1/code/filesys/filesys.cc:226-240` | a name has at most one file |
| `FileSystems.FileSystem.Create` | `NachOS-4.0_MP1/code/filesys/filesys.cc:174-219` | succeeds exactly if the name is new, an entry is free and the clear sectors but one can hold the bytes; then the header takes the lowest clear sector, and the data the least number of sectors that holds them; on failure the disk is unchanged |
| `FileSystems.FileSystem.Remove` | `NachOS-4.0_MP1/code/filesys/filesys.cc:256-286` | succeeds exactly if the name is present, freeing exactly that file's sectors; on failure the disk is unchanged |
| `Shell.CopyInto` | `NachOS-4.0_MP1/code/threads/main.cc:111-114` | writing the data in chunks of 128 bytes makes it the contents of the file, touching only its sectors |
| `Shell.Copy` | `NachOS-4.0_MP1/code/threads/main.cc:80-119` | a new file of that name with exactly the data, every other file unchanged; fails exactly if it cannot be created, and then changes nothing |
| `Shell.Print` | `NachOS-4.0_MP1/code/threads/main.cc:128-148` | puts out exactly the contents of the file, or reports exactly that there is none |
| `Shell.CopyThenPrint` | `NachOS-4.0_MP1/code/threads/main.cc:80-148` | printing a file gives what was copied into it |
| `Semaphores.Semaphore.PTest` | `NachOS-4.0_MP1/code/threads/synch.cc:75-93` | one pass through the loop of P: with the value 0 the thread joins the end of the queue, otherwise it takes a unit |
| `Semaphores.Semaphore.Vee` | `NachOS-4.0_MP1/code/threads/synch.cc:103-119` | V adds a unit and readies the first sleeper |
| `Semaphores.TestKeepsInv` | `NachOS-4.0_MP1/code/threads/synch.cc:75-93` | any thread's test keeps the semaphore invariant, barging included, and a thread that goes to sleep is not queued already |
| `Semaphores.VKeepsInv` | `NachOS-4.0_MP1/code/threads/synch.cc:103-119` | V keeps the invariant: while somebody sleeps, the value is at most the number of woken threads that have not tested again |
| `Semaphores.NoneStranded` | `NachOS-4.0_MP1/code/threads/synch.cc:75-119` | if nobody is about to test again, a positive value means that nobody sleeps |
| `SemaphoreRuns.SemaphoreSafe` | `NachOS-4.0_MP1/code/threads/synch.cc:75-119` | over all runs of any number of threads the value is the initial one plus completed V's minus completed P's, never negative, and no sleeper is stranded |
| `SemaphoreRuns.WakeOrder` | `NachOS-4.0_MP1/code/threads/synch.cc:75-119` | in every run the thread at position k of the queue is the one made ready by the (k+1)-th V from there on |
| `SemaphoreRuns.SleeperTurn` | `NachOS-4.0_MP1/code/threads/synch.cc:75-119` | a thread that goes to sleep is made ready by the V that follows one for each thread asleep before it |
| `Locks.Lock.TestAcquire` | `NachOS-4.0_MP1/code/threads/synch.cc:183-187` | one test of the lock's semaphore |
| `Locks.Lock.Release` | `NachOS-4.0_MP1/code/threads/synch.cc:200-205` | by the holder only: clears the holder and readies the first sleeper |
| `Locks.MutualExclusion` | `NachOS-4.0_MP1/code/threads/synch.cc:183-205` | at most one thread is between P and V of a lock, from the semaphore count alone |
| `Locks.AcquireKeepsInv` | `NachOS-4.0_MP1/code/threads/synch.cc:183-187` | a test of the lock by any thread outside keeps the lock invariant |
| `Locks.HoldKeepsInv` | `NachOS-4.0_MP1/code/threads/synch.cc:183-187` | recording the holder keeps the lock invariant |
| `Locks.ReleaseKeepsInv` | `NachOS-4.0_MP1/code/threads/synch.cc:200-205` | release by the holder keeps the lock invariant |
| `Locks.QuietIsFree` | `NachOS-4.0_MP1/code/threads/synch.cc:183-205` | when nobody is inside or on the way in, the lock is free and nobody sleeps on it |
| `Conditions.Condition.StartWait` | `NachOS-4.0_MP1/code/threads/synch.cc:246-258` | a new semaphore is in the queue before the lock is released |
| `Conditions.Condition.Signal` | `NachOS-4.0_MP1/code/threads/synch.cc:275-285` | the first waiter's semaphore, and no other, gets a V |
| `Conditions.Condition.Broadcast` | `NachOS-4.0_MP1/code/threads/synch.cc:294-299` | every waiter's semaphore gets exactly one V, in the order of the queue, which ends up empty |
| `SynchLists.AppendStep` | `NachOS-4.0_MP1/code/threads/synchlist.cc:52-61` | appending and signalling keeps the monitor's invariant |
| `SynchLists.WaitStep` | `NachOS-4.0_MP1/code/threads/synchlist.cc:70-81` | finding the list empty, queueing up and releasing the lock keeps the invariant |
| `SynchLists.TakeStep` | `NachOS-4.0_MP1/code/threads/synchlist.cc:70-81` | taking the first item and releasing the lock keeps the invariant |
| `SynchLists.RunKeepsInv` | `NachOS-4.0_MP1/code/threads/synchlist.cc:51-81` | over all interleavings: no assertion fails; the wait queue holds exactly the unsignalled waiters; while there is one, the list is no longer than the number of signalled threads yet to look; items leave once, in append order |
| `SynchLists.QuietMeansEmpty` | `NachOS-4.0_MP1/code/threads/synchlist.cc:51-81` | when no thread can go on, whoever is left waits for an item of an empty list |
| `SynchLists.CanStepMeansEnabled` | `NachOS-4.0_MP1/code/threads/synchlist.cc:51-81` | a thread that is neither idle nor asleep has a step to take |
| `SynchLists.SignalReaches` | `NachOS-4.0_MP1/code/threads/synch.cc:275-285` | the signal of an append reaches the first waiter, before or after that has gone to sleep on its semaphore; a sleeping one is woken |
| `SynchLists.SignalIsKept` | `NachOS-4.0_MP1/code/threads/synch.cc:246-285` | in every run, whatever other threads do after that signal, the waiter's next test of its semaphore lets it go on |
| `SynchDiskProtocol.RunKeepsInv` | `NachOS-4.0_MP1/code/filesys/synchdisk.cc:57-94` | over all interleavings, lock, completion semaphore and disk agree, and the sectors are those of the requests performed one after the other |
| `SynchDiskProtocol.SynchDiskSafe` | `NachOS-4.0_MP1/code/filesys/synchdisk.cc:57-94` | the disk is never asked while active, a thread returns only after the interrupt for its own request, and a free lock means an idle disk and completion semaphore 0 |
| `SynchDiskProtocol.QuietMeansDone` | `NachOS-4.0_MP1/code/filesys/synchdisk.cc:57-94` | when no thread can go on and no interrupt is due, every call has returned |
| `SynchDiskProtocol.CanStepMeansEnabled` | `NachOS-4.0_MP1/code/filesys/synchdisk.cc:57-94` | a thread that is neither idle nor asleep has a step to take |
| `Monitors.SynchList.constructor` | `NachOS-4.0_MP1/code/threads/synchlist.cc:22-27` | the object represents the initial state of the step system |
| `Monitors.SynchList.TestLock` | `NachOS-4.0_MP1/code/threads/synch.cc:183-187` | a test of the lock's semaphore, on the objects, is that step of the monitor's step system, and keeps its invariant |
| `Monitors.SynchList.Append` | `NachOS-4.0_MP1/code/threads/synchlist.cc:53-60` | from the lock's P to the end of the signal: a step of the step system, keeping its invariant; the item comes last, and the thread made ready is the one asleep on the first waiter's semaphore |
| `Monitors.SynchList.RemoveFront` | `NachOS-4.0_MP1/code/threads/synchlist.cc:71-81` | one look at the list under the lock is a step of the step system, keeping its invariant: takes the first item, or queues up a new waiter |
| `Monitors.SynchList.TestWaiter` | `NachOS-4.0_MP1/code/threads/synch.cc:246-258` | a waiter's test of its own semaphore is that step of the step system |
| `Monitors.SynchList.Return` | `NachOS-4.0_MP1/code/threads/synchlist.cc:59-60` | the release of the lock is that step of the step system |
| `Monitors.SynchDisk.constructor` | `NachOS-4.0_MP1/code/filesys/synchdisk.cc:29-34` | the object represents the initial state of the step system |
| `Monitors.SynchDisk.TestLock` | `NachOS-4.0_MP1/code/threads/synch.cc:183-187` | a test of the lock's semaphore is that step of the disk's step system, and keeps its invariant |
| `Monitors.SynchDisk.IssueRead` | `NachOS-4.0_MP1/code/filesys/synchdisk.cc:58-64` | recording the holder, the request and the first test of the completion semaphore are a step of the step system; the disk is found idle and the sector is read |
| `Monitors.SynchDisk.IssueWrite` | `NachOS-4.0_MP1/code/filesys/synchdisk.cc:76-82` | the same for a write, which changes just that sector |
| `Monitors.SynchDisk.TestCompletion` | `NachOS-4.0_MP1/code/threads/synch.cc:75-93` | another test of the completion semaphore is that step of the step system |
| `Monitors.SynchDisk.CallBack` | `NachOS-4.0_MP1/code/filesys/synchdisk.cc:91-94` | the interrupt is that step of the step system; the thread made ready is the one asleep on the completion semaphore |
| `Monitors.SynchDisk.Return` | `NachOS-4.0_MP1/code/filesys/synchdisk.cc:63-65` | the release of the lock is that step of the step system, and comes after the interrupt for the thread's own request |
| `Scheduling.NextKeepsInv` | `NachOS-4.0_MP1/code/threads/thread.cc:91-256` | each of fork, yield, sleep, finish, wake-up, dispatch and destruction keeps every thread in exactly one place and meets its assertions |
| `Scheduling.SchedulerSafe` | `NachOS-4.0_MP1/code/threads/scheduler.cc:56-167` | over all runs each thread is in exactly one place, no assertion fails, and a thread to be destroyed exists only between a switch and the check that follows it |
| `Scheduling.DestroyedForGood` | `NachOS-4.0_MP1/code/threads/scheduler.cc:160-167` | a destroyed thread never runs, waits or is destroyed again |
| `Scheduling.DispatchOrder` | `NachOS-4.0_MP1/code/threads/scheduler.cc:56-84` | the thread at position k of the ready list is dispatched by the (k+1)-th dequeue |
| `Scheduling.WakeOrder` | `NachOS-4.0_MP1/code/threads/synch.cc:75-119` | the thread at position k of a semaphore's queue is put at the end of the ready list by the (k+1)-th wake-up of that semaphore |
| `Scheduling.SleepsLast` | `NachOS-4.0_MP1/code/threads/synch.cc:83-87` | a thread goes to sleep behind all who sleep on that semaphore already |
| `Scheduling.AlwaysAStep` | `NachOS-4.0_MP1/code/threads/thread.cc:91-256` | the kernel can always go on, unless the CPU looks for a thread and none is ready |
| `Scheduling.Scheduler.FindNextToRun` | `NachOS-4.0_MP1/code/threads/scheduler.cc:74-84` | takes the front of the ready list, or reports that there is none |
| `Scheduling.Scheduler.CheckToBeDestroyed` | `NachOS-4.0_MP1/code/threads/scheduler.cc:160-167` | keeps the invariant and destroys exactly the thread noted as finished, if any; that is never the running one, and no list holds a destroyed thread |
| `Scheduling.Scheduler.Fork` | `NachOS-4.0_MP1/code/threads/thread.cc:91-105` | a step of the step system: the thread is ready, at the end of the list |
| `Scheduling.Scheduler.Yield` | `NachOS-4.0_MP1/code/threads/thread.cc:200-216` | a step of the step system: the front of the ready list runs and the current thread goes to its end; with an empty list nothing changes |
| `Scheduling.Scheduler.StartSleep` | `NachOS-4.0_MP1/code/threads/thread.cc:238-253` | a step of the step system: the thread is blocked, at the end of the semaphore's queue if it is to wait on one |
| `Scheduling.Scheduler.EndSleep` | `NachOS-4.0_MP1/code/threads/thread.cc:251-256` | a step of the step system, also when a thread resumes itself: the front of the ready list runs, and a thread that has finished is noted for destruction |
| `Scheduling.Scheduler.Wake` | `NachOS-4.0_MP1/code/threads/synch.cc:103-119` | a V moves the first sleeper of its queue to the ready list |
| `TSQueues.TSQueue.constructor` | `NTHU-OS-Pthreads/ts_queue.hpp:54-64` | an empty queue over a new buffer |
| `TSQueues.TSQueue.Enqueue` | `NTHU-OS-Pthreads/ts_queue.hpp:76-86` | with room, appends the item to the sequence that the ring buffer stands for |
| `TSQueues.TSQueue.Dequeue` | `NTHU-OS-Pthreads/ts_queue.hpp:89-100` | when not empty, takes the first item of that sequence |
| `Pipelines.StoreKeepsQueue` | `NTHU-OS-Pthreads/ts_queue.hpp:76-86` | one pass of an enqueuer keeps every queue's invariant: while a dequeuer waits each item has a woken one coming for it, while an enqueuer waits each free slot has |
| `Pipelines.FetchKeepsQueue` | `NTHU-OS-Pthreads/ts_queue.hpp:89-100` | one pass of a dequeuer keeps that invariant |
| `Pipelines.NextKeepsQueue` | `NTHU-OS-Pthreads/ts_queue.hpp:75-100` | every step of any thread or the controller keeps that invariant, so one signal per operation suffices |
| `PipelineRuns.QueueIsFifo` | `NTHU-OS-Pthreads/ts_queue.hpp:75-100` | in every run, items leave each queue in the order in which they entered it |
| `PipelineRuns.ReadInOrder` | `NTHU-OS-Pthreads/reader.hpp:45-55` | the lines enter the input queue in the order of the file |
| `PipelineRuns.WrittenInOrder` | `NTHU-OS-Pthreads/writer.hpp:46-56` | items are written in the order in which they leave the writer's queue |
| `Pipelines.StoreKeepsFlow` | `NTHU-OS-Pthreads/ts_queue.hpp:76-86` | an enqueuer's pass leaves every input line in as many places as before |
| `Pipelines.StoreKeepsValues` | `NTHU-OS-Pthreads/ts_queue.hpp:76-86` | and every item with the value of its line after exactly the stages it has passed |
| `Pipelines.FetchKeepsFlow` | `NTHU-OS-Pthreads/ts_queue.hpp:89-100` | a dequeuer's pass leaves every input line in as many places as before |
| `Pipelines.FetchKeepsValues` | `NTHU-OS-Pthreads/ts_queue.hpp:89-100` | and every item with the value of its line after exactly the stages it has passed |
| `Pipelines.LocalKeepsFlow` | `NTHU-OS-Pthreads/reader.hpp:45-55` | work between two queue operations moves no line; reading adds exactly the next one |
| `Pipelines.LocalKeepsValues` | `NTHU-OS-Pthreads/producer.hpp:40-51` | the work of a stage takes an item from the right value before the stage to the right one after it |
| `Pipelines.NextKeepsConserved` | `NTHU-OS-Pthreads/consumer.hpp:48-72` | each line read so far is in exactly one place, a queue, a thread or the output, with the value of that line after exactly the stages passed there, whatever consumers are created and cancelled |
| `PipelineRuns.NextKeepsShape` | `NTHU-OS-Pthreads/consumer_controller.hpp:74-95` | threads keep their roles; the controller's vector holds distinct, never cancelled consumers and, once filled, is never empty; reader and writer stop after exactly n items |
| `PipelineRuns.ScalesWhen` | `NTHU-OS-Pthreads/main.cpp:42-49` | the controller may create a consumer exactly above 80 percent of the 200 slots, and cancel one exactly below 20 percent and with two or more |
| `PipelineRuns.HiresOne` | `NTHU-OS-Pthreads/consumer_controller.hpp:78-85` | above the high threshold one consumer is created, at the end of the vector, and can start |
| `PipelineRuns.CancelsTheNewest` | `NTHU-OS-Pthreads/consumer_controller.hpp:86-92` | below the low threshold the consumer created last of those in the vector is cancelled, and no other |
| `PipelineRuns.RunKeepsInv` | `NTHU-OS-Pthreads/main.cpp:19-75` | all of this holds in every state of every run |
| `PipelineRuns.OutputComplete` | `NTHU-OS-Pthreads/writer.hpp:46-56` | when n items are written they are the first n input lines, each exactly once, each item its line taken through both transformations, and nothing is left over |
| `PipelineRuns.OutputAsMultiset` | `NTHU-OS-Pthreads/writer.hpp:46-56` | so, as multisets, the output is the results of the first n lines |
| `PipelineRuns.OutputExactIff` | `NTHU-OS-Pthreads/transformer.cpp:108-113` | a written item is what the iterations on integers make of its line if and only if that line's first product and sum fit in 64 bits |
| `PipelineRuns.OutputExact` | `NTHU-OS-Pthreads/transformer.cpp:108-113` | if all of them fit, the whole output is that of the iterations on integers |
| `PipelineRuns.NeverStuck` | `NTHU-OS-Pthreads/ts_queue.hpp:75-100` | with one consumer in the vector, some thread can always make progress before n items are written |
| `PipelineRuns.CanMoveMeansEnabled` | `NTHU-OS-Pthreads/ts_queue.hpp:75-100` | a thread that can make progress has a step to take |
| `PipelineRuns.DeliversOnlyAboveHigh` | `NTHU-OS-Pthreads/consumer_controller.hpp:78-92` | when the controller sees true sizes, n up to the high threshold means that nothing is ever written, and n above it that there is always a way on |
| `PipelineRuns.MovesAreBounded` | `NTHU-OS-Pthreads/main.cpp:19-75` | no schedule makes progress forever: at most 12 n + 2 moves, and one more per consumer created |
| `Transformers.Transform` | `NTHU-OS-Pthreads/transformer.cpp:108-113` | the loop computes the iteration with 64-bit wrap-around and leaves the counter at -1 |
| `Transformers.KnownSteps` | `NTHU-OS-Pthreads/transformer.cpp:6-106` | what each row of both tables makes of 0 and of 1 in one step, and how many steps it takes |
| `Transformers.TablesAreSmall` | `NTHU-OS-Pthreads/transformer.cpp:6-106` | with the parameters of both tables a step from below the modulus cannot wrap |
| `Transformers.WrapsOnlyAtStart` | `NTHU-OS-Pthreads/transformer.cpp:108-113` | some step wraps exactly if the very first one does |
| `Transformers.NoWrapNoDifference` | `NTHU-OS-Pthreads/transformer.cpp:108-113` | without a first wrap the machine iterates as on integers |
| `Transformers.FirstStepDiffers` | `NTHU-OS-Pthreads/transformer.cpp:108-113` | with a multiplier and 2^64 invertible modulo m, a first step that wraps has another result than on integers |
| `Transformers.WrapIsNeverUndone` | `NTHU-OS-Pthreads/transformer.cpp:108-113` | and so has every later number of steps: no later step makes up for it |
| `Transformers.ExactIffFirstFits` | `NTHU-OS-Pthreads/transformer.cpp:108-113` | the machine's result equals the one on integers, after any positive number of steps, if and only if the very first product and sum fit in 64 bits |
| `Transformers.TablesExactIff` | `NTHU-OS-Pthreads/transformer.cpp:6-113` | this holds for every row of both tables at its own number of iterations |
| `Transformers.ItemExactIff` | `NTHU-OS-Pthreads/transformer.cpp:6-113` | after both stages an item has the value of the iterations on integers if and only if its first product and sum fit |
| `Transformers.WrapExample` | `NTHU-OS-Pthreads/transformer.cpp:6-113` | an item whose final value, after all 18 million iterations, is not the one on integers |
| `Transformers.IterateClosedForm` | `NTHU-OS-Pthreads/transformer.cpp:108-113` | k steps amount to a^k v + b (1 + ... + a^(k-1)), modulo m |
| `Transformers.StagesDoNotWrap` | `NTHU-OS-Pthreads/transformer.cpp:6-113` | an item whose first producer step fits wraps in neither stage |
| `Transformers.ProducerTransform` | `NTHU-OS-Pthreads/transformer.cpp:6-55` | the producer's table and loop give the item's value after its first stage |
| `Transformers.ConsumerTransform` | `NTHU-OS-Pthreads/transformer.cpp:57-106` | the consumer's table and loop give the item's value after its second stage |
| `Workers.Reader.Process` | `NTHU-OS-Pthreads/reader.hpp:45-55` | whatever the producers take out in between, the queue ends up with what it held and the expected lines, in order, less what was taken from the front; the counter ends at -1 |
| `Workers.Producer.Pass` | `NTHU-OS-Pthreads/producer.hpp:40-51` | one round moves the first input item, transformed, to the end of the worker queue |
| `Workers.Consumer.Pass` | `NTHU-OS-Pthreads/consumer.hpp:48-72` | one round moves the first worker item, transformed, to the end of the writer queue, or does nothing once cancelled |
| `Workers.Writer.Process` | `NTHU-OS-Pthreads/writer.hpp:46-56` | whatever the consumers put in between, exactly the expected number of items is written, in queue order; what is written and what is left are what was there and what was put in |
| `Workers.ConsumerController.Pass` | `NTHU-OS-Pthreads/consumer_controller.hpp:74-95` | adds a consumer above the high threshold; below the low one cancels the last, unless it is the only one |
| `Multiply.AddWithCarry` | `NachOS-4.0_MP1/code/machine/mipssim.cc:807-810` | adding with the carry test adds double words |
| `Multiply.ShiftLeft` | `NachOS-4.0_MP1/code/machine/mipssim.cc:814-818` | the shift across both words doubles a double word |
| `Multiply.Complement` | `NachOS-4.0_MP1/code/machine/mipssim.cc:824-828` | the inversion, increment and carry negate a double word |
| `Multiply.MultiplyUnsigned` | `NachOS-4.0_MP1/code/machine/mipssim.cc:801-820` | the loop, with its arithmetic shift and early exit, computes the exact product of the operands read as unsigned |
| `Multiply.Mult` | `NachOS-4.0_MP1/code/machine/mipssim.cc:775-832` | hi and lo hold the exact 64-bit product for all operands, signed and unsigned, the most negative included |
| `Lists.List.Append` | `NachOS-4.0_MP1/code/lib/list.cc:73-89` | the chain from first to last stays intact and the item comes last |
| `Lists.List.Prepend` | `NachOS-4.0_MP1/code/lib/list.cc:96-112` | the item comes first |
| `Lists.List.RemoveFront` | `NachOS-4.0_MP1/code/lib/list.cc:123-142` | takes the first item, also from a list of one |
| `Lists.List.Remove` | `NachOS-4.0_MP1/code/lib/list.cc:149-178` | takes out the item wherever it is, keeping the order and `last`; it is not on the list afterwards |
| `Lists.List.IsInList` | `NachOS-4.0_MP1/code/lib/list.cc:185-197` | membership |
| `Lists.List.Unlink` | `NachOS-4.0_MP1/code/lib/list.cc:166-171` | removing one element keeps an acyclic chain of the right length from first to last |
| `Lists.List.LinkAfter` | `NachOS-4.0_MP1/code/lib/list.cc:249-256` | linking in an element keeps an acyclic chain of the right length from first to last |
| `Lists.List.Insert` | `NachOS-4.0_MP1/code/lib/list.cc:232-260` | the item goes before the first one that compares greater |
| `Lists.InsertedSorted` | `NachOS-4.0_MP1/code/lib/list.cc:232-260` | insertion keeps a sorted list sorted |
| `Lists.InsertedBehindEquals` | `NachOS-4.0_MP1/code/lib/list.cc:232-260` | insertion puts an item behind its equals |
| `Lists.SortsStably` | `NachOS-4.0_MP1/code/lib/list.cc:232-260` | any sequence of insertions gives a sorted permutation in which equal items keep their order |
| `Lists.StableSortIsUnique` | `NachOS-4.0_MP1/code/lib/list.cc:232-260` | there is only one such sequence |
| `HashTables.HashTable.constructor` | `NachOS-4.0_MP1/code/lib/hash.cc:28-52` | an empty map in four buckets |
| `HashTables.HashTable.Insert` | `NachOS-4.0_MP1/code/lib/hash.cc:108-124` | adds the item to the map; the table grows fourfold exactly if it held three items or more per bucket, and stays within three per bucket; every item is in the bucket of its hash value |
| `HashTables.HashTable.ReHash` | `NachOS-4.0_MP1/code/lib/hash.cc:134-153` | four times the buckets, the same map and number of items, every item in the bucket of its hash value |
| `HashTables.SplitStep` | `NachOS-4.0_MP1/code/lib/hash.cc:145-149` | moving one item from the old to the new table keeps every item in just one of them, in its right bucket |
| `HashTables.HashTable.FindInBucket` | `NachOS-4.0_MP1/code/lib/hash.cc:166-181` | finds the item of a key in its bucket, or nothing exactly if the map lacks the key |
| `HashTables.HashTable.Find` | `NachOS-4.0_MP1/code/lib/hash.cc:191-198` | looks the key up in the map |
| `HashTables.HashTable.Remove` | `NachOS-4.0_MP1/code/lib/hash.cc:208-223` | returns the item of the key and removes exactly it from the map |
| `HashTables.HashTable.FindNextFullBucket` | `NachOS-4.0_MP1/code/lib/hash.cc:249-259` | the next bucket that is not empty |
| `HashTables.AllOnce` | `NachOS-4.0_MP1/code/lib/hash.cc:331-360` | going through the buckets meets each item of the map exactly once and nothing else |
| `HashTables.HashIterator.constructor` | `NachOS-4.0_MP1/code/lib/hash.cc:331-340` | the iterator starts with all items still to come |
| `HashTables.HashIterator.Next` | `NachOS-4.0_MP1/code/lib/hash.cc:347-360` | one step leaves all but the first of the items still to come |
| `HashTables.HashIterator.IsDone` | `NachOS-4.0_MP1/code/lib/hash.h:108-109` | done exactly if no item is still to come |
| `HashTables.HashIterator.Item` | `NachOS-4.0_MP1/code/lib/hash.h:110-111` | the first of the items still to come |
| `Interrupts.InsertedOrdered` | `NachOS-4.0_MP1/code/machine/interrupt.cc:298-307` | a newly scheduled event keeps past and pending events in the order of their times, and of scheduling where times are equal |
| `Interrupts.EachEventOnce` | `NachOS-4.0_MP1/code/machine/interrupt.cc:298-366` | every event ever scheduled is pending or was fired, exactly once |
| `Interrupts.Interrupt.Schedule` | `NachOS-4.0_MP1/code/machine/interrupt.cc:298-307` | the event is inserted by its due time, behind those with the same time |
| `Interrupts.Interrupt.Handle` | `NachOS-4.0_MP1/code/machine/interrupt.cc:356-361` | whatever a handler schedules, the events already due stay in front and no new one is due |
| `Interrupts.Interrupt.Fire` | `NachOS-4.0_MP1/code/machine/interrupt.cc:356-363` | the loop ends, and fires exactly the events that were due, in order; exactly one event is scheduled per request of each handler called, in order, with its object, its kind and the time it asked for |
| `Interrupts.Interrupt.CheckIfDue` | `NachOS-4.0_MP1/code/machine/interrupt.cc:321-366` | what fires, what is scheduled meanwhile and how far the clock moves; afterwards nothing is due, no handler was early or more than nine ticks late, and the total is the sum of the three accounts |
| `Interrupts.Interrupt.OneTick` | `NachOS-4.0_MP1/code/machine/interrupt.cc:147-176` | ten ticks of system time in system mode, otherwise one of user time; fires exactly the events due then and schedules exactly what their handlers ask for; asks for a switch exactly if a handler did |
| `Interrupts.Interrupt.SetLevel` | `NachOS-4.0_MP1/code/machine/interrupt.cc:123-136` | time passes, events fire, handlers schedule and a switch may be asked for exactly if interrupts go from off to on, which a handler may not do |
| `Interrupts.Interrupt.Idle` | `NachOS-4.0_MP1/code/machine/interrupt.cc:207-230` | jumps to the first pending event, fires it and schedules exactly what the handlers ask for, or halts exactly if there is none |
| `DiskTiming.NextPass` | `NachOS-4.0_MP1/code/machine/disk.cc:199-206` | the modulo difference is the number of slots until the sector next passes the head |
| `DiskTiming.LatencyBounds` | `NachOS-4.0_MP1/code/machine/disk.cc:229-250` | every latency is at least one rotation time and at most 31999 ticks |
| `DiskTiming.WorstCase` | `NachOS-4.0_MP1/code/machine/disk.cc:229-250` | a request that takes 31999 ticks |
| `DiskTiming.MissEndsWithSector` | `NachOS-4.0_MP1/code/machine/disk.cc:246-249` | a request not served from the track buffer ends exactly when the sector has passed, in the first slot after the seek |
| `DiskTiming.HitMeansBuffered` | `NachOS-4.0_MP1/code/machine/disk.cc:236-243` | the track buffer serves a read exactly if the sector passes completely between the start of buffering and the end of the current slot |
| `DiskTiming.HitIsNotSlower` | `NachOS-4.0_MP1/code/machine/disk.cc:236-249` | a hit takes one slot, which is never slower than a miss would be, nor done before the sector has passed |
| `DiskTiming.WhenDone` | `NachOS-4.0_MP1/code/machine/disk.cc:229-250` | a read of the current track takes one slot if the sector has passed since the buffering started, counting the slot under way; every other request, writes included, ends with the first pass of the sector after the seek |
| `DiskTiming.Disk.Request` | `NachOS-4.0_MP1/code/machine/disk.cc:113-151` | an idle disk becomes active for the time just said; the buffering restarts, in the first slot after the seek, exactly if the track changes |
| `Translation.TranslateIsPhysical` | `NachOS-4.0_MP1/code/machine/translate.cc:184-250` | an aligned access stays within its page and the memory, byte for byte |
| `Translation.TranslateFoundIff` | `NachOS-4.0_MP1/code/machine/translate.cc:194-249` | when an access translates |
| `Translation.Outcomes` | `NachOS-4.0_MP1/code/machine/translate.cc:194-249` | which exception or address every access gives, from the entry that is the page's or the first valid one for it in the TLB |
| `Translation.NoAlias` | `NachOS-4.0_MP1/code/machine/translate.cc:203-246` | with distinct frames, distinct virtual bytes are distinct physical ones |
| `Translation.WriteByteAt` | `NachOS-4.0_MP1/code/machine/translate.cc:135-167` | a write changes the addressed bytes of the virtual memory to the little-endian bytes of the value, and no other |
| `Translation.ReadByteAt` | `NachOS-4.0_MP1/code/machine/translate.cc:85-120` | a read finds the addressed bytes |
| `Translation.TouchedPhysical` | `NachOS-4.0_MP1/code/machine/translate.cc:243-246` | the use and dirty bits do not affect translation |
| `Translation.TouchedTranslate` | `NachOS-4.0_MP1/code/machine/translate.cc:243-246` | what one access does to the table does not change how another translates |
| `Translation.TlbAgrees` | `NachOS-4.0_MP1/code/machine/translate.cc:208-229` | a TLB that agrees with the page table gives the same address or exception, or a page fault, never another address |
| `Machines.Machine.Translate` | `NachOS-4.0_MP1/code/machine/translate.cc:184-250` | that outcome; of the entry used, and of no other, the use bit is set, and the dirty bit if it was or the access writes |
| `Machines.Machine.ReadMem` | `NachOS-4.0_MP1/code/machine/translate.cc:85-120` | sizes 1, 2 and 4: a value with the bytes at the physical address at its low end, nothing above a halfword and copies of the sign above a byte; or the exception's effect on the registers |
| `Machines.Machine.WriteMem` | `NachOS-4.0_MP1/code/machine/translate.cc:135-167` | sizes 1, 2 and 4: the low bytes of the value at the physical address, or the exception's effect on the registers |
| `Machines.Machine.ReadVirtual` | `NachOS-4.0_MP1/code/machine/translate.cc:85-120` | the same, seen in the virtual memory, of which every byte stays as it is |
| `Machines.Machine.WriteVirtual` | `NachOS-4.0_MP1/code/machine/translate.cc:135-167` | sizes 1, 2 and 4, seen in the virtual memory: exactly the addressed bytes become the low bytes of the value |
| `Machines.Machine.WriteThenRead` | `NachOS-4.0_MP1/code/machine/translate.cc:85-167` | a read of the same size finds the low bytes written, the sign copied above a single byte; a word is read back as written |
| `UnalignedAccess.LoadedBytes` | `NachOS-4.0_MP1/code/machine/translate.cc:99-113` | what is loaded from 1, 2 or 4 bytes has them at its low end and is extended from them |
| `Machines.Machine.DelayedLoad` | `NachOS-4.0_MP1/code/machine/mipssim.cc:715-722` | the pending load reaches its register, the next one takes its place, and register 0 stays zero |
| `Machines.Machine.RaiseException` | `NachOS-4.0_MP1/code/machine/machine.cc:100-109` | records the address, commits the pending load and leaves every other register as it is |
| `UnalignedWords.LwlBytes` | `NachOS-4.0_MP1/code/machine/mipssim.cc:341-363` | the masks and shifts of LWL move the first bytes of the memory word to the end of the register |
| `UnalignedWords.LwrBytes` | `NachOS-4.0_MP1/code/machine/mipssim.cc:393-419` | those of LWR move its last bytes to the front |
| `UnalignedWords.SwlBytes` | `NachOS-4.0_MP1/code/machine/mipssim.cc:581-602` | those of SWL put the last bytes of the register at the front of the word |
| `UnalignedWords.SwrBytes` | `NachOS-4.0_MP1/code/machine/mipssim.cc:640-658` | those of SWR put its first bytes at the end |
| `UnalignedWords.OrSum` | `NachOS-4.0_MP1/code/machine/mipssim.cc:346-419` | an or of values without common bits is their sum |
| `Machines.Machine.Lwl` | `NachOS-4.0_MP1/code/machine/mipssim.cc:315-365` | the register's new value, with a pending load to it forwarded, has the bytes up to the address at its end |
| `Machines.Machine.Lwr` | `NachOS-4.0_MP1/code/machine/mipssim.cc:367-421` | and for LWR the bytes from the address on at its front |
| `Machines.Machine.Swl` | `NachOS-4.0_MP1/code/machine/mipssim.cc:555-612` | of the virtual memory exactly the bytes up to the address, within its word, become the register's |
| `Machines.Machine.Swr` | `NachOS-4.0_MP1/code/machine/mipssim.cc:614-671` | and for SWR exactly those from the address on |
| `Machines.Machine.StoreUnaligned` | `NachOS-4.0_MP1/code/machine/mipssim.cc:555-671` | SWR and SWL from any registers, interrupted or not: which of the two can write, the registers, and every byte of the virtual memory afterwards; pending loads arrive between the two |
| `Machines.Machine.LoadUnaligned` | `NachOS-4.0_MP1/code/machine/mipssim.cc:315-421` | LWR and LWL from any registers, interrupted or not, base and target possibly the same: which of the two can read, and the target and all other registers after the load delay, in terms of registers and memory before |
| `Machines.Machine.StoreThenLoad` | `NachOS-4.0_MP1/code/machine/mipssim.cc:315-421` | what the pair of stores writes the pair of loads reads back, if no load is pending into base or stored register and the load is not interrupted over its own base |
| `UnalignedAccess.SecondAddressIff` | `NachOS-4.0_MP1/code/machine/mipssim.cc:316-365` | the second half of a load has the right address if and only if no pending load, nor the first half itself, has changed the base |
| `UnalignedAccess.LoadRightIff` | `NachOS-4.0_MP1/code/machine/mipssim.cc:315-421` | the pair loads the word at its address if and only if, before the call, each byte that it will load equals the one it should |
| `UnalignedAccess.SameBaseLoadsRight` | `NachOS-4.0_MP1/code/machine/mipssim.cc:315-421` | with the right second address it does, whatever the memory holds |
| `UnalignedAccess.BaseOverwritten` | `NachOS-4.0_MP1/code/machine/mipssim.cc:316-365` | a machine state in which an interrupt between the halves makes the pair load another word |
| `UnalignedAccess.SecondStoreIff` | `NachOS-4.0_MP1/code/machine/mipssim.cc:555-671` | the second half of a store has the right address if and only if no load of another value is pending into the base |
| `UnalignedAccess.StoreRightIff` | `NachOS-4.0_MP1/code/machine/mipssim.cc:555-671` | a byte is as wanted after the pair of stores if and only if the half that covers it stores the right byte, or what neither covers was right before |
| `UnalignedAccess.SettledStoreRightIff` | `NachOS-4.0_MP1/code/machine/mipssim.cc:555-671` | with the right second address, the pair stores the word if and only if no pending load changes the bytes of the register that the second half stores |
| `UnalignedAccess.BasePending` | `NachOS-4.0_MP1/code/machine/mipssim.cc:555-671` | a machine state in which a pending load into the base makes the pair of stores write to another word |
| `UnalignedAccess.WordReadBack` | `NachOS-4.0_MP1/code/machine/mipssim.cc:315-421` | after an undisturbed pair of stores the pair of loads has the right second address and the stored word |

## Left out

- Host and device plumbing: `lib/sysdep.cc`, consoles, the network, statistics printing, debug output, the debugger.
- Stacks, `SWITCH`, fencepost checks, saving of user registers: a context switch is a change of the current thread.
- The console's and the post office's synchronisation, which is the same handshake as that of the synchronous disk.
- The host-file stub of the file system, system call dispatch, `coff2noff` and the loading of programs.
- All other MIPS instructions, instruction fetch and decoding, and the program counters; SRL shifts a signed `int` and is not claimed to be logical.
- Overflow of the tick counter; memory deallocation; the thread and semaphore names.
- `printf` and file formats of the pipeline; an item is a value with one holder instead of a pointer, and an opcode outside the tables, an assertion failure in the source, leaves the item alone.
- Methods of shared objects cannot be interleaved, so runs of many threads are step systems on values (`SynchLists`, `SynchDiskProtocol`, `Scheduling`, `Pipelines`); the classes of `Monitors` do one atomic segment on the objects themselves, proved to be a step of the system.
- FileSystems.FileSystem.Create: sizes from 0 to `MaxFileSize` only, as `Allocate` does not check them; one thread at a time, and handles to a removed file are not tracked.
- FileSystems.FileSystem.Mount: requires a consistent disk; a disk that was never formatted is undefined in the source too.
- OpenFiles.OpenFile.ReadAt: positions from 0 on, and position plus length within an `int`; the source overflows otherwise.
- OpenFiles.OpenFile.WriteAt: positions from 0 on, and position plus length within an `int`.
- Directories.Directory.WriteBack: the padding bytes of an entry, which the source copies from memory, are written as zeros.
- HashTables.HashTable.Insert: a bucket is the sequence of the items on its list; the lists themselves are in `Lists`.
- Lists.List.Insert: the sorted list is a method of the plain list, with the comparison as a parameter, in place of a subclass.
- Interrupts.Interrupt.CheckIfDue: the handlers are an arbitrary function of what has fired so far; the commit of a pending load on firing is the `interrupted` flag of the load and store pairs in `Machines`.
- Machines.Machine.RaiseException: the change to system mode, the kernel's exception handler and the change back are not modelled; registers and memory are those that the handler finds.
- Interrupts.Interrupt.OneTick: the `Yield` in system mode that ends it, when a handler asked for a switch, is left to the caller, who learns of it from the result.
- Machines.Machine.StoreThenLoad: claims nothing when a load is pending into base or stored register, or when the load overwrites its own base with an interrupt in between; what happens then is in the contracts of its two halves.
- Shell.Copy: the host file is a sequence of bytes, read in full chunks but for the last; data longer than the largest file is excluded, as for `Create`.
- Workers.Reader.Process: what the threads on the other side of the queue do is a schedule, which has to end every wait and cannot take out more than there is; the file has at least the expected lines.
- Workers.Writer.Process: what the threads on the other side put in is a schedule that ends every wait and respects the queue's size.
- DiskTiming.Disk.Request: the transfer of the data is in `SectorDisk`, the protocol around it in `SynchDiskProtocol`.
- Scheduling.Scheduler.StartSleep: the idle loop that follows is the sequence of wake-ups until `EndSleep`.
