# Proofs about the base library

This project models six parts of Chromium's `src/base` in Dafny and proves what they are for.

- **File-descriptor shuffle.** An injective list of arcs "source to dest, perhaps close the source" is
  carried out by single Duplicate, Move and Close calls, rewriting the arcs that are still to come. The
  proof gives the whole descriptor table after a successful run, and says exactly when the run has the
  effect of doing all arcs at once.
- **FilePath, POSIX configuration.** Peeling a path with DirName and BaseName yields the same components
  as one pass over its characters; appending, relative paths, parents and extensions are laws about those
  components and names.
- **File utilities.** A directory enumerator with a stack of directories still to be read, and on top of
  it the size of a directory, recursive deletion, and the creation of a directory with its parents. The
  kernel's side is an abstract tree whose calls are methods with contracts; a "faulty" disk may also
  fail any call, and what must hold even then is stated separately.
- **Atomics and the protocols above them.** The retry loops around a compare-exchange that may fail
  spuriously are linearizable under every interleaving of any number of threads. Reference counts,
  sequence numbers, lazy instances and exit managers build on that.
- **CommandLine.** On POSIX, the vector of tokens and the index of switches always agree, and parsing
  again what was parsed changes nothing exactly under a stated condition. On Windows, the printed command
  line is taken apart again by the rules of CommandLineToArgvW.
- **IDMap.** A map with deferred removal under any number of live iterators.

Each file holds one module. `FileDescriptorArcs.dfy` holds what a shuffle means and what each turn of its loop
keeps, `FileDescriptorReuse.dfy` the same when temporaries may be descriptors of the map, `FileDescriptorRuns.dfy`
the runs of a map and which maps every run delivers, `FileDescriptorClosing.dfy` when the final loop closes open
descriptors only; `FileSystem.dfy` holds
the abstract disk, `FileTraversal.dfy` the walk on locations that `FileUtil.FileEnumerator` carries out on paths;
`CommandLineParsing.dfy` and `IDMapData.dfy` hold the value-level definitions that the classes in
`CommandLine.dfy` and `IDMap.dfy` are specified by; `CommandLineWindows.dfy` holds the printer and the tokenizer,
`CommandLineQuotedNames.dfy` and `CommandLineExactness.dfy` which command lines they bring back. Where a method is
proved against a function, the lemmas about the function are listed beside it.

## How to read the model

- *Shuffle.* Duplicate returns a descriptor that is not open and not `reserved`. With all descriptors of the map
  reserved it is "a fresh element of the domain" (`src/base/file_descriptor_shuffle.h:36-37`); with none it is
  `dup`. A run of a map is the list of descriptors that Duplicate hands out, one for each arc that needs one; it
  determines the rest. `Complete` says that a run gets through all arcs, and `Final` is the table it leaves. The
  methods are proved to take such a run whenever they succeed, for every injective map. Duplicate and Move refuse a
  descriptor that is not open, and if the delegate may fail anything else, too; refused calls change nothing and are
  counted, as are calls of Close that the DPCHECK would stop at. The log records the calls that succeeded. The DCHECK
  on injectiveness is the precondition `Injective`.
- *Locations.* A path leads to a location: an anchor, "/" or ".", and the names behind it that are not
  ".". The tree maps locations to directories and files. A path that ends in a separator or in "." cannot
  lead to a file. When the disk is shared, another process may make a directory just before mkdir does.
- *Interleavings.* A run is a sequence of choices of a thread and what it does next; every access to a
  shared cell is one step, and steps are sequentially consistent. `Marks` are the moments at which calls
  begin, take effect and return.
- *Scheduler turns.* `AtomicOperations.SharedCell` shows the same retry loops as one thread runs them:
  before each access other threads do any number of operations. A call that runs out of turns has not
  returned; it returns if it is left alone for three turns.

## Findings

- With fresh duplicates, a shuffle that contains an identity arc (s, s), a later arc that reads s, and a close request
  on one of the two closes s although s is a destination; otherwise, and only otherwise, it does all arcs at once
  (`DeliveredUnlessClash`; `ClashHappens` is the smallest case).
- With `dup` for Duplicate, a dest that is not open yet can be taken for a temporary and is then closed in the end
  (`DestTaken`). For a map whose sources are all open, every successful run does all arcs at once if and only if there
  is no clash and no arc whose dest is read later stands before an arc whose dest is not open (`DeliversExactly`).
  Of a single run its temporaries tell (`DeliveredWithReuse`).
- A source that is not open can be taken, too, and is then closed by the arc that was to read it and once more in the
  end, against the DPCHECK of the descriptor table's delegate (`OwnSourceTaken`, `IdentitySourceTaken`). That cannot
  happen unless such a source is to be closed and an arc whose dest is read later stands before one of its readers
  or is one (`FinalLoopIsSafe`); with all sources open it never does (`KnownAreSafe`).
- `DirName("///a")` is "//", so a path with two or three leading separators before a name has the root
  "//", while "///" itself strips to "/" (`ThreeLeading`). The comments at `src/base/file_path.cc:314-318` speak
  of "//" only.
- Appending to "./" hides the dot: a parent of that kind is excluded from the law that appending adds a
  component, and `DotSwallowed` says what happens instead (`DotSlash` for "./" and "a").
- Parsing again is the identity unless a switch is "--" or a name ending in whitespace with a bare "="
  behind it (`InitIsIdempotent`; `BareEqualsReparsed` for "--=").
- CopySwitchesFrom is right exactly if no switch it copies from another command line has a key that begins with a
  dash (`CopiesExactly`); such a key is copied to another key (`DashedKeyMoves`). Copied from itself, a command line
  keeps its index throughout exactly if each such key has the value of the key it is copied to (`WithinExactly`).
- An argument with a tab but no space, backslash or double quote is printed without quotes on Windows and
  falls apart, and an empty one is lost (`TabFallsApart`); switches with a double quote in their names are printed
  raw and can join (`QuotedNamesJoin`). `PrintRoundTripExactly` says of every command line whether it survives.
- Extension and RemoveExtension fit together exactly for paths without a trailing separator or without an
  extension (`ExtensionRoundTrip`; `SlashAfterExtension` for "a.gz/").

## Model

| member | source | states |
|---|---|---|
| FileDescriptorShuffle.InjectionDelegate.Duplicate | src/base/file_descriptor_shuffle.h:35-37 | a fresh descriptor comes to hold what fd holds; a call that is refused changes nothing and is counted, and only what is not open is refused unless the delegate may fail |
| FileDescriptorShuffle.InjectionDelegate.Move | src/base/file_descriptor_shuffle.h:38-40 | dest comes to hold what src holds; calls are refused likewise |
| FileDescriptorShuffle.InjectionDelegate.Close | src/base/file_descriptor_shuffle.h:41-42 | the descriptor alone goes; a call for one that is not open is counted |
| FileDescriptorArcs.DueStep | src/base/file_descriptor_shuffle.cc:52-67 | the inner loop conserves the duty to close a descriptor: it is due before exactly if the remaining arcs owe it afterwards or arc i still closes it itself |
| FileDescriptorShuffle.PassLaterArcs | src/base/file_descriptor_shuffle.cc:35-59 | the inner loop redirects exactly the later readers of the dest to one duplicate, and never overruns the 16 slots |
| FileDescriptorRuns.InnerIsPassed | src/base/file_descriptor_shuffle.cc:35-59 | for each later arc what the whole inner loop makes of it, unless the duplicate is the very source that the arc still has to close |
| FileDescriptorShuffle.PerformArc | src/base/file_descriptor_shuffle.cc:24-68 | one turn of the outer loop succeeds if and only if no call is refused, and is then the next step of a run; it closes no descriptor that is not open, and after a refused call does nothing more |
| FileDescriptorArcs.StepKeepsInv | src/base/file_descriptor_shuffle.cc:24-68 | one arc carried out keeps the invariant that ties remaining arcs, table and trace to the original arcs and table |
| FileDescriptorReuse.StepKeepsReuseInv | src/base/file_descriptor_shuffle.cc:24-68 | the same when the temporary is any descriptor that is not open, a closed source or an undelivered dest included |
| FileDescriptorShuffle.PerformArcs | src/base/file_descriptor_shuffle.cc:24-68 | whatever the map, success means that no call was refused and has taken a complete run, whose first temporaries are recorded; failure has broken a run off at the first refused call |
| FileDescriptorShuffle.PerformInjectiveMultimapDestructive | src/base/file_descriptor_shuffle.cc:16-74 | it returns true if and only if no call is refused; when calls do not fail by themselves, that is whenever all sources are open, and with fresh duplicates exactly if the sources are open that some arc has to move. Success leaves the final table and log of a complete run; with fresh duplicates that settles the whole table: what each descriptor holds, what is closed, once and after its last read, and which temporaries stay open; with all sources open, what is known when duplicates may be descriptors of the map; no call of Close fails exactly if the recorded duplicates are different and open; a failed run leaves alone what the map does not name |
| FileDescriptorShuffle.PerformInjectiveMultimap | src/base/file_descriptor_shuffle.cc:76-80 | the same for a map that the caller keeps |
| FileDescriptorShuffle.ShuffleFileDescriptors | src/base/file_descriptor_shuffle.h:80-83 | on the process's own table, with all sources open, the shuffle succeeds if no call fails by itself; and with no clash, and no dest that is not open behind an arc that needs a duplicate, success has done all arcs at once |
| FileDescriptorRuns.RunBystanders | src/base/file_descriptor_shuffle.cc:16-85 | every run of every map leaves alone what was open and the map does not name |
| FileDescriptorRuns.OpenNeverStuck | src/base/file_descriptor_shuffle.cc:35-64 | with all sources open at the start no run comes to an arc whose dest to duplicate or source to move is not open |
| FileDescriptorRuns.FreshNeverStuck | src/base/file_descriptor_shuffle.cc:35-64 | nor does it with fresh duplicates if only the sources of arcs that move something are open |
| FileDescriptorRuns.DeliversExactly | src/base/file_descriptor_shuffle.cc:16-85 | when Duplicate may hand out any descriptor that is not open, and all sources are open: every successful run does all arcs at once if and only if there is no clash and no arc that needs a duplicate stands before an arc whose dest could be handed out |
| FileDescriptorClosing.FinalLoopIsSafe | src/base/file_descriptor_shuffle.cc:70-85 | whatever is handed out, the final loop closes open descriptors only and each once, if no source that is to be closed and could be handed out is read by an arc that needs a duplicate or by one behind such an arc; sources need not be open |
| FileDescriptorShuffle.DeliveredUnlessClash | src/base/file_descriptor_shuffle.cc:24-68 | a successful run has the effect of all arcs at once, cycles, chains and fan-out included, if and only if no identity arc's descriptor is also to be closed for a later reader |
| FileDescriptorShuffle.SourcesClosedAsAsked | src/base/file_descriptor_shuffle.cc:52-67 | a source that is no dest is closed if and only if one of its arcs asks for it; whatever is neither dest nor such a source nor a temporary keeps its value |
| FileDescriptorShuffle.LeakedTemporaries | src/base/file_descriptor_shuffle.cc:18-46 | after success exactly as many temporaries stay open as overwriting arcs exceed 16 |
| FileDescriptorShuffle.CloseExtraFds | src/base/file_descriptor_shuffle.cc:70-71 | exactly the recorded duplicates are closed, in order; as many calls fail as are not open when their turn comes |
| FilePath.StripTrailingSeparatorsInternal | src/base/file_path.cc:1164-1184 | the loop over the end of the path computes Stripped, the form without trailing separators that keeps "/" and "//" |
| FilePath.TrimmedSpec | src/base/file_path.cc:1164-1184 | what is cut off are separators, and what stays does not end in one |
| FilePath.SplitLast | src/base/file_path.cc:295-352 | a path with a name is a head, its base name and trailing separators; DirName is the stripped head |
| FilePath.AllSeparatorsDir | src/base/file_path.cc:295-352 | of a path of separators DirName, BaseName and the stripped form agree: "//" for exactly two, else "/" |
| FilePath.DirNameFixedPoints | src/base/file_path.cc:295-329 | DirName stays put exactly at ".", "/" and "//" and otherwise comes nearer to them |
| FilePath.NamesConcat | src/base/file_path.cc:208-241 | the names of two parts that meet at a separator are the names of the one and then of the other |
| FilePath.ComponentsStep | src/base/file_path.cc:221-226 | a DirName step takes off exactly the last component, or none at a root |
| FilePath.PeelStep | src/base/file_path.cc:221-226 | a turn of the component loop keeps that what is left and what was taken make up the one-pass components |
| FilePath.PeelLast | src/base/file_path.cc:228-240 | at the fixed point the root, if any, completes them |
| FilePath.GetComponents | src/base/file_path.cc:208-241 | iterated DirName and BaseName yield the one-pass split, root first, in at most as many steps as the path has characters |
| FilePath.Appended | src/base/file_path.cc:445-477 | appending a name adds it to the names, keeps the root and needs no stripping |
| FilePath.AppendedString | src/base/file_path.cc:445-477 | letter by letter: the stripped path, at most one separator more, and the component; nothing in front of it after an empty path or "." |
| FilePath.AppendAddsComponent | src/base/file_path.cc:445-477 | the components of the appended path are the old ones and the new one, if and only if the parent is not "." with separators and the name is not "." appended to an empty path or to "." |
| FilePath.DotAppend | src/base/file_path.cc:445-477 | appending to "." with separators hides the dot |
| FilePath.AppendRelativePath | src/base/file_path.cc:247-289 | succeeds exactly when the parent's components are a non-empty strict prefix of the child's, appends what lies beyond, and changes nothing on failure |
| FilePath.AppendRelativeRoundTrip | src/base/file_path.cc:247-289 | started from the parent itself the result has the child's components, if and only if the parent is not "." with separators |
| FilePath.AppendAllComponents | src/base/file_path.cc:283-287 | appending names one after the other adds them all, if and only if the start is not "." with separators and a first name "." does not meet a start that is empty or "." |
| FilePath.DotSwallowed | src/base/file_path.cc:445-477 | from "." with separators the appended names are all that remains |
| FilePath.IsParent | src/base/file_path.cc:243-245 | true exactly for a non-empty strict prefix of components |
| FilePath.IsParentStrictOrder | src/base/file_path.cc:243-289 | being a parent is irreflexive, asymmetric and transitive |
| FilePath.CheckComponents | src/base/file_util_posix.cc:1008-1016 | no CHECK fails if and only if the base's components begin the path's |
| FilePath.VerifyEach | src/base/file_util_posix.cc:1018-1030 | true exactly if base and each path that comes of appending a name more are controlled |
| FilePath.VerifyPathControlledByUser | src/base/file_util_posix.cc:992-1032 | refused unless base is path or a parent of it, and else true exactly when all paths in between are controlled by the user; the CHECKs on the way never fail |
| FilePath.LaterComponentsAreNames | src/base/file_path.cc:208-241 | all components but the first are free of separators, so they may be appended |
| FileExtension.PositionBehind | src/base/file_path.cc:121-160 | the separator of the extension is found at the same place in a name and in a path that ends in it, double extensions included |
| FileExtension.ExtensionRoundTrip | src/base/file_path.cc:354-372 | removing the extension and putting it back gives the path again if and only if there is no extension or no trailing separator; only the name is cut |
| FileExtension.TwoDots | src/base/file_path.cc:121-160 | of two dots or more in a name the last begins the extension, or the last but one if "gz", "z" or "bz2" in any case is behind and one to four characters are between them |
| FileExtension.OneDot | src/base/file_path.cc:121-160 | the only dot of a name begins its extension, wherever it is |
| FileExtension.NoExtension | src/base/file_path.cc:118-131 | a name without a dot, "." and ".." have none |
| FileExtension.RemovedWithSeparator | src/base/file_path.cc:364-372 | of a path with trailing separators and an extension everything from the last dot on is removed |
| FileSystem.Disk.Stat | src/base/file_util_posix.cc:206-216 | finds what the path leads to |
| FileSystem.Disk.Unlink | src/base/file_util_posix.cc:218-219 | removes a file and nothing else, exactly when the path leads to a file and no call fails |
| FileSystem.Disk.Rmdir | src/base/file_util_posix.cc:220-221 | removes an empty directory that is no anchor and whose path does not end in "." |
| FileSystem.Disk.Mkdir | src/base/file_util_posix.cc:565-566 | makes a directory exactly where nothing is but its parent is; counts requests under a missing parent |
| FileSystem.Disk.ReadDirectory | src/base/file_util_posix.cc:797-836 | lists the entries of a directory, each once, in any order, together with "." and ".."; a failed stat shows as an empty file |
| FileSystem.ResolveDirName | src/base/file_path.cc:295-329 | DirName leads to the parent of where the path leads, or stays there |
| FileSystem.ResolveAppend | src/base/file_path.cc:445-477 | appending a name leads to the entry of that name |
| FileTraversal.RefilledSound | src/base/file_util_posix.cc:737-760 | reading a directory keeps that pending directories lie apart from each other and from the current one |
| FileTraversal.RefilledComplete | src/base/file_util_posix.cc:742-760 | no entry below a directory gets lost when the directory is read without failures |
| FileTraversal.RefilledLeft | src/base/file_util_posix.cc:742-760 | what is left to be returned is the same before and after, or smaller when calls fail |
| FileTraversal.RefilledUnread | src/base/file_util_posix.cc:730-761 | fewer entries lie at or below pending directories than before, which bounds the loop |
| FileTraversal.TailSound | src/base/file_util_posix.cc:763-764 | returning an entry takes exactly that entry from what is left |
| FileTraversal.NoneAround | src/base/file_util_posix.cc:733-761 | nothing left lies in a directory around the current one |
| FileUtil.ShouldSkipAppended | src/base/file_util.cc:186-192 | an entry is recognised as "." or ".." from the path it was appended to |
| FileUtil.FileEnumerator.AddEntries | src/base/file_util_posix.cc:744-760 | the entries that match go into the queue and the subdirectories onto the stack, in the order read |
| FileUtil.FileEnumerator.ReadNext | src/base/file_util_posix.cc:733-760 | one turn of the loop is the refilling of the walk, or passing over what could not be read |
| FileUtil.FileEnumerator.Next | src/base/file_util_posix.cc:726-765 | returns "" exactly when nothing is left; else takes one entry from what is left, from the current directory while it has any, and before anything further in; always below the start, even when calls fail |
| FileUtil.FileEnumerator.GetFindInfo | src/base/file_util_posix.cc:767-776 | the recorded kind of the returned entry is its kind in the tree, or an empty file after a failed stat |
| FileUtil.StepKeepsTrack | src/base/file_util_posix.cc:730-761 | a turn of the loop loses nothing, and comes nearer to the end |
| FileUtil.FrontReturned | src/base/file_util_posix.cc:763-764 | the entry at the front is returned out of what was left when Next was called |
| Enumeration.Enumerate | src/base/file_util_posix.cc:726-765 | over an unchanging tree the results are exactly the descendants (or children) that match the mask, each once, each directory's entries together and before any entry of its subdirectories |
| Enumeration.InOrderStep | src/base/file_util_posix.cc:726-765 | one more result keeps that order |
| Enumeration.ComputeDirectorySize | src/base/file_util.cc:267-282 | the sizes of all files below the root together; not more when calls fail |
| Enumeration.TotalSizeWithout | src/base/file_util.cc:267-282 | the sum does not depend on the order in which the files are met |
| Delete.UnlinkFiles | src/base/file_util_posix.cc:223-237 | without failures all files below are gone, and the stack holds exactly the directories, each before what is in it |
| Delete.EmptyingDirectory | src/base/file_util_posix.cc:228-235 | stacking a returned directory keeps that every directory comes before its descendants |
| Delete.TopIsEmpty | src/base/file_util_posix.cc:239-243 | the directory on top of the stack is empty when it is removed |
| Delete.RemoveDirectories | src/base/file_util_posix.cc:239-243 | without failures every directory is removed, but for a root that rmdir refuses |
| Delete.RecursiveResult | src/base/file_util_posix.cc:206-244 | if the last rmdir succeeded, or no call fails, the tree is the one without the subtree; success means that the path leads nowhere |
| Delete.Delete | src/base/file_util_posix.cc:206-244 | the tree afterwards in all four branches, and the result true exactly when the path leads nowhere; true means both even when calls fail, and then nothing outside the subtree changes |
| CreateDirectory.DirectoryExists | src/base/file_util_posix.cc:388-394 | true for a directory only, and for every directory unless the call fails |
| CreateDirectory.CollectParents | src/base/file_util_posix.cc:550-559 | the path, its directory, the directory of that, down to a fixed point of DirName |
| CreateDirectory.EnsureDirectory | src/base/file_util_posix.cc:563-573 | success means that the directory is there; it is added only where it was missing, and if another process adds it first that is success, too |
| CreateDirectory.WithDirectoriesAdds | src/base/file_util_posix.cc:561-574 | exactly the missing entries on the way are added, as directories |
| CreateDirectory.StepFailed | src/base/file_util_posix.cc:570-572 | a step fails only at a file on the way, and then nothing has been made |
| CreateDirectory.CreateDirectory | src/base/file_util_posix.cc:548-576 | succeeds exactly for a non-empty path without a file on the way, adds exactly the missing directories, changes nothing when it fails without a failing call, and never asks mkdir for a directory whose parent is missing |
| Atomics.MoveIsAtomic | src/base/atomicops_internals_arm_gcc.h:32-75 | every access does the whole operation at once or leaves it all to do |
| Atomics.Linearizable | src/base/atomicops_internals_arm_gcc.h:32-75 | under every interleaving and every pattern of spurious failures, cell and results are those of the operations done one at a time, each at a moment between its call and its return |
| Atomics.CompareAndSwapTells | src/base/atomicops_internals_arm_gcc.h:32-45 | at a step of the run at which the thread was in that call, the cell held the old value, holds the new one afterwards and CAS returned the old one, or the cell held the different value that CAS returned and kept it |
| Atomics.EachTells | src/base/atomicops_internals_arm_gcc.h:32-125 | of every operation at a step of the run inside its call: a load or an exchange returns what the cell held, an increment what it holds afterwards, on 32 bits |
| Atomics.AloneFinishes | src/base/atomicops_internals_arm_gcc.h:32-75 | from wherever a thread is in its loop, three accesses that nobody disturbs finish the operation |
| Atomics.IncrementsAddUp | src/base/atomicops_internals_arm_gcc.h:61-75 | after every run that calls only increments the cell is its initial value plus all increments that took effect, wrapped to 32 bits |
| Atomics.OnlyCalledTakeEffect | src/base/atomicops_internals_arm_gcc.h:32-75 | only operations that were called take effect |
| AtomicOperations.SharedCell.NoBarrierCompareAndSwap | src/base/atomicops_internals_arm_gcc.h:32-45 | the loop as one thread runs it takes effect exactly once, with the result it returns, and returns if it is left alone for three turns |
| AtomicOperations.SharedCell.NoBarrierAtomicExchange | src/base/atomicops_internals_arm_gcc.h:47-54 | likewise for the exchange |
| AtomicOperations.SharedCell.BarrierAtomicIncrement | src/base/atomicops_internals_arm_gcc.h:61-75 | likewise for the increment |
| AtomicSequenceNumber.HandsOutInOrder | src/base/atomic_sequence_num.h:19-22 | the first 2^31 - 1 calls get 0, 1, 2, ... in the order in which they take effect, none twice |
| AtomicSequenceNumber.ThenOverflows | src/base/atomic_sequence_num.h:19-22 | the next increment yields the least 32-bit value |
| AtomicRefCount.CountIsReferences | src/base/atomic_ref_count.h:23-52 | among threads that keep to the discipline the cell equals the references held |
| AtomicRefCount.LastReferenceTellsOnce | src/base/atomic_ref_count.h:32-39 | a decrement returns false exactly when nobody holds a reference any more, and then nothing happens to the count any more |
| AtomicRefCount.OnlyHolder | src/base/atomic_ref_count.h:60-66 | a holder who sees a count of one holds the only reference |
| LazyInstance.ClaimIsAtomic | src/base/lazy_instance.cc:22-25 | an access of the claiming compare-and-swap leaves the state alone, or took it from empty and makes this thread the creator |
| LazyInstance.StatusMoves | src/base/lazy_instance.cc:15-50 | the state of an instance only moves from empty to creating to created |
| LazyInstance.InvStep | src/base/lazy_instance.cc:15-50 | every step of every thread keeps the counts of owners, creations and registrations |
| LazyInstance.CreatedOnce | src/base/lazy_instance.cc:15-36 | over every run NeedsInstance returns true to at most one thread, to exactly one once the state has left empty, false only when the instance is created, and New is called at most once |
| LazyInstance.PointersAreCreated | src/base/lazy_instance.h:135-162 | whoever gets a pointer gets it to a created instance |
| LazyInstance.RegisteredOnce | src/base/lazy_instance.cc:38-50 | when all calls have returned the exit manager has each created instance with a destructor exactly once |
| LazyInstance.NobodyWaitsForEver | src/base/lazy_instance.cc:15-36 | at every moment of every run, a thread left alone gets its pointer within seven steps, unless another is creating the instance, which then does when left alone |
| LazyInstanceHelper.NeedsInstance | src/base/lazy_instance.cc:15-36 | as one thread runs it: true after a compare-and-swap that took the state from empty, false after a failed one and loads up to the first that saw created; until then it waits |
| LazyInstanceHelper.CompleteInstance | src/base/lazy_instance.cc:38-50 | the created state is published by one store, and the destructor registered behind it, if there is one |
| LazyInstanceHelper.Pointer | src/base/lazy_instance.h:135-162 | as one thread runs it: the instance was seen created, or was claimed, published and registered by this call, or was waited for |
| LazyInstanceHelper.ClaimedOnce | src/base/lazy_instance.cc:22-25 | whatever the order of accesses, at most one compare-and-swap is told that the state was empty |
| LazyInstanceExit.DestroyedOnce | src/base/lazy_instance.h:181-187 | at exit each created instance with a destructor is destroyed exactly once, in the reverse of the order of registration, and is empty again |
| AtExit.AtExitManager.constructor | src/base/at_exit.cc:24-31 | the new manager shadows the current one |
| AtExit.AtExitManager.RegisterTask | src/base/at_exit.cc:51-59 | the callback goes on the current manager's stack, or is dropped when there is none |
| AtExit.AtExitManager.ProcessCallbacksNow | src/base/at_exit.cc:62-75 | all callbacks are run, the latest first, and the stack is empty |
| AtExit.AtExitManager.Destroy | src/base/at_exit.cc:33-42 | the callbacks are run and the shadowed manager is current again; without any manager nothing happens |
| AtExit.ReverseAt | src/base/at_exit.cc:70-74 | the order of the run, position by position |
| CommandLineParsing.TokenTellsSwitch | src/base/command_line.cc:302-319 | a token tells the key and value it was made from if and only if the name has no "=" |
| CommandLineParsing.TokenWritten | src/base/command_line.cc:302-319 | the token letter by letter: "--" unless the name begins with a dash, the name, and "=" and the value if there is one |
| CommandLineParsing.IndexIsLast | src/base/command_line.cc:302-307 | the index maps each key to the value of its last occurrence and has no other keys |
| CommandLineParsing.StablePartition | src/base/command_line.cc:64-84 | each token goes behind the switches or behind the arguments read before it, and none is lost or made up |
| CommandLineParsing.ParseAgain | src/base/command_line.cc:48-84 | parsing what has been parsed changes nothing if and only if no switch is "--" or ends in whitespace with a bare "=" behind it |
| CommandLineParsing.TrimSpec | src/base/command_line.cc:68-69 | trimming leaves no whitespace at the ends, and leaves trimmed strings alone |
| CommandLineParsing.TrimCuts | src/base/command_line.cc:68-69 | nothing but tab, line feed, vertical tab, form feed, carriage return and blank is cut off, and only at the ends |
| CommandLine.InitIsIdempotent | src/base/command_line.cc:216-221 | initialising a fresh command line from argv() gives the same vector, division and index, under the same condition, in both directions |
| CommandLine.IndexAgrees | src/base/command_line.cc:302-319 | recording a switch keeps index and vector in agreement if and only if its name has no "=" |
| CommandLine.CommandLine.AppendSwitchNative | src/base/command_line.cc:302-319 | the token goes behind the switches and before the arguments, the index is updated, and they still agree exactly for names without "=" |
| CommandLine.CommandLine.AppendArgNative | src/base/command_line.cc:363-365 | the argument goes to the end, the switches stay |
| CommandLine.CommandLine.AppendSwitchesAndArguments | src/base/command_line.cc:64-84 | the loop appends exactly the switches and the arguments of the stable partition, and keeps the index in agreement |
| CommandLine.CommandLine.InitFromArgv | src/base/command_line.cc:216-221 | the vector is program, switches, arguments; on a used command line the index keeps what it had |
| CommandLine.CommandLine.SetProgram | src/base/command_line.cc:259-261 | the trimmed program replaces the first entry, nothing else changes |
| CommandLine.CommandLine.HasSwitch | src/base/command_line.cc:263-265 | true exactly if a token in the switch part has that key |
| CommandLine.CommandLine.GetSwitchValueNative | src/base/command_line.cc:286-291 | the value of the last token with that key, or nothing |
| CommandLine.CommandLine.GetArgs | src/base/command_line.cc:339-348 | position by position: the arguments in their order without the first "--", or all of them if there is none |
| CommandLine.CommandLine.AppendArguments | src/base/command_line.cc:367-373 | the switches and arguments of the other command line are appended, and its program if asked |
| CommandLine.CommandLine.CopySwitchesFrom | src/base/command_line.cc:330-337 | a token for each named switch the source has, from another command line or from itself, and the index still agrees |
| CommandLine.WithinExactly | src/base/command_line.cc:330-337 | copied from itself, the index stays as it is throughout if and only if each named switch has the value of the key it is copied to, as switches without a dash have |
| CommandLine.CopiesExactly | src/base/command_line.cc:330-337 | the named switches get their values and no other switch changes, whatever the target had, if and only if no copied name begins with a dash |
| CommandLine.DashedKeyMoves | src/base/command_line.cc:330-337 | a key that begins with a dash is copied to another key |
| CommandLineWindows.BodyIsRead | src/base/command_line.cc:109-132 | inside quotes the tokenizer undoes the escaping of backslash runs and double quotes |
| CommandLineWindows.QuotedIsRead | src/base/command_line.cc:98-138 | the tokenizer undoes the quoting of one argument |
| CommandLineWindows.PrintRoundTrip | src/base/command_line.cc:223-253 | the printed tail is taken apart into the entries behind the program |
| CommandLineQuotedNames.QuotedNameNeverBack | src/base/command_line.cc:235-245 | in place of a switch with a double quote in its name, whatever follows it, another token comes out |
| CommandLineExactness.PrintRoundTripExactly | src/base/command_line.cc:223-253 | the printed tail is taken apart into the entries behind the program if and only if every entry is faithful: not empty, no tab unless quoted, no blank and no double quote in a switch name, no bare "=" at its end |
| CommandLineExactness.EntrySolid | src/base/command_line.cc:98-138 | whatever comes out of one entry is neither empty nor made of tabs, so what one entry loses another cannot make up for |
| CommandLineExactness.PrintsBackExactly | src/base/command_line.cc:98-138 | an entry survives printing and taking apart if and only if it is faithful |
| CommandLineWindows.QuoteForCommandLineToArgvW | src/base/command_line.cc:98-138 | the nested loops over backslash runs compute the quoted form; quotes are put around exactly what has a blank, a backslash or a double quote in it |
| CommandLineWindows.GetCommandLineString | src/base/command_line.cc:223-253 | the loop prints the program and the tail, and the tail of faithful entries can be taken apart again |
| IDMap.IDMap.Add | src/base/id_map.h:59-67 | the item gets the next id and is live; it may be put anywhere |
| IDMap.IDMap.AddWithID | src/base/id_map.h:73-78 | the item is live under its id, the others stay |
| IDMap.IDMap.Remove | src/base/id_map.h:80-94 | the id is no longer live; without iterators the item goes at once, else it stays and is pending |
| IDMap.IDMap.Lookup | src/base/id_map.h:101-107 | finds what is in the table, pending or not |
| IDMap.IDMap.Size | src/base/id_map.h:109-112 | the number of live ids |
| IDMap.IDMap.Compact | src/base/id_map.h:190-197 | exactly the pending items go, the others stay as they are and in their order, and nothing is pending |
| IDMap.IDMap.Destroy | src/base/id_map.h:47-53 | with ownership every added pointer has been released as often as it was added; without, none |
| IDMap.Iterator.constructor | src/base/id_map.h:119-125 | one more iterator, at the first item that is not pending: every item before it is |
| IDMap.Iterator.SkipRemovedEntries | src/base/id_map.h:155-161 | skips pending items only, and stops at one that is not pending |
| IDMap.Iterator.Advance | src/base/id_map.h:148-152 | goes to the next item that is not pending |
| IDMap.Iterator.Destroy | src/base/id_map.h:127-131 | the live ids stay the same; with the last iterator pending items go and the table holds exactly the live ids |
| IDMap.Iterator.VisitsEachOnce | src/base/id_map.h:117-165 | each item come by has been passed exactly once since the iterator was made, and visited exactly if its removal had not been asked for by then; what was pending when the iterator was made is not visited |
| IDMap.Iterator.LoopShows | src/base/id_map.h:117-165 | a loop that has come to its end was shown, in the order of the table and each once, exactly the ids whose removal had not been asked for when they were reached |
| IDMapData.EachOnce | src/base/id_map.h:117-165 | the same of the history of any number of overlapping iterators |
| IDMapData.LoopShowsLive | src/base/id_map.h:117-165 | the same of any sequence of stops; what is live to the end is shown, and what was pending at the start is not |
| IDMapData.TrackPass | src/base/id_map.h:148-161 | an iterator that comes by an item keeps the history of all iterators in order |
| IDMapData.TrackRemoval | src/base/id_map.h:91-93 | a deferred removal keeps it, too |

## Left out

- FileSystem.Disk.Stat: links are not modelled, and ".." leads nowhere, because the tree has neither.
- FileSystem.Disk.Mkdir: paths with ".." behind the anchor are not admitted, for the same reason: the tree does not know where the current directory lies; CreateDirectory.CreateDirectory inherits that.
- FileUtil.FileEnumerator.Next: patterns, SHOW_SYM_LINKS and INCLUDE_DOT_DOT are not modelled; the tree may change between calls only by the unlinking of files that have been returned.
- Enumeration.ComputeDirectorySize: the sum is unbounded, where the program's is a 64-bit integer.
- AtomicSequenceNumber.ThenOverflows: the subtraction of one from that result, which overflows in the program, is not modelled.
- Atomics.Linearizable: steps are sequentially consistent; memory ordering and barriers are not modelled.
- AtExit.AtExitManager.RegisterTask: the lock is not modelled, nor a callback that registers another while callbacks are being run, which would wait for the lock for ever.
- AtExit.AtExitManager.Destroy: the DCHECK that this is the current manager, when there is one, is its precondition.
- LazyInstance.RegisteredOnce: the exit manager is one that does not change during the run.
- CommandLine.CommandLine.AppendArguments: appending a command line with anything behind the program to itself is excluded, because the loop then reads what it appends and never ends.
- CommandLine.CommandLine.AppendSwitchNative: on Windows switch names are also lowercased, which is not modelled.
- CommandLineWindows.PrintRoundTrip: the tokenizer follows the documented rules for backslashes and double quotes; a pair of double quotes inside quotes, which the printer never puts there, is not given a meaning of its own.
- IDMap.IDMap.Add: adding while there are iterators is left out, because the hash table may then reorder under them; so is the overflow of the next id, and a null pointer is a pointer like any other.
- IDMap.Iterator.Advance: iterators are not copied, which the program allows by default and which would unbalance the depth.
- FileDescriptorClosing.FinalLoopIsSafe: says when no run closes a descriptor twice, not exactly when; a run with a source that is not open may be unable to get to its end, and which can depends on all descriptors handed out before.
- File operations other than those above (copying, moving, reading and writing files, memory mapping), message loops, pickling, string conversions and platform code for other systems are not part of this model.
- InsertBeforeExtension and ReplaceExtension are compositions of the two extension functions modelled here.
- PrependWrapper moves the program into the switch part and is outside the invariant of CommandLine.
