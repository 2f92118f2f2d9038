# Fennix kernel: verified models

A Dafny model of the algorithms at the heart of the Fennix kernel, with proofs of what they
keep, restore and compute. `dafny verify dfyconfig.toml` checks all of it.

| file | what it models |
|---|---|
| `CrcTable.dfy`, `Crc32.dfy` | the table-driven CRC-32, against polynomial division over bits |
| `SpinLock.dfy`, `LockCounters.dfy`, `LockExclusion.dfy` | the spin lock as a step system of any number of threads and locks |
| `LockCalls.dfy` | what its calls do as a whole |
| `IniText.dfy` | the ini text format: scanner, printer, and when printing and reading back restores a document |
| `IniLines.dfy` | what the scanner makes of any text, and what the printer writes, line by line |
| `IniStore.dfy` | the ini object: loading, saving into a buffer, finding, adding and swap-with-last removal |
| `HashMap.dfy` | the open-addressing hash map with deleted slots |
| `Path.dfy` | path segments and normal forms of the cwalk library, Unix style |
| `Buffer.dfy` | what a bounded buffer shows of a text, for the ini printer and the path normalisation |
| `PathJoined.dfy` | its iterator over several paths as one, and the normalisation that runs it both ways into a buffer |
| `Vfs.dfy` | the node cache of the virtual file system: Lookup, Create, Remove |
| `UstarArchive.dfy` | walking and renaming the headers of a USTAR archive in memory |
| `UstarTree.dfy` | building the directory tree in one pass with a stack, and numbering the children |
| `UstarDir.dfy` | reading a directory in pieces |
| `UstarLookup.dfy`, `UstarReader.dfy` | looking names up in that tree; the reader as a whole, and behind the virtual file system |
| `Circular.dfy`, `Ring.dfy`, `Tty.dfy` | the ring buffer and the terminal buffer |
| `List.dfy` | the intrusive doubly linked list |
| `Symbols.dfy` | the symbol resolver: in-place selection sort and scan from the end |

Objects that the kernel updates in place are classes here, buffers and memory are arrays, arrays
that grow are sequences in a field, and loops stay loops; each such method is proved against a
function or predicate on values, and the properties are proved about those. Integers are unbounded except where a width matters: the
CRC register and its table (32 bits), the lock counters and symbol addresses (64 bits, wrapping),
the archive's sizes (32 bits, wrapping) and the length field of a directory record (16 bits).

## What turned out not to hold

For each of these a condition says exactly when the code does what one would expect, and inputs
outside it, one or a whole family, show that it matters.

- Ini text: a property with an empty name, or a section `[]`, has length zero, which the
  adding functions take to mean "measure the string", so the name runs on to the end of the
  file. Saving and loading restores a document exactly when it is well formed
  (`IniText.RoundTrip`, `IniStore.SaveAndLoad`, `IniText.EmptyNameLost`).
- Spin lock: two threads can be inside together after a forced unlock. Every reachable state is
  exclusive exactly when ForceUnlock and Config.UnlockDeadLock are never set and no TimeoutLock
  expires, or there are less than two threads or no lock (`LockExclusion.ExclusionExact`); each of the
  three reasons has its breaking run, for every timeout (`LockExclusion.ExclusionBroken`).
- Hash map: adding a key that sits behind a deleted slot stores it twice, and deleting it again
  brings the old value back. AddNode is a map update exactly when the key does not sit there
  (`HashMap.AddedIsUpdate`, `HashMap.ShadowedSurvives`, `HashMap.StaleEntry`). AddNode and
  DeleteNode can also go round for ever (`HashMap.AddLoops`, `HashMap.FindLoops`), as they do after
  adding twenty keys (`HashMap.FullTableLoops`).
- Virtual file system: a relative path other than `.` and `..` that leads to the root is
  answered with the starting directory (`Vfs.Virtual.LookupIsWalk`, `Vfs.Virtual.UpAndSlash`). After
  Remove the cache is coherent exactly when before it no other node of the directory's inode, among
  those that stay in the tree, had a cached child of that name (`Vfs.Virtual.Remove`,
  `Vfs.AliasGoesStale`). After Create with a name that was not there it is coherent exactly when
  the name is one segment other than `.` and `..` (`Vfs.Virtual.Create`, `Vfs.SlashGoesAstray`).
- USTAR: entries get the right parents exactly when the archive starts with `/` and is listed
  depth first (`UstarTree.BuildTree`, `UstarTree.Reopened`). Sizes are held in 32 bits, so the next
  header is found exactly when the file is smaller than 4 GiB (`UstarArchive.StrideExact`). A size is
  read up to a zero, although the format lets a number also end in a blank, and whatever stands
  before the zero counts as more digits. The walk visits exactly the files' headers if and only if
  each number so read fills as many blocks as the file (`UstarArchive.WalkExact`,
  `UstarArchive.StepRunsOn`). After a single blank and a zero that is so for files of 3 to 66 bytes
  and for no others up to 512 MiB (`UstarArchive.BlankAfterSize`), an empty file sends the reader 4 GiB
  on (`UstarArchive.BlankMisleads`), and after a blank and a time in eleven digits the time is taken for
  the size (`UstarArchive.TimeForSize`). A name
  of 100 characters runs on into the mode field (`UstarArchive.NameRead`). ReadDir answers zero
  bytes also when the next entry does not fit (`UstarDir.ZeroMeans`), and stays inside its buffer
  exactly when no name is too long for a 16-bit record length (`UstarDir.ReadingInside`,
  `UstarDir.OutsideIfLong`, `UstarDir.LongNameOutside`); the names of an archive never are
  (`UstarReader.ReadArchive`). Every entry is found under its own path exactly when no path has a dot
  segment and no two are the same (`UstarLookup.EveryEntryFound`, `UstarLookup.TwinHidden`,
  `UstarLookup.DotHidden`), and one entry exactly when its path has no dot segment and no entry
  stands before it, or before a directory on the way to it, with the same name in the same
  directory (`UstarLookup.EntryFound`).
- Ring buffer: the documentation of Peek says it stops at the end of the data, but the loop only
  tests for an empty buffer, and the count does not change while peeking. It shows what Read would
  give exactly when no more is asked for than is there, or nothing is there (`Ring.RingBuffer.Peek`).
- Terminal buffer: writing never stops, and a full turn makes everything unread disappear
  (`Tty.WrittenIsLast`, `Tty.WrittenIsAppend`).
- Symbols: of two images the second answers every address that one of its symbols reaches, so that
  loaded below the first it hides the first one's symbols (`Symbols.ResolveTwo`, `Symbols.HidesSymbol`).
  Addresses are resolved right everywhere exactly when no symbol is followed by a lower one without
  being repeated (`Symbols.RightEverywhere`, `Symbols.HiddenSymbol`).

## Model

| member | source | states |
|---|---|---|
| `CrcTable.Entry` | Kernel/library/crc32.c:20-85 | every one of the 256 table entries is its index, as the top byte, multiplied by x eight times modulo the generator 0x04C11DB7 |
| `Crc32.TableStepIsFeed` | Kernel/library/crc32.c:92 | one table-driven step equals feeding the byte's eight bits, most significant first, into the bitwise division register |
| `Crc32.Compute` | Kernel/library/crc32.c:87-96 | for every buffer and length the loop returns the bit-by-bit division register over exactly that prefix, from the all-ones preset and without a final XOR; with length 0 it returns 0xFFFFFFFF |
| `Crc32.PresetIsOnes` | Kernel/library/crc32.c:89 | the preset is 32 ones, and that is the CRC of no bytes |
| `Crc32.CrcIsTheRemainder` | Kernel/library/crc32.c:87-96 | any polynomial of fewer than 32 coefficients left over when some multiple of the generator is taken from (message times x^32, preset added at the top) is the CRC |
| `Crc32.CrcIsARemainder` | Kernel/library/crc32.c:87-96 | the CRC is such a remainder: some multiple of the generator leaves it |
| `Crc32.RemainderUnique` | Kernel/library/crc32.c:87-96 | quotient and remainder by the generator are unique |
| `Crc32.FeedIsRemainder` | Kernel/library/crc32.c:87-96 | feeding bits into a preset register is long division of the corresponding dividend |
| `Crc32.CrcAppend` | Kernel/library/crc32.c:87-96 | the CRC of a concatenation continues from the first part's state |
| `Crc32.FeedInjective` | Kernel/library/crc32.c:92 | feeding any bits is injective on states |
| `Crc32.FeedOnto` | Kernel/library/crc32.c:92 | and onto: every state has a predecessor, so a step is a bijection |
| `Crc32.OneByteDetected` | Kernel/library/crc32.c:87-96 | two messages of equal length that differ in exactly one byte have different CRCs |
| `Crc32.BurstDetected` | Kernel/library/crc32.c:87-96 | two messages of equal length that differ only within 32 consecutive bits have different CRCs |
| `Crc32.AppendedCrc` | Kernel/library/crc32.c:87-96 | four bytes after a message make the CRC zero if and only if they are its CRC in big-endian order |
| `SpinLock.StepInv` | Kernel/core/lock.cpp:108-255 | the invariant relating flag, counters and program points survives every step of every thread, forced unlocks included |
| `SpinLock.RunInv` | Kernel/core/lock.cpp:108-255 | it holds after every schedule of steps |
| `SpinLock.InsideExact` | Kernel/core/lock.cpp:146-188 | in every reachable state the threads between their successful exchange and their own unlock store are one if the flag is set, plus the forced unlocks that found it set, less the owners' unlocks that found it clear |
| `SpinLock.ExclusionBound` | Kernel/core/lock.cpp:146-188 | so they are at most one if the flag is set, plus the forced unlocks so far |
| `SpinLock.MutualExclusion` | Kernel/include/lock.hpp:39-184 | without forced unlocks the flag is set exactly when a thread is inside, and no two are |
| `SpinLock.TimeoutExitLost` | Kernel/core/lock.cpp:152-163 | a thread leaves the spin loop through the timeout exactly when its last exchange did not get the lock, so it never goes on with the lock unless it won it |
| `LockCounters.CountersAtRest` | Kernel/core/lock.cpp:165-188 | when no thread is in the middle of an operation, Count and LocksCount are the holders less the forced unlocks, modulo the word size |
| `LockCounters.CountersExact` | Kernel/core/lock.cpp:93-188 | without forced unlocks, at rest, Count is 1 if the lock is held and 0 otherwise, and LocksCount is the number of held locks |
| `LockCounters.HolderRecorded` | Kernel/core/lock.cpp:165-188 | without forced unlocks CurrentHolder of a held lock is the function name that its holder passed to Lock |
| `LockCalls.LockCall` | Kernel/core/lock.cpp:146-178 | from any state, Lock or TimeoutLock on a free lock ends with the thread holding just that lock, Count and LocksCount one higher, CurrentHolder the caller's name, and nothing else changed |
| `LockCalls.UnlockCall` | Kernel/core/lock.cpp:179-188 | Unlock by the holder ends with the thread outside, that lock free, both counters one lower, and nothing else changed |
| `LockCalls.LockThenUnlock` | Kernel/core/lock.cpp:146-188 | one after the other they change nothing but the holder's name |
| `LockCalls.SpinCall` | Kernel/core/lock.cpp:151-163 | on a taken lock a call makes as many exchanges as the timeout says, for every timeout, changes nothing, and comes to the handler of its kind |
| `LockCalls.DeadLockForced` | Kernel/core/lock.cpp:108-117 | DeadLock with ForceUnlock clears the deadlocks and unlocks, and the call starts over |
| `LockCalls.DeadLockCounted` | Kernel/core/lock.cpp:132-143 | without it, and without Config.UnlockDeadLock or up to the tenth deadlock, it counts one and the call starts over |
| `LockCalls.DeadLockUnlocks` | Kernel/core/lock.cpp:132-143 | with Config.UnlockDeadLock, from the eleventh on, it clears the deadlocks and unlocks |
| `LockCalls.TimeoutCall` | Kernel/core/lock.cpp:190-218 | TimeoutDeadLock unlocks if the time is over and changes nothing otherwise, and the call starts over |
| `LockCalls.StepKeeps` | Kernel/core/lock.cpp:108-255 | among any other threads, a step moves no other thread, changes no lock but the one its thread asked for, and keeps the thread on that lock and its caller's name until the call is over |
| `LockCalls.AloneIsRun` | Kernel/core/lock.cpp:108-255 | these calls are runs of the step system |
| `LockExclusion.QuietExcludes` | Kernel/core/lock.cpp:108-255 | in a run that sees neither ForceUnlock, nor Config.UnlockDeadLock, nor an expired TimeoutLock, no two threads are ever inside one lock |
| `LockExclusion.ExclusionBroken` | Kernel/core/lock.cpp:108-255 | with any one of the three, for every timeout and any two or more threads, a run puts two threads inside: at once with ForceUnlock, after more than ten deadlocks with UnlockDeadLock, or when the time is over |
| `LockExclusion.ExclusionExact` | Kernel/core/lock.cpp:108-255 | all reachable states are exclusive if and only if none of the three can be seen, or there are less than two threads or no lock |
| `IniText.LoadSave` | Kernel/include/ini.h:502-648 | loading the saved text of a well-formed document gives the same sections and its properties grouped by section, each group in order |
| `IniText.RoundTrip` | Kernel/include/ini.h:502-648 | saving and loading restores section names and each section's properties in order if and only if section 0 is unnamed, other section names are non-empty without `]` or line break, property names are non-empty, do not begin like a comment, section or blank and contain no `=` or line break, and values have no line break and no outer blanks |
| `IniText.RestoredIsWellFormed` | Kernel/include/ini.h:502-648 | no other document is restored, although a name that runs on to the end of the file could in principle be its own text |
| `IniText.EmptyNameLost` | Kernel/include/ini.h:782-868 | a property with an empty name is never restored, whatever its value |
| `IniText.LoadTerminated` | Kernel/include/ini.h:502-575 | what follows the terminator of a text makes no difference to loading it |
| `IniText.ItemsLoaded` | Kernel/include/ini.h:517-571 | from any text, each item loaded is within the format or is a name that runs to the end of the text from a `=` or `]` |
| `IniText.LineIsRead` | Kernel/include/ini.h:517-571 | scanning from any earlier place finds every item that scanning from a later start of a line finds |
| `IniLines.LoadIsLines` | Kernel/include/ini.h:502-572 | loading any text is adding, line after line, what the line says: nothing for a comment, an empty line, a section that is not closed or a line without `=`; a section up to its `]` and then what follows it; a name and its value without outer blanks; and for an empty name all of the text from there on |
| `IniLines.CommentSkipped` | Kernel/include/ini.h:527-531 | anywhere in any text, a line that begins with `;`, indented or not, gives nothing |
| `IniLines.CommentIgnored` | Kernel/include/ini.h:527-531 | loading a comment line and a text is loading from the text on |
| `IniLines.BlankIsSigned` | Kernel/include/ini.h:519-563 | blank are the bytes up to that of a space as signed numbers |
| `IniLines.SectionPrinted` | Kernel/include/ini.h:575-640 | a section is printed as its name in brackets unless it is empty, its properties as `name=value` lines in order, and an empty line once there is any text |
| `IniLines.SavedText` | Kernel/include/ini.h:575-640 | the exact text of any document with a property outside sections and one in a section |
| `IniStore.Ini.constructor` | Kernel/include/ini.h:484-499 | a new object has one unnamed section and no properties |
| `IniStore.Ini.Load` | Kernel/include/ini.h:502-575 | on every text, ended by a zero or not, the loop with its backward trimming ends and builds exactly the items of the format; every property belongs to an existing section |
| `IniStore.Ini.Save` | Kernel/include/ini.h:578-648 | the sizing pass and the writing pass agree: the result is the length of the text plus one, and a buffer holds as much of the text and its zero as fits, with everything after it untouched |
| `IniStore.SaveAndLoad` | Kernel/include/ini.h:502-648 | through any buffer that is long enough, whatever it held, saving and loading gives an object with the same contents if and only if they are well formed |
| `IniStore.Ini.SectionAdd` | Kernel/include/ini.h:782-815 | one section is appended under the name the length selects, and its index returned |
| `IniStore.Ini.PropertyAdd` | Kernel/include/ini.h:818-868 | one property is appended for an existing section, and nothing happens for any other index |
| `IniStore.Ini.SectionRemove` | Kernel/include/ini.h:871-896 | the in-place backwards loop with swap-with-last and renumbering computes SectionRemoved, for indexes out of range too, and keeps section indexes valid |
| `IniStore.SectionRemovedKeeps` | Kernel/include/ini.h:871-896 | every remaining section keeps its name and its multiset of properties, the last section taking the freed index, and nothing of the removed section stays |
| `IniStore.SectionRemovedValid` | Kernel/include/ini.h:871-896 | all section indexes stay below the section count |
| `IniStore.Ini.PropertyRemove` | Kernel/include/ini.h:899-914 | removal by rank within a section computes PropertyRemoved |
| `IniStore.PropertyRemovedKeeps` | Kernel/include/ini.h:899-914 | exactly the chosen property goes, as a multiset, and nothing else changes |
| `IniStore.Ini.PropertyIndex` | Kernel/include/ini.h:462-481 | the index of the property of a given rank in a section, or minus one |
| `IniStore.NothingRemoved` | Kernel/include/ini.h:871-915 | removing a section or property that is not there changes nothing |
| `IniStore.MatchesIsSameLetters` | Kernel/include/ini.h:747-771 | two names match if and only if they have the same length and differ at most in the case of letters of the alphabet |
| `IniStore.SelectFinds` | Kernel/include/ini.h:462-481 | such an index exists exactly for ranks below the number of properties of the section, and its rank is the one asked for |
| `IniStore.SelectRank` | Kernel/include/ini.h:462-481 | selecting by the rank of a property gives that property back |
| `IniStore.Ini.PropertyCount` | Kernel/include/ini.h:687-703 | the number of properties of the section |
| `IniStore.Ini.FindSection` | Kernel/include/ini.h:736-753 | the first section that matches the name regardless of case, or minus one if none does |
| `IniStore.Ini.FindProperty` | Kernel/include/ini.h:756-779 | the rank of the first property of the section that matches the name regardless of case, or minus one |
| `HashMap.RunIsMapRun` | Kernel/include/hashmap.hpp:64-119 | over any run of calls that return and never add a key behind a deleted slot, all answers are those of a finite map and the number of nodes is the number of keys |
| `HashMap.AddedIsUpdate` | Kernel/include/hashmap.hpp:66-80 | AddNode is a map update if and only if the key does not sit behind a deleted slot of its probe path |
| `HashMap.ShadowedSurvives` | Kernel/include/hashmap.hpp:66-99 | otherwise deleting the key afterwards restores the whole table from before, old value included |
| `HashMap.StaleEntry` | Kernel/include/hashmap.hpp:66-117 | a run from the empty map in which a deleted key is still found |
| `HashMap.FoundIsLookup` | Kernel/include/hashmap.hpp:101-117 | Get answers the value of the key in the map, or the error value |
| `HashMap.RemovedIsRemove` | Kernel/include/hashmap.hpp:82-99 | DeleteNode takes exactly that key out of the map and keeps every other key reachable |
| `HashMap.SizeIsKeys` | Kernel/include/hashmap.hpp:119 | the number of nodes is the number of different keys |
| `HashMap.AddLoops` | Kernel/include/hashmap.hpp:71-75 | AddNode never returns if and only if the map holds 20 keys and not this one |
| `HashMap.FindLoops` | Kernel/include/hashmap.hpp:86-97 | DeleteNode never returns if and only if the key is absent and no slot was never used |
| `HashMap.FullTableLoops` | Kernel/include/hashmap.hpp:66-99 | after adding twenty keys to a new map, adding or deleting any other key never returns |
| `HashMap.Nodes.constructor` | Kernel/include/hashmap.hpp:45-53 | a new table stands for the empty map |
| `HashMap.Nodes.AddNode` | Kernel/include/hashmap.hpp:66-80 | for every call and every number of turns of its loop: it is done within them exactly when AddLoops does not apply and the first free or matching slot is that near, with the node in that slot and the size kept; otherwise nothing is changed yet |
| `HashMap.Nodes.DeleteNode` | Kernel/include/hashmap.hpp:82-99 | likewise: done with what Get would return, the slot marked deleted and the size kept, or still going with nothing changed |
| `HashMap.Nodes.Get` | Kernel/include/hashmap.hpp:101-117 | always returns, within 21 probes, also when no slot is free, with the value of the first matching slot |
| `HashMap.Nodes.Size` | Kernel/include/hashmap.hpp:119 | the number of keys of the map |
| `Path.KindIs` | Kernel/library/cwalk.c:1358-1371 | `.` and `..` are the only segments that are not names |
| `Path.FirstSegment` | Kernel/library/cwalk.c:222-263 | finds the first segment after root and separators, and what remains has the remaining segments |
| `Path.NextSegment` | Kernel/library/cwalk.c:1289-1325 | finds the next segment or leaves the old one, for any number of separators |
| `PathJoined.PreviousSegment` | Kernel/library/cwalk.c:1327-1356 | finds the segment before, for any number of separators, exactly when there is one |
| `PathJoined.FirstJoined` | Kernel/library/cwalk.c:285-306 | stands on the first segment of all paths, or says that they have none |
| `PathJoined.NextJoined` | Kernel/library/cwalk.c:308-345 | moves over paths without segments to the next segment of the joined list, and fails exactly at its end |
| `PathJoined.PreviousJoined` | Kernel/library/cwalk.c:347-388 | is its inverse, and fails exactly at the beginning |
| `PathJoined.CursorSplits` | Kernel/library/cwalk.c:285-388 | the segments before, at and after any position of the iterator are all segments of all paths |
| `PathJoined.BackWillBeRemoved` | Kernel/library/cwalk.c:390-430 | looking back with a counter says whether a name is left for `..` to take, as a stack would |
| `PathJoined.NormalWillBeRemoved` | Kernel/library/cwalk.c:432-467 | looking ahead with a counter says whether some later `..` takes this segment |
| `PathJoined.WillBeRemoved` | Kernel/library/cwalk.c:469-489 | exactly the segments that the stack form drops are dropped |
| `Path.ResolvedIsLeft` | Kernel/library/cwalk.c:390-489 | for every stack and every list of segments, resolving on the stack equals cutting what is pending and keeping what the counters keep |
| `PathJoined.JoinAndNormalize` | Kernel/library/cwalk.c:633-707 | for any number of paths and any buffer: the result is the length of the normal form that the stack gives, and the buffer holds as much of it as fits with a terminator, and is unchanged behind that |
| `PathJoined.OutputSized` | Kernel/library/cwalk.c:69-98 | writes what fits and answers the whole length |
| `PathJoined.TerminateOutput` | Kernel/library/cwalk.c:140-150 | a buffer of at least one character always ends up terminated |
| `Path.NormalFits` | Kernel/fs/vfs.cpp:41-58 | a normal form is at most one character longer than its two paths together, so the buffers that the virtual file system reserves always suffice |
| `PathJoined.Join` | Kernel/fs/vfs.cpp:44-51 | joining in such a buffer gives the whole normal form |
| `Path.SegmentsRendered` | Kernel/library/cwalk.c:633-707 | splitting a written path gives its segments and root back |
| `Path.ResolvedAbsolute` | Kernel/library/cwalk.c:469-489 | a rooted path normalises to names only, without `.` or `..` |
| `Path.JoinNormalFirst` | Kernel/library/cwalk.c:888-902 | normalising the first path before joining changes nothing |
| `Path.NormalIdempotent` | Kernel/library/cwalk.c:1174-1184 | normalising twice is normalising once |
| `Vfs.NodeCache.CachedSearch` | Kernel/include/fs/node.hpp:157-177 | the cached child of that name, or none exactly when no child has it |
| `Vfs.Virtual.constructor` | Kernel/fs/vfs.cpp:24-29 | a root alone is a coherent cache |
| `Vfs.Virtual.Attach` | Kernel/fs/vfs.cpp:31-39 | adds one child and keeps the whole cache coherent: children point back, carry the right path and the file system's inode, and have different names |
| `Vfs.Virtual.NormalizePath` | Kernel/fs/vfs.cpp:41-58 | gives a rooted normal path with the segments of the target, never cut off |
| `Vfs.Virtual.Child` | Kernel/fs/vfs.cpp:183-219 | one step down reaches the file system's inode or error, from the cache or by asking, and stays coherent |
| `Vfs.Virtual.Lookup` | Kernel/fs/vfs.cpp:135-223 | after any history, reaches the inode or the error of the uncached walk from the root, in a node hanging where the path says, and keeps the cache coherent; paths to the root are answered without a walk |
| `Vfs.Virtual.LookupIsWalk` | Kernel/fs/vfs.cpp:135-223 | from a directory in the tree this is the uncached walk for every path if and only if the path is not a relative one, other than `.` and `..`, that leads to the root from elsewhere |
| `Vfs.Virtual.UpAndSlash` | Kernel/fs/vfs.cpp:157-166 | `../` in any directory right under the root is answered with that directory, not the root |
| `Vfs.Virtual.CacheAgrees` | Kernel/fs/vfs.cpp:185-219 | every cached node has the inode that an uncached walk along its names reaches |
| `Vfs.Virtual.SameTrail` | Kernel/fs/vfs.cpp:185-219 | no two nodes of the tree have the same path |
| `Vfs.Virtual.Create` | Kernel/fs/vfs.cpp:225-254 | for any name and any node: what Lookup finds gives EEXIST or its node, and what it does not find the file system's error or a node with its inode, hung below the directory under the normalised path; for an entry new to the file system the cache is then coherent if and only if the name is one segment other than `.` and `..`; for such a name in a directory of the tree the node stands where the name says |
| `Vfs.SlashGoesAstray` | Kernel/fs/vfs.cpp:225-254 | creating any plain name with a separator behind it hangs a node under that text whose path is that of the plain name, and the cache is not coherent |
| `Vfs.Virtual.Remove` | Kernel/fs/vfs.cpp:256-274 | a successful removal leaves the directory exactly its children of other names and takes the child and what hangs below it out of the tree, a failed one changes nothing; the cache is then coherent with the changed file system if and only if before the call no other node with the directory's inode, among those that stay in the tree, had a cached child of that name |
| `Vfs.AliasGoesStale` | Kernel/fs/vfs.cpp:256-274 | a run in which two directories share an inode and a removal through one leaves the other's cached child behind |
| `UstarArchive.FieldsRead` | Kernel/include/fs/ustar.hpp:57-77 | in a block made of the structure's seventeen fields at their widths the reader takes the magic from the signature, the name from the first field and the size from the fifth |
| `UstarArchive.HeaderIsWritten` | Kernel/include/fs/ustar.hpp:57-77 | such a block is a header in the sense of ReadsFiles, of the file with that name, run on into the mode if it fills its field, and that size |
| `UstarArchive.StrideIs` | Kernel/fs/ustar.cpp:634-637 | in bytes the step is 512 and the size rounded up to a multiple of 512 |
| `UstarArchive.DigitIsSigned` | Kernel/include/fs/ustar.hpp:95-105 | a digit is the signed number of its byte less 48 |
| `UstarArchive.PathOfIs` | Kernel/fs/ustar.cpp:597-600 | `./` at the beginning loses its dot, and every other name stays |
| `UstarArchive.GetSize` | Kernel/include/fs/ustar.hpp:95-105 | the octal number of the text, modulo 2^32 |
| `UstarArchive.OctalDigits` | Kernel/include/fs/ustar.hpp:95-105 | reading back a size written in octal digits gives the size modulo 2^32 |
| `UstarArchive.StrideExact` | Kernel/fs/ustar.cpp:634-639 | the step to the next header is right if and only if the size is below 2^32 |
| `UstarArchive.SizeRunsOn` | Kernel/include/fs/ustar.hpp:95-105 | the digits of a size with any text behind them are read as the size shifted by the length of the text, plus the text's own value in base eight, modulo 2^32 |
| `UstarArchive.StepRunsOn` | Kernel/fs/ustar.cpp:634-639 | with any text behind the digits the step is right if and only if that number fills as many blocks as the size |
| `UstarArchive.BlankAfterSize` | Kernel/fs/ustar.cpp:634-639 | with one blank behind the digits, for all sizes up to 2^29, the step is right if and only if the size is 3 to 66 |
| `UstarArchive.SizeRunsOut` | Kernel/include/fs/ustar.hpp:95-105 | with eleven or more characters behind it nothing is left of any size text: the number read is what those characters say |
| `UstarArchive.TimeForSize` | Kernel/include/fs/ustar.hpp:95-105 | a size that runs on into eleven or more digits of the time field gives the time modulo 2^32 |
| `UstarArchive.WalkExact` | Kernel/fs/ustar.cpp:584-641 | the walk over an archive visits the header of every file where it stands, and then ends, if and only if every file's size text steps right |
| `UstarArchive.BlankMisleads` | Kernel/fs/ustar.cpp:584-641 | in every archive that begins with an empty file whose size ends in a blank and a zero, the second block visited is 4 GiB beyond the next header |
| `UstarArchive.Advance` | Kernel/fs/ustar.cpp:634-637 | the step is a header block and as many blocks as the data fill |
| `UstarArchive.ReadHeaders` | Kernel/fs/ustar.cpp:584-641 | on every image in memory: visits headers, each at the step from the one before, moves each name that begins with `./` down by one, even where that reaches into other fields, reads name and size afterwards, and ends at the first block without magic or without memory |
| `UstarArchive.MoveDown` | Kernel/fs/ustar.cpp:597-600 | the move over the length of the string, terminator included |
| `UstarArchive.RenamedHeader` | Kernel/fs/ustar.cpp:597-600 | in the header of a file it drops the leading dot and changes nothing from the end of the name on |
| `UstarArchive.ReadsFiles` | Kernel/fs/ustar.cpp:584-641 | for every archive of headers and padded data ended by a block without magic, whose size texts, up to a zero, step right, as digits of a size below 2^32 do, and whatever owner, times, checksum, type and version its headers hold, the listing is exactly its files in order |
| `UstarArchive.KeepsData` | Kernel/fs/ustar.cpp:584-641 | and memory changes in no byte of it outside the names |
| `UstarArchive.EncodeLaidOut` | Kernel/fs/ustar.cpp:584-641 | writing any files, with anything in the other fields of their headers, gives such an archive |
| `UstarArchive.NameRead` | Kernel/fs/ustar.cpp:594-630 | the name read is the name written, followed by the mode text when it fills its 100 characters |
| `UstarTree.GetDirname` | Kernel/library/cwalk.c:1049-1064 | the path up to its last segment |
| `UstarTree.DirnameIs` | Kernel/library/cwalk.c:1049-1064 | that is the part before a last run of non-separators that only separators follow |
| `UstarTree.BuildTree` | Kernel/fs/ustar.cpp:643-760 | for every listing, the pass runs without popping an empty stack and gives every entry but the first the parent its path names if and only if the listing starts with `/` and is depth first; then each entry is once among its parent's children, in archive order |
| `UstarTree.Builder.AddDirectory` | Kernel/fs/ustar.cpp:659-715 | whatever the stack holds: a directory is hung below and opened on the last open directory of its path, and those above are closed; without one it goes one level up, or off the stack exactly when only one is open |
| `UstarTree.Builder.AddFile` | Kernel/fs/ustar.cpp:717-759 | a file is hung below the open directory of its path, exactly once although the loop goes on when no two open paths are the same, or nothing changes |
| `UstarTree.OpenNested` | Kernel/fs/ustar.cpp:643-760 | open directories are strictly nested |
| `UstarTree.OpenListStep` | Kernel/fs/ustar.cpp:680-700 | popping to an entry's directory leaves exactly the directories that are still open |
| `UstarTree.Reopened` | Kernel/fs/ustar.cpp:736-759 | an entry of a directory that was left is not depth first |
| `UstarTree.Number` | Kernel/fs/ustar.cpp:762-792 | every entry below a node gets two plus its rank among its siblings as offset, and no other offset changes |
| `UstarTree.Arrange` | Kernel/fs/ustar.cpp:643-792 | both passes on a depth-first listing: every directory's children point back and are numbered 2, 3, and so on |
| `UstarDir.ReadDir` | Kernel/fs/ustar.cpp:213-372 | the answer for every size, offset and limit: the dots, then the children from the offset on that are not deleted, as many as fit and are allowed, or the error |
| `UstarDir.ListingIs` | Kernel/fs/ustar.cpp:226-357 | a whole listing is `.` with the directory's inode and offset 0, `..` with the parent's and offset 1, and for each child that is not deleted, in order, a record of its inode, offset and name with 20 bytes beside the name |
| `UstarDir.ListingFrom` | Kernel/fs/ustar.cpp:302-357 | from a later offset on it is the records of just the children from there |
| `UstarDir.DotsListed` | Kernel/fs/ustar.cpp:226-264 | with more than 43 bytes a first call begins with those two |
| `UstarDir.WhenFails` | Kernel/fs/ustar.cpp:226-304 | exactly when a call fails and with which number: EINVAL without room for the dot that is due or behind the last child, ENOTDIR for what is no directory; without room for `..` it still lists `.` |
| `UstarDir.FillStops` | Kernel/fs/ustar.cpp:302-357 | a call stops only at the limit, at the end, or at a record that does not fit |
| `UstarDir.SessionIsPrefix` | Kernel/fs/ustar.cpp:213-372 | for any series of buffers and limits, resuming after the last offset, the records are a prefix of `.`, `..` and the children that are not deleted: none twice, none skipped, in order |
| `UstarDir.SessionIsComplete` | Kernel/fs/ustar.cpp:213-372 | with just the room that the next entry needs at each call, as many calls as entries list everything |
| `UstarDir.ReadingResumes` | Kernel/fs/ustar.cpp:213-372 | each answer is a prefix of what is left and resuming leaves exactly the rest |
| `UstarDir.EndIsZero` | Kernel/fs/ustar.cpp:306-371 | at the end of the listing every call answers zero bytes |
| `UstarDir.ZeroMeans` | Kernel/fs/ustar.cpp:306-371 | among the children zero bytes are answered if and only if the listing has ended, no entry is allowed, or the next one does not fit |
| `UstarDir.ReadingFits` | Kernel/fs/ustar.cpp:213-372 | the record lengths never add up to more than the buffer |
| `UstarDir.ReadingInside` | Kernel/fs/ustar.cpp:213-372 | every call, with any offset, keeps the fields and names it writes inside the buffer if and only if no child's name, with its record, needs 2^16 bytes or more |
| `UstarDir.OutsideIfLong` | Kernel/fs/ustar.cpp:312-357 | for any longer name, a call that writes past its buffer |
| `UstarDir.LongNameOutside` | Kernel/fs/ustar.cpp:312-357 | a directory whose one child has a name of 65516 characters: the record length is 0, and a call with an empty buffer writes 65535 bytes |
| `UstarDir.ArrangedIsNumbered` | Kernel/fs/ustar.cpp:762-792 | the numbering of the tree is the one these results need |
| `UstarLookup.Lookup` | Kernel/fs/ustar.cpp:32-81 | the first child, or without a parent the first file in the order of the map, that is not deleted and has the name; the root for `/`, EINVAL for other paths without a segment, ENOENT otherwise |
| `UstarLookup.LookupRefuses` | Kernel/fs/ustar.cpp:32-81 | refused are just the paths without a segment other than `/`, with EINVAL, and the names that no child left has, with ENOENT |
| `UstarLookup.SegmentIsKey` | Kernel/fs/ustar.cpp:36-58 | a single segment is compared as it is |
| `UstarLookup.SeparatorInKey` | Kernel/fs/ustar.cpp:36-58 | a name with a trailing separator is compared with that separator, because the comparison runs to the end of the string |
| `UstarLookup.LookupIsEntries` | Kernel/fs/ustar.cpp:51-63 | on a fresh tree this is the entry of least inode with that parent and base name |
| `UstarLookup.DirnameAndBasename` | Kernel/library/cwalk.c:975-1064 | the segments of a path are those of its directory name and then its base name |
| `UstarLookup.WalkFindsForemost` | Kernel/fs/ustar.cpp:32-81 | walking down the segments of an entry's path from the root ends at that entry if and only if no entry stands before it, or before a directory on the way to it, with the same name in the same directory |
| `UstarLookup.PathLeadsToEntry` | Kernel/fs/ustar.cpp:32-81 | if no directory has two children of one name, walking down the segments of any entry's path from the root ends at that entry |
| `UstarLookup.InPlaceIsRooted` | Kernel/fs/ustar.cpp:643-760 | the tree of a depth-first archive is one to which that applies |
| `UstarLookup.WalkIsSegments` | Kernel/fs/ustar.cpp:32-81 | a walk from the root reaches an entry only along the segments of its own path |
| `UstarLookup.EveryEntryFound` | Kernel/fs/ustar.cpp:32-81 | every entry is reached under its normalised path if and only if no path has a `.` or `..` segment and no two paths have the same segments |
| `UstarLookup.EntryFound` | Kernel/fs/ustar.cpp:32-81 | an entry is reached under its normalised path if and only if the path has no `.` or `..` segment and the entry is foremost in that sense |
| `UstarLookup.TwinHidden` | Kernel/fs/ustar.cpp:32-81 | a depth-first archive of `/`, `/a` and `/a`, whose last entry is not reached |
| `UstarLookup.DotHidden` | Kernel/fs/ustar.cpp:32-81 | a depth-first archive of `/` and `/.`, whose last entry is not reached |
| `UstarReader.MakeNodes` | Kernel/fs/ustar.cpp:601-632 | one node per entry with its inode number, path and base name |
| `UstarReader.ReadArchive` | Kernel/fs/ustar.cpp:512-793 | from the bytes of a depth-first archive to the arranged tree of exactly its files, with their names, nothing deleted, and no byte of the archive changed outside the names; every directory of it can be listed by any calls without leaving their buffers; the archive is one of those of ReadsFiles |
| `UstarReader.Mount` | Kernel/fs/ustar.cpp:512-793 | the virtual file system on such an archive is coherent, and for every directory and every single segment its file system gives the answer of the archive's own Lookup in the tree; for any other name, that of the search for that name |
| `UstarReader.LookUpEntry` | Kernel/fs/vfs.cpp:135-223 | after any history and from any node, looking up the path of an entry gives a node with the entry's inode if and only if no segment of the path is `.` or `..` and no entry stands before it, or before a directory on the way to it, with the same name in the same directory |
| `Ring.RingBuffer.constructor` | Kernel/include/ring.hpp:49-55 | an empty buffer of the given capacity, zero included |
| `Ring.RingBuffer.Write` | Kernel/include/ring.hpp:78-96 | appends as much of the data as there is room for and says how much; all ever accepted is all ever read followed by the contents |
| `Ring.RingBuffer.Read` | Kernel/include/ring.hpp:108-126 | gives out the oldest elements in order, so that everything read is a prefix of everything accepted |
| `Ring.RingBuffer.Peek` | Kernel/include/ring.hpp:138-156 | gives the elements from the oldest on, as often round the ring as was asked for: a prefix of the contents, or the contents and old elements behind them; that is what Read would give if and only if no more is asked for than is there, or the buffer is empty |
| `Ring.RingBuffer.Count` | Kernel/include/ring.hpp:163-167 | what was accepted less what was read |
| `Ring.RingBuffer.Free` | Kernel/include/ring.hpp:174-178 | the capacity less the contents |
| `Tty.TerminalBuffer.Write` | Kernel/include/tty.hpp:51-64 | writes every byte and leaves readable what Written says, for any length |
| `Tty.WrittenIsLast` | Kernel/include/tty.hpp:51-64 | readable are exactly the last (r + n) mod N bytes of the old contents followed by the new bytes |
| `Tty.WrittenIsAppend` | Kernel/include/tty.hpp:51-80 | nothing is lost if and only if no more is written than AvailableToWrite |
| `Tty.TerminalBuffer.Read` | Kernel/include/tty.hpp:37-49 | takes the oldest bytes, as many as asked for and readable |
| `Tty.TerminalBuffer.DrainOutput` | Kernel/include/tty.hpp:66-70 | leaves nothing readable |
| `Tty.TerminalBuffer.AvailableToRead` | Kernel/include/tty.hpp:72-75 | the number of readable bytes |
| `Tty.TerminalBuffer.AvailableToWrite` | Kernel/include/tty.hpp:77-80 | together with the readable bytes always one less than the size |
| `List.ListInsertAfter` | Kernel/include/types.h:234-241 | a list stays one chain with both directions agreeing, with the node inserted after its position, and every other list that shares no node stays a list |
| `List.ListInsertBefore` | Kernel/include/types.h:243-250 | likewise before its position |
| `List.ListRemove` | Kernel/include/types.h:252-259 | the other nodes stay one chain in order, the node is unlinked, and every other list stays a list |
| `List.Front` | Kernel/include/types.h:207-213 | ends, at the first node of the list |
| `List.Back` | Kernel/include/types.h:215-221 | ends, at the last node of the list |
| `List.InsertAfterAndRemove` | Kernel/include/types.h:234-259 | inserting a node after another and removing it restores every link of the list |
| `List.InsertBeforeAndRemove` | Kernel/include/types.h:243-259 | likewise before another |
| `List.RemoveAndInsert` | Kernel/include/types.h:234-259 | removing a node and inserting it after the one it followed restores every link |
| `Symbols.SelectionSort` | Kernel/core/symbols.cpp:257-267 | the array is an ascending rearrangement of what it was |
| `Symbols.Resolver.AppendSymbols` | Kernel/core/symbols.cpp:255-296 | appends exactly the symbols that are not at zero, ascending, at their loaded addresses |
| `Symbols.Resolver.GetSymbol` | Kernel/core/symbols.cpp:29-55 | the name of the last symbol with an address above zero and up to the one asked for, or `<unknown>` |
| `Symbols.FirstLoadIsRight` | Kernel/core/symbols.cpp:29-296 | after a first load without address overflow that is a symbol of greatest address up to the one asked for |
| `Symbols.RightEverywhere` | Kernel/core/symbols.cpp:43-50 | on any table the answer is such a symbol for every address if and only if no symbol is followed by a lower one unless another at its own address comes later still |
| `Symbols.ResolveOne` | Kernel/core/symbols.cpp:29-296 | from the image's symbols to the answer: after one load, without address overflow, an address gives the name of a symbol of the image that is not at zero and whose loaded address is the greatest up to it, or `<unknown>` when there is none |
| `Symbols.ResolveTwo` | Kernel/core/symbols.cpp:29-296 | after two loads it is such a symbol of the second image, or of the first only when none of the second is at or below the address |
| `Symbols.HiddenSymbol` | Kernel/core/symbols.cpp:43-50 | a table that resolves an address wrong |
| `Symbols.HidesSymbol` | Kernel/core/symbols.cpp:29-296 | two loads that fill such a table and answer that address with the lower symbol |

## Left out

- Hardware, boot, scheduler, allocators, ELF loading and drivers: I/O and register layouts, no algorithms of this kind.
- Spin lock: memory orders weaker than sequential consistency, and the fields that only serve messages, apart from CurrentHolder.
- Spin lock: a thread of the model is one use of a scope guard; a kernel thread that nests guards is several of them.
- `fnx::spinlock_t`, whose loop goes on while it succeeds, so that there is no exclusion to prove.
- Ini: allocation, the growth of arrays and the long-name buffers (names and values are strings of any length), null pointers, and the functions that set a name or a value.
- HashMap.Nodes.AddNode: keys are not negative, because a negative one indexes outside the table; a call that never returns is one that is not done for any number of turns.
- HashMap.Nodes.DeleteNode: likewise; the destructor is left out.
- Path: Windows style, and zero bytes inside a path.
- PathJoined.JoinAndNormalize: the paths are values, so an output buffer that overlaps one of them is not covered.
- Vfs.Virtual.Lookup: the root's path is "/", as the USTAR mount sets it.
- Vfs.NodeCache.CachedSearch: null entries among the children, which nothing ever puts there, and the erasing of them while searching.
- Vfs.Virtual.Create: without the assertion about the file mode; the file system changes no other entry of an inode that it reported before.
- Virtual file system: what the file system itself does is a parameter, namely its answers and, for Create and Remove, its entries afterwards; renaming and reading directories through it are left out, and of mounting all but the root of an archive.
- UstarArchive.ReadHeaders: memory counts as mapped while a whole block is left, and a string that runs to its end as ended there.
- UstarArchive.ReadHeaders: as in the source the prefix field is not read, so a path that the format splits over prefix and name is listed by its name alone.
- UstarArchive.ReadsFiles: a name ends in a zero before the size field and a size text inside its header; the same for UstarArchive.WalkExact. UstarArchive.ReadHeaders covers every image.
- UstarTree.BuildTree: taking the back of an empty stack or of an empty path ends the model's run as a crash; the source has no defined behaviour there.
- UstarTree.Number: the release build; the debug build hands out the same offsets after two pseudo entries.
- UstarDir.ReadDir: the type in a record, the zero record written after the last one when it fits, and the terminator that is not written after a child's name.
- USTAR: Read, Create, SymLink, Stat, mode bits and owner fields.
- Ring and terminal buffer: the locks around each operation.
- Tty.TerminalBuffer.constructor: a size of at least one, because the source divides by it.
- List.ListInsertAfter: the inserted node is not in the list already, which the source does not check; the same for List.ListInsertBefore.
- Symbols.Resolver.AppendSymbols: some symbol is not at zero, because the source reads past its array otherwise; finding the symbol and string tables in the image is left out.
