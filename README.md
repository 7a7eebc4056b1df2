# PPSSPP helpers: a Dafny model

This project models a set of small sequential components of the PPSSPP PSP
emulator and proves properties about them:

- **The directory-backed guest file system** (`DirectoryFileSystem`):
  - how a guest path maps to a host path, with the optional `STRIP_PSP` rewrite;
  - the Windows-98 style 8.3 upper-casing that `SIMULATE_FAT32` applies to entry names;
  - the destination check of a rename;
  - how host directory entries become guest entries;
  - the open-file table.
- **The read-only asset-store file system** (`VFSFileSystem`): a table from handle to an in-memory file with a cursor, with open, close, read, seek and write.
- **File helpers**: printing a set of open flags, and the recursive size of a directory tree.
- **CPU helpers**: expanding a Linux CPU list such as `0-3,5`, the fixed-order feature list, and the one-line summary.
- **The file browser's navigation state**: the current path, the root it must stay under, and the listing request it hands to a background lister.
- **The descriptor line reader and the write retry loop.**
- **The placeholder camera picture**: an RGB gradient.
- **The task manager**: in this code it is a serial stand-in that runs every task at once.

Each module follows the source's own form:
- String transforms are functions, each with a reference definition or lemmas beside it.
- Objects whose fields change are classes whose methods state the new state.
- Loops are methods proved against specification functions.

The task manager is modelled as the code has it. `ThreadManager.cpp` (lines 74-86) runs a task inline and then releases it; its queues are never used. The file's opening comment (lines 14-21) describes a real thread pool sized by the core count, and the shared context (lines 29-44) declares per-priority compute and I/O queues, but nothing in this code uses them; the model follows the code.

## Model

| member | source | states |
|---|---|---|
| GuestPath.LocalPath | Core/FileSystems/DirectoryFileSystem.cpp:93-127 | the host path always lies under the base path; it is the base itself exactly for an empty guest path; otherwise its relative part is a suffix of the guest path, or "/" |
| GuestPath.LocalPathDropsOneSlash | Core/FileSystems/DirectoryFileSystem.cpp:111-127 | without STRIP_PSP a leading '/' is removed exactly once and the rest is joined to the base |
| GuestPath.LocalPathSlashInsensitive | Core/FileSystems/DirectoryFileSystem.cpp:115-117 | "/x" and "x" map to the same host path |
| GuestPath.LocalPathStripPsp | Core/FileSystems/DirectoryFileSystem.cpp:118-125 | with STRIP_PSP, "/PSP" maps to "/" under the base, and "PSP/" in any letter case is dropped |
| DirectoryFs.DirectoryFileHandle.GetLocalPath | Core/FileSystems/DirectoryFileSystem.cpp:93-109 | the handle's copy, written as the code does it, equals the reference mapping LocalPath (an empty path is the base) |
| DirectoryFs.DirectoryFileSystem.GetLocalPath | Core/FileSystems/DirectoryFileSystem.cpp:111-127 | the file system's copy equals the same reference mapping, so the two copies agree |
| GuestPath.SimulateVfatBugSpec | Core/FileSystems/DirectoryFileSystem.cpp:477-525 | a name is upper-cased exactly when it has a lower-case letter and is a short DOS name; otherwise it is unchanged |
| GuestPath.SimulateVfatBug | Core/FileSystems/DirectoryFileSystem.cpp:477-525 | the result has the name's length and is either the name or its upper-case form |
| GuestPath.VfatHackAppliesSpec | Core/FileSystems/DirectoryFileSystem.cpp:489-515 | the code's find/substr/find_first_not_of decision equals the direct 8.3 rule: either no dot, at most 8 characters, all FAT lower-case; or base at most 8 and extension at most 3, each of one case |
| GuestPath.HasLowerFind | Core/FileSystems/DirectoryFileSystem.cpp:484-487 | the lower-case pre-check finds a character exactly when the name has an ASCII lower-case letter |
| GuestPath.SimulateVfatBugShape | Core/FileSystems/DirectoryFileSystem.cpp:484-524 | the result has the name's length and is the name or its upper-case form; it differs from the name exactly in the upper-casing cases |
| GuestPath.SimulateVfatBugIdempotent | Core/FileSystems/DirectoryFileSystem.cpp:484-487 | applying the transform twice equals applying it once |
| GuestPath.FindLastOf | Core/FileSystems/DirectoryFileSystem.cpp:282-292 | find_last_of returns the index of the last occurrence, or none exactly when the character is absent |
| GuestPath.RenameDestinationParts | Core/FileSystems/DirectoryFileSystem.cpp:282-292 | the destination's directory part (with its '/') is from's, and its last component is to's |
| GuestPath.RenameDestination | Core/FileSystems/DirectoryFileSystem.cpp:281-291 | the destination is from's directory part (up to and including its last '/') followed by to's last component |
| DirectoryFs.DirectoryFileSystem.RenameFile | Core/FileSystems/DirectoryFileSystem.cpp:281-326 | FILE_ALREADY_EXISTS before any host call exactly when the destination equals from; on a case-sensitive file system a failed case fix of the destination, or of the source after a failed rename, gives up; a case-insensitive file system makes exactly one host call, moving from's host path to the destination's; every call moves to the (case-fixed) destination, the second only after the first failed; success exactly when a host call succeeded |
| DirectoryFs.RenameStatus | Core/FileSystems/DirectoryFileSystem.cpp:294-325 | 0 exactly when a host rename succeeded, -1 exactly when a case fix failed, and FILE_ALREADY_EXISTS for every other outcome |
| DirectoryFs.DirectoryFileSystem.GetDirListing | Core/FileSystems/DirectoryFileSystem.cpp:539-628 | a host directory that cannot be listed gives no entries and "not found"; otherwise the loop yields the reference Listing |
| DirListing.ToPspEntry | Core/FileSystems/DirectoryFileSystem.cpp:592-610 | a ".." entry gets size 4096; others keep their size; directories become directory entries; the name is VFAT-transformed under SIMULATE_FAT32 |
| DirListing.EntryName | Core/FileSystems/DirectoryFileSystem.cpp:570-574 | the guest name has the host name's length and is the host name or its upper-case form; without SIMULATE_FAT32 it is the host name |
| DirListing.Hidden | Core/FileSystems/DirectoryFileSystem.cpp:575-591 | nothing is hidden unless HideISOFiles is on; then a file that is not a directory is hidden exactly when its name ends in .cso, .iso or .chd in any case |
| DirListing.ConvertedAll | Core/FileSystems/DirectoryFileSystem.cpp:568-610 | without HideISOFiles every host entry appears, converted, in host order |
| DirListing.ConvertedMembers | Core/FileSystems/DirectoryFileSystem.cpp:575-610 | every guest entry comes from a host entry that is not hidden, and every such host entry appears |
| DirListing.NavigationEntriesSized | Core/FileSystems/DirectoryFileSystem.cpp:592-596 | every ".." entry in a listing reports size 4096, with or without the VFAT transform |
| DirListing.VfatDotDot | Core/FileSystems/DirectoryFileSystem.cpp:477-525 | only ".." itself is shown as ".." |
| DirListing.ListingPspRoot | Core/FileSystems/DirectoryFileSystem.cpp:612-623 | with STRIP_PSP on "/", exactly one PSP directory entry (size 4096, access 0x777, exists) is appended after the host entries; any other listing is the host entries alone |
| DirectoryFs.DirectoryFileSystem.CloseAll | Core/FileSystems/DirectoryFileSystem.cpp:232-238 | the open-file table becomes empty |
| DirectoryFs.DirectoryFileSystem.CloseFile | Core/FileSystems/DirectoryFileSystem.cpp:353-363 | a known handle is freed and removed, with the other entries untouched; an unknown handle changes nothing; afterwards the handle is not owned |
| DirectoryFs.DirectoryFileSystem.OwnsHandle | Core/FileSystems/DirectoryFileSystem.cpp:365-368 | true exactly when the handle is in the table |
| VfsFs.VFSFileSystem.GetLocalPath | Core/FileSystems/DirectoryFileSystem.cpp:723-725 | the asset name is the base path followed by the guest path |
| VfsFs.VFSFileSystem.OpenFile | Core/FileSystems/DirectoryFileSystem.cpp:747-771 | non-read access gives INVALID_FLAG and adds nothing; a missing asset gives FILE_NOT_FOUND and adds nothing; otherwise the new handle maps to the asset's bytes with cursor 0 |
| VfsFs.VFSFileSystem.CloseFile | Core/FileSystems/DirectoryFileSystem.cpp:792-801 | the handle leaves the table and every other handle is untouched |
| VfsFs.VFSFileSystem.OwnsHandle | Core/FileSystems/DirectoryFileSystem.cpp:803-806 | true exactly when the handle is in the table |
| VfsFs.ReadCount | Core/FileSystems/DirectoryFileSystem.cpp:821-837 | the count never reaches past the end of the file or past the request; a negative request, or a cursor at or past the end, reads 0; otherwise it is the request or the rest of the file |
| VfsFs.VFSFileSystem.ReadFile | Core/FileSystems/DirectoryFileSystem.cpp:821-837 | returns ReadCount bytes copied from the cursor and advances the cursor by exactly that count; an unknown handle returns 0 and changes nothing |
| VfsFs.ReadCountConsecutive | Core/FileSystems/DirectoryFileSystem.cpp:821-837 | two consecutive reads return what one read of the combined size returns |
| VfsFs.ReadCountAgrees | Core/FileSystems/DirectoryFileSystem.cpp:826-828 | for a non-negative request, and a cursor and file size below 2^63, the clamp as written equals the corrected one |
| VfsFs.ReadCountAsWritten | Core/FileSystems/DirectoryFileSystem.cpp:826-828 | the clamp as written, in size_t and s64: the count stays below 2^63, and a non-negative request that fits before the end of the file is read in full |
| VfsFs.ReadNegativeRequestAsWritten | Core/FileSystems/DirectoryFileSystem.cpp:826-828 | as written, cursor 10 with request -20 in a 100-byte file reads 90 bytes; the corrected clamp reads 0 |
| VfsFs.ReadWrappedCursorAsWritten | Core/FileSystems/DirectoryFileSystem.cpp:826-831 | as written, after a seek to -10 a 4-byte request returns 110: the copy starts 10 bytes before the buffer, so 10 bytes come from outside it and then the whole 100-byte file, and the cursor ends at 100; the corrected clamp reads 0 |
| VfsFs.SeekTarget | Core/FileSystems/DirectoryFileSystem.cpp:849-863 | BEGIN gives the position, CURRENT the cursor plus the position, END the size plus the position, each reduced to size_t |
| VfsFs.VFSFileSystem.SeekFile | Core/FileSystems/DirectoryFileSystem.cpp:849-863 | the cursor becomes SeekTarget and that value is returned; an unknown handle returns 0 with no change |
| VfsFs.SeekCurrentComposes | Core/FileSystems/DirectoryFileSystem.cpp:854 | two relative seeks equal one relative seek by their sum |
| VfsFs.VFSFileSystem.WriteFile | Core/FileSystems/DirectoryFileSystem.cpp:844-847 | always returns 0 |
| VfsFs.VFSFileSystem.GetDirListing | Core/FileSystems/DirectoryFileSystem.cpp:865-871 | no entries, and the directory is reported missing |
| FileUtil.OpenFlagToString | Common/File/FileUtil.cpp:95-111 | the appends and the final pop_back give the set flags' names joined by '\|' |
| FileUtil.OpenFlagString | Common/File/FileUtil.cpp:96-110 | the string is empty exactly when no flag is set; otherwise it does not end with '\|', and splitting it at '\|' gives the names back |
| FileUtil.SetNamesMembers | Common/File/FileUtil.cpp:97-106 | each flag's name is listed exactly when the flag is set |
| FileUtil.SetNamesDistinct | Common/File/FileUtil.cpp:97-106 | no name is listed twice |
| FileUtil.RecursiveSize | Common/File/FileUtil.cpp:122-138 | the loop and the recursive calls compute the reference DirSize |
| FileUtil.DirSizeEdgeCases | Common/File/FileUtil.cpp:124-127 | a path that cannot be listed gives -1, and an empty directory gives 0 |
| FileUtil.DirSizeClosedForm | Common/File/FileUtil.cpp:128-137 | the size of a listable directory is all file bytes reachable through listable directories, minus one for every unlistable subdirectory reached |
| CpuDetect.ScanRange | Common/CPUDetect.cpp:109 | sscanf "%d-%d" returns -1, 0, 1 or 2, and leaves the variables it did not assign at 0 |
| CpuDetect.ParseCPUList | Common/CPUDetect.cpp:100-120 | an unreadable file gives []; otherwise the loops give the ranges' values, concatenated in input order |
| CpuDetect.PushRange | Common/CPUDetect.cpp:113-115 | the inner loop appends low, low + 1, ..., high |
| CpuDetect.ExpandSpec | Common/CPUDetect.cpp:113-115 | a range holds high - low + 1 values, each exactly low + k at position k, and none when low > high |
| CpuDetect.RangeSingle | Common/CPUDetect.cpp:108-112 | a range holding one number n contributes exactly [n] |
| CpuDetect.RangeDashOnly | Common/CPUDetect.cpp:108-112 | a number followed by '-' and no second number ("5-", "5-x") contributes exactly [n] |
| CpuDetect.RangePair | Common/CPUDetect.cpp:109-115 | a range "a-b" contributes a, a + 1, ..., b |
| CpuDetect.RangeNoNumber | Common/CPUDetect.cpp:106-115 | a range that starts with no number contributes [0] |
| CpuDetect.ParseConcat | Common/CPUDetect.cpp:105-117 | the ranges before and after a comma are expanded one after the other |
| CpuDetect.CPUInfo.constructor | Common/CPUDetect.cpp:124-126 | all fields are zero, then Detect sets logical_cpu_count to 1 |
| CpuDetect.CPUInfo.Detect | Common/CPUDetect.cpp:124-126 | logical_cpu_count becomes 1 |
| CpuDetect.CPUInfo.Features | Common/CPUDetect.cpp:128-168 | the loop yields the names of the set flags in table order |
| CpuDetect.FeaturesExact | Common/CPUDetect.cpp:135-167 | a name is listed exactly when its flag is set; only table names appear; none twice |
| CpuDetect.CPUInfo.Summarize | Common/CPUDetect.cpp:171-186 | the CPU name and core clause, then ", " and each feature in Features order |
| CpuDetect.HeaderCoreCount | Common/CPUDetect.cpp:173-179 | after the CPU name and ", " the core count reads back with %d; it is followed by " core" exactly when it is 1, else by " cores" and, when HTT is set, the logical-thread clause |
| CpuDetect.FeatureSuffixAppend | Common/CPUDetect.cpp:181-185 | the feature text of a list is the texts of its parts one after the other |
| Text.ScanIntToString | Common/CPUDetect.cpp:109 | %d reads back every number printed in decimal |
| PathBrowser.RestrictSpec | Common/File/PathBrowser.cpp:154-159 | a path under the root or starting with '!' is kept, and only such a path; any other becomes the root; restricting twice is restricting once |
| PathBrowser.PathBrowser.ApplyRestriction | Common/File/PathBrowser.cpp:154-159 | the path becomes Restrict(old path, root), so it is under the root or special |
| PathBrowser.PathBrowser.SetPath | Common/File/PathBrowser.cpp:34-38 | the path becomes the restricted argument, under the root or special, and the listing request is handled |
| PathBrowser.PathBrowser.RestrictToRoot | Common/File/PathBrowser.cpp:40-43 | only the root changes |
| PathBrowser.PathBrowser.HandlePath | Common/File/PathBrowser.cpp:45-62 | a '!' path is ready at once, cancelling a request in flight; any other path becomes the new request, not ready, with the old files dropped |
| PathBrowser.PathBrowser.ResetPending | Common/File/PathBrowser.cpp:110-114 | the request is cancelled and its path cleared |
| PathBrowser.PathBrowser.CanNavigateUp | Common/File/PathBrowser.cpp:161-166 | true exactly when the path is not the restricted root and has a parent; so false at the root, and true only when going up changes the path |
| PathBrowser.PathBrowser.NavigateUp | Common/File/PathBrowser.cpp:168-172 | the path becomes the restricted parent; from below the root it is the parent itself |
| PathBrowser.UpStaysUnderRoot | Common/File/PathBrowser.cpp:161-172 | going up from strictly under the root stays under it, so the restriction keeps the parent |
| PathBrowser.PathBrowser.Navigate | Common/File/PathBrowser.cpp:175-187 | "." changes nothing; ".." navigates up; a drive name at a root replaces the path; any other name appends one component; then the request is handled |
| PathBrowser.NavigateTarget | Common/File/PathBrowser.cpp:175-185 | "." keeps the path, ".." stays allowed, and an ordinary name appends exactly one component |
| PathBrowser.NavigateStaysAllowed | Common/File/PathBrowser.cpp:175-185 | from an allowed path, every name except a drive name at a root leads to an allowed path |
| PathBrowser.AppendStaysAllowed | Common/File/PathBrowser.cpp:184 | appending a component keeps a path under the root, and a special path special |
| PathBrowser.DriveNameLeavesRoot | Common/File/PathBrowser.cpp:181-182 | a drive name at a root is not restricted: with root "C:", "D:" leads outside it |
| FileDescriptor.ReadLine | Common/File/FileDescriptor.cpp:17-41 | the loop stores the bytes Taken from the stream followed by a NUL and returns LineReturn; at end of stream it returns 0 and leaves the buffer alone |
| FileDescriptor.Taken | Common/File/FileDescriptor.cpp:20-31 | at most buf_size - 1 bytes are taken, and never more than the stream holds |
| FileDescriptor.TakenStopsAtNewline | Common/File/FileDescriptor.cpp:24-26 | only the last byte taken can be a newline; reading stops early only at a newline |
| FileDescriptor.LineReturnCases | Common/File/FileDescriptor.cpp:27-40 | 0 exactly at an immediate end of stream; the bytes stored when a newline ends the line; one more than the bytes stored at a later end of stream; buf_size for a full buffer |
| FileDescriptor.WriteLine | Common/File/FileDescriptor.cpp:44-61 | returns n; the pieces are exactly Pieces, one per write call, each what that call accepted of the bytes still left, and together they spell out the n bytes in order |
| FileDescriptor.Pieces | Common/File/FileDescriptor.cpp:48-58 | there is at most one piece per write result |
| FileDescriptor.PiecesFlatten | Common/File/FileDescriptor.cpp:48-58 | the pieces, in order, are the prefix of the data that the write calls accepted: all of it but what is still unwritten when the results run out |
| FileDescriptor.WriteCString | Common/File/FileDescriptor.cpp:63-65 | writes exactly the bytes before the first NUL, in the pieces the write calls accept |
| FileDescriptor.Write | Common/File/FileDescriptor.cpp:67-69 | writes all of the string's bytes, in the pieces the write calls accept, and returns their number |
| Camera.DummyImage | Core/HW/Camera.cpp:61-87 | a failed allocation gives null; otherwise all 3 * width * height bytes hold the gradient, and the output length is set to width * height * 2 before the encoder runs |
| Camera.FillRow | Core/HW/Camera.cpp:69-73 | the inner loop writes the three channels of every pixel of one row |
| Camera.PixelByte | Core/HW/Camera.cpp:70-72 | pixel (x, y) has channels 0 and 1 equal to x * 255 / width and channel 2 equal to y * 255 / height, at offset 3 * (y * width + x) + c inside the picture |
| Camera.ByteOwner | Core/HW/Camera.cpp:63-74 | every offset of the picture is one channel of one pixel, so each byte is written exactly once |
| Camera.ImageByteRange | Core/HW/Camera.cpp:68-72 | every channel value lies in 0..254 |
| ThreadManager.ThreadManager.constructor | Common/Thread/ThreadManager.cpp:52-58 | both queue sizes and roundRobin are 0, there is one compute thread and one thread, and no workers |
| ThreadManager.ThreadManager.EnqueueTask | Common/Thread/ThreadManager.cpp:74-79 | the task is run and then released, once each, before returning |
| ThreadManager.ThreadManager.EnqueueTaskOnThread | Common/Thread/ThreadManager.cpp:81-86 | the thread number is ignored; the same events as EnqueueTask |
| ThreadManager.ThreadManager.TeardownTask | Common/Thread/ThreadManager.cpp:67-69 | returns true |
| ThreadManager.ThreadManager.Teardown | Common/Thread/ThreadManager.cpp:64-65 | changes nothing |
| ThreadManager.ThreadManager.Init | Common/Thread/ThreadManager.cpp:71-72 | changes nothing: no worker threads are started |
| ThreadManager.ThreadManager.TryCancelTask | Common/Thread/ThreadManager.cpp:92-94 | changes nothing: the task is left to finish |
| ThreadManager.ThreadManager.GetNumLooperThreads | Common/Thread/ThreadManager.cpp:88-90 | returns numComputeThreads |
| ThreadManager.ThreadManager.IsInitialized | Common/Thread/ThreadManager.cpp:96-98 | true exactly when there are worker threads |
| ThreadManager.ServeInOrder | Common/Thread/ThreadManager.cpp:52-98 | after construction and Init, tasks handed over in order leave exactly their run-and-release events; there is still one looper thread and no workers |
| ThreadManager.ServedAllShape | Common/Thread/ThreadManager.cpp:74-79 | each task's run comes directly before its release, in hand-over order |

## Left out

- Host file-system calls are left out: opening, reading, writing, seeking and deleting host files, the case-fixing retry of GetDirListing (the listing parameter is the final host answer), replay hooks, free-space queries, timestamps, and the save-state serializer. Where a result matters (the host listing, the host rename), it is a parameter.
- The host `DirectoryFileHandle` Open/Read/Write/Seek are stubs in this code and are not modelled.
- `GetDirListing` (directory file system) reads the HideISOFiles setting and the disc ID from globals. Both are passed in as a `ListingContext`. Entry times are not modelled.
- `VFSFileSystem::GetFileInfo` is not modelled: it depends on the asset store's file-info call.
- PSP kernel error codes are symbolic constructors, because their numeric values are in a header that is not part of this model. FILEACCESS_READ is taken as 1.
- The handle allocator is a parameter (`newHandle`) of `VFSFileSystem.OpenFile`; in `DirectoryFileSystem.CloseFile` freed handles are a recorded sequence.
- `VfsFs.VFSFileSystem.ReadFile`: uses the corrected clamp instead of the `size_t` clamp as written (see Findings). Beyond that, it does not model reading memory outside the buffer.
- The `memcpy` of VFSFileSystem::ReadFile is not modelled as memory: the bytes it copies are the slice of the file's bytes.
- `DirectoryFs.DirectoryFileSystem.RenameFile`: FixPathCase and the host rename are not modelled; their answers are the `HostRename` parameter. The replay hook and the memory-stick write notification are left out.
- `DirectoryFs.DirectoryFileSystem.CloseAll`: does not give the handles back to the allocator, as the code does not either.
- `FileUtil.RecursiveSize`: the total is an unbounded integer; the wrap-around of the 64-bit `sizeSum` on trees of 2^63 bytes or more is not modelled.
- `CpuDetect.ParseCPUList`: does not model reading the sysfs file; its contents are a parameter (None when unreadable). A `%d` is modelled as optional white space, an optional sign and decimal digits. Its value is an unbounded integer: the loss of range of a 32-bit `int` is not modelled.
- The CPU list string is split at every ',' into pieces that are all kept. The string-splitting helper is not part of this model.
- cpuid probing, the compiler ABI string and the other platform pieces of CPU detection are left out; the feature flags are kept as a sequence in table order.
- `PathBrowser.Path`: the path type is not part of this model. A path is its list of components: StartsWith is prefix, `/` appends one component, a root is a single component, and NavigateUp drops the last component (a root is its own parent). Path equality is equality of components.
- The browser's background listing thread, its polling in GetListing, and GetFriendlyPath (it reads an environment variable) are left out. HandlePath is modelled up to handing the request over.
- `FileDescriptor.ReadLine` and `FileDescriptor.WriteLine`: read and write errors are left out; the EINTR retries and the assertion on other errors are not modelled. A write result of 0 or less is treated as an interrupted call that wrote nothing.
- `FileDescriptor.WriteLine`: does not model the casts of the request to `unsigned int` and of the result to `int`; writes of 2^31 bytes or more are outside the model. The descriptor is required to accept all bytes eventually, or the source loop would not end.
- WaitUntilReady (floating point and `select`), SetNonBlocking and GetLocalIP are not part of this model.
- `Camera.DummyImage`: width and height are natural numbers, and `3 * width * height` does not wrap as a 32-bit `int` would. The JPEG compression, the second allocation and freeing the picture are left out; `outData` is modelled only as null or not.
- `Camera.DummyImage`: models the body as built with USE_FFMPEG (Core/HW/Camera.cpp:62-86); without that flag the function does nothing, which is not modelled. `outLen` is the value assigned before the encoder runs; the encoder receives it as its buffer size and may change it, which is not modelled.
- Camera capture code, frame conversion and the JPEG library are not part of this model.
- The real thread pool (queues, workers, condition variables, round-robin, cancellation) is not implemented in this code and is not modelled. Tasks are opaque numbers.
- Init, Teardown and TryCancelTask do nothing in the code; their models change nothing.
- Concurrency (the browser's lock, the atomic counters) is left out; the model is sequential.

## Findings

| source | as written | input that shows it | evidently intended | confidence | as-written member | corrected member |
|---|---|---|---|---|---|---|
| Core/FileSystems/DirectoryFileSystem.cpp:826-828 | the end-of-file clamp compares `seekPos + size` in `size_t`, so a negative request wraps; `size = (s64)(fileSize - seekPos)` is then used as the count | cursor 10, request -20, file of 100 bytes: 90 bytes are read | a negative request reads 0 bytes | not executed | VfsFs.ReadNegativeRequestAsWritten | VfsFs.ReadCount |
| Core/FileSystems/DirectoryFileSystem.cpp:826-831 | after a seek before the start (the cursor wraps to 2^64 - 10), `fileSize - seekPos` wraps to 110 and 110 bytes are copied starting 10 bytes before the buffer: 10 bytes from outside it, then the whole file | seek to -10 from the beginning, then read 4 bytes of a 100-byte file | a cursor at or past the end reads 0 bytes | not executed | VfsFs.ReadWrappedCursorAsWritten | VfsFs.VFSFileSystem.ReadFile |
