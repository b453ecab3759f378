# FileSystemEnumerator (Windows) in Dafny

This project models the Windows `FileSystemEnumerator<TResult>` of
`System.IO.Enumeration`. The enumerator walks a directory tree lazily. It
reads OS directory records in batches through a directory handle, filters
each record, and queues subdirectories for recursion in FIFO order. It owns
every handle it opens and the native buffer it reads into. The project
proves properties of that model.

The model is functional. The enumerator is an immutable value (`Enumerator<R>`).
Each operation returns the state after the call and how the call completed:
`Normal(value)`, or `Abrupt(exception)` for a thrown exception. An abrupt
completion still carries the state at the point of the throw, because the
object can still be used and disposed afterwards.

Handles are abstract ids. A non-ghost `Ledger` records:

- every handle the OS issued;
- every `CloseHandle` call, in order;
- every `FreeHGlobal` of the buffer.

"No double close" means the close log has no duplicates. "No leak" means
every issued handle appears in the close log.

The OS is a finite input tree. Each directory listing is a sequence of
non-empty batches followed by an end status (no more files, or a read
error). Each record carries what opening it as a directory would yield at
the moment the enumerator tries. The enumerator state carries the part of
the listing still unread through its handle, and so does every queued frame.

The walk the enumerator is meant to perform is written out separately, as
a reference (`Traversal`). The records still to visit form one sequence:
the rest of the buffer, the rest of the current directory, then every
queued directory front to back. Visiting a record appends the records of
the subdirectory it leads into at the back, when the filters recurse into
it and it opens. The reference order of accepted records is the first
accepted record of that sequence, then the reference order of what is
left, and so on. `MoveNext` is proved to follow it.

Module layout:

- `Win32`: error codes, attribute bits, handle values, exceptions and completions.
- `Nullable`: `Option`.
- `EnumOptions`: the options record and the buffer sizing.
- `DirectoryStream`: the OS listing, the batch read and the size measures.
- `HandleLedger`: the resource history.
- `EntryModel`: the entry view, the overridable hooks, the filters, the special-name test, path joining and the partition-path fix-up.
- `Traversal`: the reference walk and its order of accepted records.
- `FileSystemEnumerator`: the state, the ownership invariant and every operation of the class.
- `Lifetime`: properties of whole lifetimes (construction, any number of `MoveNext` calls, disposal).

Three internal operations are not in `FileSystemEnumerator.Windows.cs`:
`GetData`, `DirectoryFinished` and `CreateRelativeDirectoryHandle`. They are
modelled after the protocol the file relies on:

- A batch read that fails is skipped under `ContinueOnDirectoryError(error, false)`.
  A skipped or exhausted directory is finished.
- Finishing a directory drops the buffer cursor and closes the current handle.
  It then dequeues the next directory and reads on, or sets the terminal flag.
- Opening a child directory relative to its parent uses the same policy with
  `ignoreNotFound` set to true. A failure the policy does not skip throws the
  OS error for the joined path, without the FILE_NOT_FOUND rewrite of the root open.

`DirectoryFinished` closes the read-out handle before it dequeues the next
frame. The dequeue overwrites the handle field, so a handle not closed first
would be lost while still open.

The `IgnoreInaccessible` policy applies to the root directory as well as to
children. The constructor opens the root through `CreateDirectoryHandle`
(line 56), which consults the same `ContinueOnDirectoryError` (line 147). A
swallowed root error makes the enumerator terminal from the start.

## Model

| member | source | states |
|---|---|---|
| EnumOptions.BufferLength | external/corefx-bugfix/src/System.IO.FileSystem/src/System/IO/Enumeration/FileSystemEnumerator.Windows.cs:63-65 | A request of zero or less yields 4096. Any other request yields max(1024, request), so the buffer is never shorter than 1024 and never shorter than a positive request. |
| HandleLedger.CloseHandle | external/corefx-bugfix/src/System.IO.FileSystem/src/System/IO/Enumeration/FileSystemEnumerator.Windows.cs:87 | A close is appended to the history. Closing a live handle keeps the history sound (no duplicate close) and removes exactly that handle from the live set. |
| HandleLedger.CloseAll | external/corefx-bugfix/src/System.IO.FileSystem/src/System/IO/Enumeration/FileSystemEnumerator.Windows.cs:273-274 | Draining closes exactly the given handles, in the given order, one call each. The closed set grows by exactly those handles, and nothing is opened or freed. |
| HandleLedger.CloseAllLive | external/corefx-bugfix/src/System.IO.FileSystem/src/System/IO/Enumeration/FileSystemEnumerator.Windows.cs:273-274 | Closing distinct live handles one by one keeps the history sound and leaves exactly the other handles live. |
| HandleLedger.FreeBuffer | external/corefx-bugfix/src/System.IO.FileSystem/src/System/IO/Enumeration/FileSystemEnumerator.Windows.cs:280 | Freeing the buffer counts one more free and touches no handle: nothing is opened or closed. |
| FileSystemEnumerator.OpenForListing | external/corefx-bugfix/src/System.IO.FileSystem/src/System/IO/Enumeration/FileSystemEnumerator.Windows.cs:112-117 | A successful open yields a fresh handle that is neither null nor -1, was never issued before and is now live, together with that directory's listing. A failed open yields INVALID_HANDLE_VALUE and the OS error, and the history is unchanged. |
| FileSystemEnumerator.CloseDirectoryHandle | external/corefx-bugfix/src/System.IO.FileSystem/src/System/IO/Enumeration/FileSystemEnumerator.Windows.cs:82-88 | Afterwards the handle field is null and nothing else changes. A null handle means no close at all, so a second call is a no-op. A non-null handle is closed exactly once and stops being live, and the ownership invariant is kept. |
| FileSystemEnumerator.ReportedError | external/corefx-bugfix/src/System.IO.FileSystem/src/System/IO/Enumeration/FileSystemEnumerator.Windows.cs:128-132 | FILE_NOT_FOUND is reported as PATH_NOT_FOUND and every other error as it is, so FILE_NOT_FOUND never escapes the root open. |
| FileSystemEnumerator.ContinueOnDirectoryError | external/corefx-bugfix/src/System.IO.FileSystem/src/System/IO/Enumeration/FileSystemEnumerator.Windows.cs:140-149 | The error is skipped when the `ContinueOnError` hook asks for it, when it is one of the three not-found codes and not-found is ignored, or when it is access denied under `IgnoreInaccessible`. Apart from the hook, no other error is ever skipped. |
| FileSystemEnumerator.IgnoreNotFoundWidensExactlyByNotFound | external/corefx-bugfix/src/System.IO.FileSystem/src/System/IO/Enumeration/FileSystemEnumerator.Windows.cs:140-149 | With `ignoreNotFound`, an error the enumerator would otherwise skip is still skipped. The errors it additionally skips are exactly FILE_NOT_FOUND, PATH_NOT_FOUND and DIRECTORY, when neither `IgnoreInaccessible` nor `ContinueOnError` already covers them. |
| EntryModel.IndexOf | external/corefx-bugfix/src/System.IO.FileSystem/src/System/IO/Enumeration/FileSystemEnumerator.Windows.cs:102 | The result is -1 or a position where the pattern occurs. No earlier position holds the pattern, and with -1 no position does. |
| EntryModel.WithPartitionSeparator | external/corefx-bugfix/src/System.IO.FileSystem/src/System/IO/Enumeration/FileSystemEnumerator.Windows.cs:98-110 | The path gains at most one trailing backslash. It gains one only when it starts with a long-form prefix, names `GLOBALROOT\Device\Harddisk`, has its first "Partition" at most 11 characters from the end, and does not already end in a backslash. Every path meeting all four conditions does gain it. Any other path is left as it is. |
| FileSystemEnumerator.CreateDirectoryHandle | external/corefx-bugfix/src/System.IO.FileSystem/src/System/IO/Enumeration/FileSystemEnumerator.Windows.cs:93-138 | The result is a non-null handle exactly when the raw open succeeded, and it is that handle. The result is null exactly when the open failed and `ContinueOnDirectoryError` holds. Otherwise it throws for the path as opened, with the partition backslash added, and FILE_NOT_FOUND reported as PATH_NOT_FOUND. |
| FileSystemEnumerator.CreateRelativeDirectoryHandle | external/corefx-bugfix/src/System.IO.FileSystem/src/System/IO/Enumeration/FileSystemEnumerator.Windows.cs:192-197 | The child open returns the handle when the open succeeded. It returns null when the open failed with an error the policy skips, missing directories included. Otherwise it throws the OS error, as it is, for the joined path. A not-found error never throws. |
| FileSystemEnumerator.Construct | external/corefx-bugfix/src/System.IO.FileSystem/src/System/IO/Enumeration/FileSystemEnumerator.Windows.cs:43-80 | A null directory throws ArgumentNull before anything is opened. A root open that fails without continuation throws the reported error for the full root path, with the partition backslash where the open adds one, and leaves nothing opened. A root open swallowed by the policy gives a terminal enumerator with no handle. Once the root open has not thrown, a failed buffer allocation always throws OutOfMemory, closing the one handle opened (if any) before the exception escapes. Any thrown exception leaves nothing live. On success the invariant holds and the fields hold the directory, its full path, the options (or the defaults) and the sized buffer. |
| FileSystemEnumerator.DequeueNextDirectory | external/corefx-bugfix/src/System.IO.FileSystem/src/System/IO/Enumeration/FileSystemEnumerator.Windows.cs:251-258 | Returns true exactly when the queue is non-null and non-empty. It then pops the front frame into the handle, the current path and the listing, and nothing else changes. Otherwise the state is unchanged. With no current handle, ownership is preserved. |
| FileSystemEnumerator.GetNextInfo | external/corefx-bugfix/src/System.IO.FileSystem/src/System/IO/Enumeration/FileSystemEnumerator.Windows.cs:228-230 | The next record exists exactly when the current batch has one after the cursor. It is that record, and the rest of the batch follows it. |
| FileSystemEnumerator.FindNextEntry | external/corefx-bugfix/src/System.IO.FileSystem/src/System/IO/Enumeration/FileSystemEnumerator.Windows.cs:226-249 | With a next record in the batch, the cursor moves onto it and nothing else changes. Otherwise the result is exactly that of reading the next batch. Every outcome keeps the invariant and only extends the history. A record found is paid for by the work left. Reaching the end of the traversal leaves no handle live. An exception leaves the enumerator non-terminal. |
| FileSystemEnumerator.ReadNextBatch | external/corefx-bugfix/src/System.IO.FileSystem/src/System/IO/Enumeration/FileSystemEnumerator.Windows.cs:243-245 | A filled batch puts the cursor on its first record, with the rest of the batch after it, and removes the batch from the listing; nothing else changes. The end of the listing, or a read error the policy swallows, finishes the directory. Any other read error is thrown for the current path and changes nothing. |
| FileSystemEnumerator.FinishDirectory | external/corefx-bugfix/src/System.IO.FileSystem/src/System/IO/Enumeration/FileSystemEnumerator.Windows.cs:251-258 | With an empty queue the traversal ends normally with the terminal flag set. Otherwise the result is that of finishing the directory and then looking for the next record in the dequeued one. |
| FileSystemEnumerator.DirectoryFinished | external/corefx-bugfix/src/System.IO.FileSystem/src/System/IO/Enumeration/FileSystemEnumerator.Windows.cs:82-88 | The finished handle is closed exactly once and the cursor is dropped. If a frame is queued, the cursor takes its handle, path and listing and the queue loses exactly that front frame. Otherwise the enumerator becomes terminal. The work left falls by exactly what was left in that directory. |
| FileSystemEnumerator.FindNextEntryTakesFirst | external/corefx-bugfix/src/System.IO.FileSystem/src/System/IO/Enumeration/FileSystemEnumerator.Windows.cs:226-249 | Without an exception, the cursor lands on the first record still to visit and exactly the rest remains to visit, in order. When the step ends the traversal instead, nothing was left to visit. |
| FileSystemEnumerator.ReadNextBatchTakesFirst | external/corefx-bugfix/src/System.IO.FileSystem/src/System/IO/Enumeration/FileSystemEnumerator.Windows.cs:243-245 | Without an exception, a batch read or a finished directory lands the cursor on the first record still to visit and leaves exactly the rest to visit. If the traversal ends, nothing was left. |
| FileSystemEnumerator.FinishDirectoryTakesFirst | external/corefx-bugfix/src/System.IO.FileSystem/src/System/IO/Enumeration/FileSystemEnumerator.Windows.cs:251-258 | Finishing a read-out directory loses no record still to visit. The search goes on in the dequeued directory from the first record left, and ends only when nothing was left. |
| FileSystemEnumerator.EnqueueKeepsOwnership | external/corefx-bugfix/src/System.IO.FileSystem/src/System/IO/Enumeration/FileSystemEnumerator.Windows.cs:203-205 | Appending a frame with a fresh, live handle keeps every live handle owned by exactly one place. |
| FileSystemEnumerator.QueueSubdirectory | external/corefx-bugfix/src/System.IO.FileSystem/src/System/IO/Enumeration/FileSystemEnumerator.Windows.cs:185-213 | The queue grows only when the child opened. It then grows by exactly one frame, `(fresh handle, Join(currentPath, name))`, and that handle becomes live. A null handle (swallowed open failure) queues nothing. If queuing throws, the just-opened handle is closed and the live set is as before. It throws OutOfMemory exactly when the child opened and queuing its frame fails. A child open error the policy does not skip is thrown, as the OS error for the joined path, and changes nothing; no other exception occurs. |
| FileSystemEnumerator.Visit | external/corefx-bugfix/src/System.IO.FileSystem/src/System/IO/Enumeration/FileSystemEnumerator.Windows.cs:170-221 | A normal completion is true exactly when the entry is accepted: not skipped by attributes, not a dropped "." or "..", and included by the hook. `_current` changes only on acceptance, to the transform of the entry. Nothing is queued or opened unless the entry is a non-special directory, recursion is on and `ShouldRecurseIntoEntry` held. Then the queue and history are those of queuing the subdirectory. |
| FileSystemEnumerator.VisitAppendsChildren | external/corefx-bugfix/src/System.IO.FileSystem/src/System/IO/Enumeration/FileSystemEnumerator.Windows.cs:185-213 | A visit that completes normally leaves the records still to visit as they were. At the back it adds exactly the reference walk's children of the record: the subdirectory's listing under the joined path when the filters recurse into it and it opens, and nothing otherwise. |
| FileSystemEnumerator.MoveNextLoop | external/corefx-bugfix/src/System.IO.FileSystem/src/System/IO/Enumeration/FileSystemEnumerator.Windows.cs:163-222 | The loop ends, because every pass consumes a record of the finite input tree. It returns false exactly when the traversal has ended, and true only for an accepted entry, whose transform is `_current`. |
| FileSystemEnumerator.LoopFollowsWalk | external/corefx-bugfix/src/System.IO.FileSystem/src/System/IO/Enumeration/FileSystemEnumerator.Windows.cs:163-222 | Without an exception, the loop returns true on the first accepted record of the reference walk. It passes over only records that are not accepted, and leaves exactly the rest of the walk to visit. It returns false only when the walk holds no accepted record. |
| FileSystemEnumerator.MoveNext | external/corefx-bugfix/src/System.IO.FileSystem/src/System/IO/Enumeration/FileSystemEnumerator.Windows.cs:151-224 | Once the terminal flag is set it returns false and changes nothing. It returns false exactly when the flag is set afterwards, and then no handle is live. A true result means the entry passed every filter and `_current` is its transform. It is the next accepted record of the reference walk, and the rest of the walk is what remains to visit. False means the walk held no accepted record. The invariant is kept. Without recursion the walk never leaves the start directory. |
| FileSystemEnumerator.FindNextEntryFaultFree | external/corefx-bugfix/src/System.IO.FileSystem/src/System/IO/Enumeration/FileSystemEnumerator.Windows.cs:226-249 | When nothing left to read has an OS error, finding the next record does not throw. The record it lands on, and everything still left to read, remain free of OS errors. |
| FileSystemEnumerator.ReadNextBatchFaultFree | external/corefx-bugfix/src/System.IO.FileSystem/src/System/IO/Enumeration/FileSystemEnumerator.Windows.cs:243-245 | When the listing and the queued directories have no read error, reading the next batch does not throw, and the batch's records are free of OS errors. |
| FileSystemEnumerator.FinishDirectoryFaultFree | external/corefx-bugfix/src/System.IO.FileSystem/src/System/IO/Enumeration/FileSystemEnumerator.Windows.cs:251-258 | When every queued directory is free of OS errors, finishing a read-out directory does not throw, and the search goes on in the dequeued directory without errors. |
| FileSystemEnumerator.VisitFaultFree | external/corefx-bugfix/src/System.IO.FileSystem/src/System/IO/Enumeration/FileSystemEnumerator.Windows.cs:170-221 | Visiting a record without OS errors does not throw when every enqueue succeeds: a directory the filters recurse into opens, and its queued listing is free of OS errors. |
| FileSystemEnumerator.LoopFaultFree | external/corefx-bugfix/src/System.IO.FileSystem/src/System/IO/Enumeration/FileSystemEnumerator.Windows.cs:163-222 | When nothing left to read has an OS error and every enqueue succeeds, the loop does not throw, and what is left stays free of OS errors. |
| FileSystemEnumerator.MoveNextFaultFree | external/corefx-bugfix/src/System.IO.FileSystem/src/System/IO/Enumeration/FileSystemEnumerator.Windows.cs:151-224 | When nothing left to read has an OS error and every enqueue succeeds, `MoveNext` completes normally, and what is left stays free of OS errors. |
| FileSystemEnumerator.DrainPending | external/corefx-bugfix/src/System.IO.FileSystem/src/System/IO/Enumeration/FileSystemEnumerator.Windows.cs:271-276 | Closes every queued handle front to back, once each, then drops the queue. Without a current handle nothing owned is left live. |
| FileSystemEnumerator.InternalDispose | external/corefx-bugfix/src/System.IO.FileSystem/src/System/IO/Enumeration/FileSystemEnumerator.Windows.cs:260-288 | Sets the terminal flag. Closes the current handle (if any), then every queued handle in order, and drops the queue. Frees the buffer only if it is still held, then forgets it. From a valid state nothing stays live and the buffer has been freed exactly once. |
| DirectoryStream.GetData | external/corefx-bugfix/src/System.IO.FileSystem/src/System/IO/Enumeration/FileSystemEnumerator.Windows.cs:244-245 | A read yields the next batch while there is one, then the listing's end status. No more files is the normal end, and a read error carries its code. |
| DirectoryStream.GetDataPreservesSize | external/corefx-bugfix/src/System.IO.FileSystem/src/System/IO/Enumeration/FileSystemEnumerator.Windows.cs:244-245 | Reading a batch moves its records from the listing into the buffer without losing or inventing any. |
| EntryModel.View | external/corefx-bugfix/src/System.IO.FileSystem/src/System/IO/Enumeration/FileSystemEnumerator.Windows.cs:170 | The entry view carries the record's name and attributes, with the current path as its directory. |
| EntryModel.IsSpecialDirectoryName | external/corefx-bugfix/src/System.IO.FileSystem/src/System/IO/Enumeration/FileSystemEnumerator.Windows.cs:179 | The length-and-character test on a non-empty name holds exactly when the name is "." or "..". |
| EntryModel.Join | external/corefx-bugfix/src/System.IO.FileSystem/src/System/IO/Enumeration/FileSystemEnumerator.Windows.cs:188 | An empty directory yields the name. When the directory ends in a separator or the name starts with one, the two are concatenated as they are. Otherwise one backslash goes between them. Either way the result starts with the directory, ends with the name, and has a separator at the seam. |
| Traversal.Children | external/corefx-bugfix/src/System.IO.FileSystem/src/System/IO/Enumeration/FileSystemEnumerator.Windows.cs:185-213 | A record adds records to the walk only when the filters recurse into it and its open succeeds. What it adds is strictly less than the record accounts for, so the walk ends. |
| Traversal.NextAccepted | external/corefx-bugfix/src/System.IO.FileSystem/src/System/IO/Enumeration/FileSystemEnumerator.Windows.cs:163-222 | The walk's next accepted record is one that passes every filter. An empty walk has none. What is left after it is strictly smaller. |
| Traversal.AcceptedOrder | external/corefx-bugfix/src/System.IO.FileSystem/src/System/IO/Enumeration/FileSystemEnumerator.Windows.cs:217-221 | Every record in the walk's order of accepted records passes every filter. There are no more of them than records below the walk. |
| Lifetime.Run | external/corefx-bugfix/src/System.IO.FileSystem/src/System/IO/Enumeration/FileSystemEnumerator.Windows.cs:151-224 | Take any number of `MoveNext` calls, returning or throwing. The ownership invariant survives them. The resource history only grows: nothing opened is forgotten, and no close or free is undone. While no call throws, the records yielded are the front of the reference order, in order, and the reference order of what is left follows them. Once more calls than there are records have returned normally, the walk has ended. From a terminal state nothing changes. On a tree without OS errors, with every enqueue succeeding, no call throws. Without `RecurseSubdirectories` nothing is ever queued and the current path stays the start directory. |
| Lifetime.EnumerationYieldsAcceptedOrder | external/corefx-bugfix/src/System.IO.FileSystem/src/System/IO/Enumeration/FileSystemEnumerator.Windows.cs:151-224 | Start from a freshly constructed enumerator whose root opens. A run without exceptions that reaches the end has returned exactly the accepted records of the whole tree, each once, in breadth-first order. When no call throws, calls beyond the number of records in the tree always reach the end. |
| Lifetime.FaultFreeEnumerationYieldsAcceptedOrder | external/corefx-bugfix/src/System.IO.FileSystem/src/System/IO/Enumeration/FileSystemEnumerator.Windows.cs:151-224 | For a tree without OS errors (every directory opens, every read succeeds and ends with no more files) and with every enqueue succeeding: construction succeeds, no call throws, more calls than the tree has records reach the end, and the records returned are exactly the accepted records of the whole tree, each once, in breadth-first order. |
| Lifetime.DisposeIsIdempotent | external/corefx-bugfix/src/System.IO.FileSystem/src/System/IO/Enumeration/FileSystemEnumerator.Windows.cs:260-288 | Disposing twice gives the same state as disposing once: no second close and no second free. |
| Lifetime.MoveNextAfterDispose | external/corefx-bugfix/src/System.IO.FileSystem/src/System/IO/Enumeration/FileSystemEnumerator.Windows.cs:153-154 | After disposal, `MoveNext` returns false and touches nothing. |
| Lifetime.EnqueueIsFifo | external/corefx-bugfix/src/System.IO.FileSystem/src/System/IO/Enumeration/FileSystemEnumerator.Windows.cs:251-258 | A frame queued at the back does not change which directory is dequeued next. It comes out after every frame queued before it. |
| Lifetime.DisposeReleasesEverything | external/corefx-bugfix/src/System.IO.FileSystem/src/System/IO/Enumeration/FileSystemEnumerator.Windows.cs:260-288 | Disposing any valid enumerator closes every handle ever opened for it exactly once, and frees the buffer exactly once. |
| Lifetime.EveryHandleClosedExactlyOnce | external/corefx-bugfix/src/System.IO.FileSystem/src/System/IO/Enumeration/FileSystemEnumerator.Windows.cs:260-288 | Take a successful construction, any number of `MoveNext` calls (returning or throwing), then disposal. Every handle ever opened has been closed exactly once, and the buffer freed exactly once. |
| Lifetime.ConstructorNeverLeaks | external/corefx-bugfix/src/System.IO.FileSystem/src/System/IO/Enumeration/FileSystemEnumerator.Windows.cs:74-79 | When the constructor throws, every handle it opened has been closed exactly once, and no buffer was freed. |

## Left out

- The native calls `UnityCreateFile_IntPtr`, `NtQueryDirectoryFile`, `CloseHandle`, `AllocHGlobal`, `FreeHGlobal` and `GetLastWin32Error` are modelled as inputs: the OS input tree, the `Ledger`, and the `allocFails` and `enqueueFails` failure oracles.
- The `FILE_FULL_DIR_INFORMATION` layout and the address arithmetic over the buffer are not modelled. A batch is a sequence of records, and `_entry` is a cursor into it.
- `FileSystemEntry.Initialize` is reduced to `EntryModel.View`, with name, attributes and the three paths. Sizes and timestamps are not modelled.
- `Path.GetFullPath` and `TrimEndingDirectorySeparator` are the `getFullPath` parameter. Path canonicalisation is not part of this model.
- The overridable hooks (`ShouldRecurseIntoEntry`, `ShouldIncludeEntry`, `TransformEntry`, `ContinueOnError`, `OnDirectoryFinished`) and `Path.GetFullPath` are total functions here, so they never throw. In the source each of them can. For example, an exception from `ShouldIncludeEntry` or `TransformEntry` after a subdirectory was queued leaves that subdirectory queued and `MoveNext` throwing; the model has no such outcome.
- The OS tree is a finite inductive value, so no directory can contain itself. A reparse-point cycle that `ShouldRecurseIntoEntry` follows would make the source open children without end. The termination of `MoveNextLoop` and the work bounds of `Lifetime.Run` hold for such acyclic inputs only.
- `EnumerationOptions` is not part of this model. Its defaults (skip hidden and system entries, ignore inaccessible directories, no recursion, default buffer size) are written as a constant.
- `Win32Marshal.GetExceptionForWin32Error` is not part of this model. An exception keeps the error code and path it would be built from, not the .NET exception class.
- `String.StartsWith(string)` (line 98) and `String.IndexOf(string)` (line 102) compare with the current culture in .NET. The model compares characters ordinally, so culture-specific matching (ignorable characters, for instance) is not modelled. `String.Contains(string)` (line 99) is ordinal, as modelled.
- `DisableMediaInsertionPrompt` (line 52) only changes OS error-dialog behaviour and is not modelled.
- The `#if UNITY_AOT` / `IsAppXModel` split is one abstract child open and one abstract batch read. Without `UNITY_AOT`, the local at line 199 is never declared; only the `UNITY_AOT` build is modelled.
- `CreateRelativeDirectoryHandle` and `GetData` are not part of this model beyond the protocol described above. The NTSTATUS-to-Win32 translation of the relative open is the error code the OS reports. A `STATUS_FILE_NOT_FOUND` from a read of an empty directory counts as the normal end of the listing.
- The `OnDirectoryFinished` notification hook has no effect on the enumerator's state and is not modelled, so it cannot throw either.
- The lock (lines 158, 265), the unlocked pre-check (line 153), `Interlocked.Exchange` (line 85), the finalizer and `CriticalFinalizerObject` are not modelled. Calls are sequential.
- The `_lock != null` test (line 263) always holds for a constructed object. `Dispose(bool)` (line 287) is an overridable hook with no effect on this state; both are left out.
- A failure of `new Queue` (line 204) and a failure of `Enqueue` (line 205) have the same effect. Both are the one `enqueueFails` oracle.
- Handle ids are never reused. The OS can reuse a closed handle value, which would only strengthen the need for the once-only close that the model proves.
- Lifetime.Run: states the order of the records yielded only while no call has thrown. A call that throws may already have passed over records (after a failed enqueue the record is passed over and its subdirectory never queued), so later calls resume the walk from a point the reference order does not describe.
- FileSystemEnumerator.MoveNextFaultFree: the no-throw condition is sufficient, not necessary. It treats every failed directory open and every read error as a fault, even one the error policy would skip, so it does not characterise exactly when `MoveNext` throws.
