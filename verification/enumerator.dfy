/** `FileSystemEnumerator<TResult>` on Windows: a lazy, resumable walk of a
    directory tree that reads records in batches through OS handles, queues
    subdirectories in FIFO order, and owns every handle it opens and the
    native buffer it reads into.

    The state is an immutable value; each operation returns the state after
    it together with how it completed. An exception is an `Abrupt`
    completion that still carries the state at the point of the throw, since
    the object stays usable (and disposable) afterwards. */
module FileSystemEnumerator {
  import opened Nullable
  import opened Win32
  import opened EnumOptions
  import opened DirectoryStream
  import opened HandleLedger
  import opened EntryModel
  import opened Traversal

  /** A subdirectory waiting in `_pending`: its handle and logical path, with
      what the OS still holds for that handle. */
  datatype Frame = Frame(handle: Handle, path: string, stream: Listing)

  /** `_entry`: null, or a record in the buffer followed by the rest of its batch. */
  datatype BufferCursor = Null | At(record: Record, following: seq<Record>)

  datatype Enumerator<R> = Enumerator(
    originalRootDirectory: string,
    rootDirectory: string,
    options: Options,
    bufferLength: int,
    buffer: bool,              // `_buffer != default`
    directoryHandle: Handle,
    stream: Listing,           // what the OS still holds for `directoryHandle`
    currentPath: string,
    lastEntryFound: bool,
    pending: Option<seq<Frame>>,
    entry: BufferCursor,
    current: Option<R>,
    ledger: Ledger)

  /** The state after a call and how the call completed. */
  datatype Outcome<R, T> = Outcome(state: Enumerator<R>, result: Completion<T>)

  /** The result of the constructor, with the resource history either way. */
  datatype Constructed<R> = Constructed(result: Completion<Enumerator<R>>, ledger: Ledger)

  /** What the OS answers to an open request: a raw handle value, the last
      Win32 error, the resource history afterwards and the new handle's records. */
  datatype RawOpen = RawOpen(handle: Handle, lastError: int, ledger: Ledger, stream: Listing)

  // ---------------------------------------------------------------------
  // Ownership

  function Queue<R>(s: Enumerator<R>): seq<Frame>
  {
    if s.pending.Some? then s.pending.value else []
  }

  function Handles(q: seq<Frame>): (hs: seq<Handle>)
    ensures |hs| == |q| && forall i :: 0 <= i < |q| ==> hs[i] == q[i].handle
  {
    seq(|q|, i requires 0 <= i < |q| => q[i].handle)
  }

  function QueuedHandles(q: seq<Frame>): set<Handle>
  {
    Elements(Handles(q))
  }

  /** The handles the enumerator holds: the cursor's and every queued one. */
  function Owned<R>(s: Enumerator<R>): set<Handle>
  {
    (if s.directoryHandle != NullHandle then {s.directoryHandle} else {}) + QueuedHandles(Queue(s))
  }

  /** Every live handle is held by exactly one of the cursor or a queue slot,
      and the buffer has been freed exactly when it is no longer held. */
  predicate Owns<R>(s: Enumerator<R>)
  {
    && Sound(s.ledger)
    && Live(s.ledger) == Owned(s)
    && (forall i, j :: 0 <= i < j < |Queue(s)| ==> Queue(s)[i].handle != Queue(s)[j].handle)
    && (forall i :: 0 <= i < |Queue(s)| ==>
          Queue(s)[i].handle != NullHandle && Queue(s)[i].handle != s.directoryHandle)
    && (if s.buffer then s.ledger.frees == 0 else s.ledger.frees == 1)
  }

  /** The invariant between calls: ownership, and the terminal flag is set
      exactly when the cursor holds no handle, in which case nothing is
      queued; a freed buffer is never read again. */
  predicate Valid<R>(s: Enumerator<R>)
  {
    && Owns(s)
    && (s.lastEntryFound <==> s.directoryHandle == NullHandle)
    && (s.lastEntryFound ==> Queue(s) == [])
    && (!s.buffer ==> s.lastEntryFound)
    && s.bufferLength >= MinimumBufferSize
  }

  // ---------------------------------------------------------------------
  // Work left: a bound on the records the enumeration can still produce

  function FollowingSize(c: BufferCursor): nat
  {
    match c
    case Null => 0
    case At(_, following) => RecordsSize(following)
  }

  function QueueSize(q: seq<Frame>): nat
  {
    if q == [] then 0 else ListingSize(q[0].stream) + QueueSize(q[1..])
  }

  function Work<R>(s: Enumerator<R>): nat
  {
    FollowingSize(s.entry)
    + (if s.directoryHandle != NullHandle then ListingSize(s.stream) else 0)
    + QueueSize(Queue(s))
  }

  lemma {:induction false} QueueSizeAppend(q: seq<Frame>, f: Frame)
    ensures QueueSize(q + [f]) == QueueSize(q) + ListingSize(f.stream)
  {
    if q != [] {
      assert (q + [f])[1..] == q[1..] + [f];
      QueueSizeAppend(q[1..], f);
    }
  }

  // ---------------------------------------------------------------------
  // The records still to visit

  function CursorItems(c: BufferCursor, directory: string): seq<Item>
  {
    match c
    case Null => []
    case At(_, following) => Items(following, directory)
  }

  function QueueItems(q: seq<Frame>): seq<Item>
  {
    if q == [] then [] else ListingItems(q[0].stream, q[0].path) + QueueItems(q[1..])
  }

  lemma {:induction false} QueueItemsAppend(q: seq<Frame>, f: Frame)
    ensures QueueItems(q + [f]) == QueueItems(q) + ListingItems(f.stream, f.path)
  {
    if q == [] {
      assert q + [f] == [f] && [f][1..] == [];
    } else {
      assert (q + [f])[1..] == q[1..] + [f];
      QueueItemsAppend(q[1..], f);
    }
  }

  /** The records the enumeration has still to visit, in the order it will
      visit them: the rest of the buffer, the rest of the current directory,
      then every queued directory front to back. Subdirectories not queued
      yet are not in it: visiting a record adds them (`Children`). */
  function Unread<R>(s: Enumerator<R>): seq<Item>
  {
    if s.lastEntryFound then []
    else CursorItems(s.entry, s.currentPath) + ListingItems(s.stream, s.currentPath) + QueueItems(Queue(s))
  }

  function ScopeOf<R>(s: Enumerator<R>, hooks: Hooks<R>): Scope<R>
  {
    Scope(s.options, hooks, s.rootDirectory, s.originalRootDirectory)
  }

  // ---------------------------------------------------------------------
  // Handles

  /** Opening a directory for listing: on success the OS issues a fresh handle. */
  function OpenForListing(l: Ledger, o: Opening): (r: RawOpen)
    requires Sound(l)
    ensures Sound(r.ledger) && Extends(l, r.ledger) && r.ledger.closes == l.closes && r.ledger.frees == l.frees
    ensures o.Opens? ==>
      && r.handle != NullHandle && r.handle != InvalidHandleValue
      && r.handle !in l.issued
      && Live(r.ledger) == Live(l) + {r.handle}
      && r.stream == o.listing
    ensures o.Fails? ==> r.handle == InvalidHandleValue && r.lastError == o.error && r.ledger == l
  {
    match o
    case Opens(listing) =>
      var (h, l') := OpenHandle(l);
      RawOpen(h, 0, l', listing)
    case Fails(error) => RawOpen(InvalidHandleValue, error, l, Exhausted)
  }

  /** `CloseDirectoryHandle`: take the cursor's handle, leave null behind,
      and close what was taken, if anything. */
  function CloseDirectoryHandle<R>(s: Enumerator<R>): (c: Enumerator<R>)
    ensures c.directoryHandle == NullHandle
    ensures c == s.(directoryHandle := NullHandle, ledger := c.ledger)
    ensures s.directoryHandle == NullHandle ==> c == s
    ensures s.directoryHandle != NullHandle ==> c.ledger == CloseHandle(s.ledger, s.directoryHandle)
    ensures Owns(s) ==> Owns(c) && Live(c.ledger) == Live(s.ledger) - {s.directoryHandle}
  {
    var handle := s.directoryHandle;
    var c := s.(directoryHandle := NullHandle);
    if handle != NullHandle then
      var c' := c.(ledger := CloseHandle(s.ledger, handle));
      assert Owns(s) ==> Owned(c') == Owned(s) - {handle} by {
        if Owns(s) {
          assert handle !in QueuedHandles(Queue(s));
        }
      }
      c'
    else c
  }

  /** The error a failed root open reports: a missing leaf is reported as
      a missing path, so file-not-found never escapes. */
  function ReportedError(error: int): (e: int)
    ensures e != ERROR_FILE_NOT_FOUND
    ensures error == ERROR_FILE_NOT_FOUND ==> e == ERROR_PATH_NOT_FOUND
    ensures error != ERROR_FILE_NOT_FOUND ==> e == error
  {
    if error == ERROR_FILE_NOT_FOUND then ERROR_PATH_NOT_FOUND else error
  }

  /** `ContinueOnDirectoryError`: whether a failed open or read of a
      directory is skipped instead of thrown. Apart from what the
      `ContinueOnError` hook asks for, only four codes are ever skipped:
      the three not-found codes when asked to ignore them, and access
      denied when inaccessible directories are ignored. */
  function ContinueOnDirectoryError<R>(error: int, ignoreNotFound: bool, options: Options, hooks: Hooks<R>): (skip: bool)
    ensures hooks.continueOnError(error) ==> skip
    ensures ignoreNotFound && error in {ERROR_FILE_NOT_FOUND, ERROR_PATH_NOT_FOUND, ERROR_DIRECTORY} ==> skip
    ensures error == ERROR_ACCESS_DENIED && options.ignoreInaccessible ==> skip
    ensures skip && !hooks.continueOnError(error) ==>
      || (ignoreNotFound && error in {ERROR_FILE_NOT_FOUND, ERROR_PATH_NOT_FOUND, ERROR_DIRECTORY})
      || (error == ERROR_ACCESS_DENIED && options.ignoreInaccessible)
  {
    || (ignoreNotFound && (error == ERROR_FILE_NOT_FOUND || error == ERROR_PATH_NOT_FOUND || error == ERROR_DIRECTORY))
    || (error == ERROR_ACCESS_DENIED && options.ignoreInaccessible)
    || hooks.continueOnError(error)
  }

  /** Asking to ignore missing directories only widens the policy, and it
      widens it by exactly the three not-found errors: every other error is
      treated alike either way. */
  lemma IgnoreNotFoundWidensExactlyByNotFound<R>(error: int, options: Options, hooks: Hooks<R>)
    ensures ContinueOnDirectoryError(error, false, options, hooks) ==> ContinueOnDirectoryError(error, true, options, hooks)
    ensures ContinueOnDirectoryError(error, true, options, hooks) && !ContinueOnDirectoryError(error, false, options, hooks) <==>
      (error == ERROR_FILE_NOT_FOUND || error == ERROR_PATH_NOT_FOUND || error == ERROR_DIRECTORY)
      && !(error == ERROR_ACCESS_DENIED && options.ignoreInaccessible) && !hooks.continueOnError(error)
  {
  }

  /** `CreateDirectoryHandle` after the OS call: `raw` is what the open of
      `WithPartitionSeparator(path)` returned and `lastError` the Win32 error
      it left. A failed open yields the null handle when the policy says
      continue, and otherwise throws for the path that was opened. */
  function CreateDirectoryHandle<R>(raw: Handle, lastError: int, path: string, ignoreNotFound: bool,
                                    options: Options, hooks: Hooks<R>): (r: Completion<Handle>)
    ensures r.Normal? && r.value != NullHandle <==> raw != NullHandle && raw != InvalidHandleValue
    ensures r.Normal? && r.value != NullHandle ==> r.value == raw
    ensures r == Normal(NullHandle) <==>
      (raw == NullHandle || raw == InvalidHandleValue) && ContinueOnDirectoryError(lastError, ignoreNotFound, options, hooks)
    ensures r.Abrupt? ==> r.exception == IOError(ReportedError(lastError), WithPartitionSeparator(path))
    ensures r.Abrupt? ==> r.exception.error != ERROR_FILE_NOT_FOUND
    ensures ignoreNotFound && lastError in {ERROR_FILE_NOT_FOUND, ERROR_PATH_NOT_FOUND, ERROR_DIRECTORY} ==> r.Normal?
  {
    var fixedPath := WithPartitionSeparator(path);
    if raw == NullHandle || raw == InvalidHandleValue then
      if ContinueOnDirectoryError(lastError, ignoreNotFound, options, hooks) then Normal(NullHandle)
      else Abrupt(IOError(ReportedError(lastError), fixedPath))
    else Normal(raw)
  }

  /** The child open after the OS call, relative to the parent's handle: the
      same policy with missing directories ignored, throwing the OS error for
      the joined path as it is. */
  function CreateRelativeDirectoryHandle<R>(raw: Handle, lastError: int, fullPath: string,
                                            options: Options, hooks: Hooks<R>): (r: Completion<Handle>)
    ensures r.Normal? && r.value != NullHandle <==> raw != NullHandle && raw != InvalidHandleValue
    ensures r.Normal? && r.value != NullHandle ==> r.value == raw
    ensures r == Normal(NullHandle) <==>
      (raw == NullHandle || raw == InvalidHandleValue) && ContinueOnDirectoryError(lastError, true, options, hooks)
    ensures r.Abrupt? ==> r.exception == IOError(lastError, fullPath)
    ensures lastError in {ERROR_FILE_NOT_FOUND, ERROR_PATH_NOT_FOUND, ERROR_DIRECTORY} ==> r.Normal?
  {
    if raw == NullHandle || raw == InvalidHandleValue then
      if ContinueOnDirectoryError(lastError, true, options, hooks) then Normal(NullHandle)
      else Abrupt(IOError(lastError, fullPath))
    else Normal(raw)
  }

  // ---------------------------------------------------------------------
  // Construction

  /** The constructor. `getFullPath` stands for the full-path resolution and
      trailing-separator trimming of the root; `root` is what opening it
      yields; `allocFails` says whether allocating the buffer throws. */
  function Construct<R>(directory: Option<string>, options: Option<Options>, getFullPath: string -> string,
                        root: Opening, hooks: Hooks<R>, allocFails: bool): (c: Constructed<R>)
    ensures Sound(c.ledger)
    ensures directory.None? ==> c.result == Abrupt(ArgumentNull) && c.ledger == Empty
    ensures c.result.Abrupt? ==> Live(c.ledger) == {}
    ensures c.result.Normal? ==>
      var e := c.result.value;
      && Valid(e) && e.ledger == c.ledger
      && directory.Some? && e.originalRootDirectory == directory.value
      && e.rootDirectory == getFullPath(directory.value) && e.currentPath == e.rootDirectory
      && e.options == options.GetOr(Default)
      && e.bufferLength == BufferLength(e.options.bufferSize)
      && e.current.None? && e.pending.None? && e.entry.Null?
      && (e.lastEntryFound <==> root.Fails?)
      && (root.Opens? ==> e.stream == root.listing)
    ensures directory.Some? && root.Fails? && !ContinueOnDirectoryError(root.error, false, options.GetOr(Default), hooks) ==>
      c.result == Abrupt(IOError(ReportedError(root.error), WithPartitionSeparator(getFullPath(directory.value))))
      && c.ledger == Empty
    ensures directory.Some? && allocFails ==> c.result.Abrupt?
    ensures directory.Some? && allocFails && (root.Opens? || ContinueOnDirectoryError(root.error, false, options.GetOr(Default), hooks)) ==>
      c.result == Abrupt(OutOfMemory)
    ensures directory.Some? && root.Opens? && allocFails ==>
      c.result == Abrupt(OutOfMemory) && |c.ledger.issued| == 1 && |c.ledger.closes| == 1
    ensures directory.Some? && !allocFails && (root.Opens? || ContinueOnDirectoryError(root.error, false, options.GetOr(Default), hooks)) ==>
      c.result.Normal?
  {
    if directory.None? then Constructed(Abrupt(ArgumentNull), Empty)
    else
      var originalRoot := directory.value;
      var rootDirectory := getFullPath(originalRoot);
      var opts := options.GetOr(Default);
      var raw := OpenForListing(Empty, root);
      match CreateDirectoryHandle(raw.handle, raw.lastError, rootDirectory, false, opts, hooks)
      case Abrupt(e) => Constructed(Abrupt(e), raw.ledger)
      case Normal(h) =>
        var s := Enumerator(originalRoot, rootDirectory, opts, BufferLength(opts.bufferSize), false,
                            h, raw.stream, rootDirectory, h == NullHandle, None, Null, None, raw.ledger);
        if allocFails then
          var closed := CloseDirectoryHandle(s);
          assert root.Opens? ==> closed.ledger.issued == {h} && closed.ledger.closes == [h];
          Constructed(Abrupt(OutOfMemory), closed.ledger)
        else
          Constructed(Normal(s.(buffer := true)), s.ledger)
  }

  // ---------------------------------------------------------------------
  // Reading records

  /** `GetNextInfo`: the next record of the current batch, or null. */
  function GetNextInfo(c: BufferCursor): (n: BufferCursor)
    ensures n.At? <==> c.At? && |c.following| > 0
    ensures n.At? ==> [n.record] + n.following == c.following
  {
    match c
    case Null => Null
    case At(_, following) => if following == [] then Null else At(following[0], following[1..])
  }

  /** `DequeueNextDirectory`: pop the front frame into the cursor, or report
      that the queue is null or empty and change nothing. */
  function DequeueNextDirectory<R>(s: Enumerator<R>): (r: (Enumerator<R>, bool))
    ensures r.1 <==> |Queue(s)| > 0
    ensures !r.1 ==> r.0 == s
    ensures r.1 ==>
      && r.0.directoryHandle == Queue(s)[0].handle && r.0.currentPath == Queue(s)[0].path
      && r.0.stream == Queue(s)[0].stream
      && Queue(r.0) == Queue(s)[1..]
      && r.0 == s.(directoryHandle := r.0.directoryHandle, currentPath := r.0.currentPath,
                   stream := r.0.stream, pending := r.0.pending)
    ensures Owns(s) && s.directoryHandle == NullHandle ==> Owns(r.0) && Owned(r.0) == Owned(s)
    ensures r.1 && Owns(s) ==> r.0.directoryHandle != NullHandle
  {
    if s.pending.None? || |s.pending.value| == 0 then (s, false)
    else
      var q := s.pending.value;
      var r := s.(directoryHandle := q[0].handle, currentPath := q[0].path, stream := q[0].stream, pending := Some(q[1..]));
      assert QueuedHandles(q) == {q[0].handle} + QueuedHandles(q[1..]) by {
        assert Handles(q)[1..] == Handles(q[1..]);
        ElementsOfCons(Handles(q));
      }
      assert Owns(s) && s.directoryHandle == NullHandle ==> Owns(r) by {
        if Owns(s) && s.directoryHandle == NullHandle {
          forall i, j | 0 <= i < j < |Queue(r)| ensures Queue(r)[i].handle != Queue(r)[j].handle {
            assert Queue(r)[i] == q[i + 1] && Queue(r)[j] == q[j + 1];
          }
          forall i | 0 <= i < |Queue(r)|
            ensures Queue(r)[i].handle != NullHandle && Queue(r)[i].handle != r.directoryHandle
          {
            assert Queue(r)[i] == q[i + 1];
          }
        }
      }
      (r, true)
  }

  /** The end of one directory: drop the buffer cursor, close the handle,
      then move on to the next queued directory or become terminal. */
  function DirectoryFinished<R>(s: Enumerator<R>): (r: (Enumerator<R>, bool))
    requires Valid(s) && !s.lastEntryFound
    ensures Valid(r.0) && Extends(s.ledger, r.0.ledger)
    ensures r.0.ledger.closes == s.ledger.closes + [s.directoryHandle]
    ensures r.0.entry.Null?
    ensures r.1 <==> |Queue(s)| > 0
    ensures r.1 ==> !r.0.lastEntryFound && |Queue(r.0)| == |Queue(s)| - 1
    ensures r.1 ==>
      && r.0.directoryHandle == Queue(s)[0].handle && r.0.currentPath == Queue(s)[0].path
      && r.0.stream == Queue(s)[0].stream && Queue(r.0) == Queue(s)[1..]
    ensures !r.1 ==> r.0.lastEntryFound
    ensures Work(r.0) + FollowingSize(s.entry) + ListingSize(s.stream) == Work(s)
    ensures r.0.current == s.current && r.0.options == s.options && r.0.rootDirectory == s.rootDirectory
    ensures r.0.originalRootDirectory == s.originalRootDirectory
  {
    var closed := CloseDirectoryHandle(s.(entry := Null));
    var (d, more) := DequeueNextDirectory(closed);
    if more then
      assert Work(d) == QueueSize(Queue(s));
      (d, true)
    else
      (d.(lastEntryFound := true), false)
  }

  /** What every step of `FindNextEntry` guarantees: the invariant holds,
      the history only grows, an exception leaves the cursor live, a record
      found is paid for by the work left, and the end of the traversal
      leaves no handle open. */
  ghost predicate Advanced<R>(s: Enumerator<R>, r: Outcome<R, ()>)
  {
    && Valid(r.state) && Extends(s.ledger, r.state.ledger)
    && (r.result.Abrupt? ==> !r.state.lastEntryFound)
    && (r.result.Normal? && !r.state.lastEntryFound ==>
          r.state.entry.At? && Work(r.state) + RecordSize(r.state.entry.record) <= Work(s))
    && Work(r.state) <= Work(s)
    && (r.state.lastEntryFound ==> Live(r.state.ledger) == {})
    && r.state.current == s.current && r.state.options == s.options
    && r.state.rootDirectory == s.rootDirectory && r.state.originalRootDirectory == s.originalRootDirectory
    && (Queue(s) == [] ==> Queue(r.state) == [] && r.state.currentPath == s.currentPath)
  }

  /** Without an exception a step leaves the cursor on the first record
      still to visit, with the rest still to visit after it; or nothing was
      left and the traversal has ended. */
  ghost predicate TookFirst<R>(s: Enumerator<R>, r: Outcome<R, ()>)
  {
    && (r.result.Normal? && r.state.lastEntryFound ==> Unread(s) == [])
    && (r.result.Normal? && !r.state.lastEntryFound ==>
          r.state.entry.At? && Unread(s) == [Item(r.state.entry.record, r.state.currentPath)] + Unread(r.state))
  }

  /** `FindNextEntry`: advance to the next record of the buffer, or read
      the next batch when the buffer is used up. */
  function FindNextEntry<R>(s: Enumerator<R>, hooks: Hooks<R>): (r: Outcome<R, ()>)
    requires Valid(s) && !s.lastEntryFound
    ensures Advanced(s, r)
    ensures GetNextInfo(s.entry).At? ==> r == Outcome(s.(entry := GetNextInfo(s.entry)), Normal(()))
    ensures !GetNextInfo(s.entry).At? ==> r == ReadNextBatch(s.(entry := Null), hooks)
    decreases |Queue(s)|, 2
  {
    var next := GetNextInfo(s.entry);
    if next.At? then
      Outcome(s.(entry := next), Normal(()))
    else
      ReadNextBatch(s.(entry := Null), hooks)
  }

  /** `GetData` against the current handle: a batch puts the cursor on its
      first record; the end of the directory, or a read error the policy
      swallows, finishes the directory; any other read error is thrown. */
  function ReadNextBatch<R>(s: Enumerator<R>, hooks: Hooks<R>): (r: Outcome<R, ()>)
    requires Valid(s) && !s.lastEntryFound && s.entry.Null?
    ensures Advanced(s, r)
    ensures GetData(s.stream).Filled? ==>
      r == Outcome(s.(entry := At(GetData(s.stream).batch.first, GetData(s.stream).batch.following),
                      stream := GetData(s.stream).remaining), Normal(()))
    ensures GetData(s.stream).NoMoreEntries? ==> r == FinishDirectory(s, hooks)
    ensures GetData(s.stream).ReadError? && ContinueOnDirectoryError(GetData(s.stream).error, false, s.options, hooks) ==>
      r == FinishDirectory(s, hooks)
    ensures GetData(s.stream).ReadError? && !ContinueOnDirectoryError(GetData(s.stream).error, false, s.options, hooks) ==>
      r == Outcome(s, Abrupt(IOError(GetData(s.stream).error, s.currentPath)))
    decreases |Queue(s)|, 1
  {
    match GetData(s.stream)
    case Filled(batch, remaining) =>
      GetDataPreservesSize(s.stream);
      Outcome(s.(entry := At(batch.first, batch.following), stream := remaining), Normal(()))
    case NoMoreEntries =>
      FinishDirectory(s, hooks)
    case ReadError(error) =>
      if ContinueOnDirectoryError(error, false, s.options, hooks) then FinishDirectory(s, hooks)
      else Outcome(s, Abrupt(IOError(error, s.currentPath)))
  }

  /** A directory has no more records: finish it and continue in the next
      queued directory, or end the traversal. */
  function FinishDirectory<R>(s: Enumerator<R>, hooks: Hooks<R>): (r: Outcome<R, ()>)
    requires Valid(s) && !s.lastEntryFound && s.entry.Null? && s.stream.batches == []
    ensures Advanced(s, r)
    ensures Queue(s) == [] ==> r == Outcome(r.state, Normal(())) && r.state.lastEntryFound
    ensures Queue(s) != [] ==> r == FindNextEntry(DirectoryFinished(s).0, hooks)
    decreases |Queue(s)|, 0
  {
    var (d, more) := DirectoryFinished(s);
    if more then FindNextEntry(d, hooks) else Outcome(d, Normal(()))
  }

  /** Moving the cursor to the next record of the batch takes that record
      from the front of what is still to visit. */
  lemma UnreadAfterNextInBatch<R>(s: Enumerator<R>, t: Enumerator<R>)
    requires !s.lastEntryFound && s.entry.At? && |s.entry.following| > 0
    requires t == s.(entry := At(s.entry.following[0], s.entry.following[1..]))
    ensures Unread(s) == [Item(t.entry.record, t.currentPath)] + Unread(t)
  {
    assert Items(s.entry.following, s.currentPath)
        == [Item(t.entry.record, s.currentPath)] + Items(t.entry.following, s.currentPath);
  }

  /** A used-up cursor holds nothing still to visit. */
  lemma UnreadWithoutCursor<R>(s: Enumerator<R>)
    requires s.entry.Null? || (s.entry.At? && s.entry.following == [])
    ensures Unread(s.(entry := Null)) == Unread(s)
  {
    assert CursorItems(s.entry, s.currentPath) == [];
  }

  /** Reading a batch moves its first record to the front and the rest of
      it into the cursor, in order. */
  lemma UnreadAfterRead<R>(s: Enumerator<R>, t: Enumerator<R>)
    requires !s.lastEntryFound && s.entry.Null? && |s.stream.batches| > 0
    requires t == s.(entry := At(s.stream.batches[0].first, s.stream.batches[0].following),
                     stream := s.stream.(batches := s.stream.batches[1..]))
    ensures Unread(s) == [Item(t.entry.record, t.currentPath)] + Unread(t)
  {
    var b := s.stream.batches[0];
    assert Items([b.first] + b.following, s.currentPath)
        == [Item(b.first, s.currentPath)] + Items(b.following, s.currentPath);
  }

  /** Finishing a read-out directory and dequeuing the next one leaves what
      is still to visit unchanged: it was all in the queue. */
  lemma UnreadAfterDequeue<R>(s: Enumerator<R>, d: Enumerator<R>)
    requires !s.lastEntryFound && s.entry.Null? && s.stream.batches == [] && |Queue(s)| > 0
    requires !d.lastEntryFound && d.entry.Null?
    requires d.currentPath == Queue(s)[0].path && d.stream == Queue(s)[0].stream && Queue(d) == Queue(s)[1..]
    ensures Unread(d) == Unread(s)
  {
    assert CursorItems(s.entry, s.currentPath) == [] && ListingItems(s.stream, s.currentPath) == [];
  }

  /** With the directory read out and nothing queued, nothing is left. */
  lemma UnreadAtEnd<R>(s: Enumerator<R>)
    requires s.entry.Null? && s.stream.batches == [] && Queue(s) == []
    ensures Unread(s) == []
  {
    assert CursorItems(s.entry, s.currentPath) == [] && ListingItems(s.stream, s.currentPath) == [];
  }

  /** The three steps of `FindNextEntry` take the records still to visit
      from the front, in order. */
  lemma {:induction false} FindNextEntryTakesFirst<R>(s: Enumerator<R>, hooks: Hooks<R>)
    requires Valid(s) && !s.lastEntryFound
    ensures TookFirst(s, FindNextEntry(s, hooks))
    decreases |Queue(s)|, 2
  {
    var next := GetNextInfo(s.entry);
    if next.At? {
      UnreadAfterNextInBatch(s, s.(entry := next));
    } else {
      UnreadWithoutCursor(s);
      ReadNextBatchTakesFirst(s.(entry := Null), hooks);
    }
  }

  lemma {:induction false} ReadNextBatchTakesFirst<R>(s: Enumerator<R>, hooks: Hooks<R>)
    requires Valid(s) && !s.lastEntryFound && s.entry.Null?
    ensures TookFirst(s, ReadNextBatch(s, hooks))
    decreases |Queue(s)|, 1
  {
    var data := GetData(s.stream);
    if data.Filled? {
      UnreadAfterRead(s, s.(entry := At(data.batch.first, data.batch.following), stream := data.remaining));
    } else if data.NoMoreEntries? || ContinueOnDirectoryError(data.error, false, s.options, hooks) {
      FinishDirectoryTakesFirst(s, hooks);
    }
  }

  lemma {:induction false} FinishDirectoryTakesFirst<R>(s: Enumerator<R>, hooks: Hooks<R>)
    requires Valid(s) && !s.lastEntryFound && s.entry.Null? && s.stream.batches == []
    ensures TookFirst(s, FinishDirectory(s, hooks))
    decreases |Queue(s)|, 0
  {
    var (d, more) := DirectoryFinished(s);
    if more {
      UnreadAfterDequeue(s, d);
      FindNextEntryTakesFirst(d, hooks);
    } else {
      UnreadAtEnd(s);
    }
  }

  // ---------------------------------------------------------------------
  // The filters

  function ViewOf<R>(s: Enumerator<R>): EntryView
    requires s.entry.At?
  {
    View(s.entry.record, s.currentPath, s.rootDirectory, s.originalRootDirectory)
  }

  /** The last step of the loop body: `ShouldIncludeEntry`, then `TransformEntry`. */
  function Include<R>(s: Enumerator<R>, hooks: Hooks<R>, v: EntryView): (r: Outcome<R, bool>)
    ensures r.result.Normal?
    ensures r.result.value <==> hooks.shouldIncludeEntry(v)
    ensures r.result.value ==> r.state == s.(current := Some(hooks.transformEntry(v)))
    ensures !r.result.value ==> r.state == s
  {
    if hooks.shouldIncludeEntry(v) then Outcome(s.(current := Some(hooks.transformEntry(v))), Normal(true))
    else Outcome(s, Normal(false))
  }

  /** Appending a frame whose handle is fresh and live keeps ownership. */
  lemma EnqueueKeepsOwnership<R>(s: Enumerator<R>, l: Ledger, f: Frame)
    requires Owns(s) && Sound(l)
    requires f.handle != NullHandle && f.handle !in s.ledger.issued
    requires Live(l) == Live(s.ledger) + {f.handle}
    requires (if s.buffer then l.frees == 0 else l.frees == 1)
    ensures Owns(s.(pending := Some(Queue(s) + [f]), ledger := l))
  {
    var t := s.(pending := Some(Queue(s) + [f]), ledger := l);
    var q := Queue(s);
    assert Queue(t) == q + [f];
    assert QueuedHandles(q + [f]) == QueuedHandles(q) + {f.handle} by {
      assert Handles(q + [f]) == Handles(q) + [f.handle];
      ElementsOfSnoc(Handles(q), f.handle);
    }
    assert Owned(t) == Owned(s) + {f.handle};
    forall i, j | 0 <= i < j < |Queue(t)| ensures Queue(t)[i].handle != Queue(t)[j].handle {
      if j == |q| {
        assert Queue(t)[i].handle in Live(s.ledger);
      }
    }
    forall i | 0 <= i < |Queue(t)| ensures Queue(t)[i].handle != NullHandle && Queue(t)[i].handle != t.directoryHandle {
      if i == |q| && s.directoryHandle != NullHandle {
        assert s.directoryHandle in Live(s.ledger);
      }
    }
  }

  /** Queuing the subdirectory under the cursor, once the filters have
      decided to recurse into it: open a handle for the child, queue it
      with its joined path when the handle is not null, and close it again
      if queuing throws. */
  function QueueSubdirectory<R>(s: Enumerator<R>, hooks: Hooks<R>, enqueueFails: Frame -> bool): (r: Outcome<R, ()>)
    requires Valid(s) && !s.lastEntryFound && s.entry.At?
    ensures Valid(r.state) && Extends(s.ledger, r.state.ledger)
    ensures r.state == s.(pending := r.state.pending, ledger := r.state.ledger)
    ensures Work(r.state) <= Work(s) + OpeningSize(s.entry.record.child)
    ensures Queue(r.state) == Queue(s) && r.result.Normal? ==> r.state.ledger == s.ledger
    ensures Queue(r.state) != Queue(s) ==>
      && s.entry.record.child.Opens?
      && r.result.Normal?
      && |Queue(r.state)| == |Queue(s)| + 1
      && Queue(r.state) == Queue(s) + [Frame(Queue(r.state)[|Queue(s)|].handle,
                                             Join(s.currentPath, s.entry.record.name),
                                             s.entry.record.child.listing)]
      && Queue(r.state)[|Queue(s)|].handle !in s.ledger.issued
      && Live(r.state.ledger) == Live(s.ledger) + {Queue(r.state)[|Queue(s)|].handle}
    ensures s.entry.record.child.Opens? ==> Queue(r.state) != Queue(s) || r.result == Abrupt(OutOfMemory)
    ensures r.result == Abrupt(OutOfMemory) ==>
      && s.entry.record.child.Opens?
      && Queue(r.state) == Queue(s)
      && |r.state.ledger.closes| == |s.ledger.closes| + 1
      && r.state.ledger.closes[|s.ledger.closes|] !in s.ledger.issued
      && r.state.ledger.issued == s.ledger.issued + {r.state.ledger.closes[|s.ledger.closes|]}
      && Live(r.state.ledger) == Live(s.ledger)
    ensures r.result.Abrupt? && r.result.exception != OutOfMemory ==>
      && s.entry.record.child.Fails?
      && !ContinueOnDirectoryError(s.entry.record.child.error, true, s.options, hooks)
      && r == Outcome(s, Abrupt(IOError(s.entry.record.child.error, Join(s.currentPath, s.entry.record.name))))
    ensures s.entry.record.child.Fails? && !ContinueOnDirectoryError(s.entry.record.child.error, true, s.options, hooks) ==>
      r == Outcome(s, Abrupt(IOError(s.entry.record.child.error, Join(s.currentPath, s.entry.record.name))))
    ensures r.result == Abrupt(OutOfMemory) <==>
      && s.entry.record.child.Opens?
      && enqueueFails(Frame(OpenForListing(s.ledger, s.entry.record.child).handle,
                            Join(s.currentPath, s.entry.record.name), s.entry.record.child.listing))
  {
    var record := s.entry.record;
    var subDirectory := Join(s.currentPath, record.name);
    var raw := OpenForListing(s.ledger, record.child);
    match CreateRelativeDirectoryHandle(raw.handle, raw.lastError, subDirectory, s.options, hooks)
    case Abrupt(e) =>
      Outcome(s, Abrupt(e))
    case Normal(h) =>
      if h == NullHandle then
        Outcome(s, Normal(()))
      else
        var frame := Frame(h, subDirectory, raw.stream);
        if enqueueFails(frame) then
          var failed := s.(pending := Some(Queue(s)), ledger := CloseHandle(raw.ledger, h));
          assert Owned(failed) == Owned(s);
          Outcome(failed, Abrupt(OutOfMemory))
        else
          var queued := s.(pending := Some(Queue(s) + [frame]), ledger := raw.ledger);
          EnqueueKeepsOwnership(s, raw.ledger, frame);
          QueueSizeAppend(Queue(s), frame);
          Outcome(queued, Normal(()))
  }

  /** One pass of the `MoveNext` loop body over the record under the cursor:
      the attribute skip, the special-name check, queuing the subdirectory,
      then the include hook. `Normal(true)` means the entry was accepted. */
  function Visit<R>(s: Enumerator<R>, hooks: Hooks<R>, enqueueFails: Frame -> bool): (r: Outcome<R, bool>)
    requires Valid(s) && !s.lastEntryFound && s.entry.At?
    ensures Valid(r.state) && Extends(s.ledger, r.state.ledger)
    ensures r.state == s.(pending := r.state.pending, ledger := r.state.ledger, current := r.state.current)
    ensures r.result.Normal? ==> (r.result.value <==> Accepted(s.options, hooks, ViewOf(s)))
    ensures r.result == Normal(true) ==> r.state.current == Some(hooks.transformEntry(ViewOf(s)))
    ensures r.result != Normal(true) ==> r.state.current == s.current
    ensures !RecursesInto(s.options, hooks, ViewOf(s)) ==>
      r.result.Normal? && Queue(r.state) == Queue(s) && r.state.ledger == s.ledger
    ensures RecursesInto(s.options, hooks, ViewOf(s)) ==>
      var queued := QueueSubdirectory(s, hooks, enqueueFails);
      && r.state.pending == queued.state.pending && r.state.ledger == queued.state.ledger
      && (queued.result.Abrupt? ==> r.result == Abrupt(queued.result.exception))
      && (queued.result.Normal? ==> r.result.Normal?)
    ensures Work(r.state) < Work(s) + RecordSize(s.entry.record)
  {
    var record := s.entry.record;
    var view := ViewOf(s);
    if Skipped(s.options, view) then
      Outcome(s, Normal(false))
    else if IsDirectory(record.attributes) && IsSpecialDirectoryName(record.name) then
      if !s.options.returnSpecialDirectories then Outcome(s, Normal(false))
      else Include(s, hooks, view)
    else if IsDirectory(record.attributes) && s.options.recurseSubdirectories && hooks.shouldRecurseIntoEntry(view) then
      var queued := QueueSubdirectory(s, hooks, enqueueFails);
      if queued.result.Abrupt? then Outcome(queued.state, Abrupt(queued.result.exception))
      else Include(queued.state, hooks, view)
    else
      Include(s, hooks, view)
  }

  /** Queuing a frame at the back adds its records after everything still
      to visit. */
  lemma UnreadAfterQueuing<R>(s: Enumerator<R>, t: Enumerator<R>, f: Frame)
    requires !s.lastEntryFound && !t.lastEntryFound
    requires t.entry == s.entry && t.currentPath == s.currentPath && t.stream == s.stream
    requires Queue(t) == Queue(s) + [f]
    ensures Unread(t) == Unread(s) + ListingItems(f.stream, f.path)
  {
    QueueItemsAppend(Queue(s), f);
  }

  /** A visit that completes normally leaves the records still to visit as
      they were, followed by the records of the subdirectory it queued. */
  lemma VisitAppendsChildren<R>(s: Enumerator<R>, hooks: Hooks<R>, enqueueFails: Frame -> bool)
    requires Valid(s) && !s.lastEntryFound && s.entry.At?
    ensures var v := Visit(s, hooks, enqueueFails);
      v.result.Normal? ==> Unread(v.state) == Unread(s) + Children(ScopeOf(s, hooks), Item(s.entry.record, s.currentPath))
  {
    var v := Visit(s, hooks, enqueueFails);
    var children := Children(ScopeOf(s, hooks), Item(s.entry.record, s.currentPath));
    if v.result.Normal? {
      if RecursesInto(s.options, hooks, ViewOf(s)) && Queue(v.state) != Queue(s) {
        var f := Queue(v.state)[|Queue(s)|];
        assert children == ListingItems(f.stream, f.path);
        UnreadAfterQueuing(s, v.state, f);
      } else {
        assert children == [] && Queue(v.state) == Queue(s);
        assert Unread(v.state) == Unread(s);
      }
    }
  }

  /** The loop follows the reference walk: a true result is the first
      accepted record still to visit, with the records after it (and below
      the ones passed over) left to visit; a false result means none was
      left to accept. */
  lemma {:induction false} LoopFollowsWalk<R>(s: Enumerator<R>, hooks: Hooks<R>, enqueueFails: Frame -> bool)
    requires Valid(s) && !s.lastEntryFound
    ensures var r := MoveNextLoop(s, hooks, enqueueFails);
      && (r.result == Normal(true) ==>
            NextAccepted(ScopeOf(s, hooks), Unread(s)) == Some((Item(r.state.entry.record, r.state.currentPath), Unread(r.state))))
      && (r.result == Normal(false) ==> NextAccepted(ScopeOf(s, hooks), Unread(s)).None?)
    decreases Work(s)
  {
    var found := FindNextEntry(s, hooks);
    FindNextEntryTakesFirst(s, hooks);
    if found.result.Normal? && !found.state.lastEntryFound {
      var x := Item(found.state.entry.record, found.state.currentPath);
      var rest := Unread(found.state);
      assert ([x] + rest)[1..] == rest;
      VisitAppendsChildren(found.state, hooks, enqueueFails);
      var visited := Visit(found.state, hooks, enqueueFails);
      if visited.result == Normal(false) {
        LoopFollowsWalk(visited.state, hooks, enqueueFails);
      }
    }
  }

  // ---------------------------------------------------------------------
  // MoveNext

  /** The `do { ... } while (true)` loop of `MoveNext`; every pass consumes
      one record, so the loop ends. */
  function MoveNextLoop<R>(s: Enumerator<R>, hooks: Hooks<R>, enqueueFails: Frame -> bool): (r: Outcome<R, bool>)
    requires Valid(s) && !s.lastEntryFound
    ensures Valid(r.state) && Extends(s.ledger, r.state.ledger)
    ensures r.result == Normal(false) <==> r.state.lastEntryFound
    ensures r.result == Normal(true) ==>
      && r.state.entry.At?
      && Accepted(r.state.options, hooks, ViewOf(r.state))
      && r.state.current == Some(hooks.transformEntry(ViewOf(r.state)))
      && Work(r.state) < Work(s)
    ensures Work(r.state) <= Work(s)
    ensures r.result != Normal(true) ==> r.state.current == s.current
    ensures ScopeOf(r.state, hooks) == ScopeOf(s, hooks)
    ensures !s.options.recurseSubdirectories && Queue(s) == [] ==>
      Queue(r.state) == [] && r.state.currentPath == s.currentPath
    decreases Work(s)
  {
    var found := FindNextEntry(s, hooks);
    if found.result.Abrupt? then
      Outcome(found.state, Abrupt(found.result.exception))
    else if found.state.lastEntryFound then
      Outcome(found.state, Normal(false))
    else
      var visited := Visit(found.state, hooks, enqueueFails);
      assert !visited.state.lastEntryFound;
      if visited.result.Abrupt? || visited.result.value then visited
      else MoveNextLoop(visited.state, hooks, enqueueFails)
  }

  /** `MoveNext`: once the terminal flag is set it returns false and changes
      nothing; otherwise it runs the loop until an entry is accepted, the
      traversal ends or an exception escapes. Without an exception it
      follows the reference walk over what is still to visit: true yields
      the first accepted record, after passing over only records that are
      not accepted, and leaves the rest of the walk still to visit; false
      means the walk holds no accepted record. */
  function MoveNext<R>(s: Enumerator<R>, hooks: Hooks<R>, enqueueFails: Frame -> bool): (r: Outcome<R, bool>)
    requires Valid(s)
    ensures Valid(r.state) && Extends(s.ledger, r.state.ledger)
    ensures s.lastEntryFound ==> r == Outcome(s, Normal(false))
    ensures r.result == Normal(false) <==> r.state.lastEntryFound
    ensures r.result == Normal(false) ==> Live(r.state.ledger) == {}
    ensures r.result == Normal(true) ==>
      && r.state.entry.At?
      && !Skipped(r.state.options, ViewOf(r.state))
      && !DroppedAsSpecial(r.state.options, ViewOf(r.state))
      && hooks.shouldIncludeEntry(ViewOf(r.state))
      && r.state.current == Some(hooks.transformEntry(ViewOf(r.state)))
      && Work(r.state) < Work(s)
    ensures r.result == Normal(true) ==>
      NextAccepted(ScopeOf(s, hooks), Unread(s)) == Some((Item(r.state.entry.record, r.state.currentPath), Unread(r.state)))
    ensures r.result == Normal(false) ==> NextAccepted(ScopeOf(s, hooks), Unread(s)).None?
    ensures Work(r.state) <= Work(s)
    ensures r.result != Normal(true) ==> r.state.current == s.current
    ensures r.state.options == s.options && r.state.rootDirectory == s.rootDirectory
    ensures r.state.originalRootDirectory == s.originalRootDirectory
    ensures !s.options.recurseSubdirectories && Queue(s) == [] ==>
      Queue(r.state) == [] && r.state.currentPath == s.currentPath
  {
    if s.lastEntryFound then Outcome(s, Normal(false))
    else
      LoopFollowsWalk(s, hooks, enqueueFails);
      MoveNextLoop(s, hooks, enqueueFails)
  }

  // ---------------------------------------------------------------------
  // Runs without OS errors

  /** A record on which no OS call fails: a directory opens when asked to,
      and what it lists is fault-free in turn. */
  predicate CleanRecord(r: Record)
    decreases r, 1
  {
    && (IsDirectory(r.attributes) ==> r.child.Opens?)
    && (r.child.Opens? ==> CleanListing(r.child.listing))
  }

  /** A listing whose reads all succeed and end with no more files, and
      whose records are fault-free. */
  predicate CleanListing(l: Listing)
    decreases l, 0
  {
    && l.end == NoMoreFiles
    && forall i :: 0 <= i < |l.batches| ==> CleanBatch(l.batches[i])
  }

  /** A batch whose records are all fault-free. */
  predicate CleanBatch(b: Batch)
    decreases b, 0
  {
    CleanRecord(b.first) && forall j :: 0 <= j < |b.following| ==> CleanRecord(b.following[j])
  }

  predicate CleanRecords(rs: seq<Record>)
  {
    forall i :: 0 <= i < |rs| ==> CleanRecord(rs[i])
  }

  /** Everything still to be read is fault-free: the rest of the batch, the
      rest of the current directory and every queued directory. */
  predicate Clean<R>(s: Enumerator<R>)
  {
    && (s.entry.At? ==> CleanRecords(s.entry.following))
    && (!s.lastEntryFound ==> CleanListing(s.stream))
    && forall i :: 0 <= i < |Queue(s)| ==> CleanListing(Queue(s)[i].stream)
  }

  /** Queuing a subdirectory never fails. */
  ghost predicate EnqueueNeverFails(enqueueFails: Frame -> bool)
  {
    forall f :: !enqueueFails(f)
  }

  /** Without OS errors a step of `FindNextEntry` does not throw, and it
      leaves a fault-free record under the cursor. */
  lemma {:induction false} FindNextEntryFaultFree<R>(s: Enumerator<R>, hooks: Hooks<R>)
    requires Valid(s) && !s.lastEntryFound && Clean(s)
    ensures var r := FindNextEntry(s, hooks);
            && r.result.Normal? && Clean(r.state)
            && (!r.state.lastEntryFound ==> CleanRecord(r.state.entry.record))
    decreases |Queue(s)|, 2
  {
    var next := GetNextInfo(s.entry);
    if next.At? {
      var rs := s.entry.following;
      assert CleanRecord(rs[0]);
      assert CleanRecords(rs[1..]) by {
        forall i | 0 <= i < |rs[1..]| ensures CleanRecord(rs[1..][i]) {
          assert rs[1..][i] == rs[i + 1];
        }
      }
    } else {
      ReadNextBatchFaultFree(s.(entry := Null), hooks);
    }
  }

  lemma {:induction false} ReadNextBatchFaultFree<R>(s: Enumerator<R>, hooks: Hooks<R>)
    requires Valid(s) && !s.lastEntryFound && s.entry.Null? && Clean(s)
    ensures var r := ReadNextBatch(s, hooks);
            && r.result.Normal? && Clean(r.state)
            && (!r.state.lastEntryFound ==> CleanRecord(r.state.entry.record))
    decreases |Queue(s)|, 1
  {
    var data := GetData(s.stream);
    if data.Filled? {
      assert CleanBatch(s.stream.batches[0]);
      assert CleanListing(data.remaining) by {
        forall i | 0 <= i < |data.remaining.batches| ensures CleanBatch(data.remaining.batches[i]) {
          assert data.remaining.batches[i] == s.stream.batches[i + 1];
        }
      }
    } else {
      assert data.NoMoreEntries?;
      FinishDirectoryFaultFree(s, hooks);
    }
  }

  lemma {:induction false} FinishDirectoryFaultFree<R>(s: Enumerator<R>, hooks: Hooks<R>)
    requires Valid(s) && !s.lastEntryFound && s.entry.Null? && s.stream.batches == [] && Clean(s)
    ensures var r := FinishDirectory(s, hooks);
            && r.result.Normal? && Clean(r.state)
            && (!r.state.lastEntryFound ==> CleanRecord(r.state.entry.record))
    decreases |Queue(s)|, 0
  {
    var (d, more) := DirectoryFinished(s);
    if more {
      assert CleanListing(d.stream) by {
        assert CleanListing(Queue(s)[0].stream);
      }
      assert forall i :: 0 <= i < |Queue(d)| ==> CleanListing(Queue(d)[i].stream) by {
        forall i | 0 <= i < |Queue(d)| ensures CleanListing(Queue(d)[i].stream) {
          assert Queue(d)[i] == Queue(s)[i + 1];
        }
      }
      FindNextEntryFaultFree(d, hooks);
    }
  }

  /** Without OS errors or enqueue failures a visit does not throw, and
      what it queues is fault-free. */
  lemma VisitFaultFree<R>(s: Enumerator<R>, hooks: Hooks<R>, enqueueFails: Frame -> bool)
    requires Valid(s) && !s.lastEntryFound && s.entry.At? && Clean(s) && CleanRecord(s.entry.record)
    requires EnqueueNeverFails(enqueueFails)
    ensures var v := Visit(s, hooks, enqueueFails);
            v.result.Normal? && Clean(v.state)
  {
    var v := Visit(s, hooks, enqueueFails);
    if RecursesInto(s.options, hooks, ViewOf(s)) {
      var queued := QueueSubdirectory(s, hooks, enqueueFails);
      assert s.entry.record.child.Opens?;
      assert queued.result != Abrupt(OutOfMemory);
      if Queue(v.state) != Queue(s) {
        forall i | 0 <= i < |Queue(v.state)| ensures CleanListing(Queue(v.state)[i].stream) {
          if i < |Queue(s)| {
            assert Queue(v.state)[i] == Queue(s)[i];
          }
        }
      }
    }
  }

  /** Without OS errors or enqueue failures the loop does not throw. */
  lemma {:induction false} LoopFaultFree<R>(s: Enumerator<R>, hooks: Hooks<R>, enqueueFails: Frame -> bool)
    requires Valid(s) && !s.lastEntryFound && Clean(s) && EnqueueNeverFails(enqueueFails)
    ensures var r := MoveNextLoop(s, hooks, enqueueFails);
            r.result.Normal? && Clean(r.state)
    decreases Work(s)
  {
    var found := FindNextEntry(s, hooks);
    FindNextEntryFaultFree(s, hooks);
    if !found.state.lastEntryFound {
      VisitFaultFree(found.state, hooks, enqueueFails);
      var visited := Visit(found.state, hooks, enqueueFails);
      if visited.result == Normal(false) {
        LoopFaultFree(visited.state, hooks, enqueueFails);
        assert MoveNextLoop(s, hooks, enqueueFails) == MoveNextLoop(visited.state, hooks, enqueueFails);
      } else {
        assert MoveNextLoop(s, hooks, enqueueFails) == visited;
      }
    } else {
      assert MoveNextLoop(s, hooks, enqueueFails) == Outcome(found.state, Normal(false));
    }
  }

  /** On a tree without OS errors, and with every enqueue succeeding,
      `MoveNext` never throws, and what is left to read stays fault-free. */
  lemma MoveNextFaultFree<R>(s: Enumerator<R>, hooks: Hooks<R>, enqueueFails: Frame -> bool)
    requires Valid(s) && Clean(s) && EnqueueNeverFails(enqueueFails)
    ensures var r := MoveNext(s, hooks, enqueueFails);
            r.result.Normal? && Clean(r.state)
  {
    if !s.lastEntryFound {
      LoopFaultFree(s, hooks, enqueueFails);
    }
  }

  // ---------------------------------------------------------------------
  // Disposal

  /** Closing every queued handle, front to back, and dropping the queue. */
  function DrainPending<R>(s: Enumerator<R>): (d: Enumerator<R>)
    ensures d == s.(pending := None, ledger := d.ledger)
    ensures d.ledger.closes == s.ledger.closes + Handles(Queue(s))
    ensures d.ledger.issued == s.ledger.issued && d.ledger.next == s.ledger.next && d.ledger.frees == s.ledger.frees
    ensures Owns(s) && s.directoryHandle == NullHandle ==> Sound(d.ledger) && Live(d.ledger) == {}
  {
    if s.pending.None? then
      assert s.ledger.closes + Handles(Queue(s)) == s.ledger.closes;
      s
    else
      var q := s.pending.value;
      var d := s.(ledger := CloseAll(s.ledger, Handles(q)), pending := None);
      assert Owns(s) && s.directoryHandle == NullHandle ==> Sound(d.ledger) && Live(d.ledger) == {} by {
        if Owns(s) && s.directoryHandle == NullHandle {
          CloseAllLive(s.ledger, Handles(q));
        }
      }
      d
  }

  /** `InternalDispose`: set the terminal flag, close the cursor's handle,
      close every queued handle front to back and drop the queue, free the
      buffer if it is still held and forget it. */
  function InternalDispose<R>(s: Enumerator<R>): (d: Enumerator<R>)
    ensures d.lastEntryFound && d.directoryHandle == NullHandle && d.pending.None? && !d.buffer
    ensures d.ledger.closes ==
      s.ledger.closes + (if s.directoryHandle != NullHandle then [s.directoryHandle] else []) + Handles(Queue(s))
    ensures d.ledger.frees == s.ledger.frees + (if s.buffer then 1 else 0)
    ensures d.ledger.issued == s.ledger.issued
    ensures d.current == s.current && d.options == s.options && d.currentPath == s.currentPath
    ensures Valid(s) ==> Valid(d) && Live(d.ledger) == {} && d.ledger.frees == 1
  {
    var terminal := s.(lastEntryFound := true);
    var closed := CloseDirectoryHandle(terminal);
    var drained := DrainPending(closed);
    var freed := if drained.buffer then FreeBuffer(drained.ledger) else drained.ledger;
    var d := drained.(ledger := freed, buffer := false);
    assert closed.ledger.closes == s.ledger.closes + (if s.directoryHandle != NullHandle then [s.directoryHandle] else []);
    assert Queue(closed) == Queue(s) && freed.closes == drained.ledger.closes;
    assert Valid(s) ==> Valid(d) by {
      if Valid(s) {
        assert Owns(terminal);
        assert Owns(closed);
        assert Sound(drained.ledger) && Live(drained.ledger) == {};
        assert Queue(d) == [] && Owned(d) == {};
        assert Sound(d.ledger) && Live(d.ledger) == {};
      }
    }
    d
  }
}
