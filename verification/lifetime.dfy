/** Properties of whole enumerator lifetimes: construction, any number of
    `MoveNext` calls (whether they return or throw), and disposal. */
module Lifetime {
  import opened Nullable
  import opened Win32
  import opened EnumOptions
  import opened DirectoryStream
  import opened HandleLedger
  import opened EntryModel
  import opened Traversal
  import opened FileSystemEnumerator

  /** Where `n` calls of `MoveNext` lead: the state they leave, the records
      of the calls that returned true, in order, and whether any call threw. */
  datatype Trace<R> = Trace(state: Enumerator<R>, yielded: seq<Item>, threw: bool)

  /** `n` calls of `MoveNext` from `s`, whatever each returned or threw.
      The invariant survives them all. The resource history only grows:
      nothing opened is forgotten, and no close or free is undone. As long
      as no call throws, the records yielded are the front of the walk's
      accepted order, and what the walk has still to accept follows them.
      The calls return true at most as often as there are records below
      `s`, and once more calls than that have returned normally, the walk
      has ended. From a terminal state nothing changes. Without recursion
      nothing is ever queued, so every entry yielded lies directly in the
      directory the walk started in. */
  function Run<R>(s: Enumerator<R>, hooks: Hooks<R>, enqueueFails: Frame -> bool, n: nat): (r: Trace<R>)
    requires Valid(s)
    ensures Valid(r.state)
    ensures Extends(s.ledger, r.state.ledger)
    ensures ScopeOf(r.state, hooks) == ScopeOf(s, hooks)
    ensures !r.threw ==>
      r.yielded + AcceptedOrder(ScopeOf(s, hooks), Unread(r.state)) == AcceptedOrder(ScopeOf(s, hooks), Unread(s))
    ensures |r.yielded| + Work(r.state) <= Work(s)
    ensures !r.threw && n > Work(s) ==> r.state.lastEntryFound
    ensures s.lastEntryFound ==> r == Trace(s, [], false)
    ensures !s.options.recurseSubdirectories && Queue(s) == [] ==>
      Queue(r.state) == [] && r.state.currentPath == s.currentPath
    ensures Clean(s) && EnqueueNeverFails(enqueueFails) ==> !r.threw && Clean(r.state)
    decreases n
  {
    if n == 0 then Trace(s, [], false)
    else
      var first := MoveNext(s, hooks, enqueueFails);
      var rest := Run(first.state, hooks, enqueueFails, n - 1);
      CallFollowsWalk(s, hooks, enqueueFails);
      CallFaultFree(s, hooks, enqueueFails);
      Compose(s, hooks, first, rest, n);
      Then(first, rest)
  }

  /** One call on a fault-free state, with every enqueue succeeding,
      completes normally and leaves the state fault-free. */
  lemma CallFaultFree<R>(s: Enumerator<R>, hooks: Hooks<R>, enqueueFails: Frame -> bool)
    requires Valid(s)
    ensures Clean(s) && EnqueueNeverFails(enqueueFails) ==>
      MoveNext(s, hooks, enqueueFails).result.Normal? && Clean(MoveNext(s, hooks, enqueueFails).state)
  {
    if Clean(s) && EnqueueNeverFails(enqueueFails) {
      MoveNextFaultFree(s, hooks, enqueueFails);
    }
  }

  /** One call followed by the trace of the calls after it. */
  function Then<R>(first: Outcome<R, bool>, rest: Trace<R>): Trace<R>
  {
    Trace(rest.state, Yield(first) + rest.yielded, first.result.Abrupt? || rest.threw)
  }

  /** What one call promises, chained with what the calls after it
      promise, is what the whole run promises. */
  lemma Compose<R>(s: Enumerator<R>, hooks: Hooks<R>, first: Outcome<R, bool>, rest: Trace<R>, n: nat)
    requires n > 0
    requires Extends(s.ledger, first.state.ledger) && Extends(first.state.ledger, rest.state.ledger)
    requires ScopeOf(first.state, hooks) == ScopeOf(s, hooks) && ScopeOf(rest.state, hooks) == ScopeOf(first.state, hooks)
    requires first.result.Normal? ==>
      AcceptedOrder(ScopeOf(s, hooks), Unread(s)) == Yield(first) + AcceptedOrder(ScopeOf(s, hooks), Unread(first.state))
    requires !rest.threw ==>
      rest.yielded + AcceptedOrder(ScopeOf(first.state, hooks), Unread(rest.state))
      == AcceptedOrder(ScopeOf(first.state, hooks), Unread(first.state))
    requires first.result == Normal(true) ==> Work(first.state) < Work(s)
    requires Work(first.state) <= Work(s) && |rest.yielded| + Work(rest.state) <= Work(first.state)
    requires first.result == Normal(false) ==> first.state.lastEntryFound
    requires first.state.lastEntryFound ==> rest == Trace(first.state, [], false)
    requires !rest.threw && n - 1 > Work(first.state) ==> rest.state.lastEntryFound
    requires s.lastEntryFound ==> first == Outcome(s, Normal(false))
    requires first.state.options == s.options
    requires !s.options.recurseSubdirectories && Queue(s) == [] ==>
      Queue(first.state) == [] && first.state.currentPath == s.currentPath
    requires !first.state.options.recurseSubdirectories && Queue(first.state) == [] ==>
      Queue(rest.state) == [] && rest.state.currentPath == first.state.currentPath
    ensures var r := Then(first, rest);
            && Extends(s.ledger, r.state.ledger)
            && ScopeOf(r.state, hooks) == ScopeOf(s, hooks)
            && (!r.threw ==>
                  r.yielded + AcceptedOrder(ScopeOf(s, hooks), Unread(r.state)) == AcceptedOrder(ScopeOf(s, hooks), Unread(s)))
            && |r.yielded| + Work(r.state) <= Work(s)
            && (!r.threw && n > Work(s) ==> r.state.lastEntryFound)
            && (s.lastEntryFound ==> r == Trace(s, [], false))
            && (!s.options.recurseSubdirectories && Queue(s) == [] ==>
                  Queue(r.state) == [] && r.state.currentPath == s.currentPath)
  {
    ExtendsIsTransitive(s.ledger, first.state.ledger, rest.state.ledger);
    if first.result.Normal? && !rest.threw {
      Regroup(Yield(first), rest.yielded, AcceptedOrder(ScopeOf(s, hooks), Unread(s)),
              AcceptedOrder(ScopeOf(s, hooks), Unread(first.state)), AcceptedOrder(ScopeOf(s, hooks), Unread(rest.state)));
    }
    if s.lastEntryFound {
      assert Yield(first) == [];
    }
    if first.result.Normal? && !rest.threw && n > Work(s) {
      if first.result.value {
        assert first.result == Normal(true);
        assert n - 1 > Work(first.state);
      } else {
        assert first.result == Normal(false);
        assert rest.state == first.state;
      }
      assert rest.state.lastEntryFound;
    }
  }

  /** The record a call that returned true yields; nothing otherwise. */
  function Yield<R>(first: Outcome<R, bool>): (ys: seq<Item>)
    ensures |ys| <= 1 && (ys != [] <==> first.result == Normal(true) && first.state.entry.At?)
  {
    if first.result == Normal(true) && first.state.entry.At? then [Item(first.state.entry.record, first.state.currentPath)]
    else []
  }

  /** Regrouping the accepted order: what the first call yields, then what
      the later calls yield, then what is still to come. */
  lemma Regroup(ys: seq<Item>, later: seq<Item>, whole: seq<Item>, afterFirst: seq<Item>, tail: seq<Item>)
    requires whole == ys + afterFirst && later + tail == afterFirst
    ensures (ys + later) + tail == whole
  {
  }

  /** A call that completes normally takes its yield from the front of
      the walk's accepted order. */
  lemma CallTakesNextAccepted<R>(c: Scope<R>, u: seq<Item>, first: Outcome<R, bool>, left: seq<Item>)
    requires first.result.Normal?
    requires first.result == Normal(true) ==>
      first.state.entry.At? && NextAccepted(c, u) == Some((Item(first.state.entry.record, first.state.currentPath), left))
    requires first.result == Normal(false) ==> NextAccepted(c, u).None? && left == []
    ensures AcceptedOrder(c, u) == Yield(first) + AcceptedOrder(c, left)
  {
    if first.result == Normal(true) {
      AcceptedOrderStep(c, u, [Item(first.state.entry.record, first.state.currentPath)], left);
    } else {
      assert !first.result.value && first.result == Normal(false);
      AcceptedOrderStep(c, u, [], left);
    }
  }

  /** One call: a normal completion takes its yield from the front of the
      walk's accepted order, and the scope stays as it was. */
  lemma CallFollowsWalk<R>(s: Enumerator<R>, hooks: Hooks<R>, enqueueFails: Frame -> bool)
    requires Valid(s)
    ensures var first := MoveNext(s, hooks, enqueueFails);
            && ScopeOf(first.state, hooks) == ScopeOf(s, hooks)
            && (first.result.Normal? ==>
                  AcceptedOrder(ScopeOf(s, hooks), Unread(s))
                  == Yield(first) + AcceptedOrder(ScopeOf(s, hooks), Unread(first.state)))
  {
    var first := MoveNext(s, hooks, enqueueFails);
    if first.result.Normal? {
      CallTakesNextAccepted(ScopeOf(s, hooks), Unread(s), first, Unread(first.state));
    }
  }

  /** A finished walk, run from a fresh enumerator without an exception,
      has returned every accepted record of the root directory's tree
      exactly once, in breadth-first order: the reference walk's order over
      the root's listing. */
  lemma EnumerationYieldsAcceptedOrder<R>(
    directory: string, options: Option<Options>, getFullPath: string -> string,
    root: Opening, hooks: Hooks<R>, enqueueFails: Frame -> bool, n: nat)
    requires Construct(Some(directory), options, getFullPath, root, hooks, false).result.Normal?
    requires root.Opens?
    ensures var s := Construct(Some(directory), options, getFullPath, root, hooks, false).result.value;
            var t := Run(s, hooks, enqueueFails, n);
            !t.threw && t.state.lastEntryFound ==>
              t.yielded == AcceptedOrder(ScopeOf(s, hooks), ListingItems(root.listing, getFullPath(directory)))
    ensures var s := Construct(Some(directory), options, getFullPath, root, hooks, false).result.value;
            var t := Run(s, hooks, enqueueFails, n);
            !t.threw && n > ListingSize(root.listing) ==> t.state.lastEntryFound
  {
    var s := Construct(Some(directory), options, getFullPath, root, hooks, false).result.value;
    var t := Run(s, hooks, enqueueFails, n);
    assert Unread(s) == ListingItems(root.listing, getFullPath(directory)) by {
      assert CursorItems(s.entry, s.currentPath) == [] && QueueItems(Queue(s)) == [];
    }
    assert Work(s) == ListingSize(root.listing);
    if t.state.lastEntryFound {
      assert Unread(t.state) == [];
      assert AcceptedOrder(ScopeOf(s, hooks), []) == [];
      assert t.yielded + [] == t.yielded;
    }
  }

  /** On a tree without OS errors, with every enqueue succeeding, a fresh
      enumerator never throws: after more calls than the tree has records
      the walk has ended, and the calls that returned true have yielded
      every accepted record of the tree exactly once, in breadth-first
      order. */
  lemma FaultFreeEnumerationYieldsAcceptedOrder<R>(
    directory: string, options: Option<Options>, getFullPath: string -> string,
    root: Opening, hooks: Hooks<R>, enqueueFails: Frame -> bool, n: nat)
    requires root.Opens? && CleanListing(root.listing)
    requires EnqueueNeverFails(enqueueFails)
    requires n > ListingSize(root.listing)
    ensures Construct(Some(directory), options, getFullPath, root, hooks, false).result.Normal?
    ensures var s := Construct(Some(directory), options, getFullPath, root, hooks, false).result.value;
            var t := Run(s, hooks, enqueueFails, n);
            && !t.threw
            && t.state.lastEntryFound
            && t.yielded == AcceptedOrder(ScopeOf(s, hooks), ListingItems(root.listing, getFullPath(directory)))
  {
    var s := Construct(Some(directory), options, getFullPath, root, hooks, false).result.value;
    assert Clean(s) by {
      assert Queue(s) == [];
    }
    EnumerationYieldsAcceptedOrder(directory, options, getFullPath, root, hooks, enqueueFails, n);
  }

  /** Disposing twice is disposing once: no second close, no second free. */
  lemma DisposeIsIdempotent<R>(s: Enumerator<R>)
    ensures InternalDispose(InternalDispose(s)) == InternalDispose(s)
  {
  }

  /** After disposal `MoveNext` returns false and touches nothing. */
  lemma MoveNextAfterDispose<R>(s: Enumerator<R>, hooks: Hooks<R>, enqueueFails: Frame -> bool)
    requires Valid(s)
    ensures MoveNext(InternalDispose(s), hooks, enqueueFails) == Outcome(InternalDispose(s), Normal(false))
  {
  }

  /** A later directory never overtakes an earlier one: queuing at the back
      leaves the next dequeue as it was, and the new frame comes out after the rest. */
  lemma EnqueueIsFifo<R>(s: Enumerator<R>, f: Frame)
    requires |Queue(s)| > 0
    ensures var t := s.(pending := Some(Queue(s) + [f]));
            DequeueNextDirectory(t).0.directoryHandle == DequeueNextDirectory(s).0.directoryHandle
            && DequeueNextDirectory(t).0.currentPath == DequeueNextDirectory(s).0.currentPath
            && Queue(DequeueNextDirectory(t).0) == Queue(DequeueNextDirectory(s).0) + [f]
  {
    assert (Queue(s) + [f])[1..] == Queue(s)[1..] + [f];
  }

  /** Disposing a valid enumerator closes every handle ever opened for it,
      each exactly once, and leaves the buffer freed exactly once. */
  lemma DisposeReleasesEverything<R>(s: Enumerator<R>)
    requires Valid(s)
    ensures var d := InternalDispose(s);
            && NoDuplicates(d.ledger.closes)
            && Closed(d.ledger) == d.ledger.issued
            && d.ledger.frees == 1
  {
    var d := InternalDispose(s);
    assert Sound(d.ledger) && Live(d.ledger) == {};
    forall h | h in d.ledger.issued ensures h in Closed(d.ledger) {
      assert h !in Live(d.ledger);
    }
  }

  /** A successful constructor, any number of `MoveNext` calls and
      `InternalDispose`: every handle ever opened has been closed exactly
      once and the buffer freed exactly once. */
  lemma {:induction false} EveryHandleClosedExactlyOnce<R>(
    directory: string, options: Option<Options>, getFullPath: string -> string,
    root: Opening, hooks: Hooks<R>, enqueueFails: Frame -> bool, n: nat)
    requires Construct(Some(directory), options, getFullPath, root, hooks, false).result.Normal?
    ensures var s := Construct(Some(directory), options, getFullPath, root, hooks, false).result.value;
            var d := InternalDispose(Run(s, hooks, enqueueFails, n).state);
            && NoDuplicates(d.ledger.closes)
            && Closed(d.ledger) == d.ledger.issued
            && d.ledger.frees == 1
  {
    var s := Construct(Some(directory), options, getFullPath, root, hooks, false).result.value;
    var t := Run(s, hooks, enqueueFails, n).state;
    assert Valid(t);
    DisposeReleasesEverything(t);
  }

  /** A failing constructor leaves nothing open: every handle it opened is
      closed exactly once before the exception propagates. */
  lemma ConstructorNeverLeaks<R>(directory: Option<string>, options: Option<Options>, getFullPath: string -> string,
                                 root: Opening, hooks: Hooks<R>, allocFails: bool)
    requires Construct(directory, options, getFullPath, root, hooks, allocFails).result.Abrupt?
    ensures var l := Construct(directory, options, getFullPath, root, hooks, allocFails).ledger;
            NoDuplicates(l.closes) && Closed(l) == l.issued && l.frees == 0
  {
  }
}
