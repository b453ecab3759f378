/** The traversal the enumerator is meant to perform, written out directly:
    the records still to visit form one sequence; visiting the first
    record appends the records of the subdirectory it leads into (when the
    filters recurse into it and it opens) at the back, which is the
    breadth-first order of a FIFO queue of directories. The enumerator is
    proved to follow this walk in `FileSystemEnumerator.MoveNext`. */
module Traversal {
  import opened Nullable
  import opened EnumOptions
  import opened DirectoryStream
  import opened EntryModel

  /** A record still to be visited, with the path of the directory it is
      listed in. */
  datatype Item = Item(record: Record, directory: string)

  function Items(rs: seq<Record>, directory: string): (xs: seq<Item>)
    ensures |xs| == |rs|
    ensures forall i :: 0 <= i < |rs| ==> xs[i] == Item(rs[i], directory)
  {
    seq(|rs|, i requires 0 <= i < |rs| => Item(rs[i], directory))
  }

  /** The records of a run of batches, in the order the OS returns them. */
  function BatchItems(bs: seq<Batch>, directory: string): seq<Item>
    decreases |bs|
  {
    if bs == [] then [] else Items([bs[0].first] + bs[0].following, directory) + BatchItems(bs[1..], directory)
  }

  /** The records a listing still holds. */
  function ListingItems(l: Listing, directory: string): seq<Item>
  {
    BatchItems(l.batches, directory)
  }

  /** How many records the items can still produce, counting the records of
      every subdirectory below them. */
  function ItemsSize(xs: seq<Item>): nat
  {
    if xs == [] then 0 else RecordSize(xs[0].record) + ItemsSize(xs[1..])
  }

  lemma {:induction false} ItemsSizeAppend(a: seq<Item>, b: seq<Item>)
    ensures ItemsSize(a + b) == ItemsSize(a) + ItemsSize(b)
  {
    if a == [] {
      assert a + b == b;
    } else {
      assert (a + b)[1..] == a[1..] + b;
      ItemsSizeAppend(a[1..], b);
    }
  }

  lemma {:induction false} ItemsSizeOfRecords(rs: seq<Record>, directory: string)
    ensures ItemsSize(Items(rs, directory)) == RecordsSize(rs)
  {
    if rs != [] {
      assert Items(rs, directory)[1..] == Items(rs[1..], directory);
      ItemsSizeOfRecords(rs[1..], directory);
    }
  }

  /** The items of a listing account for exactly its size. */
  lemma {:induction false} ItemsSizeOfListing(l: Listing, directory: string)
    ensures ItemsSize(ListingItems(l, directory)) == ListingSize(l)
  {
    ItemsSizeOfBatches(l.batches, directory);
  }

  lemma {:induction false} ItemsSizeOfBatches(bs: seq<Batch>, directory: string)
    ensures ItemsSize(BatchItems(bs, directory)) == BatchesSize(bs)
    decreases |bs|
  {
    if bs != [] {
      var b := bs[0];
      ItemsSizeOfBatches(bs[1..], directory);
      ItemsSizeAppend(Items([b.first] + b.following, directory), BatchItems(bs[1..], directory));
      ItemsSizeOfRecords([b.first] + b.following, directory);
      assert ([b.first] + b.following)[1..] == b.following;
    }
  }

  /** What stays fixed for a whole enumeration: the options, the hooks and
      the two root paths every entry view carries. */
  datatype Scope<R> = Scope(options: Options, hooks: Hooks<R>, rootDirectory: string, originalRootDirectory: string)

  function ViewAt<R>(c: Scope<R>, x: Item): EntryView
  {
    View(x.record, x.directory, c.rootDirectory, c.originalRootDirectory)
  }

  /** The records visiting `x` adds at the back: those of the subdirectory
      it names, under the joined path, when the filters recurse into it
      and it opens; nothing otherwise. They are strictly fewer than `x`
      accounts for, so the walk ends. */
  function Children<R>(c: Scope<R>, x: Item): (ys: seq<Item>)
    ensures ItemsSize(ys) < RecordSize(x.record)
    ensures ys != [] ==> RecursesInto(c.options, c.hooks, ViewAt(c, x)) && x.record.child.Opens?
  {
    if RecursesInto(c.options, c.hooks, ViewAt(c, x)) && x.record.child.Opens? then
      ItemsSizeOfListing(x.record.child.listing, Join(x.directory, x.record.name));
      ListingItems(x.record.child.listing, Join(x.directory, x.record.name))
    else []
  }

  /** The walk up to its next accepted entry: the first accepted item, and
      what is left to visit after it; `None` when no item left, nor any
      below them, is accepted. */
  function NextAccepted<R>(c: Scope<R>, u: seq<Item>): (r: Option<(Item, seq<Item>)>)
    ensures r.Some? ==> Accepted(c.options, c.hooks, ViewAt(c, r.value.0))
    ensures r.Some? ==> ItemsSize(r.value.1) < ItemsSize(u)
    ensures u == [] ==> r.None?
    decreases ItemsSize(u)
  {
    if u == [] then None
    else
      var rest := u[1..] + Children(c, u[0]);
      ItemsSizeAppend(u[1..], Children(c, u[0]));
      if Accepted(c.options, c.hooks, ViewAt(c, u[0])) then Some((u[0], rest))
      else NextAccepted(c, rest)
  }

  /** Every entry the walk accepts, in the order it reaches them. */
  function AcceptedOrder<R>(c: Scope<R>, u: seq<Item>): (xs: seq<Item>)
    ensures forall i :: 0 <= i < |xs| ==> Accepted(c.options, c.hooks, ViewAt(c, xs[i]))
    ensures |xs| <= ItemsSize(u)
    decreases ItemsSize(u)
  {
    match NextAccepted(c, u)
    case None => []
    case Some((x, rest)) => [x] + AcceptedOrder(c, rest)
  }

  /** One step of the walk: when the next accepted item is `ys`'s only
      element (or there is none and nothing is left), the accepted order is
      `ys` followed by the accepted order of what is left. */
  lemma AcceptedOrderStep<R>(c: Scope<R>, u: seq<Item>, ys: seq<Item>, left: seq<Item>)
    requires |ys| == 1 ==> NextAccepted(c, u) == Some((ys[0], left))
    requires ys == [] ==> NextAccepted(c, u).None? && left == []
    requires |ys| <= 1
    ensures AcceptedOrder(c, u) == ys + AcceptedOrder(c, left)
  {
    if ys == [] {
      assert AcceptedOrder(c, left) == [];
    }
  }
}
