/** What the OS hands the enumerator: directory records read in batches
    through a handle. The OS is a finite tree fixed by the input: each record
    carries what opening that name, relative to its directory, would yield at
    the moment the enumerator tries. */
module DirectoryStream {
  import opened Win32

  /** Record names are never empty. */
  type FileName = s: string | |s| > 0 witness "."

  /** One FILE_FULL_DIR_INFORMATION record, reduced to what the enumerator reads. */
  datatype Record = Record(name: FileName, attributes: Attributes, child: Opening)

  /** The result of opening a directory for listing. */
  datatype Opening = Opens(listing: Listing) | Fails(error: int)

  /** One successful batch read: at least one record. */
  datatype Batch = Batch(first: Record, following: seq<Record>)

  /** How the OS status ends once every batch has been read. */
  datatype ReadEnd = NoMoreFiles | ReadFailed(error: int)

  /** What is still to be read through one open handle. */
  datatype Listing = Listing(batches: seq<Batch>, end: ReadEnd)

  /** The outcome of one batch read (`GetData`). */
  datatype ReadResult = Filled(batch: Batch, remaining: Listing) | NoMoreEntries | ReadError(error: int)

  const Exhausted: Listing := Listing([], NoMoreFiles)

  /** The batch read: the next batch while there is one, then the end status,
      which repeats on every further read. */
  function GetData(l: Listing): (r: ReadResult)
    ensures r.Filled? <==> |l.batches| > 0
    ensures r.Filled? ==> [r.batch] + r.remaining.batches == l.batches && r.remaining.end == l.end
    ensures r.NoMoreEntries? <==> l.batches == [] && l.end == NoMoreFiles
    ensures r.ReadError? <==> l.batches == [] && l.end.ReadFailed?
    ensures r.ReadError? ==> r.error == l.end.error
  {
    if |l.batches| > 0 then Filled(l.batches[0], l.(batches := l.batches[1..]))
    else match l.end
      case NoMoreFiles => NoMoreEntries
      case ReadFailed(e) => ReadError(e)
  }

  /** Sizes: how many records can still be produced, counting the records
      of every subdirectory that opening a record would reveal. They bound
      the work left to an enumeration. */
  function RecordSize(r: Record): nat
    decreases r, 0
  {
    1 + OpeningSize(r.child)
  }

  function OpeningSize(o: Opening): nat
    decreases o, 0
  {
    match o
    case Opens(l) => ListingSize(l)
    case Fails(_) => 0
  }

  function ListingSize(l: Listing): nat
    decreases l, 0
  {
    BatchesSize(l.batches)
  }

  function BatchesSize(bs: seq<Batch>): nat
    decreases bs
  {
    if bs == [] then 0 else BatchSize(bs[0]) + BatchesSize(bs[1..])
  }

  function BatchSize(b: Batch): nat
    decreases b, 0
  {
    RecordSize(b.first) + RecordsSize(b.following)
  }

  function RecordsSize(rs: seq<Record>): nat
    decreases rs
  {
    if rs == [] then 0 else RecordSize(rs[0]) + RecordsSize(rs[1..])
  }

  /** Reading a batch moves its records out of the listing without losing any. */
  lemma GetDataPreservesSize(l: Listing)
    requires |l.batches| > 0
    ensures GetData(l).Filled?
    ensures ListingSize(l) == RecordSize(GetData(l).batch.first)
                              + RecordsSize(GetData(l).batch.following)
                              + ListingSize(GetData(l).remaining)
  {
    assert BatchesSize(l.batches) == BatchSize(l.batches[0]) + BatchesSize(l.batches[1..]);
  }
}
