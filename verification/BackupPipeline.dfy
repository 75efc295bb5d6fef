/** The concurrent archive writer: a lister, a dispatcher, a pool of fetchers that share an unbuffered
    channel, and one writer. Each step of the machine is one step of one goroutine, or one meeting
    of two on a channel. No listing, fetch or write fails in these runs. */
module BackupPipeline {
  import opened Model

  type Content = seq<bv8>

  const READ_WORKERS := 16
  const MAX_BUFFERED := 0x200_0000

  /** The key under which a finished restore is marked; it is not part of a backup. */
  const RESTORE_MARKER := ".im-filestore-restored"

  datatype Object = Object(path: string, size: nat)

  /** The bucket as it is read: what is stored under each listed key. */
  type Bucket = map<string, Content>

  /** An entry of the archive: the object it was made from and the content written. */
  datatype Entry = Entry(source: Object, data: Content)

  datatype Fetched = Fetched(source: Object, data: Option<Content>)

  /** The goroutine that takes objects off the listing. */
  datatype Dispatcher =
    | Ranging                  // waiting for the next object
    | Offering(source: Object) // offering a large object to the writer, without its content
    | Spawning(source: Object) // waiting for a free fetcher
    | Waiting                  // the listing is done, waiting for the fetchers
    | Closed                   // the results channel is closed

  datatype Fetcher =
    | Fetching(source: Object)
    | Sending(source: Object, data: Content)
    | Returning

  datatype Writer = Idle | Writing(item: Fetched) | Done

  datatype State = State(
    pending: seq<Object>,
    dispatcher: Dispatcher,
    fetchers: seq<Fetcher>,
    writer: Writer,
    archive: seq<Entry>)

  datatype Step =
    | Skip | Receive | Offer | Spawn | Fetch(i: nat) | Send(i: nat) | Return(i: nat) | Write | EndListing | Close | Finish

  function Init(listing: seq<Object>): State {
    State(listing, Ranging, [], Idle, [])
  }

  predicate Enabled(s: State, step: Step) {
    match step
    case Skip => s.pending != [] && s.pending[0].path == RESTORE_MARKER
    case Receive => s.dispatcher.Ranging? && s.pending != [] && s.pending[0].path != RESTORE_MARKER
    case Offer => s.dispatcher.Offering? && s.writer.Idle?
    case Spawn => s.dispatcher.Spawning? && |s.fetchers| < READ_WORKERS
    case Fetch(i) => i < |s.fetchers| && s.fetchers[i].Fetching?
    case Send(i) => i < |s.fetchers| && s.fetchers[i].Sending? && s.writer.Idle?
    case Return(i) => i < |s.fetchers| && s.fetchers[i].Returning?
    case Write => s.writer.Writing?
    case EndListing => s.dispatcher.Ranging? && s.pending == []
    case Close => s.dispatcher.Waiting? && s.fetchers == []
    case Finish => s.writer.Idle? && s.dispatcher.Closed?
  }

  /** The content of an object, as a read of it returns. */
  function Read(bucket: Bucket, path: string): Content {
    if path in bucket then bucket[path] else []
  }

  function Apply(s: State, step: Step, bucket: Bucket): State
    requires Enabled(s, step)
  {
    match step
    case Skip => s.(pending := s.pending[1..])
    case Receive =>
      var o := s.pending[0];
      s.(pending := s.pending[1..], dispatcher := if o.size > MAX_BUFFERED then Offering(o) else Spawning(o))
    case Offer => s.(dispatcher := Ranging, writer := Writing(Fetched(s.dispatcher.source, None)))
    case Spawn => s.(dispatcher := Ranging, fetchers := s.fetchers + [Fetching(s.dispatcher.source)])
    case Fetch(i) =>
      var o := s.fetchers[i].source;
      s.(fetchers := s.fetchers[i := Sending(o, Read(bucket, o.path))])
    case Send(i) =>
      s.(fetchers := s.fetchers[i := Returning], writer := Writing(Fetched(s.fetchers[i].source, Some(s.fetchers[i].data))))
    case Return(i) => s.(fetchers := s.fetchers[..i] + s.fetchers[i + 1..])
    case Write =>
      var f := s.writer.item;
      var data := if f.data.Some? then f.data.value else Read(bucket, f.source.path);
      s.(writer := Idle, archive := s.archive + [Entry(f.source, data)])
    case EndListing => s.(dispatcher := Waiting)
    case Close => s.(dispatcher := Closed)
    case Finish => s.(writer := Done)
  }

  /** The state after a run of steps. */
  ghost predicate IsRun(bucket: Bucket, run: seq<State>) {
    && run != []
    && forall i :: 0 <= i < |run| - 1 ==> Next(bucket, run[i], run[i + 1])
  }

  ghost predicate Next(bucket: Bucket, s: State, s': State) {
    exists step :: Enabled(s, step) && s' == Apply(s, step, bucket)
  }

  ghost predicate Reachable(bucket: Bucket, listing: seq<Object>, s: State) {
    exists run :: IsRun(bucket, run) && run[0] == Init(listing) && run[|run| - 1] == s
  }

  // Where the objects are.

  /** The objects of a listing that belong in the backup. */
  function Listed(listing: seq<Object>): seq<Object> {
    if listing == [] then []
    else (if listing[0].path == RESTORE_MARKER then [] else [listing[0]]) + Listed(listing[1..])
  }

  function One(here: bool): nat {
    if here then 1 else 0
  }

  /** How often an object occurs among those still listed for the backup. */
  function InPending(pending: seq<Object>, o: Object): nat {
    if pending == [] then 0
    else One(pending[0] == o && o.path != RESTORE_MARKER) + InPending(pending[1..], o)
  }

  function AtDispatcher(d: Dispatcher, o: Object): nat {
    One((d.Offering? || d.Spawning?) && d.source == o)
  }

  function Holds(f: Fetcher, o: Object): nat {
    One(!f.Returning? && f.source == o)
  }

  /** What the fetchers weigh together. */
  function Sum(fetchers: seq<Fetcher>, weight: Fetcher -> nat): nat {
    if fetchers == [] then 0 else weight(fetchers[0]) + Sum(fetchers[1..], weight)
  }

  function HoldsIt(o: Object): Fetcher -> nat {
    f => Holds(f, o)
  }

  function AtFetchers(fetchers: seq<Fetcher>, o: Object): nat {
    Sum(fetchers, HoldsIt(o))
  }

  function AtWriter(w: Writer, o: Object): nat {
    One(w.Writing? && w.item.source == o)
  }

  function InArchive(archive: seq<Entry>, o: Object): nat {
    if archive == [] then 0 else One(archive[0].source == o) + InArchive(archive[1..], o)
  }

  /** How often an object occurs in the whole pipeline: waiting, held by the dispatcher, by a fetcher
      or by the writer, or written. */
  function Everywhere(s: State, o: Object): nat {
    InPending(s.pending, o) + AtDispatcher(s.dispatcher, o) + AtFetchers(s.fetchers, o) + AtWriter(s.writer, o) + InArchive(s.archive, o)
  }

  lemma {:induction false} SumConcat(a: seq<Fetcher>, b: seq<Fetcher>, weight: Fetcher -> nat)
    ensures Sum(a + b, weight) == Sum(a, weight) + Sum(b, weight)
  {
    if a == [] {
      assert a + b == b;
    } else {
      assert (a + b)[1..] == a[1..] + b;
      SumConcat(a[1..], b, weight);
    }
  }

  lemma SumAppend(fetchers: seq<Fetcher>, f: Fetcher, weight: Fetcher -> nat)
    ensures Sum(fetchers + [f], weight) == Sum(fetchers, weight) + weight(f)
  {
    SumConcat(fetchers, [f], weight);
    assert Sum([f], weight) == weight(f) + Sum([], weight);
  }

  lemma SumWithout(fetchers: seq<Fetcher>, i: nat, weight: Fetcher -> nat)
    requires i < |fetchers|
    ensures Sum(fetchers, weight) == Sum(fetchers[..i], weight) + weight(fetchers[i]) + Sum(fetchers[i + 1..], weight)
    ensures Sum(fetchers[..i] + fetchers[i + 1..], weight) == Sum(fetchers, weight) - weight(fetchers[i])
  {
    SumConcat(fetchers[..i], fetchers[i..], weight);
    SumConcat(fetchers[..i], fetchers[i + 1..], weight);
    assert fetchers[..i] + fetchers[i..] == fetchers && fetchers[i..][1..] == fetchers[i + 1..];
  }

  lemma SumReplaced(fetchers: seq<Fetcher>, i: nat, f: Fetcher, weight: Fetcher -> nat)
    requires i < |fetchers|
    ensures Sum(fetchers[i := f], weight) == Sum(fetchers, weight) - weight(fetchers[i]) + weight(f)
  {
    SumWithout(fetchers, i, weight);
    SumWithout(fetchers[i := f], i, weight);
    assert fetchers[i := f][..i] == fetchers[..i] && fetchers[i := f][i + 1..] == fetchers[i + 1..];
  }

  lemma {:induction false} InArchiveAppend(archive: seq<Entry>, e: Entry, o: Object)
    ensures InArchive(archive + [e], o) == InArchive(archive, o) + One(e.source == o)
  {
    if archive == [] {
      assert archive + [e] == [e];
    } else {
      assert (archive + [e])[1..] == archive[1..] + [e];
      InArchiveAppend(archive[1..], e, o);
    }
  }

  /** What a step does to the fetchers' weight. */
  lemma StepMovesWeight(s: State, step: Step, bucket: Bucket, weight: Fetcher -> nat)
    requires Enabled(s, step)
    ensures var before, after := Sum(s.fetchers, weight), Sum(Apply(s, step, bucket).fetchers, weight);
            match step
            case Spawn => after == before + weight(Fetching(s.dispatcher.source))
            case Fetch(i) =>
              after == before - weight(s.fetchers[i]) + weight(Sending(s.fetchers[i].source, Read(bucket, s.fetchers[i].source.path)))
            case Send(i) => after == before - weight(s.fetchers[i]) + weight(Returning)
            case Return(i) => after == before - weight(Returning)
            case _ => after == before
  {
    match step {
      case Spawn => SumAppend(s.fetchers, Fetching(s.dispatcher.source), weight);
      case Fetch(i) => SumReplaced(s.fetchers, i, Apply(s, step, bucket).fetchers[i], weight);
      case Send(i) => SumReplaced(s.fetchers, i, Returning, weight);
      case Return(i) => SumWithout(s.fetchers, i, weight);
      case _ =>
    }
  }

  /** No step loses or repeats an object. */
  lemma StepConserves(s: State, step: Step, bucket: Bucket, o: Object)
    requires Enabled(s, step)
    ensures Everywhere(Apply(s, step, bucket), o) == Everywhere(s, o)
  {
    StepMovesWeight(s, step, bucket, HoldsIt(o));
    if step.Write? {
      InArchiveAppend(s.archive, Apply(s, step, bucket).archive[|s.archive|], o);
    }
  }

  // What every reachable state satisfies.

  /** Whatever has been read is what the bucket holds, and small enough to be buffered. */
  ghost predicate Faithful(s: State, bucket: Bucket) {
    && (s.dispatcher.Offering? ==> s.dispatcher.source.size > MAX_BUFFERED)
    && (s.dispatcher.Spawning? ==> s.dispatcher.source.size <= MAX_BUFFERED)
    && (forall f :: f in s.fetchers && !f.Returning? ==> f.source.size <= MAX_BUFFERED)
    && (forall f :: f in s.fetchers && f.Sending? ==> f.data == Read(bucket, f.source.path))
    && (s.writer.Writing? && s.writer.item.data.Some? ==>
          s.writer.item.data.value == Read(bucket, s.writer.item.source.path) && s.writer.item.source.size <= MAX_BUFFERED)
    && (s.writer.Writing? && s.writer.item.data.None? ==> s.writer.item.source.size > MAX_BUFFERED)
    && (forall e :: e in s.archive ==> e.data == Read(bucket, e.source.path))
  }

  /** At most sixteen fetchers exist; the listing is done once the dispatcher waits for them; the
      channel is closed only after every fetcher has returned; the writer stops only after that. */
  ghost predicate Ordered(s: State) {
    && |s.fetchers| <= READ_WORKERS
    && (s.dispatcher.Waiting? || s.dispatcher.Closed? ==> s.pending == [])
    && (s.dispatcher.Closed? ==> s.fetchers == [])
    && (s.writer.Done? ==> s.dispatcher.Closed?)
  }

  ghost predicate Invariant(bucket: Bucket, listing: seq<Object>, s: State) {
    (forall o :: Everywhere(s, o) == InPending(listing, o)) && Faithful(s, bucket) && Ordered(s)
  }

  lemma StepKeepsFaithful(bucket: Bucket, s: State, step: Step)
    requires Faithful(s, bucket) && Enabled(s, step)
    ensures Faithful(Apply(s, step, bucket), bucket)
  {}

  lemma StepKeepsOrdered(bucket: Bucket, s: State, step: Step)
    requires Ordered(s) && Enabled(s, step)
    ensures Ordered(Apply(s, step, bucket))
  {}

  lemma RunInit(bucket: Bucket, run: seq<State>)
    requires IsRun(bucket, run) && |run| > 1
    ensures IsRun(bucket, run[..|run| - 1])
    ensures Next(bucket, run[|run| - 2], run[|run| - 1])
  {
    var init := run[..|run| - 1];
    forall i | 0 <= i < |init| - 1
      ensures Next(bucket, init[i], init[i + 1])
    {
      assert Next(bucket, run[i], run[i + 1]);
    }
    assert Next(bucket, run[|run| - 2], run[|run| - 2 + 1]);
  }

  lemma StepKeepsInvariant(bucket: Bucket, listing: seq<Object>, s: State, step: Step)
    requires Invariant(bucket, listing, s) && Enabled(s, step)
    ensures Invariant(bucket, listing, Apply(s, step, bucket))
  {
    hide Everywhere, Faithful, Ordered, InPending, Enabled, Apply;
    forall o
      ensures Everywhere(Apply(s, step, bucket), o) == InPending(listing, o)
    {
      StepConserves(s, step, bucket, o);
    }
    StepKeepsFaithful(bucket, s, step);
    StepKeepsOrdered(bucket, s, step);
  }

  lemma InitInvariant(bucket: Bucket, listing: seq<Object>)
    ensures Invariant(bucket, listing, Init(listing))
  {}

  lemma {:induction false} ReachableInvariant(bucket: Bucket, listing: seq<Object>, run: seq<State>)
    requires IsRun(bucket, run) && run[0] == Init(listing)
    ensures forall i :: 0 <= i < |run| ==> Invariant(bucket, listing, run[i])
    decreases |run|
  {
    hide Invariant, Enabled, Apply, Init;
    if |run| == 1 {
      InitInvariant(bucket, listing);
    } else {
      RunInit(bucket, run);
      ReachableInvariant(bucket, listing, run[..|run| - 1]);
      var s := run[|run| - 2];
      var step :| Enabled(s, step) && run[|run| - 1] == Apply(s, step, bucket);
      StepKeepsInvariant(bucket, listing, s, step);
    }
  }

  lemma InvariantHolds(bucket: Bucket, listing: seq<Object>, s: State)
    requires Reachable(bucket, listing, s)
    ensures Invariant(bucket, listing, s)
  {
    var run :| IsRun(bucket, run) && run[0] == Init(listing) && run[|run| - 1] == s;
    ReachableInvariant(bucket, listing, run);
  }

  predicate Finished(s: State) {
    s.dispatcher.Closed? && s.writer.Done?
  }

  function Sources(archive: seq<Entry>): (r: seq<Object>)
    ensures |r| == |archive| && forall i :: 0 <= i < |r| ==> r[i] == archive[i].source
  {
    seq(|archive|, i requires 0 <= i < |archive| => archive[i].source)
  }

  lemma {:induction false} ListedOnes(listing: seq<Object>, o: Object)
    ensures o in Listed(listing) <==> o in listing && o.path != ".im-filestore-restored"
  {
    if listing != [] {
      ListedOnes(listing[1..], o);
    }
  }

  lemma {:induction false} PendingCounts(listing: seq<Object>, o: Object)
    ensures InPending(listing, o) == multiset(Listed(listing))[o]
  {
    if listing != [] {
      PendingCounts(listing[1..], o);
    }
  }

  lemma {:induction false} ArchiveCounts(archive: seq<Entry>, o: Object)
    ensures InArchive(archive, o) == multiset(Sources(archive))[o]
  {
    if archive != [] {
      ArchiveCounts(archive[1..], o);
      assert Sources(archive) == [archive[0].source] + Sources(archive[1..]);
    }
  }

  /** A finished run has exactly one entry for each listed object, with the object's content. */
  lemma FinishedArchiveIsComplete(bucket: Bucket, listing: seq<Object>, s: State)
    requires Reachable(bucket, listing, s) && Finished(s)
    ensures multiset(Sources(s.archive)) == multiset(Listed(listing))
    ensures forall e :: e in s.archive ==> e.source in listing && e.source.path != ".im-filestore-restored"
    ensures forall e :: e in s.archive ==> e.data == Read(bucket, e.source.path)
  {
    InvariantHolds(bucket, listing, s);
    forall o
      ensures multiset(Sources(s.archive))[o] == multiset(Listed(listing))[o]
    {
      assert Everywhere(s, o) == InArchive(s.archive, o);
      PendingCounts(listing, o);
      ArchiveCounts(s.archive, o);
    }
    forall e | e in s.archive
      ensures e.source in listing && e.source.path != ".im-filestore-restored"
    {
      var i :| 0 <= i < |s.archive| && s.archive[i] == e;
      assert Sources(s.archive)[i] == e.source;
      assert e.source in multiset(Sources(s.archive)) && e.source in multiset(Listed(listing));
      ListedOnes(listing, e.source);
    }
  }

  /** Contents are held of objects of up to 32 MiB only, as the bucket has them; larger ones come to the
      writer without. */
  lemma OnlySmallAreHeld(bucket: Bucket, listing: seq<Object>, s: State)
    requires Reachable(bucket, listing, s)
    ensures forall f :: f in s.fetchers && !f.Returning? ==> f.source.size <= 33_554_432
    ensures forall f :: f in s.fetchers && f.Sending? ==> f.data == if f.source.path in bucket then bucket[f.source.path] else []
    ensures s.writer.Writing? ==> (s.writer.item.data.Some? <==> s.writer.item.source.size <= 33_554_432)
  {
    InvariantHolds(bucket, listing, s);
  }

  /** The results channel is closed only after the listing is done and every fetcher has returned, so
      nothing is ever sent on a closed channel. */
  lemma ClosedOnlyAfterReturns(bucket: Bucket, listing: seq<Object>, s: State)
    requires Reachable(bucket, listing, s) && s.dispatcher.Closed?
    ensures s.fetchers == [] && s.pending == []
    ensures !Enabled(s, Offer) && forall i: nat :: !Enabled(s, Send(i))
  {
    InvariantHolds(bucket, listing, s);
  }

  /** The pipeline never deadlocks: until it is finished some step can be taken. */
  lemma NeverStuck(bucket: Bucket, listing: seq<Object>, s: State) returns (step: Step)
    requires Reachable(bucket, listing, s) && !Finished(s)
    ensures Enabled(s, step)
  {
    InvariantHolds(bucket, listing, s);
    if s.writer.Writing? {
      return Write;
    }
    match s.dispatcher {
      case Ranging => return if s.pending == [] then EndListing else if s.pending[0].path == RESTORE_MARKER then Skip else Receive;
      case Offering(_) => return Offer;
      case Closed => return Finish;
      case Spawning(_) => if |s.fetchers| < READ_WORKERS { return Spawn; }
      case Waiting => if s.fetchers == [] { return Close; }
    }
    return match s.fetchers[0] case Fetching(_) => Fetch(0) case Sending(_, _) => Send(0) case Returning => Return(0);
  }

  // Termination.

  function FetcherWork(f: Fetcher): nat {
    match f case Fetching(_) => 5 case Sending(_, _) => 4 case Returning => 1
  }

  function DispatcherWork(d: Dispatcher): nat {
    match d case Ranging => 2 case Offering(_) => 8 case Spawning(_) => 8 case Waiting => 1 case Closed => 0
  }

  function WriterWork(w: Writer): nat {
    match w case Idle => 1 case Writing(_) => 3 case Done => 0
  }

  /** An upper bound on the number of steps still to come. */
  function Work(s: State): nat {
    7 * |s.pending| + DispatcherWork(s.dispatcher) + Sum(s.fetchers, FetcherWork) + WriterWork(s.writer)
  }

  /** Every step leaves less to do. */
  lemma StepReducesWork(s: State, step: Step, bucket: Bucket)
    requires Enabled(s, step)
    ensures Work(Apply(s, step, bucket)) < Work(s)
  {
    StepMovesWeight(s, step, bucket, FetcherWork);
  }

  /** So no run is longer than seven steps an object and three more. */
  lemma {:induction false} RunsAreBounded(bucket: Bucket, listing: seq<Object>, run: seq<State>)
    requires IsRun(bucket, run) && run[0] == Init(listing)
    ensures Work(run[|run| - 1]) + |run| - 1 <= 7 * |listing| + 3
    decreases |run|
  {
    if |run| > 1 {
      RunInit(bucket, run);
      RunsAreBounded(bucket, listing, run[..|run| - 1]);
      var s := run[|run| - 2];
      var step :| Enabled(s, step) && run[|run| - 1] == Apply(s, step, bucket);
      StepReducesWork(s, step, bucket);
    }
  }

  // How much is buffered.

  function Busy(f: Fetcher): nat {
    One(!f.Returning?)
  }

  /** The number of objects whose content is in memory, or on its way there. */
  function Buffered(s: State): nat {
    Sum(s.fetchers, Busy) + One(s.writer.Writing? && s.writer.item.data.Some?)
  }

  /** The listed objects that are small enough for a fetcher. */
  function Small(listing: seq<Object>): nat {
    if listing == [] then 0
    else One(listing[0].path != RESTORE_MARKER && listing[0].size <= MAX_BUFFERED) + Small(listing[1..])
  }

  /** The most that is ever buffered: a small object in each fetcher and one in the writer, if there are
      that many. */
  function Peak(listing: seq<Object>): nat {
    if Small(listing) <= READ_WORKERS then Small(listing) else READ_WORKERS + 1
  }

  lemma {:induction false} BusyAtMost(fetchers: seq<Fetcher>)
    ensures Sum(fetchers, Busy) <= |fetchers|
    ensures (forall f :: f in fetchers ==> !f.Returning?) ==> Sum(fetchers, Busy) == |fetchers|
  {
    if fetchers != [] {
      BusyAtMost(fetchers[1..]);
    }
  }

  /** Small objects still to come, on their way to a fetcher, or buffered. */
  function SmallLeft(s: State): nat {
    Small(s.pending) + One(s.dispatcher.Spawning?) + Buffered(s)
  }

  lemma StepKeepsSmallLeft(s: State, step: Step, bucket: Bucket)
    requires Enabled(s, step)
    ensures SmallLeft(Apply(s, step, bucket)) <= SmallLeft(s)
  {
    StepMovesWeight(s, step, bucket, Busy);
  }

  lemma {:induction false} RunKeepsSmallLeft(bucket: Bucket, listing: seq<Object>, run: seq<State>)
    requires IsRun(bucket, run) && run[0] == Init(listing)
    ensures SmallLeft(run[|run| - 1]) <= Small(listing)
    decreases |run|
  {
    hide SmallLeft, Enabled, Apply;
    if |run| == 1 {
      InitIsSmall(listing);
    } else {
      RunInit(bucket, run);
      RunKeepsSmallLeft(bucket, listing, run[..|run| - 1]);
      var s := run[|run| - 2];
      var step :| Enabled(s, step) && run[|run| - 1] == Apply(s, step, bucket);
      StepKeepsSmallLeft(s, step, bucket);
    }
  }

  lemma InitIsSmall(listing: seq<Object>)
    ensures SmallLeft(Init(listing)) == Small(listing)
  {}

  lemma BufferedAtMostPeak(bucket: Bucket, listing: seq<Object>, s: State)
    requires Reachable(bucket, listing, s)
    ensures Buffered(s) <= Peak(listing) <= 17 && |s.fetchers| <= 16
  {
    var run :| IsRun(bucket, run) && run[0] == Init(listing) && run[|run| - 1] == s;
    RunKeepsSmallLeft(bucket, listing, run);
    InvariantHolds(bucket, listing, s);
    BusyAtMost(s.fetchers);
  }

  lemma ReachableStep(bucket: Bucket, listing: seq<Object>, s: State, step: Step)
    requires Reachable(bucket, listing, s) && Enabled(s, step)
    ensures Reachable(bucket, listing, Apply(s, step, bucket))
  {
    var run :| IsRun(bucket, run) && run[0] == Init(listing) && run[|run| - 1] == s;
    var longer := run + [Apply(s, step, bucket)];
    forall i | 0 <= i < |longer| - 1
      ensures Next(bucket, longer[i], longer[i + 1])
    {
      if i < |run| - 1 {
        assert Next(bucket, run[i], run[i + 1]);
      }
    }
    assert IsRun(bucket, longer);
  }

  /** A large object goes from the listing to the archive without a fetcher. */
  lemma PassLarge(bucket: Bucket, listing: seq<Object>, pending: seq<Object>, pool: seq<Fetcher>, archive: seq<Entry>) returns (archive': seq<Entry>)
    requires pending != [] && pending[0].path != RESTORE_MARKER && pending[0].size > MAX_BUFFERED
    requires Reachable(bucket, listing, State(pending, Ranging, pool, Idle, archive))
    ensures Reachable(bucket, listing, State(pending[1..], Ranging, pool, Idle, archive'))
  {
    hide Reachable;
    var s0, s1 := State(pending, Ranging, pool, Idle, archive), State(pending[1..], Offering(pending[0]), pool, Idle, archive);
    var s2 := State(pending[1..], Ranging, pool, Writing(Fetched(pending[0], None)), archive);
    ReachableStep(bucket, listing, s0, Receive);
    assert Apply(s0, Receive, bucket) == s1;
    ReachableStep(bucket, listing, s1, Offer);
    ReachableStep(bucket, listing, s2, Write);
    archive' := Apply(s2, Write, bucket).archive;
  }

  /** A small object is received, given to a new fetcher, and fetched. */
  lemma FetchSmall(bucket: Bucket, listing: seq<Object>, pending: seq<Object>, pool: seq<Fetcher>, archive: seq<Entry>) returns (f: Fetcher)
    requires pending != [] && pending[0].path != RESTORE_MARKER && pending[0].size <= MAX_BUFFERED && |pool| < READ_WORKERS
    requires Reachable(bucket, listing, State(pending, Ranging, pool, Idle, archive))
    ensures f.Sending? && Reachable(bucket, listing, State(pending[1..], Ranging, pool + [f], Idle, archive))
  {
    hide Reachable;
    var o := pending[0];
    var s0, s1 := State(pending, Ranging, pool, Idle, archive), State(pending[1..], Spawning(o), pool, Idle, archive);
    var s2 := State(pending[1..], Ranging, pool + [Fetching(o)], Idle, archive);
    f := Sending(o, Read(bucket, o.path));
    ReachableStep(bucket, listing, s0, Receive);
    assert Apply(s0, Receive, bucket) == s1;
    ReachableStep(bucket, listing, s1, Spawn);
    ReachableStep(bucket, listing, s2, Fetch(|pool|));
    assert (pool + [Fetching(o)])[|pool| := f] == pool + [f];
  }

  /** With all fetchers waiting to send, one of them makes room for another small object by giving its
      own to the writer. */
  lemma OneMore(bucket: Bucket, listing: seq<Object>, pending: seq<Object>, pool: seq<Fetcher>, archive: seq<Entry>) returns (s: State)
    requires pending != [] && pending[0].path != RESTORE_MARKER && pending[0].size <= MAX_BUFFERED
    requires |pool| == READ_WORKERS && forall f :: f in pool ==> f.Sending?
    requires Reachable(bucket, listing, State(pending, Ranging, pool, Idle, archive))
    ensures Reachable(bucket, listing, s) && Buffered(s) == READ_WORKERS + 1
  {
    var o, rest, item := pending[0], pending[1..], Fetched(pool[0].source, Some(pool[0].data));
    var s0, s1 := State(pending, Ranging, pool, Idle, archive), State(rest, Spawning(o), pool, Idle, archive);
    var s2 := State(rest, Spawning(o), pool[0 := Returning], Writing(item), archive);
    var s3 := State(rest, Spawning(o), pool[1..], Writing(item), archive);
    s := State(rest, Ranging, pool[1..] + [Fetching(o)], Writing(item), archive);
    assert Buffered(s) == READ_WORKERS + 1 by {
      assert forall f :: f in pool[1..] ==> f in pool;
      BusyAtMost(pool[1..]);
      SumAppend(pool[1..], Fetching(o), Busy);
    }
    hide Reachable, Buffered, Sum;
    ReachableStep(bucket, listing, s0, Receive);
    assert Apply(s0, Receive, bucket) == s1;
    ReachableStep(bucket, listing, s1, Send(0));
    assert pool[0 := Returning][..0] + pool[0 := Returning][1..] == pool[1..];
    ReachableStep(bucket, listing, s2, Return(0));
    ReachableStep(bucket, listing, s3, Spawn);
  }

  /** From any state in which all fetchers wait to send, the pool fills until the small objects run out
      or no more fit. */
  lemma {:induction false} FillUp(bucket: Bucket, listing: seq<Object>, pending: seq<Object>, pool: seq<Fetcher>, archive: seq<Entry>)
    returns (s: State)
    requires |pool| <= READ_WORKERS && forall f :: f in pool ==> f.Sending?
    requires Reachable(bucket, listing, State(pending, Ranging, pool, Idle, archive))
    ensures Reachable(bucket, listing, s)
    ensures Buffered(s) == if |pool| + Small(pending) <= READ_WORKERS then |pool| + Small(pending) else READ_WORKERS + 1
    decreases |pending|
  {
    hide Reachable;
    if pending == [] {
      s := State(pending, Ranging, pool, Idle, archive);
      BusyAtMost(pool);
    } else if pending[0].path == RESTORE_MARKER {
      ReachableStep(bucket, listing, State(pending, Ranging, pool, Idle, archive), Skip);
      s := FillUp(bucket, listing, pending[1..], pool, archive);
    } else if pending[0].size > MAX_BUFFERED {
      var archive' := PassLarge(bucket, listing, pending, pool, archive);
      s := FillUp(bucket, listing, pending[1..], pool, archive');
    } else if |pool| < READ_WORKERS {
      var f := FetchSmall(bucket, listing, pending, pool, archive);
      s := FillUp(bucket, listing, pending[1..], pool + [f], archive);
    } else {
      s := OneMore(bucket, listing, pending, pool, archive);
    }
  }

  /** The peak is reached, whatever is listed and in whatever order. */
  lemma PeakIsReached(bucket: Bucket, listing: seq<Object>) returns (s: State)
    ensures Reachable(bucket, listing, s) && Buffered(s) == if Small(listing) <= 16 then Small(listing) else 17
  {
    assert IsRun(bucket, [Init(listing)]);
    s := FillUp(bucket, listing, listing, [], []);
  }

  /** No more objects than fetchers are ever buffered if and only if no more are small; otherwise the
      writer holds one more. */
  lemma FetchersBoundBufferedIff(bucket: Bucket, listing: seq<Object>)
    ensures (forall s :: Reachable(bucket, listing, s) ==> Buffered(s) <= 16) <==> Small(listing) <= 16
  {
    hide Reachable, Buffered, Small;
    forall s | Reachable(bucket, listing, s)
      ensures Buffered(s) <= Peak(listing)
    {
      BufferedAtMostPeak(bucket, listing, s);
    }
    var s := PeakIsReached(bucket, listing);
  }
}
