/** Restoring an archive into an external bucket, once. */
module FileStoreRestore {
  import opened Model
  import opened Text
  import Pipeline = BackupPipeline

  type Content = Pipeline.Content
  type Objects = Pipeline.Bucket

  const MARKER := Pipeline.RESTORE_MARKER
  const DOT_SLASH := "./"

  /** The content of the marker object; its value does not matter. */
  const MARKER_TEXT: Content := [0x72]

  /** A tar entry that is not a regular file is a directory, a link or the like. */
  datatype Kind = Regular | Special

  datatype TarEntry = TarEntry(name: string, kind: Kind, data: Content)

  function Key(name: string): string {
    TrimPrefix(name, DOT_SLASH)
  }

  /** The entries that a restore uploads. */
  predicate Restorable(e: TarEntry) {
    e.kind.Regular? && Key(e.name) != ""
  }

  predicate Writes(e: TarEntry, key: string) {
    Restorable(e) && Key(e.name) == key
  }

  // What a restore does to the bucket.

  function Put(objects: Objects, e: TarEntry): Objects {
    if Restorable(e) then objects[Key(e.name) := e.data] else objects
  }

  /** The bucket after the entries have been restored in order. */
  function Restored(objects: Objects, entries: seq<TarEntry>): Objects {
    if entries == [] then objects
    else Put(Restored(objects, entries[..|entries| - 1]), entries[|entries| - 1])
  }

  /** The last content that the entries write under a key. */
  function LastWritten(entries: seq<TarEntry>, key: string): Option<Content> {
    if entries == [] then None
    else if Writes(entries[|entries| - 1], key) then Some(entries[|entries| - 1].data)
    else LastWritten(entries[..|entries| - 1], key)
  }

  function Lookup(objects: Objects, key: string): Option<Content> {
    if key in objects then Some(objects[key]) else None
  }

  function OrElse(o: Option<Content>, otherwise: Option<Content>): Option<Content> {
    if o.Some? then o else otherwise
  }

  /** A restore replaces exactly what its entries write, each key by its last entry. */
  lemma {:induction false} LastEntryWins(objects: Objects, entries: seq<TarEntry>, key: string)
    ensures Lookup(Restored(objects, entries), key) == OrElse(LastWritten(entries, key), Lookup(objects, key))
  {
    if entries != [] {
      LastEntryWins(objects, entries[..|entries| - 1], key);
    }
  }

  lemma {:induction false} WrittenByAnEntry(entries: seq<TarEntry>, key: string)
    ensures LastWritten(entries, key).Some? <==> exists e :: e in entries && Writes(e, key)
    ensures LastWritten(entries, key).Some? ==>
              exists e :: e in entries && Writes(e, key) && LastWritten(entries, key) == Some(e.data)
  {
    if entries != [] {
      var init, last := entries[..|entries| - 1], entries[|entries| - 1];
      WrittenByAnEntry(init, key);
      assert entries == init + [last];
      assert forall e :: e in entries <==> e in init || e == last;
    }
  }

  lemma SameLookups(a: Objects, b: Objects)
    requires forall key :: Lookup(a, key) == Lookup(b, key)
    ensures a == b
  {
    forall key
      ensures key in a <==> key in b
      ensures key in a ==> a[key] == b[key]
    {
      assert Lookup(a, key) == Lookup(b, key);
    }
  }

  /** The entries write exactly these objects, in some order, among entries that write nothing. */
  ghost predicate Describes(entries: seq<TarEntry>, objects: Objects) {
    && (forall e :: e in entries && Restorable(e) ==> Key(e.name) in objects && objects[Key(e.name)] == e.data)
    && (forall key :: key in objects ==> exists e :: e in entries && Writes(e, key))
  }

  /** Whatever the order of the entries, restoring an archive adds the objects that it describes and
      keeps all others. */
  lemma RestoresWhatItDescribes(before: Objects, entries: seq<TarEntry>, objects: Objects)
    requires Describes(entries, objects)
    ensures Restored(before, entries) == before + objects
  {
    forall key
      ensures Lookup(Restored(before, entries), key) == Lookup(before + objects, key)
    {
      LastEntryWins(before, entries, key);
      WrittenByAnEntry(entries, key);
    }
    SameLookups(Restored(before, entries), before + objects);
  }

  // The archive of a bucket.

  /** How the tar writer stores an entry: a name that ends with a slash denotes a directory. */
  function Stored(e: Pipeline.Entry): TarEntry {
    if HasSuffix(e.source.path, "/") then TarEntry(e.source.path, Special, [])
    else TarEntry(e.source.path, Regular, e.data)
  }

  function Tar(archive: seq<Pipeline.Entry>): (r: seq<TarEntry>)
    ensures |r| == |archive| && forall i :: 0 <= i < |r| ==> r[i] == Stored(archive[i])
  {
    seq(|archive|, i requires 0 <= i < |archive| => Stored(archive[i]))
  }

  /** The listing names every key of the bucket. */
  ghost predicate IsListing(listing: seq<Pipeline.Object>, bucket: Objects) {
    && (forall o :: o in listing ==> o.path in bucket)
    && (forall key :: key in bucket ==> exists o: Pipeline.Object {:trigger o in listing} :: o in listing && o.path == key)
  }

  /** The keys that survive the way through an archive and back. */
  predicate Portable(key: string) {
    key != "" && !(DOT_SLASH <= key) && !HasSuffix(key, "/")
  }

  /** One entry or more for each object but the marker, with its content. */
  ghost predicate IsArchiveOf(archive: seq<Pipeline.Entry>, bucket: Objects) {
    && (forall e :: e in archive ==> e.source.path in bucket && e.source.path != MARKER && e.data == bucket[e.source.path])
    && (forall key :: key in bucket && key != MARKER ==>
          exists e: Pipeline.Entry {:trigger e in archive} :: e in archive && e.source.path == key)
  }

  lemma SourceOfEntry(archive: seq<Pipeline.Entry>, o: Pipeline.Object)
    ensures o in Pipeline.Sources(archive) <==> exists e: Pipeline.Entry {:trigger e in archive} :: e in archive && e.source == o
  {
    if o in Pipeline.Sources(archive) {
      var i :| 0 <= i < |archive| && Pipeline.Sources(archive)[i] == o;
      assert archive[i] in archive;
    }
    if e :| e in archive && e.source == o {
      var i :| 0 <= i < |archive| && archive[i] == e;
      assert Pipeline.Sources(archive)[i] == o;
    }
  }

  lemma SameMembers<T>(a: seq<T>, b: seq<T>, x: T)
    requires multiset(a) == multiset(b)
    ensures x in a <==> x in b
  {
    assert x in a <==> x in multiset(a);
    assert x in b <==> x in multiset(b);
  }

  /** Every finished run of the backup pipeline makes an archive of the bucket. */
  lemma FinishedRunArchives(bucket: Objects, listing: seq<Pipeline.Object>, s: Pipeline.State)
    requires IsListing(listing, bucket)
    requires Pipeline.Reachable(bucket, listing, s) && Pipeline.Finished(s)
    ensures IsArchiveOf(s.archive, bucket)
  {
    hide Pipeline.Reachable, Pipeline.Finished, Pipeline.Listed;
    Pipeline.FinishedArchiveIsComplete(bucket, listing, s);
    forall e | e in s.archive
      ensures e.source.path in bucket && e.source.path != MARKER
    {
      SourceOfEntry(s.archive, e.source);
      SameMembers(Pipeline.Sources(s.archive), Pipeline.Listed(listing), e.source);
      Pipeline.ListedOnes(listing, e.source);
    }
    forall key | key in bucket && key != MARKER
      ensures exists e: Pipeline.Entry {:trigger e in s.archive} :: e in s.archive && e.source.path == key
    {
      var o: Pipeline.Object :| o in listing && o.path == key;
      Pipeline.ListedOnes(listing, o);
      SameMembers(Pipeline.Sources(s.archive), Pipeline.Listed(listing), o);
      SourceOfEntry(s.archive, o);
    }
  }

  lemma PortableIsKept(key: string)
    ensures Portable(key) <==> key != "" && !HasSuffix(key, "/") && Key(key) == key
  {}

  lemma PortableEntry(e: Pipeline.Entry)
    requires Portable(e.source.path)
    ensures Writes(Stored(e), e.source.path) && Key(Stored(e).name) == e.source.path && Stored(e).data == e.data
  {}

  lemma PortableIsDescribed(archive: seq<Pipeline.Entry>, bucket: Objects)
    requires IsArchiveOf(archive, bucket)
    requires forall key :: key in bucket && key != MARKER ==> Portable(key)
    ensures Describes(Tar(archive), bucket - {MARKER})
  {
    hide Portable, Stored, Writes, Restorable, Key;
    var entries := Tar(archive);
    forall t | t in entries
      ensures Key(t.name) in bucket - {MARKER} && bucket[Key(t.name)] == t.data
    {
      var i :| 0 <= i < |entries| && entries[i] == t;
      assert archive[i] in archive;
      PortableEntry(archive[i]);
    }
    forall key | key in bucket - {MARKER}
      ensures exists t :: t in entries && Writes(t, key)
    {
      var e: Pipeline.Entry :| e in archive && e.source.path == key;
      var i :| 0 <= i < |archive| && archive[i] == e;
      PortableEntry(e);
      assert entries[i] in entries && Writes(entries[i], key);
    }
  }

  function Longest(archive: seq<Pipeline.Entry>): (n: nat)
    ensures forall e :: e in archive ==> |e.source.path| <= n
  {
    if archive == [] then 0
    else
      var n := Longest(archive[1..]);
      assert archive == [archive[0]] + archive[1..];
      if |archive[0].source.path| > n then |archive[0].source.path| else n
  }

  lemma DroppedPrefix(name: string, key: string)
    requires Key(name) == key
    ensures name == key || name == DOT_SLASH + key
  {}

  lemma SuffixOfSum(a: string, b: string)
    requires b != ""
    ensures HasSuffix(a + b, "/") <==> HasSuffix(b, "/")
  {}

  /** A key that comes back was archived under its own name, or with the prefix; it is not empty and
      does not end with a slash. */
  lemma WhereItCameFrom(archive: seq<Pipeline.Entry>, key: string) returns (name: string)
    requires key in Restored(map[], Tar(archive))
    ensures key != "" && !HasSuffix(key, "/") && ((name == key && Key(key) == key) || name == DOT_SLASH + key)
    ensures exists e: Pipeline.Entry {:trigger e in archive} :: e in archive && e.source.path == name
  {
    hide Restored, LastWritten, HasSuffix, TrimPrefix;
    var entries := Tar(archive);
    LastEntryWins(map[], entries, key);
    WrittenByAnEntry(entries, key);
    var t :| t in entries && Writes(t, key);
    var i :| 0 <= i < |entries| && entries[i] == t;
    assert archive[i] in archive;
    name := t.name;
    DroppedPrefix(name, key);
    SuffixOfSum(DOT_SLASH, key);
  }

  /** A key that starts with "./" could come only from a longer one of that kind, and so on for ever. */
  lemma {:induction false} PrefixedIsLost(archive: seq<Pipeline.Entry>, bucket: Objects, key: string)
    requires IsArchiveOf(archive, bucket) && Restored(map[], Tar(archive)) == bucket - {MARKER}
    requires key in bucket - {MARKER} && |key| <= Longest(archive)
    ensures !(DOT_SLASH <= key)
    decreases Longest(archive) - |key|
  {
    hide Restored, Tar, HasSuffix;
    if DOT_SLASH <= key {
      var name := WhereItCameFrom(archive, key);
      assert |Key(key)| == |key| - 2;
      var e: Pipeline.Entry :| e in archive && e.source.path == name;
      PrefixedIsLost(archive, bucket, name);
    }
  }

  /** Restoring the archive of a bucket into an empty one gives back the same objects, without the
      marker, if and only if every key is portable. */
  lemma RoundTrip(archive: seq<Pipeline.Entry>, bucket: Objects)
    requires IsArchiveOf(archive, bucket)
    ensures Restored(map[], Tar(archive)) == bucket - {MARKER}
       <==> forall key :: key in bucket && key != MARKER ==> Portable(key)
  {
    hide Restored, Tar;
    if forall key :: key in bucket && key != MARKER ==> Portable(key) {
      PortableIsDescribed(archive, bucket);
      RestoresWhatItDescribes(map[], Tar(archive), bucket - {MARKER});
      assert map[] + (bucket - {MARKER}) == bucket - {MARKER};
    }
    if Restored(map[], Tar(archive)) == bucket - {MARKER} {
      forall key | key in bucket && key != MARKER
        ensures Portable(key)
      {
        var _ := WhereItCameFrom(archive, key);
        var e: Pipeline.Entry :| e in archive && e.source.path == key;
        PrefixedIsLost(archive, bucket, key);
      }
    }
  }

  /** Backup and restore together: whatever finished run of the pipeline made the archive, it restores
      to the bucket's objects if and only if every key is portable. */
  lemma BackupThenRestore(bucket: Objects, listing: seq<Pipeline.Object>, s: Pipeline.State)
    requires IsListing(listing, bucket)
    requires Pipeline.Reachable(bucket, listing, s) && Pipeline.Finished(s)
    ensures Restored(map[], Tar(s.archive)) == bucket - {MARKER}
       <==> forall key :: key in bucket && key != MARKER ==> Portable(key)
  {
    hide Pipeline.Reachable, Pipeline.Finished, Restored;
    FinishedRunArchives(bucket, listing, s);
    RoundTrip(s.archive, bucket);
  }

  lemma PrefixedMarker()
    ensures Key(DOT_SLASH + MARKER) == MARKER != "" && DOT_SLASH + MARKER != MARKER && !HasSuffix(DOT_SLASH + MARKER, "/")
  {
    SuffixOfSum(DOT_SLASH, MARKER);
    assert MARKER[|MARKER| - 1] == 'd';
  }

  /** A backup can mark the bucket that it is restored into only through the one key that becomes the
      marker's on the way. */
  lemma BackupWritesMarkerIff(bucket: Objects, listing: seq<Pipeline.Object>, s: Pipeline.State)
    requires IsListing(listing, bucket)
    requires Pipeline.Reachable(bucket, listing, s) && Pipeline.Finished(s)
    ensures (exists t :: t in Tar(s.archive) && Writes(t, MARKER)) <==> DOT_SLASH + MARKER in bucket
  {
    hide Pipeline.Reachable, Pipeline.Finished, Key, HasSuffix;
    var entries, name := Tar(s.archive), DOT_SLASH + MARKER;
    FinishedRunArchives(bucket, listing, s);
    PrefixedMarker();
    if t :| t in entries && Writes(t, MARKER) {
      var i :| 0 <= i < |entries| && entries[i] == t;
      assert s.archive[i] in s.archive;
      DroppedPrefix(t.name, MARKER);
    }
    if name in bucket {
      var e: Pipeline.Entry :| e in s.archive && e.source.path == name;
      var i :| 0 <= i < |s.archive| && s.archive[i] == e;
      assert entries[i] in entries && Writes(entries[i], MARKER);
    }
  }

  /** The archive of a directory tree: every file under its path with "./" before it, among entries
      for the directories. */
  ghost predicate IsTreeArchive(entries: seq<TarEntry>, files: Objects) {
    && (forall e :: e in entries && e.kind.Regular? ==>
          DOT_SLASH <= e.name && e.name[2..] in files && files[e.name[2..]] == e.data)
    && (forall key :: key in files ==> TarEntry(DOT_SLASH + key, Regular, files[key]) in entries)
  }

  lemma TreeIsDescribed(entries: seq<TarEntry>, files: Objects)
    requires IsTreeArchive(entries, files) && "" !in files
    ensures Describes(entries, files)
  {}

  /** The archives of the two kinds of backends restore to the same objects. */
  lemma BackendsAgree(archive: seq<Pipeline.Entry>, bucket: Objects, entries: seq<TarEntry>)
    requires IsArchiveOf(archive, bucket) && IsTreeArchive(entries, bucket - {MARKER})
    requires forall key :: key in bucket && key != MARKER ==> Portable(key)
    ensures Restored(map[], entries) == Restored(map[], Tar(archive)) == bucket - {MARKER}
  {
    hide *;
    RoundTrip(archive, bucket);
    var files := bucket - {MARKER};
    assert "" !in files by {
      PortableIsKept("");
    }
    TreeIsDescribed(entries, files);
    RestoresWhatItDescribes(map[], entries, files);
    assert map[] + files == files;
  }

  // The restore and its marker, step by step. A crash after a step is a failure at the next one.

  class ExternalBucket {
    /** Whether no call fails. */
    const reliable: bool
    var created: bool
    var objects: Objects

    ghost predicate Valid()
      reads this
    {
      !created ==> objects == map[]
    }

    constructor (reliable: bool)
      ensures Valid() && !created && objects == map[] && this.reliable == reliable
    {
      this.reliable := reliable;
      created, objects := false, map[];
    }

    method EnsureBucket() returns (ok: bool)
      requires Valid()
      modifies this
      ensures Valid() && objects == old(objects) && (ok ==> created)
      ensures reliable ==> ok
    {
      var checked: bool := *;
      if !checked && !reliable {
        return false;
      }
      var made: bool := *;
      created := created || made || reliable;
      return created;
    }

    /** Whether the marker is there, or nothing if the bucket could not be asked. */
    method FilestoreRestored() returns (r: Option<bool>)
      ensures r.Some? ==> r.value == (MARKER in objects)
      ensures reliable ==> r.Some?
    {
      var asked: bool := *;
      return if asked || reliable then Some(MARKER in objects) else None;
    }

    method PutObject(key: string, data: Content) returns (ok: bool)
      requires created
      modifies this
      ensures created
      ensures objects == if ok then old(objects)[key := data] else old(objects)
      ensures reliable ==> ok
    {
      ok := *;
      ok := ok || reliable;
      if ok {
        objects := objects[key := data];
      }
    }

    /** Uploads the entries in order until one cannot be read or stored. */
    method RestoreTarGz(entries: seq<TarEntry>) returns (ok: bool, ghost passed: nat)
      requires created
      modifies this
      ensures created && passed <= |entries| && (ok ==> passed == |entries|)
      ensures objects == Restored(old(objects), entries[..passed])
      ensures reliable ==> ok
    {
      passed := 0;
      var i := 0;
      while i < |entries|
        invariant i == passed <= |entries| && created
        invariant objects == Restored(old(objects), entries[..passed])
      {
        var e := entries[i];
        var read: bool := *;
        if !read && !reliable {
          return false, passed;
        }
        assert entries[..i + 1][..i] == entries[..i];
        i := i + 1;
        var key := TrimPrefix(e.name, DOT_SLASH);
        if e.kind.Special? || key == "" {
          passed := passed + 1;
          continue;
        }
        var put := PutObject(key, e.data);
        if !put {
          return false, passed;
        }
        passed := passed + 1;
      }
      ok := true;
    }

    /** Restores the archive unless the marker is there, and then writes the marker. Whatever fails,
        the outcome is that of a deploy that got so far. If nothing fails it succeeds. */
    method RestoreFilestore(entries: seq<TarEntry>) returns (ok: bool, ghost passed: nat, ghost marked: bool)
      requires Valid()
      modifies this
      ensures Valid() && Possible(Deploy(entries, passed, marked))
      ensures objects == Apply(old(objects), Deploy(entries, passed, marked))
      ensures ok ==> marked || MARKER in old(objects)
      ensures reliable ==> ok
    {
      assert entries[..0] == [];
      passed, marked := 0, false;
      var ensured := EnsureBucket();
      if !ensured {
        return false, passed, marked;
      }
      var restored := FilestoreRestored();
      if restored == None || restored.value {
        return restored.Some?, passed, marked;
      }
      var streamed;
      streamed, passed := RestoreTarGz(entries);
      var downloaded: bool := *;
      if !streamed || (!downloaded && !reliable) {
        return false, passed, marked;
      }
      ok := PutObject(MARKER, MARKER_TEXT);
      marked := ok;
    }
  }

  // Runs of deploys and of the application's own writes.

  datatype Event =
    | Deploy(entries: seq<TarEntry>, passed: nat, marked: bool) // how far it got, and whether it marked the bucket
    | Save(key: string, data: Content)
    | Remove(key: string)

  predicate Possible(event: Event) {
    match event
    case Deploy(entries, passed, marked) => passed <= |entries| && (marked ==> passed == |entries|)
    case Save(key, _) => key != MARKER
    case Remove(key) => key != MARKER
  }

  function Apply(objects: Objects, event: Event): Objects
    requires Possible(event)
  {
    match event
    case Deploy(entries, passed, marked) =>
      if MARKER in objects then objects
      else
        var restored := Restored(objects, entries[..passed]);
        if marked then restored[MARKER := MARKER_TEXT] else restored
    case Save(key, data) => objects[key := data]
    case Remove(key) => objects - {key}
  }

  ghost predicate AllPossible(events: seq<Event>) {
    forall e :: e in events ==> Possible(e)
  }

  function Run(objects: Objects, events: seq<Event>): Objects
    requires AllPossible(events)
    decreases |events|
  {
    if events == [] then objects
    else
      assert events[0] in events;
      Run(Apply(objects, events[0]), events[1..])
  }

  /** What the application itself wrote. */
  function Live(events: seq<Event>): (r: seq<Event>)
    requires AllPossible(events)
    ensures AllPossible(r)
  {
    if events == [] then []
    else
      assert events[0] in events;
      (if events[0].Deploy? then [] else [events[0]]) + Live(events[1..])
  }

  /** No archive that is deployed holds an object under the marker's key. */
  ghost predicate MarkerFree(events: seq<Event>) {
    forall d, e :: d in events && d.Deploy? && e in d.entries ==> !Writes(e, MARKER)
  }

  /** Once the marker is there, deploys leave the bucket alone: only what the application writes counts. */
  lemma {:induction false} MarkedIsLeftAlone(objects: Objects, events: seq<Event>)
    requires AllPossible(events) && MARKER in objects
    ensures Run(objects, events) == Run(objects, Live(events)) && MARKER in Run(objects, events)
    decreases |events|
  {
    if events != [] {
      var e, rest := events[0], events[1..];
      assert e in events;
      MarkedIsLeftAlone(Apply(objects, e), rest);
      if !e.Deploy? {
        assert ([e] + Live(rest))[1..] == Live(rest);
      } else {
        assert [] + Live(rest) == Live(rest);
      }
    }
  }

  /** The event writes or removes the key, as the application does. */
  predicate Touches(event: Event, key: string) {
    !event.Deploy? && event.key == key
  }

  lemma {:induction false} UntouchedStays(objects: Objects, events: seq<Event>, key: string)
    requires AllPossible(events) && MARKER in objects && forall e :: e in events ==> !Touches(e, key)
    ensures Lookup(Run(objects, events), key) == Lookup(objects, key)
    decreases |events|
  {
    if events != [] {
      var e, rest := events[0], events[1..];
      assert e in events && events == [e] + rest;
      UntouchedStays(Apply(objects, e), rest, key);
    }
  }

  lemma {:induction false} RunInParts(objects: Objects, a: seq<Event>, b: seq<Event>)
    requires AllPossible(a + b) && AllPossible(a) && AllPossible(b)
    ensures Run(objects, a + b) == Run(Run(objects, a), b)
    decreases |a|
  {
    if a == [] {
      assert a + b == b;
    } else {
      assert a[0] in a && (a + b)[0] == a[0] && (a + b)[1..] == a[1..] + b;
      assert forall e :: e in (a + b)[1..] ==> e in a + b;
      RunInParts(Apply(objects, a[0]), a[1..], b);
    }
  }

  /** Once the marker is there, a key holds what the application last saved under it, or nothing if the
      application removed it, however many deploys follow. */
  lemma LastTouchDecides(objects: Objects, before: seq<Event>, touch: Event, after: seq<Event>)
    requires AllPossible(before + [touch] + after) && MARKER in objects && !touch.Deploy?
    requires forall e :: e in after ==> !Touches(e, touch.key)
    ensures Lookup(Run(objects, before + [touch] + after), touch.key) == if touch.Save? then Some(touch.data) else None
  {
    var events := before + [touch] + after;
    assert events == before + ([touch] + after);
    assert forall e :: e in before || e == touch || e in after <==> e in events;
    assert AllPossible(before) && AllPossible([touch] + after) && AllPossible(after);
    MarkedIsLeftAlone(objects, before);
    RunInParts(objects, before, [touch] + after);
    var s := Run(objects, before);
    assert ([touch] + after)[0] == touch && ([touch] + after)[1..] == after;
    UntouchedStays(Apply(s, touch), after, touch.key);
  }

  lemma NoMarkerYet(objects: Objects, event: Event)
    requires Possible(event) && MARKER !in objects && MarkerFree([event])
    ensures MARKER in Apply(objects, event) <==> event.Deploy? && event.marked
  {
    if event.Deploy? {
      var entries := event.entries[..event.passed];
      LastEntryWins(objects, entries, MARKER);
      WrittenByAnEntry(entries, MARKER);
      assert event in [event] && forall e :: e in entries ==> e in event.entries;
    }
  }

  /** The marker is there if and only if some deploy got as far as writing it. The first that did had
      restored its whole archive; everything that happened later came from the application. */
  lemma {:induction false} MarkerMeansRestored(objects: Objects, events: seq<Event>) returns (first: nat)
    requires AllPossible(events) && MarkerFree(events) && MARKER !in objects
    ensures MARKER in Run(objects, events) <==> exists d :: d in events && d.Deploy? && d.marked
    ensures MARKER in Run(objects, events) ==>
              && first < |events| && events[first].Deploy? && events[first].marked
              && AllPossible(events[..first]) && AllPossible(events[first + 1..])
              && MARKER !in Run(objects, events[..first])
              && Run(objects, events) ==
                 Run(Restored(Run(objects, events[..first]), events[first].entries)[MARKER := MARKER_TEXT], Live(events[first + 1..]))
    decreases |events|
  {
    first := 0;
    if events != [] {
      var e, rest := events[0], events[1..];
      assert e in events && events == [e] + rest;
      NoMarkerYet(objects, e);
      if e.Deploy? && e.marked {
        assert events[..0] == [] && e.entries[..e.passed] == e.entries;
        MarkedIsLeftAlone(Apply(objects, e), rest);
      } else {
        var later := MarkerMeansRestored(Apply(objects, e), rest);
        first := later + 1;
        if MARKER in Run(objects, events) {
          assert events[..first][1..] == rest[..later] && events[first + 1..] == rest[later + 1..];
          assert forall d :: d in events[..first] ==> d in events;
        }
      }
    }
  }

  /** The archive's entries have the last word on their keys, so restoring it after a part of it is
      the same as restoring it at once. */
  lemma PartThenAll(objects: Objects, entries: seq<TarEntry>, passed: nat)
    requires passed <= |entries|
    ensures Restored(Restored(objects, entries[..passed]), entries) == Restored(objects, entries)
  {
    var part := Restored(objects, entries[..passed]);
    forall key
      ensures Lookup(Restored(part, entries), key) == Lookup(Restored(objects, entries), key)
    {
      LastEntryWins(part, entries, key);
      LastEntryWins(objects, entries, key);
      LastEntryWins(objects, entries[..passed], key);
      WrittenByAnEntry(entries[..passed], key);
      WrittenByAnEntry(entries, key);
      assert forall e :: e in entries[..passed] ==> e in entries;
    }
    SameLookups(Restored(part, entries), Restored(objects, entries));
  }

  /** However often a deploy of an archive is repeated after failing, once it succeeds the bucket is as
      if it had succeeded at once. */
  lemma {:induction false} RetriesConverge(objects: Objects, entries: seq<TarEntry>, events: seq<Event>)
    requires MARKER !in objects && (forall e :: e in entries ==> !Writes(e, MARKER))
    requires AllPossible(events) && (forall d :: d in events ==> d.Deploy? && d.entries == entries)
    requires exists d :: d in events && d.marked
    ensures Run(objects, events) == Restored(objects, entries)[MARKER := MARKER_TEXT]
    decreases |events|
  {
    var e, rest := events[0], events[1..];
    assert e in events && events == [e] + rest;
    if e.marked {
      assert entries[..e.passed] == entries;
      MarkedIsLeftAlone(Apply(objects, e), rest);
      NothingLive(rest);
    } else {
      NoMarkerYet(objects, e);
      RetriesConverge(Apply(objects, e), entries, rest);
      PartThenAll(objects, entries, e.passed);
    }
  }

  lemma {:induction false} NothingLive(events: seq<Event>)
    requires AllPossible(events) && forall d :: d in events ==> d.Deploy?
    ensures Live(events) == []
  {
    if events != [] {
      assert events[0] in events;
      NothingLive(events[1..]);
    }
  }

  lemma MarkerIsPlain()
    ensures Key(MARKER) == MARKER != ""
  {
    assert MARKER[1] != DOT_SLASH[1];
  }

  lemma OneEntry(objects: Objects, e: TarEntry)
    ensures Restored(objects, [e]) == Put(objects, e)
  {}

  /** A deploy of the archive that fails before its last entry can leave the bucket marked. */
  ghost predicate CanMarkTooEarly(objects: Objects, entries: seq<TarEntry>) {
    exists passed: nat :: passed < |entries| && MARKER in Apply(objects, Deploy(entries, passed, false))
  }

  /** Exactly the archives that write the marker before their last entry can mark a bucket before they
      are restored. */
  lemma MarksTooEarlyIff(objects: Objects, entries: seq<TarEntry>)
    requires MARKER !in objects
    ensures CanMarkTooEarly(objects, entries) <==> exists i :: 0 <= i < |entries| - 1 && Writes(entries[i], MARKER)
  {
    hide Restored, LastWritten, Writes;
    forall passed: nat | passed < |entries|
      ensures MARKER in Apply(objects, Deploy(entries, passed, false)) <==> exists e :: e in entries[..passed] && Writes(e, MARKER)
    {
      LastEntryWins(objects, entries[..passed], MARKER);
      WrittenByAnEntry(entries[..passed], MARKER);
    }
    if i :| 0 <= i < |entries| - 1 && Writes(entries[i], MARKER) {
      assert entries[i] in entries[..i + 1];
      assert MARKER in Apply(objects, Deploy(entries, i + 1, false));
    }
    if passed: nat :| passed < |entries| && MARKER in Apply(objects, Deploy(entries, passed, false)) {
      var e :| e in entries[..passed] && Writes(e, MARKER);
      var i :| 0 <= i < passed && entries[i] == e;
    }
  }

  /** An archive with the marker's key in it can mark the bucket before its other objects are there, and
      no later deploy restores them. */
  lemma MarkerInArchiveLosesData(objects: Objects, key: string, data: Content)
    requires MARKER !in objects && key !in objects && Portable(key) && key != MARKER
    ensures var entries := [TarEntry(MARKER, Regular, MARKER_TEXT), TarEntry(key, Regular, data)];
            && Describes(entries, map[MARKER := MARKER_TEXT, key := data])
            && Possible(Deploy(entries, 1, false)) && Possible(Deploy(entries, 2, true))
            && key !in Apply(Apply(objects, Deploy(entries, 1, false)), Deploy(entries, 2, true))
  {
    var marker, other := TarEntry(MARKER, Regular, MARKER_TEXT), TarEntry(key, Regular, data);
    var entries := [marker, other];
    MarkerIsPlain();
    PortableIsKept(key);
    assert Writes(marker, MARKER) && Writes(other, key);
    assert entries[..1] == [marker];
    OneEntry(objects, marker);
    hide Restored, Key, Portable, Restorable;
    assert MARKER in Apply(objects, Deploy(entries, 1, false));
  }
}
