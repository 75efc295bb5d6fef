/** Saving an instance's database over the one it was started from: lock, dump into a temporary
    record, move the dump over the original, and let the temporary record take over the original's
    identity. */
module DatabaseSaves {
  import opened Model
  import opened Text
  import opened Urls
  import opened DatabaseStore

  function KeyOfRow(row: Row): string {
    ObjectKey(row.groupName, row.name)
  }

  function UrlOfRow(bucket: string, row: Row): string {
    ObjectUrl(bucket, KeyOfRow(row))
  }

  /** The record as it is stored. */
  ghost predicate Current(store: Store, database: Database)
    reads store`rows, store`locks
  {
    database.id in store.rows && database == Database(database.id, store.rows[database.id], store.LockOf(database.id))
  }

  /** The row could not be loaded, at least once, between two points in time. */
  ghost predicate LoadFailed(before: Failures, after: Failures, id: nat) {
    after.loads[id] > before.loads[id]
  }

  /** Checks that the instance and user may save, locking the database if it is not locked yet.
      Returns the reloaded record and whether it was locked before. */
  method EnsureLocked(store: Store, database: Database, instanceId: nat, userId: nat) returns (r: Outcome<(Database, bool)>)
    requires store.Valid() && Current(store, database)
    modifies store
    ensures store.Valid() && old(store.history) <= store.history
    ensures store.rows == old(store.rows) && store.objects == old(store.objects)
    ensures r.Done? ==> r.value.0 == database.(lock := Some(Lock(instanceId, userId))) && r.value.1 == database.lock.Some?
    ensures r.Done? ==> store.failures == old(store.failures)
    ensures store.failures.writes == old(store.failures).writes && store.failures.unlocks == old(store.failures).unlocks
    ensures LoadFailed(old(store.failures), store.failures, database.id) ==> database.lock.None?
    ensures store.locks == if r.Done? || LoadFailed(old(store.failures), store.failures, database.id)
                           then old(store.locks)[database.id := Lock(instanceId, userId)]
                           else old(store.locks)
    ensures r.Done? && database.lock.Some? ==> store.locks == old(store.locks) && database.lock.value == Lock(instanceId, userId)
    ensures database.lock.Some? && database.lock.value != Lock(instanceId, userId) ==> r == Failed(Unauthorized)
    ensures store.reliable ==> (r.Done? <==> database.lock.None? || database.lock.value == Lock(instanceId, userId))
    ensures store.reliable ==> store.failures == old(store.failures)
  {
    if database.lock.Some? && (database.lock.value.instanceId != instanceId || database.lock.value.userId != userId) {
      return Failed(Unauthorized);
    }
    if database.lock.None? {
      var locked := store.LockRow(database.id, instanceId, userId);
      if locked.Failed? {
        return Failed(locked.error);
      }
      var reloaded := store.FindById(database.id);
      if reloaded.Failed? {
        return Failed(reloaded.error);
      }
      return Done((reloaded.value, false));
    }
    return Done((database, true));
  }

  /** Creates the record that a dump then fills. */
  method CreateDatabase(store: Store, userId: nat, groupName: string, name: string, now: nat) returns (r: Outcome<Database>)
    requires store.Valid()
    modifies store
    ensures store.Valid() && old(store.history) <= store.history
    ensures store.locks == old(store.locks) && store.objects == old(store.objects)
    ensures r.Failed? ==> store.rows == old(store.rows)
    ensures r.Done? ==> r.value.id !in old(store.rows) && r.value.id != 0 && r.value.lock.None?
    ensures store.reliable ==> (r.Done? <==> NameFree(store.slugOf, old(store.rows), 0, groupName, name))
    ensures store.failures.unlocks == old(store.failures).unlocks && store.failures.loads == old(store.failures).loads
    ensures store.failures.writes >= old(store.failures).writes && (r.Done? ==> store.failures == old(store.failures))
    ensures r.Done? ==> r.value.row == store.WithSlug(Row(name, groupName, "", "", "", "database", now, 0, userId, 0))
    ensures r.Done? ==> store.rows == old(store.rows)[r.value.id := r.value.row]
  {
    var row := Row(name, groupName, "", "", "", "database", now, 0, userId, 0);
    var id := store.Insert(row);
    if id.Failed? {
      return Failed(id.error);
    }
    return Done(Database(id.value, store.WithSlug(row), None));
  }

  /** Streams a dump into the record's object and then notes its URL and size in the row. */
  method Dump(store: Store, database: Database, groupName: string, dump: Content) returns (r: Outcome<Database>, ghost uploaded: bool)
    requires store.Valid() && database.id in store.rows && store.rows[database.id] == database.row && database.id !in store.locks
    requires database.row == store.WithSlug(database.row) && database.id != 0
    modifies store
    ensures store.Valid() && old(store.history) <= store.history && store.locks == old(store.locks)
    ensures store.objects == if uploaded then old(store.objects)[ObjectKey(groupName, database.row.name) := dump] else old(store.objects)
    ensures r.Done? ==> uploaded
    ensures store.reliable ==> r.Done?
    ensures store.failures.unlocks == old(store.failures).unlocks && store.failures.writes >= old(store.failures).writes
    ensures forall id :: id != database.id ==> store.failures.loads[id] == old(store.failures).loads[id]
    ensures r.Done? ==> store.failures == old(store.failures)
    ensures r.Done? ==> r.value == Database(database.id, DumpedRow(store, database.row, groupName, dump), None)
    ensures r.Failed? ==> store.rows == old(store.rows)
    ensures r.Done? ==> store.rows == old(store.rows)[database.id := DumpedRow(store, database.row, groupName, dump)]
  {
    uploaded := false;
    var unavailable: bool := *;
    if unavailable && !store.reliable {
      return Failed(Unavailable), false;
    }
    var key := ObjectKey(groupName, database.row.name);
    var put := store.PutObject(key, dump);
    if put.Failed? {
      return Failed(put.error), false;
    }
    uploaded := true;
    var found := store.FindById(database.id);
    if found.Failed? {
      return Failed(found.error), true;
    }
    var row := found.value.row.(url := ObjectUrl(store.bucket, key), size := |dump|);
    var saved := store.Upsert(database.id, row);
    if saved.Failed? {
      return Failed(saved.error), true;
    }
    return Done(found.value.(row := store.WithSlug(row))), true;
  }

  function DumpedRow(store: Store, row: Row, groupName: string, dump: Content): Row {
    store.WithSlug(row.(url := ObjectUrl(store.bucket, ObjectKey(groupName, row.name)), size := |dump|))
  }

  /** The temporary row once it has taken over the original's identity. */
  function TakenOver(store: Store, original: Row, saved: Row): Row {
    store.WithSlug(saved.(name := original.name, groupName := original.groupName, url := original.url, createdAt := original.createdAt))
  }

  /** How far the replacement of the original got before it stopped. */
  datatype Progress =
    | Started      // nothing has been copied yet
    | Copied       // the dump is in place of the original's object
    | Removed      // ... and the original row is gone
    | Renamed      // ... and the temporary row has its name
    | Identified   // ... and its id

  /** The rows at each point of the replacement. */
  function RowsAt(store: Store, progress: Progress, rows: Rows, database: Database, saved: Database): Rows {
    match progress
    case Started => rows
    case Copied => rows
    case Removed => rows - {database.id}
    case Renamed => (rows - {database.id})[saved.id := TakenOver(store, database.row, saved.row)]
    case Identified => (rows - {saved.id})[database.id := TakenOver(store, database.row, saved.row)]
  }

  lemma StoredIdsArePositive(store: Store, id: nat)
    requires store.Valid() && id in store.rows
    ensures id != 0
  {}

  lemma SlotIsOwn(store: Store, id: nat)
    requires store.Valid() && id in store.rows
    ensures store.rows[id] == store.WithSlug(store.rows[id])
    ensures NameFree(store.slugOf, store.rows, id, store.rows[id].groupName, store.rows[id].name)
  {}

  /** The locks after the original row was to be replaced: its lock is lifted, and set again at the
      end. If the row could not even be deleted it keeps a lock that could not be lifted. */
  ghost function LockAfter<T>(r: Outcome<T>, progress: Progress, before: Failures, after: Failures, locks: Locks, id: nat): Locks {
    if r.Done? || (progress.Copied? && after.unlocks > before.unlocks) then locks else locks - {id}
  }

  /** Sets the lock that a record had, if it had one. */
  method Relock(store: Store, id: nat, lock: Option<Lock>) returns (r: Outcome<()>)
    requires store.Valid()
    modifies store
    ensures store.Valid() && old(store.history) <= store.history
    ensures store.rows == old(store.rows) && store.objects == old(store.objects) && store.failures == old(store.failures)
    ensures store.locks == if r.Done? && lock.Some? then old(store.locks)[id := lock.value] else old(store.locks)
    ensures lock.None? ==> r.Done?
    ensures store.reliable && id in store.rows && id !in old(store.locks) ==> r.Done?
  {
    if lock.None? {
      return Done(());
    }
    r := store.LockRow(id, lock.value.instanceId, lock.value.userId);
  }

  /** Deletes the original row and gives the temporary row the original's name and id. The lock is
      lifted meanwhile, and set again at the end. */
  method TakeOver(store: Store, database: Database, saved: Database) returns (r: Outcome<Database>, progress: Progress)
    requires store.Valid() && Current(store, database) && Current(store, saved)
    requires database.id != saved.id && saved.lock.None?
    modifies store
    ensures store.Valid() && old(store.history) <= store.history && store.objects == old(store.objects)
    ensures !progress.Started? && store.rows == RowsAt(store, progress, old(store.rows), database, saved)
    ensures r.Done? ==> progress.Identified? && r.value == Database(database.id, TakenOver(store, database.row, saved.row), None)
    ensures store.locks == LockAfter(r, progress, old(store.failures), store.failures, old(store.locks), database.id)
    ensures store.failures.writes >= old(store.failures).writes && (!progress.Identified? ==> store.failures.writes > old(store.failures).writes)
    ensures old(store.failures).unlocks <= store.failures.unlocks <= old(store.failures).unlocks + 1
    ensures r.Done? && database.lock.Some? ==> store.failures == old(store.failures)
    ensures store.reliable ==> r.Done?
  {
    hide WellFormed, Clash, Store.Valid;
    StoredIdsArePositive(store, database.id);
    StoredIdsArePositive(store, saved.id);
    ghost var rows0, locks0 := store.rows, store.locks;
    SlotIsOwn(store, database.id);
    var unlocked := store.UnlockRow(database.id);
    var deleted := store.DeleteRow(database.id);
    if deleted.Failed? {
      return Failed(deleted.error), Copied;
    }
    assert store.locks == locks0 - {database.id};
    var row := saved.row.(name := database.row.name, groupName := database.row.groupName, url := database.row.url,
                          slug := database.row.slug, createdAt := database.row.createdAt);
    assert store.WithSlug(row) == TakenOver(store, database.row, saved.row);
    var updated := store.Upsert(saved.id, row);
    if updated.Failed? {
      return Failed(updated.error), Removed;
    }
    assert store.rows == RowsAt(store, Renamed, rows0, database, saved);
    assert saved.id !in store.locks;
    var identified := store.UpdateId(saved.id, database.id);
    if identified.Failed? {
      return Failed(identified.error), Renamed;
    }
    assert store.rows == RowsAt(store, Identified, rows0, database, saved);
    var locked := Relock(store, database.id, database.lock);
    if locked.Failed? {
      return Failed(locked.error), Identified;
    }
    assert store.locks == locks0;
    return Done(Database(database.id, store.WithSlug(row), None)), Identified;
  }

  /** The objects after a move, whose second half may have failed. */
  ghost function MovedObjects(objects: Objects, source: string, destination: string, removed: bool): Objects
    requires source in objects
  {
    if removed then objects[destination := objects[source]] - {source} else objects[destination := objects[source]]
  }

  /** The row's object exists, under another key than that of the other row. */
  predicate MovesTo(objects: Objects, from: Row, to: Row) {
    var source := KeyOf(from.url);
    source.Ok? && source.value in objects && source.value != KeyOfRow(to)
  }

  /** What becomes of the record's lock while it is saved. If the save succeeds, or fails before the
      dump is in place, the lock stays and no unlock or load of the record has failed. If it fails
      once the original row is gone, so is the lock. In between the lock stays if the temporary object
      could not be deleted, or the record could not be unlocked, and is lifted otherwise. */
  ghost predicate SavedLock<T>(r: Outcome<T>, progress: Progress, undeleted: bool, before: Failures, after: Failures,
                               locks: Locks, locks': Locks, id: nat)
  {
    && after.unlocks >= before.unlocks
    && (r.Done? || progress.Started? ==> locks' == locks && after.unlocks == before.unlocks && after.loads[id] == before.loads[id])
    && (r.Failed? && (progress.Removed? || progress.Renamed? || progress.Identified?) ==> locks' == locks - {id})
    && (progress.Copied? ==>
          && locks' == (if undeleted || after.unlocks > before.unlocks then locks else locks - {id})
          && after.unlocks <= before.unlocks + One(!undeleted))
  }

  function One(counts: bool): nat {
    if counts then 1 else 0
  }

  lemma LockUntouched<T>(r: Outcome<T>, before: Failures, after: Failures, locks: Locks, id: nat)
    requires r.Failed? && after.unlocks == before.unlocks && after.loads[id] == before.loads[id]
    ensures forall undeleted :: SavedLock(r, Started, undeleted, before, after, locks, locks, id)
    ensures SavedLock(r, Copied, true, before, after, locks, locks, id)
  {}

  lemma LockOnceCopied<T>(r: Outcome<T>, progress: Progress, before: Failures, after: Failures, locks: Locks, locks': Locks, id: nat)
    requires !progress.Started? && before.unlocks <= after.unlocks <= before.unlocks + 1 && (r.Done? ==> after == before)
    requires locks' == LockAfter(r, progress, before, after, locks, id)
    requires r.Done? ==> progress.Identified?
    ensures SavedLock(r, progress, false, before, after, locks, locks', id)
  {}

  /** Moves the dump over the original object and lets the temporary row take over. */
  method FinalizeSave(store: Store, database: Database, saved: Database)
    returns (r: Outcome<Database>, progress: Progress, removed: bool)
    requires store.Valid() && Current(store, database) && Current(store, saved)
    requires database.id != saved.id && saved.lock.None?
    modifies store
    ensures store.Valid() && old(store.history) <= store.history
    ensures store.rows == RowsAt(store, progress, old(store.rows), database, saved)
    ensures progress.Started? ==> r.Failed? && store.objects == old(store.objects)
    ensures !progress.Started? ==>
              var source := KeyOf(saved.row.url);
              && source.Ok? && source.value in old(store.objects) && source.value != KeyOfRow(database.row)
              && store.objects == MovedObjects(old(store.objects), source.value, KeyOfRow(database.row), removed)
    ensures !removed ==> r.Failed? && (progress.Started? || progress.Copied?)
    ensures r.Done? ==> removed && progress.Identified? && r.value == Database(database.id, TakenOver(store, database.row, saved.row), None)
    ensures !removed ==> store.failures == old(store.failures)
    ensures database.lock.Some? ==> SavedLock(r, progress, !removed, old(store.failures), store.failures, old(store.locks), store.locks, database.id)
    ensures store.failures.writes >= old(store.failures).writes
    ensures removed && !progress.Identified? ==> store.failures.writes > old(store.failures).writes
    ensures r.Done? && database.lock.Some? ==> store.failures == old(store.failures)
    ensures store.reliable ==> (r.Done? <==> MovesTo(old(store.objects), saved.row, database.row)) && (r.Done? || progress.Started?)
  {
    ghost var before, locks := store.failures, store.locks;
    LockUntouched<Database>(Failed(Malformed), before, before, locks, database.id);
    hide WellFormed, Clash, Store.Valid, KeyOf, ObjectKey, TakenOver, SavedLock, LockAfter;
    var source := KeyOf(saved.row.url);
    if source.Err? {
      return Failed(Malformed), Started, false;
    }
    var moved;
    var copied;
    moved, copied := store.MoveObject(source.value, KeyOfRow(database.row));
    if moved.Failed? {
      r, progress := Failed(moved.error), if copied then Copied else Started;
      LockUntouched(r, before, before, locks, database.id);
      return r, progress, false;
    }
    removed := true;
    r, progress := TakeOver(store, database, saved);
    if database.lock.Some? {
      LockOnceCopied(r, progress, before, store.failures, locks, store.locks, database.id);
    }
  }

  /** The row a successful save leaves: the original's identity with the new dump's size. */
  function FinalRow(store: Store, original: Row, dump: Content): Row {
    store.WithSlug(original.(description := "", slug := "", kind := "database", filestoreId := 0, size := |dump|))
  }

  /** What a save leaves of the rows and objects, by how far the replacement got. `temporary` is the
      id of the temporary row, if there is one. */
  ghost predicate Left(store: Store, rows: Rows, objects: Objects, rows': Rows, objects': Objects,
                       id: nat, original: Row, temporaryKey: string, dump: Content, progress: Progress, temporary: nat)
  {
    && temporary !in rows
    && (progress.Started? ==> rows' - {temporary} == rows && objects' - {temporaryKey} == objects)
    && (progress.Copied? ==> rows' - {temporary} == rows)
    && (progress.Removed? || progress.Renamed? ==> rows' - {temporary} == rows - {id} && temporary in rows')
    && (progress.Identified? ==> rows' == rows[id := FinalRow(store, original, dump)])
    && (!progress.Started? ==> objects' - {temporaryKey} == objects[KeyOfRow(original) := dump] - {temporaryKey})
    && (!progress.Started? ==> KeyOfRow(original) != temporaryKey)
  }

  /** A temporary row that is still there has no URL yet, or its own URL and object. */
  ghost predicate TemporaryLinked(bucket: string, rows: Rows, objects: Objects, temporary: nat, groupName: string, name: string) {
    temporary in rows ==>
      && rows[temporary].groupName == groupName && rows[temporary].name == name
      && (rows[temporary].url == "" || (rows[temporary].url == ObjectUrl(bucket, ObjectKey(groupName, name)) && ObjectKey(groupName, name) in objects))
  }

  /** The save stopped where the temporary row no longer matches its object. */
  predicate Interrupted(progress: Progress, objects: Objects, temporaryKey: string) {
    progress.Removed? || progress.Renamed? || (progress.Copied? && temporaryKey !in objects)
  }

  /** What a save leaves of everything but the lock. */
  ghost predicate SaveLeaves(store: Store, rows: Rows, objects: Objects, rows': Rows, objects': Objects, id: nat, original: Row,
                             groupName: string, temporaryName: string, dump: Content,
                             r: Outcome<Database>, progress: Progress, temporary: nat)
  {
    var temporaryKey := ObjectKey(groupName, temporaryName);
    && Left(store, rows, objects, rows', objects', id, original, temporaryKey, dump, progress, temporary)
    && (!progress.Identified? && !Interrupted(progress, objects', temporaryKey) ==>
          TemporaryLinked(store.bucket, rows', objects', temporary, groupName, temporaryName))
    && (r.Done? ==>
          && progress.Identified? && objects' == objects[KeyOfRow(original) := dump]
          && r.value == Database(id, FinalRow(store, original, dump), None))
  }

  lemma LeftByFinalize(store: Store, rows: Rows, objects: Objects, database: Database, saved: Database, temporaryKey: string,
                       dump: Content, progress: Progress, removed: bool)
    requires saved.id !in rows && database.id in rows && temporaryKey !in objects
    requires TakenOver(store, database.row, saved.row) == FinalRow(store, database.row, dump)
    requires progress.Removed? || progress.Renamed? ==> removed
    requires !progress.Started? ==> temporaryKey != KeyOfRow(database.row)
    ensures var rows' := RowsAt(store, progress, rows[saved.id := saved.row], database, saved);
            var dumped := objects[temporaryKey := dump];
            var objects' := if progress.Started? then dumped else MovedObjects(dumped, temporaryKey, KeyOfRow(database.row), removed);
            && Left(store, rows, objects, rows', objects', database.id, database.row, temporaryKey, dump, progress, saved.id)
            && (progress.Identified? && removed ==> objects' == objects[KeyOfRow(database.row) := dump])
            && (Interrupted(progress, objects', temporaryKey) ==> removed && !progress.Identified?)
            && (progress.Copied? ==> (removed <==> temporaryKey !in objects'))
  {
    hide TakenOver, FinalRow;
    var rows1 := rows[saved.id := saved.row];
    assert rows1 - {saved.id} == rows;
    assert rows1 - {database.id} - {saved.id} == rows - {database.id};
  }

  /** Nothing but a failing step can stop the save: the temporary name and its slug are free, and the
      dump does not go straight into the original's object. */
  ghost predicate Unobstructed(store: Store, row: Row, instanceGroup: string, temporaryName: string)
    reads store`rows
  {
    && NameFree(store.slugOf, store.rows, 0, instanceGroup, temporaryName)
    && ObjectKey(instanceGroup, temporaryName) != KeyOfRow(row)
  }

  /** The save of a record that is locked, without the final unlock. */
  method SaveUnderLock(store: Store, database: Database, instanceGroup: string, temporaryName: string, dump: Content, now: nat)
    returns (r: Outcome<Database>, progress: Progress, ghost temporary: nat)
    requires store.Valid() && Current(store, database) && database.lock.Some?
    requires ObjectKey(instanceGroup, temporaryName) !in store.objects && Clean(ObjectKey(instanceGroup, temporaryName))
    modifies store
    ensures store.Valid() && old(store.history) <= store.history
    ensures SaveLeaves(store, old(store.rows), old(store.objects), store.rows, store.objects, database.id, database.row,
                       instanceGroup, temporaryName, dump, r, progress, temporary)
    ensures SavedLock(r, progress, ObjectKey(instanceGroup, temporaryName) in store.objects,
                      old(store.failures), store.failures, old(store.locks), store.locks, database.id)
    ensures Interrupted(progress, store.objects, ObjectKey(instanceGroup, temporaryName)) ==> store.failures.writes > old(store.failures).writes
    ensures store.failures.writes >= old(store.failures).writes
    ensures store.reliable ==> (r.Done? <==> old(Unobstructed(store, database.row, instanceGroup, temporaryName))) && (r.Done? || progress.Started?)
  {
    ghost var key := ObjectKey(instanceGroup, temporaryName);
    ghost var rows0, objects0, failures0, locks0 := store.rows, store.objects, store.failures, store.locks;
    hide Left, Store.Valid, FinalRow, KeyOf, SavedLock, Interrupted, MovesTo, NameFree, TemporaryLinked;
    var dumped;
    dumped, temporary := DumpTemporary(store, database, instanceGroup, temporaryName, dump, now);
    if dumped.Failed? {
      LeftByDump(store, rows0, objects0, database, temporary, store.rows, store.objects, key, dump);
      LockUntouched<Database>(Failed(dumped.error), failures0, store.failures, store.locks, database.id);
      NotInterrupted(store.objects, key);
      return Failed(dumped.error), Started, temporary;
    }
    NameIsKnown(store);
    UrlRoundTrip(store.bucket, key);
    MovesUnlessSameKey(store.objects, dumped.value.row, database.row, key);
    TakenOverIsFinal(store, database.row, dumped.value.row, dump);
    var removed;
    r, progress, removed := FinalizeSave(store, database, dumped.value);
    LeftByFinalize(store, rows0, objects0, database, dumped.value, key, dump, progress, removed);
    OnlyIfCopied(r, progress, !removed, key in store.objects, failures0, store.failures, locks0, store.locks, database.id);
  }

  lemma OnlyIfCopied<T>(r: Outcome<T>, progress: Progress, a: bool, b: bool, before: Failures, after: Failures,
                        locks: Locks, locks': Locks, id: nat)
    requires SavedLock(r, progress, a, before, after, locks, locks', id) && (progress.Copied? ==> a == b)
    ensures SavedLock(r, progress, b, before, after, locks, locks', id)
  {}

  /** Creates the temporary record and dumps into it. Whatever happens, everything else stays. */
  method DumpTemporary(store: Store, database: Database, instanceGroup: string, temporaryName: string, dump: Content, now: nat)
    returns (r: Outcome<Database>, ghost temporary: nat)
    requires store.Valid() && Current(store, database) && ObjectKey(instanceGroup, temporaryName) !in store.objects
    modifies store
    ensures store.Valid() && old(store.history) <= store.history && store.locks == old(store.locks)
    ensures temporary !in old(store.rows) && store.rows - {temporary} == old(store.rows)
    ensures store.reliable ==> (r.Done? <==> NameFree(store.slugOf, old(store.rows), 0, instanceGroup, temporaryName))
    ensures store.failures.unlocks == old(store.failures).unlocks && store.failures.writes >= old(store.failures).writes
    ensures forall id :: id in old(store.rows) ==> store.failures.loads[id] == old(store.failures).loads[id]
    ensures r.Done? ==> store.failures == old(store.failures)
    ensures store.objects - {ObjectKey(instanceGroup, temporaryName)} == old(store.objects)
    ensures TemporaryLinked(store.bucket, store.rows, store.objects, temporary, instanceGroup, temporaryName)
    ensures r.Done? ==> r.value.id == temporary && r.value.lock.None? && Current(store, r.value)
    ensures r.Done? ==> store.rows == old(store.rows)[temporary := r.value.row]
    ensures r.Done? ==> store.objects == old(store.objects)[ObjectKey(instanceGroup, temporaryName) := dump]
    ensures r.Done? ==>
              r.value.row == store.WithSlug(Row(temporaryName, instanceGroup, "", ObjectUrl(store.bucket, ObjectKey(instanceGroup, temporaryName)),
                                                "", "database", now, 0, database.row.userId, |dump|))
  {
    NameIsKnown(store);
    LocksKnown(store);
    hide WellFormed, Clash, Store.Valid, ObjectKey, ObjectUrl, NameFree;
    var created := CreateDatabase(store, database.row.userId, instanceGroup, temporaryName, now);
    if created.Failed? {
      return Failed(created.error), 0;
    }
    temporary := created.value.id;
    ghost var rows1, objects := store.rows, store.objects;
    ghost var uploaded;
    r, uploaded := Dump(store, created.value, instanceGroup, dump);
    OnlyTemporary(old(store.rows), rows1, store.rows, objects, store.objects, temporary, ObjectKey(instanceGroup, temporaryName));
  }

  lemma OnlyTemporary(rows: Rows, rows1: Rows, rows': Rows, objects: Objects, objects': Objects, temporary: nat, key: string)
    requires temporary !in rows && rows1 - {temporary} == rows && (rows' == rows1 || (temporary in rows' && rows' == rows1[temporary := rows'[temporary]]))
    requires key !in objects && (objects' == objects || (key in objects' && objects' == objects[key := objects'[key]]))
    ensures rows' - {temporary} == rows && objects' - {key} == objects
  {}

  lemma NameIsKnown(store: Store)
    requires store.Valid()
    ensures BucketName(store.bucket) && 0 !in store.rows
  {}

  lemma NotInterrupted(objects: Objects, temporaryKey: string)
    ensures !Interrupted(Started, objects, temporaryKey)
  {}

  lemma MovesUnlessSameKey(objects: Objects, from: Row, to: Row, key: string)
    requires KeyOf(from.url) == Ok(key) && key in objects
    ensures MovesTo(objects, from, to) <==> key != KeyOfRow(to)
  {}

  lemma LocksKnown(store: Store)
    requires store.Valid()
    ensures store.locks.Keys <= store.rows.Keys
  {}

  lemma NothingLeft(store: Store, database: Database, groupName: string, temporaryName: string, dump: Content, error: Error)
    requires store.Valid() && ObjectKey(groupName, temporaryName) !in store.objects
    ensures SaveLeaves(store, store.rows, store.objects, store.rows, store.objects, database.id, database.row,
                       groupName, temporaryName, dump, Failed(error), Started, 0)
  {}

  lemma LeftByDump(store: Store, rows: Rows, objects: Objects, database: Database, temporary: nat, rows': Rows, objects': Objects,
                   temporaryKey: string, dump: Content)
    requires temporary !in rows && temporaryKey !in objects
    requires rows' - {temporary} == rows && objects' - {temporaryKey} == objects
    ensures Left(store, rows, objects, rows', objects', database.id, database.row, temporaryKey, dump, Started, temporary)
  {}

  lemma TakenOverIsFinal(store: Store, original: Row, saved: Row, dump: Content)
    requires saved.description == "" && saved.kind == "database" && saved.filestoreId == 0 && saved.userId == original.userId && saved.size == |dump|
    ensures TakenOver(store, original, saved) == FinalRow(store, original, dump)
  {}

  /** Overwrites the record with a fresh dump, and unlocks it afterwards if it was not locked before. */
  method SaveLocked(store: Store, database: Database, instanceGroup: string, temporaryName: string, dump: Content, now: nat, wasLocked: bool)
    returns (r: Outcome<Database>, progress: Progress, ghost temporary: nat)
    requires store.Valid() && Current(store, database) && database.lock.Some?
    requires ObjectKey(instanceGroup, temporaryName) !in store.objects && Clean(ObjectKey(instanceGroup, temporaryName))
    modifies store
    ensures store.Valid() && old(store.history) <= store.history
    ensures SaveLeaves(store, old(store.rows), old(store.objects), store.rows, store.objects, database.id, database.row,
                       instanceGroup, temporaryName, dump, r, progress, temporary)
    ensures r.Done? || progress.Started? ==> !LoadFailed(old(store.failures), store.failures, database.id)
    ensures LocksLeft(r, progress, ObjectKey(instanceGroup, temporaryName) in store.objects, wasLocked,
                      old(store.failures), store.failures, old(store.locks), store.locks, database.id)
    ensures Interrupted(progress, store.objects, ObjectKey(instanceGroup, temporaryName)) ==> store.failures.writes > old(store.failures).writes
    ensures store.failures.writes >= old(store.failures).writes
    ensures store.reliable ==> (r.Done? <==> old(Unobstructed(store, database.row, instanceGroup, temporaryName))) && (r.Done? || progress.Started?)
    ensures store.reliable ==> store.failures.unlocks == old(store.failures).unlocks
  {
    hide SaveLeaves, WellFormed, Clash, Store.Valid, Unobstructed;
    r, progress, temporary := SaveUnderLock(store, database, instanceGroup, temporaryName, dump, now);
    if !wasLocked {
      var unlocked := store.UnlockRow(database.id);
    }
  }

  /** What a save leaves of the record's lock. On success, and on a failure before the dump is in
      place, a lock that the save took itself stays if and only if an unlock failed. On a failure once
      the original row is gone the record is not locked, even if it was before. In between it matters
      what failed. If it was the deletion of the temporary object, then no unlock has been tried before
      the final one, so the lock is as after a success. If it was the deletion of the original row, a
      lock that was there before stays if and only if it could not be lifted, and one that the save took
      itself if and only if neither this unlock nor the final one worked. */
  ghost predicate LocksLeft<T>(r: Outcome<T>, progress: Progress, undeleted: bool, wasLocked: bool, before: Failures, after: Failures,
                               locks: Locks, locks': Locks, id: nat)
  {
    && (r.Done? || progress.Started? ==>
          && (wasLocked ==> after.unlocks == before.unlocks)
          && locks' == if wasLocked || after.unlocks > before.unlocks then locks else locks - {id})
    && (r.Failed? && (progress.Removed? || progress.Renamed? || progress.Identified?) ==> locks' == locks - {id})
    && (progress.Copied? ==> locks' == if StaysLocked(undeleted, wasLocked, before, after) then locks else locks - {id})
  }

  /** The record is locked after a save that stopped with the dump in place and the original row still
      there. The final unlock finds nothing to unlock, and fails, if the record was unlocked already. */
  predicate StaysLocked(undeleted: bool, wasLocked: bool, before: Failures, after: Failures) {
    (undeleted && wasLocked) || after.unlocks > before.unlocks + One(!undeleted && !wasLocked)
  }

  /** The save leaves a lock that was not there before. */
  ghost predicate LeftLocked(database: Database, before: Failures, after: Failures) {
    database.lock.None? && (after.unlocks > before.unlocks || LoadFailed(before, after, database.id))
  }

  /** What the whole save leaves of the record's lock. */
  ghost predicate LocksSaved<T>(r: Outcome<T>, progress: Progress, undeleted: bool, database: Database, before: Failures, after: Failures,
                                locks: Locks, locks': Locks, lock: Lock)
  {
    && (r.Done? || progress.Started? ==> locks' == if LeftLocked(database, before, after) then locks[database.id := lock] else locks)
    && (r.Failed? && (progress.Removed? || progress.Renamed? || progress.Identified?) ==> locks' == locks - {database.id})
    && (progress.Copied? ==>
          locks' == if StaysLocked(undeleted, database.lock.Some?, before, after) then locks[database.id := lock] else locks - {database.id})
  }

  lemma LocksIfRefused<T>(r: Outcome<T>, database: Database, before: Failures, after: Failures, locks: Locks, locks': Locks, lock: Lock)
    requires r.Failed? && after.unlocks == before.unlocks
    requires LoadFailed(before, after, database.id) ==> database.lock.None?
    requires locks' == if LoadFailed(before, after, database.id) then locks[database.id := lock] else locks
    ensures forall undeleted :: LocksSaved(r, Started, undeleted, database, before, after, locks, locks', lock)
  {}

  lemma LocksTogether<T>(r: Outcome<T>, progress: Progress, undeleted: bool, database: Database, before: Failures, after: Failures,
                         locks: Locks, locks': Locks, lock: Lock)
    requires database.lock == if database.id in locks then Some(locks[database.id]) else None
    requires database.lock.Some? ==> database.lock.value == lock
    requires LocksLeft(r, progress, undeleted, database.lock.Some?, before, after, locks[database.id := lock], locks', database.id)
    requires r.Done? || progress.Started? ==> !LoadFailed(before, after, database.id)
    ensures LocksSaved(r, progress, undeleted, database, before, after, locks, locks', lock)
    ensures after == before && (r.Done? || progress.Started?) ==> locks' == locks
  {
    if database.lock.Some? {
      assert locks[database.id := lock] == locks;
    } else {
      assert locks[database.id := lock] - {database.id} == locks - {database.id} == locks;
    }
  }

  /** The whole save. On success the record keeps its identity, its object holds the new dump, the
      temporary row and object are gone, no other row changed, and the lock is what it was. If it
      fails before the dump is in place, the original is as it was, and so is the lock. In both cases
      the lock is not what it was if and only if it was not there, and reloading the record after
      locking it or the final unlock has failed. If the save fails once the original row is gone, the
      record is not locked, even if it was before. */
  method Save(store: Store, database: Database, instanceId: nat, userId: nat, instanceGroup: string, temporaryName: string,
              dump: Content, now: nat)
    returns (r: Outcome<Database>, progress: Progress, ghost temporary: nat)
    requires store.Valid() && Current(store, database)
    requires ObjectKey(instanceGroup, temporaryName) !in store.objects && Clean(ObjectKey(instanceGroup, temporaryName))
    modifies store
    ensures store.Valid() && old(store.history) <= store.history
    ensures SaveLeaves(store, old(store.rows), old(store.objects), store.rows, store.objects, database.id, database.row,
                       instanceGroup, temporaryName, dump, r, progress, temporary)
    ensures LocksSaved(r, progress, ObjectKey(instanceGroup, temporaryName) in store.objects, database,
                       old(store.failures), store.failures, old(store.locks), store.locks, Lock(instanceId, userId))
    ensures Interrupted(progress, store.objects, ObjectKey(instanceGroup, temporaryName)) ==> store.failures.writes > old(store.failures).writes
    ensures store.failures.writes >= old(store.failures).writes
    ensures store.reliable ==>
              (r.Done? <==> (old(Unobstructed(store, database.row, instanceGroup, temporaryName))
                             && (database.lock.None? || database.lock.value == Lock(instanceId, userId))))
    ensures store.reliable ==> (r.Done? || progress.Started?) && store.locks == old(store.locks)
  {
    NotInterrupted(store.objects, ObjectKey(instanceGroup, temporaryName));
    hide SaveLeaves, WellFormed, Clash, Store.Valid, Unobstructed, Interrupted, LocksLeft, LocksSaved, LoadFailed, LeftLocked;
    ghost var before, locks := store.failures, store.locks;
    var locked := EnsureLocked(store, database, instanceId, userId);
    if locked.Failed? {
      NothingLeft(store, database, instanceGroup, temporaryName, dump, locked.error);
      LocksIfRefused<Database>(Failed(locked.error), database, before, store.failures, locks, store.locks, Lock(instanceId, userId));
      return Failed(locked.error), Started, 0;
    }
    var (current, wasLocked) := locked.value;
    assert current.id == database.id && current.row == database.row && wasLocked == database.lock.Some?;
    r, progress, temporary := SaveLocked(store, current, instanceGroup, temporaryName, dump, now, wasLocked);
    LocksTogether(r, progress, ObjectKey(instanceGroup, temporaryName) in store.objects, database,
                  before, store.failures, locks, store.locks, Lock(instanceId, userId));
  }

  /** A save that stops once the original row is gone loses nothing but the row's id: the new dump is in
      place, its row is there under the temporary id, and all other rows are as they were. */
  lemma StoppedSave(store: Store, rows: Rows, objects: Objects, rows': Rows, objects': Objects, id: nat, original: Row,
                    groupName: string, temporaryName: string, dump: Content, r: Outcome<Database>, progress: Progress, temporary: nat)
    requires id in rows && SaveLeaves(store, rows, objects, rows', objects', id, original, groupName, temporaryName, dump, r, progress, temporary)
    requires progress.Removed? || progress.Renamed?
    ensures id !in rows' && temporary in rows' && temporary !in rows
    ensures KeyOfRow(original) in objects' && objects'[KeyOfRow(original)] == dump
    ensures forall other :: other in rows && other != id ==> other in rows' && rows'[other] == rows[other]
    ensures forall other :: other in rows' && other != temporary ==> other in rows
    ensures forall key :: key in objects && key != KeyOfRow(original) && key != ObjectKey(groupName, temporaryName) ==>
              key in objects' && objects'[key] == objects[key]
  {
    var key := ObjectKey(groupName, temporaryName);
    hide ObjectKey, FinalRow;
    forall other
      ensures other in rows' && other != temporary <==> other in rows && other != id
      ensures other in rows && other != id ==> rows'[other] == rows[other]
    {
      assert other in rows' - {temporary} <==> other in rows - {id};
      if other in rows - {id} {
        assert (rows' - {temporary})[other] == (rows - {id})[other];
      }
    }
    forall k | k in objects[KeyOfRow(original) := dump] && k != key
      ensures k in objects' && objects'[k] == objects[KeyOfRow(original) := dump][k]
    {
      assert k in objects[KeyOfRow(original) := dump] - {key};
      assert k in objects' - {key};
    }
  }

  /** What keeps its value in the row a successful save leaves. */
  lemma FinalRowKeepsIdentity(store: Store, id: nat, dump: Content)
    requires store.Valid() && id in store.rows
    ensures var original, row := store.rows[id], FinalRow(store, store.rows[id], dump);
            && row.name == original.name && row.groupName == original.groupName && row.url == original.url
            && row.slug == original.slug && row.createdAt == original.createdAt && row.userId == original.userId
            && row.size == |dump| && row.kind == "database"
  {}
}
