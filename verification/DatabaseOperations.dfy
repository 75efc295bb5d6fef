/** Uploading, copying, renaming and deleting databases, and the invariant that every row with a URL
    finds its own object under it. */
module DatabaseOperations {
  import opened Model
  import opened Text
  import opened Urls
  import opened DatabaseStore
  import opened DatabaseSaves

  // The invariant.

  predicate PlainGroup(groupName: string) {
    '/' !in groupName && Clean(groupName)
  }

  ghost predicate LinkedRow(bucket: string, row: Row, objects: Objects) {
    && PlainGroup(row.groupName) && Clean(row.name)
    && (row.url != "" ==> row.url == UrlOfRow(bucket, row) && KeyOfRow(row) in objects)
  }

  /** Every row with a URL has the URL of its group and name, and the object exists. */
  ghost predicate Linked(bucket: string, rows: Rows, objects: Objects) {
    "" !in objects && forall id :: id in rows ==> LinkedRow(bucket, rows[id], objects)
  }

  ghost predicate UniqueNames(rows: Rows) {
    forall a, b :: a in rows && b in rows && rows[a].groupName == rows[b].groupName && rows[a].name == rows[b].name ==> a == b
  }

  lemma DistinctKeys(rows: Rows, a: nat, b: nat)
    requires UniqueNames(rows) && a in rows && b in rows && a != b
    requires '/' !in rows[a].groupName && '/' !in rows[b].groupName
    ensures KeyOfRow(rows[a]) != KeyOfRow(rows[b])
  {
    if KeyOfRow(rows[a]) == KeyOfRow(rows[b]) {
      KeyInjective(rows[a].groupName, rows[a].name, rows[b].groupName, rows[b].name);
    }
  }

  /** Distinct rows own distinct objects. */
  lemma DistinctObjects(bucket: string, rows: Rows, objects: Objects)
    requires Linked(bucket, rows, objects) && UniqueNames(rows)
    ensures forall a, b :: a in rows && b in rows && KeyOfRow(rows[a]) == KeyOfRow(rows[b]) ==> a == b
  {
    forall a, b | a in rows && b in rows && a != b
      ensures KeyOfRow(rows[a]) != KeyOfRow(rows[b])
    {
      DistinctKeys(rows, a, b);
    }
  }

  /** A linked row's URL is read back as its key, or as the empty key if it has none. */
  lemma LinkedKey(bucket: string, row: Row, objects: Objects)
    requires BucketName(bucket) && LinkedRow(bucket, row, objects)
    ensures KeyOf(row.url) == Ok(if row.url == "" then "" else KeyOfRow(row))
  {
    CleanKey(row.groupName, row.name);
    UrlRoundTrip(bucket, KeyOfRow(row));
  }

  lemma LinkedWithObject(bucket: string, rows: Rows, objects: Objects, groupName: string, name: string, content: Content)
    requires Linked(bucket, rows, objects)
    ensures Linked(bucket, rows, objects[ObjectKey(groupName, name) := content])
  {}

  lemma LinkedWithRow(bucket: string, rows: Rows, objects: Objects, id: nat, row: Row)
    requires Linked(bucket, rows, objects) && LinkedRow(bucket, row, objects)
    ensures Linked(bucket, rows[id := row], objects)
  {}

  /** Removing a row together with its object leaves the others linked. */
  lemma LinkedWithout(bucket: string, rows: Rows, objects: Objects, id: nat)
    requires Linked(bucket, rows, objects) && UniqueNames(rows) && id in rows
    ensures Linked(bucket, rows - {id}, objects - {KeyOfRow(rows[id])})
  {
    forall other | other in rows && other != id
      ensures LinkedRow(bucket, rows[other], objects - {KeyOfRow(rows[id])})
    {
      DistinctKeys(rows, id, other);
    }
  }

  /** Moving a row's object while renaming the row leaves everything linked. */
  lemma LinkedAfterMove(bucket: string, rows: Rows, objects: Objects, id: nat, row: Row)
    requires Linked(bucket, rows, objects) && UniqueNames(rows) && id in rows
    requires PlainGroup(row.groupName) && Clean(row.name) && row.url == UrlOfRow(bucket, row)
    requires KeyOfRow(rows[id]) in objects && KeyOfRow(rows[id]) != KeyOfRow(row)
    ensures Linked(bucket, rows[id := row], MovedObjects(objects, KeyOfRow(rows[id]), KeyOfRow(row), true))
  {
    var source := KeyOfRow(rows[id]);
    assert KeyOfRow(row)[|row.groupName|] == '/';
    forall other | other in rows && other != id
      ensures LinkedRow(bucket, rows[other], MovedObjects(objects, source, KeyOfRow(row), true))
    {
      DistinctKeys(rows, id, other);
    }
  }

  ghost predicate Consistent(store: Store)
    reads store`rows, store`locks, store`objects, store`history
  {
    store.Valid() && Linked(store.bucket, store.rows, store.objects)
  }

  lemma StoredNamesAreUnique(store: Store)
    requires store.Valid()
    ensures UniqueNames(store.rows) && BucketName(store.bucket) && 0 !in store.rows
  {}

  // What an operation keeps of the other rows' objects.

  /** The object of every row with a URL, but for some rows, is as it was. */
  ghost predicate Kept(rows: Rows, objects: Objects, objects': Objects, except: set<nat>) {
    forall id :: id in rows && id !in except && rows[id].url != "" ==>
      KeyOfRow(rows[id]) in objects && KeyOfRow(rows[id]) in objects' && objects'[KeyOfRow(rows[id])] == objects[KeyOfRow(rows[id])]
  }

  /** No row but that with the given id has the group and name. */
  predicate NoOtherHas(rows: Rows, id: nat, groupName: string, name: string) {
    forall other :: other in rows && other != id ==> !(rows[other].groupName == groupName && rows[other].name == name)
  }

  ghost predicate SameAt(objects: Objects, objects': Objects, key: string) {
    (key in objects <==> key in objects') && (key in objects ==> objects'[key] == objects[key])
  }

  lemma OwnSlot(rows: Rows, id: nat)
    requires UniqueNames(rows) && id in rows
    ensures NoOtherHas(rows, id, rows[id].groupName, rows[id].name)
  {}

  /** What touches only the key of a group and name keeps the objects of all rows that do not have
      them. */
  lemma TouchingOneKey(bucket: string, rows: Rows, objects: Objects, objects': Objects, id: nat, groupName: string, name: string)
    requires Linked(bucket, rows, objects) && PlainGroup(groupName) && NoOtherHas(rows, id, groupName, name)
    requires forall key :: key != ObjectKey(groupName, name) ==> SameAt(objects, objects', key)
    ensures Kept(rows, objects, objects', {id})
  {
    forall other | other in rows && other != id && rows[other].url != ""
      ensures SameAt(objects, objects', KeyOfRow(rows[other]))
    {
      if KeyOfRow(rows[other]) == ObjectKey(groupName, name) {
        KeyInjective(rows[other].groupName, rows[other].name, groupName, name);
      }
    }
  }

  /** Storing an object under the key of a group and name. */
  lemma KeptByPut(bucket: string, rows: Rows, objects: Objects, id: nat, groupName: string, name: string, content: Content)
    requires Linked(bucket, rows, objects) && PlainGroup(groupName) && NoOtherHas(rows, id, groupName, name)
    ensures Kept(rows, objects, objects[ObjectKey(groupName, name) := content], {id})
  {
    TouchingOneKey(bucket, rows, objects, objects[ObjectKey(groupName, name) := content], id, groupName, name);
  }

  /** Storing an object under the key of a group and name keeps the objects of other rows if and only
      if no row but the excepted ones has that group, name and an object, or the same content is there
      already. */
  lemma PutKeepsOthersIff(bucket: string, rows: Rows, objects: Objects, except: set<nat>, groupName: string, name: string, content: Content)
    requires Linked(bucket, rows, objects) && PlainGroup(groupName)
    ensures Kept(rows, objects, objects[ObjectKey(groupName, name) := content], except) <==>
              forall other :: other in rows && other !in except && rows[other].url != "" &&
                              rows[other].groupName == groupName && rows[other].name == name ==>
                ObjectKey(groupName, name) in objects && objects[ObjectKey(groupName, name)] == content
  {
    forall other | other in rows && KeyOfRow(rows[other]) == ObjectKey(groupName, name)
      ensures rows[other].groupName == groupName && rows[other].name == name
    {
      KeyInjective(rows[other].groupName, rows[other].name, groupName, name);
    }
  }

  lemma KeptTwice(rows: Rows, objects: Objects, a: set<nat>, rows1: Rows, objects1: Objects, objects2: Objects, b: set<nat>)
    requires Kept(rows, objects, objects1, a) && Kept(rows1, objects1, objects2, b)
    requires forall id :: id in rows && id !in a ==> id in rows1 && rows1[id] == rows[id]
    ensures Kept(rows, objects, objects2, a + b)
  {}

  lemma NothingTouched(bucket: string, rows: Rows, objects: Objects)
    requires Linked(bucket, rows, objects)
    ensures forall except :: Kept(rows, objects, objects, except)
  {}

  lemma ZeroIsNoRow(rows: Rows, objects: Objects, objects': Objects)
    requires 0 !in rows && Kept(rows, objects, objects', {0})
    ensures Kept(rows, objects, objects', {})
  {}

  lemma FreeMeansNoOther(slugOf: (string, string) -> string, rows: Rows, id: nat, groupName: string, name: string)
    requires NameFree(slugOf, rows, id, groupName, name)
    ensures NoOtherHas(rows, id, groupName, name)
  {}

  /** Moving a row's object under another name of its group keeps the objects of all other rows if
      and only if no other row has that name, or has the same content there already. */
  lemma MoveKeepsOthersIff(bucket: string, rows: Rows, objects: Objects, id: nat, name: string, removed: bool)
    requires Linked(bucket, rows, objects) && UniqueNames(rows) && id in rows && rows[id].url != "" && name != rows[id].name
    ensures var key, destination := KeyOfRow(rows[id]), KeyOfRow(rows[id].(name := name));
            && key in objects
            && (Kept(rows, objects, MovedObjects(objects, key, destination, removed), {id}) <==>
                  forall other :: other in rows && other != id && rows[other].url != "" && KeyOfRow(rows[other]) == destination ==>
                    destination in objects && objects[destination] == objects[key])
  {
    var key, destination := KeyOfRow(rows[id]), KeyOfRow(rows[id].(name := name));
    forall other | other in rows && other != id
      ensures KeyOfRow(rows[other]) != key
    {
      DistinctKeys(rows, id, other);
    }
  }

  /** So renaming onto the name of another row overwrites that row's object. Every row with a URL still
      finds an object afterwards if and only if the old object could not be deleted. */
  lemma ClashOverwrites(bucket: string, rows: Rows, objects: Objects, id: nat, other: nat, removed: bool)
    requires Linked(bucket, rows, objects) && UniqueNames(rows) && id in rows && other in rows && id != other
    requires rows[id].url != "" && rows[other].url != "" && rows[other].groupName == rows[id].groupName
    requires objects[KeyOfRow(rows[id])] != objects[KeyOfRow(rows[other])]
    ensures var objects' := MovedObjects(objects, KeyOfRow(rows[id]), KeyOfRow(rows[other]), removed);
            && !Kept(rows, objects, objects', {id})
            && objects'[KeyOfRow(rows[other])] == objects[KeyOfRow(rows[id])]
            && (Linked(bucket, rows, objects') <==> !removed)
  {
    assert rows[other].name != rows[id].name;
    MoveKeepsOthersIff(bucket, rows, objects, id, rows[other].name, removed);
    DistinctKeys(rows, id, other);
    LinkedWithObject(bucket, rows, objects, rows[other].groupName, rows[other].name, objects[KeyOfRow(rows[id])]);
  }

  // When an operation stops after an object was written, because its row is refused.

  /** The row's object can be copied or moved under the key of the other row. */
  predicate Movable(from: Row, to: Row) {
    from.url != "" && KeyOfRow(from) != KeyOfRow(to)
  }

  predicate CopySucceeds(store: Store, rows: Rows, from: Row, to: Row) {
    Movable(from, to) && NameFree(store.slugOf, rows, 0, to.groupName, to.name)
  }

  predicate CopyBreaks(store: Store, rows: Rows, from: Row, to: Row) {
    Movable(from, to) && !NameFree(store.slugOf, rows, 0, to.groupName, to.name)
  }

  predicate MoveSucceeds(store: Store, rows: Rows, id: nat, name: string)
    requires id in rows
  {
    Movable(rows[id], rows[id].(name := name)) && NameFree(store.slugOf, rows, id, rows[id].groupName, name)
  }

  predicate MoveBreaks(store: Store, rows: Rows, id: nat, name: string)
    requires id in rows
  {
    Movable(rows[id], rows[id].(name := name)) && !NameFree(store.slugOf, rows, id, rows[id].groupName, name)
  }

  /** The row as it is stored under its own key. */
  function WithUrl(store: Store, row: Row): Row {
    store.WithSlug(row.(url := UrlOfRow(store.bucket, row)))
  }

  function Renamed(store: Store, rows: Rows, id: nat, name: string): Rows
    requires id in rows
  {
    rows[id := WithUrl(store, rows[id].(name := name))]
  }

  /** A row was renamed and its object moved. */
  ghost predicate RowRenamed(store: Store, rows: Rows, objects: Objects, rows': Rows, objects': Objects, id: nat, name: string)
    requires id in rows
  {
    && KeyOfRow(rows[id]) in objects
    && rows' == Renamed(store, rows, id, name)
    && objects' == MovedObjects(objects, KeyOfRow(rows[id]), KeyOfRow(rows[id].(name := name)), true)
  }

  /** A row's object was copied under the key of the other row, and then deleted or not. */
  ghost predicate ObjectMoved(objects: Objects, objects': Objects, from: Row, to: Row, removed: bool) {
    Movable(from, to) && KeyOfRow(from) in objects && objects' == MovedObjects(objects, KeyOfRow(from), KeyOfRow(to), removed)
  }

  /** A row's object was moved under the key of the other row, wherever that is possible. */
  ghost predicate MovedIfMovable(objects: Objects, objects': Objects, from: Row, to: Row) {
    if Movable(from, to) then ObjectMoved(objects, objects', from, to, true) else objects' == objects
  }

  // The operations. `broken` reports that a row could not be written after its object was. In a
  // reliable store each says exactly when that happens; in any store it means that a row write failed.

  /** Stores an uploaded object under the record's group and name, and then the record. */
  method Upload(store: Store, database: Database, content: Content) returns (r: Outcome<nat>, broken: bool)
    requires Consistent(store) && PlainGroup(database.row.groupName) && Clean(database.row.name)
    modifies store
    ensures store.Valid() && (!broken ==> Consistent(store)) && store.locks == old(store.locks)
    ensures r.Done? ==> !broken && r.value in store.rows && store.objects == old(store.objects)[KeyOfRow(database.row) := content]
    ensures r.Done? ==>
              var row := database.row;
              store.rows == old(store.rows)[r.value := row.(url := "s3://" + store.bucket + "/" + row.groupName + "/" + row.name,
                                                            slug := store.slugOf(row.groupName, row.name), size := |content|)]
    ensures r.Failed? ==> store.rows == old(store.rows) && (!broken ==> store.objects == old(store.objects))
    ensures broken ==> store.objects == old(store.objects)[KeyOfRow(database.row) := content]
    ensures NoOtherHas(old(store.rows), database.id, database.row.groupName, database.row.name) ==>
              Kept(old(store.rows), old(store.objects), store.objects, {database.id})
    ensures store.failures.writes >= old(store.failures).writes && (broken ==> r.Failed? && store.failures.writes > old(store.failures).writes)
    ensures store.reliable ==> (broken <==> !old(store.Free(database.id, database.row))) && (r.Done? <==> !broken)
  {
    NothingTouched(store.bucket, store.rows, store.objects);
    UrlIs(store.bucket, database.row.groupName, database.row.name);
    hide Linked, WellFormed, ObjectKey, ObjectUrl, NameFree, Kept, NoOtherHas;
    var key := ObjectKey(database.row.groupName, database.row.name);
    LinkedWithObject(store.bucket, store.rows, store.objects, database.row.groupName, database.row.name, content);
    var put := store.PutObject(key, content);
    if put.Failed? {
      return Failed(put.error), false;
    }
    if NoOtherHas(store.rows, database.id, database.row.groupName, database.row.name) {
      KeptByPut(store.bucket, store.rows, old(store.objects), database.id, database.row.groupName, database.row.name, content);
    }
    var row := database.row.(url := ObjectUrl(store.bucket, key), size := |content|);
    if database.id == 0 {
      r := store.Insert(row);
    } else {
      var saved := store.Upsert(database.id, row);
      r := if saved.Done? then Done(database.id) else Failed(saved.error);
    }
    if r.Failed? {
      return r, true;
    }
    LinkedWithRow(store.bucket, old(store.rows), store.objects, r.value, store.WithSlug(row));
    return r, false;
  }

  ghost predicate Unreferenced(rows: Rows, id: nat) {
    forall k :: k in rows ==> rows[k].filestoreId != id
  }

  /** Every row is still there as it was. */
  ghost predicate Extends(rows: Rows, rows': Rows) {
    forall id :: id in rows ==> id in rows' && rows'[id] == rows[id]
  }

  /** Copies a row's object under another record's group and name, and stores that record. */
  method CopyInto(store: Store, source: Database, row: Row) returns (r: Outcome<nat>, broken: bool)
    requires Consistent(store) && Current(store, source) && PlainGroup(row.groupName) && Clean(row.name)
    modifies store
    ensures store.Valid() && (!broken ==> Consistent(store)) && store.locks == old(store.locks)
    ensures r.Done? ==> !broken && r.value !in old(store.rows) && r.value != 0 && store.rows == old(store.rows)[r.value := WithUrl(store, row)]
    ensures r.Done? ==> NameFree(store.slugOf, old(store.rows), 0, row.groupName, row.name)
    ensures r.Done? ==> Unreferenced(old(store.rows), r.value)
    ensures r.Done? || broken ==>
              Movable(source.row, row) && KeyOfRow(source.row) in old(store.objects) &&
              store.objects == old(store.objects)[KeyOfRow(row) := old(store.objects)[KeyOfRow(source.row)]]
    ensures r.Failed? ==> store.rows == old(store.rows) && (!broken ==> store.objects == old(store.objects))
    ensures NoOtherHas(old(store.rows), 0, row.groupName, row.name) ==> Kept(old(store.rows), old(store.objects), store.objects, {})
    ensures store.failures.writes >= old(store.failures).writes && (broken ==> store.failures.writes > old(store.failures).writes)
    ensures store.reliable ==> (r.Done? <==> CopySucceeds(store, old(store.rows), source.row, row))
    ensures store.reliable ==> (broken <==> CopyBreaks(store, old(store.rows), source.row, row))
  {
    LinkedKey(store.bucket, source.row, store.objects);
    NothingTouched(store.bucket, store.rows, store.objects);
    StoredNamesAreUnique(store);
    assert "" !in store.objects;
    assert source.row.url != "" ==> KeyOfRow(source.row) in store.objects;
    hide Linked, LinkedRow, Store.Valid, ObjectKey, ObjectUrl, KeyOf, UniqueNames, Clean, PlainGroup, NameFree, Kept, NoOtherHas;
    var key := KeyOf(source.row.url);
    if key.Err? {
      return Failed(Malformed), false;
    }
    var destination := ObjectKey(row.groupName, row.name);
    var copied := store.CopyObject(key.value, destination);
    if copied.Failed? {
      return Failed(copied.error), false;
    }
    if NoOtherHas(store.rows, 0, row.groupName, row.name) {
      KeptByPut(store.bucket, store.rows, old(store.objects), 0, row.groupName, row.name, old(store.objects)[key.value]);
      ZeroIsNoRow(store.rows, old(store.objects), store.objects);
    }
    LinkedWithObject(store.bucket, store.rows, old(store.objects), row.groupName, row.name, old(store.objects)[key.value]);
    r := store.Insert(row.(url := ObjectUrl(store.bucket, destination)));
    if r.Failed? {
      return r, true;
    }
    StoredIsLinked(store, row, store.objects);
    LinkedWithRow(store.bucket, old(store.rows), store.objects, r.value, WithUrl(store, row));
    return r, false;
  }

  lemma StoredIsLinked(store: Store, row: Row, objects: Objects)
    requires PlainGroup(row.groupName) && Clean(row.name) && KeyOfRow(row) in objects
    ensures LinkedRow(store.bucket, WithUrl(store, row), objects)
  {}

  /** Moves a row's object under a new name and renames the row. */
  method MoveTo(store: Store, database: Database, name: string) returns (r: Outcome<()>, broken: bool)
    requires Consistent(store) && Current(store, database) && Clean(name)
    modifies store
    ensures store.Valid() && (!broken ==> Consistent(store)) && store.locks == old(store.locks)
    ensures r.Done? ==> !broken && RowRenamed(store, old(store.rows), old(store.objects), store.rows, store.objects, database.id, name)
    ensures r.Done? ==> MoveSucceeds(store, old(store.rows), database.id, name)
    ensures r.Done? ==> Kept(old(store.rows), old(store.objects), store.objects, {database.id})
    ensures r.Failed? ==> store.rows == old(store.rows)
    ensures broken ==> ObjectMoved(old(store.objects), store.objects, database.row, database.row.(name := name), true)
    ensures broken ==>
              var from, to := KeyOfRow(database.row), KeyOfRow(database.row.(name := name));
              from in old(store.objects) && store.objects == old(store.objects)[to := old(store.objects)[from]] - {from}
    ensures r.Failed? && !broken ==>
              store.objects == old(store.objects) || ObjectMoved(old(store.objects), store.objects, database.row, database.row.(name := name), false)
    ensures NoOtherHas(old(store.rows), database.id, database.row.groupName, name) ==>
              Kept(old(store.rows), old(store.objects), store.objects, {database.id})
    ensures store.failures.writes >= old(store.failures).writes && (broken ==> store.failures.writes > old(store.failures).writes)
    ensures store.reliable ==> (r.Done? <==> MoveSucceeds(store, old(store.rows), database.id, name))
    ensures store.reliable ==> (broken <==> MoveBreaks(store, old(store.rows), database.id, name))
    ensures store.reliable ==> MovedIfMovable(old(store.objects), store.objects, database.row, database.row.(name := name))
  {
    LinkedKey(store.bucket, database.row, store.objects);
    NothingTouched(store.bucket, store.rows, store.objects);
    StoredNamesAreUnique(store);
    assert "" !in store.objects;
    assert PlainGroup(database.row.groupName);
    assert database.row.url != "" ==> KeyOfRow(database.row) in store.objects;
    hide Linked, LinkedRow, Store.Valid, ObjectKey, ObjectUrl, KeyOf, Kept, NoOtherHas, UniqueNames, Clean, PlainGroup, NameFree;
    var key := KeyOf(database.row.url);
    if key.Err? {
      return Failed(Malformed), false;
    }
    var destination := ObjectKey(database.row.groupName, name);
    ghost var objects := store.objects;
    var moved;
    var copied;
    moved, copied := store.MoveObject(key.value, destination);
    assert copied ==> ObjectMoved(objects, store.objects, database.row, database.row.(name := name), moved.Done?);
    hide ObjectMoved, MovedObjects;
    if copied {
      LinkedWithObject(store.bucket, store.rows, objects, database.row.groupName, name, objects[key.value]);
      if NoOtherHas(store.rows, database.id, database.row.groupName, name) {
        KeptByMove(store.bucket, store.rows, objects, database.id, name, moved.Done?);
      }
    }
    if moved.Failed? {
      return Failed(moved.error), false;
    }
    var row := database.row.(name := name, url := ObjectUrl(store.bucket, destination));
    r := store.Upsert(database.id, row);
    if r.Failed? {
      return r, true;
    }
    FreeMeansNoOther(store.slugOf, old(store.rows), database.id, database.row.groupName, name);
    LinkedAfterMove(store.bucket, old(store.rows), objects, database.id, WithUrl(store, database.row.(name := name)));
    return r, false;
  }

  lemma KeptByMove(bucket: string, rows: Rows, objects: Objects, id: nat, name: string, removed: bool)
    requires Linked(bucket, rows, objects) && UniqueNames(rows) && id in rows && NoOtherHas(rows, id, rows[id].groupName, name)
    requires KeyOfRow(rows[id]) in objects
    ensures Kept(rows, objects, MovedObjects(objects, KeyOfRow(rows[id]), KeyOfRow(rows[id].(name := name)), removed), {id})
  {
    var key, destination := KeyOfRow(rows[id]), KeyOfRow(rows[id].(name := name));
    var copied := objects[destination := objects[key]];
    TouchingOneKey(bucket, rows, objects, copied, id, rows[id].groupName, name);
    LinkedWithObject(bucket, rows, objects, rows[id].groupName, name, objects[key]);
    OwnSlot(rows, id);
    TouchingOneKey(bucket, rows, copied, MovedObjects(objects, key, destination, removed), id, rows[id].groupName, rows[id].name);
    KeptTwice(rows, objects, {id}, rows, copied, MovedObjects(objects, key, destination, removed), {id});
  }

  lemma KeptByRemoval(bucket: string, rows: Rows, objects: Objects, id: nat)
    requires Linked(bucket, rows, objects) && UniqueNames(rows) && id in rows
    ensures Kept(rows, objects, objects - {KeyOfRow(rows[id])}, {id})
  {
    OwnSlot(rows, id);
    TouchingOneKey(bucket, rows, objects, objects - {KeyOfRow(rows[id])}, id, rows[id].groupName, rows[id].name);
  }

  /** The key of the row's object, if the row has one. */
  function OwnKeys(row: Row): set<string> {
    if row.url == "" then {} else {KeyOfRow(row)}
  }

  /** A row can go together with its object. */
  lemma WithoutRow(bucket: string, rows: Rows, objects: Objects, id: nat)
    requires BucketName(bucket) && Linked(bucket, rows, objects) && UniqueNames(rows) && id in rows
    ensures KeyOf(rows[id].url).Ok? && (KeyOf(rows[id].url).value == "" <==> rows[id].url == "")
    ensures OwnKeys(rows[id]) == if rows[id].url == "" then {} else {KeyOf(rows[id].url).value}
    ensures Linked(bucket, rows - {id}, objects - OwnKeys(rows[id]))
    ensures objects - {} == objects
  {
    assert LinkedRow(bucket, rows[id], objects);
    LinkedKey(bucket, rows[id], objects);
    KeyIsNotEmpty(rows[id]);
    LinkedWithoutRow(bucket, rows, objects, id);
    LinkedWithout(bucket, rows, objects, id);
    NothingRemoved(objects);
    hide Linked, LinkedRow, UniqueNames, KeyOf, KeyOfRow, BucketName;
  }

  lemma NothingRemoved(objects: Objects)
    ensures objects - {} == objects
  {}

  /** ... and no other row's object is touched. */
  lemma KeptWithoutRow(bucket: string, rows: Rows, objects: Objects, id: nat)
    requires Linked(bucket, rows, objects) && UniqueNames(rows) && id in rows
    ensures Kept(rows, objects, objects, {id}) && Kept(rows, objects, objects - OwnKeys(rows[id]), {id})
  {
    NothingTouched(bucket, rows, objects);
    KeptByRemoval(bucket, rows, objects, id);
    hide Linked, UniqueNames, Kept, KeyOfRow;
    assert objects - {} == objects;
  }

  /** Deletes a row's object, if it has one, and then the row. */
  method Remove(store: Store, database: Database) returns (r: Outcome<()>, broken: bool)
    requires Consistent(store) && Current(store, database)
    modifies store
    ensures store.Valid() && (!broken ==> Consistent(store)) && store.locks == old(store.locks)
    ensures r.Done? ==> !broken && store.rows == old(store.rows) - {database.id} && database.id !in store.locks
    ensures r.Done? || broken ==> store.objects == old(store.objects) - OwnKeys(database.row)
    ensures r.Failed? ==> store.rows == old(store.rows) && (!broken ==> store.objects == old(store.objects))
    ensures Kept(old(store.rows), old(store.objects), store.objects, {database.id})
    ensures store.failures.writes >= old(store.failures).writes && (broken ==> store.failures.writes > old(store.failures).writes)
    ensures store.reliable ==> (r.Done? <==> database.id !in old(store.locks))
    ensures store.reliable ==> (broken <==> database.id in old(store.locks) && database.row.url != "")
  {
    StoredNamesAreUnique(store);
    WithoutRow(store.bucket, store.rows, store.objects, database.id);
    KeptWithoutRow(store.bucket, store.rows, store.objects, database.id);
    hide Linked, LinkedRow, Store.Valid, KeyOfRow, KeyOf, Kept, UniqueNames, OwnKeys;
    var key := KeyOf(database.row.url);
    if key.Err? {
      return Failed(Malformed), false;
    }
    if key.value != "" {
      var deleted := store.DeleteObject(key.value);
      if deleted.Failed? {
        return Failed(deleted.error), false;
      }
    }
    r := store.DeleteRow(database.id);
    broken := r.Failed? && key.value != "";
  }

  lemma KeyIsNotEmpty(row: Row)
    ensures KeyOfRow(row) != ""
  {}

  lemma LinkedWithoutRow(bucket: string, rows: Rows, objects: Objects, id: nat)
    requires Linked(bucket, rows, objects)
    ensures Linked(bucket, rows - {id}, objects)
  {}

  // Names derived from names.

  /** The name a copy gets: it keeps the source's kind of dump. */
  function CopyName(source: string, name: string): string {
    var withPgc := if HasSuffix(source, ".pgc") && !HasSuffix(name, ".pgc") then name + ".pgc" else name;
    if HasSuffix(source, ".sql.gz") && !HasSuffix(withPgc, ".sql.gz") then withPgc + ".sql.gz" else withPgc
  }

  /** A dump's name without its extension. */
  function BaseName(name: string): string {
    TrimSuffix(TrimSuffix(name, ".pgc"), ".sql.gz")
  }

  /** The name of the file store that is copied with a database. */
  function CopiedFileStoreName(name: string): string {
    BaseName(name) + ".fs.tar.gz"
  }

  /** The name of the file store that is renamed with a database. */
  function RenamedFileStoreName(name: string): string {
    BaseName(name) + "-fs.tar.gz"
  }

  /** A copy's name is the given one, with the source's extension if it lacks that. */
  lemma CopyNameIs(source: string, name: string)
    ensures name <= CopyName(source, name)
    ensures HasSuffix(source, ".pgc") ==> HasSuffix(CopyName(source, name), ".pgc")
    ensures HasSuffix(source, ".sql.gz") ==> HasSuffix(CopyName(source, name), ".sql.gz")
    ensures CopyName(source, name) == name + ".pgc" <==> HasSuffix(source, ".pgc") && !HasSuffix(name, ".pgc")
    ensures CopyName(source, name) == name + ".sql.gz" <==> HasSuffix(source, ".sql.gz") && !HasSuffix(name, ".sql.gz")
    ensures CopyName(source, name) in {name, name + ".pgc", name + ".sql.gz"}
  {
    assert HasSuffix(source, ".pgc") ==> source[|source| - 1] == ".pgc"[3];
    assert HasSuffix(source, ".sql.gz") ==> source[|source| - 1] == ".sql.gz"[6];
    assert HasSuffix(name + ".pgc", ".pgc") && HasSuffix(name + ".sql.gz", ".sql.gz");
    assert |name| != |name + ".pgc"| && |name| != |name + ".sql.gz"|;
  }

  /** A dump's name without its extension: that of a plain dump, of a custom one, or both in this order. */
  function Stem(name: string): string {
    if HasSuffix(name, ".sql.gz.pgc") then name[..|name| - 11]
    else if HasSuffix(name, ".pgc") then name[..|name| - 4]
    else if HasSuffix(name, ".sql.gz") then name[..|name| - 7]
    else name
  }

  lemma BaseIsStem(name: string)
    ensures BaseName(name) == Stem(name)
  {
    assert ".sql.gz" + ".pgc" == ".sql.gz.pgc";
    SuffixInTwoParts(name, ".sql.gz", ".pgc");
  }

  lemma SuffixInTwoParts(s: string, a: string, b: string)
    ensures HasSuffix(s, a + b) <==> HasSuffix(s, b) && HasSuffix(s[..|s| - |b|], a)
  {
    if |a + b| <= |s| {
      var init, last := s[..|s| - |b|], s[|s| - |b|..];
      var middle := init[|init| - |a|..];
      assert s[|s| - |a + b|..] == middle + last;
      assert (a + b)[..|a|] == a && (a + b)[|a|..] == b && (middle + last)[..|a|] == middle && (middle + last)[|a|..] == last;
    }
  }

  lemma {:induction false} CleanParts(s: string, t: string)
    ensures Clean(s) && Clean(t) ==> Clean(s + t)
    ensures Clean(s + t) ==> Clean(s)
  {}

  lemma DerivedNamesAreClean(source: string, name: string)
    requires Clean(name)
    ensures Clean(CopyName(source, name)) && Clean(CopiedFileStoreName(name)) && Clean(RenamedFileStoreName(name))
  {
    assert Clean(".pgc") && Clean(".sql.gz") && Clean(".fs.tar.gz") && Clean("-fs.tar.gz");
    CleanParts(name, ".pgc");
    CleanParts(name, ".sql.gz");
    CleanParts(name + ".pgc", ".sql.gz");
    TrimmedIsClean(name, ".pgc");
    TrimmedIsClean(TrimSuffix(name, ".pgc"), ".sql.gz");
    CleanParts(BaseName(name), ".fs.tar.gz");
    CleanParts(BaseName(name), "-fs.tar.gz");
  }

  lemma TrimmedIsClean(s: string, suffix: string)
    requires Clean(s)
    ensures Clean(TrimSuffix(s, suffix))
  {}

  // File stores.

  /** The record of a file store that is copied next to a database. */
  function FileStoreCopy(database: Row, now: nat): Row {
    Row(CopiedFileStoreName(database.name), database.groupName, "", "", "", "fs", now, 0, 0, 0)
  }

  /** A file store was copied next to a database: a new row has its content, and the database refers
      to that row. */
  ghost predicate FileStoreCopied(store: Store, rows: Rows, objects: Objects, rows': Rows, objects': Objects, id: nat, filestoreId: nat, now: nat)
    requires id in rows && filestoreId in rows
  {
    var fs, copy := rows[filestoreId], FileStoreCopy(rows[id], now);
    && id in rows' && fs.url != "" && KeyOfRow(fs) in objects
    && var copyId := rows'[id].filestoreId;
       && copyId !in rows && copyId != 0
       && rows' == rows[copyId := WithUrl(store, copy)][id := rows[id].(filestoreId := copyId)]
       && objects' == objects[KeyOfRow(copy) := objects[KeyOfRow(fs)]]
  }

  /** Copies a file store next to a copied database and links the two: the new row has the file
      store's content, and the database refers to it. A missing file store is no error. */
  method CopyFileStore(store: Store, id: nat, filestoreId: nat, now: nat) returns (r: Outcome<()>, broken: bool)
    requires Consistent(store) && id in store.rows && id != 0
    modifies store
    ensures store.Valid() && (!broken ==> Consistent(store)) && store.locks == old(store.locks)
    ensures r.Done? ==> !broken
    ensures filestoreId !in old(store.rows) ==> store.rows == old(store.rows) && store.objects == old(store.objects)
    ensures id in store.rows
    ensures r.Done? && filestoreId in old(store.rows) ==>
              FileStoreCopied(store, old(store.rows), old(store.objects), store.rows, store.objects, id, filestoreId, now)
    ensures Extends(old(store.rows) - {id}, store.rows)
    ensures NoOtherHas(old(store.rows), 0, old(store.rows)[id].groupName, CopiedFileStoreName(old(store.rows)[id].name)) ==>
              Kept(old(store.rows), old(store.objects), store.objects, {})
    ensures store.failures.writes >= old(store.failures).writes && (broken ==> store.failures.writes > old(store.failures).writes)
    ensures store.reliable ==>
              (r.Done? <==> (filestoreId !in old(store.rows)
                             || CopySucceeds(store, old(store.rows), old(store.rows)[filestoreId], FileStoreCopy(old(store.rows)[id], now))))
    ensures store.reliable ==>
              (broken <==> (filestoreId in old(store.rows)
                            && CopyBreaks(store, old(store.rows), old(store.rows)[filestoreId], FileStoreCopy(old(store.rows)[id], now))))
  {
    ghost var rows, objects := store.rows, store.objects;
    LinkedNames(store, id);
    NothingTouched(store.bucket, rows, objects);
    ExtendsWithout(rows, id);
    hide Linked, Store.Valid, LinkedRow, KeyOfRow, CopiedFileStoreName, Kept, NoOtherHas, NameFree, Unreferenced, Extends, FileStoreCopied,
      CopySucceeds, CopyBreaks, WithUrl, WellFormed, Clash;
    var fs := store.FindById(filestoreId);
    if fs.Failed? {
      return if fs.error.NotFound? then Done(()) else Failed(fs.error), false;
    }
    var row := store.rows[id];
    DerivedNamesAreClean(row.name, row.name);
    var copied;
    copied, broken := CopyInto(store, fs.value, FileStoreCopy(row, now));
    if copied.Failed? {
      return Failed(copied.error), broken;
    }
    CopiedNextTo(store, rows, objects, id, filestoreId, copied.value, now);
    r := LinkFileStore(store, id, copied.value);
    broken := r.Failed?;
  }

  lemma ExtendsWithout(rows: Rows, id: nat)
    ensures Extends(rows - {id}, rows)
  {}

  lemma CopiedNextTo(store: Store, rows: Rows, objects: Objects, id: nat, filestoreId: nat, copyId: nat, now: nat)
    requires id in rows && filestoreId in rows && copyId !in rows && copyId != 0
    requires rows[filestoreId].url != "" && KeyOfRow(rows[filestoreId]) in objects
    ensures var copy := FileStoreCopy(rows[id], now);
            var rows1, objects1 := rows[copyId := WithUrl(store, copy)], objects[KeyOfRow(copy) := objects[KeyOfRow(rows[filestoreId])]];
            var rows2 := rows1[id := rows[id].(filestoreId := copyId)];
            && id in rows1 && rows1[id] == rows[id]
            && FileStoreCopied(store, rows, objects, rows2, objects1, id, filestoreId, now)
            && Extends(rows - {id}, rows1) && Extends(rows - {id}, rows2)
  {
    hide WithUrl, KeyOfRow, FileStoreCopy;
  }

  /** Lets a database refer to a file store. */
  method LinkFileStore(store: Store, id: nat, filestoreId: nat) returns (r: Outcome<()>)
    requires Consistent(store) && id in store.rows
    modifies store
    ensures Consistent(store) && store.locks == old(store.locks) && store.objects == old(store.objects)
    ensures store.rows == if r.Done? then old(store.rows)[id := old(store.rows)[id].(filestoreId := filestoreId)] else old(store.rows)
    ensures store.failures.writes >= old(store.failures).writes && (r.Failed? ==> store.failures.writes > old(store.failures).writes)
    ensures store.reliable ==> r.Done?
  {
    SlotIsOwn(store, id);
    StoredIdsArePositive(store, id);
    LinkedRowStays(store, id, filestoreId);
    LinkedWithRow(store.bucket, store.rows, store.objects, id, store.WithSlug(store.rows[id].(filestoreId := filestoreId)));
    hide Linked, LinkedRow, Store.Valid, NameFree;
    r := store.Upsert(id, store.rows[id].(filestoreId := filestoreId));
  }

  lemma LinkedRowStays(store: Store, id: nat, filestoreId: nat)
    requires Consistent(store) && id in store.rows
    ensures LinkedRow(store.bucket, store.WithSlug(store.rows[id].(filestoreId := filestoreId)), store.objects)
  {}

  lemma LinkedNames(store: Store, id: nat)
    requires Consistent(store) && id in store.rows
    ensures PlainGroup(store.rows[id].groupName) && Clean(store.rows[id].name)
  {}

  /** Renames the file store after its database. A missing file store is no error. */
  method RenameFileStore(store: Store, filestoreId: nat, name: string) returns (r: Outcome<()>, broken: bool)
    requires Consistent(store) && Clean(name)
    modifies store
    ensures store.Valid() && (!broken ==> Consistent(store)) && store.locks == old(store.locks)
    ensures r.Done? ==> !broken
    ensures r.Failed? || filestoreId !in old(store.rows) ==> store.rows == old(store.rows)
    ensures filestoreId !in old(store.rows) ==> store.objects == old(store.objects)
    ensures r.Done? && filestoreId in old(store.rows) ==>
              RowRenamed(store, old(store.rows), old(store.objects), store.rows, store.objects, filestoreId, RenamedFileStoreName(name))
    ensures (filestoreId in old(store.rows) ==>
               NoOtherHas(old(store.rows), filestoreId, old(store.rows)[filestoreId].groupName, RenamedFileStoreName(name))) ==>
              Kept(old(store.rows), old(store.objects), store.objects, {filestoreId})
    ensures store.failures.writes >= old(store.failures).writes && (broken ==> store.failures.writes > old(store.failures).writes)
    ensures store.reliable ==>
              (r.Done? <==> (filestoreId !in old(store.rows) || MoveSucceeds(store, old(store.rows), filestoreId, RenamedFileStoreName(name))))
    ensures store.reliable ==>
              (broken <==> (filestoreId in old(store.rows) && MoveBreaks(store, old(store.rows), filestoreId, RenamedFileStoreName(name))))
  {
    NothingTouched(store.bucket, store.rows, store.objects);
    hide Linked, LinkedRow, Store.Valid, Kept, NoOtherHas, UniqueNames, RenamedFileStoreName, NameFree, RowRenamed, MoveSucceeds, MoveBreaks;
    var fs := store.FindById(filestoreId);
    if fs.Failed? {
      return if fs.error.NotFound? then Done(()) else Failed(fs.error), false;
    }
    DerivedNamesAreClean(name, name);
    r, broken := MoveTo(store, fs.value, RenamedFileStoreName(name));
  }

  // Whole databases.

  lemma FileStoreNameDiffers(name: string)
    ensures CopiedFileStoreName(name) != name
  {
    assert |BaseName(name)| + 10 != |name|;
  }

  predicate FileStoreCopies(store: Store, rows: Rows, fs: Row, target: Row, now: nat) {
    var copy := FileStoreCopy(target, now);
    CopySucceeds(store, rows, fs, copy) && store.slugOf(copy.groupName, copy.name) != store.slugOf(target.groupName, target.name)
  }

  predicate FileStoreCopyBreaks(store: Store, rows: Rows, fs: Row, target: Row, now: nat) {
    Movable(fs, FileStoreCopy(target, now)) && !FileStoreCopies(store, rows, fs, target, now)
  }

  /** What is free once a database has been copied. */
  lemma FileStoreAfterCopy(store: Store, rows: Rows, id: nat, target: Row, fs: Row, now: nat)
    requires id !in rows && id != 0
    ensures var rows1, copy := rows[id := WithUrl(store, target)], FileStoreCopy(target, now);
            && FileStoreCopy(WithUrl(store, target), now) == copy
            && (CopySucceeds(store, rows1, fs, copy) <==> FileStoreCopies(store, rows, fs, target, now))
            && (CopyBreaks(store, rows1, fs, copy) <==> FileStoreCopyBreaks(store, rows, fs, target, now))
            && (NoOtherHas(rows1, 0, copy.groupName, copy.name) <==> NoOtherHas(rows, 0, copy.groupName, copy.name))
  {
    FileStoreNameDiffers(target.name);
    hide CopiedFileStoreName;
    var rows1, copy := rows[id := WithUrl(store, target)], FileStoreCopy(target, now);
    forall other | other in rows
      ensures rows1[other] == rows[other]
    {}
    assert rows1[id] == WithUrl(store, target);
  }

  /** The record that a copy of a database is stored as. */
  function CopyOf(source: Row, row: Row): Row {
    row.(name := CopyName(source.name, row.name))
  }

  predicate DatabaseCopies(store: Store, rows: Rows, source: Row, target: Row, now: nat) {
    && CopySucceeds(store, rows, source, target)
    && (source.filestoreId in rows ==> FileStoreCopies(store, rows, rows[source.filestoreId], target, now))
  }

  predicate DatabaseCopyBreaks(store: Store, rows: Rows, source: Row, target: Row, now: nat) {
    || CopyBreaks(store, rows, source, target)
    || (CopySucceeds(store, rows, source, target) && source.filestoreId in rows
        && FileStoreCopyBreaks(store, rows, rows[source.filestoreId], target, now))
  }

  /** No row has the names that the copies get. */
  predicate CopyNamesFree(rows: Rows, target: Row) {
    && NoOtherHas(rows, 0, target.groupName, target.name)
    && NoOtherHas(rows, 0, target.groupName, CopiedFileStoreName(target.name))
  }

  /** The copy has the source's content under its own name, and so has the copy of the file store, to
      which it refers; nothing else changed. */
  ghost predicate DatabaseCopied(store: Store, rows: Rows, objects: Objects, rows': Rows, objects': Objects, id: nat, target: Row, copyId: nat, now: nat)
    requires id in rows
  {
    var source, rows1 := rows[id], rows[copyId := WithUrl(store, target)];
    && copyId !in rows && KeyOfRow(source) in objects
    && var objects1 := objects[KeyOfRow(target) := objects[KeyOfRow(source)]];
       if source.filestoreId !in rows then rows' == rows1 && objects' == objects1
       else
         && FileStoreCopied(store, rows1, objects1, rows', objects', copyId, source.filestoreId, now)
         && KeyOfRow(rows[source.filestoreId]) in objects
         && objects1[KeyOfRow(rows[source.filestoreId])] == objects[KeyOfRow(rows[source.filestoreId])]
  }

  /** What the copies of the database and of its file store amount to. */
  lemma OnceBothCopied(store: Store, rows: Rows, objects: Objects, rows': Rows, objects': Objects, id: nat, target: Row, copyId: nat, now: nat)
    requires id in rows && copyId !in rows && copyId != rows[id].filestoreId && KeyOfRow(rows[id]) in objects
    requires var rows1, objects1 := rows[copyId := WithUrl(store, target)], objects[KeyOfRow(target) := objects[KeyOfRow(rows[id])]];
             Kept(rows, objects, objects1, {}) && Extends(rows1 - {copyId}, rows')
    ensures Extends(rows, rows')
    ensures var rows1, objects1 := rows[copyId := WithUrl(store, target)], objects[KeyOfRow(target) := objects[KeyOfRow(rows[id])]];
            && (Kept(rows1, objects1, objects', {}) ==> Kept(rows, objects, objects', {}))
            && ((if rows[id].filestoreId !in rows1 then rows' == rows1 && objects' == objects1
                 else FileStoreCopied(store, rows1, objects1, rows', objects', copyId, rows[id].filestoreId, now)) ==>
                  DatabaseCopied(store, rows, objects, rows', objects', id, target, copyId, now))
  {
    hide KeyOfRow, WithUrl;
    var rows1, objects1 := rows[copyId := WithUrl(store, target)], objects[KeyOfRow(target) := objects[KeyOfRow(rows[id])]];
    ExtendedTwice(rows, copyId, WithUrl(store, target), rows');
    if Kept(rows1, objects1, objects', {}) {
      KeptTwice(rows, objects, {}, rows1, objects1, objects', {});
    }
  }

  lemma ExtendedTwice(rows: Rows, id: nat, row: Row, rows': Rows)
    requires id !in rows && Extends(rows[id := row] - {id}, rows')
    ensures Extends(rows, rows')
  {
    assert forall other :: other in rows ==> other in rows[id := row] - {id};
  }

  lemma NothingReplaced(rows: Rows, id: nat, row: Row)
    ensures Extends(rows, rows) && (id !in rows ==> Extends(rows, rows[id := row]))
  {}

  /** If the database itself cannot be copied, that decides the outcome. */
  lemma VerdictAlone(store: Store, rows: Rows, source: Row, target: Row, now: nat)
    ensures DatabaseCopies(store, rows, source, target, now) ==> CopySucceeds(store, rows, source, target)
    ensures !CopySucceeds(store, rows, source, target) ==>
              (DatabaseCopyBreaks(store, rows, source, target, now) <==> CopyBreaks(store, rows, source, target))
    ensures CopyNamesFree(rows, target) ==> NoOtherHas(rows, 0, target.groupName, target.name)
  {}

  /** Otherwise the file store decides, once the copy is stored. */
  lemma VerdictTogether(store: Store, rows: Rows, source: Row, target: Row, copyId: nat, now: nat)
    requires copyId !in rows && copyId != 0 && copyId != source.filestoreId && CopySucceeds(store, rows, source, target)
    ensures var rows1 := rows[copyId := WithUrl(store, target)];
            var copy := FileStoreCopy(rows1[copyId], now);
            && (DatabaseCopies(store, rows, source, target, now) <==>
                  source.filestoreId !in rows1 || CopySucceeds(store, rows1, rows1[source.filestoreId], copy))
            && (DatabaseCopyBreaks(store, rows, source, target, now) <==>
                  source.filestoreId in rows1 && CopyBreaks(store, rows1, rows1[source.filestoreId], copy))
            && (CopyNamesFree(rows, target) ==> NoOtherHas(rows1, 0, rows1[copyId].groupName, CopiedFileStoreName(rows1[copyId].name)))
  {
    FileStoreAfterCopy(store, rows, copyId, target, if source.filestoreId in rows then rows[source.filestoreId] else source, now);
    assert CopySucceeds(store, rows, source, target) ==> !CopyBreaks(store, rows, source, target);
    hide FileStoreCopies, FileStoreCopyBreaks, CopySucceeds, CopyBreaks, NoOtherHas;
  }

  /** Copies a database as the given record, and then its file store, if it has one. */
  method CopyBoth(store: Store, source: Database, target: Row, now: nat) returns (r: Outcome<nat>, broken: bool)
    requires Consistent(store) && Current(store, source) && PlainGroup(target.groupName) && Clean(target.name)
    modifies store
    ensures store.Valid() && (!broken ==> Consistent(store)) && store.locks == old(store.locks)
    ensures forall k :: k in old(store.rows) ==> k in store.rows && store.rows[k] == old(store.rows)[k]
    ensures r.Done? ==> !broken && DatabaseCopied(store, old(store.rows), old(store.objects), store.rows, store.objects, source.id, target, r.value, now)
    ensures CopyNamesFree(old(store.rows), target) ==> Kept(old(store.rows), old(store.objects), store.objects, {})
    ensures store.failures.writes >= old(store.failures).writes && (broken ==> store.failures.writes > old(store.failures).writes)
    ensures store.reliable ==> (r.Done? <==> DatabaseCopies(store, old(store.rows), source.row, target, now))
    ensures store.reliable ==> (broken <==> DatabaseCopyBreaks(store, old(store.rows), source.row, target, now))
  {
    ghost var rows, objects := store.rows, store.objects;
    NothingReplaced(rows, 0, target);
    VerdictAlone(store, rows, source.row, target, now);
    hide Linked, Store.Valid, LinkedRow, Kept, NoOtherHas, NameFree, KeyOfRow, WithUrl, DatabaseCopied, CopySucceeds, CopyBreaks,
      DatabaseCopies, DatabaseCopyBreaks, CopyNamesFree, FileStoreCopied, FileStoreCopy, Extends, Unreferenced, Clash, WellFormed;
    r, broken := CopyInto(store, source, target);
    if r.Failed? {
      return;
    }
    OnceCopied(store, rows, source.id, target, r.value, now);
    var fs;
    fs, broken := CopyFileStore(store, r.value, source.row.filestoreId, now);
    OnceBothCopied(store, rows, objects, store.rows, store.objects, source.id, target, r.value, now);
    if fs.Failed? {
      r := Failed(fs.error);
    }
  }

  /** Where things stand once the database itself is copied. */
  lemma OnceCopied(store: Store, rows: Rows, id: nat, target: Row, copyId: nat, now: nat)
    requires id in rows && copyId !in rows && copyId != 0 && Unreferenced(rows, copyId)
    requires Movable(rows[id], target) && NameFree(store.slugOf, rows, 0, target.groupName, target.name)
    ensures NoOtherHas(rows, 0, target.groupName, target.name) && rows[id].filestoreId != copyId
    ensures Extends(rows, rows[copyId := WithUrl(store, target)])
    ensures var rows1, source := rows[copyId := WithUrl(store, target)], rows[id];
            var copy := FileStoreCopy(rows1[copyId], now);
            && (DatabaseCopies(store, rows, source, target, now) <==>
                  source.filestoreId !in rows1 || CopySucceeds(store, rows1, rows1[source.filestoreId], copy))
            && (DatabaseCopyBreaks(store, rows, source, target, now) <==>
                  source.filestoreId in rows1 && CopyBreaks(store, rows1, rows1[source.filestoreId], copy))
            && (CopyNamesFree(rows, target) ==> NoOtherHas(rows1, 0, rows1[copyId].groupName, CopiedFileStoreName(rows1[copyId].name)))
  {
    VerdictTogether(store, rows, rows[id], target, copyId, now);
    hide DatabaseCopies, DatabaseCopyBreaks, CopyNamesFree, CopySucceeds, CopyBreaks, FileStoreCopy, WithUrl;
  }

  /** What the row of a copy holds: what was given, but that its name has the source's extension, and
      what follows from the name. */
  ghost predicate IsCopy(store: Store, source: Row, given: Row, copy: Row) {
    && copy == given.(name := copy.name, filestoreId := copy.filestoreId, slug := store.slugOf(given.groupName, copy.name),
                      url := "s3://" + store.bucket + "/" + given.groupName + "/" + copy.name)
    && copy.name == given.name + (if HasSuffix(source.name, ".pgc") && !HasSuffix(given.name, ".pgc") then ".pgc"
                                  else if HasSuffix(source.name, ".sql.gz") && !HasSuffix(given.name, ".sql.gz") then ".sql.gz"
                                  else "")
  }

  /** What the row of a copied file store holds. */
  ghost predicate IsFileStoreCopy(store: Store, database: Row, copy: Row, now: nat) {
    copy == Row(Stem(database.name) + ".fs.tar.gz", database.groupName, "",
                "s3://" + store.bucket + "/" + database.groupName + "/" + copy.name,
                store.slugOf(database.groupName, copy.name), "fs", now, 0, 0, 0)
  }

  /** The copies, spelled out: their rows, and that they have the content of what was copied. */
  lemma CopiesAre(store: Store, rows: Rows, objects: Objects, rows': Rows, objects': Objects, id: nat, given: Row, copyId: nat, now: nat)
    requires id in rows && DatabaseCopied(store, rows, objects, rows', objects', id, CopyOf(rows[id], given), copyId, now)
    ensures copyId !in rows && copyId in rows' && IsCopy(store, rows[id], given, rows'[copyId])
    ensures rows[id].groupName + "/" + rows[id].name in objects
    ensures var key, fs := given.groupName + "/" + rows'[copyId].name, rows[id].filestoreId;
            && key in objects' && objects'[key] == objects[rows[id].groupName + "/" + rows[id].name]
            && (fs !in rows ==> rows' == rows[copyId := rows'[copyId]] && rows'[copyId].filestoreId == given.filestoreId)
            && (fs in rows ==>
                  var fs' := rows'[copyId].filestoreId;
                  && fs' !in rows && fs' in rows' && fs' != copyId && IsFileStoreCopy(store, rows'[copyId], rows'[fs'], now)
                  && rows' == rows[copyId := rows'[copyId]][fs' := rows'[fs']]
                  && rows[fs].groupName + "/" + rows[fs].name in objects && given.groupName + "/" + rows'[fs'].name in objects'
                  && objects'[given.groupName + "/" + rows'[fs'].name] == objects[rows[fs].groupName + "/" + rows[fs].name])
  {
    CopyNameIs(rows[id].name, given.name);
    var target := CopyOf(rows[id], given);
    BaseIsStem(target.name);
    FileStoreNameDiffers(target.name);
    KeysDiffer(target.groupName, target.name, CopiedFileStoreName(target.name));
    UrlIs(store.bucket, target.groupName, target.name);
    UrlIs(store.bucket, target.groupName, CopiedFileStoreName(target.name));
    hide CopyName, CopiedFileStoreName, BaseName, Stem, HasSuffix, ObjectKey, ObjectUrl;
  }

  lemma KeysDiffer(groupName: string, a: string, b: string)
    requires a != b
    ensures ObjectKey(groupName, a) != ObjectKey(groupName, b)
    ensures ObjectKey(groupName, a) == groupName + "/" + a
  {
    assert ObjectKey(groupName, a)[|groupName| + 1..] == a && ObjectKey(groupName, b)[|groupName| + 1..] == b;
  }

  lemma UrlIs(bucket: string, groupName: string, name: string)
    ensures ObjectKey(groupName, name) == groupName + "/" + name
    ensures ObjectUrl(bucket, ObjectKey(groupName, name)) == "s3://" + bucket + "/" + groupName + "/" + name
  {
    assert ObjectUrl(bucket, ObjectKey(groupName, name)) == "s3://" + bucket + "/" + groupName + "/" + name;
  }

  /** Copies a database into a new record of a group, and then its file store, if it has one. */
  method Copy(store: Store, id: nat, row: Row, now: nat) returns (r: Outcome<nat>, broken: bool)
    requires Consistent(store) && PlainGroup(row.groupName) && Clean(row.name)
    modifies store
    ensures store.Valid() && (!broken ==> Consistent(store)) && store.locks == old(store.locks)
    ensures forall k :: k in old(store.rows) ==> k in store.rows && store.rows[k] == old(store.rows)[k]
    ensures r.Done? ==> !broken && id in old(store.rows)
    ensures r.Done? ==>
              DatabaseCopied(store, old(store.rows), old(store.objects), store.rows, store.objects, id, CopyOf(old(store.rows)[id], row), r.value, now)
    ensures r.Done? ==> r.value in store.rows && IsCopy(store, old(store.rows)[id], row, store.rows[r.value])
    ensures id !in old(store.rows) ==> store.rows == old(store.rows) && store.objects == old(store.objects)
    ensures id in old(store.rows) && CopyNamesFree(old(store.rows), CopyOf(old(store.rows)[id], row)) ==>
              Kept(old(store.rows), old(store.objects), store.objects, {})
    ensures store.failures.writes >= old(store.failures).writes && (broken ==> store.failures.writes > old(store.failures).writes)
    ensures store.reliable ==>
              (r.Done? <==> id in old(store.rows) && DatabaseCopies(store, old(store.rows), old(store.rows)[id], CopyOf(old(store.rows)[id], row), now))
    ensures store.reliable ==>
              (broken <==> id in old(store.rows) && DatabaseCopyBreaks(store, old(store.rows), old(store.rows)[id], CopyOf(old(store.rows)[id], row), now))
  {
    NothingTouched(store.bucket, store.rows, store.objects);
    hide Linked, Store.Valid, Kept, DatabaseCopied, DatabaseCopies, DatabaseCopyBreaks, CopyNamesFree, CopyName, IsCopy, IsFileStoreCopy;
    ghost var rows, objects := store.rows, store.objects;
    var source := store.FindById(id);
    if source.Failed? {
      return Failed(source.error), false;
    }
    DerivedNamesAreClean(source.value.row.name, row.name);
    r, broken := CopyBoth(store, source.value, CopyOf(source.value.row, row), now);
    if r.Done? {
      CopiesAre(store, rows, objects, store.rows, store.objects, id, row, r.value, now);
    }
  }

  // Renaming.

  predicate DatabaseRenames(store: Store, rows: Rows, id: nat, name: string)
    requires id in rows
  {
    && MoveSucceeds(store, rows, id, name)
    && var fs := rows[id].filestoreId;
       fs in rows ==> MoveSucceeds(store, Renamed(store, rows, id, name), fs, RenamedFileStoreName(name))
  }

  predicate DatabaseRenameBreaks(store: Store, rows: Rows, id: nat, name: string)
    requires id in rows
  {
    || MoveBreaks(store, rows, id, name)
    || (MoveSucceeds(store, rows, id, name) && rows[id].filestoreId in rows
        && MoveBreaks(store, Renamed(store, rows, id, name), rows[id].filestoreId, RenamedFileStoreName(name)))
  }

  /** No other row has the names that the rows get. */
  predicate NewNamesFree(store: Store, rows: Rows, id: nat, name: string)
    requires id in rows
  {
    && NoOtherHas(rows, id, rows[id].groupName, name)
    && var fs, rows1 := rows[id].filestoreId, Renamed(store, rows, id, name);
       fs in rows1 ==> NoOtherHas(rows1, fs, rows1[fs].groupName, RenamedFileStoreName(name))
  }

  /** A database was renamed, and so was its file store, if it has one. */
  ghost predicate DatabaseRenamed(store: Store, rows: Rows, objects: Objects, rows': Rows, objects': Objects, id: nat, name: string)
    requires id in rows
  {
    && KeyOfRow(rows[id]) in objects
    && var rows1 := Renamed(store, rows, id, name);
       var objects1 := MovedObjects(objects, KeyOfRow(rows[id]), KeyOfRow(rows[id].(name := name)), true);
       if rows[id].filestoreId !in rows then rows' == rows1 && objects' == objects1
       else RowRenamed(store, rows1, objects1, rows', objects', rows[id].filestoreId, RenamedFileStoreName(name))
  }

  lemma RenameAlone(store: Store, rows: Rows, id: nat, name: string)
    requires id in rows
    ensures DatabaseRenames(store, rows, id, name) ==> MoveSucceeds(store, rows, id, name)
    ensures !MoveSucceeds(store, rows, id, name) ==> (DatabaseRenameBreaks(store, rows, id, name) <==> MoveBreaks(store, rows, id, name))
    ensures NewNamesFree(store, rows, id, name) ==> NoOtherHas(rows, id, rows[id].groupName, name)
    ensures Renamed(store, rows, id, name).Keys == rows.Keys
    ensures id in Renamed(store, rows, id, name)
  {}

  lemma RenameTogether(store: Store, rows: Rows, objects: Objects, rows1: Rows, objects1: Objects, rows': Rows, objects': Objects, id: nat, name: string)
    requires id in rows && RowRenamed(store, rows, objects, rows1, objects1, id, name) && MoveSucceeds(store, rows, id, name)
    requires Kept(rows, objects, objects1, {id})
    ensures rows1.Keys == rows.Keys
    ensures var fs, fsName := rows[id].filestoreId, RenamedFileStoreName(name);
            && (DatabaseRenames(store, rows, id, name) <==> fs !in rows1 || MoveSucceeds(store, rows1, fs, fsName))
            && (DatabaseRenameBreaks(store, rows, id, name) <==> fs in rows1 && MoveBreaks(store, rows1, fs, fsName))
            && (NewNamesFree(store, rows, id, name) && fs in rows1 ==> NoOtherHas(rows1, fs, rows1[fs].groupName, fsName))
            && (Kept(rows1, objects1, objects', {fs}) || objects' == objects1 ==> Kept(rows, objects, objects', {id, fs}))
            && (rows' == rows1 || (fs in rows1 && RowRenamed(store, rows1, objects1, rows', objects', fs, fsName)) ==> rows'.Keys == rows.Keys)
            && ((if fs !in rows1 then rows' == rows1 && objects' == objects1
                 else RowRenamed(store, rows1, objects1, rows', objects', fs, fsName)) ==>
                  DatabaseRenamed(store, rows, objects, rows', objects', id, name))
  {
    var fs := rows[id].filestoreId;
    assert !MoveBreaks(store, rows, id, name);
    hide MoveSucceeds, MoveBreaks, NoOtherHas, MovedObjects, KeyOfRow, RenamedFileStoreName;
    KeptFewer(rows, objects, objects1, {id}, {id, fs});
    if Kept(rows1, objects1, objects', {fs}) {
      KeptTwice(rows, objects, {id}, rows1, objects1, objects', {fs});
      assert {id} + {fs} == {id, fs};
    }
  }

  lemma KeptFewer(rows: Rows, objects: Objects, objects': Objects, a: set<nat>, b: set<nat>)
    requires a <= b
    ensures Kept(rows, objects, objects', a) ==> Kept(rows, objects, objects', b)
  {}

  /** The row as it is stored under another name. */
  function UnderName(store: Store, row: Row, name: string): Row {
    row.(name := name, slug := store.slugOf(row.groupName, name), url := "s3://" + store.bucket + "/" + row.groupName + "/" + name)
  }

  /** The renaming of one row, spelled out. */
  lemma RenamedIs(store: Store, rows: Rows, objects: Objects, rows': Rows, objects': Objects, id: nat, name: string)
    requires id in rows && RowRenamed(store, rows, objects, rows', objects', id, name)
    ensures rows' == rows[id := UnderName(store, rows[id], name)]
    ensures var from, to := rows[id].groupName + "/" + rows[id].name, rows[id].groupName + "/" + name;
            from in objects && objects' == objects[to := objects[from]] - {from}
  {
    UrlIs(store.bucket, rows[id].groupName, name);
    UrlIs(store.bucket, rows[id].groupName, rows[id].name);
  }

  /** The renaming of a database with its file store, spelled out. */
  lemma RenamesAre(store: Store, rows: Rows, objects: Objects, rows': Rows, objects': Objects, id: nat, name: string)
    requires id in rows && DatabaseRenamed(store, rows, objects, rows', objects', id, name)
    ensures var group := rows[id].groupName;
            var from, to := group + "/" + rows[id].name, group + "/" + name;
            var rows1, fs := rows[id := UnderName(store, rows[id], name)], rows[id].filestoreId;
            && from in objects
            && var objects1 := objects[to := objects[from]] - {from};
               if fs !in rows then rows' == rows1 && objects' == objects1
               else
                 && rows' == rows1[fs := UnderName(store, rows1[fs], Stem(name) + "-fs.tar.gz")]
                 && var fsFrom, fsTo := rows1[fs].groupName + "/" + rows1[fs].name, rows1[fs].groupName + "/" + (Stem(name) + "-fs.tar.gz");
                    fsFrom in objects1 && objects' == objects1[fsTo := objects1[fsFrom]] - {fsFrom}
  {
    var fs, rows1 := rows[id].filestoreId, Renamed(store, rows, id, name);
    var objects1 := MovedObjects(objects, KeyOfRow(rows[id]), KeyOfRow(rows[id].(name := name)), true);
    BaseIsStem(name);
    assert RenamedFileStoreName(name) == Stem(name) + "-fs.tar.gz";
    assert RowRenamed(store, rows, objects, rows1, objects1, id, name);
    assert if fs !in rows then rows' == rows1 && objects' == objects1
           else fs in rows1 && RowRenamed(store, rows1, objects1, rows', objects', fs, RenamedFileStoreName(name));
    hide *;
    RenamedIs(store, rows, objects, rows1, objects1, id, name);
    if fs in rows {
      RenamedIs(store, rows1, objects1, rows', objects', fs, RenamedFileStoreName(name));
    }
  }

  /** Renames a database, moving its object, and then its file store, if it has one. */
  method Rename(store: Store, database: Database, name: string) returns (r: Outcome<()>, broken: bool)
    requires Consistent(store) && Current(store, database) && Clean(name)
    modifies store
    ensures store.Valid() && (!broken ==> Consistent(store)) && store.locks == old(store.locks)
    ensures store.rows.Keys == old(store.rows).Keys
    ensures r.Done? ==> !broken && DatabaseRenamed(store, old(store.rows), old(store.objects), store.rows, store.objects, database.id, name)
    ensures NewNamesFree(store, old(store.rows), database.id, name) ==>
              Kept(old(store.rows), old(store.objects), store.objects, {database.id, database.row.filestoreId})
    ensures store.failures.writes >= old(store.failures).writes && (broken ==> store.failures.writes > old(store.failures).writes)
    ensures store.reliable ==> (r.Done? <==> DatabaseRenames(store, old(store.rows), database.id, name))
    ensures store.reliable ==> (broken <==> DatabaseRenameBreaks(store, old(store.rows), database.id, name))
  {
    ghost var rows, objects := store.rows, store.objects;
    StoredNamesAreUnique(store);
    RenameAlone(store, rows, database.id, name);
    hide Linked, LinkedRow, Store.Valid, Kept, NoOtherHas, NameFree, KeyOfRow, WithUrl, Renamed, RenamedFileStoreName, DatabaseRenames,
      DatabaseRenameBreaks, NewNamesFree, DatabaseRenamed, RowRenamed, MoveSucceeds, MoveBreaks, MovedObjects, MovedIfMovable, WellFormed, Clash;
    r, broken := MoveTo(store, database, name);
    if r.Failed? {
      KeptFewer(rows, objects, store.objects, {database.id}, {database.id, database.row.filestoreId});
      return;
    }
    ghost var rows1, objects1 := store.rows, store.objects;
    if database.row.filestoreId != 0 {
      r, broken := RenameFileStore(store, database.row.filestoreId, name);
    }
    RenameTogether(store, rows, objects, rows1, objects1, store.rows, store.objects, database.id, name);
  }

  // Deleting.

  /** The keys of the rows' objects, for those of the ids that there are. */
  function KeysOf(rows: Rows, id: nat): set<string> {
    if id in rows then OwnKeys(rows[id]) else {}
  }

  predicate DatabaseDeletes(rows: Rows, locks: Locks, id: nat) {
    id in rows && id !in locks && (rows[id].filestoreId in rows && rows[id].filestoreId != id ==> rows[id].filestoreId !in locks)
  }

  /** The file store is locked, but has an object, which goes before its row is refused. */
  predicate DatabaseDeleteBreaks(rows: Rows, locks: Locks, id: nat) {
    && id in rows && id !in locks
    && var fs := rows[id].filestoreId;
       fs in rows && fs != id && fs in locks && rows[fs].url != ""
  }

  lemma DeletedTogether(rows: Rows, objects: Objects, objects': Objects, id: nat)
    requires id in rows
    requires var objects1 := objects - OwnKeys(rows[id]); Kept(rows, objects, objects1, {id})
    ensures var rows1, objects1, fs := rows - {id}, objects - OwnKeys(rows[id]), rows[id].filestoreId;
            && rows1 - {fs} == rows - {id, fs}
            && objects1 - KeysOf(rows1, fs) == objects - OwnKeys(rows[id]) - KeysOf(rows, fs)
            && (Kept(rows1, objects1, objects', {fs}) ==> Kept(rows, objects, objects', {id, fs}))
  {
    var rows1, objects1, fs := rows - {id}, objects - OwnKeys(rows[id]), rows[id].filestoreId;
    if Kept(rows1, objects1, objects', {fs}) {
      KeptTwice(rows, objects, {id}, rows1, objects1, objects', {fs});
      assert {id} + {fs} == {id, fs};
    }
  }

  /** Deletes the file store of a deleted database. A missing file store is no error; but if it is
      locked, its object goes and its row stays. */
  method DeleteFileStore(store: Store, filestoreId: nat) returns (r: Outcome<()>, broken: bool)
    requires Consistent(store)
    modifies store
    ensures store.Valid() && (!broken ==> Consistent(store)) && store.locks == old(store.locks)
    ensures r.Done? ==> !broken && store.rows == old(store.rows) - {filestoreId}
    ensures r.Failed? ==> store.rows == old(store.rows)
    ensures r.Done? || broken ==> store.objects == old(store.objects) - KeysOf(old(store.rows), filestoreId)
    ensures Kept(old(store.rows), old(store.objects), store.objects, {filestoreId})
    ensures store.failures.writes >= old(store.failures).writes && (broken ==> store.failures.writes > old(store.failures).writes)
    ensures store.reliable ==> (r.Done? <==> filestoreId !in old(store.rows) || filestoreId !in old(store.locks))
    ensures store.reliable ==>
              (broken <==> filestoreId in old(store.rows) && filestoreId in old(store.locks) && old(store.rows)[filestoreId].url != "")
  {
    NothingTouched(store.bucket, store.rows, store.objects);
    hide Linked, LinkedRow, Store.Valid, Kept, OwnKeys;
    var fs := store.FindById(filestoreId);
    if fs.Failed? {
      return if fs.error.NotFound? then Done(()) else Failed(fs.error), false;
    }
    r, broken := Remove(store, fs.value);
  }

  /** Deletes a database that is not locked, with its object, and then its file store. */
  method Delete(store: Store, id: nat) returns (r: Outcome<()>, broken: bool)
    requires Consistent(store)
    modifies store
    ensures store.Valid() && (!broken ==> Consistent(store)) && store.locks == old(store.locks)
    ensures r.Done? ==> !broken && id in old(store.rows) && id !in store.locks
    ensures r.Done? ==> store.rows == old(store.rows) - {id, old(store.rows)[id].filestoreId}
    ensures r.Done? ==>
              store.objects == old(store.objects) - OwnKeys(old(store.rows)[id]) - KeysOf(old(store.rows), old(store.rows)[id].filestoreId)
    ensures id !in old(store.rows) || id in store.locks ==> r.Failed? && store.rows == old(store.rows) && store.objects == old(store.objects)
    ensures id in old(store.rows) ==> Kept(old(store.rows), old(store.objects), store.objects, {id, old(store.rows)[id].filestoreId})
    ensures store.failures.writes >= old(store.failures).writes && (broken ==> store.failures.writes > old(store.failures).writes)
    ensures store.reliable ==> (r.Done? <==> DatabaseDeletes(old(store.rows), old(store.locks), id))
    ensures store.reliable ==> (broken <==> DatabaseDeleteBreaks(old(store.rows), old(store.locks), id))
  {
    ghost var rows, objects := store.rows, store.objects;
    NothingTouched(store.bucket, rows, objects);
    hide Linked, LinkedRow, Store.Valid, Kept, OwnKeys, KeysOf;
    var found := store.FindById(id);
    if found.Failed? {
      return Failed(found.error), false;
    }
    if found.value.lock.Some? {
      return Failed(Locked), false;
    }
    r, broken := Remove(store, found.value);
    if r.Failed? {
      KeptFewer(rows, objects, store.objects, {id}, {id, rows[id].filestoreId});
      return;
    }
    r, broken := DeleteFileStore(store, found.value.row.filestoreId);
    DeletedTogether(rows, objects, store.objects, id);
  }

  // Saving.

  /** Saves an instance's database. `broken` reports that the replacement was interrupted, which takes a
      row write that fails: in a reliable store it never is. */
  method SaveDatabase(store: Store, database: Database, instanceId: nat, userId: nat, instanceGroup: string, temporaryName: string,
                      dump: Content, now: nat)
    returns (r: Outcome<Database>, broken: bool)
    requires Consistent(store) && Current(store, database) && PlainGroup(instanceGroup) && Clean(temporaryName)
    requires ObjectKey(instanceGroup, temporaryName) !in store.objects
    modifies store
    ensures store.Valid() && (!broken ==> Consistent(store))
    ensures r.Done? ==> !broken && store.rows == old(store.rows)[database.id := FinalRow(store, database.row, dump)]
    ensures r.Done? ==> store.objects == old(store.objects)[KeyOfRow(database.row) := dump]
    ensures Kept(old(store.rows), old(store.objects), store.objects, {database.id})
    ensures store.failures.writes >= old(store.failures).writes && (broken ==> store.failures.writes > old(store.failures).writes)
    ensures store.reliable ==> !broken
    ensures store.reliable ==>
              (r.Done? <==> (old(Unobstructed(store, database.row, instanceGroup, temporaryName))
                             && (database.lock.None? || database.lock.value == Lock(instanceId, userId))))
  {
    CleanKey(instanceGroup, temporaryName);
    StoredNamesAreUnique(store);
    var key := ObjectKey(instanceGroup, temporaryName);
    ghost var rows, objects := store.rows, store.objects;
    var progress;
    ghost var temporary;
    r, progress, temporary := Save(store, database, instanceId, userId, instanceGroup, temporaryName, dump, now);
    broken := Interrupted(progress, store.objects, key);
    SavedDatabase(store, rows, objects, store.rows, store.objects, database.id, instanceGroup, temporaryName, dump, r, progress, temporary);
  }

  lemma SavedDatabase(store: Store, rows: Rows, objects: Objects, rows': Rows, objects': Objects, id: nat,
                      instanceGroup: string, temporaryName: string, dump: Content, r: Outcome<Database>, progress: Progress, temporary: nat)
    requires Linked(store.bucket, rows, objects) && UniqueNames(rows) && id in rows
    requires PlainGroup(instanceGroup) && Clean(temporaryName) && ObjectKey(instanceGroup, temporaryName) !in objects
    requires SaveLeaves(store, rows, objects, rows', objects', id, rows[id], instanceGroup, temporaryName, dump, r, progress, temporary)
    ensures Kept(rows, objects, objects', {id})
    ensures !Interrupted(progress, objects', ObjectKey(instanceGroup, temporaryName)) ==> Linked(store.bucket, rows', objects')
    ensures r.Done? ==> !Interrupted(progress, objects', ObjectKey(instanceGroup, temporaryName))
    ensures r.Done? ==> rows' == rows[id := FinalRow(store, rows[id], dump)] && objects' == objects[KeyOfRow(rows[id]) := dump]
  {
    if !Interrupted(progress, objects', ObjectKey(instanceGroup, temporaryName)) {
      LinkedAfterSave(store, rows, objects, rows', objects', id, instanceGroup, temporaryName, dump, progress, temporary);
    }
    KeptBySave(store, rows, objects, rows', objects', id, instanceGroup, temporaryName, dump, progress, temporary);
  }

  /** A save touches no other row's object, wherever it stops. */
  lemma KeptBySave(store: Store, rows: Rows, objects: Objects, rows': Rows, objects': Objects, id: nat,
                   instanceGroup: string, temporaryName: string, dump: Content, progress: Progress, temporary: nat)
    requires Linked(store.bucket, rows, objects) && UniqueNames(rows) && id in rows
    requires ObjectKey(instanceGroup, temporaryName) !in objects
    requires Left(store, rows, objects, rows', objects', id, rows[id], ObjectKey(instanceGroup, temporaryName), dump, progress, temporary)
    ensures Kept(rows, objects, objects', {id})
  {
    var key := ObjectKey(instanceGroup, temporaryName);
    forall other | other in rows && other != id && rows[other].url != ""
      ensures SameAt(objects, objects', KeyOfRow(rows[other]))
    {
      DistinctKeys(rows, id, other);
      assert KeyOfRow(rows[other]) in objects && KeyOfRow(rows[other]) != key;
      assert SameAt(objects' - {key}, objects', KeyOfRow(rows[other]));
    }
  }

  lemma LinkedAfterSave(store: Store, rows: Rows, objects: Objects, rows': Rows, objects': Objects, id: nat,
                        instanceGroup: string, temporaryName: string, dump: Content, progress: Progress, temporary: nat)
    requires Linked(store.bucket, rows, objects) && id in rows
    requires PlainGroup(instanceGroup) && Clean(temporaryName)
    requires Left(store, rows, objects, rows', objects', id, rows[id], ObjectKey(instanceGroup, temporaryName), dump, progress, temporary)
    requires ObjectKey(instanceGroup, temporaryName) !in objects
    requires !Interrupted(progress, objects', ObjectKey(instanceGroup, temporaryName))
    requires !progress.Identified? ==> TemporaryLinked(store.bucket, rows', objects', temporary, instanceGroup, temporaryName)
    ensures Linked(store.bucket, rows', objects')
  {
    var key := ObjectKey(instanceGroup, temporaryName);
    assert key[|instanceGroup|] == '/' && KeyOfRow(rows[id])[|rows[id].groupName|] == '/';
    forall k | k in objects
      ensures k in objects'
    {
      assert k in objects' - {key};
    }
    assert forall k :: k in objects' ==> k == key || k in objects' - {key};
    forall other | other in rows'
      ensures LinkedRow(store.bucket, rows'[other], objects')
    {
      if progress.Identified? {
        assert other != id ==> rows'[other] == rows[other];
        assert KeyOfRow(rows[id]) in objects' - {key};
      } else if other != temporary {
        assert other in rows' - {temporary} && (rows' - {temporary})[other] == rows[other];
      }
    }
  }

  // Runs.

  datatype Operation =
    | Uploads(database: Database, content: Content)
    | Copies(id: nat, row: Row)
    | Renames(id: nat, name: string)
    | Deletes(id: nat)
    | Saves(id: nat, instanceId: nat, userId: nat, instanceGroup: string, temporaryName: string, dump: Content)

  /** What the callers guarantee: plain group names, clean names, and a fresh temporary name. */
  predicate Admissible(objects: Objects, operation: Operation) {
    match operation
    case Uploads(database, _) => PlainGroup(database.row.groupName) && Clean(database.row.name)
    case Copies(_, row) => PlainGroup(row.groupName) && Clean(row.name)
    case Renames(_, name) => Clean(name)
    case Deletes(_) => true
    case Saves(_, _, _, group, name, _) => PlainGroup(group) && Clean(name) && ObjectKey(group, name) !in objects
  }

  /** Nothing but unclean names, and a temporary object that is there already, keeps an operation out. */
  lemma AdmissibleIs(objects: Objects, operation: Operation)
    ensures operation.Deletes? ==> Admissible(objects, operation)
    ensures operation.Renames? ==> (Admissible(objects, operation) <==> Clean(operation.name))
    ensures operation.Uploads? ==>
              var row := operation.database.row;
              Admissible(objects, operation) <==> '/' !in row.groupName && Clean(row.groupName) && Clean(row.name)
    ensures operation.Copies? ==>
              var row := operation.row;
              Admissible(objects, operation) <==> '/' !in row.groupName && Clean(row.groupName) && Clean(row.name)
  {}

  /** When nothing but the operation itself can make a row write fail, these are the operations whose
      row is refused after an object was written or deleted. */
  predicate Breaks(store: Store, rows: Rows, locks: Locks, operation: Operation) {
    match operation
    case Uploads(database, _) => !NameFree(store.slugOf, rows, database.id, database.row.groupName, database.row.name)
    case Copies(id, row) => id in rows && DatabaseCopyBreaks(store, rows, rows[id], CopyOf(rows[id], row), 0)
    case Renames(id, name) => id in rows && DatabaseRenameBreaks(store, rows, id, name)
    case Deletes(id) => DatabaseDeleteBreaks(rows, locks, id)
    case Saves(_, _, _, _, _, _) => false
  }

  /** The names that the operation gives to rows are no other row's. */
  predicate TakesNoName(store: Store, rows: Rows, operation: Operation) {
    match operation
    case Uploads(database, _) => NoOtherHas(rows, database.id, database.row.groupName, database.row.name)
    case Copies(id, row) => id in rows ==> CopyNamesFree(rows, CopyOf(rows[id], row))
    case Renames(id, name) => id in rows ==> NewNamesFree(store, rows, id, name)
    case Deletes(_) => true
    case Saves(_, _, _, _, _, _) => true
  }

  /** The rows whose own objects an operation may change. */
  function Concerned(rows: Rows, operation: Operation): set<nat> {
    match operation
    case Uploads(database, _) => {database.id}
    case Copies(_, _) => {}
    case Renames(id, _) => if id in rows then {id, rows[id].filestoreId} else {}
    case Deletes(id) => if id in rows then {id, rows[id].filestoreId} else {}
    case Saves(id, _, _, _, _, _) => {id}
  }

  lemma TimeDoesNotMatter(store: Store, rows: Rows, source: Row, target: Row, now: nat)
    ensures DatabaseCopyBreaks(store, rows, source, target, now) <==> DatabaseCopyBreaks(store, rows, source, target, 0)
  {}

  /** One operation. It is `broken` only if a row write failed; in a reliable store, exactly if it
      breaks. Whatever happens, it keeps the objects of all rows that it does not concern, unless it
      gives a row the name of another one. */
  method Perform(store: Store, operation: Operation, now: nat) returns (broken: bool)
    requires Consistent(store) && Admissible(store.objects, operation)
    modifies store
    ensures store.Valid() && (!broken ==> Consistent(store))
    ensures store.failures.writes >= old(store.failures).writes && (broken ==> store.failures.writes > old(store.failures).writes)
    ensures store.reliable ==> (broken <==> Breaks(store, old(store.rows), old(store.locks), operation))
    ensures operation.Deletes? || operation.Saves? || TakesNoName(store, old(store.rows), operation) ==>
              Kept(old(store.rows), old(store.objects), store.objects, Concerned(old(store.rows), operation))
  {
    NothingTouched(store.bucket, store.rows, store.objects);
    hide Linked, Store.Valid, Kept, NoOtherHas, NameFree, DatabaseCopyBreaks, DatabaseRenameBreaks, DatabaseDeleteBreaks,
      CopyNamesFree, NewNamesFree, CopyOf, DatabaseCopied, DatabaseCopies, DatabaseRenamed, DatabaseRenames, DatabaseDeletes, Extends,
      ObjectKey, KeyOfRow, FinalRow, Unobstructed, OwnKeys, KeysOf, Clean, PlainGroup;
    match operation {
      case Uploads(database, content) =>
        var r;
        r, broken := Upload(store, database, content);
      case Copies(id, row) =>
        ghost var rows := store.rows;
        if id in rows {
          TimeDoesNotMatter(store, rows, rows[id], CopyOf(rows[id], row), now);
        }
        var r;
        r, broken := Copy(store, id, row, now);
      case Renames(id, name) =>
        var found := store.FindById(id);
        if found.Failed? {
          return false;
        }
        var r;
        r, broken := Rename(store, found.value, name);
      case Deletes(id) =>
        var r;
        r, broken := Delete(store, id);
      case Saves(id, instanceId, userId, group, name, dump) =>
        var found := store.FindById(id);
        if found.Failed? {
          return false;
        }
        var r;
        r, broken := SaveDatabase(store, found.value, instanceId, userId, group, name, dump, now);
    }
  }

  /** The states before and after each operation of a run that was performed. In a reliable store the
      run is `broken` exactly if its last operation breaks, and no other one does. */
  ghost predicate BrokenBy(store: Store, states: seq<Snapshot>, operations: seq<Operation>, broken: bool) {
    && 1 <= |states| <= |operations| + 1 && (!broken ==> |states| == |operations| + 1)
    && forall i :: 0 <= i < |states| - 1 ==>
         ((Admissible(states[i].objects, operations[i]) && Breaks(store, states[i].rows, states[i].locks, operations[i]))
            <==> (broken && i == |states| - 2))
  }

  lemma OneMoreState(store: Store, states: seq<Snapshot>, operations: seq<Operation>, state: Snapshot, broken: bool)
    requires 1 <= |states| <= |operations| && BrokenBy(store, states, operations[..|states| - 1], false)
    requires (Admissible(states[|states| - 1].objects, operations[|states| - 1])
              && Breaks(store, states[|states| - 1].rows, states[|states| - 1].locks, operations[|states| - 1])) <==> broken
    ensures BrokenBy(store, states + [state], if broken then operations else operations[..|states|], broken)
  {
    hide Admissible, Breaks;
  }

  lemma EveryRowFindsItsOwn(bucket: string, rows: Rows, objects: Objects)
    requires Linked(bucket, rows, objects) && UniqueNames(rows)
    ensures forall a :: a in rows && rows[a].url != "" ==>
              && rows[a].url == UrlOfRow(bucket, rows[a]) && KeyOfRow(rows[a]) in objects
              && forall b :: b in rows && b != a ==> KeyOfRow(rows[b]) != KeyOfRow(rows[a])
  {
    DistinctObjects(bucket, rows, objects);
  }

  /** Any run of admissible operations, whatever fails in it, stopping at the first broken one. Unless a
      row write has failed, every row with a URL has the URL of its group and name, its object exists,
      and no two rows share one. In a reliable store a row write fails after its object was written
      exactly at an operation that breaks. */
  method Run(store: Store, operations: seq<Operation>, now: nat) returns (broken: bool, ghost states: seq<Snapshot>)
    requires Consistent(store)
    modifies store
    ensures store.Valid()
    ensures !broken ==> Consistent(store) && |states| == |operations| + 1
    ensures !broken ==>
              forall a :: a in store.rows && store.rows[a].url != "" ==>
                && store.rows[a].url == UrlOfRow(store.bucket, store.rows[a]) && KeyOfRow(store.rows[a]) in store.objects
                && forall b :: b in store.rows && b != a ==> KeyOfRow(store.rows[b]) != KeyOfRow(store.rows[a])
    ensures broken ==> store.failures.writes > old(store.failures).writes
    ensures states != [] && states[0] == old(store.Now()) && states[|states| - 1] == store.Now()
    ensures store.reliable ==> BrokenBy(store, states, operations, broken)
  {
    broken, states := false, [store.Now()];
    for i := 0 to |operations|
      invariant Consistent(store) && !broken && store.failures.writes >= old(store.failures).writes
      invariant |states| == i + 1 && states[0] == old(store.Now()) && states[i] == store.Now()
      invariant store.reliable ==> BrokenBy(store, states, operations[..i], false)
    {
      hide Consistent, Admissible, Breaks, BrokenBy, Store.Valid;
      if Admissible(store.objects, operations[i]) {
        broken := Perform(store, operations[i], now + i);
      }
      if store.reliable {
        OneMoreState(store, states, operations, store.Now(), broken);
      }
      states := states + [store.Now()];
      if broken {
        return;
      }
    }
    assert operations[..|operations|] == operations;
    StoredNamesAreUnique(store);
    EveryRowFindsItsOwn(store.bucket, store.rows, store.objects);
    hide *;
  }
}
