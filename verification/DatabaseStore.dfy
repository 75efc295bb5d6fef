/** The tables and the bucket behind the saved databases, one step at a time. Every step can fail,
    as the environment chooses, and a step that fails changes nothing. In a reliable store a step
    fails only for a reason of its own. */
module DatabaseStore {
  import opened Model
  import opened Text
  import opened Urls

  type Content = seq<bv8>

  datatype Error = NotFound | Duplicated | Locked | Unauthorized | Malformed | Unavailable

  datatype Outcome<+T> = Done(value: T) | Failed(error: Error)

  datatype Lock = Lock(instanceId: nat, userId: nat)

  datatype Row = Row(
    name: string,
    groupName: string,
    description: string,
    url: string,
    slug: string,
    kind: string,
    createdAt: nat,
    filestoreId: nat,
    userId: nat,
    size: nat)

  /** A record as the services hold it: a row with its id and the lock loaded with it. A record that
      has not been stored yet has id 0. */
  datatype Database = Database(id: nat, row: Row, lock: Option<Lock>)

  type Rows = map<nat, Row>
  type Locks = map<nat, Lock>
  type Objects = map<string, Content>

  /** How many row writes and unlocks have failed so far, and how often each row could not be loaded. */
  datatype Failures = Failures(writes: nat, unlocks: nat, loads: multiset<nat>)

  datatype Snapshot = Snapshot(rows: Rows, locks: Locks, objects: Objects)

  /** Two rows agree on what the unique indexes cover. */
  predicate Clash(a: Row, b: Row) {
    (a.groupName == b.groupName && a.name == b.name) || a.slug == b.slug
  }

  /** No row but that with the given id has the group and name, or the slug that goes with them. */
  predicate NameFree(slugOf: (string, string) -> string, rows: Rows, id: nat, groupName: string, name: string) {
    forall other :: other in rows && other != id ==>
      !(rows[other].groupName == groupName && rows[other].name == name) && rows[other].slug != slugOf(groupName, name)
  }

  /** The unique indexes and foreign keys hold. */
  ghost predicate WellFormed(rows: Rows, locks: Locks) {
    && 0 !in rows
    && (forall a, b :: a in rows && b in rows && Clash(rows[a], rows[b]) ==> a == b)
    && locks.Keys <= rows.Keys
  }

  function Renumbered<T>(m: map<nat, T>, from: nat, to: nat): map<nat, T> {
    if from in m then (m - {from})[to := m[from]] else m
  }

  lemma RenumberedIsWellFormed(rows: Rows, locks: Locks, from: nat, to: nat)
    requires WellFormed(rows, locks) && from in rows && to !in rows && to != 0
    ensures WellFormed(Renumbered(rows, from, to), Renumbered(locks, from, to))
    ensures forall id :: id in Renumbered(rows, from, to) ==> Renumbered(rows, from, to)[id] == rows[if id == to then from else id]
  {}

  class Store {
    const bucket: string
    const slugOf: (string, string) -> string
    const reliable: bool
    var rows: Rows
    var locks: Locks
    var objects: Objects
    /** Every state the store has been in. */
    ghost var history: seq<Snapshot>
    ghost var failures: Failures

    ghost predicate Valid()
      reads this`rows, this`locks, this`objects, this`history
    {
      && BucketName(bucket)
      && history != [] && history[|history| - 1] == Snapshot(rows, locks, objects)
      && (forall s :: s in history ==> WellFormed(s.rows, s.locks))
      && forall id :: id in rows ==> rows[id] == WithSlug(rows[id])
    }

    constructor (bucket: string, slugOf: (string, string) -> string, reliable: bool)
      requires BucketName(bucket)
      ensures Valid() && this.bucket == bucket && this.slugOf == slugOf && this.reliable == reliable
      ensures rows == map[] && locks == map[] && objects == map[]
    {
      this.bucket, this.slugOf, this.reliable := bucket, slugOf, reliable;
      rows, locks, objects := map[], map[], map[];
      history := [Snapshot(map[], map[], map[])];
      failures := Failures(0, 0, multiset{});
    }

    ghost function Now(): Snapshot
      reads this`rows, this`locks, this`objects
    {
      Snapshot(rows, locks, objects)
    }

    function LockOf(id: nat): Option<Lock>
      reads this`locks
    {
      if id in locks then Some(locks[id]) else None
    }

    function WithSlug(row: Row): Row {
      row.(slug := slugOf(row.groupName, row.name))
    }

    predicate Free(id: nat, row: Row)
      reads this`rows
    {
      NameFree(slugOf, rows, id, row.groupName, row.name)
    }

    // Rows.

    method FindById(id: nat) returns (r: Outcome<Database>)
      requires Valid()
      modifies this`failures
      ensures Valid()
      ensures failures == if r.Done? then old(failures) else old(failures).(loads := old(failures).loads + multiset{id})
      ensures r.Done? ==> id in rows && r.value == Database(id, rows[id], LockOf(id))
      ensures r == Failed(NotFound) ==> id !in rows
      ensures reliable ==> (r.Done? <==> id in rows)
      ensures reliable && r.Failed? ==> r.error.NotFound?
    {
      var unavailable: bool := *;
      if unavailable && !reliable {
        failures := failures.(loads := failures.loads + multiset{id});
        return Failed(Unavailable);
      }
      if id !in rows {
        failures := failures.(loads := failures.loads + multiset{id});
        return Failed(NotFound);
      }
      return Done(Database(id, rows[id], LockOf(id)));
    }

    /** Stores a new row under a fresh id. */
    method Insert(row: Row) returns (r: Outcome<nat>)
      requires Valid()
      modifies this
      ensures failures == if r.Done? then old(failures) else old(failures).(writes := old(failures).writes + 1)
      ensures Valid() && old(history) <= history && locks == old(locks) && objects == old(objects)
      ensures r.Done? ==> r.value !in old(rows) && r.value != 0 && rows == old(rows)[r.value := WithSlug(row)]
      ensures r.Done? ==> forall k :: k in old(rows) ==> old(rows)[k].filestoreId != r.value
      ensures r.Done? ==> old(Free(0, row))
      ensures reliable ==> (old(Free(0, row)) ==> r.Done?)
      ensures r.Failed? ==> rows == old(rows)
    {
      var unavailable: bool := *;
      if unavailable && !reliable {
        failures := failures.(writes := failures.writes + 1);
        return Failed(Unavailable);
      }
      if !Free(0, row) {
        failures := failures.(writes := failures.writes + 1);
        return Failed(Duplicated);
      }
      var id := FreshId();
      rows := rows[id := WithSlug(row)];
      history := history + [Now()];
      return Done(id);
    }

    /** An id that has not been handed out: no row has it or refers to it. */
    method FreshId() returns (id: nat)
      ensures id !in rows && id != 0 && forall k :: k in rows ==> rows[k].filestoreId != id
    {
      id := 1;
      var ids := rows.Keys;
      while ids != {}
        invariant ids <= rows.Keys && id != 0
        invariant forall k :: k in rows ==> k in ids || (k < id && rows[k].filestoreId < id)
      {
        var k :| k in ids;
        ids := ids - {k};
        id := if k < id then id else k + 1;
        id := if rows[k].filestoreId < id then id else rows[k].filestoreId + 1;
      }
    }

    /** Overwrites the row with this id, or creates it. */
    method Upsert(id: nat, row: Row) returns (r: Outcome<()>)
      requires Valid() && id != 0
      modifies this
      ensures failures == if r.Done? then old(failures) else old(failures).(writes := old(failures).writes + 1)
      ensures Valid() && old(history) <= history && locks == old(locks) && objects == old(objects)
      ensures rows == if r.Done? then old(rows)[id := WithSlug(row)] else old(rows)
      ensures r.Done? ==> old(Free(id, row))
      ensures reliable ==> (old(Free(id, row)) ==> r.Done?)
    {
      var unavailable: bool := *;
      if unavailable && !reliable {
        failures := failures.(writes := failures.writes + 1);
        return Failed(Unavailable);
      }
      if !Free(id, row) {
        failures := failures.(writes := failures.writes + 1);
        return Failed(Duplicated);
      }
      rows := rows[id := WithSlug(row)];
      history := history + [Now()];
      return Done(());
    }

    /** Deletes a row that is not locked. */
    method DeleteRow(id: nat) returns (r: Outcome<()>)
      requires Valid()
      modifies this
      ensures Valid() && old(history) <= history && locks == old(locks) && objects == old(objects)
      ensures r.Done? ==> id in old(rows) && id !in locks && rows == old(rows) - {id}
      ensures reliable ==> (r.Done? <==> id in old(rows) && id !in locks)
      ensures r.Failed? ==> rows == old(rows)
      ensures r.Done? ==> failures == old(failures)
      ensures r.Failed? ==> failures.writes == old(failures).writes + 1 && failures.unlocks == old(failures).unlocks
    {
      var database := FindById(id);
      if database.Failed? {
        failures := failures.(writes := failures.writes + 1);
        return Failed(database.error);
      }
      var unavailable: bool := *;
      if database.value.lock.Some? || (unavailable && !reliable) {
        failures := failures.(writes := failures.writes + 1);
        return Failed(if database.value.lock.Some? then Locked else Unavailable);
      }
      rows := rows - {id};
      history := history + [Now()];
      return Done(());
    }

    /** Gives a row another id; its lock follows. Nothing happens if there is no such row. */
    method UpdateId(from: nat, to: nat) returns (r: Outcome<()>)
      requires Valid() && to != 0
      modifies this
      ensures failures == if r.Done? then old(failures) else old(failures).(writes := old(failures).writes + 1)
      ensures Valid() && old(history) <= history && objects == old(objects)
      ensures r.Done? && (from !in old(rows) || from == to) ==> rows == old(rows) && locks == old(locks)
      ensures r.Done? && from in old(rows) && from != to ==>
                to !in old(rows) && rows == Renumbered(old(rows), from, to) && locks == Renumbered(old(locks), from, to)
      ensures r.Failed? ==> rows == old(rows) && locks == old(locks)
      ensures reliable ==> (r.Done? <==> from !in old(rows) || from == to || to !in old(rows))
    {
      var unavailable: bool := *;
      if unavailable && !reliable {
        failures := failures.(writes := failures.writes + 1);
        return Failed(Unavailable);
      }
      if from !in rows || from == to {
        return Done(());
      }
      if to in rows {
        failures := failures.(writes := failures.writes + 1);
        return Failed(Duplicated);
      }
      RenumberedIsWellFormed(rows, locks, from, to);
      hide WellFormed, Renumbered;
      rows, locks := Renumbered(rows, from, to), Renumbered(locks, from, to);
      history := history + [Now()];
      return Done(());
    }

    // Locks.

    method LockRow(id: nat, instanceId: nat, userId: nat) returns (r: Outcome<()>)
      requires Valid()
      modifies this
      ensures failures == old(failures)
      ensures Valid() && old(history) <= history && rows == old(rows) && objects == old(objects)
      ensures r.Done? ==> id in rows && id !in old(locks) && locks == old(locks)[id := Lock(instanceId, userId)]
      ensures reliable ==> (r.Done? <==> id in rows && id !in old(locks))
      ensures r.Failed? ==> locks == old(locks)
    {
      var unavailable: bool := *;
      if unavailable && !reliable {
        return Failed(Unavailable);
      }
      if id !in rows {
        return Failed(NotFound);
      }
      if id in locks {
        return Failed(Locked);
      }
      locks := locks[id := Lock(instanceId, userId)];
      history := history + [Now()];
      return Done(());
    }

    method UnlockRow(id: nat) returns (r: Outcome<()>)
      requires Valid()
      modifies this
      ensures failures == if r.Done? then old(failures) else old(failures).(unlocks := old(failures).unlocks + 1)
      ensures Valid() && old(history) <= history && rows == old(rows) && objects == old(objects)
      ensures r.Done? ==> id in old(locks) && locks == old(locks) - {id}
      ensures reliable ==> (r.Done? <==> id in old(locks))
      ensures r.Failed? ==> locks == old(locks)
      ensures r == Failed(NotFound) ==> id !in old(locks)
    {
      var unavailable: bool := *;
      if unavailable && !reliable {
        failures := failures.(unlocks := failures.unlocks + 1);
        return Failed(Unavailable);
      }
      if id !in locks {
        failures := failures.(unlocks := failures.unlocks + 1);
        return Failed(NotFound);
      }
      locks := locks - {id};
      history := history + [Now()];
      return Done(());
    }

    // Objects.

    method PutObject(key: string, content: Content) returns (r: Outcome<()>)
      requires Valid()
      modifies this
      ensures failures == old(failures)
      ensures Valid() && old(history) <= history && rows == old(rows) && locks == old(locks)
      ensures objects == if r.Done? then old(objects)[key := content] else old(objects)
      ensures reliable ==> r.Done?
    {
      var unavailable: bool := *;
      if unavailable && !reliable {
        return Failed(Unavailable);
      }
      objects := objects[key := content];
      history := history + [Now()];
      return Done(());
    }

    /** Copies an object. A missing source is an error, and so is a copy of a key onto itself. */
    method CopyObject(source: string, destination: string) returns (r: Outcome<()>)
      requires Valid()
      modifies this
      ensures failures == old(failures)
      ensures Valid() && old(history) <= history && rows == old(rows) && locks == old(locks)
      ensures r.Done? ==> source in old(objects) && source != destination
      ensures reliable ==> (r.Done? <==> source in old(objects) && source != destination)
      ensures r.Done? ==> objects == old(objects)[destination := old(objects)[source]]
      ensures r.Failed? ==> objects == old(objects)
    {
      var unavailable: bool := *;
      if unavailable && !reliable {
        return Failed(Unavailable);
      }
      if source !in objects {
        return Failed(NotFound);
      }
      if source == destination {
        return Failed(Malformed);
      }
      objects := objects[destination := objects[source]];
      history := history + [Now()];
      return Done(());
    }

    /** Deletes an object; deleting a missing one succeeds. */
    method DeleteObject(key: string) returns (r: Outcome<()>)
      requires Valid()
      modifies this
      ensures failures == old(failures)
      ensures Valid() && old(history) <= history && rows == old(rows) && locks == old(locks)
      ensures objects == if r.Done? then old(objects) - {key} else old(objects)
      ensures reliable ==> r.Done?
    {
      var unavailable: bool := *;
      if unavailable && !reliable {
        return Failed(Unavailable);
      }
      objects := objects - {key};
      history := history + [Now()];
      return Done(());
    }

    /** Copies, then deletes the source. If the deletion fails both objects remain. */
    method MoveObject(source: string, destination: string) returns (r: Outcome<()>, copied: bool)
      requires Valid()
      modifies this
      ensures failures == old(failures)
      ensures Valid() && old(history) <= history && rows == old(rows) && locks == old(locks)
      ensures r.Done? ==> copied
      ensures copied ==> source in old(objects) && source != destination
      ensures reliable ==> (r.Done? <==> source in old(objects) && source != destination)
      ensures objects == if !copied then old(objects)
                         else if r.Failed? then old(objects)[destination := old(objects)[source]]
                         else old(objects)[destination := old(objects)[source]] - {source}
    {
      r := CopyObject(source, destination);
      copied := r.Done?;
      if r.Failed? {
        return;
      }
      r := DeleteObject(source);
    }
  }
}
