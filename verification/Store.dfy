/** The SQLite store. Each method is one transaction; `Db` is what a crash keeps. */
module Store {
  import opened Meta
  import opened Clock
  import opened Conflicts
  import opened Rank

  /** What a node remembers about one peer: how far it has read, in which
      incarnation of the peer. */
  datatype PeerState = PeerState(version: int, epoch: string)

  datatype RepairRow = RepairRow(meta: FileMeta, version: int, attempts: nat, revision: nat)

  /** A queue row as a worker took it. */
  datatype RepairItem = RepairItem(peer: string, name: string, row: RepairRow)

  type RepairKey = (string, string)

  datatype Db = Db(
    files: map<string, FileMeta>,
    lastVersion: int,
    intents: map<string, FileMeta>,
    local: set<string>,
    queue: map<RepairKey, RepairRow>,
    revision: nat,
    cursors: map<string, PeerState>)
  {
    function Row(name: string): Option<FileMeta> {
      if name in files then Some(files[name]) else None
    }

    function Cursor(peer: string): PeerState {
      if peer in cursors then cursors[peer] else PeerState(0, "")
    }
  }

  // ----- file rows -----

  /** Writes one row under the next version and drops the name's replica intent. */
  function Put(db: Db, meta: FileMeta): Db {
    db.(files := db.files[meta.name := meta.(version := db.lastVersion + 1)],
        lastVersion := db.lastVersion + 1,
        intents := db.intents - {meta.name})
  }

  /** `stored` is `meta` with the clock a local write must take: the greatest of 1,
      its own clock, its mtime, and one more than every clock in the namespace. */
  ghost predicate LocalState(files: map<string, FileMeta>, meta: FileMeta, stored: FileMeta)
    requires ValidClocks(files) && ValidClock(meta)
  {
    && stored == meta.(clock := stored.clock, bigClock := stored.bigClock)
    && ValidClock(stored)
    && (forall v :: IsNamespaceClock(files, meta.name, v) ==> ClockValue(stored) == Max(OwnClock(meta), 1 + v))
    && ((forall k :: k in files ==> !InNamespace(meta.name, k)) ==> ClockValue(stored) == OwnClock(meta))
  }

  /** Among finitely many rows one has the greatest clock. */
  lemma {:induction false} NamespaceClockExists(files: map<string, FileMeta>, name: string, some: string, keys: set<string>) returns (k: string)
    requires ValidClocks(files) && keys <= files.Keys && some in keys && InNamespace(name, some)
    ensures k in keys && InNamespace(name, k)
    ensures forall j :: j in keys && InNamespace(name, j) ==> ClockValue(files[j]) <= ClockValue(files[k])
    decreases |keys|
  {
    k := some;
    if j :| j in keys && InNamespace(name, j) && ClockValue(files[j]) > ClockValue(files[some]) {
      k := NamespaceClockExists(files, name, j, keys - {some});
    }
  }

  /** A local write outranks everything it observed: the old file, the files it is
      nested under, and the files below it. */
  lemma LocalWriteRanksAbove(files: map<string, FileMeta>, meta: FileMeta, stored: FileMeta, k: string)
    requires ValidClocks(files) && ValidClock(meta) && LocalState(files, meta, stored)
    requires k in files && InNamespace(meta.name, k)
    ensures CompareState(Some(stored), Some(files[k])) > 0
  {
    var g := NamespaceClockExists(files, meta.name, k, files.Keys);
    assert IsNamespaceClock(files, meta.name, ClockValue(files[g]));
    CompareClockNumeric(stored, files[k]);
  }

  /** Every clock value has a representation. */
  lemma ClockFor(f: FileMeta, v: int) returns (r: FileMeta)
    requires v >= 1
    ensures r == f.(clock := r.clock, bigClock := r.bigClock)
    ensures ValidClock(r) && ClockValue(r) == v
  {
    if v <= MAX_INT64 as int {
      r := f.(clock := v as int64, bigClock := "");
    } else {
      FormatIntRoundTrip(v);
      r := f.(clock := MAX_INT64, bigClock := FormatInt(v));
    }
  }

  /** A local write is always possible: the clock cannot be exhausted. */
  lemma LocalStateExists(files: map<string, FileMeta>, meta: FileMeta) returns (stored: FileMeta)
    requires ValidClocks(files) && ValidClock(meta)
    ensures LocalState(files, meta, stored)
  {
    if some :| some in files && InNamespace(meta.name, some) {
      var g := NamespaceClockExists(files, meta.name, some, files.Keys);
      stored := ClockFor(meta, Max(OwnClock(meta), 1 + ClockValue(files[g])));
      assert forall v :: IsNamespaceClock(files, meta.name, v) ==> v == ClockValue(files[g]);
    } else {
      stored := ClockFor(meta, OwnClock(meta));
    }
  }

  // ----- the repair queue -----

  function PeerKeys(queue: map<RepairKey, RepairRow>, peer: string): set<RepairKey> {
    set k | k in queue && k.0 == peer
  }

  /** The remembered queue length of a peer. */
  function SizeFor(queueSize: map<string, nat>, peer: string): nat {
    if peer in queueSize then queueSize[peer] else 0
  }

  ghost predicate Counted(queueSize: map<string, nat>, queue: map<RepairKey, RepairRow>) {
    forall p :: SizeFor(queueSize, p) == |PeerKeys(queue, p)|
  }

  datatype Enqueued = Enqueued(queue: map<RepairKey, RepairRow>, revision: nat, written: nat, full: bool)

  function UpsertRow(queue: map<RepairKey, RepairRow>, key: RepairKey, meta: FileMeta, revision: nat): RepairRow {
    if key in queue then RepairRow(meta, if queue[key].version < meta.version then meta.version else queue[key].version, queue[key].attempts, revision)
    else RepairRow(meta, meta.version, 0, revision)
  }

  /** Records a batch in order. A row that already holds the state or a greater one
      is left alone; a new name that does not fit stops the batch. */
  function EnqueueAll(queue: map<RepairKey, RepairRow>, revision: nat, peer: string, metas: seq<FileMeta>, limit: nat): Enqueued
    decreases |metas|
  {
    if metas == [] then Enqueued(queue, revision, 0, false)
    else
      var key := (peer, metas[0].name);
      if key !in queue && limit > 0 && |PeerKeys(queue, peer)| >= limit then
        Enqueued(queue, revision, 0, true)
      else if key in queue && CompareMeta(metas[0], queue[key].meta) <= 0 then
        EnqueueAll(queue, revision, peer, metas[1..], limit)
      else
        var rest := EnqueueAll(queue[key := UpsertRow(queue, key, metas[0], revision + 1)], revision + 1, peer, metas[1..], limit);
        rest.(written := rest.written + 1)
  }

  /** `e` is what the first `i` states of a batch come to, and the rest goes on from there. */
  ghost predicate Ahead(e: Enqueued, whole: Enqueued, peer: string, metas: seq<FileMeta>, limit: nat, i: nat)
    requires i <= |metas|
  {
    var rest := EnqueueAll(e.queue, e.revision, peer, metas[i..], limit);
    whole == rest.(written := e.written + rest.written)
  }

  predicate NoRoom(e: Enqueued, peer: string, m: FileMeta, limit: nat) {
    (peer, m.name) !in e.queue && limit > 0 && |PeerKeys(e.queue, peer)| >= limit
  }

  predicate HeldAlready(e: Enqueued, peer: string, m: FileMeta) {
    (peer, m.name) in e.queue && CompareMeta(m, e.queue[(peer, m.name)].meta) <= 0
  }

  function Written(e: Enqueued, peer: string, m: FileMeta): Enqueued {
    var key := (peer, m.name);
    Enqueued(e.queue[key := UpsertRow(e.queue, key, m, e.revision + 1)], e.revision + 1, e.written + 1, false)
  }

  lemma AheadStops(e: Enqueued, whole: Enqueued, peer: string, metas: seq<FileMeta>, limit: nat, i: nat)
    requires i < |metas| && Ahead(e, whole, peer, metas, limit, i) && NoRoom(e, peer, metas[i], limit)
    ensures whole == e.(full := true)
  {
  }

  lemma AheadNext(e: Enqueued, whole: Enqueued, peer: string, metas: seq<FileMeta>, limit: nat, i: nat)
    requires i < |metas| && Ahead(e, whole, peer, metas, limit, i) && !NoRoom(e, peer, metas[i], limit)
    ensures Ahead(if HeldAlready(e, peer, metas[i]) then e else Written(e, peer, metas[i]), whole, peer, metas, limit, i + 1) == true
  {
    assert metas[i..][0] == metas[i] && metas[i..][1..] == metas[i + 1..];
  }

  lemma AheadDone(e: Enqueued, whole: Enqueued, peer: string, metas: seq<FileMeta>, limit: nat)
    requires Ahead(e, whole, peer, metas, limit, |metas|) && !e.full
    ensures whole == e
  {
    assert metas[|metas|..] == [];
  }

  /** The peer's rows have grown by `added`, no one else's. */
  ghost predicate Grown(before: map<RepairKey, RepairRow>, after: map<RepairKey, RepairRow>, peer: string, added: nat) {
    forall p :: |PeerKeys(after, p)| == |PeerKeys(before, p)| + if p == peer then added else 0
  }

  lemma GrownNext(before: map<RepairKey, RepairRow>, e: Enqueued, peer: string, m: FileMeta, added: nat)
    requires Grown(before, e.queue, peer, added)
    ensures Grown(before, Written(e, peer, m).queue, peer, if (peer, m.name) in e.queue then added else added + 1) == true
  {
    PeerKeysInsert(e.queue, (peer, m.name), UpsertRow(e.queue, (peer, m.name), m, e.revision + 1));
  }

  /** One key across an enqueue: its state never gets smaller, and an unchanged
      revision means an unchanged row. */
  ghost predicate RowKept(before: map<RepairKey, RepairRow>, revision: nat, after: map<RepairKey, RepairRow>, k: RepairKey) {
    k in before ==>
      && k in after
      && CompareMeta(before[k].meta, after[k].meta) <= 0
      && (after[k] == before[k] || after[k].revision > revision)
  }

  lemma {:induction false} EnqueueKeepsRows(queue: map<RepairKey, RepairRow>, revision: nat, peer: string, metas: seq<FileMeta>, limit: nat)
    requires forall k :: k in queue ==> queue[k].revision <= revision
    ensures var e := EnqueueAll(queue, revision, peer, metas, limit);
            && e.revision >= revision
            && (forall k :: k in e.queue ==> e.queue[k].revision <= e.revision)
            && (forall k :: RowKept(queue, revision, e.queue, k))
            && (forall k :: k in e.queue ==> (k in queue && e.queue[k] == queue[k]) || (k.0 == peer && e.queue[k].meta in metas && e.queue[k].meta.name == k.1 && e.queue[k].revision > revision))
    decreases |metas|
  {
    forall k | k in queue ensures CompareMeta(queue[k].meta, queue[k].meta) == 0 {
      CompareStateReflexive(Some(queue[k].meta));
    }
    if metas != [] {
      var key := (peer, metas[0].name);
      if key !in queue && limit > 0 && |PeerKeys(queue, peer)| >= limit {
      } else if key in queue && CompareMeta(metas[0], queue[key].meta) <= 0 {
        EnqueueKeepsRows(queue, revision, peer, metas[1..], limit);
      } else {
        var queue' := queue[key := UpsertRow(queue, key, metas[0], revision + 1)];
        EnqueueKeepsRows(queue', revision + 1, peer, metas[1..], limit);
        var e := EnqueueAll(queue, revision, peer, metas, limit);
        forall k ensures RowKept(queue, revision, e.queue, k) {
          assert RowKept(queue', revision + 1, e.queue, k);
          if k == key && key in queue {
            CompareStateFlip(Some(metas[0]), Some(queue[key].meta));
            CompareMetaTransitive(queue[key].meta, metas[0], e.queue[key].meta);
          }
        }
      }
    }
  }

  /** A batch that fits leaves every one of its states covered by a row. */
  lemma {:induction false} EnqueueCovers(queue: map<RepairKey, RepairRow>, revision: nat, peer: string, metas: seq<FileMeta>, limit: nat, m: FileMeta)
    requires forall k :: k in queue ==> queue[k].revision <= revision
    requires m in metas && !EnqueueAll(queue, revision, peer, metas, limit).full
    ensures var e := EnqueueAll(queue, revision, peer, metas, limit);
            (peer, m.name) in e.queue && CompareMeta(m, e.queue[(peer, m.name)].meta) <= 0
    decreases |metas|
  {
    var key := (peer, metas[0].name);
    var e := EnqueueAll(queue, revision, peer, metas, limit);
    if key in queue && CompareMeta(metas[0], queue[key].meta) <= 0 {
      if m == metas[0] {
        EnqueueKeepsRows(queue, revision, peer, metas[1..], limit);
        assert RowKept(queue, revision, e.queue, key);
        CompareMetaTransitive(m, queue[key].meta, e.queue[key].meta);
      } else {
        EnqueueCovers(queue, revision, peer, metas[1..], limit, m);
      }
    } else {
      var queue' := queue[key := UpsertRow(queue, key, metas[0], revision + 1)];
      if m == metas[0] {
        EnqueueKeepsRows(queue', revision + 1, peer, metas[1..], limit);
        assert RowKept(queue', revision + 1, e.queue, key);
      } else {
        EnqueueCovers(queue', revision + 1, peer, metas[1..], limit, m);
      }
    }
  }

  function Enqueue(db: Db, peer: string, metas: seq<FileMeta>, limit: nat): Db {
    var e := EnqueueAll(db.queue, db.revision, peer, metas, limit);
    db.(queue := e.queue, revision := e.revision)
  }

  /** Deletes the row only if it is still the one the worker took. */
  function Resolve(db: Db, item: RepairItem): Db {
    var key := (item.peer, item.name);
    if key in db.queue && db.queue[key].revision == item.row.revision then db.(queue := db.queue - {key}) else db
  }

  function Defer(db: Db, item: RepairItem): Db {
    var key := (item.peer, item.name);
    if key in db.queue && db.queue[key].revision == item.row.revision
    then db.(queue := db.queue[key := db.queue[key].(attempts := db.queue[key].attempts + 1)])
    else db
  }

  /** What `GetChanges` may answer: the rows above `since` in version order, cut at
      `limit`. Nothing between `since` and the last version of the page is missing. */
  ghost predicate ChangesPage(files: map<string, FileMeta>, since: int, limit: nat, page: seq<FileMeta>) {
    && |page| <= limit
    && (forall i :: 0 <= i < |page| ==> page[i].name in files && files[page[i].name] == page[i] && page[i].version > since)
    && (forall i, j :: 0 <= i < j < |page| ==> page[i].version < page[j].version)
    && (forall k :: k in files && files[k].version > since && (|page| < limit || (page != [] && files[k].version <= page[|page| - 1].version)) ==> files[k] in page)
  }

  // ----- the store object -----

  class Store {
    var db: Db
    /** Rows queued per peer, kept so that room for one more needs no counting. */
    var queueSize: map<string, nat>
    const repairLimit: nat

    ghost predicate Valid()
      reads this
    {
      && ValidClocks(db.files)
      && (forall k :: k in db.queue ==> db.queue[k].revision <= db.revision)
      && Counted(queueSize, db.queue)
    }

    constructor (limit: nat)
      ensures Valid() && repairLimit == limit
      ensures db == Db(map[], 0, map[], {}, map[], 0, map[])
    {
      db := Db(map[], 0, map[], {}, map[], 0, map[]);
      queueSize := map[];
      repairLimit := limit;
      new;
      assert forall p :: PeerKeys(db.queue, p) == {};
    }

    /** Opens a database: the queue is counted once, peer by peer. */
    constructor Open(db: Db, limit: nat)
      requires ValidClocks(db.files) && forall k :: k in db.queue ==> db.queue[k].revision <= db.revision
      ensures Valid() && repairLimit == limit && this.db == db
    {
      var peers := set k | k in db.queue :: k.0;
      this.db, queueSize, repairLimit := db, map p | p in peers :: |PeerKeys(db.queue, p)|, limit;
      new;
      forall p ensures SizeFor(queueSize, p) == |PeerKeys(db.queue, p)| {
        if p !in queueSize {
          assert PeerKeys(db.queue, p) == {};
        }
      }
    }

    /** `PutLocal` and `PutRemote`. A local write advances the clock of the whole
        namespace; a replica keeps the source's. Malformed clocks change nothing. */
    method CommitPut(meta: FileMeta, local: bool) returns (version: Option<int>)
      requires Valid()
      requires local ==> CanonicalName(meta.name)
      modifies this`db
      ensures Valid()
      ensures version.None? <==> !ValidClock(meta)
      ensures version.None? ==> db == old(db)
      ensures version.Some? ==> version.value == old(db).lastVersion + 1
      ensures version.Some? && !local ==> db == Put(old(db), meta)
      ensures version.Some? && local ==>
        exists stored :: LocalState(old(db).files, meta, stored) && db == Put(old(db), stored)
    {
      var ok := ValidateClock(meta);
      if !ok {
        return None;
      }
      var stored := meta;
      if local {
        var previous := NamespaceClock(db.files, meta.name);
        stored := AdvanceClock(meta, previous);
        NamespaceClockUnique(db.files, meta.name, previous);
        assert LocalState(db.files, meta, stored);
      }
      version := Some(db.lastVersion + 1);
      db := Put(db, stored);
    }

    /** Announces the paths a local operation is about to change, in one transaction. */
    method BeginLocal(paths: seq<string>)
      requires Valid()
      modifies this`db
      ensures Valid() && db == old(db).(local := old(db).local + set p | p in paths)
    {
      var local := db.local;
      var i := 0;
      while i < |paths|
        invariant 0 <= i <= |paths| && local == db.local + set p | p in paths[..i]
      {
        local := local + {paths[i]};
        i := i + 1;
      }
      assert paths[..i] == paths;
      db := db.(local := local);
    }

    method EndLocal(paths: seq<string>)
      requires Valid()
      modifies this`db
      ensures Valid() && db == old(db).(local := old(db).local - set p | p in paths)
    {
      var local := db.local;
      var i := 0;
      while i < |paths|
        invariant 0 <= i <= |paths| && local == db.local - set p | p in paths[..i]
      {
        local := local - {paths[i]};
        i := i + 1;
      }
      assert paths[..i] == paths;
      db := db.(local := local);
    }

    /** Some announced path is the name or a directory above it. */
    method HasLocalIntent(name: string) returns (found: bool)
      ensures found <==> exists p :: p in db.local && (name == p || Under(name, p))
    {
      var todo := db.local;
      while todo != {}
        invariant todo <= db.local
        invariant forall p :: p in db.local && p !in todo ==> name != p && !Under(name, p)
        decreases todo
      {
        var p :| p in todo;
        if name == p || Under(name, p) {
          return true;
        }
        todo := todo - {p};
      }
      return false;
    }

    method StageReplica(meta: FileMeta)
      requires Valid()
      modifies this`db
      ensures Valid() && db == old(db).(intents := old(db).intents[meta.name := meta])
    {
      db := db.(intents := db.intents[meta.name := meta]);
    }

    method ClearReplicaIntent(name: string)
      requires Valid()
      modifies this`db
      ensures Valid() && db == old(db).(intents := old(db).intents - {name})
    {
      db := db.(intents := db.intents - {name});
    }

    /** Works through a batch, `added` new names of it; nothing is stored yet. */
    method WriteBatch(peer: string, metas: seq<FileMeta>) returns (e: Enqueued, added: nat)
      requires Counted(queueSize, db.queue)
      ensures e == EnqueueAll(db.queue, db.revision, peer, metas, repairLimit) && Grown(db.queue, e.queue, peer, added) == true
    {
      ghost var whole := EnqueueAll(db.queue, db.revision, peer, metas, repairLimit);
      e, added := Enqueued(db.queue, db.revision, 0, false), 0;
      assert metas[0..] == metas;
      var i := 0;
      while i < |metas|
        invariant 0 <= i <= |metas| && !e.full && Grown(db.queue, e.queue, peer, added) == true
        invariant Ahead(e, whole, peer, metas, repairLimit, i) == true
      {
        var key := (peer, metas[i].name);
        assert |PeerKeys(e.queue, peer)| == SizeFor(queueSize, peer) + added;
        if key !in e.queue && repairLimit > 0 && SizeFor(queueSize, peer) + added >= repairLimit {
          AheadStops(e, whole, peer, metas, repairLimit, i);
          return e.(full := true), added;
        }
        AheadNext(e, whole, peer, metas, repairLimit, i);
        if !HeldAlready(e, peer, metas[i]) {
          GrownNext(db.queue, e, peer, metas[i], added);
          added := if key in e.queue then added else added + 1;
          e := Written(e, peer, metas[i]);
        }
        i := i + 1;
      }
      AheadDone(e, whole, peer, metas, repairLimit);
    }

    method EnqueueChanges(peer: string, metas: seq<FileMeta>) returns (written: nat, full: bool)
      requires Valid()
      modifies this
      ensures Valid()
      ensures db == Enqueue(old(db), peer, metas, repairLimit)
      ensures var e := EnqueueAll(old(db).queue, old(db).revision, peer, metas, repairLimit);
              written == e.written && full == e.full
    {
      var e, added := WriteBatch(peer, metas);
      EnqueueKeepsRows(db.queue, db.revision, peer, metas, repairLimit);
      queueSize := queueSize[peer := SizeFor(queueSize, peer) + added];
      db := db.(queue := e.queue, revision := e.revision);
      return e.written, e.full;
    }

    method ResolveRepairItem(item: RepairItem)
      requires Valid()
      modifies this
      ensures Valid()
      ensures db == Resolve(old(db), item)
    {
      var key := (item.peer, item.name);
      if key in db.queue && db.queue[key].revision == item.row.revision {
        var rest := db.queue - {key};
        PeerKeysRemove(db.queue, key);
        assert forall p :: |PeerKeys(rest, p)| == SizeFor(queueSize, p) - if p == item.peer then 1 else 0;
        queueSize := queueSize[item.peer := SizeFor(queueSize, item.peer) - 1];
        db := db.(queue := rest);
      }
    }

    method DeferRepairItem(item: RepairItem)
      requires Valid()
      modifies this`db
      ensures Valid()
      ensures db == Defer(old(db), item)
    {
      var key := (item.peer, item.name);
      if key in db.queue && db.queue[key].revision == item.row.revision {
        var row := db.queue[key];
        PeerKeysInsert(db.queue, key, row.(attempts := row.attempts + 1));
        db := db.(queue := db.queue[key := row.(attempts := row.attempts + 1)]);
      }
    }
  }

  lemma NamespaceClockUnique(files: map<string, FileMeta>, name: string, previous: Option<FileMeta>)
    requires ValidClocks(files)
    requires previous.Some? ==> ValidClock(previous.value) && IsNamespaceClock(files, name, ClockValue(previous.value))
    requires previous.None? <==> forall k :: k in files ==> !InNamespace(name, k)
    ensures forall v :: IsNamespaceClock(files, name, v) ==> previous.Some? && v == ClockValue(previous.value)
  {
  }

  lemma PeerKeysInsert(queue: map<RepairKey, RepairRow>, key: RepairKey, row: RepairRow)
    ensures forall p :: |PeerKeys(queue[key := row], p)| == |PeerKeys(queue, p)| + if key !in queue && p == key.0 then 1 else 0
  {
    forall p ensures |PeerKeys(queue[key := row], p)| == |PeerKeys(queue, p)| + if key !in queue && p == key.0 then 1 else 0 {
      if key !in queue && p == key.0 {
        assert PeerKeys(queue[key := row], p) == PeerKeys(queue, p) + {key};
      } else {
        assert PeerKeys(queue[key := row], p) == PeerKeys(queue, p);
      }
    }
  }

  lemma PeerKeysRemove(queue: map<RepairKey, RepairRow>, key: RepairKey)
    requires key in queue
    ensures forall p :: |PeerKeys(queue - {key}, p)| == |PeerKeys(queue, p)| - if p == key.0 then 1 else 0
  {
    forall p ensures |PeerKeys(queue - {key}, p)| == |PeerKeys(queue, p)| - if p == key.0 then 1 else 0 {
      assert PeerKeys(queue - {key}, p) == PeerKeys(queue, p) - if p == key.0 then {key} else {};
    }
  }
}
