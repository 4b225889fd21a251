/** One node: its disk, its database, and the operation that holds the namespace lock.

    Every disk change is bracketed by a durable intent, so that a crash at any point
    leaves enough to bring the index and the disk together again. Steps are the
    atomic effects of the code: one transaction, one rename or unlink. `h` is the
    content digest, of which nothing is assumed here. */
module Node {
  import opened Meta
  import opened Conflicts
  import opened Rank
  import opened Store
  import Clock

  datatype File = File(data: string, mtime: int64)

  type Disk = map<string, File>

  datatype Change = Write(data: string) | Remove | Touch

  /** What the holder of the lock does next. `Idle(Some(m))` is an apply of `m` that has
      returned without error. `next` is where a staged change returns to. */
  datatype Op =
    | Down
    | Idle(done: Option<FileMeta>)
    | Committing(paths: set<string>)
    | Indexing(paths: set<string>, todo: set<string>, starting: bool)
    | Resolving
    | Staged(meta: FileMeta, change: Change, next: Op)
    | Changed(meta: FileMeta, next: Op)
    | Settling(meta: FileMeta, data: string, conflicts: set<string>)
    | Yielding(meta: FileMeta, data: string, winner: FileMeta)
    | Superseding(tomb: FileMeta, next: Op)

  datatype Node = Node(disk: Disk, db: Db, op: Op)

  type Digest = string -> string

  // ----- index and disk at one name -----

  predicate Live(db: Db, n: string) {
    n in db.files && !db.files[n].deleted
  }

  predicate HasContent(h: Digest, disk: Disk, n: string, m: FileMeta) {
    n in disk && h(disk[n].data) == m.hash && |disk[n].data| == m.size as int
  }

  /** The index has a live row exactly when the disk holds that content. */
  predicate Agree(h: Digest, disk: Disk, db: Db, n: string) {
    if Live(db, n) then HasContent(h, disk, n, db.files[n]) else n !in disk
  }

  /** What recovery accepts as "this intent was carried out". */
  predicate Matches(h: Digest, disk: Disk, m: FileMeta) {
    if m.deleted then m.name !in disk else HasContent(h, disk, m.name, m)
  }

  predicate AtOrUnder(n: string, p: string) {
    n == p || Under(n, p)
  }

  /** `HasLocalIntent`. */
  ghost predicate LocalIntent(db: Db, n: string) {
    exists p :: p in db.local && AtOrUnder(n, p)
  }

  ghost predicate InPaths(paths: set<string>, n: string) {
    exists p :: p in paths && AtOrUnder(n, p)
  }

  ghost predicate IsDirectory(disk: Disk, n: string) {
    exists k :: k in disk && Under(k, n)
  }

  /** No file lies below another file. */
  ghost predicate IsTree(disk: Disk) {
    "" !in disk && forall a, b :: a in disk && b in disk ==> !Under(a, b)
  }

  // ----- indexing one name -----

  /** `PutLocal`: the row takes a clock above everything in its namespace. */
  ghost predicate PutLocal(db: Db, m: FileMeta, db': Db) {
    && ValidClocks(db.files) && Clock.ValidClock(m)
    && exists stored :: LocalState(db.files, m, stored) && db' == Put(db, stored)
  }

  function LocalMeta(name: string, modTime: int64, size: int64, hash: string, deleted: bool): FileMeta {
    FileMeta(name, modTime, size, hash, deleted, 0, 0, "", "", "")
  }

  predicate SameBytes(h: Digest, f: File, m: FileMeta) {
    h(f.data) == m.hash && |f.data| == m.size as int
  }

  /** Bytes that changed without a write timestamp and without a local intent. */
  ghost predicate Quarantines(h: Digest, disk: Disk, db: Db, n: string) {
    && n in disk && Live(db, n) && !LocalIntent(db, n)
    && h(disk[n].data) != db.files[n].hash && disk[n].mtime == db.files[n].modTime
    && |disk[n].data| == db.files[n].size as int
  }

  /** `inspectFile` and the commit of what it found, for a name without a replica
      intent. Nothing happens in the error cases. */
  ghost predicate Inspects(h: Digest, disk: Disk, db: Db, n: string, disk': Disk, db': Db) {
    if n !in disk then
      && disk' == disk
      && (if !Live(db, n) then db' == db
          else !(IsDirectory(disk, n) && !LocalIntent(db, n)) && PutLocal(db, LocalMeta(n, db.files[n].modTime, 0, "", true), db'))
    else
      var f := disk[n];
      && !Quarantines(h, disk, db, n)
      && |f.data| <= MAX_INT64 as int
      && (if Live(db, n) && SameBytes(h, f, db.files[n]) && (f.mtime == db.files[n].modTime || !LocalIntent(db, n)) then
            db' == db && disk' == disk[n := f.(mtime := db.files[n].modTime)]
          else
            disk' == disk && PutLocal(db, LocalMeta(n, f.mtime, |f.data| as int64, h(f.data), false), db'))
  }

  /** `recoverReplicaLocked`: an intent whose effect is on disk is committed, without
      comparing ranks; any other is dropped. */
  ghost predicate Recovers(h: Digest, disk: Disk, db: Db, n: string, disk': Disk, db': Db) {
    && n in db.intents
    && var m := db.intents[n];
       if Matches(h, disk, m) then
         && db' == Put(db, m)
         && disk' == if m.deleted then disk else disk[m.name := disk[m.name].(mtime := m.modTime)]
       else
         db' == db.(intents := db.intents - {n}) && disk' == disk
  }

  /** The name a pending publication waits to write. */
  function Pending(op: Op): Option<string> {
    if op.Settling? || op.Yielding? then Some(op.meta.name)
    else if op.Superseding? && op.next.Settling? then Some(op.next.meta.name)
    else None
  }

  /** Operations look at names before they decide about them. */
  predicate MayRefresh(op: Op, n: string) {
    (op.Idle? || op.Settling? || op.Yielding? || op.Superseding?) && Pending(op) != Some(n)
  }

  // ----- steps -----

  ghost predicate RefreshStep(h: Digest, s: Node, t: Node, n: string) {
    && MayRefresh(s.op, n) && t.op == s.op
    && (if n in s.db.intents then Recovers(h, s.disk, s.db, n, t.disk, t.db) else Inspects(h, s.disk, s.db, n, t.disk, t.db))
  }

  ghost predicate BeginLocal(s: Node, t: Node, paths: set<string>) {
    && s.op.Idle?
    && t == s.(db := s.db.(local := s.db.local + paths), op := Committing(paths))
  }

  /** Any change of the disk at or below the announced paths. */
  ghost predicate Mutates(s: Node, t: Node) {
    && s.op.Committing? && t == s.(disk := t.disk) && IsTree(t.disk)
    && forall n :: !InPaths(s.op.paths, n) ==> (n in s.disk <==> n in t.disk) && (n in s.disk ==> t.disk[n] == s.disk[n])
  }

  /** Everything live or on disk at or below the paths is looked at. */
  ghost predicate StartsIndexing(s: Node, t: Node, paths: set<string>) {
    && ((s.op.Committing? && paths == s.op.paths) || (s.op.Down? && paths == s.db.local))
    && t.op.Indexing? && t == s.(op := Indexing(paths, t.op.todo, s.op.Down?))
    && forall n :: n in t.op.todo <==> InPaths(paths, n) && (Live(s.db, n) || n in s.disk)
  }

  /** A name's replica intent is settled first, then its bytes are compared. */
  ghost predicate IndexesOne(h: Digest, s: Node, t: Node, n: string) {
    && s.op.Indexing? && n in s.op.todo
    && (if n in s.db.intents
        then Recovers(h, s.disk, s.db, n, t.disk, t.db) && t.op == s.op
        else Inspects(h, s.disk, s.db, n, t.disk, t.db) && t.op == s.op.(todo := s.op.todo - {n}))
  }

  ghost predicate EndLocal(s: Node, t: Node) {
    && s.op.Indexing? && s.op.todo == {}
    && t == s.(db := s.db.(local := s.db.local - s.op.paths), op := if s.op.starting then Resolving else Idle(None))
  }

  ghost predicate ResolvesOne(h: Digest, s: Node, t: Node, n: string) {
    s.op.Resolving? && Recovers(h, s.disk, s.db, n, t.disk, t.db) && t.op == s.op
  }

  ghost predicate Starts(s: Node, t: Node) {
    s.op.Resolving? && s.db.intents == map[] && t == s.(op := Idle(None))
  }

  function StageReplica(db: Db, m: FileMeta): Db {
    db.(intents := db.intents[m.name := m])
  }

  ghost predicate Stages(s: Node, t: Node, m: FileMeta, change: Change, next: Op) {
    t == s.(db := StageReplica(s.db, m), op := Staged(m, change, next))
  }

  /** A state this node already holds, or a greater one. */
  ghost predicate ApplySkips(s: Node, t: Node, m: FileMeta) {
    s.op.Idle? && !RemoteWins(s.db.Row(m.name), m) && t == s.(op := Idle(Some(m)))
  }

  ghost predicate ValidState(m: FileMeta) {
    Clock.ValidClock(m) && m.name != "" && (m.supersededBy != "" ==> m.deleted)
  }

  /** A plain deletion. */
  ghost predicate AppliesDeletion(s: Node, t: Node, m: FileMeta) {
    && s.op.Idle? && ValidState(m) && m.deleted && m.supersededBy == ""
    && m.name !in s.db.intents && RemoteWins(s.db.Row(m.name), m)
    && Stages(s, t, m, Remove, Idle(Some(m)))
  }

  /** The same content under a newer state: only the timestamp changes. */
  ghost predicate AppliesTimestamp(s: Node, t: Node, m: FileMeta) {
    && s.op.Idle? && ValidState(m) && !m.deleted
    && m.name !in s.db.intents && RemoteWins(s.db.Row(m.name), m)
    && Live(s.db, m.name) && s.db.files[m.name].hash == m.hash && s.db.files[m.name].size == m.size
    && Stages(s, t, m, Touch, Idle(Some(m)))
  }

  predicate Verified(h: Digest, m: FileMeta, data: string) {
    h(data) == m.hash && |data| == m.size as int
  }

  /** The files on disk that block a name. */
  ghost predicate Blocking(disk: Disk, n: string, conflicts: set<string>) {
    forall k :: k in conflicts <==> k in disk && NamespaceConflict(k, n)
  }

  /** A verified download, with every blocking file observed: the greatest state wins. */
  ghost predicate AppliesFile(h: Digest, s: Node, t: Node, m: FileMeta, data: string, conflicts: set<string>) {
    && s.op.Idle? && ValidState(m) && !m.deleted && Verified(h, m, data)
    && m.name !in s.db.intents && RemoteWins(s.db.Row(m.name), m)
    && Blocking(s.disk, m.name, conflicts)
    && (forall k :: k in conflicts ==> k !in s.db.intents && Agree(h, s.disk, s.db, k))
    && (|| (t == s.(op := Settling(m, data, conflicts)) && forall k :: k in conflicts ==> CompareMeta(s.db.files[k], m) <= 0)
        || (exists w :: Wins(s.db, m, conflicts, w) && t == s.(op := Yielding(m, data, s.db.files[w]))))
  }

  /** `w` is the greatest of the blocking files and greater than the incoming one. */
  ghost predicate Wins(db: Db, m: FileMeta, conflicts: set<string>, w: string)
    requires conflicts <= db.files.Keys
  {
    && w in conflicts && CompareMeta(db.files[w], m) > 0
    && forall k :: k in conflicts ==> CompareMeta(db.files[k], db.files[w]) <= 0
  }

  /** A tombstone left by a settlement elsewhere. */
  ghost predicate AppliesSuperseded(s: Node, t: Node, m: FileMeta) {
    && s.op.Idle? && ValidState(m) && m.deleted && m.supersededBy != ""
    && t == s.(op := Superseding(m, Idle(Some(m))))
  }

  /** The incoming file displaces one blocking file after the other, then is published. */
  ghost predicate SettlesOne(s: Node, t: Node, c: string) {
    && s.op.Settling? && c in s.op.conflicts
    && t == s.(op := Superseding(Superseded(c, s.op.meta), s.op.(conflicts := s.op.conflicts - {c})))
  }

  ghost predicate Settled(s: Node, t: Node) {
    && s.op.Settling? && s.op.conflicts == {}
    && Stages(s, t, s.op.meta, Write(s.op.data), Idle(Some(s.op.meta)))
  }

  /** The conflict copy of `m` exists: its row is live with this content. */
  ghost predicate Preserved(h: Digest, s: Node, m: FileMeta) {
    var copy := ConflictCopyName(m.name, m.hash);
    && copy !in s.db.intents && Agree(h, s.disk, s.db, copy)
    && Live(s.db, copy) && s.db.files[copy].hash == m.hash && s.db.files[copy].size == m.size
  }

  /** Publishing a conflict copy of `m` with the bytes `data`. Its clock is raised above
      a copy that an operator removed. */
  ghost predicate Preserves(h: Digest, s: Node, t: Node, m: FileMeta, data: string) {
    var copy := ConflictCopyName(m.name, m.hash);
    && Verified(h, m, data) && Clock.ValidClock(m)
    && copy !in s.db.intents && Agree(h, s.disk, s.db, copy) && !Live(s.db, copy)
    && exists stored ::
         && Advanced(ConflictCopy(m), s.db.Row(copy), stored)
         && Stages(s, t, stored, Write(data), s.op)
  }

  /** What `AdvanceClock` returns. */
  ghost predicate Advanced(f: FileMeta, previous: Option<FileMeta>, r: FileMeta) {
    && Clock.ValidClock(f) && (previous.Some? ==> Clock.ValidClock(previous.value))
    && r == f.(clock := r.clock, bigClock := r.bigClock) && Clock.ValidClock(r)
    && Clock.ClockValue(r) == Clock.AdvancedValue(f, previous)
  }

  ghost predicate PreservesIncoming(h: Digest, s: Node, t: Node) {
    s.op.Yielding? && Preserves(h, s, t, s.op.meta, s.op.data)
  }

  ghost predicate Yields(h: Digest, s: Node, t: Node) {
    && s.op.Yielding? && Preserved(h, s, s.op.meta)
    && t == s.(op := Superseding(Superseded(s.op.meta.name, s.op.winner), Idle(Some(s.op.meta))))
  }

  ghost predicate PreservesLocal(h: Digest, s: Node, t: Node) {
    && s.op.Superseding?
    && var n := s.op.tomb.name;
       && n !in s.db.intents && Agree(h, s.disk, s.db, n) && Live(s.db, n)
       && RemoteWins(s.db.Row(n), s.op.tomb)
       && Preserves(h, s, t, s.db.files[n], s.disk[n].data)
  }

  /** The tombstone is staged only once a live file at its name has been preserved. */
  ghost predicate Supersedes(h: Digest, s: Node, t: Node) {
    && s.op.Superseding?
    && var n := s.op.tomb.name;
       && n !in s.db.intents && Agree(h, s.disk, s.db, n)
       && RemoteWins(s.db.Row(n), s.op.tomb)
       && (Live(s.db, n) ==> Preserved(h, s, s.db.files[n]))
       && Stages(s, t, s.op.tomb, Remove, s.op.next)
  }

  ghost predicate SupersedeSkips(s: Node, t: Node) {
    && s.op.Superseding? && !RemoteWins(s.db.Row(s.op.tomb.name), s.op.tomb)
    && t == s.(op := s.op.next)
  }

  /** The one disk change of a staged operation. */
  ghost predicate ChangesDisk(s: Node, t: Node) {
    && s.op.Staged? && t == s.(disk := t.disk, op := Changed(s.op.meta, s.op.next))
    && var n := s.op.meta.name;
       match s.op.change
       case Write(data) =>
         && (forall k :: k in s.disk ==> !NamespaceConflict(k, n))
         && t.disk == s.disk[n := File(data, s.op.meta.modTime)]
       case Remove => t.disk == s.disk - {n}
       case Touch => n in s.disk && t.disk == s.disk[n := s.disk[n].(mtime := s.op.meta.modTime)]
  }

  /** `PutRemote` clears the intent in the same transaction. */
  ghost predicate Commits(s: Node, t: Node) {
    s.op.Changed? && t == s.(db := Put(s.db, s.op.meta), op := s.op.next)
  }

  /** An error ends the operation and leaves its intents behind. */
  ghost predicate Aborts(s: Node, t: Node) {
    !s.op.Down? && !s.op.Resolving? && !(s.op.Indexing? && s.op.starting) && t == s.(op := Idle(None))
  }

  ghost predicate Crashes(s: Node, t: Node) {
    t == s.(op := Down)
  }

  ghost predicate LocalStep(h: Digest, s: Node, t: Node) {
    || (exists paths :: BeginLocal(s, t, paths)) || Mutates(s, t) || (exists paths :: StartsIndexing(s, t, paths))
    || (exists n :: IndexesOne(h, s, t, n)) || EndLocal(s, t)
  }

  ghost predicate RecoveryStep(h: Digest, s: Node, t: Node) {
    Crashes(s, t) || Aborts(s, t) || (exists n :: ResolvesOne(h, s, t, n)) || Starts(s, t) || (exists n :: RefreshStep(h, s, t, n))
  }

  ghost predicate ApplyStep(h: Digest, s: Node, t: Node, m: FileMeta) {
    || ApplySkips(s, t, m) || AppliesDeletion(s, t, m) || AppliesTimestamp(s, t, m) || AppliesSuperseded(s, t, m)
    || (exists data, conflicts :: AppliesFile(h, s, t, m, data, conflicts))
  }

  ghost predicate SettleStep(h: Digest, s: Node, t: Node) {
    || (exists c :: SettlesOne(s, t, c)) || Settled(s, t) || PreservesIncoming(h, s, t) || Yields(h, s, t)
    || PreservesLocal(h, s, t) || Supersedes(h, s, t) || SupersedeSkips(s, t) || ChangesDisk(s, t) || Commits(s, t)
  }

  ghost predicate Next(h: Digest, s: Node, t: Node) {
    || LocalStep(h, s, t) || RecoveryStep(h, s, t) || (exists m :: ApplyStep(h, s, t, m)) || SettleStep(h, s, t)
  }

  // ----- the invariant -----

  ghost predicate RowsValid(db: Db) {
    && (forall n :: n in db.files ==> db.files[n].name == n && ValidState(db.files[n]))
    && (forall n :: n in db.intents ==> db.intents[n].name == n && ValidState(db.intents[n]))
  }

  /** A pending replica intent never ranks below the row it may replace. */
  ghost predicate IntentsAbove(db: Db) {
    forall n :: n in db.intents ==> CompareState(db.Row(n), Some(db.intents[n])) <= 0
  }

  /** Index and disk agree at every name that no intent covers; a name covered by a
      replica intent alone agrees or holds what the intent describes. */
  ghost predicate Consistent(h: Digest, disk: Disk, db: Db) {
    forall n :: !LocalIntent(db, n) ==>
      Agree(h, disk, db, n) || (n in db.intents && Matches(h, disk, db.intents[n]))
  }

  ghost predicate IsFile(m: FileMeta) {
    ValidState(m) && !m.deleted
  }

  ghost predicate SettlingReady(h: Digest, db: Db, op: Op)
    requires op.Settling?
  {
    && IsFile(op.meta) && Verified(h, op.meta, op.data)
    && op.meta.name !in db.intents && RemoteWins(db.Row(op.meta.name), op.meta)
    && forall c :: c in op.conflicts ==> c != "" && NamespaceConflict(c, op.meta.name)
  }

  ghost predicate YieldingReady(h: Digest, op: Op)
    requires op.Yielding?
  {
    && IsFile(op.meta) && Verified(h, op.meta, op.data) && IsFile(op.winner)
    && NamespaceConflict(op.meta.name, op.winner.name) && CompareMeta(op.meta, op.winner) <= 0
  }

  ghost predicate SupersedingReady(h: Digest, db: Db, op: Op)
    requires op.Superseding?
  {
    && ValidState(op.tomb) && op.tomb.supersededBy != ""
    && (|| (op.next.Idle? && op.next.done.Some? && op.next.done.value.name == op.tomb.name && CompareMeta(op.next.done.value, op.tomb) <= 0)
        || (op.next.Settling? && NamespaceConflict(op.tomb.name, op.next.meta.name) && SettlingReady(h, db, op.next)))
  }

  /** An operation between two staged changes. */
  ghost predicate Ready(h: Digest, db: Db, op: Op) {
    && (op.Idle? && op.done.Some? ==> CompareState(op.done, db.Row(op.done.value.name)) <= 0)
    && (op.Settling? ==> SettlingReady(h, db, op))
    && (op.Yielding? ==> YieldingReady(h, op))
    && (op.Superseding? ==> SupersedingReady(h, db, op))
  }

  /** Where a staged change of `m` may return to. */
  ghost predicate Returns(h: Digest, db: Db, m: FileMeta, next: Op) {
    || (next.Idle? && next.done.Some? && next.done.value.name == m.name && CompareMeta(next.done.value, m) <= 0)
    || (&& (next.Settling? || next.Yielding? || next.Superseding?) && Ready(h, db, next)
        && Pending(next) != Some(m.name) && (next.Superseding? ==> next.tomb.name != m.name))
  }

  ghost predicate ChangeFits(h: Digest, m: FileMeta, change: Change) {
    && (change.Remove? <==> m.deleted)
    && (change.Write? ==> Verified(h, m, change.data))
  }

  ghost predicate IndexingValid(h: Digest, disk: Disk, db: Db, op: Op)
    requires op.Indexing?
  {
    && op.paths <= db.local && (op.starting ==> op.paths == db.local)
    && forall n :: InPaths(op.paths, n) && n !in op.todo ==> Agree(h, disk, db, n)
  }

  ghost predicate StagedValid(h: Digest, disk: Disk, db: Db, op: Op)
    requires op.Staged?
  {
    && op.meta.name in db.intents && db.intents[op.meta.name] == op.meta
    && ChangeFits(h, op.meta, op.change) && Returns(h, db, op.meta, op.next)
    && (op.change.Touch? && !LocalIntent(db, op.meta.name) ==> HasContent(h, disk, op.meta.name, op.meta))
  }

  ghost predicate ChangedValid(h: Digest, disk: Disk, db: Db, op: Op)
    requires op.Changed?
  {
    && op.meta.name in db.intents && db.intents[op.meta.name] == op.meta && Returns(h, db, op.meta, op.next)
    && (LocalIntent(db, op.meta.name) || Matches(h, disk, op.meta))
  }

  ghost predicate OpValid(h: Digest, disk: Disk, db: Db, op: Op) {
    && (op.Resolving? ==> db.local == {})
    && (op.Committing? ==> op.paths <= db.local)
    && (op.Indexing? ==> IndexingValid(h, disk, db, op))
    && (op.Staged? ==> StagedValid(h, disk, db, op))
    && (op.Changed? ==> ChangedValid(h, disk, db, op))
    && Ready(h, db, op)
  }

  ghost predicate Core(h: Digest, disk: Disk, db: Db) {
    IsTree(disk) && RowsValid(db) && IntentsAbove(db) && Consistent(h, disk, db)
  }

  ghost predicate Inv(h: Digest, s: Node) {
    Core(h, s.disk, s.db) && OpValid(h, s.disk, s.db, s.op)
  }

  /** No name's rank goes down. */
  ghost predicate RanksRise(a: Db, b: Db) {
    forall n :: CompareState(a.Row(n), b.Row(n)) <= 0
  }

  // ----- what a single effect keeps -----

  lemma CompareIgnoresVersion(m: FileMeta, v: int, x: Option<FileMeta>)
    ensures CompareState(Some(m.(version := v)), x) == CompareState(Some(m), x)
    ensures CompareState(x, Some(m.(version := v))) == CompareState(x, Some(m))
  {
  }

  lemma PutRises(db: Db, m: FileMeta)
    requires CompareState(db.Row(m.name), Some(m)) <= 0
    ensures RanksRise(db, Put(db, m))
  {
    var db' := Put(db, m);
    forall n ensures CompareState(db.Row(n), db'.Row(n)) <= 0 {
      if n == m.name {
        CompareIgnoresVersion(m, db.lastVersion + 1, db.Row(n));
      } else {
        assert db'.Row(n) == db.Row(n);
        CompareStateReflexive(db.Row(n));
      }
    }
  }

  /** `db'` and `disk'` differ only at `n`, where no intent is left and no file has
      appeared, gone or changed its bytes. */
  ghost predicate OnlyAt(disk: Disk, db: Db, n: string, disk': Disk, db': Db) {
    && (forall k :: k != n ==> db'.Row(k) == db.Row(k))
    && db'.intents == db.intents - {n} && db'.local == db.local
    && disk'.Keys == disk.Keys && (forall k :: k in disk ==> disk'[k].data == disk[k].data && (k != n ==> disk'[k] == disk[k]))
  }

  lemma OnlyAtKeepsOthers(h: Digest, disk: Disk, db: Db, n: string, disk': Disk, db': Db, k: string)
    requires OnlyAt(disk, db, n, disk', db') && k != n
    ensures Agree(h, disk', db', k) == Agree(h, disk, db, k)
  {
    assert db'.Row(k) == db.Row(k);
  }

  lemma OnlyAtKeepsCore(h: Digest, disk: Disk, db: Db, n: string, disk': Disk, db': Db)
    requires Core(h, disk, db) && OnlyAt(disk, db, n, disk', db')
    requires LocalIntent(db, n) || Agree(h, disk', db', n)
    requires n in db'.files ==> db'.files[n].name == n && ValidState(db'.files[n])
    ensures Core(h, disk', db')
  {
    assert forall k :: LocalIntent(db', k) <==> LocalIntent(db, k);
    forall k | k in db'.files ensures db'.files[k].name == k && ValidState(db'.files[k]) {
      assert db'.Row(k) == db.Row(k) || k == n;
    }
    forall k | k in db'.intents ensures CompareState(db'.Row(k), Some(db'.intents[k])) <= 0 {
      assert db'.Row(k) == db.Row(k);
    }
    forall k | !LocalIntent(db', k)
      ensures Agree(h, disk', db', k) || (k in db'.intents && Matches(h, disk', db'.intents[k]))
    {
      if k != n {
        OnlyAtKeepsOthers(h, disk, db, n, disk', db', k);
      }
    }
  }

  lemma RecoversKeeps(h: Digest, disk: Disk, db: Db, n: string, disk': Disk, db': Db)
    requires Core(h, disk, db) && Recovers(h, disk, db, n, disk', db')
    ensures Core(h, disk', db') && OnlyAt(disk, db, n, disk', db') && RanksRise(db, db')
  {
    RecoversOnly(h, disk, db, n, disk', db');
    var m := db.intents[n];
    if Matches(h, disk, m) {
      PutRises(db, m);
    } else {
      forall k ensures CompareState(db.Row(k), db'.Row(k)) <= 0 { CompareStateReflexive(db.Row(k)); }
    }
    OnlyAtKeepsCore(h, disk, db, n, disk', db');
  }

  lemma RecoversOnly(h: Digest, disk: Disk, db: Db, n: string, disk': Disk, db': Db)
    requires RowsValid(db) && Recovers(h, disk, db, n, disk', db')
    ensures OnlyAt(disk, db, n, disk', db')
  {
  }

  lemma PutLocalRises(db: Db, m: FileMeta, db': Db)
    requires PutLocal(db, m, db')
    ensures RanksRise(db, db')
    ensures m.name in db'.files && db'.files[m.name] == m.(clock := db'.files[m.name].clock, bigClock := db'.files[m.name].bigClock, version := db'.files[m.name].version)
    ensures Clock.ValidClock(db'.files[m.name])
    ensures db'.intents == db.intents - {m.name} && db'.local == db.local && forall k :: k != m.name ==> db'.Row(k) == db.Row(k)
  {
    var stored :| LocalState(db.files, m, stored) && db' == Put(db, stored);
    if m.name in db.files {
      LocalWriteRanksAbove(db.files, m, stored, m.name);
      CompareStateFlip(Some(stored), Some(db.files[m.name]));
    }
    PutRises(db, stored);
  }

  /** Indexing a name makes it agree; when it agrees already, its rank stays. */
  lemma InspectsKeeps(h: Digest, disk: Disk, db: Db, n: string, disk': Disk, db': Db)
    requires Core(h, disk, db) && n !in db.intents && Inspects(h, disk, db, n, disk', db')
    ensures Core(h, disk', db') && OnlyAt(disk, db, n, disk', db') && RanksRise(db, db')
    ensures Agree(h, disk', db', n)
    ensures !LocalIntent(db, n) ==> db' == db
  {
    if db' == db {
      forall k ensures CompareState(db.Row(k), db'.Row(k)) <= 0 { CompareStateReflexive(db.Row(k)); }
      assert db.intents - {n} == db.intents;
    } else if n !in disk {
      PutLocalRises(db, LocalMeta(n, db.files[n].modTime, 0, "", true), db');
    } else {
      PutLocalRises(db, LocalMeta(n, disk[n].mtime, |disk[n].data| as int64, h(disk[n].data), false), db');
    }
    OnlyAtKeepsCore(h, disk, db, n, disk', db');
  }

  // ----- what the waiting operation needs stays true -----

  /** Rows may rise and intents may go, except where the operation waits. */
  lemma ReadyStable(h: Digest, db: Db, db': Db, op: Op)
    requires Ready(h, db, op) && RanksRise(db, db')
    requires Pending(op).Some? ==>
      db'.Row(Pending(op).value) == db.Row(Pending(op).value) && (Pending(op).value in db'.intents ==> Pending(op).value in db.intents)
    ensures Ready(h, db', op)
  {
    if op.Idle? && op.done.Some? {
      CompareStateTransitive(op.done, db.Row(op.done.value.name), db'.Row(op.done.value.name));
    }
  }

  lemma RefreshKeeps(h: Digest, s: Node, t: Node, n: string)
    requires Inv(h, s) && RefreshStep(h, s, t, n)
    ensures Inv(h, t) && RanksRise(s.db, t.db)
  {
    if n in s.db.intents {
      RecoversKeeps(h, s.disk, s.db, n, t.disk, t.db);
    } else {
      InspectsKeeps(h, s.disk, s.db, n, t.disk, t.db);
    }
    ReadyStable(h, s.db, t.db, s.op);
  }

  lemma IndexesOneKeeps(h: Digest, s: Node, t: Node, n: string)
    requires Inv(h, s) && IndexesOne(h, s, t, n)
    ensures Inv(h, t) && RanksRise(s.db, t.db)
  {
    if n in s.db.intents {
      RecoversKeeps(h, s.disk, s.db, n, t.disk, t.db);
    } else {
      InspectsKeeps(h, s.disk, s.db, n, t.disk, t.db);
    }
    forall k | InPaths(t.op.paths, k) && k !in t.op.todo ensures Agree(h, t.disk, t.db, k) {
      if k != n {
        OnlyAtKeepsOthers(h, s.disk, s.db, n, t.disk, t.db, k);
      }
    }
  }

  lemma SameRowsRise(db: Db, db': Db)
    requires db'.files == db.files
    ensures RanksRise(db, db')
  {
    forall n ensures CompareState(db.Row(n), db'.Row(n)) <= 0 {
      assert db'.Row(n) == db.Row(n);
      CompareStateReflexive(db.Row(n));
    }
  }

  /** More local intents only cover more. */
  lemma BeginLocalKeeps(h: Digest, s: Node, t: Node, paths: set<string>)
    requires Inv(h, s) && BeginLocal(s, t, paths)
    ensures Inv(h, t)
  {
    forall n | LocalIntent(s.db, n) ensures LocalIntent(t.db, n) {
      var p :| p in s.db.local && AtOrUnder(n, p);
      assert p in t.db.local;
    }
    assert forall n :: Agree(h, t.disk, t.db, n) == Agree(h, s.disk, s.db, n);
    assert forall n :: t.db.Row(n) == s.db.Row(n);
  }

  /** The disk changes only where a local intent covers it. */
  lemma MutatesKeeps(h: Digest, s: Node, t: Node)
    requires Inv(h, s) && Mutates(s, t)
    ensures Inv(h, t)
  {
    forall n | InPaths(s.op.paths, n) ensures LocalIntent(s.db, n) {
      var p :| p in s.op.paths && AtOrUnder(n, p);
      assert p in s.db.local;
    }
  }

  lemma StartsIndexingKeeps(h: Digest, s: Node, t: Node, paths: set<string>)
    requires Inv(h, s) && StartsIndexing(s, t, paths)
    ensures Inv(h, t)
  {
  }

  /** Dropping the local intents uncovers only names that have been indexed. */
  lemma EndLocalKeeps(h: Digest, s: Node, t: Node)
    requires Inv(h, s) && EndLocal(s, t)
    ensures Inv(h, t)
  {
    assert forall n :: Agree(h, t.disk, t.db, n) == Agree(h, s.disk, s.db, n);
    assert forall n :: t.db.Row(n) == s.db.Row(n);
    forall n | !LocalIntent(t.db, n)
      ensures Agree(h, t.disk, t.db, n) || (n in t.db.intents && Matches(h, t.disk, t.db.intents[n]))
    {
      if LocalIntent(s.db, n) {
        var p :| p in s.db.local && AtOrUnder(n, p);
        assert p in s.op.paths || p in t.db.local;
        assert InPaths(s.op.paths, n);
      }
    }
  }

  lemma LocalStepKeeps(h: Digest, s: Node, t: Node)
    requires Inv(h, s) && LocalStep(h, s, t)
    ensures Inv(h, t) && RanksRise(s.db, t.db)
  {
    if n :| IndexesOne(h, s, t, n) {
      IndexesOneKeeps(h, s, t, n);
    } else {
      SameRowsRise(s.db, t.db);
      if paths :| BeginLocal(s, t, paths) {
        BeginLocalKeeps(h, s, t, paths);
      } else if Mutates(s, t) {
        MutatesKeeps(h, s, t);
      } else if paths :| StartsIndexing(s, t, paths) {
        StartsIndexingKeeps(h, s, t, paths);
      } else {
        EndLocalKeeps(h, s, t);
      }
    }
  }

  lemma RecoveryStepKeeps(h: Digest, s: Node, t: Node)
    requires Inv(h, s) && RecoveryStep(h, s, t)
    ensures Inv(h, t) && RanksRise(s.db, t.db)
  {
    if n :| RefreshStep(h, s, t, n) {
      RefreshKeeps(h, s, t, n);
    } else if n :| ResolvesOne(h, s, t, n) {
      RecoversKeeps(h, s.disk, s.db, n, t.disk, t.db);
    } else {
      SameRowsRise(s.db, t.db);
    }
  }

  /** Staging an intent above the row, for a change that fits it. */
  lemma StagesKeeps(h: Digest, s: Node, t: Node, m: FileMeta, change: Change, next: Op)
    requires Core(h, s.disk, s.db) && Stages(s, t, m, change, next)
    requires ValidState(m) && m.name !in s.db.intents && CompareState(s.db.Row(m.name), Some(m)) <= 0
    requires ChangeFits(h, m, change) && Returns(h, s.db, m, next)
    requires change.Touch? && !LocalIntent(s.db, m.name) ==> HasContent(h, s.disk, m.name, m)
    ensures Inv(h, t) && RanksRise(s.db, t.db)
  {
    SameRowsRise(s.db, t.db);
    assert forall n :: t.db.Row(n) == s.db.Row(n);
    assert forall n :: LocalIntent(t.db, n) == LocalIntent(s.db, n);
    assert forall n :: Agree(h, t.disk, t.db, n) == Agree(h, s.disk, s.db, n);
    if !next.Idle? {
      ReadyStable(h, s.db, t.db, next);
    }
  }

  lemma ApplyStepKeeps(h: Digest, s: Node, t: Node, m: FileMeta)
    requires Inv(h, s) && ApplyStep(h, s, t, m)
    ensures Inv(h, t) && RanksRise(s.db, t.db)
  {
    CompareStateFlip(Some(m), s.db.Row(m.name));
    CompareStateReflexive(Some(m));
    if AppliesDeletion(s, t, m) {
      StagesKeeps(h, s, t, m, Remove, Idle(Some(m)));
    } else if AppliesTimestamp(s, t, m) {
      StagesKeeps(h, s, t, m, Touch, Idle(Some(m)));
    } else {
      SameRowsRise(s.db, t.db);
      if data, conflicts :| AppliesFile(h, s, t, m, data, conflicts) {
        AppliesFileKeeps(h, s, t, m, data, conflicts);
      }
    }
  }

  lemma AppliesFileKeeps(h: Digest, s: Node, t: Node, m: FileMeta, data: string, conflicts: set<string>)
    requires Inv(h, s) && AppliesFile(h, s, t, m, data, conflicts)
    ensures Inv(h, t)
  {
    if t.op.Yielding? {
      var w :| Wins(s.db, m, conflicts, w) && t == s.(op := Yielding(m, data, s.db.files[w]));
      CompareStateFlip(Some(s.db.files[w]), Some(m));
    }
  }

  /** A conflict copy is never the name an operation is about to publish. */
  lemma CopyIsNotPending(c: string, hash: string, pending: string)
    requires c == pending || NamespaceConflict(c, pending)
    ensures ConflictCopyName(c, hash) != pending
  {
    CopyNameOutsideTree(c, hash);
    if Under(pending, c) {
      UnderHasSlash(pending, c);
    }
  }

  lemma UnderHasSlash(n: string, dir: string)
    requires Under(n, dir)
    ensures '/' in n
  {
    assert n[|dir|] == '/';
  }

  lemma PreservesKeeps(h: Digest, s: Node, t: Node, m: FileMeta, data: string)
    requires Inv(h, s) && Preserves(h, s, t, m, data)
    requires IsFile(m) && (s.op.Yielding? || s.op.Superseding?)
    requires Pending(s.op).Some? ==> m.name == Pending(s.op).value || NamespaceConflict(m.name, Pending(s.op).value)
    requires s.op.Superseding? ==> m.name == s.op.tomb.name
    ensures Inv(h, t) && RanksRise(s.db, t.db)
  {
    var copy := ConflictCopyName(m.name, m.hash);
    var stored :| Advanced(ConflictCopy(m), s.db.Row(copy), stored) && Stages(s, t, stored, Write(data), s.op);
    CopyNameOutsideTree(m.name, m.hash);
    if Pending(s.op).Some? {
      CopyIsNotPending(m.name, m.hash, Pending(s.op).value);
    }
    if copy in s.db.files {
      Clock.CompareClockNumeric(s.db.files[copy], stored);
    }
    StagesKeeps(h, s, t, stored, Write(data), s.op);
  }

  lemma SupersededIsValid(h: Digest, name: string, winner: FileMeta)
    requires IsFile(winner) && name != ""
    ensures ValidState(Superseded(name, winner)) && Superseded(name, winner).supersededBy != ""
    ensures CompareMeta(Superseded(name, winner), winner) == 0 && CompareMeta(winner, Superseded(name, winner)) == 0
  {
    SupersededTiesWithWinner(name, winner);
    CompareStateFlip(Some(Superseded(name, winner)), Some(winner));
  }

  /** The disk differs at `n` alone. */
  ghost predicate OnlyFile(disk: Disk, n: string, disk': Disk) {
    forall k :: k != n ==> (k in disk' <==> k in disk) && (k in disk ==> disk'[k] == disk[k])
  }

  lemma ChangedFile(h: Digest, s: Node, t: Node)
    requires IsTree(s.disk) && ChangesDisk(s, t) && ValidState(s.op.meta) && StagedValid(h, s.disk, s.db, s.op)
    ensures IsTree(t.disk) && OnlyFile(s.disk, s.op.meta.name, t.disk)
    ensures LocalIntent(s.db, s.op.meta.name) || Matches(h, t.disk, s.op.meta)
  {
  }

  /** A change at a name with a pending intent keeps the others consistent. */
  lemma ConsistentExcept(h: Digest, disk: Disk, db: Db, n: string, disk': Disk)
    requires Consistent(h, disk, db) && RowsValid(db) && OnlyFile(disk, n, disk') && n in db.intents
    requires LocalIntent(db, n) || Matches(h, disk', db.intents[n])
    ensures Consistent(h, disk', db)
  {
    forall k | !LocalIntent(db, k)
      ensures Agree(h, disk', db, k) || (k in db.intents && Matches(h, disk', db.intents[k]))
    {
      if k != n {
        assert Agree(h, disk', db, k) == Agree(h, disk, db, k);
        assert k in db.intents ==> db.intents[k].name == k;
      }
    }
  }

  lemma ChangesDiskKeeps(h: Digest, s: Node, t: Node)
    requires Inv(h, s) && ChangesDisk(s, t)
    ensures Inv(h, t) && RanksRise(s.db, t.db)
  {
    SameRowsRise(s.db, t.db);
    assert s.op.meta == s.db.intents[s.op.meta.name];
    ChangedFile(h, s, t);
    ConsistentExcept(h, s.disk, s.db, s.op.meta.name, t.disk);
  }

  lemma CommitsKeeps(h: Digest, s: Node, t: Node)
    requires Inv(h, s) && Commits(s, t)
    ensures Inv(h, t) && RanksRise(s.db, t.db)
  {
    var m := s.op.meta;
    PutRises(s.db, m);
    OnlyAtKeepsCore(h, s.disk, s.db, m.name, t.disk, t.db);
    if s.op.next.Idle? {
      CompareIgnoresVersion(m, s.db.lastVersion + 1, Some(s.op.next.done.value));
    } else {
      ReadyStable(h, s.db, t.db, s.op.next);
    }
  }

  lemma SettleStepKeeps(h: Digest, s: Node, t: Node)
    requires Inv(h, s) && SettleStep(h, s, t)
    ensures Inv(h, t) && RanksRise(s.db, t.db)
  {
    if ChangesDisk(s, t) {
      ChangesDiskKeeps(h, s, t);
    } else if Commits(s, t) {
      CommitsKeeps(h, s, t);
    } else if PreservesIncoming(h, s, t) {
      PreservesKeeps(h, s, t, s.op.meta, s.op.data);
    } else if PreservesLocal(h, s, t) {
      PreservesKeeps(h, s, t, s.db.files[s.op.tomb.name], s.disk[s.op.tomb.name].data);
    } else if Settled(s, t) {
      var m := s.op.meta;
      CompareStateFlip(Some(m), s.db.Row(m.name));
      CompareStateReflexive(Some(m));
      StagesKeeps(h, s, t, m, Write(s.op.data), Idle(Some(m)));
    } else if Supersedes(h, s, t) {
      var tomb := s.op.tomb;
      CompareStateFlip(Some(tomb), s.db.Row(tomb.name));
      StagesKeeps(h, s, t, tomb, Remove, s.op.next);
    } else {
      SameRowsRise(s.db, t.db);
      SettleMoves(h, s, t);
    }
  }

  lemma SettleMoves(h: Digest, s: Node, t: Node)
    requires Inv(h, s) && t.db == s.db && t.disk == s.disk
    requires (exists c :: SettlesOne(s, t, c)) || Yields(h, s, t) || SupersedeSkips(s, t)
    ensures Inv(h, t)
  {
    if c :| SettlesOne(s, t, c) {
      SupersededIsValid(h, c, s.op.meta);
    } else if Yields(h, s, t) {
      var m, w := s.op.meta, s.op.winner;
      SupersededIsValid(h, m.name, w);
      CompareMetaTransitive(m, w, Superseded(m.name, w));
    } else {
      var tomb, next := s.op.tomb, s.op.next;
      CompareStateFlip(Some(tomb), s.db.Row(tomb.name));
      if next.Idle? {
        CompareStateTransitive(next.done, Some(tomb), s.db.Row(tomb.name));
      }
    }
  }

  lemma NextKeeps(h: Digest, s: Node, t: Node)
    requires Inv(h, s) && Next(h, s, t)
    ensures Inv(h, t) && RanksRise(s.db, t.db)
  {
    if LocalStep(h, s, t) {
      LocalStepKeeps(h, s, t);
    } else if RecoveryStep(h, s, t) {
      RecoveryStepKeeps(h, s, t);
    } else if m :| ApplyStep(h, s, t, m) {
      ApplyStepKeeps(h, s, t, m);
    } else {
      SettleStepKeeps(h, s, t);
    }
  }
}
