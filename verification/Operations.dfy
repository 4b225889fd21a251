/** The operations of a node as they are carried out: each effect on the disk or the
    database is one step of the node, so whatever steps keep holds after every
    execution, failing or cut anywhere. */
module Operations {
  import opened Meta
  import opened Conflicts
  import opened Rank
  import opened Store
  import opened Node
  import Clock
  import Recovery

  /** What becomes of an effect: it happens, it fails, or the process ends before it. */
  datatype Fate = Happens | Fails | Cut

  datatype Outcome = Ok | Error | Stopped

  ghost predicate NamesCanonical(disk: Disk, db: Db) {
    && (forall n :: n in disk ==> CanonicalName(n))
    && (forall n :: n in db.files ==> CanonicalName(n))
    && (forall n :: n in db.intents ==> CanonicalName(n))
  }

  /** `good` is kept by every step, and is no weaker than the node's invariant. */
  ghost predicate Closed(h: Digest, good: Node -> bool) {
    && (forall s, t {:trigger Next(h, s, t)} :: good(s) && Next(h, s, t) ==> good(t))
    && (forall s {:trigger Inv(h, s)} :: good(s) ==> Inv(h, s))
  }

  /** Being the last state of a run is such a property. */
  ghost predicate Reachable(h: Digest, s: Node) {
    exists run :: Recovery.Run(h, run) && run[|run| - 1] == s
  }

  lemma ReachableByOneMore(h: Digest, s: Node, t: Node)
    requires Reachable(h, s) && Next(h, s, t)
    ensures Reachable(h, t)
  {
    var run :| Recovery.Run(h, run) && run[|run| - 1] == s;
    var run' := run + [t];
    forall i: nat ensures Recovery.Moves(h, run', i) {
      if i + 1 < |run| {
        assert Recovery.Moves(h, run, i);
      }
    }
    assert Recovery.Run(h, run') && run'[|run'| - 1] == t;
  }

  lemma ReachableIsClosed(h: Digest, good: Node -> bool)
    requires forall s {:trigger good(s)} :: good(s) <==> Reachable(h, s)
    ensures Closed(h, good)
  {
    forall s, t | good(s) && Next(h, s, t) ensures good(t) {
      ReachableByOneMore(h, s, t);
    }
    forall s | good(s) ensures Inv(h, s) {
      var run :| Recovery.Run(h, run) && run[|run| - 1] == s;
      Recovery.RunKeeps(h, run, |run| - 1);
    }
  }

  function SetOf(paths: seq<string>): set<string> {
    set p | p in paths
  }

  /** The same files with the same bytes; their times may differ. */
  ghost predicate SameData(a: Disk, b: Disk) {
    a.Keys == b.Keys && forall k :: k in a ==> a[k].data == b[k].data
  }

  lemma SameDataChains(a: Disk, b: Disk, c: Disk)
    requires SameData(a, b) && SameData(b, c)
    ensures SameData(a, c) == true
  {
  }

  lemma OnlyAtSameData(disk: Disk, db: Db, n: string, disk': Disk, db': Db)
    requires OnlyAt(disk, db, n, disk', db')
    ensures SameData(disk, disk') == true
  {
  }

  /** Every file's size fits the index. */
  ghost predicate Fits(disk: Disk) {
    forall n :: n in disk ==> |disk[n].data| <= MAX_INT64 as int
  }

  lemma SameDataFits(a: Disk, b: Disk)
    requires SameData(a, b) && Fits(a)
    ensures Fits(b) == true
  {
    forall n | n in b ensures |b[n].data| <= MAX_INT64 as int {
      assert n in a && a[n].data == b[n].data;
    }
  }

  lemma FewerFit(disk: Disk, n: string)
    requires Fits(disk)
    ensures Fits(disk - {n}) == true
  {
  }

  lemma CopyFits(h: Digest, disk: Disk, db: Db, original: FileMeta, t: Node)
    requires Fits(disk) && CopyOnly(disk, db, ConflictCopyName(original.name, original.hash), t.disk, t.db) && Preserved(h, t, original)
    ensures Fits(t.disk) == true
  {
    forall n | n in t.disk ensures |t.disk[n].data| <= MAX_INT64 as int {
      if n != ConflictCopyName(original.name, original.hash) {
        assert n in disk && t.disk[n] == disk[n];
      }
    }
  }

  /** What indexing refuses. */
  ghost predicate Unindexable(h: Digest, disk: Disk, db: Db, n: string) {
    if n in disk then |disk[n].data| > MAX_INT64 as int || Quarantines(h, disk, db, n)
    else Live(db, n) && IsDirectory(disk, n) && !LocalIntent(db, n)
  }

  /** Where disk and index are kept by the node alone there is nothing to refuse. */
  lemma NothingToRefuse(h: Digest, s: Node, n: string)
    requires Inv(h, s) && n !in s.db.intents && Fits(s.disk)
    ensures !Unindexable(h, s.disk, s.db, n)
  {
    assert LocalIntent(s.db, n) || Agree(h, s.disk, s.db, n);
  }

  /** No file stands where the name needs a directory, or below it. */
  ghost predicate Unblocked(disk: Disk, n: string) {
    forall k :: k in disk ==> !NamespaceConflict(k, n)
  }

  /** The disk change can be made. */
  ghost predicate Possible(disk: Disk, m: FileMeta, change: Change) {
    (change.Write? ==> Unblocked(disk, m.name)) && (change.Touch? ==> m.name in disk)
  }

  /** The name of a file's conflict copy is free, or holds just that content. */
  ghost predicate CopyRoom(h: Digest, disk: Disk, name: string, hash: string, size: int) {
    var copy := ConflictCopyName(name, hash);
    Unblocked(disk, copy) && (copy in disk ==> h(disk[copy].data) == hash && |disk[copy].data| == size)
  }

  ghost predicate RoomFor(h: Digest, disk: Disk, n: string) {
    n in disk ==> CopyRoom(h, disk, n, h(disk[n].data), |disk[n].data|)
  }

  /** Every file that blocks the name can be kept as a copy that does not, and so can the
      incoming one. */
  ghost predicate Settlable(h: Digest, disk: Disk, m: FileMeta) {
    forall k :: k in disk && NamespaceConflict(k, m.name) ==>
      && RoomFor(h, disk, k) && !NamespaceConflict(ConflictCopyName(k, h(disk[k].data)), m.name)
      && CopyRoom(h, disk, m.name, m.hash, m.size as int)
  }

  /** A deletion, for whose file there is room as a copy if it is a namespace tombstone, or
      content that was fetched for a name that can be settled. */
  ghost predicate Feasible(h: Digest, disk: Disk, m: FileMeta, data: string) {
    if m.deleted then m.supersededBy != "" ==> RoomFor(h, disk, m.name) else Verified(h, m, data) && Settlable(h, disk, m)
  }

  lemma SameDataRoom(h: Digest, a: Disk, b: Disk, name: string, hash: string, size: int)
    requires SameData(a, b)
    ensures CopyRoom(h, a, name, hash, size) ==> CopyRoom(h, b, name, hash, size) == true
    ensures RoomFor(h, a, name) ==> RoomFor(h, b, name) == true
  {
  }

  lemma SameDataSettlable(h: Digest, a: Disk, b: Disk, m: FileMeta)
    requires SameData(a, b) && Settlable(h, a, m)
    ensures Settlable(h, b, m) == true
  {
    forall k | k in b && NamespaceConflict(k, m.name)
      ensures RoomFor(h, b, k) && !NamespaceConflict(ConflictCopyName(k, h(b[k].data)), m.name) && CopyRoom(h, b, m.name, m.hash, m.size as int)
    {
      assert k in a && a[k].data == b[k].data;
      SameDataRoom(h, a, b, k, "", 0);
      SameDataRoom(h, a, b, m.name, m.hash, m.size as int);
    }
  }

  lemma FeasibleStays(h: Digest, a: Disk, b: Disk, m: FileMeta, data: string)
    requires SameData(a, b)
    ensures Feasible(h, a, m, data) ==> Feasible(h, b, m, data) == true
  {
    if Feasible(h, a, m, data) {
      SameDataRoom(h, a, b, m.name, "", 0);
      if !m.deleted {
        SameDataSettlable(h, a, b, m);
      }
    }
  }

  /** The index has the file's own time. */
  predicate Stamped(disk: Disk, db: Db, n: string) {
    n in disk ==> Live(db, n) && disk[n].mtime == db.files[n].modTime
  }

  /** A file that looking at changes nothing about. */
  predicate Indexed(h: Digest, disk: Disk, db: Db, n: string) {
    n in disk && n !in db.intents && Agree(h, disk, db, n) && Stamped(disk, db, n)
  }

  lemma InspectsStamps(h: Digest, disk: Disk, db: Db, n: string, disk': Disk, db': Db)
    requires Inspects(h, disk, db, n, disk', db')
    ensures Stamped(disk', db', n)
    ensures n in disk && Agree(h, disk, db, n) && Stamped(disk, db, n) ==> disk' == disk && db' == db
  {
    if n in disk && Agree(h, disk, db, n) && Stamped(disk, db, n) {
      assert disk[n := disk[n].(mtime := db.files[n].modTime)] == disk;
    }
  }

  // ----- single effects as steps -----

  /** Names may be looked at while an operation decides and while paths are indexed. */
  predicate Looks(op: Op, n: string) {
    MayRefresh(op, n) || (op.Indexing? && n in op.todo)
  }

  /** Where a look at `n` leaves the operation. */
  function Looked(op: Op, n: string): Op {
    if op.Indexing? then op.(todo := op.todo - {n}) else op
  }

  lemma RecoverIsStep(h: Digest, s: Node, t: Node, n: string)
    requires n in s.db.intents && Recovers(h, s.disk, s.db, n, t.disk, t.db) && t.op == s.op && (Looks(s.op, n) || s.op.Resolving?)
    ensures Next(h, s, t) == true
  {
    if s.op.Resolving? {
      assert ResolvesOne(h, s, t, n);
    } else if s.op.Indexing? {
      assert IndexesOne(h, s, t, n);
    } else {
      assert RefreshStep(h, s, t, n);
    }
  }

  lemma InspectIsStep(h: Digest, s: Node, t: Node, n: string)
    requires n !in s.db.intents && Inspects(h, s.disk, s.db, n, t.disk, t.db) && t.op == Looked(s.op, n) && Looks(s.op, n)
    ensures Next(h, s, t) == true
  {
    if s.op.Indexing? {
      assert IndexesOne(h, s, t, n);
    } else {
      assert RefreshStep(h, s, t, n);
    }
  }

  predicate Abortable(op: Op) {
    !op.Down? && !op.Resolving? && !(op.Indexing? && op.starting)
  }

  lemma LeaveIsStep(h: Digest, s: Node, to: Op)
    requires to == Down || (to == Idle(None) && Abortable(s.op))
    ensures Next(h, s, s.(op := to)) == true
  {
    assert to == Down ==> Crashes(s, s.(op := to));
    assert to == Idle(None) && Abortable(s.op) ==> Aborts(s, s.(op := to));
  }

  /** What carrying out or dropping a pending replica intent leaves. */
  function RecoveredDisk(h: Digest, disk: Disk, db: Db, n: string): Disk {
    if n in db.intents && db.intents[n].name in disk && !db.intents[n].deleted && Matches(h, disk, db.intents[n])
    then disk[db.intents[n].name := disk[db.intents[n].name].(mtime := db.intents[n].modTime)] else disk
  }

  function RecoveredDb(h: Digest, disk: Disk, db: Db, n: string): Db {
    if n in db.intents && Matches(h, disk, db.intents[n]) then Put(db, db.intents[n])
    else db.(intents := db.intents - {n})
  }

  lemma OnlyAtKeepsNames(disk: Disk, db: Db, n: string, disk': Disk, db': Db)
    requires NamesCanonical(disk, db) && OnlyAt(disk, db, n, disk', db')
    requires n in disk || n in db.files || n in db.intents || n !in db'.files
    ensures NamesCanonical(disk', db')
  {
    forall k | k in db'.files ensures CanonicalName(k) {
      assert k != n ==> db'.Row(k) == db.Row(k);
    }
  }

  /** Settling a pending intent of `n` is a step that changes nothing elsewhere. */
  lemma RecoverEffect(h: Digest, s: Node, n: string)
    requires Inv(h, s) == true && NamesCanonical(s.disk, s.db) == true && n in s.db.intents && (Looks(s.op, n) || s.op.Resolving?)
    ensures var t := Node(RecoveredDisk(h, s.disk, s.db, n), RecoveredDb(h, s.disk, s.db, n), s.op);
      && Next(h, s, t) == true && NamesCanonical(t.disk, t.db) == true
      && OnlyAt(s.disk, s.db, n, t.disk, t.db) == true && n !in t.db.intents
    ensures Clock.ValidClock(s.db.intents[n]) && s.db.intents[n].name == n
  {
    var t := Node(RecoveredDisk(h, s.disk, s.db, n), RecoveredDb(h, s.disk, s.db, n), s.op);
    assert Recovers(h, s.disk, s.db, n, t.disk, t.db);
    RecoversKeeps(h, s.disk, s.db, n, t.disk, t.db);
    OnlyAtKeepsNames(s.disk, s.db, n, t.disk, t.db);
    RecoverIsStep(h, s, t, n);
  }

  /** Indexing `n` is a step that makes it agree and changes nothing elsewhere. */
  lemma InspectEffect(h: Digest, s: Node, t: Node, n: string)
    requires Inv(h, s) == true && NamesCanonical(s.disk, s.db) == true && n !in s.db.intents && Looks(s.op, n)
    requires Inspects(h, s.disk, s.db, n, t.disk, t.db) == true && t.op == Looked(s.op, n)
    ensures Next(h, s, t) == true && NamesCanonical(t.disk, t.db) == true
    ensures OnlyAt(s.disk, s.db, n, t.disk, t.db) == true && Agree(h, t.disk, t.db, n)
  {
    InspectsKeeps(h, s.disk, s.db, n, t.disk, t.db);
    OnlyAtKeepsNames(s.disk, s.db, n, t.disk, t.db);
    InspectIsStep(h, s, t, n);
  }

  lemma NothingToRecover(disk: Disk, db: Db, n: string)
    requires n !in db.intents
    ensures OnlyAt(disk, db, n, disk, db) == true
  {
    assert db.intents - {n} == db.intents;
  }

  lemma LookComposes(disk: Disk, db: Db, n: string, disk1: Disk, db1: Db, disk2: Disk, db2: Db)
    requires OnlyAt(disk, db, n, disk1, db1) == true && OnlyAt(disk1, db1, n, disk2, db2) == true
    ensures OnlyAt(disk, db, n, disk2, db2) == true
  {
    forall k | k != n ensures db2.Row(k) == db.Row(k) {
      assert db1.Row(k) == db.Row(k);
    }
  }

  // ----- local commits as steps -----

  /** Whatever the operation does, it does at or below its paths, and leaves a tree. */
  ghost predicate ChangesOnly(change: Disk -> Disk, paths: set<string>) {
    forall d :: IsTree(d) ==> ChangedWithin(d, change(d), paths)
  }

  ghost predicate ChangedWithin(d: Disk, d': Disk, paths: set<string>) {
    && IsTree(d') && (forall n :: n in d' ==> n in d || CanonicalName(n))
    && forall n :: !InPaths(paths, n) ==> (n in d <==> n in d') && (n in d ==> d'[n] == d[n])
  }

  lemma BeginIsStep(h: Digest, s: Node, paths: set<string>)
    requires s.op.Idle?
    ensures Next(h, s, s.(db := s.db.(local := s.db.local + paths), op := Committing(paths))) == true
  {
    assert BeginLocal(s, s.(db := s.db.(local := s.db.local + paths), op := Committing(paths)), paths);
  }

  lemma ChangeIsStep(h: Digest, s: Node, d': Disk)
    requires s.op.Committing? && NamesCanonical(s.disk, s.db) == true && ChangedWithin(s.disk, d', s.op.paths) == true
    ensures Next(h, s, s.(disk := d')) == true && NamesCanonical(d', s.db) == true
  {
    assert Mutates(s, s.(disk := d'));
  }

  lemma IndexingIsStep(h: Digest, s: Node, paths: set<string>, names: set<string>)
    requires (s.op.Committing? && paths == s.op.paths) || (s.op.Down? && paths == s.db.local)
    requires forall n :: n in names <==> InPaths(paths, n) && (Live(s.db, n) || n in s.disk)
    ensures Next(h, s, s.(op := Indexing(paths, names, s.op.Down?))) == true
  {
    assert StartsIndexing(s, s.(op := Indexing(paths, names, s.op.Down?)), paths);
  }

  lemma EndIsStep(h: Digest, s: Node)
    requires s.op.Indexing? && s.op.todo == {}
    ensures Next(h, s, s.(db := s.db.(local := s.db.local - s.op.paths), op := if s.op.starting then Resolving else Idle(None))) == true
  {
    assert EndLocal(s, s.(db := s.db.(local := s.db.local - s.op.paths), op := if s.op.starting then Resolving else Idle(None)));
  }

  lemma IndexedAgree(h: Digest, s: Node, local: set<string>)
    requires Inv(h, s) == true && s.op.Indexing? && s.op.todo == {}
    ensures forall n :: InPaths(s.op.paths, n) ==> Agree(h, s.disk, s.db.(local := local), n)
  {
    forall n | InPaths(s.op.paths, n) ensures Agree(h, s.disk, s.db.(local := local), n) {
      assert Agree(h, s.disk, s.db, n);
    }
  }

  lemma StartIsStep(h: Digest, s: Node)
    requires s.op.Resolving? && s.db.intents == map[]
    ensures Next(h, s, s.(op := Idle(None))) == true
  {
    assert Starts(s, s.(op := Idle(None)));
  }

  lemma StartedAgrees(h: Digest, s: Node)
    requires Inv(h, s) == true && s.op.Resolving? && s.db.intents == map[]
    ensures s.db.local == {} && forall n :: Agree(h, s.disk, s.db, n)
  {
    forall n ensures Agree(h, s.disk, s.db, n) {
      assert !LocalIntent(s.db, n);
    }
  }

  // ----- replica changes as steps -----

  ghost predicate Blocked(disk: Disk, n: string) {
    exists k :: k in disk && NamespaceConflict(k, n)
  }

  ghost function ChangedDisk(disk: Disk, m: FileMeta, change: Change): Disk {
    match change
    case Write(data) => disk[m.name := File(data, m.modTime)]
    case Remove => disk - {m.name}
    case Touch => if m.name in disk then disk[m.name := disk[m.name].(mtime := m.modTime)] else disk
  }

  lemma ChangeDiskIsStep(h: Digest, s: Node)
    requires s.op.Staged? && (s.op.change.Write? ==> !Blocked(s.disk, s.op.meta.name)) && (s.op.change.Touch? ==> s.op.meta.name in s.disk)
    ensures Next(h, s, s.(disk := ChangedDisk(s.disk, s.op.meta, s.op.change), op := Changed(s.op.meta, s.op.next))) == true
  {
    assert ChangesDisk(s, s.(disk := ChangedDisk(s.disk, s.op.meta, s.op.change), op := Changed(s.op.meta, s.op.next)));
  }

  lemma ChangedNames(disk: Disk, db: Db, m: FileMeta, change: Change)
    requires NamesCanonical(disk, db) == true && CanonicalName(m.name)
    ensures NamesCanonical(ChangedDisk(disk, m, change), db) == true
    ensures NamesCanonical(disk, StageReplica(db, m)) == true && NamesCanonical(disk, Put(db, m)) == true
  {
  }

  lemma CommitIsStep(h: Digest, s: Node)
    requires s.op.Changed?
    ensures Next(h, s, s.(db := Put(s.db, s.op.meta), op := s.op.next)) == true
  {
    assert Commits(s, s.(db := Put(s.db, s.op.meta), op := s.op.next));
  }

  /** The state right after the intent of a change is recorded. */
  ghost function StagedState(s: Node, m: FileMeta, change: Change, next: Op): Node {
    s.(db := StageReplica(s.db, m), op := Staged(m, change, next))
  }

  // ----- settling a namespace as steps -----

  lemma CopyIsCanonical(name: string, hash: string)
    ensures CanonicalName(ConflictCopyName(name, hash))
  {
    var copy := ConflictCopyName(name, hash);
    CopyNameOutsideTree(name, hash);
    assert |copy| > 2;
    forall i, j | IsComponent(copy, i, j) ensures copy[i..j] != "" && copy[i..j] != "." && copy[i..j] != ".." {
      assert i == 0 && j == |copy|;
    }
  }

  lemma CopyClockIsValid(m: FileMeta)
    requires Clock.ValidClock(m)
    ensures Clock.ValidClock(ConflictCopy(m))
  {
  }

  /** A copy of `m` with the bytes `data` may be made now: the incoming file that yields,
      or the live file a tombstone is about to displace. */
  ghost predicate MayPreserve(h: Digest, s: Node, m: FileMeta, data: string) {
    || (s.op.Yielding? && m == s.op.meta && data == s.op.data)
    || (&& s.op.Superseding?
        && var n := s.op.tomb.name;
           && n !in s.db.intents && Agree(h, s.disk, s.db, n) && Live(s.db, n) && RemoteWins(s.db.Row(n), s.op.tomb)
           && m == s.db.files[n] && data == s.disk[n].data)
  }

  lemma PreserveIsStep(h: Digest, s: Node, m: FileMeta, data: string, stored: FileMeta)
    requires MayPreserve(h, s, m, data) && Verified(h, m, data) && Clock.ValidClock(m)
    requires var copy := ConflictCopyName(m.name, m.hash);
      copy !in s.db.intents && Agree(h, s.disk, s.db, copy) && !Live(s.db, copy) && Advanced(ConflictCopy(m), s.db.Row(copy), stored)
    ensures Next(h, s, StagedState(s, stored, Write(data), s.op)) == true
  {
    var t := StagedState(s, stored, Write(data), s.op);
    assert Stages(s, t, stored, Write(data), s.op);
    assert Preserves(h, s, t, m, data);
    if s.op.Yielding? {
      assert PreservesIncoming(h, s, t);
    } else {
      assert PreservesLocal(h, s, t);
    }
  }

  /** Only the copy's name is touched. */
  ghost predicate CopyOnly(disk: Disk, db: Db, copy: string, disk': Disk, db': Db) {
    && (forall k :: k != copy ==> db'.Row(k) == db.Row(k) && (k in db'.intents <==> k in db.intents))
    && (forall k :: k != copy ==> (k in disk' <==> k in disk) && (k in disk ==> disk'[k] == disk[k]))
    && copy !in db'.intents
  }

  lemma LookedOnly(disk: Disk, db: Db, copy: string, disk': Disk, db': Db)
    requires OnlyAt(disk, db, copy, disk', db') == true
    ensures CopyOnly(disk, db, copy, disk', db') == true
  {
  }

  lemma CopyOnlyComposes(disk: Disk, db: Db, copy: string, disk1: Disk, db1: Db, disk2: Disk, db2: Db)
    requires CopyOnly(disk, db, copy, disk1, db1) == true && CopyOnly(disk1, db1, copy, disk2, db2) == true
    ensures CopyOnly(disk, db, copy, disk2, db2) == true
  {
    forall k | k != copy ensures db2.Row(k) == db.Row(k) && (k in db2.intents <==> k in db.intents) {
      assert db1.Row(k) == db.Row(k);
    }
  }

  lemma PublishedCopy(h: Digest, s: Node, m: FileMeta, data: string, stored: FileMeta)
    requires Verified(h, m, data) && stored == ConflictCopy(m).(clock := stored.clock, bigClock := stored.bigClock)
    ensures var t := Node(ChangedDisk(s.disk, stored, Write(data)), Put(StageReplica(s.db, stored), stored), s.op);
      Preserved(h, t, m) == true && CopyOnly(s.disk, s.db, stored.name, t.disk, t.db) == true
  {
  }

  lemma MayStillPreserve(h: Digest, s: Node, t: Node, m: FileMeta, data: string, copy: string)
    requires MayPreserve(h, s, m, data) == true && CopyOnly(s.disk, s.db, copy, t.disk, t.db) == true && t.op == s.op
    requires s.op.Superseding? ==> copy != s.op.tomb.name
    ensures MayPreserve(h, t, m, data) == true
  {
    if s.op.Superseding? {
      assert t.db.Row(s.op.tomb.name) == s.db.Row(s.op.tomb.name);
    }
  }

  lemma SupersedeIsStep(h: Digest, s: Node)
    requires s.op.Superseding?
    requires var n := s.op.tomb.name;
      && n !in s.db.intents && Agree(h, s.disk, s.db, n) && RemoteWins(s.db.Row(n), s.op.tomb)
      && (Live(s.db, n) ==> Preserved(h, s, s.db.files[n]))
    ensures Next(h, s, StagedState(s, s.op.tomb, Remove, s.op.next)) == true
  {
    assert Supersedes(h, s, StagedState(s, s.op.tomb, Remove, s.op.next));
  }

  lemma SkipIsStep(h: Digest, s: Node)
    requires s.op.Superseding? && !RemoteWins(s.db.Row(s.op.tomb.name), s.op.tomb)
    ensures Next(h, s, s.(op := s.op.next)) == true
  {
    assert SupersedeSkips(s, s.(op := s.op.next));
  }

  /** Making the copy leaves the file it was made of as it was. */
  lemma StillDisplaces(h: Digest, s: Node, t: Node, local: FileMeta)
    requires s.op.Superseding? && s.op.tomb.name in s.db.files && local == s.db.files[s.op.tomb.name] && local.name == s.op.tomb.name
    requires CopyOnly(s.disk, s.db, ConflictCopyName(local.name, local.hash), t.disk, t.db) == true
    requires s.op.tomb.name !in s.db.intents && Agree(h, s.disk, s.db, s.op.tomb.name)
    ensures s.op.tomb.name !in t.db.intents && Agree(h, t.disk, t.db, s.op.tomb.name)
    ensures t.db.Row(s.op.tomb.name) == s.db.Row(s.op.tomb.name)
  {
    CopyNameOutsideTree(local.name, local.hash);
    assert t.db.Row(s.op.tomb.name) == s.db.Row(s.op.tomb.name);
  }

  lemma RowsAreValid(h: Digest, s: Node, n: string)
    requires Inv(h, s) == true && n in s.db.files
    ensures s.db.files[n].name == n && Clock.ValidClock(s.db.files[n])
  {
  }

  /** What a waiting settlement keeps away from. */
  lemma SupersedingNames(h: Digest, s: Node, hash: string)
    requires Inv(h, s) == true && (s.op.Superseding? || s.op.Yielding?)
    ensures s.op.Superseding? ==> MayRefresh(s.op, s.op.tomb.name) && Clock.ValidClock(s.op.tomb)
    ensures s.op.Superseding? ==> MayRefresh(s.op, ConflictCopyName(s.op.tomb.name, hash))
    ensures s.op.Yielding? ==> MayRefresh(s.op, ConflictCopyName(s.op.meta.name, hash)) && Clock.ValidClock(s.op.meta)
  {
    var n := if s.op.Superseding? then s.op.tomb.name else s.op.meta.name;
    CopyNameOutsideTree(n, hash);
    if s.op.Superseding? && s.op.next.Settling? {
      CopyIsNotPending(n, hash, s.op.next.meta.name);
    }
  }

  // ----- applies as steps -----

  /** The names looked at so far agree and have no pending intent. */
  ghost predicate Observed(h: Digest, disk: Disk, db: Db, names: set<string>) {
    forall k :: k in names ==> k !in db.intents && Agree(h, disk, db, k)
  }

  lemma ObservesOneMore(h: Digest, disk: Disk, db: Db, n: string, disk': Disk, db': Db, names: set<string>)
    requires Observed(h, disk, db, names) == true && OnlyAt(disk, db, n, disk', db') == true && Agree(h, disk', db', n)
    ensures Observed(h, disk', db', names + {n}) == true
  {
    forall k | k in names + {n} ensures k !in db'.intents && Agree(h, disk', db', k) {
      if k != n {
        OnlyAtKeepsOthers(h, disk, db, n, disk', db', k);
      }
    }
  }

  /** Looking at other names leaves this one and the set of files alone. */
  ghost predicate Undisturbed(disk: Disk, db: Db, name: string, disk': Disk, db': Db) {
    disk'.Keys == disk.Keys && db'.Row(name) == db.Row(name) && (name in db'.intents ==> name in db.intents)
  }

  lemma LookLeavesOthers(disk: Disk, db: Db, n: string, disk': Disk, db': Db, name: string)
    requires OnlyAt(disk, db, n, disk', db') == true && n != name
    ensures Undisturbed(disk, db, name, disk', db') == true
  {
  }

  ghost predicate AllIndexed(h: Digest, disk: Disk, db: Db, names: set<string>) {
    forall k :: k in names ==> Indexed(h, disk, db, k)
  }

  lemma IndexesOneMore(h: Digest, disk: Disk, db: Db, n: string, disk': Disk, db': Db, names: set<string>)
    requires AllIndexed(h, disk, db, names) && OnlyAt(disk, db, n, disk', db') && Indexed(h, disk', db', n)
    ensures AllIndexed(h, disk', db', names + {n}) == true
  {
    forall k | k in names + {n} ensures Indexed(h, disk', db', k) {
      if k != n {
        assert db'.Row(k) == db.Row(k);
      }
    }
  }

  lemma IndexedIsObserved(h: Digest, disk: Disk, db: Db, names: set<string>)
    requires AllIndexed(h, disk, db, names)
    ensures Observed(h, disk, db, names) == true
  {
  }

  lemma MakesWay(h: Digest, disk: Disk, db: Db, n: string, disk1: Disk, db1: Db, tomb: FileMeta, disk2: Disk, db2: Db)
    requires Indexed(h, disk, db, n) && tomb.name == n && tomb.deleted
    requires CopyOnly(disk, db, ConflictCopyName(n, h(disk[n].data)), disk1, db1)
    requires disk2 == disk1 - {n} && db2 == Put(StageReplica(db1, tomb), tomb)
    ensures MadeWay(h, disk, db, n, disk2, db2) == true
  {
  }

  /** A file has made way: its name is free, and only its copy's name may have been filled. */
  ghost predicate MadeWay(h: Digest, disk: Disk, db: Db, n: string, disk': Disk, db': Db)
    requires n in disk
  {
    && n !in disk'
    && forall k :: k != n && k != ConflictCopyName(n, h(disk[n].data)) ==>
         && (k in disk' <==> k in disk) && (k in disk ==> disk'[k] == disk[k])
         && db'.Row(k) == db.Row(k) && (k in db'.intents <==> k in db.intents)
  }

  /** Only files of `todo` block the name, and each of them can make way. */
  ghost predicate Clearable(h: Digest, disk: Disk, db: Db, m: FileMeta, todo: set<string>) {
    && (forall k :: k in disk && NamespaceConflict(k, m.name) ==> k in todo)
    && (forall k :: k in todo ==> CanGo(h, disk, db, m, k))
  }

  ghost predicate CanGo(h: Digest, disk: Disk, db: Db, m: FileMeta, k: string) {
    && Indexed(h, disk, db, k) && CompareMeta(db.files[k], m) < 0 && NamespaceConflict(k, m.name)
    && RoomFor(h, disk, k) && !NamespaceConflict(ConflictCopyName(k, h(disk[k].data)), m.name)
  }

  lemma FlatNamesDoNotBlock(a: string, b: string)
    requires '/' !in a && '/' !in b
    ensures !NamespaceConflict(a, b)
  {
    assert (a + "/")[|a|] == '/' && (b + "/")[|b|] == '/';
  }

  /** Filling one copy's name takes no room from another. */
  lemma RoomStays(h: Digest, disk: Disk, db: Db, c: string, disk': Disk, db': Db, k: string)
    requires c in disk && k in disk && k != c && MadeWay(h, disk, db, c, disk', db') && RoomFor(h, disk, k)
    requires k != ConflictCopyName(c, h(disk[c].data)) && c != ConflictCopyName(k, h(disk[k].data))
    ensures RoomFor(h, disk', k) == true
  {
    var copy, copy' := ConflictCopyName(c, h(disk[c].data)), ConflictCopyName(k, h(disk[k].data));
    CopyNameOutsideTree(c, h(disk[c].data));
    CopyNameOutsideTree(k, h(disk[k].data));
    FlatNamesDoNotBlock(copy, copy');
    if copy == copy' {
      CopyNamesDiffer(c, h(disk[c].data), k, h(disk[k].data));
    }
    assert disk'[k] == disk[k];
    forall x | x in disk' ensures !NamespaceConflict(x, copy') {
      assert x != copy ==> x in disk;
    }
  }

  lemma CanStillGo(h: Digest, disk: Disk, db: Db, m: FileMeta, c: string, disk': Disk, db': Db, k: string)
    requires CanGo(h, disk, db, m, c) && CanGo(h, disk, db, m, k) && k != c && MadeWay(h, disk, db, c, disk', db')
    ensures CanGo(h, disk', db', m, k) == true
  {
    RoomStays(h, disk, db, c, disk', db', k);
    assert db'.Row(k) == db.Row(k) && disk'[k] == disk[k];
  }

  lemma ReadyNext(h: Digest, disk: Disk, db: Db, m: FileMeta, todo: set<string>, c: string, disk': Disk, db': Db)
    requires Clearable(h, disk, db, m, todo) && c in todo && c in disk && MadeWay(h, disk, db, c, disk', db') == true
    ensures Clearable(h, disk', db', m, todo - {c}) == true
  {
    assert CanGo(h, disk, db, m, c);
    forall k | k in todo - {c} ensures CanGo(h, disk', db', m, k) {
      CanStillGo(h, disk, db, m, c, disk', db', k);
    }
    forall k | k in disk' && NamespaceConflict(k, m.name) ensures k in todo - {c} {
      assert k != ConflictCopyName(c, h(disk[c].data));
    }
  }

  lemma GoingWins(h: Digest, disk: Disk, db: Db, m: FileMeta, k: string)
    requires CanGo(h, disk, db, m, k) && ValidState(m) && !m.deleted
    ensures RemoteWins(db.Row(k), Superseded(k, m))
  {
    var tomb := Superseded(k, m);
    SupersededTiesWithWinner(k, m);
    CompareStateFlip(Some(db.files[k]), Some(m));
    CompareStateTransitive(Some(db.files[k]), Some(m), Some(tomb));
    CompareStateFlip(Some(db.files[k]), Some(tomb));
  }

  lemma ReadyAtFirst(h: Digest, disk: Disk, db: Db, m: FileMeta, conflicts: set<string>)
    requires Blocking(disk, m.name, conflicts) && AllIndexed(h, disk, db, conflicts) && Settlable(h, disk, m) && !m.deleted && m.supersededBy == ""
    requires forall k :: k in conflicts ==> k in db.files && db.files[k].name == k && db.files[k].supersededBy == "" && CompareMeta(db.files[k], m) <= 0
    ensures Clearable(h, disk, db, m, conflicts) == true
  {
    forall k | k in conflicts ensures CanGo(h, disk, db, m, k) {
      NeverTie(db.files[k], m);
    }
  }

  /** A name that a file blocks holds no file itself. */
  lemma YieldsWithRoom(h: Digest, s: Node, m: FileMeta, k: string)
    requires Inv(h, s) && Settlable(h, s.disk, m) && k in s.disk && NamespaceConflict(k, m.name)
    ensures m.name !in s.disk && CopyRoom(h, s.disk, m.name, m.hash, m.size as int) == true
  {
    assert IsTree(s.disk);
  }

  lemma SettlesReady(h: Digest, s: Node, m: FileMeta, conflicts: set<string>)
    requires Inv(h, s) && Blocking(s.disk, m.name, conflicts) && AllIndexed(h, s.disk, s.db, conflicts) && Settlable(h, s.disk, m)
    requires ValidState(m) && !m.deleted && conflicts <= s.db.files.Keys && forall k :: k in conflicts ==> CompareMeta(s.db.files[k], m) <= 0
    ensures Clearable(h, s.disk, s.db, m, conflicts) == true
  {
    assert RowsValid(s.db);
    forall k | k in conflicts ensures s.db.files[k].name == k && s.db.files[k].supersededBy == "" {
      assert Indexed(h, s.disk, s.db, k);
    }
    ReadyAtFirst(h, s.disk, s.db, m, conflicts);
  }

  /** Live files of different names never tie. */
  lemma NeverTie(a: FileMeta, b: FileMeta)
    requires a.name != b.name && !a.deleted && !b.deleted && a.supersededBy == b.supersededBy == ""
    ensures CompareMeta(a, b) != 0
  {
    Text.CompareZero(a.hash, b.hash);
    Text.CompareZero(a.name, b.name);
  }

  function WinnerOr(db: Db, m: FileMeta, w: Option<string>): FileMeta {
    if w.Some? && w.value in db.files then db.files[w.value] else m
  }

  lemma SettleIsStep(h: Digest, s: Node, m: FileMeta, data: string, conflicts: set<string>, w: Option<string>)
    requires s.op.Idle? && ValidState(m) && !m.deleted && Verified(h, m, data)
    requires m.name !in s.db.intents && RemoteWins(s.db.Row(m.name), m)
    requires Blocking(s.disk, m.name, conflicts) && Observed(h, s.disk, s.db, conflicts) == true && conflicts <= s.db.files.Keys
    requires if w.Some? then Wins(s.db, m, conflicts, w.value) else forall k :: k in conflicts ==> CompareMeta(s.db.files[k], m) <= 0
    ensures Next(h, s, s.(op := if w.Some? then Yielding(m, data, s.db.files[w.value]) else Settling(m, data, conflicts))) == true
  {
    var t := s.(op := if w.Some? then Yielding(m, data, s.db.files[w.value]) else Settling(m, data, conflicts));
    assert AppliesFile(h, s, t, m, data, conflicts);
    assert ApplyStep(h, s, t, m);
  }

  lemma BlockingIsLive(h: Digest, disk: Disk, db: Db, name: string, conflicts: set<string>)
    requires Blocking(disk, name, conflicts) && Observed(h, disk, db, conflicts) == true
    ensures conflicts <= db.files.Keys && conflicts <= disk.Keys
  {
    forall k | k in conflicts ensures k in db.files && k in disk {
      assert Agree(h, disk, db, k);
    }
  }

  /** What beats the winner so far beats everything it beat. */
  lemma BeatsAll(db: Db, m: FileMeta, winner: FileMeta, local: FileMeta, done: set<string>)
    requires done <= db.files.Keys && CompareMeta(local, winner) > 0 && (winner == m || CompareMeta(winner, m) > 0)
    requires forall k :: k in done ==> CompareMeta(db.files[k], winner) <= 0
    ensures CompareMeta(local, m) > 0 && CompareMeta(local, local) == 0
    ensures forall k :: k in done ==> CompareMeta(db.files[k], local) <= 0
  {
    CompareStateFlip(Some(local), Some(winner));
    CompareStateFlip(Some(winner), Some(m));
    CompareStateFlip(Some(local), Some(m));
    CompareStateReflexive(Some(local));
    if winner != m {
      CompareMetaTransitive(m, winner, local);
    }
    forall k | k in done ensures CompareMeta(db.files[k], local) <= 0 {
      CompareMetaTransitive(db.files[k], winner, local);
    }
  }

  lemma YieldIsStep(h: Digest, s: Node)
    requires s.op.Yielding? && Preserved(h, s, s.op.meta) == true
    ensures Next(h, s, s.(op := Superseding(Superseded(s.op.meta.name, s.op.winner), Idle(Some(s.op.meta))))) == true
  {
    assert Yields(h, s, s.(op := Superseding(Superseded(s.op.meta.name, s.op.winner), Idle(Some(s.op.meta)))));
  }

  lemma SettleOneIsStep(h: Digest, s: Node, c: string)
    requires s.op.Settling? && c in s.op.conflicts
    ensures Next(h, s, s.(op := Superseding(Superseded(c, s.op.meta), s.op.(conflicts := s.op.conflicts - {c})))) == true
  {
    assert SettlesOne(s, s.(op := Superseding(Superseded(c, s.op.meta), s.op.(conflicts := s.op.conflicts - {c}))), c);
  }

  lemma SettledIsStep(h: Digest, s: Node)
    requires s.op.Settling? && s.op.conflicts == {}
    ensures Next(h, s, StagedState(s, s.op.meta, Write(s.op.data), Idle(Some(s.op.meta)))) == true
  {
    assert Settled(s, StagedState(s, s.op.meta, Write(s.op.data), Idle(Some(s.op.meta))));
  }

  lemma SkipApplyIsStep(h: Digest, s: Node, m: FileMeta)
    requires s.op.Idle? && !RemoteWins(s.db.Row(m.name), m)
    ensures Next(h, s, s.(op := Idle(Some(m)))) == true
  {
    assert ApplySkips(s, s.(op := Idle(Some(m))), m);
    assert ApplyStep(h, s, s.(op := Idle(Some(m))), m);
  }

  lemma ApplyIsStep(h: Digest, s: Node, m: FileMeta, change: Change)
    requires s.op.Idle? && ValidState(m) && m.name !in s.db.intents && RemoteWins(s.db.Row(m.name), m)
    requires change == if m.deleted then Remove else Touch
    requires m.deleted ==> m.supersededBy == ""
    requires !m.deleted ==> Live(s.db, m.name) && s.db.files[m.name].hash == m.hash && s.db.files[m.name].size == m.size
    ensures Next(h, s, StagedState(s, m, change, Idle(Some(m)))) == true
  {
    var t := StagedState(s, m, change, Idle(Some(m)));
    assert if m.deleted then AppliesDeletion(s, t, m) else AppliesTimestamp(s, t, m);
    assert ApplyStep(h, s, t, m);
  }

  lemma ApplySupersededIsStep(h: Digest, s: Node, m: FileMeta)
    requires s.op.Idle? && ValidState(m) && m.deleted && m.supersededBy != ""
    ensures Next(h, s, s.(op := Superseding(m, Idle(Some(m))))) == true
  {
    assert AppliesSuperseded(s, s.(op := Superseding(m, Idle(Some(m)))), m);
    assert ApplyStep(h, s, s.(op := Superseding(m, Idle(Some(m)))), m);
  }

  lemma AppliedReaches(h: Digest, s: Node, m: FileMeta)
    requires Inv(h, s) == true && s.op == Idle(Some(m))
    ensures CompareState(Some(m), s.db.Row(m.name)) <= 0
  {
  }

  class Volume {
    const h: Digest
    const store: Store
    var disk: Disk
    var fates: seq<Fate>
    /** Where in its operation the node is. */
    ghost var op: Op
    /** Any property that steps keep, such as being the last state of a run. */
    ghost const good: Node -> bool

    ghost function Now(): Node
      reads this, store
    {
      Node(disk, store.db, op)
    }

    ghost predicate Valid()
      reads this, store
    {
      store.Valid() && NamesCanonical(disk, store.db) == true && Closed(h, good) && good(Now())
    }

    /** Every effect to come happens. */
    ghost predicate NoFaults()
      reads `fates
    {
      forall i :: 0 <= i < |fates| ==> fates[i] == Happens
    }

    /** A stopped node whose index describes its disk. */
    constructor (h: Digest, store: Store, disk: Disk, ghost good: Node -> bool)
      requires store.Valid() && NamesCanonical(disk, store.db) && Closed(h, good) && good(Node(disk, store.db, Down))
      ensures Valid() && this.h == h && this.store == store && this.disk == disk && this.good == good && op == Down
    {
      this.h, this.store, this.disk, this.good := h, store, disk, good;
      fates, op := [], Down;
    }

    /** A node between two operations. */
    constructor Idling(h: Digest, store: Store, disk: Disk, fates: seq<Fate>, ghost good: Node -> bool)
      requires store.Valid() && NamesCanonical(disk, store.db) && Closed(h, good) && good(Node(disk, store.db, Idle(None)))
      ensures Valid() && this.h == h && this.store == store && this.disk == disk && this.fates == fates && this.good == good && op == Idle(None)
    {
      this.h, this.store, this.disk, this.good := h, store, disk, good;
      this.fates, op := fates, Idle(None);
    }

    lemma HoldsInv(s: Node)
      requires Closed(h, good) && good(s)
      ensures Inv(h, s) == true
    {
    }

    /** The process ends, or an error ends the operation. */
    ghost method Leave(to: Op)
      requires Valid() && (to == Down || (to == Idle(None) && Abortable(op)))
      modifies `op
      ensures Valid() && op == to
    {
      LeaveIsStep(h, Now(), to);
      op := to;
    }

    /** Whether the next effect happens; if not, the operation ends here. */
    method Proceed() returns (o: Outcome)
      requires Valid()
      modifies `fates, `op
      ensures Valid()
      ensures if o == Ok then op == old(op) else op == Idle(None) || op == Down
      ensures old(NoFaults()) ==> NoFaults() && o == Ok
    {
      var fate := if fates == [] then Happens else fates[0];
      fates := if fates == [] then [] else fates[1..];
      if fate == Happens {
        return Ok;
      }
      Leave(if fate == Fails && Abortable(op) then Idle(None) else Down);
      return if fate == Cut then Stopped else Error;
    }

    /** A refusal the operation itself decides on. */
    method Refuse() returns (o: Outcome)
      requires Valid()
      modifies `op
      ensures Valid() && o == Error && (op == Idle(None) || op == Down)
    {
      Leave(if Abortable(op) then Idle(None) else Down);
      return Error;
    }

    // ----- looking at one name -----

    /** Commits a pending replica intent whose effect is on disk; drops any other. */
    method RecoverReplica(name: string) returns (o: Outcome)
      requires Valid() && (Looks(op, name) || op.Resolving?)
      modifies this, store
      ensures Valid() && (o != Ok ==> op == Idle(None) || op == Down)
      ensures o == Ok ==> op == old(op) && name !in store.db.intents && OnlyAt(old(disk), old(store.db), name, disk, store.db) == true
      ensures old(name !in store.db.intents) ==> disk == old(disk) && store.db == old(store.db)
      ensures old(NoFaults()) ==> NoFaults() && o == Ok
    {
      if name !in store.db.intents {
        NothingToRecover(disk, store.db, name);
        return Ok;
      }
      o := Proceed();
      if o != Ok {
        return;
      }
      HoldsInv(Now());
      RecoverEffect(h, Now(), name);
      ghost var disk', db' := RecoveredDisk(h, disk, store.db, name), RecoveredDb(h, disk, store.db, name);
      var m := store.db.intents[name];
      if Matches(h, disk, m) {
        if !m.deleted {
          disk := disk[m.name := disk[m.name].(mtime := m.modTime)];
        }
        var _ := store.CommitPut(m, false);
      } else {
        store.ClearReplicaIntent(name);
      }
      assert disk == disk' && store.db == db';
    }

    /** Bytes that changed without a trace, a directory in place of a file, and a file that
        is too large are not indexed. */
    method Refuses(name: string, trusted: bool) returns (refused: bool)
      requires trusted <==> LocalIntent(store.db, name)
      ensures refused <==> Unindexable(h, disk, store.db, name)
    {
      var live := Live(store.db, name);
      if name !in disk {
        var isDirectory := exists k :: k in disk && Under(k, name);
        return live && isDirectory && !trusted;
      }
      var f := disk[name];
      if |f.data| > MAX_INT64 as int {
        return true;
      }
      return live && !trusted && h(f.data) != store.db.files[name].hash && f.mtime == store.db.files[name].modTime && |f.data| == store.db.files[name].size as int;
    }

    /** Commits what is found of a name that can be indexed. */
    method WriteIndex(name: string, trusted: bool)
      requires store.Valid() && CanonicalName(name) && !Unindexable(h, disk, store.db, name) && (trusted <==> LocalIntent(store.db, name))
      modifies `disk, store
      ensures store.Valid() && Inspects(h, old(disk), old(store.db), name, disk, store.db) == true
    {
      if name !in disk {
        if Live(store.db, name) {
          var _ := store.CommitPut(LocalMeta(name, store.db.files[name].modTime, 0, "", true), true);
        }
      } else {
        var f := disk[name];
        var hash := h(f.data);
        var sameBytes := Live(store.db, name) && hash == store.db.files[name].hash && |f.data| == store.db.files[name].size as int;
        if sameBytes && (f.mtime == store.db.files[name].modTime || !trusted) {
          disk := disk[name := f.(mtime := store.db.files[name].modTime)];
        } else {
          var _ := store.CommitPut(LocalMeta(name, f.mtime, |f.data| as int64, hash, false), true);
        }
      }
    }

    /** Brings the row of a name in line with its bytes. */
    method InspectFile(name: string) returns (o: Outcome)
      requires Valid() && Looks(op, name) && name !in store.db.intents && CanonicalName(name)
      modifies this, store
      ensures Valid() && (o != Ok ==> op == Idle(None) || op == Down)
      ensures o == Ok ==> op == Looked(old(op), name) && Agree(h, disk, store.db, name)
      ensures o == Ok ==> OnlyAt(old(disk), old(store.db), name, disk, store.db) == true
      ensures o == Ok ==> Inspects(h, old(disk), old(store.db), name, disk, store.db) == true
      ensures old(NoFaults()) && old(Fits(disk)) ==> NoFaults() && o == Ok
    {
      o := Proceed();
      if o != Ok {
        return;
      }
      ghost var s := Now();
      var trusted := store.HasLocalIntent(name);
      assert trusted <==> LocalIntent(store.db, name);
      var refused := Refuses(name, trusted);
      if refused {
        o := Refuse();
        if old(NoFaults()) && Fits(s.disk) {
          HoldsInv(s);
          NothingToRefuse(h, s, name);
        }
        return;
      }
      WriteIndex(name, trusted);
      ghost var t := Node(disk, store.db, Looked(op, name));
      HoldsInv(s);
      InspectEffect(h, s, t, name);
      op := Looked(op, name);
    }

    /** Settles a pending intent of a name, then indexes it. */
    method RefreshFile(name: string) returns (o: Outcome)
      requires Valid() && Looks(op, name) && CanonicalName(name)
      modifies this, store
      ensures Valid() && (o != Ok ==> op == Idle(None) || op == Down)
      ensures o == Ok ==> op == Looked(old(op), name) && Agree(h, disk, store.db, name) && name !in store.db.intents
      ensures o == Ok ==> OnlyAt(old(disk), old(store.db), name, disk, store.db) == true && Stamped(disk, store.db, name)
      ensures o == Ok && old(Indexed(h, disk, store.db, name)) ==> disk == old(disk) && store.db == old(store.db)
      ensures old(NoFaults()) && old(Fits(disk)) ==> NoFaults() && o == Ok && Fits(disk)
    {
      o := RecoverReplica(name);
      if o != Ok {
        return;
      }
      ghost var disk1, db1 := disk, store.db;
      OnlyAtSameData(old(disk), old(store.db), name, disk, store.db);
      if Fits(old(disk)) {
        SameDataFits(old(disk), disk);
      }
      o := InspectFile(name);
      if o == Ok {
        LookComposes(old(disk), old(store.db), name, disk1, db1, disk, store.db);
        InspectsStamps(h, disk1, db1, name, disk, store.db);
        OnlyAtSameData(disk1, db1, name, disk, store.db);
        if Fits(disk1) {
          SameDataFits(disk1, disk);
        }
      }
    }

    // ----- local commits -----

    /** Everything live or on disk at or below the paths. */
    method NamesUnder(paths: seq<string>) returns (names: set<string>)
      ensures forall n :: n in names <==> InPaths(SetOf(paths), n) && (Live(store.db, n) || n in disk)
    {
      names := {};
      var i := 0;
      while i < |paths|
        invariant 0 <= i <= |paths|
        invariant forall n :: n in names <==> (exists j :: 0 <= j < i && AtOrUnder(n, paths[j])) && (Live(store.db, n) || n in disk)
      {
        var p := paths[i];
        var previous := set n | n in store.db.files && Live(store.db, n) && AtOrUnder(n, p);
        var present := set n | n in disk && AtOrUnder(n, p);
        names := names + previous + present;
        i := i + 1;
      }
      forall n ensures InPaths(SetOf(paths), n) <==> exists j :: 0 <= j < |paths| && AtOrUnder(n, paths[j]) {
        if InPaths(SetOf(paths), n) {
          var p :| p in paths && AtOrUnder(n, p);
          var j :| 0 <= j < |paths| && paths[j] == p;
        }
      }
    }

    /** Refreshes the names, one by one. */
    method RefreshAll(names: set<string>) returns (o: Outcome)
      requires Valid() && (forall n :: n in names ==> CanonicalName(n) && Looks(op, n)) && (op.Indexing? ==> names == op.todo)
      modifies this, store
      ensures Valid() && (o != Ok ==> op == Idle(None) || op == Down)
      ensures o == Ok ==> op == if old(op).Indexing? then old(op).(todo := {}) else old(op)
      ensures o == Ok ==> SameData(old(disk), disk) == true
      ensures old(NoFaults()) && old(Fits(disk)) ==> NoFaults() && o == Ok
    {
      var todo := names;
      o := Ok;
      assert SameData(disk, disk);
      while todo != {}
        invariant Valid() && o == Ok && todo <= names && SameData(old(disk), disk) == true
        invariant old(NoFaults()) && old(Fits(disk)) ==> NoFaults() && Fits(disk) == true
        invariant op == if old(op).Indexing? then old(op).(todo := todo) else old(op)
        decreases todo
      {
        var n :| n in todo;
        ghost var disk1, db1 := disk, store.db;
        o := RefreshFile(n);
        if o != Ok {
          return;
        }
        OnlyAtSameData(disk1, db1, n, disk, store.db);
        SameDataChains(old(disk), disk1, disk);
        todo := todo - {n};
      }
    }

    /** Takes back the announcement of paths that have been indexed. */
    method TakeBack(paths: seq<string>) returns (o: Outcome)
      requires Valid() && op.Indexing? && op.paths == SetOf(paths) && op.todo == {}
      modifies this, store
      ensures Valid() && (o != Ok ==> op == Idle(None) || op == Down)
      ensures o == Ok ==> op == (if old(op).starting then Resolving else Idle(None)) && disk == old(disk)
      ensures o == Ok ==> forall n :: InPaths(SetOf(paths), n) ==> Agree(h, disk, store.db, n)
      ensures old(NoFaults()) ==> NoFaults() && o == Ok
    {
      o := Proceed();
      if o != Ok {
        return;
      }
      HoldsInv(Now());
      EndIsStep(h, Now());
      IndexedAgree(h, Now(), store.db.local - SetOf(paths));
      store.EndLocal(paths);
      op := if op.starting then Resolving else Idle(None);
    }

    /** Indexes what lies at or below the paths, then takes their intents back. */
    method FinishCommit(paths: seq<string>) returns (o: Outcome)
      requires Valid() && ((op.Committing? && op.paths == SetOf(paths)) || (op.Down? && SetOf(paths) == store.db.local))
      modifies this, store
      ensures Valid() && (o != Ok ==> op == Idle(None) || op == Down)
      ensures o == Ok ==> op == (if old(op).Down? then Resolving else Idle(None)) && SameData(old(disk), disk) == true
      ensures o == Ok ==> forall n :: InPaths(SetOf(paths), n) ==> Agree(h, disk, store.db, n)
      ensures old(NoFaults()) && old(Fits(disk)) ==> NoFaults() && o == Ok
    {
      var names := NamesUnder(paths);
      IndexingIsStep(h, Now(), SetOf(paths), names);
      op := Indexing(SetOf(paths), names, op.Down?);
      o := RefreshAll(names);
      if o == Ok {
        o := TakeBack(paths);
      }
    }

    /** Looks at everything at or below the paths and announces the change. */
    method Announce(paths: seq<string>) returns (o: Outcome)
      requires Valid() && op.Idle?
      modifies this, store
      ensures Valid() && (o != Ok ==> op == Idle(None) || op == Down)
      ensures o == Ok ==> op == Committing(SetOf(paths)) && SameData(old(disk), disk) == true
      ensures old(NoFaults()) && old(Fits(disk)) ==> NoFaults() && o == Ok
    {
      var names := NamesUnder(paths);
      o := RefreshAll(names);
      if o == Ok {
        o := Proceed();
      }
      if o == Ok {
        BeginIsStep(h, Now(), SetOf(paths));
        store.BeginLocal(paths);
        op := Committing(SetOf(paths));
      }
    }

    method MakeChange(paths: seq<string>, change: Disk -> Disk) returns (o: Outcome)
      requires Valid() && op == Committing(SetOf(paths)) && ChangesOnly(change, SetOf(paths))
      modifies this
      ensures Valid() && (o != Ok ==> op == Idle(None) || op == Down)
      ensures o == Ok ==> op == old(op) && disk == change(old(disk))
      ensures old(NoFaults()) ==> NoFaults() && o == Ok
    {
      o := Proceed();
      if o != Ok {
        return;
      }
      HoldsInv(Now());
      assert ChangedWithin(disk, change(disk), SetOf(paths));
      ChangeIsStep(h, Now(), change(disk));
      disk := change(disk);
    }

    /** A local mutation: observe, announce, change, index, take the announcement back.
        The change is made, of the bytes that were there, and nothing else is. */
    method Commit(paths: seq<string>, change: Disk -> Disk) returns (o: Outcome)
      requires Valid() && op.Idle? && ChangesOnly(change, SetOf(paths))
      modifies this, store
      ensures Valid() && (o != Ok ==> op == Idle(None) || op == Down)
      ensures o == Ok ==> op == Idle(None) && forall n :: InPaths(SetOf(paths), n) ==> Agree(h, disk, store.db, n)
      ensures o == Ok ==> exists seen :: SameData(old(disk), seen) && SameData(change(seen), disk)
      ensures old(NoFaults()) && old(Fits(disk)) && (forall seen :: SameData(old(disk), seen) ==> Fits(change(seen))) ==> o == Ok
    {
      o := Announce(paths);
      if o != Ok {
        return;
      }
      ghost var seen := disk;
      o := MakeChange(paths, change);
      if o != Ok {
        return;
      }
      o := FinishCommit(paths);
      assert o == Ok ==> SameData(old(disk), seen) && SameData(change(seen), disk);
    }

    method LocalIntents() returns (paths: seq<string>)
      ensures SetOf(paths) == store.db.local
    {
      paths := [];
      var todo := store.db.local;
      while todo != {}
        invariant SetOf(paths) + todo == store.db.local
        decreases todo
      {
        var p :| p in todo;
        assert SetOf(paths + [p]) == SetOf(paths) + {p};
        paths, todo := paths + [p], todo - {p};
      }
    }

    /** Settles every pending replica intent. */
    method ResolveReplicas() returns (o: Outcome)
      requires Valid() && op.Resolving?
      modifies this, store
      ensures Valid() && (o != Ok ==> op == Idle(None) || op == Down)
      ensures o == Ok ==> op == Resolving && store.db.intents == map[] && SameData(old(disk), disk) == true
      ensures old(NoFaults()) ==> NoFaults() && o == Ok
    {
      o := Ok;
      assert SameData(disk, disk);
      while store.db.intents != map[]
        invariant Valid() && o == Ok && op == Resolving && SameData(old(disk), disk) == true
        invariant old(NoFaults()) ==> NoFaults()
        decreases store.db.intents.Keys
      {
        var name :| name in store.db.intents;
        ghost var disk1, db1 := disk, store.db;
        o := RecoverReplica(name);
        if o != Ok {
          return;
        }
        OnlyAtSameData(disk1, db1, name, disk, store.db);
        SameDataChains(old(disk), disk1, disk);
        assert store.db.intents == db1.intents - {name};
      }
    }

    /** Startup: index what open local intents cover, settle the replica intents. */
    method Start() returns (o: Outcome)
      requires Valid() && op.Down?
      modifies this, store
      ensures Valid() && (o != Ok ==> op == Idle(None) || op == Down)
      ensures o == Ok ==> op == Idle(None) && store.db.intents == map[] && store.db.local == {}
      ensures o == Ok ==> forall n :: Agree(h, disk, store.db, n)
      ensures o == Ok ==> SameData(old(disk), disk)
      ensures old(NoFaults()) && old(Fits(disk)) ==> o == Ok
    {
      var paths := LocalIntents();
      o := FinishCommit(paths);
      if o != Ok {
        return;
      }
      ghost var disk1 := disk;
      o := ResolveReplicas();
      if o != Ok {
        return;
      }
      SameDataChains(old(disk), disk1, disk);
      HoldsInv(Now());
      StartIsStep(h, Now());
      StartedAgrees(h, Now());
      op := Idle(None);
    }

    // ----- replica changes -----

    method StageChange(m: FileMeta, change: Change, ghost next: Op) returns (o: Outcome)
      requires Valid() && CanonicalName(m.name) && Next(h, Now(), StagedState(Now(), m, change, next)) == true
      modifies this, store
      ensures Valid() && (o != Ok ==> op == Idle(None) || op == Down)
      ensures o == Ok ==> op == Staged(m, change, next) && disk == old(disk) && store.db == StageReplica(old(store.db), m)
      ensures old(NoFaults()) ==> NoFaults() && o == Ok
    {
      o := Proceed();
      if o == Ok {
        ChangedNames(disk, store.db, m, change);
        store.StageReplica(m);
        op := Staged(m, change, next);
      }
    }

    method ChangeDisk(m: FileMeta, change: Change, ghost next: Op) returns (o: Outcome)
      requires Valid() && CanonicalName(m.name) && op == Staged(m, change, next)
      modifies this
      ensures Valid() && (o != Ok ==> op == Idle(None) || op == Down)
      ensures o == Ok ==> op == Changed(m, next) && disk == ChangedDisk(old(disk), m, change)
      ensures old(NoFaults()) && old(Possible(disk, m, change)) ==> NoFaults() && o == Ok
    {
      o := Proceed();
      if o != Ok {
        return;
      }
      var blocked := exists k :: k in disk && NamespaceConflict(k, m.name);
      if (change.Write? && blocked) || (change.Touch? && m.name !in disk) {
        o := Refuse();
        return;
      }
      ChangeDiskIsStep(h, Now());
      ChangedNames(disk, store.db, m, change);
      match change {
        case Write(data) => disk := disk[m.name := File(data, m.modTime)];
        case Remove => disk := disk - {m.name};
        case Touch => disk := disk[m.name := disk[m.name].(mtime := m.modTime)];
      }
      op := Changed(m, next);
    }

    method CommitRow(m: FileMeta, ghost next: Op) returns (o: Outcome)
      requires Valid() && CanonicalName(m.name) && Clock.ValidClock(m) && op == Changed(m, next)
      modifies this, store
      ensures Valid() && (o != Ok ==> op == Idle(None) || op == Down)
      ensures o == Ok ==> op == next && disk == old(disk) && store.db == Put(old(store.db), m)
      ensures old(NoFaults()) ==> NoFaults() && o == Ok
    {
      o := Proceed();
      if o == Ok {
        CommitIsStep(h, Now());
        ChangedNames(disk, store.db, m, Remove);
        var _ := store.CommitPut(m, false);
        op := next;
      }
    }

    /** Records the intent, makes the one disk change, commits the row and clears the intent. */
    method PublishReplica(m: FileMeta, change: Change, ghost next: Op) returns (o: Outcome)
      requires Valid() && CanonicalName(m.name) && Clock.ValidClock(m)
      requires Next(h, Now(), StagedState(Now(), m, change, next)) == true
      modifies this, store
      ensures Valid() && (o != Ok ==> op == Idle(None) || op == Down)
      ensures o == Ok ==> op == next && disk == ChangedDisk(old(disk), m, change)
      ensures o == Ok ==> store.db == Put(StageReplica(old(store.db), m), m)
      ensures old(NoFaults()) && old(Possible(disk, m, change)) ==> NoFaults() && o == Ok
    {
      o := StageChange(m, change, next);
      if o == Ok {
        o := ChangeDisk(m, change, next);
      }
      if o == Ok {
        o := CommitRow(m, next);
      }
    }

    /** Writes a conflict copy that does not exist yet, above one that was removed. */
    method PublishCopy(original: FileMeta, data: string) returns (o: Outcome)
      requires Valid() && MayPreserve(h, Now(), original, data) == true && Clock.ValidClock(original)
      requires var copy := ConflictCopyName(original.name, original.hash);
        copy !in store.db.intents && Agree(h, disk, store.db, copy) && !Live(store.db, copy)
      modifies this, store
      ensures Valid() && (o != Ok ==> op == Idle(None) || op == Down)
      ensures o == Ok ==> op == old(op) && Preserved(h, Now(), original) == true
      ensures o == Ok ==> CopyOnly(old(disk), old(store.db), ConflictCopyName(original.name, original.hash), disk, store.db) == true
      ensures old(NoFaults()) && Verified(h, original, data) && old(Unblocked(disk, ConflictCopyName(original.name, original.hash))) ==> NoFaults() && o == Ok
    {
      var copyMeta := ConflictCopy(original);
      CopyClockIsValid(original);
      var stored := Clock.AdvanceClock(copyMeta, store.db.Row(copyMeta.name));
      if h(data) != original.hash || |data| != original.size as int {
        o := Refuse();
        return;
      }
      PreserveIsStep(h, Now(), original, data, stored);
      PublishedCopy(h, Now(), original, data, stored);
      CopyIsCanonical(original.name, original.hash);
      o := PublishReplica(stored, Write(data), op);
    }

    /** Leaves a copy that is there, if it has the content, or publishes it. */
    method KeepCopy(original: FileMeta, data: string) returns (o: Outcome)
      requires Valid() && MayPreserve(h, Now(), original, data) == true && Clock.ValidClock(original)
      requires var copy := ConflictCopyName(original.name, original.hash); copy !in store.db.intents && Agree(h, disk, store.db, copy)
      modifies this, store
      ensures Valid() && (o != Ok ==> op == Idle(None) || op == Down)
      ensures o == Ok ==> op == old(op) && Preserved(h, Now(), original) == true
      ensures o == Ok ==> CopyOnly(old(disk), old(store.db), ConflictCopyName(original.name, original.hash), disk, store.db) == true
      ensures old(NoFaults()) && old(Fits(disk)) && Verified(h, original, data) && old(CopyRoom(h, disk, original.name, original.hash, original.size as int)) ==>
        NoFaults() && o == Ok && Fits(disk)
    {
      var copy := ConflictCopyName(original.name, original.hash);
      o := Ok;
      if !Live(store.db, copy) {
        o := PublishCopy(original, data);
      } else if store.db.files[copy].hash != original.hash || store.db.files[copy].size != original.size {
        o := Refuse();
      }
      if o == Ok && Fits(old(disk)) {
        CopyFits(h, old(disk), old(store.db), original, Now());
      }
    }

    /** Keeps the bytes of a file under its conflict copy's name. */
    method PreserveConflict(original: FileMeta, data: string) returns (o: Outcome)
      requires Valid() && (op.Yielding? || op.Superseding?) && MayPreserve(h, Now(), original, data) == true
      requires original.name == if op.Yielding? then op.meta.name else op.tomb.name
      requires Clock.ValidClock(original)
      modifies this, store
      ensures Valid() && (o != Ok ==> op == Idle(None) || op == Down)
      ensures o == Ok ==> op == old(op) && Preserved(h, Now(), original) == true
      ensures o == Ok ==> CopyOnly(old(disk), old(store.db), ConflictCopyName(original.name, original.hash), disk, store.db) == true
      ensures old(NoFaults()) && old(Fits(disk)) && Verified(h, original, data) && old(CopyRoom(h, disk, original.name, original.hash, original.size as int)) ==>
        NoFaults() && o == Ok && Fits(disk)
    {
      var copy := ConflictCopyName(original.name, original.hash);
      HoldsInv(Now());
      SupersedingNames(h, Now(), original.hash);
      CopyIsCanonical(original.name, original.hash);
      CopyNameOutsideTree(original.name, original.hash);
      ghost var s := Now();
      o := RefreshFile(copy);
      if o != Ok {
        return;
      }
      LookedOnly(s.disk, s.db, copy, disk, store.db);
      MayStillPreserve(h, s, Now(), original, data, copy);
      OnlyAtSameData(s.disk, s.db, copy, disk, store.db);
      SameDataRoom(h, s.disk, disk, original.name, original.hash, original.size as int);
      ghost var disk1, db1 := disk, store.db;
      o := KeepCopy(original, data);
      if o == Ok {
        CopyOnlyComposes(s.disk, s.db, copy, disk1, db1, disk, store.db);
      }
    }

    /** Replaces whatever a name holds by a namespace tombstone, keeping its bytes first. */
    method CommitDeletion(tomb: FileMeta, ghost next: Op) returns (o: Outcome)
      requires Valid() && op == Superseding(tomb, next) && CanonicalName(tomb.name)
      modifies this, store
      ensures Valid() && (o != Ok ==> op == Idle(None) || op == Down)
      ensures o == Ok ==> op == next
      ensures o == Ok && old(Indexed(h, disk, store.db, tomb.name) && RemoteWins(store.db.Row(tomb.name), tomb)) ==>
        MadeWay(h, old(disk), old(store.db), tomb.name, disk, store.db) == true
      ensures old(NoFaults()) && old(Fits(disk)) && old(RoomFor(h, disk, tomb.name)) ==> NoFaults() && o == Ok && Fits(disk)
    {
      HoldsInv(Now());
      SupersedingNames(h, Now(), "");
      o := RefreshFile(tomb.name);
      if o != Ok {
        return;
      }
      OnlyAtSameData(old(disk), old(store.db), tomb.name, disk, store.db);
      SameDataRoom(h, old(disk), disk, tomb.name, "", 0);
      if !RemoteWins(store.db.Row(tomb.name), tomb) {
        SkipIsStep(h, Now());
        op := next;
        return;
      }
      o := GiveUp(tomb, next);
    }

    /** The file at the name, if there is one, is kept as a copy, and its row becomes a tombstone. */
    method GiveUp(tomb: FileMeta, ghost next: Op) returns (o: Outcome)
      requires Valid() && op == Superseding(tomb, next) && CanonicalName(tomb.name)
      requires tomb.name !in store.db.intents && Agree(h, disk, store.db, tomb.name) && RemoteWins(store.db.Row(tomb.name), tomb)
      modifies this, store
      ensures Valid() && (o != Ok ==> op == Idle(None) || op == Down)
      ensures o == Ok ==> op == next
      ensures o == Ok && old(Indexed(h, disk, store.db, tomb.name)) ==> MadeWay(h, old(disk), old(store.db), tomb.name, disk, store.db) == true
      ensures old(NoFaults()) && old(Fits(disk)) && old(RoomFor(h, disk, tomb.name)) ==> NoFaults() && o == Ok && Fits(disk)
    {
      ghost var s := Now();
      HoldsInv(s);
      if Live(store.db, tomb.name) {
        RowsAreValid(h, s, tomb.name);
        var local := store.db.files[tomb.name];
        o := PreserveConflict(local, disk[tomb.name].data);
        if o != Ok {
          return;
        }
        StillDisplaces(h, s, Now(), local);
      }
      SupersedeIsStep(h, Now());
      ghost var t := Now();
      o := PublishReplica(tomb, Remove, next);
      if o == Ok {
        if Indexed(h, s.disk, s.db, tomb.name) {
          MakesWay(h, s.disk, s.db, tomb.name, t.disk, t.db, tomb, disk, store.db);
        }
        if Fits(t.disk) {
          FewerFit(t.disk, tomb.name);
        }
      }
    }

    // ----- applying a peer's state -----

    method ObserveOne(ghost name: string, k: string, ghost seen: set<string>) returns (o: Outcome)
      requires Valid() && op.Idle? && k in disk && k != name && AllIndexed(h, disk, store.db, seen) == true
      modifies this, store
      ensures Valid() && (o != Ok ==> op == Idle(None) || op == Down)
      ensures o == Ok ==> op == old(op) && AllIndexed(h, disk, store.db, seen + {k}) == true && SameData(old(disk), disk) == true
      ensures o == Ok ==> Undisturbed(old(disk), old(store.db), name, disk, store.db) == true
      ensures old(NoFaults()) && old(Fits(disk)) ==> NoFaults() && o == Ok && Fits(disk) == true
    {
      ghost var disk1, db1 := disk, store.db;
      o := RefreshFile(k);
      if o == Ok {
        IndexesOneMore(h, disk1, db1, k, disk, store.db, seen);
        LookLeavesOthers(disk1, db1, k, disk, store.db, name);
        OnlyAtSameData(disk1, db1, k, disk, store.db);
      }
    }

    /** Looks at every file that blocks a name. */
    method ObserveConflicts(name: string) returns (o: Outcome, conflicts: set<string>)
      requires Valid() && op.Idle?
      modifies this, store
      ensures Valid() && (o != Ok ==> op == Idle(None) || op == Down)
      ensures o == Ok ==> op == old(op) && Blocking(disk, name, conflicts) && Observed(h, disk, store.db, conflicts) == true
      ensures o == Ok ==> AllIndexed(h, disk, store.db, conflicts) == true && SameData(old(disk), disk) == true
      ensures o == Ok ==> Undisturbed(old(disk), old(store.db), name, disk, store.db) == true
      ensures old(NoFaults()) && old(Fits(disk)) ==> NoFaults() && o == Ok && Fits(disk)
    {
      conflicts := set k | k in disk && NamespaceConflict(k, name);
      var todo := conflicts;
      o := Ok;
      while todo != {}
        invariant Valid() && o == Ok && op == old(op) && todo <= conflicts && Blocking(disk, name, conflicts)
        invariant old(NoFaults()) && old(Fits(disk)) ==> NoFaults() && Fits(disk) == true
        invariant AllIndexed(h, disk, store.db, conflicts - todo) == true && SameData(old(disk), disk) == true
        invariant Undisturbed(old(disk), old(store.db), name, disk, store.db) == true
        decreases todo
      {
        var k :| k in todo;
        ghost var disk1 := disk;
        o := ObserveOne(name, k, conflicts - todo);
        if o != Ok {
          return;
        }
        SameDataChains(old(disk), disk1, disk);
        assert conflicts - todo + {k} == conflicts - (todo - {k});
        todo := todo - {k};
      }
      IndexedIsObserved(h, disk, store.db, conflicts);
    }

    /** The greatest of the blocking files, if one is greater than the incoming one. */
    method ChooseWinner(m: FileMeta, conflicts: set<string>) returns (w: Option<string>)
      requires conflicts <= store.db.files.Keys
      ensures w.Some? ==> Wins(store.db, m, conflicts, w.value)
      ensures w.None? ==> forall k :: k in conflicts ==> CompareMeta(store.db.files[k], m) <= 0
    {
      w := None;
      var todo := conflicts;
      while todo != {}
        invariant todo <= conflicts
        invariant w.Some? ==> w.value in conflicts && CompareMeta(store.db.files[w.value], m) > 0
        invariant forall k :: k in conflicts && k !in todo ==> CompareMeta(store.db.files[k], WinnerOr(store.db, m, w)) <= 0
        decreases todo
      {
        var local :| local in todo;
        var winner := WinnerOr(store.db, m, w);
        todo := todo - {local};
        if CompareMeta(store.db.files[local], winner) > 0 {
          BeatsAll(store.db, m, winner, store.db.files[local], conflicts - todo - {local});
          w := Some(local);
        }
      }
    }

    /** Publishes a verified file at its name, or, where a greater file is in the way, under
        its conflict copy's name and with a tombstone at its own. */
    method SettleNamespace(m: FileMeta, data: string) returns (o: Outcome)
      requires Valid() && op.Idle? && ValidState(m) && !m.deleted && Verified(h, m, data) && CanonicalName(m.name)
      requires m.name !in store.db.intents && RemoteWins(store.db.Row(m.name), m)
      modifies this, store
      ensures Valid() && (o != Ok ==> op == Idle(None) || op == Down)
      ensures o == Ok ==> op == Idle(Some(m))
      ensures old(NoFaults()) && old(Fits(disk)) && old(Settlable(h, disk, m)) ==> o == Ok
    {
      var conflicts;
      o, conflicts := ObserveConflicts(m.name);
      if o != Ok {
        return;
      }
      if Settlable(h, old(disk), m) {
        SameDataSettlable(h, old(disk), disk, m);
      }
      o := Settle(m, data, conflicts);
    }

    /** Decides between the blocking files and the incoming one. */
    method Settle(m: FileMeta, data: string, conflicts: set<string>) returns (o: Outcome)
      requires Valid() && op.Idle? && ValidState(m) && !m.deleted && Verified(h, m, data) && CanonicalName(m.name)
      requires m.name !in store.db.intents && RemoteWins(store.db.Row(m.name), m)
      requires Blocking(disk, m.name, conflicts) && Observed(h, disk, store.db, conflicts) == true && AllIndexed(h, disk, store.db, conflicts) == true
      modifies this, store
      ensures Valid() && (o != Ok ==> op == Idle(None) || op == Down)
      ensures o == Ok ==> op == Idle(Some(m))
      ensures old(NoFaults()) && old(Fits(disk)) && old(Settlable(h, disk, m)) ==> o == Ok
    {
      BlockingIsLive(h, disk, store.db, m.name, conflicts);
      var w := ChooseWinner(m, conflicts);
      SettleIsStep(h, Now(), m, data, conflicts, w);
      HoldsInv(Now());
      if w.Some? {
        if Settlable(h, disk, m) {
          YieldsWithRoom(h, Now(), m, w.value);
        }
        var winner := store.db.files[w.value];
        op := Yielding(m, data, winner);
        o := Yield(m, data, winner);
      } else {
        if Settlable(h, disk, m) {
          SettlesReady(h, Now(), m, conflicts);
        }
        op := Settling(m, data, conflicts);
        o := Displace(m, data, conflicts);
      }
    }

    method Yield(m: FileMeta, data: string, winner: FileMeta) returns (o: Outcome)
      requires Valid() && op == Yielding(m, data, winner) && CanonicalName(m.name) && Clock.ValidClock(m)
      modifies this, store
      ensures Valid() && (o != Ok ==> op == Idle(None) || op == Down)
      ensures o == Ok ==> op == Idle(Some(m))
      ensures old(NoFaults()) && old(Fits(disk)) && Verified(h, m, data) && old(m.name !in disk && CopyRoom(h, disk, m.name, m.hash, m.size as int)) ==> o == Ok
    {
      o := PreserveConflict(m, data);
      if o == Ok {
        CopyNameOutsideTree(m.name, m.hash);
        YieldIsStep(h, Now());
        op := Superseding(Superseded(m.name, winner), Idle(Some(m)));
        o := CommitDeletion(Superseded(m.name, winner), Idle(Some(m)));
      }
    }

    /** One blocking file after the other makes way, then the incoming one is published. */
    method Displace(m: FileMeta, data: string, conflicts: set<string>) returns (o: Outcome)
      requires Valid() && op == Settling(m, data, conflicts) && CanonicalName(m.name) && ValidState(m) && !m.deleted
      requires forall k :: k in conflicts ==> CanonicalName(k)
      modifies this, store
      ensures Valid() && (o != Ok ==> op == Idle(None) || op == Down)
      ensures o == Ok ==> op == Idle(Some(m))
      ensures old(NoFaults()) && old(Fits(disk)) && old(Clearable(h, disk, store.db, m, conflicts)) ==> o == Ok
    {
      var todo := conflicts;
      ghost var fine := NoFaults() && Fits(disk) && Clearable(h, disk, store.db, m, conflicts);
      o := Ok;
      while todo != {}
        invariant Valid() && o == Ok && todo <= conflicts && op == Settling(m, data, todo)
        invariant fine ==> NoFaults() && Fits(disk) == true && Clearable(h, disk, store.db, m, todo) == true
        decreases todo
      {
        var c :| c in todo;
        o := DisplaceOne(m, data, todo, c, fine);
        if o != Ok {
          return;
        }
        todo := todo - {c};
      }
      SettledIsStep(h, Now());
      assert fine ==> Unblocked(disk, m.name);
      o := PublishReplica(m, Write(data), Idle(Some(m)));
    }

    method DisplaceOne(m: FileMeta, data: string, ghost todo: set<string>, c: string, ghost fine: bool) returns (o: Outcome)
      requires Valid() && op == Settling(m, data, todo) && c in todo && CanonicalName(c) && ValidState(m) && !m.deleted
      requires fine ==> NoFaults() && Fits(disk) == true && Clearable(h, disk, store.db, m, todo) == true
      modifies this, store
      ensures Valid() && (o != Ok ==> op == Idle(None) || op == Down)
      ensures o == Ok ==> op == Settling(m, data, todo - {c})
      ensures fine ==> o == Ok && NoFaults() && Fits(disk) == true && Clearable(h, disk, store.db, m, todo - {c}) == true
    {
      ghost var disk0, db0 := disk, store.db;
      if fine {
        assert CanGo(h, disk, store.db, m, c);
        GoingWins(h, disk, store.db, m, c);
      }
      SettleOneIsStep(h, Now(), c);
      op := Superseding(Superseded(c, m), Settling(m, data, todo - {c}));
      o := CommitDeletion(Superseded(c, m), Settling(m, data, todo - {c}));
      if fine {
        ReadyNext(h, disk0, db0, m, todo, c, disk, store.db);
      }
    }

    /** Brings one name in line with a peer's state; `data` is what was downloaded for it.
        If this returns without error, the row is at least as great as the state; without
        faults it does whenever that is feasible. */
    method Apply(m: FileMeta, data: string) returns (o: Outcome)
      requires Valid() && op.Idle? && ValidState(m) && CanonicalName(m.name)
      modifies this, store
      ensures Valid() && (o != Ok ==> op == Idle(None) || op == Down)
      ensures o == Ok ==> op == Idle(Some(m)) && CompareState(Some(m), store.db.Row(m.name)) <= 0
      ensures old(NoFaults()) && old(Fits(disk)) && old(Feasible(h, disk, m, data)) ==> o == Ok
    {
      o := ApplyState(m, data);
      if o == Ok {
        HoldsInv(Now());
        AppliedReaches(h, Now(), m);
      }
    }

    method ApplyState(m: FileMeta, data: string) returns (o: Outcome)
      requires Valid() && op.Idle? && ValidState(m) && CanonicalName(m.name)
      modifies this, store
      ensures Valid() && (o != Ok ==> op == Idle(None) || op == Down)
      ensures o == Ok ==> op == Idle(Some(m))
      ensures old(NoFaults()) && old(Fits(disk)) && old(Feasible(h, disk, m, data)) ==> o == Ok
    {
      o := Ok;
      if RemoteWins(store.db.Row(m.name), m) {
        o := RefreshFile(m.name);
        if o != Ok {
          return;
        }
        OnlyAtSameData(old(disk), old(store.db), m.name, disk, store.db);
        FeasibleStays(h, old(disk), disk, m, data);
      }
      if !RemoteWins(store.db.Row(m.name), m) {
        SkipApplyIsStep(h, Now(), m);
        op := Idle(Some(m));
        return;
      }
      if m.deleted && m.supersededBy != "" {
        ApplySupersededIsStep(h, Now(), m);
        op := Superseding(m, Idle(Some(m)));
        o := CommitDeletion(m, Idle(Some(m)));
        return;
      }
      var sameContent := Live(store.db, m.name) && store.db.files[m.name].hash == m.hash && store.db.files[m.name].size == m.size;
      if m.deleted || sameContent {
        var change := if m.deleted then Remove else Touch;
        ApplyIsStep(h, Now(), m, change);
        o := PublishReplica(m, change, Idle(Some(m)));
        return;
      }
      if h(data) != m.hash || |data| != m.size as int {
        o := Refuse();
        return;
      }
      o := SettleNamespace(m, data);
    }
  }
}
