/** What a node keeps along every run: ranks never fall, the index and the disk agree
    wherever no intent is open, and settling a file-versus-directory conflict loses no
    bytes. Runs interleave local commits, replica applies, errors, crashes and
    restarts, each cut after any single effect. */
module Recovery {
  import opened Meta
  import opened Conflicts
  import opened Rank
  import opened Store
  import opened Node

  /** A stopped node whose index describes its disk. */
  ghost predicate Init(h: Digest, s: Node) {
    && s.op.Down? && s.db.intents == map[] && s.db.local == {}
    && IsTree(s.disk) && RowsValid(s.db) && forall n :: Agree(h, s.disk, s.db, n)
  }

  ghost predicate Moves(h: Digest, run: seq<Node>, i: nat) {
    i + 1 < |run| ==> Next(h, run[i], run[i + 1])
  }

  ghost predicate Run(h: Digest, run: seq<Node>) {
    run != [] && Init(h, run[0]) && forall i: nat :: Moves(h, run, i)
  }

  lemma {:induction false} RunKeeps(h: Digest, run: seq<Node>, i: nat)
    requires Run(h, run) && i < |run|
    ensures Inv(h, run[i])
  {
    if i > 0 {
      RunKeeps(h, run, i - 1);
      assert Moves(h, run, i - 1);
      NextKeeps(h, run[i - 1], run[i]);
    }
  }

  lemma StepAt(h: Digest, run: seq<Node>, i: nat)
    requires Run(h, run) && i + 1 < |run|
    ensures Inv(h, run[i]) == true && Next(h, run[i], run[i + 1]) == true
  {
    RunKeeps(h, run, i);
    assert Moves(h, run, i);
  }

  lemma StepRises(h: Digest, run: seq<Node>, i: nat)
    requires Run(h, run) && i + 1 < |run|
    ensures RanksRise(run[i].db, run[i + 1].db)
  {
    StepAt(h, run, i);
    NextKeeps(h, run[i], run[i + 1]);
  }

  lemma {:induction false} RisesAlong(run: seq<Node>, i: nat, j: nat, n: string)
    requires forall k :: 0 <= k < |run| - 1 ==> RanksRise(run[k].db, run[k + 1].db)
    requires i <= j < |run|
    ensures CompareState(run[i].db.Row(n), run[j].db.Row(n)) <= 0
    decreases j
  {
    if i == j {
      CompareStateReflexive(run[i].db.Row(n));
    } else {
      RisesAlong(run, i, j - 1, n);
      assert RanksRise(run[j - 1].db, run[j - 1 + 1].db);
      CompareStateTransitive(run[i].db.Row(n), run[j - 1].db.Row(n), run[j].db.Row(n));
    }
  }

  /** A name's rank never decreases along a run, although recovery writes a pending
      intent over the row without comparing the two. */
  lemma RankNeverFalls(h: Digest, run: seq<Node>, i: nat, j: nat, n: string)
    requires Run(h, run) && i <= j < |run|
    ensures CompareState(run[i].db.Row(n), run[j].db.Row(n)) <= 0
  {
    forall k | 0 <= k < |run| - 1 ensures RanksRise(run[k].db, run[k + 1].db) { StepRises(h, run, k); }
    RisesAlong(run, i, j, n);
  }

  /** In every state of a run, a name that no intent covers has a live row exactly when
      the disk holds that content. */
  lemma IndexMatchesDisk(h: Digest, run: seq<Node>, n: string)
    requires Run(h, run)
    requires var s := run[|run| - 1]; n !in s.db.intents && !LocalIntent(s.db, n)
    ensures var s := run[|run| - 1]; Agree(h, s.disk, s.db, n) && !Quarantines(h, s.disk, s.db, n)
  {
    RunKeeps(h, run, |run| - 1);
  }

  /** Once startup recovery has run, every name agrees. */
  lemma StartupRecovers(h: Digest, run: seq<Node>, n: string)
    requires Run(h, run) && |run| >= 2 && Starts(run[|run| - 2], run[|run| - 1])
    ensures var s := run[|run| - 1]; Agree(h, s.disk, s.db, n) && s.db.intents == map[] && s.db.local == {}
  {
    RunKeeps(h, run, |run| - 2);
    var s := run[|run| - 2];
    assert !LocalIntent(s.db, n);
  }

  /** Indexing under a local intent never stops on a name: bytes that changed without a
      timestamp and files replaced by directories are what the intent announces. */
  lemma IndexingNeverBlocked(h: Digest, s: Node, n: string) returns (t: Node)
    requires Inv(h, s) && s.op.Indexing? && n in s.op.todo && InPaths(s.op.paths, n)
    requires n in s.disk ==> |s.disk[n].data| <= MAX_INT64 as int
    ensures IndexesOne(h, s, t, n)
  {
    assert LocalIntent(s.db, n);
    if n in s.db.intents {
      var m := s.db.intents[n];
      t := if !Matches(h, s.disk, m) then s.(db := s.db.(intents := s.db.intents - {n}))
           else s.(db := Put(s.db, m), disk := if m.deleted then s.disk else s.disk[n := s.disk[n].(mtime := m.modTime)]);
    } else if n !in s.disk {
      t := s.(op := s.op.(todo := s.op.todo - {n}));
      if Live(s.db, n) {
        var stored := LocalStateExists(s.db.files, LocalMeta(n, s.db.files[n].modTime, 0, "", true));
        t := t.(db := Put(s.db, stored));
      }
    } else {
      var f := s.disk[n];
      t := s.(op := s.op.(todo := s.op.todo - {n}));
      if Live(s.db, n) && SameBytes(h, f, s.db.files[n]) && f.mtime == s.db.files[n].modTime {
        t := t.(disk := s.disk[n := f.(mtime := s.db.files[n].modTime)]);
      } else {
        var stored := LocalStateExists(s.db.files, LocalMeta(n, f.mtime, |f.data| as int64, h(f.data), false));
        t := t.(db := Put(s.db, stored));
      }
    }
  }

  /** An apply that returns without error has left a row at least as great as the state
      it was given, also when that state lost a namespace conflict. */
  lemma ApplyReachesState(h: Digest, run: seq<Node>, m: FileMeta)
    requires Run(h, run) && run[|run| - 1].op == Idle(Some(m))
    ensures CompareState(Some(m), run[|run| - 1].db.Row(m.name)) <= 0
  {
    RunKeeps(h, run, |run| - 1);
  }

  // ----- no bytes are lost -----

  ghost predicate Injective(h: Digest) {
    forall a, b :: h(a) == h(b) ==> a == b
  }

  function CopyOf(h: Digest, n: string, data: string): string {
    ConflictCopyName(n, h(data))
  }

  /** The name itself, its conflict copy, the copy of that copy, and so on. */
  function Chain(h: Digest, n: string, data: string, k: nat): string {
    if k == 0 then n else CopyOf(h, Chain(h, n, data, k - 1), data)
  }

  ghost predicate Holds(disk: Disk, n: string, data: string) {
    n in disk && disk[n].data == data
  }

  /** The bytes are at their own name, at its conflict copy, or at a copy of a copy. */
  ghost predicate Kept(h: Digest, disk: Disk, n: string, data: string) {
    exists k: nat :: Holds(disk, Chain(h, n, data, k), data)
  }

  /** The staged change overwrites the name, or a copy, with a newer state, or removes it by
      a deletion that is not a namespace tombstone. */
  ghost predicate OrdinaryUpdate(h: Digest, s: Node, n: string, data: string) {
    && s.op.Staged? && s.op.meta.name in s.disk && (s.op.change.Write? || (s.op.change.Remove? && s.op.meta.supersededBy == ""))
    && exists k: nat :: s.op.meta.name == Chain(h, n, data, k)
  }

  /** A file about to be removed by a namespace tombstone has its copy on disk. */
  ghost predicate SafeRemoval(h: Digest, s: Node) {
    s.op.Staged? && s.op.change.Remove? && s.op.meta.supersededBy != "" && s.op.meta.name in s.disk ==>
      var n := s.op.meta.name;
      CopyOf(h, n, s.disk[n].data) in s.disk && s.disk[CopyOf(h, n, s.disk[n].data)].data == s.disk[n].data
  }

  lemma RemovalsAreSafe(h: Digest, s: Node, t: Node)
    requires Injective(h) == true && Inv(h, s) == true && Next(h, s, t) == true
    ensures SafeRemoval(h, t) == true
  {
    if t.op.Staged? && t.op.change.Remove? && t.op.meta.supersededBy != "" && t.op.meta.name in t.disk {
      StagedFrom(h, s, t);
      var n := s.op.tomb.name;
      assert Live(s.db, n) && Preserved(h, s, s.db.files[n]);
      var copy := ConflictCopyName(n, s.db.files[n].hash);
      assert h(s.disk[copy].data) == h(s.disk[n].data);
    }
  }

  /** No operation waits behind another one's disk change. */
  predicate ReturnsToDecision(op: Op) {
    && (op.Changed? ==> !op.next.Staged? && !op.next.Changed?)
    && (op.Superseding? ==> op.next.Idle? || op.next.Settling?)
    && (op.Settling? ==> op.meta.supersededBy == "")
  }

  // Where each kind of step leads.

  lemma LocalStepLeads(h: Digest, s: Node, t: Node)
    requires LocalStep(h, s, t)
    ensures t.op.Committing? || t.op.Indexing? || t.op.Resolving? || t.op == Idle(None)
  {
  }

  lemma RecoveryStepLeads(h: Digest, s: Node, t: Node)
    requires RecoveryStep(h, s, t)
    ensures t.op.Down? || t.op == Idle(None) || (t.op == s.op && !s.op.Staged? && !s.op.Changed?)
  {
  }

  lemma ApplyStepLeads(h: Digest, s: Node, t: Node, m: FileMeta)
    requires ApplyStep(h, s, t, m)
    ensures || t.op == Idle(Some(m)) || t.op.Settling? || t.op.Yielding?
            || (t.op.Superseding? && t.op.next == Idle(Some(m)) && m.deleted)
            || (t.op.Staged? && t.op.meta == m && t.op.next == Idle(Some(m)) && m.supersededBy == "")
  {
  }

  /** Only `Supersedes` stages a namespace tombstone. */
  lemma StagedFrom(h: Digest, s: Node, t: Node)
    requires ReturnsToDecision(s.op) && Next(h, s, t)
    requires t.op.Staged? && t.op.change.Remove? && t.op.meta.supersededBy != ""
    ensures Supersedes(h, s, t)
  {
    if LocalStep(h, s, t) {
      LocalStepLeads(h, s, t);
    } else if RecoveryStep(h, s, t) {
      RecoveryStepLeads(h, s, t);
    } else if m :| ApplyStep(h, s, t, m) {
      ApplyStepLeads(h, s, t, m);
    }
  }

  /** A disk change keeps the bytes where they are, or removes them from a name whose copy has them. */
  lemma KeptChange(h: Digest, s: Node, t: Node, n: string, data: string, k: nat)
    requires SafeRemoval(h, s) && ChangesDisk(s, t) && !OrdinaryUpdate(h, s, n, data) && Holds(s.disk, Chain(h, n, data, k), data)
    ensures Holds(t.disk, Chain(h, n, data, k), data) || Holds(t.disk, Chain(h, n, data, k + 1), data)
  {
    CopyNameOutsideTree(Chain(h, n, data, k), h(data));
  }

  /** Steps other than local commits change files on disk only where one is staged. */
  lemma KeptStep(h: Digest, s: Node, t: Node, n: string, data: string)
    requires Inv(h, s) == true && SafeRemoval(h, s) == true && Next(h, s, t) == true && !Mutates(s, t)
    requires Kept(h, s.disk, n, data) && !OrdinaryUpdate(h, s, n, data)
    ensures Kept(h, t.disk, n, data)
  {
    var k: nat :| Holds(s.disk, Chain(h, n, data, k), data);
    if ChangesDisk(s, t) {
      KeptChange(h, s, t, n, data, k);
    } else {
      DiskDataSame(h, s, t);
      assert Holds(t.disk, Chain(h, n, data, k), data);
    }
  }

  /** The same files with the same bytes. */
  ghost predicate SameBytesOf(a: Disk, b: Disk) {
    a.Keys == b.Keys && forall k :: k in a ==> b[k].data == a[k].data
  }

  lemma DiskDataSame(h: Digest, s: Node, t: Node)
    requires RowsValid(s.db) && Next(h, s, t) && !Mutates(s, t) && !ChangesDisk(s, t)
    ensures SameBytesOf(s.disk, t.disk) == true
  {
    if LocalStep(h, s, t) {
      LocalDataSame(h, s, t);
    } else if RecoveryStep(h, s, t) {
      RecoveryDataSame(h, s, t);
    } else if m :| ApplyStep(h, s, t, m) {
      ApplyDiskSame(h, s, t, m);
    } else {
      SettleDiskSame(h, s, t);
    }
  }

  lemma ApplyDiskSame(h: Digest, s: Node, t: Node, m: FileMeta)
    requires ApplyStep(h, s, t, m)
    ensures t.disk == s.disk
  {
  }

  lemma SettleDiskSame(h: Digest, s: Node, t: Node)
    requires SettleStep(h, s, t) && !ChangesDisk(s, t)
    ensures t.disk == s.disk
  {
  }

  lemma LocalDataSame(h: Digest, s: Node, t: Node)
    requires RowsValid(s.db) && LocalStep(h, s, t) && !Mutates(s, t)
    ensures SameBytesOf(s.disk, t.disk) == true
  {
    if k :| IndexesOne(h, s, t, k) {
      DataSameAt(h, s, t, k);
    }
  }

  lemma RecoveryDataSame(h: Digest, s: Node, t: Node)
    requires RowsValid(s.db) && RecoveryStep(h, s, t) && !ChangesDisk(s, t)
    ensures SameBytesOf(s.disk, t.disk) == true
  {
    if k :| RefreshStep(h, s, t, k) {
      DataSameAt(h, s, t, k);
    } else if k :| ResolvesOne(h, s, t, k) {
      DataSameAt(h, s, t, k);
    }
  }

  lemma DataSameAt(h: Digest, s: Node, t: Node, k: string)
    requires RowsValid(s.db)
    requires if k in s.db.intents then Recovers(h, s.disk, s.db, k, t.disk, t.db) else Inspects(h, s.disk, s.db, k, t.disk, t.db)
    ensures SameBytesOf(s.disk, t.disk) == true
  {
  }

  lemma SafeAtFirst(h: Digest, s: Node)
    requires Init(h, s)
    ensures SafeRemoval(h, s) == true
  {
  }

  lemma SafeAt(h: Digest, run: seq<Node>, k: nat)
    requires Injective(h) == true && Run(h, run) && k < |run|
    ensures SafeRemoval(h, run[k]) == true
  {
    if k == 0 {
      SafeAtFirst(h, run[0]);
    } else {
      StepAt(h, run, k - 1);
      RemovalsAreSafe(h, run[k - 1], run[k]);
    }
  }

  /** Neither a local commit nor an ordinary update of a name that holds the bytes comes next. */
  ghost predicate Untouched(h: Digest, run: seq<Node>, k: nat, n: string, data: string) {
    k + 1 < |run| ==> !Mutates(run[k], run[k + 1]) && !OrdinaryUpdate(h, run[k], n, data)
  }

  lemma KeptAt(h: Digest, run: seq<Node>, k: nat, n: string, data: string)
    requires Injective(h) == true && Run(h, run) == true && k + 1 < |run| && Kept(h, run[k].disk, n, data) == true && Untouched(h, run, k, n, data) == true
    ensures Kept(h, run[k + 1].disk, n, data) == true
  {
    SafeAt(h, run, k);
    StepAt(h, run, k);
    KeptStep(h, run[k], run[k + 1], n, data);
  }

  /** Conflict settlement loses nothing, at whatever step it is cut: as long as a run
      holds no local commit and no ordinary newer state of the name or of a copy, the
      bytes of a file are at its own name or at a conflict copy. */
  lemma {:induction false} NoBytesLost(h: Digest, run: seq<Node>, i: nat, j: nat, n: string, data: string)
    requires Injective(h) == true && Run(h, run) == true && i <= j < |run|
    requires Kept(h, run[i].disk, n, data) == true
    requires forall k: nat :: i <= k < j ==> Untouched(h, run, k, n, data) == true
    ensures Kept(h, run[j].disk, n, data) == true
    decreases j
  {
    if i < j {
      NoBytesLost(h, run, i, j - 1, n, data);
      assert Untouched(h, run, j - 1, n, data) == true;
      KeptAt(h, run, j - 1, n, data);
    }
  }

  // ----- an incoming file that loses is preserved before its tombstone is recorded -----

  ghost predicate CopyOnDisk(h: Digest, disk: Disk, m: FileMeta) {
    HasContent(h, disk, ConflictCopyName(m.name, m.hash), m)
  }

  /** The live file whose apply the operation ends with a namespace tombstone. */
  function LoserOf(op: Op): Option<FileMeta> {
    if op.Superseding? && op.next.Idle? && op.next.done.Some? && !op.next.done.value.deleted then op.next.done
    else if (op.Staged? || op.Changed?) && op.meta.supersededBy != "" && op.next.Idle? && op.next.done.Some? && !op.next.done.value.deleted then op.next.done
    else if (op.Staged? || op.Changed?) && op.next.Superseding? then LoserOf(op.next)
    else None
  }

  ghost predicate LoserKept(h: Digest, s: Node) {
    LoserOf(s.op).Some? ==>
      var m := LoserOf(s.op).value;
      && CopyOnDisk(h, s.disk, m)
      && (s.op.Staged? ==> s.op.meta.name != ConflictCopyName(m.name, m.hash))
  }

  /** Yielding is the only way into such an end. */
  lemma LoserFrom(h: Digest, s: Node, t: Node)
    requires ReturnsToDecision(s.op) && Next(h, s, t) && LoserOf(t.op).Some? && LoserOf(t.op) != LoserOf(s.op)
    ensures Yields(h, s, t)
  {
    if LocalStep(h, s, t) {
      LocalStepLeads(h, s, t);
    } else if RecoveryStep(h, s, t) {
      RecoveryStepLeads(h, s, t);
    } else if m :| ApplyStep(h, s, t, m) {
      ApplyStepLeads(h, s, t, m);
    }
  }

  lemma LoserKeptStep(h: Digest, s: Node, t: Node)
    requires Inv(h, s) && LoserKept(h, s) && Next(h, s, t)
    ensures LoserKept(h, t)
  {
    if LoserOf(t.op).Some? {
      var m := LoserOf(t.op).value;
      CopyNameOutsideTree(m.name, m.hash);
      if LoserOf(t.op) != LoserOf(s.op) {
        LoserFrom(h, s, t);
      } else if !ChangesDisk(s, t) {
        LoserMoves(h, s, t);
      }
    }
  }

  lemma LoserMoves(h: Digest, s: Node, t: Node)
    requires Inv(h, s) && LoserKept(h, s) && Next(h, s, t) && !ChangesDisk(s, t)
    requires LoserOf(t.op).Some? && LoserOf(t.op) == LoserOf(s.op)
    ensures LoserKept(h, t)
  {
    DiskDataSame(h, s, t);
    if t.op.Staged? {
      LoserStaged(h, s, t);
    }
  }

  /** A copy made while the loser's own copy is on disk is another one. */
  lemma LoserStaged(h: Digest, s: Node, t: Node)
    requires Inv(h, s) && LoserKept(h, s) && Next(h, s, t)
    requires LoserOf(t.op).Some? && LoserOf(t.op) == LoserOf(s.op) && t.op.Staged?
    ensures var m := LoserOf(t.op).value; t.op.meta.name != ConflictCopyName(m.name, m.hash)
  {
    var m := LoserOf(t.op).value;
    CopyNameOutsideTree(m.name, m.hash);
    StagedByPreservation(h, s, t);
    if PreservesLocal(h, s, t) {
      var local := s.db.files[s.op.tomb.name];
      assert ConflictCopyName(local.name, local.hash) !in s.disk;
    }
  }

  lemma StagedByPreservation(h: Digest, s: Node, t: Node)
    requires ReturnsToDecision(s.op) && Next(h, s, t)
    requires LoserOf(t.op).Some? && LoserOf(t.op) == LoserOf(s.op) && t.op.Staged?
    ensures PreservesLocal(h, s, t) || Supersedes(h, s, t)
  {
    if LocalStep(h, s, t) {
      LocalStepLeads(h, s, t);
    } else if RecoveryStep(h, s, t) {
      RecoveryStepLeads(h, s, t);
    } else if m :| ApplyStep(h, s, t, m) {
      ApplyStepLeads(h, s, t, m);
    }
  }

  lemma {:induction false} LoserKeptAlong(h: Digest, run: seq<Node>, i: nat)
    requires Run(h, run) && i < |run|
    ensures LoserKept(h, run[i])
  {
    if i > 0 {
      LoserKeptAlong(h, run, i - 1);
      StepAt(h, run, i - 1);
      LoserKeptStep(h, run[i - 1], run[i]);
    }
  }

  /** When the tombstone row of an incoming file that lost is committed, the file's
      content is already on disk under its conflict copy name. */
  lemma LoserPreservedFirst(h: Digest, run: seq<Node>, m: FileMeta)
    requires Run(h, run) && |run| >= 2 && !m.deleted
    requires var s := run[|run| - 2];
             s.op.Changed? && s.op.meta.supersededBy != "" && s.op.next == Idle(Some(m)) && Commits(s, run[|run| - 1])
    ensures CopyOnDisk(h, run[|run| - 1].disk, m)
  {
    LoserKeptAlong(h, run, |run| - 2);
  }
}
