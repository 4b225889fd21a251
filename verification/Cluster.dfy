/** Several nodes that exchange states: conflict settlement never displaces the greatest
    file, and what a node does is what the replication protocol expects of it. */
module Cluster {
  import opened Meta
  import opened Conflicts
  import opened Rank
  import opened Store
  import opened Node
  import N = Node
  import R = Replication
  import Clock
  import Text

  /** `pool` holds every state that some node has announced: what is queued anywhere or
      on its way. */
  datatype Cluster = Cluster(nodes: seq<Node>, pool: set<FileMeta>)

  /** A node announces one of its rows. */
  ghost predicate Announces(c: Cluster, d: Cluster, i: nat, n: string) {
    i < |c.nodes| && n in c.nodes[i].db.files && d == c.(pool := c.pool + {c.nodes[i].db.files[n]})
  }

  /** Replication on one node: it applies an announced state, settles, stops, recovers. */
  ghost predicate Replicates(h: Digest, c: Cluster, d: Cluster, i: nat) {
    && i < |c.nodes| && |d.nodes| == |c.nodes| && d == c.(nodes := c.nodes[i := d.nodes[i]])
    && var s, t := c.nodes[i], d.nodes[i];
       || (exists m :: m in c.pool && ApplyStep(h, s, t, m))
       || SettleStep(h, s, t) || RecoveryStep(h, s, t)
       || (LocalStep(h, s, t) && !t.op.Committing?)
  }

  ghost predicate Next(h: Digest, c: Cluster, d: Cluster) {
    (exists i :: Replicates(h, c, d, i)) || (exists i, n :: Announces(c, d, i, n))
  }

  /** Names of conflict copies, and names below them. */
  predicate Aside(n: string) {
    "birak-conflict-" <= n
  }

  /** The state ranks at or below `top`, or belongs to a conflict copy. */
  ghost predicate Bounded(top: FileMeta, m: FileMeta) {
    && ValidState(m) && (m.supersededBy != "" ==> m.supersededBy != m.name)
    && (Aside(m.name) || CompareMeta(m, top) <= 0)
  }

  ghost predicate RowsBounded(top: FileMeta, db: Db) {
    && db.local == {}
    && (forall n :: n in db.files ==> Bounded(top, db.files[n]))
    && (forall n :: n in db.intents ==> Bounded(top, db.intents[n]))
  }

  ghost predicate OpBounded(top: FileMeta, op: Op) {
    && !op.Committing?
    && (op.Settling? ==> Bounded(top, op.meta))
    && (op.Yielding? ==> Bounded(top, op.meta) && Bounded(top, op.winner))
    && (op.Superseding? ==> Bounded(top, op.tomb) && (op.next.Settling? ==> Bounded(top, op.next.meta)))
    && (op.Staged? || op.Changed? ==>
          && Bounded(top, op.meta) && (op.next.Settling? ==> Bounded(top, op.next.meta))
          && (op.next.Yielding? ==> Bounded(top, op.next.meta) && Bounded(top, op.next.winner))
          && (op.next.Superseding? ==> Bounded(top, op.next.tomb) && (op.next.next.Settling? ==> Bounded(top, op.next.next.meta))))
  }

  ghost predicate NodeBounded(h: Digest, top: FileMeta, s: Node) {
    Inv(h, s) && RowsBounded(top, s.db) && OpBounded(top, s.op)
  }

  /** `top` is a file, and nothing in the cluster ranks above it. */
  ghost predicate Greatest(h: Digest, top: FileMeta, c: Cluster) {
    && IsFile(top) && !Aside(top.name)
    && (forall i :: 0 <= i < |c.nodes| ==> NodeBounded(h, top, c.nodes[i]))
    && (forall m :: m in c.pool ==> Bounded(top, m))
  }

  /** The node holds `top`, live. */
  ghost predicate Holds(top: FileMeta, s: Node) {
    Live(s.db, top.name) && CompareState(Some(top), s.db.Row(top.name)) == 0
  }

  /** A namespace conflict never crosses the border of the copies. */
  lemma AsideIsClosed(a: string, b: string)
    requires NamespaceConflict(a, b)
    ensures Aside(a) <==> Aside(b)
  {
    var p := "birak-conflict-";
    if Under(a, b) {
      AsideUp(a, b);
    } else {
      AsideUp(b, a);
    }
  }

  lemma AsideUp(n: string, dir: string)
    requires Under(n, dir)
    ensures Aside(n) <==> Aside(dir)
  {
    var p := "birak-conflict-";
    assert n[|dir|] == '/';
    if Aside(n) {
      assert forall i :: 0 <= i < |p| ==> n[i] == p[i] && p[i] != '/';
      assert |dir| >= |p|;
      assert forall i :: 0 <= i < |dir| ==> dir[i] == n[i];
      assert dir[..|p|] == p;
    }
    if Aside(dir) {
      assert n[..|p|] == dir[..|p|];
    }
  }

  lemma CopiesAreAside(name: string, hash: string)
    ensures Aside(ConflictCopyName(name, hash))
  {
  }

  lemma SupersededBounded(top: FileMeta, name: string, winner: FileMeta)
    requires Bounded(top, winner) && IsFile(winner) && name != "" && NamespaceConflict(name, winner.name)
    ensures Bounded(top, Superseded(name, winner))
  {
    SupersededTiesWithWinner(name, winner);
    AsideIsClosed(name, winner.name);
    if !Aside(winner.name) {
      CompareMetaTransitive(Superseded(name, winner), winner, top);
    }
  }

  /** A row is replaced by a bounded state or stays. */
  ghost predicate RowsFrom(top: FileMeta, db: Db, db': Db) {
    db'.local == {} &&
    forall n :: db'.Row(n) == db.Row(n) || (n in db'.files && Bounded(top, db'.files[n]) && db'.files[n].name == n)
  }

  lemma PutBounded(top: FileMeta, db: Db, m: FileMeta)
    requires RowsBounded(top, db) && Bounded(top, m)
    ensures RowsBounded(top, Put(db, m)) && RowsFrom(top, db, Put(db, m))
  {
    CompareIgnoresVersion(m, db.lastVersion + 1, Some(top));
    assert forall n :: n != m.name ==> Put(db, m).Row(n) == db.Row(n);
  }

  lemma RecoversBounded(h: Digest, top: FileMeta, disk: Disk, db: Db, n: string, disk': Disk, db': Db)
    requires RowsBounded(top, db) && Recovers(h, disk, db, n, disk', db')
    ensures RowsBounded(top, db') && RowsFrom(top, db, db')
  {
    if Matches(h, disk, db.intents[n]) {
      PutBounded(top, db, db.intents[n]);
    } else {
      assert forall k :: db'.Row(k) == db.Row(k);
    }
  }

  lemma RefreshBounded(h: Digest, top: FileMeta, s: Node, t: Node, n: string)
    requires Core(h, s.disk, s.db) && RowsBounded(top, s.db)
    requires if n in s.db.intents then Recovers(h, s.disk, s.db, n, t.disk, t.db) else Inspects(h, s.disk, s.db, n, t.disk, t.db)
    ensures RowsBounded(top, t.db) && RowsFrom(top, s.db, t.db)
  {
    if n in s.db.intents {
      RecoversBounded(h, top, s.disk, s.db, n, t.disk, t.db);
    } else {
      InspectsKeeps(h, s.disk, s.db, n, t.disk, t.db);
      assert !LocalIntent(s.db, n);
    }
  }

  lemma RecoveryBounded(h: Digest, top: FileMeta, s: Node, t: Node)
    requires NodeBounded(h, top, s) && RecoveryStep(h, s, t)
    ensures RowsBounded(top, t.db) && OpBounded(top, t.op) && RowsFrom(top, s.db, t.db)
  {
    if n :| RefreshStep(h, s, t, n) {
      RefreshBounded(h, top, s, t, n);
    } else if n :| ResolvesOne(h, s, t, n) {
      RecoversBounded(h, top, s.disk, s.db, n, t.disk, t.db);
    }
  }

  lemma LocalBounded(h: Digest, top: FileMeta, s: Node, t: Node)
    requires NodeBounded(h, top, s) && LocalStep(h, s, t) && !t.op.Committing?
    ensures RowsBounded(top, t.db) && OpBounded(top, t.op) && RowsFrom(top, s.db, t.db)
  {
    if n :| IndexesOne(h, s, t, n) {
      RefreshBounded(h, top, s, t, n);
    } else {
      assert forall n :: t.db.Row(n) == s.db.Row(n);
    }
  }

  lemma ApplyBounded(h: Digest, top: FileMeta, s: Node, t: Node, m: FileMeta)
    requires NodeBounded(h, top, s) && ApplyStep(h, s, t, m) && Bounded(top, m)
    ensures RowsBounded(top, t.db) && OpBounded(top, t.op) && RowsFrom(top, s.db, t.db)
  {
    assert forall n :: t.db.Row(n) == s.db.Row(n);
    if data, conflicts :| AppliesFile(h, s, t, m, data, conflicts) {
      if t.op.Yielding? {
        var w :| Wins(s.db, m, conflicts, w) && t == s.(op := Yielding(m, data, s.db.files[w]));
      }
    }
  }

  lemma PreservesBounded(h: Digest, top: FileMeta, s: Node, t: Node, m: FileMeta, data: string)
    requires NodeBounded(h, top, s) && Preserves(h, s, t, m, data) && IsFile(m) && (s.op.Yielding? || s.op.Superseding?)
    ensures RowsBounded(top, t.db) && OpBounded(top, t.op) && RowsFrom(top, s.db, t.db)
  {
    CopiesAreAside(m.name, m.hash);
    assert forall n :: t.db.Row(n) == s.db.Row(n);
  }

  lemma SettleBounded(h: Digest, top: FileMeta, s: Node, t: Node)
    requires NodeBounded(h, top, s) && SettleStep(h, s, t)
    ensures RowsBounded(top, t.db) && OpBounded(top, t.op) && RowsFrom(top, s.db, t.db)
  {
    if Commits(s, t) {
      PutBounded(top, s.db, s.op.meta);
    } else if PreservesIncoming(h, s, t) {
      PreservesBounded(h, top, s, t, s.op.meta, s.op.data);
    } else if PreservesLocal(h, s, t) {
      PreservesBounded(h, top, s, t, s.db.files[s.op.tomb.name], s.disk[s.op.tomb.name].data);
    } else {
      assert forall n :: t.db.Row(n) == s.db.Row(n);
      if c :| SettlesOne(s, t, c) {
        SupersededBounded(top, c, s.op.meta);
      } else if Yields(h, s, t) {
        SupersededBounded(top, s.op.meta.name, s.op.winner);
      }
    }
  }

  lemma NodeStepBounded(h: Digest, top: FileMeta, c: Cluster, d: Cluster, i: nat)
    requires Greatest(h, top, c) && Replicates(h, c, d, i)
    ensures NodeBounded(h, top, d.nodes[i]) && RowsFrom(top, c.nodes[i].db, d.nodes[i].db)
    ensures RanksRise(c.nodes[i].db, d.nodes[i].db)
  {
    var s, t := c.nodes[i], d.nodes[i];
    if SettleStep(h, s, t) {
      SettleBounded(h, top, s, t);
      SettleStepKeeps(h, s, t);
    } else if RecoveryStep(h, s, t) {
      RecoveryBounded(h, top, s, t);
      RecoveryStepKeeps(h, s, t);
    } else if LocalStep(h, s, t) && !t.op.Committing? {
      LocalBounded(h, top, s, t);
      LocalStepKeeps(h, s, t);
    } else {
      var m :| m in c.pool && ApplyStep(h, s, t, m);
      ApplyBounded(h, top, s, t, m);
      ApplyStepKeeps(h, s, t, m);
    }
  }

  /** A bounded state that replaces the greatest one ties with it, so it is that live
      file again. */
  lemma TieIsLive(top: FileMeta, m: FileMeta)
    requires IsFile(top) && !Aside(top.name) && Bounded(top, m) && m.name == top.name && CompareMeta(top, m) <= 0
    ensures CompareMeta(top, m) == 0 && !m.deleted
  {
    CompareStateFlip(Some(m), Some(top));
    Text.CompareZero(Owner(top), Owner(m));
  }

  lemma HoldsOn(h: Digest, top: FileMeta, a: Db, b: Db)
    requires IsFile(top) && !Aside(top.name) && RowsFrom(top, a, b) && RanksRise(a, b)
    requires Live(a, top.name) && CompareState(Some(top), a.Row(top.name)) == 0
    ensures Live(b, top.name) && CompareState(Some(top), b.Row(top.name)) == 0
  {
    CompareStateTransitive(Some(top), a.Row(top.name), b.Row(top.name));
    if b.Row(top.name) != a.Row(top.name) {
      TieIsLive(top, b.files[top.name]);
    }
  }

  lemma ReplicatesKeepsGreatest(h: Digest, top: FileMeta, c: Cluster, d: Cluster, j: nat, i: nat)
    requires Greatest(h, top, c) && Replicates(h, c, d, j) && i < |c.nodes| && Holds(top, c.nodes[i])
    ensures Greatest(h, top, d) && i < |d.nodes| && Holds(top, d.nodes[i])
  {
    NodeStepBounded(h, top, c, d, j);
    if i == j {
      HoldsOn(h, top, c.nodes[i].db, d.nodes[i].db);
    }
  }

  lemma AnnouncesKeepsGreatest(h: Digest, top: FileMeta, c: Cluster, d: Cluster, j: nat, n: string)
    requires Greatest(h, top, c) && Announces(c, d, j, n)
    ensures Greatest(h, top, d)
  {
    assert NodeBounded(h, top, c.nodes[j]);
  }

  lemma NextKeepsGreatest(h: Digest, top: FileMeta, c: Cluster, d: Cluster, i: nat)
    requires Greatest(h, top, c) && Next(h, c, d) && i < |c.nodes| && Holds(top, c.nodes[i])
    ensures Greatest(h, top, d) == true
    ensures i < |d.nodes| && Holds(top, d.nodes[i])
  {
    if j :| Replicates(h, c, d, j) {
      ReplicatesKeepsGreatest(h, top, c, d, j, i);
    } else {
      var j, n :| Announces(c, d, j, n);
      AnnouncesKeepsGreatest(h, top, c, d, j, n);
    }
  }

  ghost predicate Run(h: Digest, run: seq<Cluster>) {
    run != [] && forall k :: 0 <= k < |run| - 1 ==> Next(h, run[k], run[k + 1])
  }

  /** A live file that nothing in the cluster outranks, conflict copies aside, stays live
      on every node that holds it, along every run of replication steps: exchanges,
      settlements, errors, crashes and recoveries on all nodes. */
  lemma {:induction false} GreatestStaysLive(h: Digest, top: FileMeta, run: seq<Cluster>, i: nat, k: nat)
    requires Run(h, run) && k < |run| && i < |run[0].nodes|
    requires Greatest(h, top, run[0]) && Holds(top, run[0].nodes[i])
    ensures Greatest(h, top, run[k]) == true
    ensures i < |run[k].nodes| && Holds(top, run[k].nodes[i])
    decreases k
  {
    if k > 0 {
      GreatestStaysLive(h, top, run, i, k - 1);
      assert Next(h, run[k - 1], run[k - 1 + 1]);
      NextKeepsGreatest(h, top, run[k - 1], run[k], i);
    }
  }

  // ----- the node as the replication protocol sees it -----

  predicate SameQueue(a: Db, b: Db) {
    a.queue == b.queue && a.revision == b.revision && a.cursors == b.cursors
  }

  lemma LocalLeavesQueue(h: Digest, s: Node, t: Node)
    requires LocalStep(h, s, t)
    ensures SameQueue(s.db, t.db)
  {
  }

  lemma RecoveryLeavesQueue(h: Digest, s: Node, t: Node)
    requires RecoveryStep(h, s, t)
    ensures SameQueue(s.db, t.db)
  {
  }

  lemma ApplyLeavesQueue(h: Digest, s: Node, t: Node, m: FileMeta)
    requires ApplyStep(h, s, t, m)
    ensures SameQueue(s.db, t.db)
  {
  }

  lemma SettleLeavesQueue(h: Digest, s: Node, t: Node)
    requires SettleStep(h, s, t)
    ensures SameQueue(s.db, t.db)
  {
  }

  lemma StepLeavesQueue(h: Digest, s: Node, t: Node)
    requires N.Next(h, s, t)
    ensures SameQueue(s.db, t.db)
  {
    if LocalStep(h, s, t) {
      LocalLeavesQueue(h, s, t);
    } else if RecoveryStep(h, s, t) {
      RecoveryLeavesQueue(h, s, t);
    } else if m :| ApplyStep(h, s, t, m) {
      ApplyLeavesQueue(h, s, t, m);
    } else {
      SettleLeavesQueue(h, s, t);
    }
  }

  /** Every step of a node is a step the change-stream protocol allows for: rows rise and
      the queue and cursors stay. */
  lemma NodeStepIsRowsRise(h: Digest, s: Node, t: Node, sys: R.System)
    requires Inv(h, s) && N.Next(h, s, t) && sys.db == s.db
    ensures R.RowsRise(sys, sys.(db := t.db))
  {
    NextKeeps(h, s, t);
    StepLeavesQueue(h, s, t);
  }

  /** An apply that has returned is what lets a repair worker finish. */
  lemma ReturnedApplyLetsWorkerFinish(cfg: R.Config, h: Digest, s: Node, sys: R.System, id: nat)
    requires Inv(h, s) && sys.db == s.db && id in sys.workers && sys.workers[id].Chosen? && s.op == Idle(Some(sys.workers[id].meta))
    ensures R.WorkerApplies(cfg, sys, sys.(workers := sys.workers[id := R.Finished(sys.workers[id].item)]), id)
  {
  }
}
