/** Repairing one queued name all the way: a worker of the syncer decides, the node
    applies the state with its own steps, and the worker concludes. */
module Repair {
  import opened Meta
  import opened Conflicts
  import opened Rank
  import opened Store
  import opened Node
  import opened Operations
  import Clock
  import Cluster
  import R = Replication
  import Syncing

  /** Only rows and intents have changed, and no rank went down. */
  ghost predicate Risen(a: Db, b: Db) {
    b == a.(files := b.files, lastVersion := b.lastVersion, intents := b.intents, local := b.local) && RanksRise(a, b)
  }

  lemma StepRises(h: Digest, start: Db, s: Node, t: Node)
    requires Inv(h, s) && Risen(start, s.db) && Next(h, s, t)
    ensures Inv(h, t) && Risen(start, t.db)
  {
    NextKeeps(h, s, t);
    var sys := R.System(s.db, R.Peer(map[], 0, ""), {}, R.Quiet, map[]);
    Cluster.NodeStepIsRowsRise(h, s, t, sys);
    forall n ensures CompareState(start.Row(n), t.db.Row(n)) <= 0 {
      CompareStateTransitive(start.Row(n), s.db.Row(n), t.db.Row(n));
    }
  }

  /** Having moved on from a database by steps of the node is a property its operations keep. */
  lemma RisenIsClosed(h: Digest, start: Db, good: Node -> bool)
    requires forall s {:trigger good(s)} :: good(s) <==> Inv(h, s) && Risen(start, s.db)
    ensures Closed(h, good)
  {
    forall s, t | good(s) && Next(h, s, t) ensures good(t) {
      StepRises(h, start, s, t);
    }
  }

  /** The node is between two operations, with index and disk in order. */
  ghost predicate Orderly(h: Digest, disk: Disk, db: Db) {
    Core(h, disk, db) && NamesCanonical(disk, db)
  }

  lemma OrderlyIgnoresQueue(h: Digest, disk: Disk, a: Db, b: Db)
    requires Syncing.SameNode(a, b) && Orderly(h, disk, a) == true
    ensures Orderly(h, disk, b) == true
  {
    assert forall n :: b.Row(n) == a.Row(n);
    assert forall n :: LocalIntent(b, n) <==> LocalIntent(a, n);
    assert forall n :: Agree(h, disk, b, n) <==> Agree(h, disk, a, n);
  }

  lemma RowsHaveValidClocks(db: Db)
    requires RowsValid(db)
    ensures ValidClocks(db.files)
  {
  }

  /** Applies a state on the node that holds `db`. */
  method ApplyOn(h: Digest, disk: Disk, db: Db, m: FileMeta, data: string, fates: seq<Fate>) returns (ok: bool, disk': Disk, db': Db)
    requires Orderly(h, disk, db) && ValidState(m) && CanonicalName(m.name)
    requires forall k :: k in db.queue ==> db.queue[k].revision <= db.revision
    ensures Orderly(h, disk', db') && Risen(db, db')
    ensures ok ==> CompareState(Some(m), db'.Row(m.name)) <= 0
    ensures (forall i :: 0 <= i < |fates| ==> fates[i] == Happens) && Fits(disk) && Feasible(h, disk, m, data) ==> ok
  {
    ghost var good := (s: Node) => Inv(h, s) && Risen(db, s.db);
    RisenIsClosed(h, db, good);
    RowsHaveValidClocks(db);
    forall n ensures CompareState(db.Row(n), db.Row(n)) <= 0 {
      CompareStateReflexive(db.Row(n));
    }
    var store := new Store.Open(db, 0);
    var volume := new Volume.Idling(h, store, disk, fates, good);
    var o := volume.Apply(m, data);
    ok, disk', db' := o == Ok, volume.disk, volume.store.db;
    assert good(volume.Now());
  }

  /** States this node takes are ones it can apply. */
  ghost predicate Appliable(cfg: R.Config) {
    forall m :: !cfg.excluded(m) ==> ValidState(m) && CanonicalName(m.name)
  }

  /** Nothing disturbs the repair and nothing fails. */
  ghost predicate Calm(fates: seq<Fate>, disk: Disk) {
    (forall i :: 0 <= i < |fates| ==> fates[i] == Happens) && Fits(disk)
  }

  /** What is left to do for a state is to apply it, and that can be done. */
  ghost predicate Doable(cfg: R.Config, h: Digest, disk: Disk, m: FileMeta, data: string) {
    cfg.excluded(m) || Feasible(h, disk, m, data)
  }

  /** Applies the state a worker has chosen; `data` is what was downloaded for it. */
  method ApplyHere(syncer: Syncing.Syncer, id: nat, h: Digest, disk: Disk, data: FileMeta -> string, fates: seq<Fate>) returns (done: bool, disk': Disk)
    requires syncer.Fair(Syncing.Repairing(id)) == true && id in syncer.world.workers && syncer.world.workers[id].Chosen?
    requires Orderly(h, disk, syncer.world.db) == true && R.WorkInv(syncer.cfg, syncer.world) == true && Appliable(syncer.cfg) == true
    modifies syncer`world
    ensures syncer.Fair(Syncing.Repairing(id)) == true && syncer.rel(old(syncer.world), syncer.world)
    ensures Orderly(h, disk', syncer.world.db) == true && syncer.world.peer == old(syncer.world.peer)
    ensures var w := old(syncer.world.workers[id]);
      && id in syncer.world.workers && syncer.world.workers[id] == (if done then R.Finished(w.item) else w)
      && (done ==> Syncing.Settled(syncer.cfg, syncer.world.db, w.meta) == true)
      && (Calm(fates, disk) == true && Doable(syncer.cfg, h, disk, w.meta, data(w.meta)) == true ==> done)
  {
    var m := syncer.world.workers[id].meta;
    ghost var start := syncer.world;
    done, disk' := syncer.cfg.excluded(m), disk;
    if !done {
      var db';
      done, disk', db' := ApplyOn(h, disk, syncer.world.db, m, data(m), fates);
      syncer.Absorb(db', id);
    }
    if done {
      syncer.FinishWorker(id);
    }
  }

  /** What an attempt comes to when nothing disturbs it. */
  ghost predicate Expected(cfg: R.Config, s: R.System, item: RepairItem, damaged: set<string>, h: Digest, disk: Disk, data: FileMeta -> string, db': Db, done: bool) {
    var m := Syncing.StateToApply(cfg, s.peer.files, true, item);
    var held := item.name !in damaged && CompareState(Some(item.row.meta), s.db.Row(item.name)) <= 0;
    && (held ==> done)
    && (!held && m.None? ==> !done)
    && (!held && m.Some? && Doable(cfg, h, disk, m.value, data(m.value)) ==>
          done && (cfg.excluded(m.value) || CompareState(m, db'.Row(m.value.name)) <= 0))
  }

  /** What the worker makes of the item in state `s` when nothing disturbs it. */
  ghost predicate Decided(cfg: R.Config, s: R.System, damaged: set<string>, d: Syncing.Decision, item: RepairItem, w: R.Worker) {
    && (d == Syncing.Held <==> item.name !in damaged && CompareState(Some(item.row.meta), s.db.Row(item.name)) <= 0)
    && (d == Syncing.PutOff ==> Syncing.StateToApply(cfg, s.peer.files, true, item).None?)
    && (d == Syncing.Apply ==> w.Chosen? && Syncing.StateToApply(cfg, s.peer.files, true, item) == Some(w.meta))
  }

  /** What was decided, and what came of it. */
  ghost predicate Acted(cfg: R.Config, d: Syncing.Decision, w: R.Worker, h: Digest, disk: Disk, data: FileMeta -> string, calm: bool, db': Db, done: bool) {
    && (d != Syncing.Apply ==> (done <==> d == Syncing.Held))
    && (d == Syncing.Apply ==> w.Chosen? && (done ==> Syncing.Settled(cfg, db', w.meta)) && (calm && Doable(cfg, h, disk, w.meta, data(w.meta)) == true ==> done))
  }

  lemma AttemptIsExpected(cfg: R.Config, s: R.System, item: RepairItem, damaged: set<string>, h: Digest, disk: Disk, data: FileMeta -> string,
    d: Syncing.Decision, w: R.Worker, db': Db, done: bool)
    requires Decided(cfg, s, damaged, d, item, w) && Acted(cfg, d, w, h, disk, data, true, db', done)
    ensures Expected(cfg, s, item, damaged, h, disk, data, db', done) == true
  {
  }

  /** The rules are upward closed, or the peer is idle and has been. */
  ghost predicate Steady(cfg: R.Config, others: seq<R.System -> R.System>, before: R.Peer, after: R.Peer) {
    R.RulesUpwardClosed(cfg) == true || (Syncing.PeerIdle(others) == true && after == before)
  }

  /** The worker's own decision leaves the node as it is. */
  method DecideHere(syncer: Syncing.Syncer, id: nat, damaged: set<string>, ghost h: Digest, ghost disk: Disk) returns (d: Syncing.Decision)
    requires syncer.Fair(Syncing.Repairing(id)) == true && id in syncer.world.workers && syncer.world.workers[id].Took?
    requires Orderly(h, disk, syncer.world.db) == true && Syncing.NodeIdle(syncer.others) == true
    requires Syncing.Safe(syncer.cfg, syncer.rel) == true && R.WorkInv(syncer.cfg, syncer.world) == true
    requires Steady(syncer.cfg, syncer.others, syncer.world.peer, syncer.world.peer) == true
    modifies syncer`world, syncer`others, syncer`fates
    ensures syncer.Fair(Syncing.Repairing(id)) == true && syncer.rel(old(syncer.world), syncer.world)
    ensures Orderly(h, disk, syncer.world.db) == true && Syncing.NodeIdle(syncer.others) == true && R.WorkInv(syncer.cfg, syncer.world) == true
    ensures Steady(syncer.cfg, syncer.others, old(syncer.world.peer), syncer.world.peer) == true
    ensures var item, world := old(syncer.world.workers[id].item), syncer.world;
      && id in world.workers && world.workers[id].item == item && (d == Syncing.Held <==> world.workers[id].Finished?)
      && (d == Syncing.Apply <==> world.workers[id].Chosen?)
      && (old(syncer.Quiescent()) ==> syncer.Quiescent() && Decided(syncer.cfg, old(syncer.world), damaged, d, item, world.workers[id]) == true)
  {
    ghost var start := syncer.world;
    d := syncer.Decide(id, damaged);
    OrderlyIgnoresQueue(h, disk, start.db, syncer.world.db);
    Syncing.SafeKeepsWork(syncer.cfg, syncer.rel, start, syncer.world);
  }

  /** Carries out what was decided. */
  method ActOn(syncer: Syncing.Syncer, id: nat, d: Syncing.Decision, h: Digest, disk: Disk, data: FileMeta -> string, fates: seq<Fate>)
    returns (done: bool, disk': Disk)
    requires syncer.Fair(Syncing.Repairing(id)) == true && id in syncer.world.workers
    requires (d == Syncing.Apply <==> syncer.world.workers[id].Chosen?) && (d == Syncing.Held <==> syncer.world.workers[id].Finished?)
    requires Orderly(h, disk, syncer.world.db) == true && R.WorkInv(syncer.cfg, syncer.world) == true && Appliable(syncer.cfg) == true
    modifies syncer`world
    ensures syncer.Fair(Syncing.Repairing(id)) == true && syncer.rel(old(syncer.world), syncer.world)
    ensures Orderly(h, disk', syncer.world.db) == true && syncer.world.peer == old(syncer.world.peer)
    ensures var w := old(syncer.world.workers[id]);
      && id in syncer.world.workers && syncer.world.workers[id].item == w.item && (done <==> syncer.world.workers[id].Finished?)
      && (d != Syncing.Apply ==> (done <==> d == Syncing.Held))
      && (d == Syncing.Apply ==>
            && (done ==> Syncing.Settled(syncer.cfg, syncer.world.db, w.meta) == true)
            && (Calm(fates, disk) == true && Doable(syncer.cfg, h, disk, w.meta, data(w.meta)) == true ==> done))
  {
    done, disk' := d == Syncing.Held, disk;
    if d == Syncing.Apply {
      done, disk' := ApplyHere(syncer, id, h, disk, data, fates);
    } else {
      assert Syncing.Steps(syncer.cfg, syncer.rel) && syncer.rel(syncer.world, syncer.world);
    }
  }

  /** Decides and, where there is something to apply, applies it. */
  method DecideAndAct(syncer: Syncing.Syncer, id: nat, damaged: set<string>, h: Digest, disk: Disk, data: FileMeta -> string, fates: seq<Fate>)
    returns (done: bool, disk': Disk, ghost d: Syncing.Decision, ghost w: R.Worker)
    requires syncer.Fair(Syncing.Repairing(id)) == true && id in syncer.world.workers && syncer.world.workers[id].Took?
    requires Orderly(h, disk, syncer.world.db) == true && Appliable(syncer.cfg) == true && Syncing.NodeIdle(syncer.others) == true
    requires Syncing.Safe(syncer.cfg, syncer.rel) == true && R.WorkInv(syncer.cfg, syncer.world) == true
    requires Steady(syncer.cfg, syncer.others, syncer.world.peer, syncer.world.peer) == true
    modifies syncer`world, syncer`others, syncer`fates
    ensures syncer.Fair(Syncing.Repairing(id)) == true && syncer.rel(old(syncer.world), syncer.world)
    ensures id in syncer.world.workers && syncer.world.workers[id].item == old(syncer.world.workers[id].item)
    ensures done <==> syncer.world.workers[id].Finished?
    ensures Orderly(h, disk', syncer.world.db) == true && Syncing.NodeIdle(syncer.others) == true
    ensures Steady(syncer.cfg, syncer.others, old(syncer.world.peer), syncer.world.peer) == true
    ensures Acted(syncer.cfg, d, w, h, disk, data, Calm(fates, disk), syncer.world.db, done) == true
    ensures old(syncer.Quiescent()) ==> syncer.fates == [] && Decided(syncer.cfg, old(syncer.world), damaged, d, old(syncer.world.workers[id].item), w) == true
  {
    var decision := DecideHere(syncer, id, damaged, h, disk);
    d, w := decision, syncer.world.workers[id];
    done, disk' := ActOn(syncer, id, decision, h, disk, data, fates);
  }

  /** An attempt that is not disturbed comes to what is expected of it. */
  method Attempt(syncer: Syncing.Syncer, id: nat, damaged: set<string>, h: Digest, disk: Disk, data: FileMeta -> string, fates: seq<Fate>)
    returns (done: bool, disk': Disk)
    requires syncer.Fair(Syncing.Repairing(id)) == true && id in syncer.world.workers && syncer.world.workers[id].Took?
    requires Orderly(h, disk, syncer.world.db) == true && Appliable(syncer.cfg) == true && Syncing.NodeIdle(syncer.others) == true
    requires Syncing.Safe(syncer.cfg, syncer.rel) == true && R.WorkInv(syncer.cfg, syncer.world) == true
    requires Steady(syncer.cfg, syncer.others, syncer.world.peer, syncer.world.peer) == true
    modifies syncer`world, syncer`others, syncer`fates
    ensures syncer.Fair(Syncing.Repairing(id)) == true && syncer.rel(old(syncer.world), syncer.world)
    ensures id in syncer.world.workers && syncer.world.workers[id].item == old(syncer.world.workers[id].item)
    ensures done <==> syncer.world.workers[id].Finished?
    ensures Orderly(h, disk', syncer.world.db) == true && Syncing.NodeIdle(syncer.others) == true
    ensures Steady(syncer.cfg, syncer.others, old(syncer.world.peer), syncer.world.peer) == true
    ensures old(syncer.Quiescent()) && Calm(fates, disk) == true ==>
      syncer.fates == [] && Expected(syncer.cfg, old(syncer.world), old(syncer.world.workers[id].item), damaged, h, disk, data, syncer.world.db, done) == true
  {
    ghost var start := syncer.world;
    ghost var d, w;
    done, disk', d, w := DecideAndAct(syncer, id, damaged, h, disk, data, fates);
    if old(syncer.Quiescent()) && Calm(fates, disk) == true {
      AttemptIsExpected(syncer.cfg, start, start.workers[id].item, damaged, h, disk, data, d, w, syncer.world.db, done);
    }
  }

  /** One attempt at a queued name, with the apply carried out by the node. Whatever fails
      or is cut, the node stays in order and the row goes only when nothing is left to do
      for it; undisturbed, a state that can be applied is applied and its row resolved. */
  method RepairHere(syncer: Syncing.Syncer, id: nat, damaged: set<string>, h: Digest, disk: Disk, data: FileMeta -> string, fates: seq<Fate>)
    returns (r: Syncing.Repaired, disk': Disk)
    requires syncer.Fair(Syncing.Repairing(id)) == true && id in syncer.world.workers && syncer.world.workers[id].Took?
    requires Orderly(h, disk, syncer.world.db) == true && Appliable(syncer.cfg) == true && Syncing.NodeIdle(syncer.others) == true
    requires Syncing.Safe(syncer.cfg, syncer.rel) == true && R.WorkInv(syncer.cfg, syncer.world) == true
    requires Steady(syncer.cfg, syncer.others, syncer.world.peer, syncer.world.peer) == true
    modifies syncer`world, syncer`others, syncer`fates
    ensures syncer.Fair(Syncing.Repairing(id)) == true && syncer.rel(old(syncer.world), syncer.world) && id !in syncer.world.workers
    ensures Orderly(h, disk', syncer.world.db) == true
    ensures var item := old(syncer.world.workers[id].item); r == Syncing.Resolved ==>
      Syncing.RowGone(syncer.world.db, item) && R.Dealt(syncer.cfg, syncer.world.peer, syncer.world.db, item.row.meta) == true
    ensures old(syncer.Quiescent()) && Calm(fates, disk) == true ==>
      && r != Syncing.Stopped
      && Expected(syncer.cfg, old(syncer.world), old(syncer.world.workers[id].item), damaged, h, disk, data, syncer.world.db, r == Syncing.Resolved) == true
  {
    ghost var start := syncer.world;
    var done;
    done, disk' := Attempt(syncer, id, damaged, h, disk, data, fates);
    ghost var before := syncer.world.db;
    r := syncer.Conclude(id, done, start);
    OrderlyIgnoresQueue(h, disk', before, syncer.world.db);
    assert forall n :: syncer.world.db.Row(n) == before.Row(n);
  }
}
