/** Reading a peer's change stream: the poll loop, the repair workers, and what the
    cursor guarantees while they interleave with restarts and crashes. */
module Replication {
  import opened Meta
  import opened Conflicts
  import opened Rank
  import opened Store
  import Clock
  import Text

  /** One peer of this node. `wellFormed` is what `validateMetadata` accepts and
      `excluded` what `validateChange` refuses: malformed states and, by the ignore
      rules of this node, well-formed ones. */
  datatype Config = Config(
    peer: string,
    batchLimit: nat,
    repairLimit: nat,
    wellFormed: FileMeta -> bool,
    excluded: FileMeta -> bool)

  /** Malformed states are refused, and the version, which is local to the node that
      sent a state, decides nothing. */
  ghost predicate ValidConfig(cfg: Config) {
    && (forall m :: !cfg.wellFormed(m) ==> cfg.excluded(m))
    && (forall m: FileMeta, v: int :: cfg.wellFormed(m.(version := v)) == cfg.wellFormed(m) && cfg.excluded(m.(version := v)) == cfg.excluded(m))
  }

  // ----- pieces of one poll -----

  function NeedsCursorReset(state: PeerState, epoch: string, peerMax: Option<int>): bool {
    && state.version != 0
    && (|| (epoch != "" && state.epoch != "" && epoch != state.epoch)
        || (peerMax.Some? && peerMax.value < state.version))
  }

  ghost predicate HasNewest(latest: seq<FileMeta>, c: FileMeta) {
    exists j :: 0 <= j < |latest| && latest[j].name == c.name && latest[j].version >= c.version
  }

  /** The newest entry of every name among the first `n`, and their highest version. */
  ghost predicate CollapsedTo(changes: seq<FileMeta>, n: nat, latest: seq<FileMeta>, batchMax: int)
    requires n <= |changes|
  {
    && (forall j :: 0 <= j < |latest| ==> latest[j] in changes)
    && (forall i, j :: 0 <= i < j < |latest| ==> latest[i].name != latest[j].name)
    && (forall i :: 0 <= i < n ==> HasNewest(latest, changes[i]))
    && IsBatchMax(changes, n, batchMax)
  }

  ghost predicate IsBatchMax(changes: seq<FileMeta>, n: nat, batchMax: int)
    requires n <= |changes|
  {
    && (forall i :: 0 <= i < n ==> changes[i].version <= batchMax)
    && (batchMax == 0 || exists i :: 0 <= i < n && changes[i].version == batchMax)
    && batchMax >= 0
  }

  ghost predicate Collapsed(changes: seq<FileMeta>, latest: seq<FileMeta>, batchMax: int) {
    CollapsedTo(changes, |changes|, latest, batchMax)
  }

  /** `index` finds the position of each name in `latest`. */
  ghost predicate Indexed(index: map<string, nat>, latest: seq<FileMeta>) {
    && (forall n :: n in index ==> index[n] < |latest| && latest[index[n]].name == n)
    && (forall j :: 0 <= j < |latest| ==> latest[j].name in index && index[latest[j].name] == j)
  }

  method CollapseByName(changes: seq<FileMeta>) returns (latest: seq<FileMeta>, batchMax: int)
    ensures Collapsed(changes, latest, batchMax)
  {
    batchMax, latest := 0, [];
    var index: map<string, nat> := map[];
    var i := 0;
    while i < |changes|
      invariant 0 <= i <= |changes|
      invariant Indexed(index, latest) == true  // carried as one fact
      invariant CollapsedTo(changes, i, latest, batchMax) == true
    {
      var c := changes[i];
      var pos := if c.name in index then index[c.name] else |latest|;
      var next := Placed(latest, pos, c);
      IndexStep(index, latest, pos, c);
      CollapseStep(changes, i, latest, batchMax, pos);
      index := index[c.name := pos];
      latest, batchMax, i := next, Clock.Max(batchMax, c.version), i + 1;
    }
  }

  /** `c` at the end, or over an older entry. */
  function Placed(latest: seq<FileMeta>, pos: nat, c: FileMeta): seq<FileMeta>
    requires pos <= |latest|
  {
    if pos == |latest| then latest + [c]
    else if c.version > latest[pos].version then latest[pos := c]
    else latest
  }

  lemma IndexStep(index: map<string, nat>, latest: seq<FileMeta>, pos: nat, c: FileMeta)
    requires Indexed(index, latest) && pos == if c.name in index then index[c.name] else |latest|
    ensures Indexed(index[c.name := pos], Placed(latest, pos, c))
  {
  }

  /** Entry `n` is put at `pos`, over an older entry of its name or at the end. */
  lemma CollapseStep(changes: seq<FileMeta>, n: nat, latest: seq<FileMeta>, batchMax: int, pos: nat)
    requires n < |changes| && CollapsedTo(changes, n, latest, batchMax) && pos <= |latest|
    requires forall j :: 0 <= j < |latest| ==> (latest[j].name == changes[n].name <==> j == pos)
    ensures CollapsedTo(changes, n + 1, Placed(latest, pos, changes[n]), Clock.Max(batchMax, changes[n].version))
  {
    var after := Placed(latest, pos, changes[n]);
    assert forall j :: 0 <= j < |latest| && j != pos ==> after[j] == latest[j];
    assert pos < |latest| ==> latest[pos].name == changes[n].name;
    assert after[pos].name == changes[n].name && after[pos].version >= changes[n].version;
    forall i | 0 <= i < n + 1 ensures HasNewest(after, changes[i]) {
      if i < n {
        var j :| 0 <= j < |latest| && latest[j].name == changes[i].name && latest[j].version >= changes[i].version;
        assert after[j].name == changes[i].name && after[j].version >= changes[i].version;
      }
    }
    BatchMaxStep(changes, n, batchMax);
    forall i, j | 0 <= i < j < |after| ensures after[i].name != after[j].name {
      if i != pos && j != pos {
        assert after[i] == latest[i] && after[j] == latest[j];
      }
    }
    forall j | 0 <= j < |after| ensures after[j] in changes {
      assert after[j] == changes[n] || after[j] == latest[j];
    }
  }

  lemma BatchMaxStep(changes: seq<FileMeta>, n: nat, batchMax: int)
    requires n < |changes| && IsBatchMax(changes, n, batchMax)
    ensures IsBatchMax(changes, n + 1, Clock.Max(batchMax, changes[n].version))
  {
    if changes[n].version <= batchMax && batchMax != 0 {
      var i :| 0 <= i < n && changes[i].version == batchMax;
      assert i < n + 1;
    }
  }

  /** `newerThanLocal` keeps what should replace the local row, and equal states of
      names whose bytes are quarantined. */
  predicate Wanted(db: Db, damaged: set<string>, m: FileMeta) {
    RemoteWins(db.Row(m.name), m) || (m.name in damaged && CompareState(Some(m), db.Row(m.name)) == 0)
  }

  /** What is left of a page: collapsed to one entry per name, without exclusions and
      without states this node already holds. */
  ghost predicate Filtered(cfg: Config, db: Db, page: seq<FileMeta>, latest: seq<FileMeta>, damaged: set<string>, batchMax: int, wanted: seq<FileMeta>) {
    && Collapsed(page, latest, batchMax)
    && forall m :: m in wanted <==> m in latest && !cfg.excluded(m) && Wanted(db, damaged, m)
  }

  // ----- the system: this node, one peer, and what is in flight between them -----

  datatype Peer = Peer(files: map<string, FileMeta>, lastVersion: int, incarnation: string)

  datatype Poll =
    | Quiet
    | Asked(state: PeerState)
    | Answered(state: PeerState, epoch: string, peerMax: Option<int>, page: seq<FileMeta>)
    | Compared(epoch: string, batchMax: int, wanted: seq<FileMeta>)
    | Recorded(epoch: string, batchMax: int)

  datatype Worker =
    | Took(item: RepairItem)
    | Chosen(item: RepairItem, meta: FileMeta)
    | Finished(item: RepairItem)

  /** `used` holds every incarnation the peer has had. */
  datatype System = System(db: Db, peer: Peer, used: set<string>, poll: Poll, workers: map<nat, Worker>)

  ghost predicate PeerValid(p: Peer) {
    && p.lastVersion >= 0 && p.incarnation != ""
    && (forall k :: k in p.files ==> p.files[k].name == k && 1 <= p.files[k].version <= p.lastVersion)
    && (forall j, k :: j in p.files && k in p.files && p.files[j].version == p.files[k].version ==> j == k)
  }

  // ----- steps -----

  /** The peer commits a row of any rank. */
  ghost predicate PeerWrites(s: System, t: System, m: FileMeta) {
    t == s.(peer := s.peer.(files := s.peer.files[m.name := m.(version := s.peer.lastVersion + 1)],
                            lastVersion := s.peer.lastVersion + 1))
  }

  /** The peer opens its database again, possibly an older or an empty one. */
  ghost predicate PeerRestarts(s: System, t: System) {
    && t == s.(peer := t.peer, used := s.used + {t.peer.incarnation})
    && t.peer.incarnation !in s.used && PeerValid(t.peer)
  }

  ghost predicate PollAsks(cfg: Config, s: System, t: System) {
    s.poll.Quiet? && t == s.(poll := Asked(s.db.Cursor(cfg.peer)))
  }

  ghost predicate PeerAnswers(cfg: Config, s: System, t: System) {
    && s.poll.Asked? && t.poll.Answered?
    && ChangesPage(s.peer.files, s.poll.state.version, cfg.batchLimit, t.poll.page)
    && t == s.(poll := Answered(s.poll.state, s.peer.incarnation, t.poll.peerMax, t.poll.page))
  }

  function SetPeerState(db: Db, peer: string, state: PeerState): Db {
    db.(cursors := db.cursors[peer := state])
  }

  ghost predicate PollResets(cfg: Config, s: System, t: System) {
    && s.poll.Answered? && NeedsCursorReset(s.poll.state, s.poll.epoch, s.poll.peerMax)
    && t == s.(db := SetPeerState(s.db, cfg.peer, PeerState(0, s.poll.epoch)), poll := Quiet)
  }

  /** First contact with this incarnation: remember it, then go on with the page. */
  ghost predicate PollRecordsEpoch(cfg: Config, s: System, t: System) {
    && s.poll.Answered? && !NeedsCursorReset(s.poll.state, s.poll.epoch, s.poll.peerMax)
    && s.poll.state.epoch != s.poll.epoch
    && t == s.(db := SetPeerState(s.db, cfg.peer, s.poll.state.(epoch := s.poll.epoch)))
  }

  /** Collapses and filters the page against the rows of this moment. */
  ghost predicate PollCompares(cfg: Config, s: System, t: System) {
    && s.poll.Answered? && !NeedsCursorReset(s.poll.state, s.poll.epoch, s.poll.peerMax)
    && s.poll.page != [] && t.poll.Compared?
    && (exists latest, damaged :: Filtered(cfg, s.db, s.poll.page, latest, damaged, t.poll.batchMax, t.poll.wanted))
    && t == s.(poll := Compared(s.poll.epoch, t.poll.batchMax, t.poll.wanted))
  }

  /** Records the whole batch; a batch that does not fit ends the poll instead. */
  ghost predicate PollEnqueues(cfg: Config, s: System, t: System) {
    && s.poll.Compared?
    && var full := EnqueueAll(s.db.queue, s.db.revision, cfg.peer, s.poll.wanted, cfg.repairLimit).full;
       t == s.(db := Enqueue(s.db, cfg.peer, s.poll.wanted, cfg.repairLimit),
               poll := if full then Quiet else Recorded(s.poll.epoch, s.poll.batchMax))
  }

  ghost predicate PollAdvances(cfg: Config, s: System, t: System) {
    && s.poll.Recorded?
    && t == s.(db := SetPeerState(s.db, cfg.peer, PeerState(s.poll.batchMax, s.poll.epoch)), poll := Quiet)
  }

  /** Any other end of a poll: an error, a cancelled request, an empty page. */
  ghost predicate PollEnds(s: System, t: System) {
    t == s.(poll := Quiet)
  }

  ghost predicate WorkerTakes(cfg: Config, s: System, t: System, id: nat, name: string) {
    && id !in s.workers && (cfg.peer, name) in s.db.queue
    && t == s.(workers := s.workers[id := Took(RepairItem(cfg.peer, name, s.db.queue[(cfg.peer, name)]))])
  }

  /** The row is done before the peer is asked: this node already holds the state. */
  ghost predicate WorkerSkips(s: System, t: System, id: nat) {
    && id in s.workers && s.workers[id].Took?
    && CompareState(Some(s.workers[id].item.row.meta), s.db.Row(s.workers[id].item.name)) <= 0
    && t == s.(workers := s.workers[id := Finished(s.workers[id].item)])
  }

  /** The peer's current state replaces the queued one unless the queued one is greater. */
  ghost predicate WorkerFetches(cfg: Config, s: System, t: System, id: nat) {
    && id in s.workers && s.workers[id].Took?
    && var item := s.workers[id].item;
       && item.name in s.peer.files && cfg.wellFormed(s.peer.files[item.name])
       && var found := s.peer.files[item.name];
          t == s.(workers := s.workers[id := Chosen(item, if CompareMeta(item.row.meta, found) > 0 then item.row.meta else found)])
  }

  /** No answer, or none that is usable: the queued state is applied. */
  ghost predicate WorkerKeepsQueued(s: System, t: System, id: nat) {
    && id in s.workers && s.workers[id].Took?
    && t == s.(workers := s.workers[id := Chosen(s.workers[id].item, s.workers[id].item.row.meta)])
  }

  /** `applyChange` returns without error: it skipped an excluded state, or the row is
      now at least the state it was given. */
  ghost predicate WorkerApplies(cfg: Config, s: System, t: System, id: nat) {
    && id in s.workers && s.workers[id].Chosen?
    && var meta := s.workers[id].meta;
       && (cfg.excluded(meta) || CompareState(Some(meta), s.db.Row(meta.name)) <= 0)
       && t == s.(workers := s.workers[id := Finished(s.workers[id].item)])
  }

  ghost predicate WorkerResolves(s: System, t: System, id: nat) {
    && id in s.workers && s.workers[id].Finished?
    && t == s.(db := Resolve(s.db, s.workers[id].item), workers := s.workers - {id})
  }

  ghost predicate WorkerDefers(s: System, t: System, id: nat) {
    && id in s.workers && !s.workers[id].Finished?
    && t == s.(db := Defer(s.db, s.workers[id].item), workers := s.workers - {id})
  }

  /** A worker that is cancelled, or whose bookkeeping fails, leaves its row as it is. */
  ghost predicate WorkerStops(s: System, t: System, id: nat) {
    id in s.workers && t == s.(workers := s.workers - {id})
  }

  /** Local writes, applies and recoveries move rows of this node, never down in rank. */
  ghost predicate RowsRise(s: System, t: System) {
    && t == s.(db := s.db.(files := t.db.files, lastVersion := t.db.lastVersion, intents := t.db.intents, local := t.db.local))
    && forall n :: CompareState(s.db.Row(n), t.db.Row(n)) <= 0
  }

  /** Reconciliation queues differences, and a damaged file is queued for repair. */
  ghost predicate QueueGrows(cfg: Config, s: System, t: System, metas: seq<FileMeta>) {
    && (forall m :: m in metas ==> Queueable(cfg, s.db, m))
    && t == s.(db := Enqueue(s.db, cfg.peer, metas, cfg.repairLimit))
  }

  /** Everything that concerns other peers. */
  ghost predicate OtherPeers(cfg: Config, s: System, t: System) {
    && t == s.(db := s.db.(queue := t.db.queue, revision := t.db.revision, cursors := t.db.cursors))
    && t.db.Cursor(cfg.peer) == s.db.Cursor(cfg.peer)
    && t.db.revision >= s.db.revision
    && (forall k :: k in t.db.queue ==> t.db.queue[k].revision <= t.db.revision)
    && (forall k: RepairKey :: k.0 == cfg.peer ==> (k in s.db.queue <==> k in t.db.queue) && (k in s.db.queue ==> t.db.queue[k] == s.db.queue[k]))
  }

  ghost predicate CursorPruned(cfg: Config, s: System, t: System) {
    t == s.(db := s.db.(cursors := s.db.cursors - {cfg.peer}))
  }

  /** A crash keeps the database and loses everything in flight. */
  ghost predicate Crashes(s: System, t: System) {
    t == s.(poll := Quiet, workers := map[])
  }

  ghost predicate PollStep(cfg: Config, s: System, t: System) {
    || PollAsks(cfg, s, t) || PeerAnswers(cfg, s, t) || PollResets(cfg, s, t) || PollRecordsEpoch(cfg, s, t)
    || PollCompares(cfg, s, t) || PollEnqueues(cfg, s, t) || PollAdvances(cfg, s, t) || PollEnds(s, t)
  }

  ghost predicate WorkerStep(cfg: Config, s: System, t: System, id: nat) {
    || (exists name :: WorkerTakes(cfg, s, t, id, name)) || WorkerSkips(s, t, id) || WorkerFetches(cfg, s, t, id)
    || WorkerKeepsQueued(s, t, id) || WorkerApplies(cfg, s, t, id) || WorkerResolves(s, t, id) || WorkerDefers(s, t, id) || WorkerStops(s, t, id)
  }

  ghost predicate Next(cfg: Config, s: System, t: System) {
    || (exists m :: PeerWrites(s, t, m)) || PeerRestarts(s, t)
    || PollStep(cfg, s, t) || (exists id :: WorkerStep(cfg, s, t, id))
    || RowsRise(s, t) || (exists metas :: QueueGrows(cfg, s, t, metas)) || OtherPeers(cfg, s, t)
    || CursorPruned(cfg, s, t) || Crashes(s, t)
  }

  /** A node that has never met the peer. */
  ghost predicate Init(cfg: Config, s: System) {
    && PeerValid(s.peer) && s.used == {s.peer.incarnation}
    && s.poll.Quiet? && s.workers == map[]
    && s.db.Cursor(cfg.peer) == PeerState(0, "")
    && (forall k :: k in s.db.queue ==> s.db.queue[k].revision <= s.db.revision)
    && (forall k :: k in s.db.queue ==> k.0 != cfg.peer)
  }

  // ----- what is promised -----

  /** The state is excluded here, matched or beaten by the local row, or queued. */
  ghost predicate Covered(cfg: Config, db: Db, m: FileMeta) {
    || cfg.excluded(m)
    || CompareState(Some(m), db.Row(m.name)) <= 0
    || ((cfg.peer, m.name) in db.queue && CompareMeta(m, db.queue[(cfg.peer, m.name)].meta) <= 0)
  }

  /** Reading incarnation `epoch` up to `version` has missed nothing, apart from the
      states in `pending`. */
  ghost predicate ReadUpTo(cfg: Config, db: Db, peer: Peer, epoch: string, version: int, pending: seq<FileMeta>) {
    epoch == peer.incarnation ==>
      && version <= peer.lastVersion
      && forall k :: k in peer.files && peer.files[k].version <= version ==>
           Covered(cfg, db, peer.files[k]) || peer.files[k] in pending
  }

  /** The cursor is never ahead of what is recorded. */
  ghost predicate CursorSafe(cfg: Config, s: System) {
    ReadUpTo(cfg, s.db, s.peer, s.db.Cursor(cfg.peer).epoch, s.db.Cursor(cfg.peer).version, [])
  }

  // ----- the invariant -----

  ghost predicate StateKnown(used: set<string>, state: PeerState) {
    state.version >= 0 && (state.epoch in used || (state.epoch == "" && state.version == 0))
  }

  function PageEnd(state: PeerState, page: seq<FileMeta>): int {
    if page == [] then state.version else page[|page| - 1].version
  }

  /** The page still holds every row of the peer between the cursor and its own end. */
  ghost predicate PageComplete(peer: Peer, state: PeerState, epoch: string, page: seq<FileMeta>) {
    && (forall i :: 0 <= i < |page| ==> state.version < page[i].version <= PageEnd(state, page))
    && (page != [] && epoch == peer.incarnation ==>
          && PageEnd(state, page) <= peer.lastVersion
          && forall k :: k in peer.files && state.version < peer.files[k].version <= PageEnd(state, page) ==> peer.files[k] in page)
    && (forall i, j :: 0 <= i < j < |page| ==> page[i].name != page[j].name)
  }

  ghost predicate PollInv(cfg: Config, db: Db, peer: Peer, used: set<string>, poll: Poll) {
    match poll
    case Quiet => true
    case Asked(state) => StateKnown(used, state) && ReadUpTo(cfg, db, peer, state.epoch, state.version, [])
    case Answered(state, epoch, _, page) =>
      && StateKnown(used, state) && epoch in used
      && ReadUpTo(cfg, db, peer, state.epoch, state.version, [])
      && PageComplete(peer, state, epoch, page)
    case Compared(epoch, batchMax, wanted) =>
      epoch in used && batchMax >= 0 && ReadUpTo(cfg, db, peer, epoch, batchMax, wanted)
    case Recorded(epoch, batchMax) =>
      epoch in used && batchMax >= 0 && ReadUpTo(cfg, db, peer, epoch, batchMax, [])
  }

  /** The condition on this node's ignore rules under which the cursor is safe whatever
      the peer does: no rule excludes a well-formed state at or above a usable state of
      the same name. Rules that look at the name alone satisfy it; a rule that reaches a
      state through the name it was displaced by does not. */
  ghost predicate RulesUpwardClosed(cfg: Config) {
    forall low, high :: cfg.wellFormed(low) && cfg.wellFormed(high) && low.name == high.name && CompareMeta(low, high) <= 0 && !cfg.excluded(low) ==> !cfg.excluded(high)
  }

  /** Each row of the peer stays as it is, apart from its version, or rises in rank. */
  ghost predicate PeerRises(p: Peer, q: Peer) {
    forall k :: k in p.files ==>
      k in q.files && (q.files[k] == p.files[k].(version := q.files[k].version) || CompareMeta(p.files[k], q.files[k]) < 0)
  }

  /** The peer has moved on from a state: to a greater one, or to one that is excluded
      here. It matters only for rules that are not upward closed. */
  ghost predicate Moot(cfg: Config, peer: Peer, m: FileMeta) {
    && !RulesUpwardClosed(cfg) && m.name in peer.files
    && var now := peer.files[m.name];
       CompareMeta(m, now) < 0 || (CompareMeta(m, now) == 0 && cfg.excluded(now)) 
  }

  /** Nothing is left to do here for a queued state. */
  ghost predicate Dealt(cfg: Config, peer: Peer, db: Db, m: FileMeta) {
    CompareState(Some(m), db.Row(m.name)) <= 0 || Moot(cfg, peer, m)
  }

  /** A state that was worth queueing: usable, or already held. */
  ghost predicate Queueable(cfg: Config, db: Db, m: FileMeta) {
    (cfg.wellFormed(m) && !cfg.excluded(m)) || CompareState(Some(m), db.Row(m.name)) <= 0
  }

  /** A worker that takes an excluded state for the end of its work has nothing to do. */
  ghost predicate WorkerInv(cfg: Config, peer: Peer, db: Db, w: Worker) {
    var key, meta := (cfg.peer, w.item.name), w.item.row.meta;
    && w.item.peer == cfg.peer && meta.name == w.item.name && w.item.row.revision <= db.revision
    && (key in db.queue && db.queue[key].revision == w.item.row.revision ==> db.queue[key].meta == meta)
    && Queueable(cfg, db, meta)
    && (w.Chosen? ==> w.meta.name == meta.name && CompareMeta(meta, w.meta) <= 0 && (cfg.excluded(w.meta) ==> Dealt(cfg, peer, db, meta)))
    && (w.Finished? ==> Dealt(cfg, peer, db, meta))
  }

  ghost predicate QueueInv(cfg: Config, db: Db) {
    && (forall k :: k in db.queue ==> db.queue[k].revision <= db.revision)
    && (forall k :: k in db.queue && k.0 == cfg.peer ==> db.queue[k].meta.name == k.1 && Queueable(cfg, db, db.queue[k].meta))
  }

  ghost predicate WorkersInv(cfg: Config, peer: Peer, db: Db, workers: map<nat, Worker>) {
    forall id :: id in workers ==> WorkerInv(cfg, peer, db, workers[id])
  }

  ghost predicate WantedUsable(cfg: Config, poll: Poll) {
    poll.Compared? ==> forall m :: m in poll.wanted ==> !cfg.excluded(m)
  }

  /** Queue and workers are in order. Nothing is said about the cursor. */
  ghost predicate WorkInv(cfg: Config, s: System) {
    && PeerValid(s.peer) && s.peer.incarnation in s.used && "" !in s.used
    && QueueInv(cfg, s.db) && WantedUsable(cfg, s.poll) && WorkersInv(cfg, s.peer, s.db, s.workers)
  }

  /** What has been read is covered. */
  ghost predicate ReadInv(cfg: Config, s: System) {
    StateKnown(s.used, s.db.Cursor(cfg.peer)) && CursorSafe(cfg, s) && PollInv(cfg, s.db, s.peer, s.used, s.poll)
  }

  ghost predicate Inv(cfg: Config, s: System) {
    WorkInv(cfg, s) && ReadInv(cfg, s)
  }

  // ----- coverage -----

  /** Local rows and this peer's queue rows only rise, and an unchanged revision
      means an unchanged state. */
  ghost predicate Rises(cfg: Config, a: Db, b: Db) {
    && (forall n :: CompareState(a.Row(n), b.Row(n)) <= 0)
    && (forall k: RepairKey :: k.0 == cfg.peer && k in a.queue ==> k in b.queue && CompareMeta(a.queue[k].meta, b.queue[k].meta) <= 0)
    && (forall k: RepairKey :: k.0 == cfg.peer && k in b.queue && b.queue[k].revision <= a.revision ==>
          k in a.queue && b.queue[k].revision == a.queue[k].revision && b.queue[k].meta == a.queue[k].meta)
    && a.revision <= b.revision
  }

  lemma CoveredRises(cfg: Config, a: Db, b: Db, m: FileMeta)
    requires Rises(cfg, a, b) && Covered(cfg, a, m)
    ensures Covered(cfg, b, m)
  {
    if CompareState(Some(m), a.Row(m.name)) <= 0 {
      CompareStateTransitive(Some(m), a.Row(m.name), b.Row(m.name));
    } else if !cfg.excluded(m) {
      var k := (cfg.peer, m.name);
      CompareMetaTransitive(m, a.queue[k].meta, b.queue[k].meta);
    }
  }

  /** Nothing covered is uncovered, apart from states the peer has moved on from. */
  ghost predicate CoverageGrows(cfg: Config, peer: Peer, a: Db, b: Db) {
    forall m :: Covered(cfg, a, m) ==> Covered(cfg, b, m) || Moot(cfg, peer, m)
  }

  lemma CoverageRises(cfg: Config, peer: Peer, a: Db, b: Db)
    requires Rises(cfg, a, b)
    ensures CoverageGrows(cfg, peer, a, b)
  {
    forall m | Covered(cfg, a, m) ensures Covered(cfg, b, m) { CoveredRises(cfg, a, b, m); }
  }

  lemma SameRowsGrow(cfg: Config, peer: Peer, a: Db, b: Db)
    requires b.files == a.files && b.queue == a.queue
    ensures CoverageGrows(cfg, peer, a, b)
  {
    assert forall n :: b.Row(n) == a.Row(n);
  }

  /** The peer's own rows are never among those it has moved on from. */
  lemma PeerRowStaysCovered(cfg: Config, peer: Peer, a: Db, b: Db, k: string)
    requires CoverageGrows(cfg, peer, a, b) && PeerValid(peer) && k in peer.files && Covered(cfg, a, peer.files[k])
    ensures Covered(cfg, b, peer.files[k])
  {
    CompareStateReflexive(Some(peer.files[k]));
  }

  lemma ReadUpToCarries(cfg: Config, a: Db, b: Db, peer: Peer, epoch: string, version: int, pending: seq<FileMeta>)
    requires CoverageGrows(cfg, peer, a, b) && PeerValid(peer) && ReadUpTo(cfg, a, peer, epoch, version, pending)
    ensures ReadUpTo(cfg, b, peer, epoch, version, pending)
  {
    if epoch == peer.incarnation {
      forall k | k in peer.files && peer.files[k].version <= version
        ensures Covered(cfg, b, peer.files[k]) || peer.files[k] in pending
      {
        if peer.files[k] !in pending {
          PeerRowStaysCovered(cfg, peer, a, b, k);
        }
      }
    }
  }

  lemma PollInvCarries(cfg: Config, a: Db, b: Db, peer: Peer, used: set<string>, poll: Poll)
    requires CoverageGrows(cfg, peer, a, b) && PeerValid(peer) && PollInv(cfg, a, peer, used, poll)
    ensures PollInv(cfg, b, peer, used, poll)
  {
    match poll
    case Quiet =>
    case Asked(state) => ReadUpToCarries(cfg, a, b, peer, state.epoch, state.version, []);
    case Answered(state, _, _, _) => ReadUpToCarries(cfg, a, b, peer, state.epoch, state.version, []);
    case Compared(epoch, batchMax, wanted) => ReadUpToCarries(cfg, a, b, peer, epoch, batchMax, wanted);
    case Recorded(epoch, batchMax) => ReadUpToCarries(cfg, a, b, peer, epoch, batchMax, []);
  }

  // ----- queue and workers -----

  lemma QueueableRises(cfg: Config, a: Db, b: Db, m: FileMeta)
    requires Rises(cfg, a, b) && Queueable(cfg, a, m)
    ensures Queueable(cfg, b, m)
  {
    if CompareState(Some(m), a.Row(m.name)) <= 0 {
      CompareStateTransitive(Some(m), a.Row(m.name), b.Row(m.name));
    }
  }

  lemma DealtRises(cfg: Config, peer: Peer, a: Db, b: Db, m: FileMeta)
    requires Rises(cfg, a, b) && Dealt(cfg, peer, a, m)
    ensures Dealt(cfg, peer, b, m)
  {
    if CompareState(Some(m), a.Row(m.name)) <= 0 {
      CompareStateTransitive(Some(m), a.Row(m.name), b.Row(m.name));
    }
  }

  lemma WorkerRises(cfg: Config, peer: Peer, a: Db, b: Db, w: Worker)
    requires Rises(cfg, a, b) && WorkerInv(cfg, peer, a, w)
    ensures WorkerInv(cfg, peer, b, w)
  {
    QueueableRises(cfg, a, b, w.item.row.meta);
    if Dealt(cfg, peer, a, w.item.row.meta) {
      DealtRises(cfg, peer, a, b, w.item.row.meta);
    }
  }

  lemma RiseStep(cfg: Config, s: System, t: System)
    requires WorkInv(cfg, s) && Rises(cfg, s.db, t.db) && QueueInv(cfg, t.db)
    requires t == s.(db := t.db)
    ensures WorkInv(cfg, t) && CoverageGrows(cfg, t.peer, s.db, t.db)
  {
    CoverageRises(cfg, t.peer, s.db, t.db);
    forall id | id in t.workers ensures WorkerInv(cfg, t.peer, t.db, t.workers[id]) {
      WorkerRises(cfg, s.peer, s.db, t.db, s.workers[id]);
    }
  }

  lemma RowsReflexive(db: Db)
    ensures forall n :: CompareState(db.Row(n), db.Row(n)) <= 0
    ensures forall k :: k in db.queue ==> CompareMeta(db.queue[k].meta, db.queue[k].meta) <= 0
  {
    forall n ensures CompareState(db.Row(n), db.Row(n)) <= 0 { CompareStateReflexive(db.Row(n)); }
    forall k | k in db.queue ensures CompareMeta(db.queue[k].meta, db.queue[k].meta) <= 0 {
      CompareStateReflexive(Some(db.queue[k].meta));
    }
  }

  /** Steps that only move rows, or other peers' queues. */
  lemma QuietRiseWorks(cfg: Config, s: System, t: System)
    requires WorkInv(cfg, s) && (RowsRise(s, t) || OtherPeers(cfg, s, t))
    ensures WorkInv(cfg, t) && CoverageGrows(cfg, t.peer, s.db, t.db)
  {
    RowsReflexive(s.db);
    assert Rises(cfg, s.db, t.db);
    forall k | k in t.db.queue && k.0 == cfg.peer ensures Queueable(cfg, t.db, t.db.queue[k].meta) {
      QueueableRises(cfg, s.db, t.db, s.db.queue[k].meta);
    }
    RiseStep(cfg, s, t);
  }

  lemma EnqueueRises(cfg: Config, db: Db, metas: seq<FileMeta>)
    requires QueueInv(cfg, db)
    requires forall m :: m in metas ==> Queueable(cfg, db, m)
    ensures var db' := Enqueue(db, cfg.peer, metas, cfg.repairLimit);
            Rises(cfg, db, db') && QueueInv(cfg, db')
  {
    RowsReflexive(db);
    EnqueueKeepsRows(db.queue, db.revision, cfg.peer, metas, cfg.repairLimit);
    var db' := Enqueue(db, cfg.peer, metas, cfg.repairLimit);
    assert forall n :: db'.Row(n) == db.Row(n);
    forall k: RepairKey | k.0 == cfg.peer && k in db.queue
      ensures k in db'.queue && CompareMeta(db.queue[k].meta, db'.queue[k].meta) <= 0
    {
      assert RowKept(db.queue, db.revision, db'.queue, k);
    }
  }

  lemma EnqueueWorks(cfg: Config, s: System, metas: seq<FileMeta>)
    requires WorkInv(cfg, s)
    requires forall m :: m in metas ==> Queueable(cfg, s.db, m)
    ensures var t := s.(db := Enqueue(s.db, cfg.peer, metas, cfg.repairLimit));
            WorkInv(cfg, t) && CoverageGrows(cfg, t.peer, s.db, t.db)
  {
    EnqueueRises(cfg, s.db, metas);
    RiseStep(cfg, s, s.(db := Enqueue(s.db, cfg.peer, metas, cfg.repairLimit)));
  }

  lemma SameRows(cfg: Config, peer: Peer, a: Db, b: Db, workers: map<nat, Worker>)
    requires b == a.(cursors := b.cursors)
    requires QueueInv(cfg, a) && WorkersInv(cfg, peer, a, workers)
    ensures QueueInv(cfg, b) && WorkersInv(cfg, peer, b, workers)
  {
    assert forall n :: b.Row(n) == a.Row(n);
    assert forall m :: Queueable(cfg, a, m) ==> Queueable(cfg, b, m);
    forall id | id in workers ensures WorkerInv(cfg, peer, b, workers[id]) {
      assert WorkerInv(cfg, peer, a, workers[id]);
    }
  }

  lemma PollStepWorks(cfg: Config, s: System, t: System)
    requires WorkInv(cfg, s) && ValidConfig(cfg) && PollStep(cfg, s, t)
    ensures WorkInv(cfg, t) && CoverageGrows(cfg, t.peer, s.db, t.db)
  {
    if PollEnqueues(cfg, s, t) {
      EnqueueWorks(cfg, s, s.poll.wanted);
    } else {
      SameRowsGrow(cfg, t.peer, s.db, t.db);
      SameRows(cfg, s.peer, s.db, t.db, s.workers);
    }
  }

  /** A finished worker can only remove the row it applied. */
  lemma ResolveGrows(cfg: Config, s: System, t: System, id: nat)
    requires WorkersInv(cfg, s.peer, s.db, s.workers) && WorkerResolves(s, t, id)
    ensures CoverageGrows(cfg, t.peer, s.db, t.db)
  {
    var item := s.workers[id].item;
    assert WorkerInv(cfg, s.peer, s.db, s.workers[id]);
    assert forall n :: t.db.Row(n) == s.db.Row(n);
    forall m | Covered(cfg, s.db, m) ensures Covered(cfg, t.db, m) || Moot(cfg, t.peer, m) {
      var k := (cfg.peer, m.name);
      if k in s.db.queue && k !in t.db.queue && CompareMeta(m, s.db.queue[k].meta) <= 0 {
        LowerIsDealt(cfg, s.peer, s.db, m, item.row.meta);
      }
    }
  }

  /** What is done for a state is done for those below it. */
  lemma LowerIsDealt(cfg: Config, peer: Peer, db: Db, m: FileMeta, top: FileMeta)
    requires m.name == top.name && CompareMeta(m, top) <= 0 && Dealt(cfg, peer, db, top)
    ensures Dealt(cfg, peer, db, m)
  {
    if CompareState(Some(top), db.Row(m.name)) <= 0 {
      CompareStateTransitive(Some(m), Some(top), db.Row(m.name));
    } else {
      CompareMetaTransitive(m, top, peer.files[m.name]);
    }
  }

  lemma ResolveWorks(cfg: Config, s: System, t: System, id: nat)
    requires WorkInv(cfg, s) && WorkerResolves(s, t, id)
    ensures WorkInv(cfg, t)
  {
    assert forall n :: t.db.Row(n) == s.db.Row(n);
    forall i | i in t.workers ensures WorkerInv(cfg, t.peer, t.db, t.workers[i]) {
      assert WorkerInv(cfg, s.peer, s.db, s.workers[i]);
    }
  }

  lemma DeferWorks(cfg: Config, s: System, t: System, id: nat)
    requires WorkInv(cfg, s) && WorkerDefers(s, t, id)
    ensures WorkInv(cfg, t) && CoverageGrows(cfg, t.peer, s.db, t.db)
  {
    var mid := s.(db := Defer(s.db, s.workers[id].item));
    RowsReflexive(s.db);
    assert Rises(cfg, s.db, mid.db);
    forall k | k in mid.db.queue && k.0 == cfg.peer ensures Queueable(cfg, mid.db, mid.db.queue[k].meta) {
      QueueableRises(cfg, s.db, mid.db, s.db.queue[k].meta);
    }
    RiseStep(cfg, s, mid);
  }

  /** A worker that chooses an excluded state: upward closed rules leave it none, and
      otherwise the peer has moved on to it. */
  lemma FetchedIsDealt(cfg: Config, s: System, id: nat)
    requires WorkInv(cfg, s) && ValidConfig(cfg) && id in s.workers
    requires var item := s.workers[id].item;
             item.name in s.peer.files && cfg.wellFormed(s.peer.files[item.name]) && cfg.excluded(s.peer.files[item.name])
             && CompareMeta(item.row.meta, s.peer.files[item.name]) <= 0
    ensures Dealt(cfg, s.peer, s.db, s.workers[id].item.row.meta)
  {
    assert WorkerInv(cfg, s.peer, s.db, s.workers[id]);
  }

  lemma WorkerMoves(cfg: Config, s: System, t: System, id: nat)
    requires WorkInv(cfg, s) && ValidConfig(cfg) && WorkerStep(cfg, s, t, id)
    requires !WorkerResolves(s, t, id) && !WorkerDefers(s, t, id)
    ensures WorkInv(cfg, t) && t.db == s.db
  {
    assert t == s.(workers := t.workers);
    if id in s.workers {
      var w := s.workers[id];
      var meta := w.item.row.meta;
      assert WorkerInv(cfg, s.peer, s.db, w);
      CompareStateReflexive(Some(meta));
      if WorkerFetches(cfg, s, t, id) {
        CompareStateFlip(Some(meta), Some(s.peer.files[w.item.name]));
        if cfg.excluded(s.peer.files[w.item.name]) && CompareMeta(meta, s.peer.files[w.item.name]) <= 0 {
          FetchedIsDealt(cfg, s, id);
        }
      } else if WorkerApplies(cfg, s, t, id) {
        if CompareState(Some(w.meta), s.db.Row(w.item.name)) <= 0 {
          CompareStateTransitive(Some(meta), Some(w.meta), s.db.Row(w.item.name));
        }
      }
    }
    assert id in t.workers ==> WorkerInv(cfg, s.peer, s.db, t.workers[id]);
  }

  lemma WorkerStepWorks(cfg: Config, s: System, t: System, id: nat)
    requires WorkInv(cfg, s) && ValidConfig(cfg) && WorkerStep(cfg, s, t, id)
    ensures WorkInv(cfg, t) && CoverageGrows(cfg, t.peer, s.db, t.db)
  {
    if WorkerResolves(s, t, id) {
      ResolveGrows(cfg, s, t, id);
      ResolveWorks(cfg, s, t, id);
    } else if WorkerDefers(s, t, id) {
      DeferWorks(cfg, s, t, id);
    } else {
      WorkerMoves(cfg, s, t, id);
      SameRowsGrow(cfg, t.peer, s.db, t.db);
    }
  }

  lemma MootRises(cfg: Config, p: Peer, q: Peer, m: FileMeta)
    requires ValidConfig(cfg) && (RulesUpwardClosed(cfg) || PeerRises(p, q)) && Moot(cfg, p, m)
    ensures Moot(cfg, q, m)
  {
    var old_, new_ := p.files[m.name], q.files[m.name];
    if new_ == old_.(version := new_.version) {
      assert cfg.excluded(new_) == cfg.excluded(old_);
      assert CompareMeta(m, new_) == CompareMeta(m, old_);
    } else {
      CompareMetaTransitive(m, old_, new_);
    }
  }

  lemma NextKeepsPeer(cfg: Config, s: System, t: System)
    requires Next(cfg, s, t) && PeerValid(s.peer)
    ensures PeerValid(t.peer)
  {
    if m :| PeerWrites(s, t, m) {
      assert t.peer.files[m.name].version == s.peer.lastVersion + 1;
    } else if !PeerRestarts(s, t) {
      assert t.peer == s.peer;
    }
  }

  lemma PeerStepWorks(cfg: Config, s: System, t: System)
    requires WorkInv(cfg, s) && ValidConfig(cfg) && (RulesUpwardClosed(cfg) || PeerRises(s.peer, t.peer))
    requires PeerRestarts(s, t) || exists m :: PeerWrites(s, t, m)
    ensures WorkInv(cfg, t) && t.db == s.db
  {
    assert Next(cfg, s, t);
    NextKeepsPeer(cfg, s, t);
    forall id | id in t.workers ensures WorkerInv(cfg, t.peer, t.db, t.workers[id]) {
      assert WorkerInv(cfg, s.peer, s.db, s.workers[id]);
      var m := s.workers[id].item.row.meta;
      if Moot(cfg, s.peer, m) {
        MootRises(cfg, s.peer, t.peer, m);
      }
    }
  }

  /** Every step keeps queue and workers in order and uncovers nothing, whatever the
      cursor says: for upward closed rules always, and for any rules while the peer's
      rows do not fall. */
  lemma NextWorks(cfg: Config, s: System, t: System)
    requires WorkInv(cfg, s) && ValidConfig(cfg) && Next(cfg, s, t) && (RulesUpwardClosed(cfg) || PeerRises(s.peer, t.peer))
    ensures WorkInv(cfg, t) && CoverageGrows(cfg, t.peer, s.db, t.db)
  {
    if PeerRestarts(s, t) || exists m :: PeerWrites(s, t, m) {
      PeerStepWorks(cfg, s, t);
      SameRowsGrow(cfg, t.peer, s.db, t.db);
    } else if PollStep(cfg, s, t) {
      PollStepWorks(cfg, s, t);
    } else if id :| WorkerStep(cfg, s, t, id) {
      WorkerStepWorks(cfg, s, t, id);
    } else if RowsRise(s, t) || OtherPeers(cfg, s, t) {
      QuietRiseWorks(cfg, s, t);
    } else if metas :| QueueGrows(cfg, s, t, metas) {
      EnqueueWorks(cfg, s, metas);
    } else {
      assert CursorPruned(cfg, s, t) || Crashes(s, t);
      SameRowsGrow(cfg, t.peer, s.db, t.db);
      SameRows(cfg, s.peer, s.db, t.db, s.workers);
    }
  }

  // ----- the cursor -----

  /** A row written now has a version nobody has read yet. */
  lemma PeerWritesReads(cfg: Config, s: System, t: System, m: FileMeta)
    requires Inv(cfg, s) == true && PeerWrites(s, t, m)
    ensures ReadInv(cfg, t) == true
  {
    forall e, v, p | ReadUpTo(cfg, s.db, s.peer, e, v, p) ensures ReadUpTo(cfg, t.db, t.peer, e, v, p) {
    }
  }

  lemma PeerRestartsReads(cfg: Config, s: System, t: System)
    requires Inv(cfg, s) == true && PeerRestarts(s, t)
    ensures ReadInv(cfg, t) == true
  {
  }

  /** Nothing is read; the poll goes on or ends. */
  lemma ReadInvCarries(cfg: Config, s: System, t: System)
    requires PeerValid(s.peer) && ReadInv(cfg, s) && CoverageGrows(cfg, s.peer, s.db, t.db)
    requires t.peer == s.peer && t.used == s.used && (t.poll == s.poll || t.poll.Quiet?)
    requires t.db.Cursor(cfg.peer) == s.db.Cursor(cfg.peer)
    ensures ReadInv(cfg, t)
  {
    PollInvCarries(cfg, s.db, t.db, s.peer, s.used, s.poll);
    ReadUpToCarries(cfg, s.db, t.db, s.peer, s.db.Cursor(cfg.peer).epoch, s.db.Cursor(cfg.peer).version, []);
  }

  /** Moving the cursor to a point that has been read. */
  lemma SetCursorReads(cfg: Config, s: System, t: System, state: PeerState)
    requires PeerValid(s.peer) && ReadInv(cfg, s)
    requires t == s.(db := s.db.(cursors := t.db.cursors), poll := t.poll)
    requires t.db.Cursor(cfg.peer) == state && StateKnown(s.used, state)
    requires ReadUpTo(cfg, s.db, s.peer, state.epoch, state.version, [])
    requires t.poll == s.poll || t.poll.Quiet?
    ensures ReadInv(cfg, t)
  {
    SameRowsGrow(cfg, s.peer, s.db, t.db);
    PollInvCarries(cfg, s.db, t.db, s.peer, s.used, s.poll);
    ReadUpToCarries(cfg, s.db, t.db, s.peer, state.epoch, state.version, []);
  }

  lemma NothingAtVersionZero(cfg: Config, db: Db, peer: Peer, epoch: string)
    requires PeerValid(peer)
    ensures ReadUpTo(cfg, db, peer, epoch, 0, [])
  {
  }

  /** After a poll that needs no reset, the old cursor is a valid position in the
      incarnation that answered. */
  lemma NoResetMeansSameStream(cfg: Config, s: System)
    requires Inv(cfg, s) && s.poll.Answered? && !NeedsCursorReset(s.poll.state, s.poll.epoch, s.poll.peerMax)
    ensures ReadUpTo(cfg, s.db, s.peer, s.poll.epoch, s.poll.state.version, [])
  {
    if s.poll.state.version == 0 {
      NothingAtVersionZero(cfg, s.db, s.peer, s.poll.epoch);
    }
  }

  lemma FilteredReadUpTo(cfg: Config, s: System, latest: seq<FileMeta>, damaged: set<string>, batchMax: int, wanted: seq<FileMeta>)
    requires s.poll.Answered? && s.poll.page != [] && s.poll.state.version >= 0
    requires PageComplete(s.peer, s.poll.state, s.poll.epoch, s.poll.page)
    requires ReadUpTo(cfg, s.db, s.peer, s.poll.epoch, s.poll.state.version, [])
    requires Filtered(cfg, s.db, s.poll.page, latest, damaged, batchMax, wanted)
    ensures batchMax >= 0 && ReadUpTo(cfg, s.db, s.peer, s.poll.epoch, batchMax, wanted)
  {
    var page := s.poll.page;
    assert page[|page| - 1].version <= batchMax;
    assert batchMax == PageEnd(s.poll.state, page);
    if s.poll.epoch == s.peer.incarnation {
      forall k | k in s.peer.files && s.peer.files[k].version <= batchMax
        ensures Covered(cfg, s.db, s.peer.files[k]) || s.peer.files[k] in wanted
      {
        if s.peer.files[k].version > s.poll.state.version {
          FilterCovers(cfg, s.db, page, latest, damaged, batchMax, wanted, s.peer.files[k]);
        }
      }
    }
  }

  /** What the filter drops from a page is covered already. */
  lemma FilterCovers(cfg: Config, db: Db, page: seq<FileMeta>, latest: seq<FileMeta>, damaged: set<string>, batchMax: int, wanted: seq<FileMeta>, m: FileMeta)
    requires m in page && forall i, j :: 0 <= i < j < |page| ==> page[i].name != page[j].name
    requires Filtered(cfg, db, page, latest, damaged, batchMax, wanted)
    ensures Covered(cfg, db, m) || m in wanted
  {
    CollapseKeepsUnique(page, latest, batchMax, m);
    CompareStateFlip(Some(m), db.Row(m.name));
  }

  /** On a page with one entry per name, collapsing loses nothing. */
  lemma CollapseKeepsUnique(page: seq<FileMeta>, latest: seq<FileMeta>, batchMax: int, m: FileMeta)
    requires Collapsed(page, latest, batchMax) && m in page
    requires forall i, j :: 0 <= i < j < |page| ==> page[i].name != page[j].name
    ensures m in latest
  {
    var i :| 0 <= i < |page| && page[i] == m;
    assert HasNewest(latest, page[i]);
    var j :| 0 <= j < |latest| && latest[j].name == m.name && latest[j].version >= m.version;
    assert latest[j] in page;
  }

  lemma PollComparesReads(cfg: Config, s: System, t: System)
    requires Inv(cfg, s) && PollCompares(cfg, s, t)
    ensures ReadInv(cfg, t)
  {
    NoResetMeansSameStream(cfg, s);
    var latest, damaged :| Filtered(cfg, s.db, s.poll.page, latest, damaged, t.poll.batchMax, t.poll.wanted);
    FilteredReadUpTo(cfg, s, latest, damaged, t.poll.batchMax, t.poll.wanted);
  }

  lemma PollEnqueuesReads(cfg: Config, s: System, t: System)
    requires Inv(cfg, s) && PollEnqueues(cfg, s, t) && CoverageGrows(cfg, s.peer, s.db, t.db)
    ensures ReadInv(cfg, t)
  {
    var wanted, epoch, batchMax := s.poll.wanted, s.poll.epoch, s.poll.batchMax;
    ReadInvCarries(cfg, s, t.(poll := s.poll));
    if !EnqueueAll(s.db.queue, s.db.revision, cfg.peer, wanted, cfg.repairLimit).full {
      forall m | m in wanted ensures Covered(cfg, t.db, m) {
        EnqueueCovers(s.db.queue, s.db.revision, cfg.peer, wanted, cfg.repairLimit, m);
      }
      assert ReadUpTo(cfg, t.db, t.peer, epoch, batchMax, wanted);
      assert ReadUpTo(cfg, t.db, t.peer, epoch, batchMax, []);
    }
  }

  lemma PeerAnswersReads(cfg: Config, s: System, t: System)
    requires Inv(cfg, s) && PeerAnswers(cfg, s, t)
    ensures ReadInv(cfg, t)
  {
    var page := t.poll.page;
    if page != [] {
      assert page[|page| - 1].name in s.peer.files;
    }
    assert PageComplete(s.peer, s.poll.state, s.peer.incarnation, page);
  }

  /** Every step of a poll keeps what has been read covered. */
  lemma PollStepReads(cfg: Config, s: System, t: System)
    requires Inv(cfg, s) == true && PollStep(cfg, s, t) && CoverageGrows(cfg, s.peer, s.db, t.db) == true
    ensures ReadInv(cfg, t) == true
  {
    if PollResets(cfg, s, t) {
      NothingAtVersionZero(cfg, s.db, s.peer, s.poll.epoch);
      SetCursorReads(cfg, s, t, PeerState(0, s.poll.epoch));
    } else if PollRecordsEpoch(cfg, s, t) {
      NoResetMeansSameStream(cfg, s);
      SetCursorReads(cfg, s, t, s.poll.state.(epoch := s.poll.epoch));
    } else if PollCompares(cfg, s, t) {
      PollComparesReads(cfg, s, t);
    } else if PollEnqueues(cfg, s, t) {
      PollEnqueuesReads(cfg, s, t);
    } else if PollAdvances(cfg, s, t) {
      SetCursorReads(cfg, s, t, PeerState(s.poll.batchMax, s.poll.epoch));
    } else if PeerAnswers(cfg, s, t) {
      PeerAnswersReads(cfg, s, t);
    } else {
      assert PollAsks(cfg, s, t) || PollEnds(s, t);
    }
  }

  lemma PrunedReads(cfg: Config, s: System, t: System)
    requires Inv(cfg, s) == true && CursorPruned(cfg, s, t)
    ensures ReadInv(cfg, t) == true
  {
    NothingAtVersionZero(cfg, s.db, s.peer, "");
    SetCursorReads(cfg, s, t, PeerState(0, ""));
  }

  /** Steps of workers and of everything else on this node read nothing. */
  ghost predicate OwnStep(cfg: Config, s: System, t: System) {
    || (exists id :: WorkerStep(cfg, s, t, id)) || RowsRise(s, t) || (exists metas :: QueueGrows(cfg, s, t, metas))
    || OtherPeers(cfg, s, t) || Crashes(s, t)
  }

  lemma OwnStepFrame(cfg: Config, s: System, t: System)
    requires OwnStep(cfg, s, t)
    ensures t.peer == s.peer && t.used == s.used && (t.poll == s.poll || t.poll.Quiet?)
    ensures t.db.Cursor(cfg.peer) == s.db.Cursor(cfg.peer)
  {
  }

  lemma PollStepFrame(cfg: Config, s: System, t: System)
    requires PollStep(cfg, s, t)
    ensures t.peer == s.peer && t.used == s.used
  {
  }

  lemma NextReads(cfg: Config, s: System, t: System)
    requires Inv(cfg, s) == true && Next(cfg, s, t) && CoverageGrows(cfg, t.peer, s.db, t.db) == true
    ensures ReadInv(cfg, t) == true
  {
    if PollStep(cfg, s, t) == true {
      PollStepFrame(cfg, s, t);
      PollStepReads(cfg, s, t);
    } else if OwnStep(cfg, s, t) == true {
      OwnStepFrame(cfg, s, t);
      ReadInvCarries(cfg, s, t);
    } else if PeerRestarts(s, t) == true {
      PeerRestartsReads(cfg, s, t);
    } else if CursorPruned(cfg, s, t) == true {
      PrunedReads(cfg, s, t);
    } else {
      var m :| PeerWrites(s, t, m);
      PeerWritesReads(cfg, s, t, m);
    }
  }

  /** Every step of node, peer and workers keeps the invariant: for upward closed rules
      always, and for any rules while the peer's rows do not fall. */
  lemma NextKeeps(cfg: Config, s: System, t: System)
    requires Inv(cfg, s) && ValidConfig(cfg) && Next(cfg, s, t) && (RulesUpwardClosed(cfg) || PeerRises(s.peer, t.peer))
    ensures Inv(cfg, t)
  {
    NextWorks(cfg, s, t);
    NextReads(cfg, s, t);
  }

  // ----- whole runs -----

  ghost predicate Run(cfg: Config, run: seq<System>) {
    run != [] && Init(cfg, run[0]) && forall i :: 0 <= i < |run| - 1 ==> Next(cfg, run[i], run[i + 1])
  }

  /** The peer's rows never fall along the run: it writes greater states only and is not
      restored from a backup that lacks any of them. */
  ghost predicate PeerRisesAlong(run: seq<System>) {
    forall i :: 0 <= i < |run| - 1 ==> PeerRises(run[i].peer, run[i + 1].peer)
  }

  lemma RisesToLast(run: seq<System>, n: nat)
    requires PeerRisesAlong(run) && n == |run| - 1 && n > 0
    ensures PeerRisesAlong(run[..n]) == true && PeerRises(run[n - 1].peer, run[n].peer) == true
  {
    assert PeerRises(run[n - 1].peer, run[n - 1 + 1].peer);
  }

  lemma RunToLast(cfg: Config, run: seq<System>, n: nat)
    requires Run(cfg, run) && n == |run| - 1 && n > 0
    ensures Run(cfg, run[..n]) == true && Next(cfg, run[n - 1], run[n]) == true
  {
    assert Next(cfg, run[n - 1], run[n - 1 + 1]);
  }

  lemma InitKeeps(cfg: Config, s: System)
    requires Init(cfg, s)
    ensures Inv(cfg, s) == true
  {
    NothingAtVersionZero(cfg, s.db, s.peer, "");
  }

  lemma {:induction false} RunKeeps(cfg: Config, run: seq<System>)
    requires ValidConfig(cfg) == true && run != [] && Run(cfg, run) == true && (RulesUpwardClosed(cfg) == true || PeerRisesAlong(run) == true)
    ensures Inv(cfg, run[|run| - 1]) == true
    decreases |run|
  {
    var n := |run| - 1;
    if n == 0 {
      InitKeeps(cfg, run[0]);
    } else {
      RunToLast(cfg, run, n);
      if !RulesUpwardClosed(cfg) {
        RisesToLast(run, n);
      }
      RunKeeps(cfg, run[..n]);
      NextKeeps(cfg, run[n - 1], run[n]);
    }
  }

  /** Cursor safety over every run: polls, full queues, updates during a retry, peer
      restarts and crashes in any order. While the stored epoch is the peer's
      incarnation, every row of the peer up to the cursor is excluded here, matched
      or beaten by the local row, or queued. It holds for upward closed ignore rules in
      every run, and for arbitrary rules in every run along which no row of the peer
      falls. */
  lemma CursorSafety(cfg: Config, run: seq<System>)
    requires ValidConfig(cfg) && Run(cfg, run) && (RulesUpwardClosed(cfg) || PeerRisesAlong(run))
    ensures CursorSafe(cfg, run[|run| - 1])
  {
    RunKeeps(cfg, run);
  }

  /** A cursor at the peer's newest version and an empty queue mean that this node
      holds every usable state of the peer, or a greater one. */
  lemma CaughtUp(cfg: Config, run: seq<System>, k: string)
    requires ValidConfig(cfg) && Run(cfg, run) && (RulesUpwardClosed(cfg) || PeerRisesAlong(run))
    requires var s := run[|run| - 1];
             && s.db.Cursor(cfg.peer) == PeerState(s.peer.lastVersion, s.peer.incarnation)
             && (forall q :: q in s.db.queue ==> q.0 != cfg.peer)
             && k in s.peer.files && !cfg.excluded(s.peer.files[k])
    ensures var s := run[|run| - 1]; CompareState(Some(s.peer.files[k]), s.db.Row(k)) <= 0
  {
    RunKeeps(cfg, run);
  }

  // ----- the condition on the ignore rules is exact -----

  ghost predicate Path(cfg: Config, run: seq<System>) {
    run != [] && forall i :: 0 <= i < |run| - 1 ==> Next(cfg, run[i], run[i + 1])
  }

  lemma PathJoin(cfg: Config, a: seq<System>, b: seq<System>)
    requires Path(cfg, a) && Path(cfg, b) && a[|a| - 1] == b[0]
    ensures Path(cfg, a + b[1..]) && (a + b[1..])[0] == a[0] && (a + b[1..])[|a + b[1..]| - 1] == b[|b| - 1]
  {
    var ab := a + b[1..];
    forall i | 0 <= i < |ab| - 1 ensures Next(cfg, ab[i], ab[i + 1]) {
      if i >= |a| - 1 {
        assert ab[i] == b[i - |a| + 1] && ab[i + 1] == b[i - |a| + 2];
      }
    }
  }

  ghost predicate Leads(cfg: Config, run: seq<System>, s: System, t: System) {
    Path(cfg, run) == true && run != [] && run[0] == s && run[|run| - 1] == t
  }

  lemma Join(cfg: Config, a: seq<System>, b: seq<System>, s: System, t: System, u: System) returns (run: seq<System>)
    requires Leads(cfg, a, s, t) && Leads(cfg, b, t, u)
    ensures Leads(cfg, run, s, u) == true
  {
    PathJoin(cfg, a, b);
    run := a + b[1..];
  }

  /** A peer whose only row is `m`, at version 1. */
  function SinglePeer(m: FileMeta, incarnation: string): Peer {
    Peer(map[m.name := m.(version := 1)], 1, incarnation)
  }

  /** A node that holds nothing but a queue row for `m` and a cursor. */
  function QueuedDb(cfg: Config, m: FileMeta, cursor: PeerState): Db {
    Db(map[], 0, map[], {}, map[(cfg.peer, m.name) := RepairRow(m.(version := 1), 1, 0, 1)], 1, map[cfg.peer := cursor])
  }

  /** One poll that reads the single row of a peer, from the start of its stream. The
      row is queued already or is queued by this poll. */
  lemma PollOnce(cfg: Config, s: System, m: FileMeta) returns (run: seq<System>)
    requires ValidConfig(cfg) && cfg.batchLimit > 0 && !cfg.excluded(m)
    requires s.peer == SinglePeer(m, s.peer.incarnation) && s.peer.incarnation != "" && s.poll.Quiet?
    requires s.db == Db(map[], 0, map[], {}, map[], 0, map[]) || s.db == QueuedDb(cfg, m, PeerState(0, s.peer.incarnation))
    ensures Path(cfg, run) && run[0] == s
    ensures run[|run| - 1] == s.(db := QueuedDb(cfg, m, PeerState(1, s.peer.incarnation)))
  {
    run := PollReads(cfg, s, m);
    var rest := PollRecords(cfg, run[|run| - 1], m);
    PathJoin(cfg, run, rest);
    run := run + rest[1..];
  }

  /** ... up to the answer, with the incarnation remembered. */
  lemma PollReads(cfg: Config, s: System, m: FileMeta) returns (run: seq<System>)
    requires cfg.batchLimit > 0
    requires s.peer == SinglePeer(m, s.peer.incarnation) && s.peer.incarnation != "" && s.poll.Quiet?
    requires s.db.Cursor(cfg.peer) == PeerState(0, "") || s.db == SetPeerState(s.db, cfg.peer, PeerState(0, s.peer.incarnation))
    ensures Path(cfg, run) && run[0] == s && run[|run| - 1].poll.Answered?
    ensures run[|run| - 1] == s.(db := SetPeerState(s.db, cfg.peer, PeerState(0, s.peer.incarnation)),
                                 poll := Answered(s.db.Cursor(cfg.peer), s.peer.incarnation, None, [m.(version := 1)]))
  {
    var epoch, state := s.peer.incarnation, s.db.Cursor(cfg.peer);
    var asked := s.(poll := Asked(state));
    assert PollAsks(cfg, s, asked);
    var answered := s.(poll := Answered(state, epoch, None, [m.(version := 1)]));
    assert PeerAnswers(cfg, asked, answered);
    run := [s, asked, answered];
    if state.epoch != epoch {
      var known := answered.(db := SetPeerState(s.db, cfg.peer, state.(epoch := epoch)));
      assert PollRecordsEpoch(cfg, answered, known);
      run := run + [known];
    }
  }

  /** ... and from there to the advanced cursor. */
  lemma PollRecords(cfg: Config, s: System, m: FileMeta) returns (run: seq<System>)
    requires ValidConfig(cfg) && !cfg.excluded(m)
    requires s.poll.Answered? && s.poll.state.version == 0 && s.poll.page == [m.(version := 1)]
    requires s.db == Db(map[], 0, map[], {}, map[], 0, map[cfg.peer := PeerState(0, s.poll.epoch)]) || s.db == QueuedDb(cfg, m, PeerState(0, s.poll.epoch))
    ensures Path(cfg, run) && run[0] == s
    ensures run[|run| - 1] == s.(db := QueuedDb(cfg, m, PeerState(1, s.poll.epoch)), poll := Quiet)
  {
    var row, epoch := m.(version := 1), s.poll.epoch;
    var compared := s.(poll := Compared(epoch, 1, [row]));
    assert PollCompares(cfg, s, compared) by {
      var page := [row];
      assert page[0].name == row.name && page[0].version == 1;
      assert HasNewest(page, row) && IsBatchMax(page, 1, 1);
      assert Filtered(cfg, s.db, [row], [row], {}, 1, [row]);
    }
    CompareStateReflexive(Some(row));
    EnqueueSingle(cfg, s.db, row);
    var recorded := s.(db := QueuedDb(cfg, m, PeerState(0, epoch)), poll := Recorded(epoch, 1));
    assert PollEnqueues(cfg, compared, recorded);
    var last := s.(db := QueuedDb(cfg, m, PeerState(1, epoch)), poll := Quiet);
    assert last.db.cursors == recorded.db.cursors[cfg.peer := PeerState(1, epoch)];
    assert PollAdvances(cfg, recorded, last);
    run := [s, compared, recorded, last];
  }

  lemma EnqueueSingle(cfg: Config, db: Db, row: FileMeta)
    requires row.version == 1 && CompareMeta(row, row) == 0
    requires (db.queue == map[] && db.revision == 0) || (db.queue == map[(cfg.peer, row.name) := RepairRow(row, 1, 0, 1)] && db.revision == 1)
    ensures EnqueueAll(db.queue, db.revision, cfg.peer, [row], cfg.repairLimit) ==
            Enqueued(map[(cfg.peer, row.name) := RepairRow(row, 1, 0, 1)], 1, if db.queue == map[] then 1 else 0, false)
  {
    assert db.queue == map[] ==> PeerKeys(db.queue, cfg.peer) == {};
  }

  /** Whenever a rule excludes a well-formed state at or above a usable one of the same
      name, the cursor is not safe: a worker that fetches the excluded state takes its
      row for done, and if the peer is then restored from a backup that still holds the
      usable state, the cursor passes it and nothing holds it any more. */
  lemma CursorUnsafe(cfg: Config, low: FileMeta, high: FileMeta) returns (run: seq<System>)
    requires ValidConfig(cfg) && cfg.batchLimit > 0
    requires cfg.wellFormed(low) && cfg.wellFormed(high) && low.name == high.name && CompareMeta(low, high) <= 0
    requires !cfg.excluded(low) && cfg.excluded(high)
    ensures Run(cfg, run) && !CursorSafe(cfg, run[|run| - 1])
    ensures WorkInv(cfg, run[|run| - 1]) && run[|run| - 1] == Passed(cfg, low)
  {
    var first := System(Db(map[], 0, map[], {}, map[], 0, map[]), SinglePeer(low, "1"), {"1"}, Quiet, map[]);
    run := ReadsUntilReset(cfg, low, high, first);
    var rest := ReadsAndResolves(cfg, low);
    run := Join(cfg, run, rest, first, Mistaken(cfg, low, 0), Passed(cfg, low));
    PassedIsLost(cfg, low);
  }

  /** A worker has taken the row for done, and the peer has been restored; its cursor is at `version`. */
  function Mistaken(cfg: Config, low: FileMeta, version: int): System {
    var item := RepairItem(cfg.peer, low.name, RepairRow(low.(version := 1), 1, 0, 1));
    System(QueuedDb(cfg, low, PeerState(version, "2")), SinglePeer(low, "2"), {"1", "2"}, Quiet, map[0 := Finished(item)])
  }

  lemma ReadsUntilReset(cfg: Config, low: FileMeta, high: FileMeta, first: System) returns (run: seq<System>)
    requires ValidConfig(cfg) && cfg.batchLimit > 0 && !cfg.excluded(low)
    requires cfg.wellFormed(high) && cfg.excluded(high) && low.name == high.name && CompareMeta(low, high) <= 0
    requires first == System(Db(map[], 0, map[], {}, map[], 0, map[]), SinglePeer(low, "1"), {"1"}, Quiet, map[])
    ensures Leads(cfg, run, first, Mistaken(cfg, low, 0)) == true
  {
    run := PollOnce(cfg, first, low);
    var read := run[|run| - 1];
    var rest := WorkerTakesExcluded(cfg, read, low, high);
    run := Join(cfg, run, rest, first, read, Mistaken(cfg, low, 0));
  }

  lemma ReadsAndResolves(cfg: Config, low: FileMeta) returns (run: seq<System>)
    requires ValidConfig(cfg) && cfg.batchLimit > 0 && !cfg.excluded(low)
    ensures Leads(cfg, run, Mistaken(cfg, low, 0), Passed(cfg, low)) == true
  {
    run := PollOnce(cfg, Mistaken(cfg, low, 0), low);
    var s, t := Mistaken(cfg, low, 1), Passed(cfg, low);
    MistakenResolves(cfg, low, s, t);
    run := Join(cfg, run, [s, t], Mistaken(cfg, low, 0), s, t);
  }

  lemma MistakenResolves(cfg: Config, low: FileMeta, s: System, t: System)
    requires s == Mistaken(cfg, low, 1) && t == Passed(cfg, low)
    ensures Leads(cfg, [s, t], s, t) == true
  {
    var last := s.(db := Resolve(s.db, s.workers[0].item), workers := s.workers - {0});
    assert last.db.queue == map[] && last.workers == map[];
    assert last == t;
    assert WorkerResolves(s, t, 0);
    assert WorkerStep(cfg, s, t, 0);
  }

  /** Where that leads: the cursor is past a usable row of the peer of which the node has
      neither a row nor a queue entry. */
  function Passed(cfg: Config, low: FileMeta): System {
    System(Db(map[], 0, map[], {}, map[], 1, map[cfg.peer := PeerState(1, "2")]), SinglePeer(low, "2"), {"1", "2"}, Quiet, map[])
  }

  lemma PassedIsLost(cfg: Config, low: FileMeta)
    requires ValidConfig(cfg) && !cfg.excluded(low)
    ensures WorkInv(cfg, Passed(cfg, low)) && !CursorSafe(cfg, Passed(cfg, low))
  {
    var s := Passed(cfg, low);
    assert s.peer.files[low.name] == low.(version := 1);
    assert !Covered(cfg, s.db, s.peer.files[low.name]);
  }

  /** The worker finishes on the excluded state, the peer comes back as it was before
      that state, and the next poll resets the cursor. */
  lemma WorkerTakesExcluded(cfg: Config, s: System, low: FileMeta, high: FileMeta) returns (run: seq<System>)
    requires ValidConfig(cfg)
    requires cfg.wellFormed(high) && cfg.excluded(high) && low.name == high.name && CompareMeta(low, high) <= 0
    requires s == System(QueuedDb(cfg, low, PeerState(1, "1")), SinglePeer(low, "1"), {"1"}, Quiet, map[])
    ensures Leads(cfg, run, s, Mistaken(cfg, low, 0)) == true
  {
    var finished;
    run, finished := ExcludedFinishes(cfg, s, low, high);
    var rest := RestoredResets(cfg, finished, low);
    run := Join(cfg, run, rest, s, finished, Mistaken(cfg, low, 0));
  }

  lemma ExcludedFinishes(cfg: Config, s: System, low: FileMeta, high: FileMeta) returns (run: seq<System>, finished: System)
    requires ValidConfig(cfg)
    requires cfg.wellFormed(high) && cfg.excluded(high) && low.name == high.name && CompareMeta(low, high) <= 0
    requires s == System(QueuedDb(cfg, low, PeerState(1, "1")), SinglePeer(low, "1"), {"1"}, Quiet, map[])
    ensures Leads(cfg, run, s, finished) == true
    ensures finished == System(s.db, Peer(map[low.name := high.(version := 2)], 2, "1"), {"1"}, Quiet, Mistaken(cfg, low, 0).workers)
  {
    var item := RepairItem(cfg.peer, low.name, RepairRow(low.(version := 1), 1, 0, 1));
    var took := s.(workers := map[0 := Took(item)]);
    assert WorkerTakes(cfg, s, took, 0, low.name);
    assert WorkerStep(cfg, s, took, 0);
    var wrote := took.(peer := Peer(map[low.name := high.(version := 2)], 2, "1"));
    assert wrote.peer.files == took.peer.files[high.name := high.(version := 2)];
    assert PeerWrites(took, wrote, high);
    var chosen := wrote.(workers := map[0 := Chosen(item, high.(version := 2))]);
    assert chosen.workers == wrote.workers[0 := Chosen(item, high.(version := 2))];
    assert WorkerFetches(cfg, wrote, chosen, 0);
    assert WorkerStep(cfg, wrote, chosen, 0);
    finished := chosen.(workers := map[0 := Finished(item)]);
    assert finished.workers == chosen.workers[0 := Finished(item)];
    assert WorkerApplies(cfg, chosen, finished, 0);
    assert WorkerStep(cfg, chosen, finished, 0);
    run := [s, took, wrote, chosen, finished];
  }

  lemma RestoredResets(cfg: Config, finished: System, low: FileMeta) returns (run: seq<System>)
    requires finished.db == QueuedDb(cfg, low, PeerState(1, "1")) && finished.used == {"1"} && finished.poll == Quiet
    requires finished.workers == Mistaken(cfg, low, 0).workers
    ensures Leads(cfg, run, finished, Mistaken(cfg, low, 0)) == true
  {
    var restarted := finished.(peer := SinglePeer(low, "2"), used := {"1", "2"});
    assert restarted.used == finished.used + {"2"};
    assert PeerRestarts(finished, restarted);
    var asked := restarted.(poll := Asked(PeerState(1, "1")));
    assert PollAsks(cfg, restarted, asked);
    var answered := asked.(poll := Answered(PeerState(1, "1"), "2", None, []));
    assert PeerAnswers(cfg, asked, answered);
    var reset := restarted.(db := QueuedDb(cfg, low, PeerState(0, "2")));
    assert reset.db.cursors == answered.db.cursors[cfg.peer := PeerState(0, "2")];
    assert PollResets(cfg, answered, reset);
    run := [finished, restarted, asked, answered, reset];
  }

  /** The rules of a node with the ignore list `ignored`: a state is refused if its own
      name is ignored, or the name that displaced it, or the name it is a copy of. */
  ghost function ConfigFor(peer: string, batchLimit: nat, repairLimit: nat, ignored: string -> bool): Config {
    Config(peer, batchLimit, repairLimit, m => ValidMetadata(m),
           m => !ValidMetadata(m) || ignored(m.name) || (m.supersededBy != "" && ignored(m.supersededBy)) || (m.conflictOf != "" && ignored(m.conflictOf)))
  }

  /** In terms of the ignore list, the condition is that no well-formed state whose own
      name is replicated refers to an ignored name. */
  lemma SafeIgnoreLists(peer: string, batchLimit: nat, repairLimit: nat, ignored: string -> bool)
    ensures var cfg := ConfigFor(peer, batchLimit, repairLimit, ignored);
            && ValidConfig(cfg)
            && (RulesUpwardClosed(cfg) <==> forall m :: ValidMetadata(m) && !ignored(m.name) ==> !cfg.excluded(m))
  {
    var cfg := ConfigFor(peer, batchLimit, repairLimit, ignored);
    if RulesUpwardClosed(cfg) {
      forall m | ValidMetadata(m) && !ignored(m.name) ensures !cfg.excluded(m) {
        var low := m.(deleted := true, supersededBy := "", conflictOf := "");
        Clock.CompareClockNumeric(low, m);
        Text.CompareZero(low.bigClock, m.bigClock);
        if RanksLive(m) {
          assert CompareMeta(low, m) == -1;
        } else {
          assert CompareMeta(low, m) == 0;
        }
        assert cfg.wellFormed(low) && cfg.wellFormed(m) && !cfg.excluded(low);
      }
    }
  }
}
