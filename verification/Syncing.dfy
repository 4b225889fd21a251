/** The loops of the syncer as they are carried out: polling a peer, repairing one
    queued name, and comparing a peer's whole manifest. Between any two effects of one
    loop everything else may move: the peer, the other loops, local writes. */
module Syncing {
  import opened Meta
  import opened Rank
  import opened Store
  import opened Replication
  import Text

  // ----- what a loop and its surroundings do to the system -----

  /** `rel` relates a state to itself and goes on over steps and over itself; the
      peer's rows stay well formed along it. */
  ghost predicate Steps(cfg: Config, rel: (System, System) -> bool) {
    && (forall s, t {:trigger rel(s, t)} :: rel(s, t) && PeerValid(s.peer) ==> PeerValid(t.peer))
    && (forall s {:trigger rel(s, s)} :: rel(s, s))
    && (forall r, s, t {:trigger rel(r, s), Next(cfg, s, t)} :: rel(r, s) && Next(cfg, s, t) ==> rel(r, t))
    && (forall r, s, t {:trigger rel(r, s), rel(s, t)} :: rel(r, s) && rel(s, t) ==> rel(r, t))
  }

  /** What is in order stays so, and nothing covered is uncovered on the way: for upward
      closed ignore rules always, and for any rules while the peer is idle. */
  ghost predicate Safe(cfg: Config, rel: (System, System) -> bool) {
    forall s, t {:trigger rel(s, t)} :: rel(s, t) && WorkInv(cfg, s) && (RulesUpwardClosed(cfg) || t.peer == s.peer) ==>
      WorkInv(cfg, t) && CoverageGrows(cfg, t.peer, s.db, t.db) && (Inv(cfg, s) ==> Inv(cfg, t))
  }

  /** Some sequence of steps leads from `s` to `t`. */
  ghost predicate Reaches(cfg: Config, s: System, t: System) {
    exists run :: Path(cfg, run) && run[0] == s && run[|run| - 1] == t
  }

  lemma Follow(cfg: Config, rel: (System, System) -> bool, r: System, s: System, t: System)
    requires Steps(cfg, rel) && rel(r, s) && Next(cfg, s, t)
    ensures rel(r, t)
  {
  }

  lemma ReachesJoin(cfg: Config, r: System, s: System, t: System)
    requires Reaches(cfg, r, s) && Reaches(cfg, s, t)
    ensures Reaches(cfg, r, t)
  {
    var a :| Path(cfg, a) && a[0] == r && a[|a| - 1] == s;
    var b :| Path(cfg, b) && b[0] == s && b[|b| - 1] == t;
    PathJoin(cfg, a, b);
  }

  lemma ReachesOne(cfg: Config, s: System, t: System)
    requires s == t || Next(cfg, s, t)
    ensures Reaches(cfg, s, t)
  {
    var run := if s == t then [s] else [s, t];
    assert Path(cfg, run);
  }

  // ----- what holds along a path -----

  lemma CoverageChains(cfg: Config, p: Peer, q: Peer, a: Db, b: Db, c: Db)
    requires ValidConfig(cfg) && (RulesUpwardClosed(cfg) || PeerRises(p, q))
    requires CoverageGrows(cfg, p, a, b) && CoverageGrows(cfg, q, b, c)
    ensures CoverageGrows(cfg, q, a, c)
  {
    forall m | Covered(cfg, a, m) ensures Covered(cfg, c, m) || Moot(cfg, q, m) {
      if Moot(cfg, p, m) {
        MootRises(cfg, p, q, m);
      }
    }
  }

  lemma {:induction false} PathIsSafe(cfg: Config, run: seq<System>)
    requires ValidConfig(cfg) && Path(cfg, run) && WorkInv(cfg, run[0]) && (RulesUpwardClosed(cfg) == true || PeerRisesAlong(run) == true)
    ensures var last := run[|run| - 1];
            WorkInv(cfg, last) == true && CoverageGrows(cfg, last.peer, run[0].db, last.db) == true && (Inv(cfg, run[0]) ==> Inv(cfg, last) == true)
    decreases |run|
  {
    var n := |run| - 1;
    if n == 0 {
      SameRowsGrow(cfg, run[0].peer, run[0].db, run[0].db);
    } else {
      assert Next(cfg, run[n - 1], run[n]);
      if !RulesUpwardClosed(cfg) {
        RisesToLast(run, n);
      }
      PathIsSafe(cfg, run[..n]);
      StepIsSafe(cfg, run[0], run[n - 1], run[n]);
    }
  }

  lemma StepIsSafe(cfg: Config, r: System, s: System, t: System)
    requires ValidConfig(cfg) && Next(cfg, s, t) && (RulesUpwardClosed(cfg) || PeerRises(s.peer, t.peer))
    requires WorkInv(cfg, s) == true && CoverageGrows(cfg, s.peer, r.db, s.db) == true
    ensures WorkInv(cfg, t) == true && CoverageGrows(cfg, t.peer, r.db, t.db) == true && (Inv(cfg, s) ==> Inv(cfg, t) == true)
  {
    NextWorks(cfg, s, t);
    CoverageChains(cfg, s.peer, t.peer, r.db, s.db, t.db);
    if Inv(cfg, s) {
      NextKeeps(cfg, s, t);
    }
  }

  lemma {:induction false} PathKeepsPeer(cfg: Config, run: seq<System>)
    requires Path(cfg, run) && PeerValid(run[0].peer)
    ensures PeerValid(run[|run| - 1].peer)
    decreases |run|
  {
    var n := |run| - 1;
    if n > 0 {
      assert Next(cfg, run[n - 1], run[n]);
      PathKeepsPeer(cfg, run[..n]);
      NextKeepsPeer(cfg, run[n - 1], run[n]);
    }
  }

  /** The peer has written since, or is another incarnation. */
  ghost predicate Strayed(a: System, b: System) {
    || (b.peer.incarnation == a.peer.incarnation && b.peer.lastVersion > a.peer.lastVersion)
    || b.peer.incarnation !in a.used
  }

  ghost predicate StraysOrStays(s: System, t: System) {
    s.used <= t.used && (t.peer == s.peer || Strayed(s, t))
  }

  lemma NextStrays(cfg: Config, s: System, t: System)
    requires Next(cfg, s, t)
    ensures StraysOrStays(s, t)
  {
    if m :| PeerWrites(s, t, m) {
      assert t.peer.incarnation == s.peer.incarnation && t.peer.lastVersion == s.peer.lastVersion + 1;
    } else if !PeerRestarts(s, t) {
      assert t.peer == s.peer && t.used == s.used;
    }
  }

  /** A peer that strays does not come back to where it was. */
  lemma {:induction false} PathStrays(run: seq<System>, i: nat, j: nat)
    requires forall k :: 0 <= k < |run| - 1 ==> StraysOrStays(run[k], run[k + 1])
    requires i <= j < |run| && run[0].peer.incarnation in run[0].used
    ensures StraysOrStays(run[0], run[i]) && (Strayed(run[0], run[i]) ==> Strayed(run[0], run[j]))
    decreases j
  {
    if i < j {
      PathStrays(run, i, j - 1);
      PathStrays(run, j - 1, j - 1);
      assert StraysOrStays(run[j - 1], run[j - 1 + 1]);
    } else if i > 0 {
      PathStrays(run, i - 1, i - 1);
      assert StraysOrStays(run[i - 1], run[i - 1 + 1]);
    }
  }

  /** A peer that is in the end as it was in the beginning has been idle all along. */
  lemma SamePeerIsIdle(cfg: Config, run: seq<System>)
    requires Path(cfg, run) && run[0].peer.incarnation in run[0].used && run[|run| - 1].peer == run[0].peer
    ensures PeerRisesAlong(run)
  {
    forall k | 0 <= k < |run| - 1 ensures StraysOrStays(run[k], run[k + 1]) {
      assert Next(cfg, run[k], run[k + 1]);
      NextStrays(cfg, run[k], run[k + 1]);
    }
    IdleRises(run);
  }

  lemma IdleRises(run: seq<System>)
    requires forall k :: 0 <= k < |run| - 1 ==> StraysOrStays(run[k], run[k + 1])
    requires run != [] && run[0].peer.incarnation in run[0].used && run[|run| - 1].peer == run[0].peer
    ensures PeerRisesAlong(run)
  {
    forall i | 0 <= i < |run| ensures run[i].peer == run[0].peer {
      PathStrays(run, i, |run| - 1);
    }
    forall i | 0 <= i < |run| - 1 ensures PeerRises(run[i].peer, run[i + 1].peer) {
      assert run[i + 1].peer == run[i].peer;
    }
  }

  /** Being reached by steps is such a relation, for every configuration. */
  lemma ReachesIsSafe(cfg: Config, rel: (System, System) -> bool)
    requires ValidConfig(cfg) && forall s, t {:trigger rel(s, t)} :: rel(s, t) <==> Reaches(cfg, s, t)
    ensures Steps(cfg, rel) && Safe(cfg, rel)
  {
    forall s, t | rel(s, t) && PeerValid(s.peer) ensures PeerValid(t.peer) {
      var run :| Path(cfg, run) && run[0] == s && run[|run| - 1] == t;
      PathKeepsPeer(cfg, run);
    }
    forall s ensures rel(s, s) { ReachesOne(cfg, s, s); }
    forall r, s, t | rel(r, s) && rel(s, t) ensures rel(r, t) { ReachesJoin(cfg, r, s, t); }
    forall r, s, t | rel(r, s) && Next(cfg, s, t) ensures rel(r, t) {
      ReachesOne(cfg, s, t);
      ReachesJoin(cfg, r, s, t);
    }
    forall s, t | rel(s, t) && WorkInv(cfg, s) && (RulesUpwardClosed(cfg) || t.peer == s.peer)
      ensures WorkInv(cfg, t) && CoverageGrows(cfg, t.peer, s.db, t.db) && (Inv(cfg, s) ==> Inv(cfg, t))
    {
      ReachedIsSafe(cfg, s, t);
    }
  }

  lemma ReachedIsSafe(cfg: Config, s: System, t: System)
    requires ValidConfig(cfg) && Reaches(cfg, s, t) && WorkInv(cfg, s) && (RulesUpwardClosed(cfg) || t.peer == s.peer)
    ensures WorkInv(cfg, t) && CoverageGrows(cfg, t.peer, s.db, t.db) && (Inv(cfg, s) ==> Inv(cfg, t))
  {
    var run :| Path(cfg, run) && run[0] == s && run[|run| - 1] == t;
    if !RulesUpwardClosed(cfg) {
      SamePeerIsIdle(cfg, run);
    }
    PathIsSafe(cfg, run);
  }

  // ----- one loop among everything else -----

  /** The loop that is looked at. */
  datatype Thread = Polling | Repairing(id: nat) | Reconciling

  /** What only that loop changes: polling its request and its cursor, a repair its
      worker. */
  datatype Held = HeldPoll(poll: Poll, cursor: PeerState) | HeldWorker(worker: Option<Worker>) | HeldNothing

  function HeldBy(cfg: Config, me: Thread, s: System): Held {
    match me
    case Polling => HeldPoll(s.poll, s.db.Cursor(cfg.peer))
    case Repairing(id) => HeldWorker(if id in s.workers then Some(s.workers[id]) else None)
    case Reconciling => HeldNothing
  }

  /** A move of everything else. */
  ghost predicate Foreign(cfg: Config, rel: (System, System) -> bool, me: Thread, f: System -> System) {
    forall s {:trigger f(s)} :: rel(s, f(s)) && HeldBy(cfg, me, f(s)) == HeldBy(cfg, me, s)
  }

  /** The peer writes nothing and does not restart; this node goes on as it likes. */
  ghost predicate PeerIdle(others: seq<System -> System>) {
    forall i, s {:trigger others[i](s)} :: 0 <= i < |others| ==> others[i](s).peer == s.peer
  }

  /** The part of the database that belongs to this node's own files. */
  ghost predicate SameNode(a: Db, b: Db) {
    b.files == a.files && b.lastVersion == a.lastVersion && b.intents == a.intents && b.local == a.local
  }

  /** Nothing else writes or applies files on this node; peers, polls and repairs of other
      names go on as they like. */
  ghost predicate NodeIdle(others: seq<System -> System>) {
    forall i, s: System {:trigger others[i](s)} :: 0 <= i < |others| ==> SameNode(s.db, others[i](s).db)
  }

  /** What `ListManifest` may answer: the rows after `after` in name order, cut at
      `limit`. No name between `after` and the last one of the page is missing. */
  ghost predicate ManifestPage(files: map<string, FileMeta>, after: string, limit: nat, page: seq<FileMeta>) {
    && |page| <= limit
    && (forall i :: 0 <= i < |page| ==> page[i].name in files && files[page[i].name] == page[i])
    && NamesFollow(page, after)
    && (forall k :: k in files && Text.Before(after, k) && (|page| < limit || (page != [] && Text.Compare(k, page[|page| - 1].name) <= 0)) ==> files[k] in page)
  }

  /** The name that entry `i` has to come after. */
  function NameBefore(page: seq<FileMeta>, after: string, i: nat): string
    requires i <= |page|
  {
    if i == 0 then after else page[i - 1].name
  }

  ghost predicate NamesFollow(page: seq<FileMeta>, after: string) {
    forall i :: 0 <= i < |page| ==> Text.Before(NameBefore(page, after, i), page[i].name)
  }

  function VersionBefore(page: seq<FileMeta>, since: int, i: nat): int
    requires i <= |page|
  {
    if i == 0 then since else page[i - 1].version
  }

  ghost predicate VersionsFollow(page: seq<FileMeta>, since: int) {
    forall i :: 0 <= i < |page| ==> VersionBefore(page, since, i) < page[i].version
  }

  /** Refuses a page that does not move on from the cursor entry by entry. */
  method CheckVersions(page: seq<FileMeta>, since: int) returns (ok: bool)
    ensures ok <==> VersionsFollow(page, since)
  {
    var previous, i := since, 0;
    while i < |page|
      invariant 0 <= i <= |page|
      invariant previous == VersionBefore(page, since, i)
      invariant forall j :: 0 <= j < i ==> VersionBefore(page, since, j) < page[j].version
    {
      if page[i].version <= previous {
        return false;
      }
      previous, i := page[i].version, i + 1;
    }
    return true;
  }

  method CheckNames(page: seq<FileMeta>, after: string) returns (ok: bool)
    ensures ok <==> NamesFollow(page, after)
  {
    var names := seq(|page|, i requires 0 <= i < |page| => page[i].name);
    var before := (a, b) => Text.Before(a, b);
    ok := AllFollow(before, names, after);
    NamesFollowAlike(before, page, names, after);
    assert NamesFollow(page, after) <==> forall i :: 0 <= i < |page| ==> before(NameBefore(page, after, i), page[i].name);
  }

  lemma NamesFollowAlike(before: (string, string) -> bool, page: seq<FileMeta>, names: seq<string>, after: string)
    requires |names| == |page| && forall i :: 0 <= i < |page| ==> names[i] == page[i].name
    ensures (forall i :: 0 <= i < |names| ==> before(ItemBefore(names, after, i), names[i]))
       <==> (forall i :: 0 <= i < |page| ==> before(NameBefore(page, after, i), page[i].name))
  {
    assert forall i :: 0 <= i < |page| ==> ItemBefore(names, after, i) == NameBefore(page, after, i);
  }

  function ItemBefore<T>(items: seq<T>, after: T, i: nat): T
    requires i <= |items|
  {
    if i == 0 then after else items[i - 1]
  }

  /** ... in any order. */
  method AllFollow<T>(before: (T, T) -> bool, items: seq<T>, after: T) returns (ok: bool)
    ensures ok <==> forall i :: 0 <= i < |items| ==> before(ItemBefore(items, after, i), items[i])
  {
    var previous, i := after, 0;
    while i < |items|
      invariant 0 <= i <= |items|
      invariant previous == ItemBefore(items, after, i)
      invariant forall j :: 0 <= j < i ==> before(ItemBefore(items, after, j), items[j])
    {
      if !before(previous, items[i]) {
        return false;
      }
      previous, i := items[i], i + 1;
    }
    return true;
  }

  /** The entries this node may take at all. */
  method Usable(cfg: Config, entries: seq<FileMeta>) returns (usable: seq<FileMeta>)
    ensures forall m :: m in usable <==> m in entries && !cfg.excluded(m)
    ensures |usable| <= |entries|
  {
    usable := [];
    for i := 0 to |entries|
      invariant |usable| <= i
      invariant forall m :: m in usable <==> m in entries[..i] && !cfg.excluded(m)
    {
      if !cfg.excluded(entries[i]) {
        usable := usable + [entries[i]];
      }
    }
  }

  /** The entries that should replace what this node holds. */
  method NewerThanLocal(db: Db, damaged: set<string>, entries: seq<FileMeta>) returns (wanted: seq<FileMeta>)
    ensures forall m :: m in wanted <==> m in entries && Wanted(db, damaged, m)
    ensures |wanted| <= |entries|
  {
    wanted := [];
    for i := 0 to |entries|
      invariant |wanted| <= i
      invariant forall m :: m in wanted <==> m in entries[..i] && Wanted(db, damaged, m) == true
    {
      if Wanted(db, damaged, entries[i]) {
        wanted := wanted + [entries[i]];
      }
    }
  }

  /** What a poll reports: an error, a full queue, a cursor that was reset, or the
      number of changes that were recorded. */
  datatype Polled = Failed | Full | Restarted | Fetched(count: nat)

  lemma PollIsNext(cfg: Config, s: System, t: System)
    requires PollStep(cfg, s, t)
    ensures Next(cfg, s, t) == true
  {
  }

  /** A page to work on: it was asked for from the cursor `from`, it belongs to the
      same stream, and the cursor names that stream. */
  ghost predicate AtHand(cfg: Config, from: PeerState, s: System) {
    && s.poll.Answered? && s.poll.state == from
    && !NeedsCursorReset(from, s.poll.epoch, s.poll.peerMax)
    && s.db.Cursor(cfg.peer) == PeerState(from.version, s.poll.epoch)
    && Readable(s.poll.page, from.version, cfg.batchLimit) == true
  }

  ghost predicate Readable(page: seq<FileMeta>, since: int, limit: nat) {
    VersionsFollow(page, since) && |page| <= limit && forall i :: 0 <= i < |page| ==> page[i].version >= 1
  }

  /** Pages of a well-formed peer pass the checks of the reader. */
  lemma ServedFollows(p: Peer, since: int, limit: nat, page: seq<FileMeta>)
    requires PeerValid(p) && ChangesPage(p.files, since, limit, page)
    ensures Readable(page, since, limit)
  {
  }

  lemma {:induction false} VersionsRise(page: seq<FileMeta>, since: int, i: nat, j: nat)
    requires VersionsFollow(page, since) && i <= j < |page|
    ensures since < page[i].version <= page[j].version
    decreases i + j
  {
    if i < j {
      assert VersionBefore(page, since, j) == page[j - 1].version;
      VersionsRise(page, since, i, j - 1);
    } else if i > 0 {
      VersionsRise(page, since, i - 1, i - 1);
    }
  }

  /** Reading a page moves the cursor to its last version. */
  lemma BatchMaxIsLast(page: seq<FileMeta>, since: int, limit: nat, batchMax: int)
    requires Readable(page, since, limit) && page != [] && IsBatchMax(page, |page|, batchMax) == true
    ensures batchMax == page[|page| - 1].version > since
  {
    forall i | 0 <= i < |page| ensures since < page[i].version <= page[|page| - 1].version {
      VersionsRise(page, since, i, |page| - 1);
    }
  }

  ghost predicate Selected(cfg: Config, db: Db, damaged: set<string>, page: seq<FileMeta>, batchMax: int, wanted: seq<FileMeta>) {
    exists latest :: Filtered(cfg, db, page, latest, damaged, batchMax, wanted)
  }

  /** Collapses a page and keeps what this node should take. */
  method Select(cfg: Config, db: Db, damaged: set<string>, page: seq<FileMeta>) returns (batchMax: int, wanted: seq<FileMeta>)
    ensures Selected(cfg, db, damaged, page, batchMax, wanted) == true
  {
    var latest;
    latest, batchMax := CollapseByName(page);
    var usable := Usable(cfg, latest);
    wanted := NewerThanLocal(db, damaged, usable);
    assert Filtered(cfg, db, page, latest, damaged, batchMax, wanted);
  }

  lemma SelectedBatchMax(cfg: Config, db: Db, damaged: set<string>, page: seq<FileMeta>, batchMax: int, wanted: seq<FileMeta>)
    requires Selected(cfg, db, damaged, page, batchMax, wanted)
    ensures IsBatchMax(page, |page|, batchMax) == true
  {
    var latest :| Filtered(cfg, db, page, latest, damaged, batchMax, wanted);
  }

  lemma AtHandStays(cfg: Config, s: System, t: System)
    requires s.poll.Answered? && AtHand(cfg, s.poll.state, s) && HeldBy(cfg, Polling, t) == HeldBy(cfg, Polling, s)
    ensures t.poll == s.poll && t.db.Cursor(cfg.peer) == s.db.Cursor(cfg.peer) && AtHand(cfg, t.poll.state, t) == true
  {
  }

  lemma SelectIsStep(cfg: Config, s: System, damaged: set<string>, batchMax: int, wanted: seq<FileMeta>)
    requires s.poll.Answered? && AtHand(cfg, s.poll.state, s) && s.poll.page != []
    requires Selected(cfg, s.db, damaged, s.poll.page, batchMax, wanted) == true
    ensures PollStep(cfg, s, s.(poll := Compared(s.poll.epoch, batchMax, wanted))) == true
    ensures batchMax == PageEnd(s.poll.state, s.poll.page) > s.poll.state.version
  {
    SelectedBatchMax(cfg, s.db, damaged, s.poll.page, batchMax, wanted);
    BatchMaxIsLast(s.poll.page, s.poll.state.version, cfg.batchLimit, batchMax);
    SelectedCompares(cfg, s, damaged, batchMax, wanted);
  }

  lemma SelectedCompares(cfg: Config, s: System, damaged: set<string>, batchMax: int, wanted: seq<FileMeta>)
    requires s.poll.Answered? && !NeedsCursorReset(s.poll.state, s.poll.epoch, s.poll.peerMax) && s.poll.page != []
    requires Selected(cfg, s.db, damaged, s.poll.page, batchMax, wanted)
    ensures PollCompares(cfg, s, s.(poll := Compared(s.poll.epoch, batchMax, wanted))) == true
  {
    var latest :| Filtered(cfg, s.db, s.poll.page, latest, damaged, batchMax, wanted);
  }

  /** A batch stops only at a limit that it would exceed. */
  lemma {:induction false} EnqueueFits(queue: map<RepairKey, RepairRow>, revision: nat, peer: string, metas: seq<FileMeta>, limit: nat)
    ensures var e := EnqueueAll(queue, revision, peer, metas, limit);
            && (e.full ==> limit > 0 && |PeerKeys(queue, peer)| + |metas| > limit)
            && |PeerKeys(e.queue, peer)| <= |PeerKeys(queue, peer)| + |metas|
    decreases |metas|
  {
    if metas != [] {
      var key := (peer, metas[0].name);
      var row := UpsertRow(queue, key, metas[0], revision + 1);
      EnqueueFits(queue, revision, peer, metas[1..], limit);
      EnqueueFits(queue[key := row], revision + 1, peer, metas[1..], limit);
      PeerKeysInsert(queue, key, row);
    }
  }

  /** What a poll of an idle peer reports and where it leaves the cursor, when the
      peer's next page after `from` is `page`. */
  ghost predicate PollEffect(peer: Peer, page: seq<FileMeta>, from: PeerState, peerMax: Option<int>, o: Polled, to: PeerState) {
    && (o.Restarted? ==> NeedsCursorReset(from, peer.incarnation, peerMax) && to == PeerState(0, peer.incarnation))
    && (o.Fetched? ==> !NeedsCursorReset(from, peer.incarnation, peerMax) && o.count == |page| && to == PeerState(PageEnd(from, page), peer.incarnation))
  }

  /** The rows of the peer that a cursor at `version` has not read. */
  function Unread(files: map<string, FileMeta>, version: int): set<string> {
    set k | k in files && files[k].version > version
  }

  /** Where a poll starts that resets first if it has to. */
  function StartOf(cursor: PeerState, epoch: string, peerMax: Option<int>): PeerState {
    if NeedsCursorReset(cursor, epoch, peerMax) then PeerState(0, epoch) else cursor
  }

  /** A cursor that an honest peer in the same incarnation does not reset. */
  lemma SafeCursorStays(cfg: Config, s: System, peerMax: Option<int>)
    requires Inv(cfg, s) && s.db.Cursor(cfg.peer).epoch == s.peer.incarnation
    requires peerMax.Some? ==> peerMax.value >= s.peer.lastVersion
    ensures !NeedsCursorReset(s.db.Cursor(cfg.peer), s.peer.incarnation, peerMax)
  {
  }

  /** A page that moves the cursor leaves fewer rows unread. */
  lemma FewerUnread(files: map<string, FileMeta>, from: PeerState, limit: nat, page: seq<FileMeta>)
    requires ChangesPage(files, from.version, limit, page) && page != []
    ensures |Unread(files, PageEnd(from, page))| < |Unread(files, from.version)|
  {
    var last := page[|page| - 1];
    assert Unread(files, last.version) <= Unread(files, from.version) - {last.name};
    SmallerSet(Unread(files, last.version), Unread(files, from.version), last.name);
  }

  lemma SmallerSet(a: set<string>, b: set<string>, x: string)
    requires a <= b - {x} && x in b
    ensures |a| < |b|
  {
    SubsetSize(a, b - {x});
  }

  lemma {:induction false} SubsetSize(a: set<string>, b: set<string>)
    requires a <= b
    ensures |a| <= |b|
    decreases |a|
  {
    if x :| x in a {
      SubsetSize(a - {x}, b - {x});
    }
  }

  /** An empty page means that everything was read, so everything is covered. */
  lemma EmptyPageCovers(cfg: Config, s: System, from: PeerState, k: string)
    requires Inv(cfg, s) && cfg.batchLimit > 0 && ChangesPage(s.peer.files, from.version, cfg.batchLimit, [])
    requires s.db.Cursor(cfg.peer) == PeerState(from.version, s.peer.incarnation) && k in s.peer.files
    ensures Covered(cfg, s.db, s.peer.files[k])
  {
  }

  lemma WorkerIsNext(cfg: Config, s: System, t: System, id: nat)
    requires WorkerStep(cfg, s, t, id)
    ensures Next(cfg, s, t) == true
  {
  }

  /** The state a worker should bring its name to: the greater of the queued one and the
      peer's current one. Without a usable answer only a queued deletion will do. */
  function StateToApply(cfg: Config, files: map<string, FileMeta>, answered: bool, item: RepairItem): Option<FileMeta> {
    var queued, name := item.row.meta, item.name;
    if answered && name !in files then Some(queued)
    else if answered && cfg.wellFormed(files[name]) then Some(if CompareMeta(queued, files[name]) > 0 then queued else files[name])
    else if queued.deleted then Some(queued)
    else None
  }

  /** This node has nothing left to do for a state. */
  predicate Settled(cfg: Config, db: Db, m: FileMeta) {
    cfg.excluded(m) || CompareState(Some(m), db.Row(m.name)) <= 0
  }

  /** The row as the worker took it is not in the queue; a newer one may be. */
  ghost predicate RowGone(db: Db, item: RepairItem) {
    (item.peer, item.name) in db.queue ==> db.queue[(item.peer, item.name)].revision != item.row.revision
  }

  /** The row that was taken with one more attempt counted, its state and revision as they
      were; any other row as it was. */
  function PutOffOnce(row: RepairRow, key: RepairKey, item: RepairItem): RepairRow {
    if key == (item.peer, item.name) && row.revision == item.row.revision then row.(attempts := row.attempts + 1) else row
  }

  /** A worker finishes only when nothing is left to do for its queued state: it is held
      here or, under rules that are not upward closed, the peer has moved on from it. */
  lemma FinishedIsDealt(cfg: Config, rel: (System, System) -> bool, r: System, s: System, id: nat)
    requires Safe(cfg, rel) && WorkInv(cfg, r) && rel(r, s) && (RulesUpwardClosed(cfg) || s.peer == r.peer)
    requires id in s.workers && s.workers[id].Finished?
    ensures Dealt(cfg, s.peer, s.db, s.workers[id].item.row.meta) && s.workers[id].item.row.meta.name == s.workers[id].item.name
  {
    assert WorkInv(cfg, s) && WorkerInv(cfg, s.peer, s.db, s.workers[id]);
  }

  lemma ResolveLeavesDealt(cfg: Config, s: System, t: System, id: nat)
    requires WorkerResolves(s, t, id) && Dealt(cfg, s.peer, s.db, s.workers[id].item.row.meta)
    ensures Dealt(cfg, t.peer, t.db, s.workers[id].item.row.meta) == true
  {
    assert forall n :: t.db.Row(n) == s.db.Row(n);
  }

  lemma SafeKeepsWork(cfg: Config, rel: (System, System) -> bool, r: System, s: System)
    requires Safe(cfg, rel) == true && WorkInv(cfg, r) == true && rel(r, s) && (RulesUpwardClosed(cfg) == true || s.peer == r.peer)
    ensures WorkInv(cfg, s) == true
  {
  }

  /** Whether the state is here already, is to be applied, or cannot be had for now. */
  datatype Decision = Held | Apply | PutOff

  /** What became of a queued name: applied and removed, put off, or left alone. */
  datatype Repaired = Resolved | Deferred | Stopped

  // ----- comparing manifests -----

  /** What came of one manifest page: it was compared and ends at `after`, it was
      empty, the request or the comparison failed, the peer has no manifest, or the page
      was malformed. */
  datatype Paged = More(after: string) | AtEnd | Interrupted | Unsupported | Refused

  /** Every row of the peer between two names is covered. */
  ghost predicate CoveredBetween(cfg: Config, db: Db, files: map<string, FileMeta>, from: string, to: string) {
    forall k :: k in files && Text.Before(from, k) && Text.Compare(k, to) <= 0 ==> Covered(cfg, db, files[k])
  }

  ghost predicate CoveredAfter(cfg: Config, db: Db, files: map<string, FileMeta>, from: string) {
    forall k :: k in files && Text.Before(from, k) ==> Covered(cfg, db, files[k])
  }

  lemma QueueableGrows(cfg: Config, s: System, damaged: set<string>, page: seq<FileMeta>, usable: seq<FileMeta>, wanted: seq<FileMeta>)
    requires ValidConfig(cfg)
    requires forall m :: m in usable <==> m in page && !cfg.excluded(m)
    requires forall m :: m in wanted <==> m in usable && Wanted(s.db, damaged, m)
    ensures Next(cfg, s, s.(db := Enqueue(s.db, cfg.peer, wanted, cfg.repairLimit))) == true
  {
    assert QueueGrows(cfg, s, s.(db := Enqueue(s.db, cfg.peer, wanted, cfg.repairLimit)), wanted);
  }

  /** A manifest page that is recorded in full is covered. */
  lemma PageCovered(cfg: Config, db: Db, damaged: set<string>, page: seq<FileMeta>, usable: seq<FileMeta>, wanted: seq<FileMeta>, m: FileMeta)
    requires QueueInv(cfg, db) && m in page
    requires forall m :: m in usable <==> m in page && !cfg.excluded(m)
    requires forall m :: m in wanted <==> m in usable && Wanted(db, damaged, m)
    requires !EnqueueAll(db.queue, db.revision, cfg.peer, wanted, cfg.repairLimit).full
    ensures Covered(cfg, Enqueue(db, cfg.peer, wanted, cfg.repairLimit), m)
  {
    var db' := Enqueue(db, cfg.peer, wanted, cfg.repairLimit);
    assert db'.Row(m.name) == db.Row(m.name);
    if !cfg.excluded(m) && CompareState(Some(m), db.Row(m.name)) > 0 {
      EnqueueCovers(db.queue, db.revision, cfg.peer, wanted, cfg.repairLimit, m);
    }
  }

  lemma NothingBetween(cfg: Config, db: Db, files: map<string, FileMeta>, from: string)
    ensures CoveredBetween(cfg, db, files, from, from)
  {
    forall k | Text.Before(from, k) ensures Text.Compare(k, from) > 0 {
      Text.CompareFlip(k, from);
    }
  }

  lemma BetweenGrows(cfg: Config, peer: Peer, a: Db, b: Db, from: string, to: string)
    requires PeerValid(peer) && CoverageGrows(cfg, peer, a, b) && CoveredBetween(cfg, a, peer.files, from, to)
    ensures CoveredBetween(cfg, b, peer.files, from, to) == true
  {
    forall k | k in peer.files && Text.Before(from, k) && Text.Compare(k, to) <= 0 ensures Covered(cfg, b, peer.files[k]) {
      PeerRowStaysCovered(cfg, peer, a, b, k);
    }
  }

  lemma BetweenExtends(cfg: Config, db: Db, files: map<string, FileMeta>, from: string, after: string, limit: nat, page: seq<FileMeta>)
    requires CoveredBetween(cfg, db, files, from, after) && ManifestPage(files, after, limit, page) && page != []
    requires forall m :: m in page ==> Covered(cfg, db, m)
    ensures CoveredBetween(cfg, db, files, from, page[|page| - 1].name)
  {
    forall k | k in files && Text.Before(from, k) && Text.Compare(k, page[|page| - 1].name) <= 0 ensures Covered(cfg, db, files[k]) {
      Text.CompareFlip(k, after);
      if Text.Compare(k, after) > 0 {
        assert files[k] in page;
      }
    }
  }

  lemma BetweenCompletes(cfg: Config, db: Db, files: map<string, FileMeta>, from: string, after: string, limit: nat)
    requires CoveredBetween(cfg, db, files, from, after) && ManifestPage(files, after, limit, []) && limit > 0
    ensures CoveredAfter(cfg, db, files, from)
  {
    forall k | k in files && Text.Before(from, k) ensures Covered(cfg, db, files[k]) {
      Text.CompareFlip(k, after);
    }
  }

  /** The names of the peer a pass has yet to see. */
  function Unseen(files: map<string, FileMeta>, after: string): set<string> {
    set k | k in files && Text.Before(after, k)
  }

  lemma LaterUnseen(files: map<string, FileMeta>, after: string, last: string, k: string)
    requires Text.Before(after, last) && k in Unseen(files, last)
    ensures k in Unseen(files, after) && k != last
  {
    Text.BeforeTransitive(after, last, k);
    Text.CompareZero(last, last);
  }

  lemma FewerUnseen(files: map<string, FileMeta>, after: string, last: string)
    requires last in files && Text.Before(after, last)
    ensures |Unseen(files, last)| < |Unseen(files, after)|
  {
    var a, b := Unseen(files, last), Unseen(files, after);
    assert last in b;
    forall k | k in a ensures k in b - {last} {
      LaterUnseen(files, after, last, k);
    }
    SmallerSet(a, b, last);
  }

  lemma NextEntryLeavesFewer(files: map<string, FileMeta>, after: string, page: seq<FileMeta>, i: nat)
    requires NamesFollow(page, after) && i < |page| && page[i].name in files
    ensures |Unseen(files, page[i].name)| < |Unseen(files, NameBefore(page, after, i))|
  {
    assert Text.Before(NameBefore(page, after, i), page[i].name);
    FewerUnseen(files, NameBefore(page, after, i), page[i].name);
  }

  /** Each entry of a page leaves one name fewer. */
  lemma {:induction false} EntriesLeaveFewer(files: map<string, FileMeta>, after: string, page: seq<FileMeta>, i: nat)
    requires NamesFollow(page, after) == true && i < |page| && forall j :: 0 <= j < |page| ==> page[j].name in files
    ensures |Unseen(files, page[i].name)| + i + 1 <= |Unseen(files, after)|
    decreases i
  {
    NextEntryLeavesFewer(files, after, page, i);
    if i > 0 {
      EntriesLeaveFewer(files, after, page, i - 1);
    }
  }

  lemma PageLeavesFewer(files: map<string, FileMeta>, after: string, limit: nat, page: seq<FileMeta>)
    requires ManifestPage(files, after, limit, page) == true && page != []
    ensures |Unseen(files, page[|page| - 1].name)| + |page| <= |Unseen(files, after)|
  {
    PageIsListed(files, after, limit, page);
    EntriesLeaveFewer(files, after, page, |page| - 1);
  }

  lemma PageIsListed(files: map<string, FileMeta>, after: string, limit: nat, page: seq<FileMeta>)
    requires ManifestPage(files, after, limit, page)
    ensures NamesFollow(page, after) == true && forall j :: 0 <= j < |page| ==> page[j].name in files
  {
  }

  /** Once every row of the peer is covered, the cursor is safe again, wherever it is. */
  lemma AllCoveredIsSafe(cfg: Config, s: System)
    requires CoveredAfter(cfg, s.db, s.peer.files, "") && "" !in s.peer.files
    requires s.db.Cursor(cfg.peer).epoch == s.peer.incarnation ==> s.db.Cursor(cfg.peer).version <= s.peer.lastVersion
    ensures CursorSafe(cfg, s)
  {
    forall k | k in s.peer.files ensures Covered(cfg, s.db, s.peer.files[k]) {
      assert Text.Before("", k);
    }
  }

  class Syncer {
    const cfg: Config
    /** How the peer announces its newest version, and how it cuts its change stream
        and its manifest into pages. */
    const maxHeader: Peer -> Option<int>
    const changes: (map<string, FileMeta>, int) -> seq<FileMeta>
    const manifest: (map<string, FileMeta>, string) -> seq<FileMeta>
    const manifestLimit: nat
    /** Older peers have no manifest. */
    const hasManifest: bool
    var world: System
    /** The name up to which the last comparison of manifests got. */
    var position: string
    /** What everything else does at the next points where it may. */
    var others: seq<System -> System>
    /** Whether the next requests and transactions succeed. */
    var fates: seq<bool>
    /** Any relation that steps keep, such as being reached by them. */
    ghost const rel: (System, System) -> bool

    constructor (cfg: Config, maxHeader: Peer -> Option<int>,
                 changes: (map<string, FileMeta>, int) -> seq<FileMeta>, manifest: (map<string, FileMeta>, string) -> seq<FileMeta>,
                 manifestLimit: nat, hasManifest: bool, world: System, position: string,
                 others: seq<System -> System>, fates: seq<bool>, ghost rel: (System, System) -> bool)
      ensures this.cfg == cfg && this.maxHeader == maxHeader && this.changes == changes && this.manifest == manifest
      ensures this.manifestLimit == manifestLimit && this.hasManifest == hasManifest && this.world == world && this.position == position
      ensures this.others == others && this.fates == fates && this.rel == rel
    {
      this.cfg, this.maxHeader, this.changes, this.manifest := cfg, maxHeader, changes, manifest;
      this.manifestLimit, this.hasManifest, this.world, this.position := manifestLimit, hasManifest, world, position;
      this.others, this.fates, this.rel := others, fates, rel;
    }

    ghost predicate Serves() {
      && (forall p: Peer, since: int :: PeerValid(p) ==> ChangesPage(p.files, since, cfg.batchLimit, changes(p.files, since)))
      && (forall p: Peer, after: string :: PeerValid(p) ==> ManifestPage(p.files, after, manifestLimit, manifest(p.files, after)))
    }

    ghost predicate Fair(me: Thread)
      reads `world, `others
    {
      Steps(cfg, rel) == true && PeerValid(world.peer) == true && Serves() == true
      && forall i :: 0 <= i < |others| ==> Foreign(cfg, rel, me, others[i]) == true
    }

    /** Nothing else moves and nothing fails. */
    predicate Quiescent()
      reads `others, `fates
    {
      others == [] && fates == []
    }

    /** Everything else moves once. */
    method Others(ghost me: Thread)
      requires Fair(me)
      modifies `world, `others
      ensures Fair(me) && rel(old(world), world) && HeldBy(cfg, me, world) == HeldBy(cfg, me, old(world))
      ensures others == if old(others) == [] then [] else old(others)[1..]
      ensures old(others) == [] ==> world == old(world)
      ensures PeerIdle(old(others)) == true ==> PeerIdle(others) == true && world.peer == old(world.peer)
      ensures NodeIdle(old(others)) == true ==> NodeIdle(others) == true && SameNode(old(world.db), world.db)
    {
      if others != [] {
        assert Foreign(cfg, rel, me, others[0]);
        world, others := others[0](world), others[1..];
      }
    }

    /** Whether the next request or transaction succeeds. */
    method Proceed() returns (ok: bool)
      modifies `fates
      ensures old(fates) == [] ==> ok && fates == []
    {
      if fates == [] {
        return true;
      }
      ok, fates := fates[0], fates[1..];
    }

    /** One effect of the loop itself. */
    method Take(t: System, ghost me: Thread)
      requires Fair(me) && Next(cfg, world, t)
      modifies `world
      ensures Fair(me) && rel(old(world), world) && world == t
    {
      Follow(cfg, rel, world, world, t);
      world := t;
    }

    // ----- polling -----

    method TakePoll(t: System)
      requires Fair(Polling) && PollStep(cfg, world, t)
      modifies `world
      ensures Fair(Polling) && rel(old(world), world) && world == t
    {
      PollIsNext(cfg, world, t);
      Take(t, Polling);
    }

    /** An error ends the poll; the cursor stays where it is. */
    method EndPoll()
      requires Fair(Polling)
      modifies `world
      ensures Fair(Polling) && rel(old(world), world) && world == old(world).(poll := Quiet)
    {
      TakePoll(world.(poll := Quiet));
    }

    /** Asks for the changes after the cursor. */
    method Ask() returns (ok: bool)
      requires Fair(Polling) && world.poll.Quiet?
      modifies `world, `others, `fates
      ensures Fair(Polling) && rel(old(world), world) && (old(fates) == [] ==> ok && fates == [])
      ensures PeerIdle(old(others)) == true ==> PeerIdle(others) == true && world.peer == old(world.peer)
      ensures world.db.Cursor(cfg.peer) == old(world.db.Cursor(cfg.peer))
      ensures world.poll == if ok then Asked(old(world.db.Cursor(cfg.peer))) else Quiet
    {
      Others(Polling);
      ok := Proceed();
      if ok {
        var t := world.(poll := Asked(world.db.Cursor(cfg.peer)));
        assert PollAsks(cfg, world, t);
        TakePoll(t);
      }
    }

    /** The peer answers with its incarnation and its next page. */
    method Answer() returns (ok: bool)
      requires Fair(Polling) && world.poll.Asked?
      modifies `world, `others, `fates
      ensures Fair(Polling) && rel(old(world), world) && (old(fates) == [] ==> ok && fates == [])
      ensures PeerIdle(old(others)) == true ==> PeerIdle(others) == true && world.peer == old(world.peer)
      ensures world.db.Cursor(cfg.peer) == old(world.db.Cursor(cfg.peer))
      ensures !ok ==> world.poll.Quiet?
      ensures ok ==>
        && world.poll == Answered(old(world.poll.state), world.peer.incarnation, maxHeader(world.peer), changes(world.peer.files, old(world.poll.state).version))
        && Readable(world.poll.page, world.poll.state.version, cfg.batchLimit) == true
    {
      Others(Polling);
      ok := Proceed();
      if !ok {
        EndPoll();
        return;
      }
      var state := world.poll.state;
      var t := world.(poll := Answered(state, world.peer.incarnation, maxHeader(world.peer), changes(world.peer.files, state.version)));
      assert Serves() && PeerAnswers(cfg, world, t);
      ServedFollows(world.peer, state.version, cfg.batchLimit, t.poll.page);
      TakePoll(t);
    }

    method Request() returns (ok: bool)
      requires Fair(Polling) && world.poll.Quiet?
      modifies `world, `others, `fates
      ensures Fair(Polling) && rel(old(world), world) && (old(fates) == [] ==> ok && fates == [])
      ensures PeerIdle(old(others)) == true ==> PeerIdle(others) == true && world.peer == old(world.peer)
      ensures world.db.Cursor(cfg.peer) == old(world.db.Cursor(cfg.peer))
      ensures !ok ==> world.poll.Quiet?
      ensures ok ==>
        && var from := old(world.db.Cursor(cfg.peer));
           && world.poll == Answered(from, world.peer.incarnation, maxHeader(world.peer), changes(world.peer.files, from.version))
           && Readable(world.poll.page, from.version, cfg.batchLimit) == true && world.poll.epoch != ""
    {
      ok := Ask();
      if ok {
        ok := Answer();
      }
    }

    /** Resets the cursor of a peer whose stream began anew, or remembers the
        incarnation of a peer met for the first time. */
    method Recognize() returns (o: Option<Polled>)
      requires Fair(Polling) && world.poll.Answered? && world.poll.epoch != ""
      requires world.db.Cursor(cfg.peer) == world.poll.state
      modifies `world, `others, `fates
      ensures Fair(Polling) && rel(old(world), world) && (old(fates) == [] ==> o != Some(Failed) && fates == [])
      ensures PeerIdle(old(others)) == true ==> PeerIdle(others) == true && world.peer == old(world.peer)
      ensures world.poll == if o.None? then old(world.poll) else Quiet
      ensures o == None || o == Some(Failed) || o == Some(Restarted)
      ensures var p := old(world.poll);
        (o == None ==> !NeedsCursorReset(p.state, p.epoch, p.peerMax)) && (o == Some(Restarted) ==> NeedsCursorReset(p.state, p.epoch, p.peerMax))
      ensures o == None ==> world.db.Cursor(cfg.peer) == PeerState(old(world.poll.state).version, old(world.poll.epoch))
      ensures o == Some(Failed) ==> world.db.Cursor(cfg.peer) == old(world.db.Cursor(cfg.peer))
      ensures o == Some(Restarted) ==> world.db.Cursor(cfg.peer) == PeerState(0, old(world.poll.epoch))
    {
      var p := world.poll;
      if NeedsCursorReset(p.state, p.epoch, p.peerMax) {
        Others(Polling);
        var ok := Proceed();
        if !ok {
          EndPoll();
          return Some(Failed);
        }
        var t := world.(db := SetPeerState(world.db, cfg.peer, PeerState(0, p.epoch)), poll := Quiet);
        assert PollResets(cfg, world, t);
        TakePoll(t);
        return Some(Restarted);
      }
      if p.state.epoch != p.epoch && p.epoch != "" {
        Others(Polling);
        var ok := Proceed();
        if !ok {
          EndPoll();
          return Some(Failed);
        }
        var t := world.(db := SetPeerState(world.db, cfg.peer, p.state.(epoch := p.epoch)));
        assert PollRecordsEpoch(cfg, world, t);
        TakePoll(t);
      }
      return None;
    }

    /** Decodes the page and checks it before any of it is used. */
    method Accept() returns (ok: bool)
      requires Fair(Polling) && world.poll.Answered?
      modifies `world, `fates
      ensures Fair(Polling) && rel(old(world), world) && world == (if ok then old(world) else old(world).(poll := Quiet))
      ensures old(fates) == [] && Readable(old(world.poll.page), old(world.poll.state).version, cfg.batchLimit) ==> ok && fates == []
    {
      assert rel(world, world);
      ok := Proceed();
      if ok {
        ok := CheckVersions(world.poll.page, world.poll.state.version);
      }
      ok := ok && |world.poll.page| <= cfg.batchLimit;
      if !ok {
        EndPoll();
      }
    }

    /** One request: a page at hand, or the end of the poll. */
    method Fetch() returns (o: Option<Polled>)
      requires Fair(Polling) && world.poll.Quiet?
      modifies `world, `others, `fates
      ensures Fair(Polling) && rel(old(world), world) && (old(fates) == [] ==> o != Some(Failed) && fates == [])
      ensures o == None || o == Some(Failed) || o == Some(Restarted)
      ensures if o.None? then AtHand(cfg, old(world.db.Cursor(cfg.peer)), world) else world.poll.Quiet?
      ensures o == Some(Failed) ==> world.db.Cursor(cfg.peer).version == old(world.db.Cursor(cfg.peer)).version
      ensures PeerIdle(old(others)) == true ==>
        && PeerIdle(others) == true && world.peer == old(world.peer)
        && (o == None ==> world.poll.epoch == world.peer.incarnation && world.poll.peerMax == maxHeader(world.peer) && world.poll.page == changes(world.peer.files, world.poll.state.version))
        && (o == Some(Restarted) ==>
              && NeedsCursorReset(old(world.db.Cursor(cfg.peer)), world.peer.incarnation, maxHeader(world.peer))
              && world.db.Cursor(cfg.peer) == PeerState(0, world.peer.incarnation))
    {
      var ok := Request();
      if !ok {
        return Some(Failed);
      }
      o := Recognize();
      if o.Some? {
        return;
      }
      ok := Accept();
      return if ok then None else Some(Failed);
    }

    method CompareNow(damaged: set<string>)
      requires Fair(Polling) && world.poll.Answered? && AtHand(cfg, world.poll.state, world) == true && world.poll.page != []
      modifies `world
      ensures Fair(Polling) && rel(old(world), world) && world == old(world).(poll := world.poll)
      ensures world.poll.Compared? && world.poll.epoch == old(world.poll.epoch)
      ensures world.poll.batchMax == PageEnd(old(world.poll.state), old(world.poll.page)) > old(world.poll.state).version
    {
      var batchMax, wanted := Select(cfg, world.db, damaged, world.poll.page);
      SelectIsStep(cfg, world, damaged, batchMax, wanted);
      TakePoll(world.(poll := Compared(world.poll.epoch, batchMax, wanted)));
    }

    /** Compares the page with the rows of this moment. */
    method Compare(damaged: set<string>) returns (ok: bool)
      requires Fair(Polling) && world.poll.Answered? && AtHand(cfg, world.poll.state, world) == true && world.poll.page != []
      modifies `world, `others, `fates
      ensures Fair(Polling) && rel(old(world), world) && (old(fates) == [] ==> ok && fates == [])
      ensures PeerIdle(old(others)) == true ==> PeerIdle(others) == true && world.peer == old(world.peer)
      ensures world.db.Cursor(cfg.peer) == old(world.db.Cursor(cfg.peer))
      ensures if !ok then world.poll.Quiet? else
        && world.poll.Compared? && world.poll.epoch == old(world.poll.epoch)
        && world.poll.batchMax == PageEnd(old(world.poll.state), old(world.poll.page)) > old(world.poll.state).version
    {
      Others(Polling);
      AtHandStays(cfg, old(world), world);
      ok := Proceed();
      if ok {
        CompareNow(damaged);
      } else {
        EndPoll();
      }
    }

    /** Records the whole batch as durable work, or stops where the queue is full. */
    method Record() returns (o: Option<Polled>)
      requires Fair(Polling) && world.poll.Compared?
      modifies `world, `others, `fates
      ensures Fair(Polling) && rel(old(world), world) && (old(fates) == [] ==> o != Some(Failed) && fates == [])
      ensures PeerIdle(old(others)) == true ==> PeerIdle(others) == true && world.peer == old(world.peer)
      ensures world.db.Cursor(cfg.peer) == old(world.db.Cursor(cfg.peer))
      ensures o == None || o == Some(Failed) || (o == Some(Full) && cfg.repairLimit > 0)
      ensures world.poll == if o.None? then Recorded(old(world.poll.epoch), old(world.poll.batchMax)) else Quiet
    {
      Others(Polling);
      var ok := Proceed();
      if !ok {
        EndPoll();
        return Some(Failed);
      }
      var wanted := world.poll.wanted;
      var full := EnqueueAll(world.db.queue, world.db.revision, cfg.peer, wanted, cfg.repairLimit).full;
      EnqueueFits(world.db.queue, world.db.revision, cfg.peer, wanted, cfg.repairLimit);
      var t := world.(db := Enqueue(world.db, cfg.peer, wanted, cfg.repairLimit),
                      poll := if full then Quiet else Recorded(world.poll.epoch, world.poll.batchMax));
      assert PollEnqueues(cfg, world, t);
      TakePoll(t);
      return if full then Some(Full) else None;
    }

    /** Moves the cursor over a batch that is recorded. */
    method Advance(from: PeerState) returns (ok: bool)
      requires Fair(Polling) && world.poll.Recorded? && world.poll.batchMax > from.version
      modifies `world, `others, `fates
      ensures Fair(Polling) && rel(old(world), world) && world.poll.Quiet? && (old(fates) == [] ==> ok && fates == [])
      ensures PeerIdle(old(others)) == true ==> PeerIdle(others) == true && world.peer == old(world.peer)
      ensures world.db.Cursor(cfg.peer) == if ok then PeerState(old(world.poll.batchMax), old(world.poll.epoch)) else old(world.db.Cursor(cfg.peer))
    {
      Others(Polling);
      ok := Proceed();
      if !ok {
        EndPoll();
        return;
      }
      var t := world.(db := SetPeerState(world.db, cfg.peer, PeerState(world.poll.batchMax, world.poll.epoch)), poll := Quiet);
      assert PollAdvances(cfg, world, t);
      TakePoll(t);
    }

    /** Takes in the page at hand. */
    method TakePage(damaged: set<string>) returns (o: Polled)
      requires Fair(Polling) && world.poll.Answered? && AtHand(cfg, world.poll.state, world)
      modifies `world, `others, `fates
      ensures Fair(Polling) && rel(old(world), world) && world.poll.Quiet?
      ensures old(fates) == [] ==> o != Failed && fates == []
      ensures o == Failed || (o == Full && cfg.repairLimit > 0) || o == Fetched(|old(world.poll.page)|)
      ensures PeerIdle(old(others)) == true ==> PeerIdle(others) == true && world.peer == old(world.peer)
      ensures world.db.Cursor(cfg.peer) ==
        if o.Fetched? then PeerState(PageEnd(old(world.poll.state), old(world.poll.page)), old(world.poll.epoch)) else old(world.db.Cursor(cfg.peer))
    {
      var from, count := world.poll.state, |world.poll.page|;
      if count == 0 {
        EndPoll();
        return Fetched(0);
      }
      var ok := Compare(damaged);
      if !ok {
        return Failed;
      }
      var stop := Record();
      if stop.Some? {
        return stop.value;
      }
      ok := Advance(from);
      return if ok then Fetched(count) else Failed;
    }

    /** Fetches and records one batch. The cursor moves only over a batch that is
        recorded in full, whatever else happens meanwhile. */
    method SyncBatch(damaged: set<string>) returns (o: Polled)
      requires Fair(Polling) && world.poll.Quiet?
      modifies `world, `others, `fates
      ensures Fair(Polling) && rel(old(world), world) && world.poll.Quiet?
      ensures old(fates) == [] ==> o != Failed && fates == []
      ensures o.Full? ==> cfg.repairLimit > 0
      ensures o.Failed? || o.Full? ==> world.db.Cursor(cfg.peer).version == old(world.db.Cursor(cfg.peer)).version
      ensures PeerIdle(old(others)) == true ==>
        && PeerIdle(others) == true && world.peer == old(world.peer)
        && var from := old(world.db.Cursor(cfg.peer));
           PollEffect(world.peer, changes(world.peer.files, from.version), from, maxHeader(world.peer), o, world.db.Cursor(cfg.peer))
    {
      var stop := Fetch();
      if stop.Some? {
        return stop.value;
      }
      o := TakePage(damaged);
    }

    /** One batch, after one reset at most. */
    method SyncOnce(damaged: set<string>) returns (o: Polled)
      requires Fair(Polling) && world.poll.Quiet?
      modifies `world, `others, `fates
      ensures Fair(Polling) && rel(old(world), world) && world.poll.Quiet?
      ensures old(fates) == [] ==> o != Failed && fates == []
      ensures o.Full? ==> cfg.repairLimit > 0
      ensures PeerIdle(old(others)) == true ==>
        && PeerIdle(others) == true && world.peer == old(world.peer) && !o.Restarted?
        && var from := StartOf(old(world.db.Cursor(cfg.peer)), world.peer.incarnation, maxHeader(world.peer));
           PollEffect(world.peer, changes(world.peer.files, from.version), from, maxHeader(world.peer), o, world.db.Cursor(cfg.peer))
    {
      o := SyncBatch(damaged);
      if o.Restarted? {
        o := SyncBatch(damaged);
      }
    }

    /** Polls until a page comes back empty. If the peer is idle meanwhile, this ends,
        and then every state of the peer is covered, whatever this node's other loops
        do; without errors and with room in the queue it always gets there. */
    method CatchUp(damaged: set<string>) returns (drained: bool)
      requires Fair(Polling) && Safe(cfg, rel) && Inv(cfg, world) && world.poll.Quiet? && PeerIdle(others) && cfg.batchLimit > 0
      requires maxHeader(world.peer).Some? ==> maxHeader(world.peer).value >= world.peer.lastVersion
      modifies `world, `others, `fates
      ensures Fair(Polling) && rel(old(world), world) && Inv(cfg, world) && world.poll.Quiet? && world.peer == old(world.peer)
      ensures old(fates) == [] && cfg.repairLimit == 0 ==> drained
      ensures drained ==> forall k :: k in world.peer.files ==> Covered(cfg, world.db, world.peer.files[k])
    {
      ghost var start, peer := world, world.peer;
      while true
        invariant Fair(Polling) && rel(start, world) && Inv(cfg, world) == true && world.poll.Quiet? && PeerIdle(others) == true && world.peer == peer
        invariant old(fates) == [] ==> fates == []
        decreases if world.db.Cursor(cfg.peer).epoch == peer.incarnation then 0 else 1, |Unread(peer.files, world.db.Cursor(cfg.peer).version)|
      {
        ghost var from := StartOf(world.db.Cursor(cfg.peer), peer.incarnation, maxHeader(peer));
        ghost var page := changes(peer.files, from.version);
        assert Serves() && ChangesPage(peer.files, from.version, cfg.batchLimit, page);
        if world.db.Cursor(cfg.peer).epoch == peer.incarnation {
          SafeCursorStays(cfg, world, maxHeader(peer));
        }
        var o := SyncOnce(damaged);
        assert Safe(cfg, rel) && WorkInv(cfg, world) && Inv(cfg, world);
        if !o.Fetched? {
          return false;
        }
        if o.count == 0 {
          forall k | k in world.peer.files ensures Covered(cfg, world.db, world.peer.files[k]) {
            EmptyPageCovers(cfg, world, from, k);
          }
          return true;
        }
        FewerUnread(peer.files, from, cfg.batchLimit, page);
      }
    }

    // ----- repairing one name -----

    method TakeWorker(t: System, id: nat)
      requires Fair(Repairing(id)) && WorkerStep(cfg, world, t, id)
      modifies `world
      ensures Fair(Repairing(id)) && rel(old(world), world) && world == t
    {
      WorkerIsNext(cfg, world, t, id);
      Take(t, Repairing(id));
    }

    /** The worker ends and its row stays as it is. */
    method StopRepair(id: nat) returns (r: Repaired)
      requires Fair(Repairing(id)) && id in world.workers
      modifies `world
      ensures Fair(Repairing(id)) && rel(old(world), world) && id !in world.workers && r == Stopped && world.db == old(world.db)
    {
      var t := world.(workers := world.workers - {id});
      assert WorkerStops(world, t, id);
      TakeWorker(t, id);
      return Stopped;
    }

    /** Removes the row the worker took, if it is still that row. */
    method ResolveRepair(id: nat) returns (r: Repaired)
      requires Fair(Repairing(id)) && id in world.workers && world.workers[id].Finished?
      modifies `world, `others, `fates
      ensures Fair(Repairing(id)) && rel(old(world), world) && id !in world.workers && (r == Resolved || r == Stopped)
      ensures NodeIdle(old(others)) == true ==> SameNode(old(world.db), world.db)
      ensures old(fates) == [] ==> r == Resolved && fates == []
      ensures var item := old(world.workers[id].item); r == Resolved ==>
        && RowGone(world.db, item)
        && (Safe(cfg, rel) == true && WorkInv(cfg, old(world)) == true && (RulesUpwardClosed(cfg) == true || PeerIdle(old(others)) == true) ==>
              Dealt(cfg, world.peer, world.db, item.row.meta) == true)
    {
      Others(Repairing(id));
      var ok := Proceed();
      if !ok {
        r := StopRepair(id);
        return;
      }
      var t := world.(db := Resolve(world.db, world.workers[id].item), workers := world.workers - {id});
      if Safe(cfg, rel) == true && WorkInv(cfg, old(world)) == true && (RulesUpwardClosed(cfg) == true || PeerIdle(old(others)) == true) {
        FinishedIsDealt(cfg, rel, old(world), world, id);
        ResolveLeavesDealt(cfg, world, t, id);
      }
      assert WorkerResolves(world, t, id);
      TakeWorker(t, id);
      return Resolved;
    }

    /** Puts the row off, if it is still the one the worker took: `before` is what the others
        had made of the world by then. */
    method DeferRepair(id: nat) returns (r: Repaired, ghost before: System)
      requires Fair(Repairing(id)) && id in world.workers && !world.workers[id].Finished?
      modifies `world, `others, `fates
      ensures Fair(Repairing(id)) && rel(old(world), world) && id !in world.workers && (r == Deferred || r == Stopped)
      ensures NodeIdle(old(others)) == true ==> SameNode(old(world.db), world.db)
      ensures old(fates) == [] ==> r == Deferred && fates == []
      ensures rel(old(world), before) && (old(others) == [] ==> before == old(world))
      ensures var item := old(world.workers[id].item); r == Deferred ==>
        && world.db == before.db.(queue := world.db.queue) && world.db.queue.Keys == before.db.queue.Keys
        && forall k :: k in before.db.queue ==> world.db.queue[k] == PutOffOnce(before.db.queue[k], k, item)
    {
      Others(Repairing(id));
      before := world;
      var ok := Proceed();
      if !ok {
        r := StopRepair(id);
        return;
      }
      var t := world.(db := Defer(world.db, world.workers[id].item), workers := world.workers - {id});
      assert WorkerDefers(world, t, id);
      TakeWorker(t, id);
      r := Deferred;
    }

    /** The row is done without asking the peer if this node holds its state already. */
    method SkipHeld(id: nat) returns (held: bool)
      requires Fair(Repairing(id)) && id in world.workers && world.workers[id].Took?
      modifies `world, `others, `fates
      ensures Fair(Repairing(id)) && rel(old(world), world)
      ensures PeerIdle(old(others)) == true ==> PeerIdle(others) == true && world.peer == old(world.peer)
      ensures NodeIdle(old(others)) == true ==> NodeIdle(others) == true && SameNode(old(world.db), world.db)
      ensures var item := old(world.workers[id].item);
        && id in world.workers && world.workers[id] == (if held then Finished(item) else Took(item))
        && (old(Quiescent()) ==>
              && Quiescent() && world == old(world).(workers := world.workers)
              && (held <==> CompareState(Some(item.row.meta), world.db.Row(item.name)) <= 0))
    {
      Others(Repairing(id));
      var item := world.workers[id].item;
      var ok := Proceed();
      held := ok && CompareState(Some(item.row.meta), world.db.Row(item.name)) <= 0;
      if held {
        var t := world.(workers := world.workers[id := Finished(item)]);
        assert WorkerSkips(world, t, id);
        TakeWorker(t, id);
      }
    }

    /** Chooses the greater of the queued state and the one the peer has now. Only a
        queued deletion can do without an answer. */
    method ChooseState(id: nat) returns (chosen: bool)
      requires Fair(Repairing(id)) && id in world.workers && world.workers[id].Took?
      modifies `world, `others, `fates
      ensures Fair(Repairing(id)) && rel(old(world), world)
      ensures PeerIdle(old(others)) == true ==> PeerIdle(others) == true && world.peer == old(world.peer)
      ensures NodeIdle(old(others)) == true ==> NodeIdle(others) == true && SameNode(old(world.db), world.db)
      ensures var item := old(world.workers[id].item);
        && id in world.workers && world.workers[id].item == item && (if chosen then world.workers[id].Chosen? else world.workers[id].Took?)
        && (old(Quiescent()) ==>
              && Quiescent() && world == old(world).(workers := world.workers)
              && StateToApply(cfg, world.peer.files, true, item) == if chosen then Some(world.workers[id].meta) else None)
    {
      Others(Repairing(id));
      var item := world.workers[id].item;
      var answered := Proceed();
      var meta := StateToApply(cfg, world.peer.files, answered, item);
      if meta.None? {
        return false;
      }
      var t := world.(workers := world.workers[id := Chosen(item, meta.value)]);
      assert WorkerFetches(cfg, world, t, id) || WorkerKeepsQueued(world, t, id);
      TakeWorker(t, id);
      return true;
    }

    /** Applying a state moves rows like everything else does. It reports success only
        for a state that is excluded here or that the row has reached. */
    method ApplyChosen(id: nat) returns (ok: bool)
      requires Fair(Repairing(id)) && id in world.workers && world.workers[id].Chosen?
      modifies `world, `others, `fates
      ensures Fair(Repairing(id)) && rel(old(world), world)
      ensures PeerIdle(old(others)) == true ==> PeerIdle(others) == true && world.peer == old(world.peer)
      ensures var w := old(world.workers[id]);
        id in world.workers && world.workers[id] == if ok then Finished(w.item) else w
    {
      Others(Repairing(id));
      ok := Proceed();
      ok := ok && Settled(cfg, world.db, world.workers[id].meta);
      if ok {
        FinishWorker(id);
      }
    }

    /** The chosen state is here, or is none that this node takes. */
    method FinishWorker(id: nat)
      requires Fair(Repairing(id)) && id in world.workers && world.workers[id].Chosen?
      requires Settled(cfg, world.db, world.workers[id].meta)
      modifies `world
      ensures Fair(Repairing(id)) && rel(old(world), world)
      ensures world == old(world).(workers := old(world.workers)[id := Finished(old(world.workers[id].item))])
    {
      var t := world.(workers := world.workers[id := Finished(world.workers[id].item)]);
      assert WorkerApplies(cfg, world, t, id);
      TakeWorker(t, id);
    }

    /** Rows move on this node. */
    method Absorb(db: Db, id: nat)
      requires Fair(Repairing(id)) && RowsRise(world, world.(db := db))
      modifies `world
      ensures Fair(Repairing(id)) && rel(old(world), world) && world == old(world).(db := db)
    {
      Take(world.(db := db), Repairing(id));
    }

    /** What an attempt does before anything is applied. */
    method Decide(id: nat, damaged: set<string>) returns (d: Decision)
      requires Fair(Repairing(id)) && id in world.workers && world.workers[id].Took?
      modifies `world, `others, `fates
      ensures Fair(Repairing(id)) && rel(old(world), world)
      ensures PeerIdle(old(others)) == true ==> PeerIdle(others) == true && world.peer == old(world.peer)
      ensures NodeIdle(old(others)) == true ==> NodeIdle(others) == true && SameNode(old(world.db), world.db)
      ensures var item := old(world.workers[id].item);
        && id in world.workers && world.workers[id].item == item
        && (d == Held ==> world.workers[id].Finished?) && (d == Apply ==> world.workers[id].Chosen?) && (d == PutOff ==> world.workers[id].Took?)
        && (old(Quiescent()) ==>
              && Quiescent() && world == old(world).(workers := world.workers)
              && (d == Held <==> item.name !in damaged && CompareState(Some(item.row.meta), world.db.Row(item.name)) <= 0)
              && (d != Held ==> StateToApply(cfg, world.peer.files, true, item) == if d == Apply then Some(world.workers[id].meta) else None))
    {
      if world.workers[id].item.name !in damaged {
        var held := SkipHeld(id);
        if held {
          return Held;
        }
      }
      var chosen := ChooseState(id);
      return if chosen then Apply else PutOff;
    }

    /** One attempt at a queued name. A row is removed only if it is still the one that
        was taken, and only once nothing is left to do for its state. */
    method RepairOne(id: nat, damaged: set<string>) returns (r: Repaired)
      requires Fair(Repairing(id)) && id in world.workers && world.workers[id].Took?
      modifies `world, `others, `fates
      ensures Fair(Repairing(id)) && rel(old(world), world) && id !in world.workers
      ensures var item := old(world.workers[id].item); r == Resolved ==>
        && RowGone(world.db, item)
        && (Safe(cfg, rel) == true && WorkInv(cfg, old(world)) == true && (RulesUpwardClosed(cfg) == true || PeerIdle(old(others)) == true) ==>
              Dealt(cfg, world.peer, world.db, item.row.meta) == true)
    {
      var d := Decide(id, damaged);
      var done := d == Held;
      if d == Apply {
        done := ApplyChosen(id);
      }
      r := Conclude(id, done, old(world));
    }

    /** Removes the row of a finished worker and puts off any other. */
    method Conclude(id: nat, done: bool, ghost start: System) returns (r: Repaired)
      requires Fair(Repairing(id)) && id in world.workers && rel(start, world)
      requires done <==> world.workers[id].Finished?
      modifies `world, `others, `fates
      ensures Fair(Repairing(id)) && rel(start, world) && id !in world.workers
      ensures old(fates) == [] ==> r == if done then Resolved else Deferred
      ensures NodeIdle(old(others)) == true ==> SameNode(old(world.db), world.db)
      ensures var item := old(world.workers[id].item); r == Resolved ==>
        && RowGone(world.db, item)
        && (Safe(cfg, rel) == true && WorkInv(cfg, start) == true && (RulesUpwardClosed(cfg) == true || (PeerIdle(old(others)) == true && old(world.peer) == start.peer)) ==>
              Dealt(cfg, world.peer, world.db, item.row.meta) == true)
    {
      if done {
        if Safe(cfg, rel) == true && WorkInv(cfg, start) == true && (RulesUpwardClosed(cfg) == true || world.peer == start.peer) {
          SafeKeepsWork(cfg, rel, start, world);
        }
        r := ResolveRepair(id);
      } else {
        ghost var before;
        r, before := DeferRepair(id);
      }
    }

    // ----- comparing manifests -----

    /** Queues what one manifest page has and this node should take. Where the cursor is
        and what the ignore rules are does not matter. */
    method ReconcilePage(page: seq<FileMeta>, damaged: set<string>) returns (full: bool)
      requires Fair(Reconciling) && ValidConfig(cfg)
      modifies `world
      ensures Fair(Reconciling) && rel(old(world), world) && world == old(world).(db := world.db)
      ensures full ==> cfg.repairLimit > 0 && |PeerKeys(old(world.db.queue), cfg.peer)| + |page| > cfg.repairLimit
      ensures |PeerKeys(world.db.queue, cfg.peer)| <= |PeerKeys(old(world.db.queue), cfg.peer)| + |page|
      ensures world.db.cursors == old(world.db.cursors)
      ensures old(QueueInv(cfg, world.db)) && !full ==> forall m :: m in page ==> Covered(cfg, world.db, m)
    {
      var usable := Usable(cfg, page);
      var wanted := NewerThanLocal(world.db, damaged, usable);
      full := EnqueueAll(world.db.queue, world.db.revision, cfg.peer, wanted, cfg.repairLimit).full;
      EnqueueFits(world.db.queue, world.db.revision, cfg.peer, wanted, cfg.repairLimit);
      QueueableGrows(cfg, world, damaged, page, usable, wanted);
      if !full && QueueInv(cfg, world.db) {
        forall m | m in page ensures Covered(cfg, Enqueue(world.db, cfg.peer, wanted, cfg.repairLimit), m) {
          PageCovered(cfg, world.db, damaged, page, usable, wanted, m);
        }
      }
      Take(world.(db := Enqueue(world.db, cfg.peer, wanted, cfg.repairLimit)), Reconciling);
    }

    method SavePosition(name: string) returns (ok: bool)
      modifies `position, `fates
      ensures position == if ok then name else old(position)
      ensures old(fates) == [] ==> ok && fates == []
    {
      ok := Proceed();
      if ok {
        position := name;
      }
    }

    /** What a pass that got from `from` to `to` has seen to, while queue and workers are in
        order and the peer is idle. */
    ghost predicate SeenTo(idle: bool, peer: Peer, from: string, to: string)
      reads `world, `others
    {
      idle ==> PeerIdle(others) && world.peer == peer && WorkInv(cfg, world) && CoveredBetween(cfg, world.db, peer.files, from, to)
    }

    /** The rest of the pass cannot fill the queue. */
    ghost predicate Roomy(after: string)
      reads `world, `others
    {
      cfg.repairLimit == 0 || (others == [] && |PeerKeys(world.db.queue, cfg.peer)| + |Unseen(world.peer.files, after)| <= cfg.repairLimit)
    }

    /** Everything else moves while a page is fetched or compared. */
    method Wait(ghost idle: bool, ghost peer: Peer, ghost from: string, ghost to: string)
      requires Fair(Reconciling) && Safe(cfg, rel) == true && SeenTo(idle, peer, from, to) == true
      modifies `world, `others
      ensures Fair(Reconciling) && rel(old(world), world) && SeenTo(idle, peer, from, to) == true
      ensures others == if old(others) == [] then [] else old(others)[1..]
      ensures old(others) == [] ==> world == old(world)
    {
      Others(Reconciling);
      if idle {
        assert rel(old(world), world) && WorkInv(cfg, world) && CoverageGrows(cfg, world.peer, old(world.db), world.db);
        BetweenGrows(cfg, peer, old(world.db), world.db, from, to);
      }
    }

    /** Compares one page that was listed after `after`. */
    method CompareListed(page: seq<FileMeta>, damaged: set<string>, ghost idle: bool, ghost peer: Peer, ghost from: string, ghost after: string) returns (ok: bool)
      requires Fair(Reconciling) && Safe(cfg, rel) == true && ValidConfig(cfg) == true && page != []
      requires SeenTo(idle, peer, from, after) == true && ManifestPage(world.peer.files, after, manifestLimit, page) == true
      modifies `world, `others, `fates
      ensures Fair(Reconciling) && rel(old(world), world)
      ensures others == if old(others) == [] then [] else old(others)[1..]
      ensures old(others) == [] ==> world.peer == old(world.peer) && world.db.cursors == old(world.db.cursors)
      ensures old(fates) == [] ==> fates == [] && (old(Roomy(after)) == true ==> ok && Roomy(page[|page| - 1].name) == true)
      ensures SeenTo(idle, peer, from, if ok then page[|page| - 1].name else after) == true
    {
      PageLeavesFewer(world.peer.files, after, manifestLimit, page);
      Wait(idle, peer, from, after);
      ok := Proceed();
      if !ok {
        return;
      }
      ghost var before := world;
      var full := ReconcilePage(page, damaged);
      if idle {
        assert rel(before, world) && WorkInv(cfg, world) && CoverageGrows(cfg, world.peer, before.db, world.db);
        BetweenGrows(cfg, peer, before.db, world.db, from, after);
        if !full {
          BetweenExtends(cfg, world.db, peer.files, from, after, manifestLimit, page);
        }
      }
      return !full;
    }

    /** Fetches the page after `after`. */
    method ListNext(after: string, ghost idle: bool, ghost peer: Peer, ghost from: string) returns (o: Paged, page: seq<FileMeta>)
      requires Fair(Reconciling) && Safe(cfg, rel) == true && SeenTo(idle, peer, from, after) == true
      modifies `world, `others, `fates
      ensures Fair(Reconciling) && rel(old(world), world) && SeenTo(idle, peer, from, after) == true
      ensures others == if old(others) == [] then [] else old(others)[1..]
      ensures old(others) == [] ==> world == old(world)
      ensures old(fates) == [] ==> fates == [] && (hasManifest ==> o.More?)
      ensures o.More? ==> ManifestPage(world.peer.files, after, manifestLimit, page) == true
      ensures !o.AtEnd?
    {
      Wait(idle, peer, from, after);
      var ok := Proceed();
      if !ok {
        return Interrupted, [];
      }
      if !hasManifest {
        return Unsupported, [];
      }
      page := manifest(world.peer.files, after);
      assert Serves() && ManifestPage(world.peer.files, after, manifestLimit, page);
      ok := CheckNames(page, after);
      if !ok || |page| > manifestLimit {
        return Refused, page;
      }
      return More(after), page;
    }

    /** Fetches and compares the page after `after`. */
    method ReconcileNext(after: string, damaged: set<string>, ghost idle: bool, ghost peer: Peer, ghost from: string) returns (o: Paged)
      requires Fair(Reconciling) && Safe(cfg, rel) == true && ValidConfig(cfg) == true && manifestLimit > 0
      requires SeenTo(idle, peer, from, after) == true
      modifies `world, `others, `fates
      ensures Fair(Reconciling) && rel(old(world), world)
      ensures SeenTo(idle, peer, from, if o.More? then o.after else after) == true
      ensures old(fates) == [] ==>
        fates == [] && (old(Roomy(after)) == true && hasManifest ==> o.AtEnd? || (o.More? && Roomy(o.after) == true))
      ensures o.AtEnd? && idle ==> CoveredAfter(cfg, world.db, peer.files, from) == true
      ensures old(others) == [] ==> others == [] && world.db.cursors == old(world.db.cursors)
      ensures o.More? ==> |others| < |old(others)| || (others == old(others) && |Unseen(world.peer.files, o.after)| < |Unseen(old(world.peer.files), after)|)
    {
      var page;
      o, page := ListNext(after, idle, peer, from);
      if !o.More? {
        return;
      }
      if page == [] {
        if idle {
          BetweenCompletes(cfg, world.db, peer.files, from, after, manifestLimit);
        }
        return AtEnd;
      }
      PageLeavesFewer(world.peer.files, after, manifestLimit, page);
      var ok := CompareListed(page, damaged, idle, peer, from, after);
      return if ok then More(page[|page| - 1].name) else Interrupted;
    }

    /** Remembers where a pass stopped. */
    method FinishPass(o: Paged, after: string) returns (completed: bool)
      modifies `position, `fates
      ensures old(fates) == [] ==> completed == o.AtEnd?
      ensures completed ==> o.AtEnd? && position == ""
      ensures position == "" || position == after || position == old(position)
    {
      completed := false;
      match o {
        case AtEnd => completed := SavePosition("");
        case Unsupported => var _ := SavePosition("");
        case Refused =>
        case Interrupted => var _ := SavePosition(after);
        case More(_) => var _ := SavePosition(after);
      }
    }

    /** Walks the peer's manifest from the stored position, for any cursor and any ignore
        rules. If the peer is idle meanwhile and no worker is past its due, every row from
        there to the new position is covered, and in a completed pass every row after the
        old one, whatever this node's other loops do; a pass over the whole manifest makes
        the cursor safe. Without errors, a page budget or too small a queue it completes. */
    method ReconcileOnce(budget: nat, damaged: set<string>) returns (completed: bool)
      requires Fair(Reconciling) && Safe(cfg, rel) == true && ValidConfig(cfg) == true && manifestLimit > 0
      modifies `world, `others, `fates, `position
      ensures Fair(Reconciling) && rel(old(world), world)
      ensures old(fates) == [] && budget == 0 && old(Roomy(position)) == true && hasManifest ==> completed
      ensures completed ==> position == ""
      ensures old(others) == [] ==> world.db.cursors == old(world.db.cursors)
      ensures PeerIdle(old(others)) == true && WorkInv(cfg, old(world)) == true ==>
        && world.peer == old(world.peer) && WorkInv(cfg, world) == true
        && (completed ==> CoveredAfter(cfg, world.db, world.peer.files, old(position)) == true)
        && (position != "" ==> CoveredBetween(cfg, world.db, world.peer.files, old(position), position) == true)
    {
      ghost var start, peer, from := world, world.peer, position;
      ghost var idle := PeerIdle(others) && WorkInv(cfg, world);
      var after, pages := position, 0;
      var o := More(after);
      assert rel(start, world);
      NothingBetween(cfg, world.db, peer.files, from);
      while o.More? && (budget == 0 || pages < budget)
        invariant Fair(Reconciling) && rel(start, world)
        invariant SeenTo(idle, peer, from, after) == true && position == from
        invariant old(others) == [] ==> others == [] && world.db.cursors == start.db.cursors
        invariant old(fates) == [] ==> fates == [] && (old(Roomy(position)) == true && hasManifest ==> o.AtEnd? || (o.More? && Roomy(after) == true))
        invariant o.AtEnd? && idle ==> CoveredAfter(cfg, world.db, peer.files, from) == true
        decreases o.More?, |others|, |Unseen(world.peer.files, after)|
      {
        o := ReconcileNext(after, damaged, idle, peer, from);
        after := if o.More? then o.after else after;
        pages := pages + 1;
      }
      NothingBetween(cfg, world.db, peer.files, from);
      completed := FinishPass(o, after);
    }
  }

  lemma OneUnseen(files: map<string, FileMeta>, name: string)
    requires files.Keys == {name}
    ensures |Unseen(files, "")| <= 1
  {
    SubsetSize(Unseen(files, ""), {name});
  }

  /** The row that `CursorUnsafe` loses is found again: one pass from there queues it, and
      the cursor is safe. */
  method ReconciliationFindsPassed(syncer: Syncer, low: FileMeta) returns (completed: bool)
    requires syncer.world == Passed(syncer.cfg, low) && low.name != "" && !syncer.cfg.excluded(low) && ValidConfig(syncer.cfg)
    requires syncer.Fair(Reconciling) && Safe(syncer.cfg, syncer.rel) == true && syncer.manifestLimit > 0 && syncer.hasManifest
    requires syncer.others == [] && syncer.fates == [] && syncer.position == ""
    modifies syncer
    ensures completed && syncer.rel(Passed(syncer.cfg, low), syncer.world)
    ensures CursorSafe(syncer.cfg, syncer.world) && !CursorSafe(syncer.cfg, Passed(syncer.cfg, low))
    ensures Covered(syncer.cfg, syncer.world.db, low.(version := 1))
  {
    var cfg := syncer.cfg;
    PassedIsLost(cfg, low);
    OneUnseen(syncer.world.peer.files, low.name);
    assert PeerKeys(syncer.world.db.queue, cfg.peer) == {};
    completed := syncer.ReconcileOnce(0, {});
    AllCoveredIsSafe(cfg, syncer.world);
  }
}
