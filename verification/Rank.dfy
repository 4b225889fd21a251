/** The order of replicated states, which every node computes alike. */
module Rank {
  import opened Meta
  import opened Clock
  import opened Conflicts
  import Text

  /** A namespace tombstone ranks as the live state that displaced it. */
  predicate RanksLive(m: FileMeta) {
    !m.deleted || m.supersededBy != ""
  }

  /** The name whose content a state stands for. */
  function Owner(m: FileMeta): string {
    if m.supersededBy != "" then m.supersededBy else m.name
  }

  function CompareMeta(a: FileMeta, b: FileMeta): int {
    if CompareClock(a, b) != 0 then CompareClock(a, b)
    else if a.modTime < b.modTime then -1
    else if a.modTime > b.modTime then 1
    else if RanksLive(a) != RanksLive(b) then (if !RanksLive(a) then -1 else 1)
    else if !RanksLive(a) then 0
    else if Text.Compare(a.hash, b.hash) != 0 then Text.Compare(a.hash, b.hash)
    else Text.Compare(Owner(a), Owner(b))
  }

  /** An absent state precedes everything. */
  function CompareState(a: Option<FileMeta>, b: Option<FileMeta>): int {
    match (a, b)
    case (None, None) => 0
    case (None, Some(_)) => -1
    case (Some(_), None) => 1
    case (Some(x), Some(y)) => CompareMeta(x, y)
  }

  predicate RemoteWins(local: Option<FileMeta>, remote: FileMeta) {
    CompareState(Some(remote), local) > 0
  }

  // ----- a total preorder over all states, validated or not -----

  lemma CompareClockFlip(a: FileMeta, b: FileMeta)
    ensures CompareClock(a, b) == -CompareClock(b, a)
  {
    Text.CompareFlip(a.bigClock, b.bigClock);
  }

  lemma CompareClockTransitive(a: FileMeta, b: FileMeta, c: FileMeta)
    requires CompareClock(a, b) <= 0 && CompareClock(b, c) <= 0
    ensures CompareClock(a, c) <= 0
    ensures CompareClock(a, c) == 0 ==> CompareClock(a, b) == 0 && CompareClock(b, c) == 0
  {
    if |a.bigClock| == |b.bigClock| == |c.bigClock| {
      Text.CompareTransitive(a.bigClock, b.bigClock, c.bigClock);
    }
  }

  lemma CompareStateFlip(a: Option<FileMeta>, b: Option<FileMeta>)
    ensures CompareState(a, b) == -CompareState(b, a)
  {
    if a.Some? && b.Some? {
      CompareClockFlip(a.value, b.value);
      Text.CompareFlip(a.value.hash, b.value.hash);
      Text.CompareFlip(Owner(a.value), Owner(b.value));
    }
  }

  lemma CompareMetaTransitive(a: FileMeta, b: FileMeta, c: FileMeta)
    requires CompareMeta(a, b) <= 0 && CompareMeta(b, c) <= 0
    ensures CompareMeta(a, c) <= 0
    ensures CompareMeta(a, c) == 0 ==> CompareMeta(a, b) == 0 && CompareMeta(b, c) == 0
  {
    CompareClockTransitive(a, b, c);
    if CompareClock(a, c) == 0 && a.modTime == b.modTime == c.modTime && RanksLive(a) && RanksLive(b) && RanksLive(c) {
      Text.CompareTransitive(a.hash, b.hash, c.hash);
      if Text.Compare(a.hash, c.hash) == 0 {
        Text.CompareTransitive(Owner(a), Owner(b), Owner(c));
      }
    }
  }

  lemma CompareStateTransitive(a: Option<FileMeta>, b: Option<FileMeta>, c: Option<FileMeta>)
    requires CompareState(a, b) <= 0 && CompareState(b, c) <= 0
    ensures CompareState(a, c) <= 0
    ensures CompareState(a, c) == 0 ==> CompareState(a, b) == 0 && CompareState(b, c) == 0
  {
    if a.Some? && b.Some? && c.Some? {
      CompareMetaTransitive(a.value, b.value, c.value);
    }
  }

  lemma CompareStateReflexive(a: Option<FileMeta>)
    ensures CompareState(a, a) == 0
  {
    CompareStateFlip(a, a);
  }

  /** Conflict settlement invents no rank: the tombstone it leaves at the losing
      name ties with the winner. */
  lemma SupersededTiesWithWinner(name: string, winner: FileMeta)
    requires !winner.deleted && winner.supersededBy == "" && winner.name != ""
    requires ValidClock(winner)
    ensures CompareState(Some(Superseded(name, winner)), Some(winner)) == 0
    ensures ValidClock(Superseded(name, winner))
  {
    var t := Superseded(name, winner);
    CompareClockNumeric(t, winner);
    Text.CompareZero(t.hash, winner.hash);
    Text.CompareZero(Owner(t), Owner(winner));
  }

  // ----- what a tie means for validated states of one name -----

  predicate IsSHA256Hex(h: string) {
    |h| == 64 && forall i :: 0 <= i < |h| ==> '0' <= h[i] <= '9' || 'a' <= h[i] <= 'f'
  }

  predicate ReservedPart(part: string) {
    ".birak-tmp-" <= part || ".birak-bak-" <= part
  }

  ghost predicate ValidSyncName(s: string) {
    && CanonicalName(s)
    && '\0' !in s
    && s != ".birak" && !Under(s, ".birak")
    && forall i, j :: IsComponent(s, i, j) ==> !ReservedPart(s[i..j])
  }

  /** `validateMetadata`: what a state must satisfy to be replicated at all. */
  ghost predicate ValidMetadata(m: FileMeta) {
    && ValidSyncName(m.name)
    && (!m.deleted ==> 0 <= m.size < MAX_INT64 && IsSHA256Hex(m.hash))
    && ValidClock(m)
    && (m.supersededBy != "" ==>
          && m.deleted && m.size == 0 && IsSHA256Hex(m.hash)
          && NamespaceConflict(m.name, m.supersededBy)
          && ValidSyncName(m.supersededBy))
    && (m.conflictOf != "" ==>
          && !m.deleted
          && m.name == ConflictCopyName(m.conflictOf, m.hash)
          && ValidSyncName(m.conflictOf))
  }

  /** The rows two nodes may end with: same clock and mtime, and either both plainly
      deleted or the same content standing for the same name, both live or both
      displaced by it. */
  ghost predicate Equivalent(a: FileMeta, b: FileMeta) {
    && ValidClock(a) && ValidClock(b)
    && ClockValue(a) == ClockValue(b) && a.bigClock == b.bigClock && a.modTime == b.modTime
    && a.deleted == b.deleted && a.supersededBy == b.supersededBy
    && (RanksLive(a) ==> a.hash == b.hash)
  }

  lemma TieMeansEquivalent(a: FileMeta, b: FileMeta)
    requires ValidMetadata(a) && ValidMetadata(b) && a.name == b.name
    ensures CompareState(Some(a), Some(b)) == 0 <==> Equivalent(a, b)
  {
    CompareClockNumeric(a, b);
    Text.CompareZero(a.bigClock, b.bigClock);
    Text.CompareZero(a.hash, b.hash);
    Text.CompareZero(Owner(a), Owner(b));
  }

  // ----- convergence -----

  /** Applying one received state to a row. */
  function Merge(row: Option<FileMeta>, remote: FileMeta): Option<FileMeta> {
    if RemoteWins(row, remote) then Some(remote) else row
  }

  function MergeAll(row: Option<FileMeta>, updates: seq<FileMeta>): Option<FileMeta>
    decreases |updates|
  {
    if updates == [] then row else MergeAll(Merge(row, updates[0]), updates[1..])
  }

  /** The row left by any order of updates is one of the states seen, and none of
      them ranks above it. */
  lemma {:induction false} MergeAllIsGreatest(row: Option<FileMeta>, updates: seq<FileMeta>)
    ensures MergeAll(row, updates) == row || exists i :: 0 <= i < |updates| && MergeAll(row, updates) == Some(updates[i])
    ensures CompareState(row, MergeAll(row, updates)) <= 0
    ensures forall i :: 0 <= i < |updates| ==> CompareState(Some(updates[i]), MergeAll(row, updates)) <= 0
    decreases |updates|
  {
    if updates == [] {
      CompareStateReflexive(row);
    } else {
      var u, mid, last := Some(updates[0]), Merge(row, updates[0]), MergeAll(row, updates);
      MergeAllIsGreatest(mid, updates[1..]);
      CompareStateFlip(u, row);
      CompareStateReflexive(row);
      CompareStateReflexive(u);
      CompareStateTransitive(row, mid, last);
      CompareStateTransitive(u, mid, last);
      forall i | 0 <= i < |updates|
        ensures CompareState(Some(updates[i]), last) <= 0
      {
        if i > 0 {
          assert updates[i] == updates[1..][i - 1];
        }
      }
      if last != mid {
        var i :| 0 <= i < |updates[1..]| && last == Some(updates[1..][i]);
        assert last == Some(updates[i + 1]);
      } else {
        assert last == row || last == Some(updates[0]);
      }
    }
  }

  /** Two nodes that have seen the same states of a name, in any order and with any
      repetitions, hold equivalent rows. */
  lemma Convergence(name: string, rowA: Option<FileMeta>, updatesA: seq<FileMeta>, rowB: Option<FileMeta>, updatesB: seq<FileMeta>)
    requires forall m :: Some(m) == rowA || m in updatesA <==> Some(m) == rowB || m in updatesB
    requires forall m :: Some(m) == rowA || m in updatesA ==> ValidMetadata(m) && m.name == name
    ensures var a, b := MergeAll(rowA, updatesA), MergeAll(rowB, updatesB);
            a.Some? == b.Some? && (a.Some? ==> Equivalent(a.value, b.value))
  {
    var a, b := MergeAll(rowA, updatesA), MergeAll(rowB, updatesB);
    MergeAllIsGreatest(rowA, updatesA);
    MergeAllIsGreatest(rowB, updatesB);
    if a.Some? {
      Seen(a.value, rowB, updatesB, b);
    }
    if b.Some? {
      Seen(b.value, rowA, updatesA, a);
    }
    CompareStateFlip(a, b);
    if a.Some? && b.Some? {
      TieMeansEquivalent(a.value, b.value);
    }
  }

  lemma Seen(m: FileMeta, row: Option<FileMeta>, updates: seq<FileMeta>, last: Option<FileMeta>)
    requires Some(m) == row || m in updates
    requires CompareState(row, last) <= 0
    requires forall i :: 0 <= i < |updates| ==> CompareState(Some(updates[i]), last) <= 0
    ensures CompareState(Some(m), last) <= 0
  {
  }
}
