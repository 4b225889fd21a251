/** The journal that makes replacing one tree by another survive cuts of the process at
    any system call, and its recovery on a volume that may have been edited meanwhile. */
module Replacement {

  import opened Meta
  import opened Trees

  datatype Journal = Journal(
    format: nat,
    destination: Path,
    source: Path,
    backup: Path,
    copyStage: Option<Path>,
    oldTree: seq<Item>,
    newTree: seq<Item>,
    committed: bool)

  // ----- which journals are acted on -----

  function Base(p: Path): string
    requires p != []
  {
    p[|p| - 1]
  }

  predicate ValidStage(j: Journal, stage: Path)
    requires j.destination != []
  {
    && LocalName(stage) && Parent(stage) == Parent(j.destination)
    && ".birak-tmp-replace-" <= Base(stage)
    && j.source == stage + ["payload"]
    && !(stage <= j.destination)
  }

  predicate ValidPaths(j: Journal) {
    && LocalName(j.destination) && LocalName(j.source) && LocalName(j.backup)
    && Disjoint(j.source, j.destination) && Disjoint(j.source, j.backup)
    && j.backup != j.destination && Parent(j.backup) == Parent(j.destination)
    && ".birak-bak-" <= Base(j.backup)
    && j.source[0] != ".birak" && j.destination[0] != ".birak" && j.backup[0] != ".birak"
    && (j.copyStage.Some? ==> ValidStage(j, j.copyStage.value))
  }

  ghost predicate ValidJournal(j: Journal) {
    && j.format == 1 && ValidPaths(j)
    && j.newTree != [] && WellFormed(j.newTree) && WellFormed(j.oldTree)
  }

  method ValidateReplacement(j: Journal) returns (ok: bool)
    ensures ok <==> ValidJournal(j)
  {
    if j.format != 1 || !ValidPaths(j) || j.newTree == [] {
      return false;
    }
    ok := ValidateReplacementTree(j.newTree);
    if ok {
      ok := ValidateReplacementTree(j.oldTree);
    }
  }

  lemma SiblingsDisjoint(p: Path, q: Path)
    requires p != [] && q != [] && p != q && Parent(p) == Parent(q)
    ensures Disjoint(p, q)
  {
    assert p == Parent(p) + [Base(p)] && q == Parent(q) + [Base(q)];
  }

  ghost function Old(j: Journal): map<Path, Entry> { ByName(j.oldTree) }
  ghost function New(j: Journal): map<Path, Entry> { ByName(j.newTree) }

  /** What acting on a journal relies on: its three trees never overlap, nor does a stage
      overlap the destination or the backup, and there is a new tree to put in place. */
  ghost predicate Apart(j: Journal) {
    && j.destination != [] && j.source != [] && j.backup != []
    && Disjoint(j.source, j.destination) && Disjoint(j.source, j.backup) && Disjoint(j.backup, j.destination)
    && Parent(j.backup) == Parent(j.destination)
    && (j.copyStage.Some? ==> StageApart(j, j.copyStage.value))
    && [] in New(j)
  }

  ghost predicate StageApart(j: Journal, stage: Path)
    requires j.destination != [] && j.source != []
  {
    && stage != [] && stage == Parent(j.source) && Parent(stage) == Parent(j.destination)
    && Disjoint(stage, j.destination) && Disjoint(stage, j.backup)
  }

  lemma ValidIsApart(j: Journal)
    requires ValidJournal(j)
    ensures Apart(j)
  {
    ByNameAt(j.newTree, 0);
    SiblingsDisjoint(j.backup, j.destination);
    if j.copyStage.Some? {
      var stage := j.copyStage.value;
      SiblingsDisjoint(stage, j.destination);
      assert Base(stage)[7] == 't' && Base(j.backup)[7] == 'b';
      SiblingsDisjoint(stage, j.backup);
    }
  }

  // ----- where an interrupted replacement can stand -----

  /** Prepared, or rolled back: only a private copy may be partly gone. */
  ghost predicate Restored(disk: Disk, j: Journal) {
    && j.backup !in disk && Rel(disk, j.destination) == Old(j)
    && Matches(Rel(disk, j.source), New(j), j.copyStage.Some?)
  }

  ghost predicate BackedUp(disk: Disk, j: Journal) {
    Rel(disk, j.backup) == Old(j) && j.destination !in disk && Rel(disk, j.source) == New(j)
  }

  ghost predicate Published(disk: Disk, j: Journal) {
    Rel(disk, j.backup) == Old(j) && Rel(disk, j.destination) == New(j) && j.source !in disk
  }

  /** The volume holds what the journal recorded, as far as the recovery relies on it. */
  ghost predicate Consistent(disk: Disk, j: Journal) {
    if j.committed then Within(Rel(disk, j.backup), Old(j))
    else Restored(disk, j) || BackedUp(disk, j) || Published(disk, j)
  }

  /** What more holds when nobody else edited the volume: the directories to rename into
      exist, the stage holds the copy alone, and a committed destination is complete. */
  ghost predicate Undisturbed(disk: Disk, j: Journal)
  {
    && Creatable(disk, j.destination)
    && (j.copyStage.None? ==> Creatable(disk, j.source))
    && (j.copyStage.Some? ==> StageClean(disk, j, j.copyStage.value))
    && (j.committed ==> Rel(disk, j.destination) == New(j) && j.source !in disk)
  }

  ghost predicate StageClean(disk: Disk, j: Journal, stage: Path) {
    && (stage in disk ==> disk[stage].kind.Directory?)
    && (forall q :: q in disk && stage < q ==> j.source <= q)
    && (stage !in disk ==> j.committed || Restored(disk, j))
  }

  /** Whatever lies outside the three trees and the stage itself is as it was. */
  ghost predicate SameElsewhere(disk: Disk, disk': Disk, j: Journal) {
    forall q :: Elsewhere(j, q) ==> SameAt(disk, disk', q)
  }

  predicate Elsewhere(j: Journal, q: Path) {
    !(j.destination <= q) && !(j.source <= q) && !(j.backup <= q) && (j.copyStage.Some? ==> q != j.copyStage.value)
  }

  /** An object identical to one recorded in a manifest, in the backup once committed, in
      the private copy before. */
  ghost predicate Manifested(j: Journal, gone: Item) {
    || (j.committed && j.backup <= gone.name && Listed(Item(gone.name[|j.backup|..], gone.entry), Old(j)))
    || (!j.committed && j.copyStage.Some? && j.source <= gone.name
        && Listed(Item(gone.name[|j.source|..], gone.entry), New(j)))
  }

  /** A deletion the recovery may make: a recorded object, or the stage directory, which no
      manifest lists. */
  ghost predicate Recorded(j: Journal, gone: Item) {
    Manifested(j, gone) || (j.copyStage.Some? && gone.name == j.copyStage.value && gone.entry.kind.Directory?)
  }

  ghost predicate OnlyManifested(j: Journal, log: seq<Item>, log': seq<Item>) {
    log <= log' && forall i :: |log| <= i < |log'| ==> Manifested(j, log'[i])
  }

  ghost predicate OnlyRecorded(j: Journal, log: seq<Item>, log': seq<Item>) {
    log <= log' && forall i :: |log| <= i < |log'| ==> Recorded(j, log'[i])
  }

  /** One or more effects of a recovery. */
  ghost predicate Progress(j: Journal, disk: Disk, log: seq<Item>, disk': Disk, log': seq<Item>)
  {
    && TreeShaped(disk') && Consistent(disk', j)
    && SameElsewhere(disk, disk', j) && OnlyRecorded(j, log, log')
    && (j.copyStage.Some? && j.copyStage.value in disk' ==> SameAt(disk, disk', j.copyStage.value))
    && (j.committed ==> Rel(disk', j.destination) == Rel(disk, j.destination) && Rel(disk', j.source) == Rel(disk, j.source))
    && (Undisturbed(disk, j) ==> Undisturbed(disk', j))
  }

  lemma NoProgressYet(j: Journal, disk: Disk, log: seq<Item>)
    requires TreeShaped(disk) && Consistent(disk, j)
    ensures Progress(j, disk, log, disk, log)
  {
  }

  lemma ProgressChains(j: Journal, d0: Disk, l0: seq<Item>, d1: Disk, l1: seq<Item>, d2: Disk, l2: seq<Item>)
    requires Progress(j, d0, l0, d1, l1) && Progress(j, d1, l1, d2, l2)
    ensures Progress(j, d0, l0, d2, l2)
  {
    forall q | Elsewhere(j, q) ensures SameAt(d0, d2, q) {
      assert SameAt(d0, d1, q) && SameAt(d1, d2, q);
    }
    forall i | |l0| <= i < |l2| ensures Recorded(j, l2[i]) {
      if i < |l1| {
        assert l2[i] == l1[i];
      }
    }
  }

  // ----- the effects of a recovery -----

  lemma MovedElsewhere(disk: Disk, j: Journal, a: Path, b: Path)
    requires Disjoint(a, b) && Absent(disk, b)
    requires a == j.destination || a == j.backup
    requires b == j.destination || b == j.source
    ensures SameElsewhere(disk, Moved(disk, a, b), j)
  {
    forall q | Elsewhere(j, q) ensures SameAt(disk, Moved(disk, a, b), q) {
      MovedAt(disk, a, b, q);
    }
  }

  /** A directory outside both trees stays one when a tree is renamed. */
  lemma MovedCreatable(disk: Disk, a: Path, b: Path, p: Path)
    requires Disjoint(a, b) && Absent(disk, b) && Creatable(disk, p)
    requires !(a < p) && !(b < p)
    ensures Creatable(Moved(disk, a, b), p)
  {
    if |p| > 1 {
      var up := Parent(p);
      assert a <= up ==> a < p;
      assert b <= up ==> b < p;
      MovedAt(disk, a, b, up);
    }
  }

  lemma MovedStage(disk: Disk, j: Journal, a: Path, b: Path, stage: Path)
    requires TreeShaped(disk) && Disjoint(a, b) && Absent(disk, b)
    requires Disjoint(stage, a) && (stage < b ==> b == j.source) && !(b <= stage)
    requires StageClean(disk, j, stage) && stage in disk
    ensures StageClean(Moved(disk, a, b), j, stage)
  {
    var disk' := Moved(disk, a, b);
    MovedAt(disk, a, b, stage);
    forall q | q in disk' && stage < q ensures j.source <= q {
      MovedAt(disk, a, b, q);
      if b <= q {
        PrefixesNest(b, stage, q);
      }
    }
  }

  lemma PublishedNotRestored(disk: Disk, j: Journal)
    requires Apart(j) && Published(disk, j)
    ensures !Restored(disk, j)
  {
    RelMember(disk, j.backup, []);
    assert j.backup + [] == j.backup;
  }

  lemma SourceBackTrees(disk: Disk, j: Journal)
    requires Apart(j) && !j.committed && TreeShaped(disk) && Published(disk, j) && Creatable(disk, j.source)
    ensures Absent(disk, j.source) && j.source !in disk && j.destination in disk
    ensures TreeShaped(Moved(disk, j.destination, j.source))
    ensures BackedUp(Moved(disk, j.destination, j.source), j)
  {
    var disk' := Moved(disk, j.destination, j.source);
    RelEmpty(disk, j.destination);
    RelEmpty(disk, j.source);
    AbsentIfMissing(disk, j.source);
    MovedTrees(disk, j.destination, j.source);
    MovedTreeShaped(disk, j.destination, j.source);
    AbsentIfMissing(disk', j.destination);
    RelEmpty(disk', j.destination);
  }

  lemma SourceBackUndisturbed(disk: Disk, j: Journal)
    requires Apart(j) && !j.committed && TreeShaped(disk) && Published(disk, j) && Undisturbed(disk, j)
    requires Absent(disk, j.source)
    ensures Undisturbed(Moved(disk, j.destination, j.source), j)
  {
    MovedCreatable(disk, j.destination, j.source, j.destination);
    if j.copyStage.Some? {
      PublishedNotRestored(disk, j);
      MovedStage(disk, j, j.destination, j.source, j.copyStage.value);
    } else {
      MovedCreatable(disk, j.destination, j.source, j.source);
    }
  }

  /** The published tree goes back to the source's name. */
  lemma RollbackSource(disk: Disk, log: seq<Item>, j: Journal)
    requires Apart(j) && !j.committed && TreeShaped(disk) && Published(disk, j) && Creatable(disk, j.source)
    ensures j.source !in disk && j.destination in disk
    ensures BackedUp(Moved(disk, j.destination, j.source), j)
    ensures Progress(j, disk, log, Moved(disk, j.destination, j.source), log)
  {
    SourceBackTrees(disk, j);
    MovedElsewhere(disk, j, j.destination, j.source);
    if j.copyStage.Some? {
      MovedAt(disk, j.destination, j.source, j.copyStage.value);
    }
    if Undisturbed(disk, j) {
      SourceBackUndisturbed(disk, j);
    }
  }

  lemma DestinationBackTrees(disk: Disk, j: Journal)
    requires Apart(j) && !j.committed && TreeShaped(disk) && BackedUp(disk, j) && Old(j) != map[]
    ensures Absent(disk, j.destination) && j.destination !in disk && j.backup in disk && Creatable(disk, j.destination)
    ensures TreeShaped(Moved(disk, j.backup, j.destination))
    ensures Restored(Moved(disk, j.backup, j.destination), j)
  {
    var disk' := Moved(disk, j.backup, j.destination);
    RelEmpty(disk, j.backup);
    RelEmpty(disk, j.destination);
    AbsentIfMissing(disk, j.destination);
    assert IsDirectory(disk, Parent(j.backup)) || |j.backup| == 1;
    assert |Parent(j.backup)| == |j.backup| - 1 == |j.destination| - 1;
    MovedTrees(disk, j.backup, j.destination);
    MovedTreeShaped(disk, j.backup, j.destination);
    AbsentIfMissing(disk', j.backup);
    RelEmpty(disk', j.backup);
  }

  lemma BackedUpHasStage(disk: Disk, j: Journal)
    requires Apart(j) && TreeShaped(disk) && Rel(disk, j.source) == New(j) && j.copyStage.Some?
    ensures j.copyStage.value in disk
  {
    RelEmpty(disk, j.source);
    AncestorsAreDirectories(disk, j.source, j.copyStage.value);
  }

  lemma DestinationBackUndisturbed(disk: Disk, j: Journal)
    requires Apart(j) && !j.committed && TreeShaped(disk) && Undisturbed(disk, j)
    requires Absent(disk, j.destination) && (j.copyStage.Some? ==> j.copyStage.value in disk)
    ensures Undisturbed(Moved(disk, j.backup, j.destination), j)
  {
    MovedCreatable(disk, j.backup, j.destination, j.destination);
    if j.copyStage.Some? {
      MovedStage(disk, j, j.backup, j.destination, j.copyStage.value);
      MovedAt(disk, j.backup, j.destination, j.copyStage.value);
    } else {
      MovedCreatable(disk, j.backup, j.destination, j.source);
    }
  }

  /** The backup goes back to the destination's name. */
  lemma RollbackDestination(disk: Disk, log: seq<Item>, j: Journal)
    requires Apart(j) && !j.committed && TreeShaped(disk) && BackedUp(disk, j) && Old(j) != map[]
    ensures j.destination !in disk && j.backup in disk && Creatable(disk, j.destination)
    ensures Restored(Moved(disk, j.backup, j.destination), j)
    ensures Progress(j, disk, log, Moved(disk, j.backup, j.destination), log)
  {
    DestinationBackTrees(disk, j);
    MovedElsewhere(disk, j, j.backup, j.destination);
    if j.copyStage.Some? {
      MovedAt(disk, j.backup, j.destination, j.copyStage.value);
    }
    if Undisturbed(disk, j) {
      if j.copyStage.Some? {
        BackedUpHasStage(disk, j);
      }
      DestinationBackUndisturbed(disk, j);
    }
  }

  /** `disk'` is `disk` with some objects at or under `p` removed. */
  ghost predicate Pruned(disk: Disk, disk': Disk, p: Path) {
    Within(disk', disk) && forall q :: q in disk && !(p <= q) ==> q in disk'
  }

  /** The log grew by objects of `disk` at or under `p`. */
  ghost predicate LogsUnder(disk: Disk, p: Path, log: seq<Item>, log': seq<Item>) {
    log <= log' && forall i :: |log| <= i < |log'| ==> p <= log'[i].name && Listed(log'[i], disk)
  }

  lemma PrunedTrees(disk: Disk, disk': Disk, p: Path)
    requires Pruned(disk, disk', p)
    ensures Within(Rel(disk', p), Rel(disk, p))
    ensures forall c :: Disjoint(c, p) ==> Rel(disk', c) == Rel(disk, c)
  {
    forall r | r in Rel(disk', p) ensures r in Rel(disk, p) && Rel(disk, p)[r] == Rel(disk', p)[r] {
      RelMember(disk', p, r);
      RelMember(disk, p, r);
    }
    forall c | Disjoint(c, p) ensures Rel(disk', c) == Rel(disk, c) {
      forall q | c <= q ensures SameAt(disk, disk', q) {
        if p <= q { PrefixesNest(p, c, q); }
      }
      RelSame(disk, disk', c);
    }
  }

  lemma LoggedIsListed(disk: Disk, p: Path, log: seq<Item>, log': seq<Item>, want: map<Path, Entry>, i: nat)
    requires LogsUnder(disk, p, log, log') && Within(Rel(disk, p), want) && |log| <= i < |log'|
    ensures p <= log'[i].name && Listed(Item(log'[i].name[|p|..], log'[i].entry), want)
  {
    var r := log'[i].name[|p|..];
    assert p + r == log'[i].name;
    RelMember(disk, p, r);
  }

  lemma PrunedCreatable(disk: Disk, disk': Disk, p: Path, q: Path)
    requires Pruned(disk, disk', p) && Creatable(disk, q) && !(p < q)
    ensures Creatable(disk', q)
  {
    if |q| > 1 {
      assert p <= Parent(q) ==> p < q;
    }
  }

  /** A committed replacement drops objects of its backup. */
  lemma SweepBackup(disk: Disk, log: seq<Item>, j: Journal, disk': Disk, log': seq<Item>)
    requires Apart(j) && j.committed && Consistent(disk, j)
    requires TreeShaped(disk') && Pruned(disk, disk', j.backup) && LogsUnder(disk, j.backup, log, log')
    ensures Progress(j, disk, log, disk', log') && OnlyManifested(j, log, log') == true
  {
    PrunedTrees(disk, disk', j.backup);
    forall i | |log| <= i < |log'| ensures Manifested(j, log'[i]) {
      LoggedIsListed(disk, j.backup, log, log', Old(j), i);
    }
    forall q | Elsewhere(j, q) ensures SameAt(disk, disk', q) {}
    if Undisturbed(disk, j) {
      PrunedCreatable(disk, disk', j.backup, j.destination);
      if j.copyStage.None? {
        PrunedCreatable(disk, disk', j.backup, j.source);
      }
    }
  }

  lemma SweptCopyTrees(disk: Disk, j: Journal, disk': Disk)
    requires Apart(j) && j.copyStage.Some? && Restored(disk, j) && Pruned(disk, disk', j.source)
    ensures Restored(disk', j)
  {
    PrunedTrees(disk, disk', j.source);
  }

  lemma SweptCopyUndisturbed(disk: Disk, j: Journal, disk': Disk)
    requires Apart(j) && !j.committed && j.copyStage.Some? && Undisturbed(disk, j)
    requires Pruned(disk, disk', j.source) && Restored(disk', j)
    ensures Undisturbed(disk', j)
  {
    PrunedCreatable(disk, disk', j.source, j.destination);
  }

  /** A rolled-back copy drops objects of its private tree. */
  lemma SweepCopy(disk: Disk, log: seq<Item>, j: Journal, disk': Disk, log': seq<Item>)
    requires Apart(j) && !j.committed && j.copyStage.Some? && Restored(disk, j)
    requires TreeShaped(disk') && Pruned(disk, disk', j.source) && LogsUnder(disk, j.source, log, log')
    ensures Restored(disk', j)
    ensures Progress(j, disk, log, disk', log') && OnlyManifested(j, log, log') == true
  {
    SweptCopyTrees(disk, j, disk');
    forall i | |log| <= i < |log'| ensures Manifested(j, log'[i]) {
      LoggedIsListed(disk, j.source, log, log', New(j), i);
    }
    forall q | Elsewhere(j, q) ensures SameAt(disk, disk', q) {}
    if Undisturbed(disk, j) {
      SweptCopyUndisturbed(disk, j, disk');
    }
  }

  lemma RemovedTreeShaped(disk: Disk, p: Path)
    requires TreeShaped(disk) && p in disk && Children(disk, p) == {}
    ensures TreeShaped(disk - {p}) && Pruned(disk, disk - {p}, p) && Absent(disk - {p}, p)
  {
    forall q | q in disk - {p} ensures !(p <= q) {
      if p <= q {
        assert |p| == |q| ==> p == q;
        BelowAChild(disk, p, q);
      }
    }
    forall q | q in disk - {p} && |q| > 1 ensures IsDirectory(disk - {p}, Parent(q)) {
      assert p == Parent(q) ==> p < q;
    }
  }

  lemma DroppedStageTrees(disk: Disk, j: Journal, stage: Path)
    requires Apart(j) && TreeShaped(disk) && j.copyStage == Some(stage)
    requires Pruned(disk, disk - {stage}, stage)
    ensures Rel(disk - {stage}, j.backup) == Rel(disk, j.backup)
    ensures Rel(disk - {stage}, j.destination) == Rel(disk, j.destination)
    ensures Rel(disk - {stage}, j.source) == Rel(disk, j.source)
  {
    var disk' := disk - {stage};
    PrunedTrees(disk, disk', stage);
    forall q | j.source <= q ensures SameAt(disk, disk', q) {}
    RelSame(disk, disk', j.source);
  }

  /** The empty stage goes last. */
  lemma DropStage(disk: Disk, log: seq<Item>, j: Journal)
    requires Apart(j) && TreeShaped(disk) && Consistent(disk, j) && (j.committed || Restored(disk, j))
    requires j.copyStage.Some? && IsDirectory(disk, j.copyStage.value) && Children(disk, j.copyStage.value) == {}
    ensures var stage := j.copyStage.value;
      && Progress(j, disk, log, disk - {stage}, log + [Item(stage, disk[stage])])
      && Rel(disk - {stage}, j.backup) == Rel(disk, j.backup)
      && Rel(disk - {stage}, j.source) == Rel(disk, j.source)
      && (j.committed || Restored(disk - {stage}, j))
  {
    var stage := j.copyStage.value;
    var disk' := disk - {stage};
    RemovedTreeShaped(disk, stage);
    DroppedStageTrees(disk, j, stage);
    assert Recorded(j, Item(stage, disk[stage]));
    forall q | Elsewhere(j, q) ensures SameAt(disk, disk', q) {}
    if Undisturbed(disk, j) {
      PrunedCreatable(disk, disk', stage, j.destination);
    }
  }

  // ----- the recovery itself -----

  /** What becomes of a system call: it takes effect; it is refused; it takes effect but
      the following flush reports an error; or the process ends before it. */
  datatype Fate = Succeeds | Refused | Unsynced | Cut

  datatype Outcome = Ok | Error | Stopped | Conflict

  datatype Standing = IsRestored | IsBackedUp | IsPublished | Conflicting

  /** Takes the manifest of the tree at `p` and compares it with a recorded one. */
  method TreeMatches(disk: Disk, p: Path, want: seq<Item>, allowMissing: bool) returns (ok: bool)
    requires TreeShaped(disk) && p != [] && Shaped(want)
    ensures ok <==> Matches(Rel(disk, p), ByName(want), allowMissing)
  {
    var got := ReplacementTree(disk, p);
    ok := MatchesReplacement(got, want, allowMissing);
  }

  lemma GoneMeansEmpty(disk: Disk, j: Journal)
    requires Apart(j) && TreeShaped(disk)
    ensures j.backup !in disk <==> Rel(disk, j.backup) == map[]
    ensures j.source !in disk <==> Rel(disk, j.source) == map[]
    ensures j.destination !in disk <==> Rel(disk, j.destination) == map[]
  {
    RelEmpty(disk, j.backup);
    RelEmpty(disk, j.source);
    RelEmpty(disk, j.destination);
  }

  ghost function StandingOf(disk: Disk, j: Journal): Standing {
    if Restored(disk, j) then IsRestored
    else if BackedUp(disk, j) then IsBackedUp
    else if Published(disk, j) then IsPublished
    else Conflicting
  }

  /** Tells from the three trees how far an uncommitted replacement got. */
  method Assess(disk: Disk, j: Journal) returns (standing: Standing)
    requires Apart(j) && TreeShaped(disk) && Shaped(j.oldTree) && Shaped(j.newTree)
    ensures standing == StandingOf(disk, j)
  {
    GoneMeansEmpty(disk, j);
    var destOld := TreeMatches(disk, j.destination, j.oldTree, false);
    if j.backup !in disk && destOld {
      var copyLeft := TreeMatches(disk, j.source, j.newTree, j.copyStage.Some?);
      return if copyLeft then IsRestored else Conflicting;
    }
    var backupOld := TreeMatches(disk, j.backup, j.oldTree, false);
    if !backupOld {
      return Conflicting;
    }
    var sourceNew := TreeMatches(disk, j.source, j.newTree, false);
    if j.destination !in disk && sourceNew {
      return IsBackedUp;
    }
    var destNew := TreeMatches(disk, j.destination, j.newTree, false);
    if j.source !in disk && destNew {
      return IsPublished;
    }
    return Conflicting;
  }

  ghost predicate ParentsAreDirectories(disk: Disk, name: Path) {
    forall k :: 0 < k < |name| && name[..k] in disk ==> IsDirectory(disk, name[..k])
  }

  /** No parent of `name` is anything but a real directory; the first missing one ends the search. */
  method SafeParents(disk: Disk, name: Path) returns (ok: bool)
    requires TreeShaped(disk) && name != []
    ensures ok <==> ParentsAreDirectories(disk, name)
  {
    var k := 1;
    while k < |name|
      invariant 1 <= k <= |name|
      invariant forall i :: 0 < i < k ==> IsDirectory(disk, name[..i])
    {
      var cur := name[..k];
      if cur !in disk {
        forall i | k <= i < |name| && name[..i] in disk ensures false {
          assert cur <= name[..i];
          AbsentIfMissing(disk, cur);
        }
        return true;
      }
      if !disk[cur].kind.Directory? {
        return false;
      }
      k := k + 1;
    }
    return true;
  }

  /** The parents the recovery insists on before its first change. */
  ghost predicate SafeToRecover(disk: Disk, j: Journal) {
    && ParentsAreDirectories(disk, j.source)
    && ParentsAreDirectories(disk, j.destination)
    && ParentsAreDirectories(disk, j.backup)
  }

  lemma CreatableParents(disk: Disk, p: Path)
    requires TreeShaped(disk) && Creatable(disk, p)
    ensures ParentsAreDirectories(disk, p)
  {
    forall k | 0 < k < |p| && p[..k] in disk ensures IsDirectory(disk, p[..k]) {
      if k < |p| - 1 {
        assert p[..k] < Parent(p);
        AncestorsAreDirectories(disk, Parent(p), p[..k]);
      }
    }
  }

  lemma UndisturbedIsSafe(disk: Disk, j: Journal)
    requires Apart(j) && TreeShaped(disk) && Undisturbed(disk, j)
    ensures SafeToRecover(disk, j)
  {
    CreatableParents(disk, j.destination);
    assert |Parent(j.backup)| == |Parent(j.destination)|;
    CreatableParents(disk, j.backup);
    if j.copyStage.None? {
      CreatableParents(disk, j.source);
    } else {
      var stage := j.copyStage.value;
      assert |Parent(stage)| == |Parent(j.destination)|;
      CreatableParents(disk, stage);
      forall k | 0 < k < |j.source| && j.source[..k] in disk ensures IsDirectory(disk, j.source[..k]) {
        if k < |stage| {
          assert j.source[..k] == stage[..k];
        } else {
          assert j.source[..k] == stage;
        }
      }
    }
  }

  /** The journal is well-formed and nothing but real directories lead to its trees. */
  ghost predicate Acceptable(disk: Disk, j: Journal) {
    ValidJournal(j) && SafeToRecover(disk, j)
  }

  ghost predicate Recoverable(disk: Disk, j: Journal) {
    Acceptable(disk, j) && Consistent(disk, j)
  }

  /** All the checks, before the first change. */
  method Examine(disk: Disk, j: Journal) returns (o: Outcome, standing: Standing)
    requires TreeShaped(disk)
    ensures o == Ok <==> Recoverable(disk, j)
    ensures o == Conflict <==> Acceptable(disk, j) && !Consistent(disk, j)
    ensures o == Ok && !j.committed ==> standing == StandingOf(disk, j) != Conflicting
  {
    standing := Conflicting;
    var valid := ValidateReplacement(j);
    if !valid {
      return Error, standing;
    }
    ValidIsApart(j);
    var safeSource := SafeParents(disk, j.source);
    var safeDestination := SafeParents(disk, j.destination);
    var safeBackup := SafeParents(disk, j.backup);
    if !safeSource || !safeDestination || !safeBackup {
      return Error, standing;
    }
    var matches;
    if j.committed {
      matches := TreeMatches(disk, j.backup, j.oldTree, true);
    } else {
      standing := Assess(disk, j);
      matches := standing != Conflicting;
    }
    o := if matches then Ok else Conflict;
  }

  /** Where a finished recovery leaves the volume. */
  ghost predicate Settled(disk: Disk, j: Journal) {
    && j.backup !in disk
    && (!j.committed ==> Rel(disk, j.destination) == Old(j))
    && (!j.committed ==> if j.copyStage.None? then Rel(disk, j.source) == New(j) else j.source !in disk)
    && (j.copyStage.Some? ==> j.copyStage.value !in disk)
  }

  /** All that is left before the stage and the journal go. */
  ghost predicate Swept(disk: Disk, j: Journal) {
    && j.backup !in disk
    && (!j.committed ==> Restored(disk, j) && (j.copyStage.Some? ==> j.source !in disk))
  }

  lemma UndisturbedStageEmpty(disk: Disk, j: Journal, stage: Path)
    requires Apart(j) && TreeShaped(disk) && j.copyStage == Some(stage) && Undisturbed(disk, j) && Swept(disk, j)
    ensures Children(disk, stage) == {}
  {
    RelEmpty(disk, j.source);
    AbsentIfMissing(disk, j.source);
    forall c ensures c !in Children(disk, stage) {
      ChildrenMember(disk, stage, c);
      assert stage < stage + [c];
    }
  }

  lemma SweptSettles(disk: Disk, j: Journal)
    requires Swept(disk, j) && (j.copyStage.Some? ==> j.copyStage.value !in disk)
    ensures Settled(disk, j)
  {
  }

  /** Removing the stage, if it is there and empty, settles the volume; undisturbed, it is empty. */
  lemma StageRemoval(disk: Disk, log: seq<Item>, j: Journal)
    requires Apart(j) && TreeShaped(disk) && Consistent(disk, j) && Swept(disk, j)
    requires j.copyStage.Some? && j.copyStage.value in disk ==> IsDirectory(disk, j.copyStage.value)
    ensures Progress(j, disk, log, disk, log)
    ensures j.copyStage.None? || j.copyStage.value !in disk ==> Settled(disk, j)
    ensures j.copyStage.Some? && j.copyStage.value in disk ==>
      var stage := j.copyStage.value;
      && (Undisturbed(disk, j) ==> Children(disk, stage) == {})
      && (Children(disk, stage) == {} ==>
        Progress(j, disk, log, disk - {stage}, log + [Item(stage, disk[stage])]) && Settled(disk - {stage}, j))
  {
    if j.copyStage.Some? && j.copyStage.value in disk {
      var stage := j.copyStage.value;
      if Undisturbed(disk, j) {
        UndisturbedStageEmpty(disk, j, stage);
      }
      if Children(disk, stage) == {} {
        DropStage(disk, log, j);
        SweptSettles(disk - {stage}, j);
      }
    }
  }

  ghost predicate StageThere(disk: Disk, j: Journal) {
    j.copyStage.Some? && IsDirectory(disk, j.copyStage.value)
  }

  lemma StageStaysMoved(disk: Disk, j: Journal, a: Path, b: Path)
    requires Apart(j) && StageThere(disk, j) && Disjoint(a, b) && Absent(disk, b)
    requires (a == j.destination && b == j.source) || (a == j.backup && b == j.destination)
    ensures StageThere(Moved(disk, a, b), j)
  {
    MovedAt(disk, a, b, j.copyStage.value);
  }

  lemma StageStaysPruned(disk: Disk, disk': Disk, j: Journal, p: Path)
    requires Apart(j) && StageThere(disk, j) && Pruned(disk, disk', p) && (p == j.backup || p == j.source)
    ensures StageThere(disk', j)
  {
  }

  /** The sweep leaves the stage empty: it holds the private copy alone, or nothing once the
      replacement is committed. */
  ghost predicate StageEmpties(disk: Disk, j: Journal, stage: Path) {
    && (forall q :: q in disk && stage < q ==> j.source <= q)
    && (j.committed ==> j.source !in disk)
  }

  lemma StageEmptiesAfter(d0: Disk, l0: seq<Item>, d1: Disk, l1: seq<Item>, j: Journal, stage: Path)
    requires Apart(j) && TreeShaped(d0) && TreeShaped(d1) && Progress(j, d0, l0, d1, l1) && Swept(d1, j) && j.copyStage == Some(stage)
    ensures Children(d1, stage) == {} <==> StageEmpties(d0, j, stage)
  {
    forall q | stage < q && !(j.source <= q) ensures q in d0 <==> q in d1 {
      OnlySource(j, stage, q);
      assert SameAt(d0, d1, q);
    }
    GoneMeansEmpty(d0, j);
    GoneMeansEmpty(d1, j);
    AbsentIfMissing(d1, j.source);
    if StageEmpties(d0, j, stage) {
      forall c ensures c !in Children(d1, stage) {
        ChildrenMember(d1, stage, c);
        assert stage < stage + [c];
      }
    }
    if Children(d1, stage) == {} {
      forall q | q in d1 && stage < q ensures false {
        BelowAChild(d1, stage, q);
      }
    }
  }

  lemma OnlySource(j: Journal, stage: Path, q: Path)
    requires Apart(j) && j.copyStage == Some(stage) && stage < q && !(j.source <= q)
    ensures Elsewhere(j, q)
  {
    if j.destination <= q {
      PrefixesNest(j.destination, stage, q);
    }
    if j.backup <= q {
      PrefixesNest(j.backup, stage, q);
    }
  }

  /** The last deletion is the stage as it was found, empty but for what was swept. */
  ghost predicate StageGoes(j: Journal, disk: Disk, gone: Item) {
    && j.copyStage == Some(gone.name) && gone.name in disk && gone.entry == disk[gone.name] && gone.entry.kind.Directory?
    && StageEmpties(disk, j, gone.name)
  }

  ghost predicate StageLast(j: Journal, disk: Disk, log: seq<Item>, log': seq<Item>) {
    |log| < |log'| && OnlyManifested(j, log, log'[..|log'| - 1]) && StageGoes(j, disk, log'[|log'| - 1])
  }

  lemma StageIsLast(j: Journal, disk: Disk, swept: Disk, log: seq<Item>, log1: seq<Item>, log': seq<Item>)
    requires OnlyManifested(j, log, log1) == true && StageThere(swept, j)
    requires var stage := j.copyStage.value; SameAt(disk, swept, stage) && StageEmpties(disk, j, stage) && log' == log1 + [Item(stage, swept[stage])]
    ensures StageLast(j, disk, log, log') == true
  {
    assert log'[..|log'| - 1] == log1;
  }

  /** No manifest lists the stage. */
  lemma StageIsUnlisted(j: Journal, disk: Disk, log: seq<Item>, log': seq<Item>)
    requires Apart(j) && StageLast(j, disk, log, log')
    ensures !OnlyManifested(j, log, log')
  {
    var gone := log'[|log'| - 1];
    assert !Manifested(j, gone);
  }

  /** What a recovery deletes: objects the manifests list, and then, if it is there and
      empties, the stage that they do not. */
  ghost predicate Deletes(j: Journal, disk: Disk, log: seq<Item>, log': seq<Item>) {
    OnlyManifested(j, log, log') || StageLast(j, disk, log, log')
  }

  lemma PrunedNested(d0: Disk, d1: Disk, d2: Disk, p: Path, c: string, l0: seq<Item>, l1: seq<Item>, l2: seq<Item>)
    requires Pruned(d0, d1, p) && LogsUnder(d0, p, l0, l1)
    requires Pruned(d1, d2, p + [c]) && LogsUnder(d1, p + [c], l1, l2)
    ensures Pruned(d0, d2, p) && LogsUnder(d0, p, l0, l2)
  {
    forall q | q in d0 && !(p <= q) ensures q in d2 {
      assert p + [c] <= q ==> p <= q;
    }
    forall i | |l0| <= i < |l2| ensures p <= l2[i].name && Listed(l2[i], d0) {
      if i < |l1| {
        assert l2[i] == l1[i];
      }
    }
  }

  // ----- replacing a tree -----

  /** All three trees where the journal found them. */
  ghost predicate Prepared(disk: Disk, j: Journal) {
    j.backup !in disk && Rel(disk, j.destination) == Old(j) && Rel(disk, j.source) == New(j)
  }

  /** A replacement whose journal is on disk, with nobody else at work on the volume. */
  ghost predicate InFlight(disk: Disk, j: Journal) {
    TreeShaped(disk) && Recoverable(disk, j) && Undisturbed(disk, j)
  }

  lemma UndisturbedIsInFlight(disk: Disk, j: Journal)
    requires TreeShaped(disk) && ValidJournal(j) && Consistent(disk, j) && Undisturbed(disk, j)
    ensures InFlight(disk, j) == true
  {
    ValidIsApart(j);
    UndisturbedIsSafe(disk, j);
  }

  /** Everything is ready for the journal to be written. */
  ghost predicate ReadyToStart(disk: Disk, j: Journal) {
    TreeShaped(disk) && ValidJournal(j) && !j.committed && Prepared(disk, j) && Undisturbed(disk, j)
  }

  lemma BackUpTrees(disk: Disk, j: Journal)
    requires Apart(j) && TreeShaped(disk) && Prepared(disk, j) && Old(j) != map[] && Creatable(disk, j.backup)
    ensures j.backup !in disk && j.destination in disk && Absent(disk, j.backup)
    ensures TreeShaped(Moved(disk, j.destination, j.backup))
    ensures BackedUp(Moved(disk, j.destination, j.backup), j)
  {
    GoneMeansEmpty(disk, j);
    AbsentIfMissing(disk, j.backup);
    MovedTrees(disk, j.destination, j.backup);
    MovedTreeShaped(disk, j.destination, j.backup);
    GoneMeansEmpty(Moved(disk, j.destination, j.backup), j);
  }

  lemma SiblingCreatable(disk: Disk, p: Path, q: Path)
    requires p != [] && q != [] && Parent(p) == Parent(q) && Creatable(disk, p)
    ensures Creatable(disk, q)
  {
    assert |Parent(p)| == |p| - 1 && |Parent(q)| == |q| - 1;
  }

  /** The destination's tree moves aside. */
  lemma BackUp(disk: Disk, j: Journal)
    requires Apart(j) && !j.committed && TreeShaped(disk) && Prepared(disk, j) && Old(j) != map[] && Undisturbed(disk, j)
    ensures j.backup !in disk && j.destination in disk && Creatable(disk, j.backup)
    ensures TreeShaped(Moved(disk, j.destination, j.backup))
    ensures BackedUp(Moved(disk, j.destination, j.backup), j)
    ensures SameElsewhere(disk, Moved(disk, j.destination, j.backup), j)
    ensures Undisturbed(Moved(disk, j.destination, j.backup), j)
  {
    SiblingCreatable(disk, j.destination, j.backup);
    BackUpTrees(disk, j);
    forall q | Elsewhere(j, q) ensures SameAt(disk, Moved(disk, j.destination, j.backup), q) {
      MovedAt(disk, j.destination, j.backup, q);
    }
    MovedCreatable(disk, j.destination, j.backup, j.destination);
    if j.copyStage.Some? {
      BackedUpHasStage(disk, j);
      MovedStage(disk, j, j.destination, j.backup, j.copyStage.value);
    } else {
      MovedCreatable(disk, j.destination, j.backup, j.source);
    }
  }

  lemma PublishTrees(disk: Disk, j: Journal)
    requires Apart(j) && TreeShaped(disk) && BackedUp(disk, j) && Creatable(disk, j.destination)
    ensures j.destination !in disk && j.source in disk && Absent(disk, j.destination)
    ensures TreeShaped(Moved(disk, j.source, j.destination))
    ensures Published(Moved(disk, j.source, j.destination), j)
  {
    GoneMeansEmpty(disk, j);
    AbsentIfMissing(disk, j.destination);
    MovedTrees(disk, j.source, j.destination);
    MovedTreeShaped(disk, j.source, j.destination);
    GoneMeansEmpty(Moved(disk, j.source, j.destination), j);
  }

  lemma PublishStage(disk: Disk, j: Journal, stage: Path)
    requires Apart(j) && j.copyStage == Some(stage) && Absent(disk, j.destination)
    requires StageClean(disk, j, stage) && stage in disk
    ensures StageClean(Moved(disk, j.source, j.destination), j, stage)
  {
    var disk' := Moved(disk, j.source, j.destination);
    MovedAt(disk, j.source, j.destination, stage);
    forall q | q in disk' ensures !(stage < q) {
      MovedAt(disk, j.source, j.destination, q);
      if stage < q && j.destination <= q {
        PrefixesNest(j.destination, stage, q);
      }
    }
  }

  /** The new tree takes the destination's name. */
  lemma Publish(disk: Disk, j: Journal)
    requires Apart(j) && !j.committed && TreeShaped(disk) && BackedUp(disk, j) && Undisturbed(disk, j)
    ensures j.destination !in disk && j.source in disk
    ensures TreeShaped(Moved(disk, j.source, j.destination))
    ensures Published(Moved(disk, j.source, j.destination), j)
    ensures SameElsewhere(disk, Moved(disk, j.source, j.destination), j)
    ensures Undisturbed(Moved(disk, j.source, j.destination), j)
  {
    PublishTrees(disk, j);
    forall q | Elsewhere(j, q) ensures SameAt(disk, Moved(disk, j.source, j.destination), q) {
      MovedAt(disk, j.source, j.destination, q);
    }
    MovedCreatable(disk, j.source, j.destination, j.destination);
    if j.copyStage.Some? {
      BackedUpHasStage(disk, j);
      PublishStage(disk, j, j.copyStage.value);
    } else {
      MovedCreatable(disk, j.source, j.destination, j.source);
    }
  }

  /** The complete new tree in place, no backup and no stage. */
  ghost predicate SettledNew(disk: Disk, j: Journal) {
    Rel(disk, j.destination) == New(j) && Settled(disk, Committed(j))
  }

  function Committed(j: Journal): Journal {
    j.(committed := true)
  }

  /** Marking a published replacement committed keeps it recoverable, now towards the new tree. */
  lemma Commit(disk: Disk, j: Journal)
    requires !j.committed && InFlight(disk, j) == true && Published(disk, j) == true
    ensures InFlight(disk, Committed(j)) == true
  {
    ValidIsApart(j);
    PublishedNotRestored(disk, j);
    UndisturbedIsSafe(disk, j);
  }

  /** What a replacement may leave behind, wherever it stops: a journal in flight, or none
      and the volume as it was, rolled back, or with the complete new tree. */
  ghost predicate Left(before: Disk, disk: Disk, journal: Option<Journal>, j: Journal) {
    && TreeShaped(disk) && SameElsewhere(before, disk, j)
    && match journal
      case None => disk == before || Settled(disk, j) || SettledNew(disk, j)
      case Some(left) => (left == j || left == Committed(j)) && InFlight(disk, left)
  }

  lemma SameElsewhereChains(a: Disk, b: Disk, c: Disk, j: Journal, k: Journal)
    requires SameElsewhere(a, b, j) == true && SameElsewhere(b, c, k) == true && (k == j || k == Committed(j))
    ensures SameElsewhere(a, c, j) == true
  {
    forall q | Elsewhere(j, q) ensures SameAt(a, c, q) {
      assert Elsewhere(k, q);
      assert SameAt(a, b, q) && SameAt(b, c, q);
    }
  }

  lemma InFlightIsLeft(before: Disk, disk: Disk, j: Journal, k: Journal)
    requires SameElsewhere(before, disk, j) == true && InFlight(disk, k) == true && (k == j || k == Committed(j))
    ensures Left(before, disk, Some(k), j) == true
  {
  }

  lemma ReadyIsLeft(disk: Disk, j: Journal)
    requires ReadyToStart(disk, j) == true
    ensures Left(disk, disk, None, j) == true && Left(disk, disk, Some(j), j) == true
  {
    UndisturbedIsInFlight(disk, j);
  }

  /** What a recovery of a replacement in flight leaves behind. */
  lemma RecoveryLeaves(before: Disk, disk: Disk, log: seq<Item>, j: Journal, k: Journal, disk': Disk, log': seq<Item>, journal': Option<Journal>)
    requires SameElsewhere(before, disk, j) == true && InFlight(disk, k) == true
    requires Progress(k, disk, log, disk', log') == true
    requires journal' == Some(k) || (journal' == None && Settled(disk', k) == true)
    requires (k == j && !j.committed) || k == Committed(j)
    ensures Left(before, disk', journal', j) == true
    ensures journal' == None && k == Committed(j) ==> SettledNew(disk', j) == true
  {
    SameElsewhereChains(before, disk, disk', j, k);
    if journal' == Some(k) {
      UndisturbedIsInFlight(disk', k);
    }
  }

  // ----- whole operations -----

  /** Move an existing tree, or build one at `stage`/payload out of the objects the copy writes. */
  datatype Plan = Move(src: Path) | Copy(stage: Path, stageEntry: Entry, written: Disk)

  function SourceOf(plan: Plan): Path {
    match plan
    case Move(src) => src
    case Copy(stage, _, _) => stage + ["payload"]
  }

  function StageOf(plan: Plan): Option<Path> {
    if plan.Move? then None else Some(plan.stage)
  }

  function BackupOf(dst: Path, id: string): Path
    requires dst != []
  {
    Parent(dst) + [".birak-bak-" + id]
  }

  function JournalFor(dst: Path, plan: Plan, id: string, oldTree: seq<Item>, newTree: seq<Item>): Journal
    requires dst != []
  {
    Journal(1, dst, SourceOf(plan), BackupOf(dst, id), StageOf(plan), oldTree, newTree, false)
  }

  /** A temporary directory has a fresh name beside the destination, and the copy writes a tree below it. */
  ghost predicate Stageable(disk: Disk, dst: Path, plan: Plan) {
    plan.Copy? ==>
      && dst != [] && plan.stage != [] && Parent(plan.stage) == Parent(dst)
      && ".birak-tmp-replace-" <= Base(plan.stage) && plan.stage !in disk && plan.stage != dst
      && plan.stageEntry.kind.Directory? && plan.stageEntry.identity != 0
      && (forall q :: q in plan.written ==> SourceOf(plan) <= q && plan.written[q].identity != 0)
      && (forall q {:trigger Parent(q)} :: q in plan.written && q != SourceOf(plan) ==> IsDirectory(plan.written, Parent(q)))
  }

  function Staged(disk: Disk, plan: Plan): Disk {
    match plan
    case Move(_) => disk
    case Copy(stage, entry, written) => disk[stage := entry] + written
  }

  /** The tree that is to appear at the destination. */
  ghost function Wanted(disk: Disk, plan: Plan): map<Path, Entry> {
    match plan
    case Move(src) => Rel(disk, src)
    case Copy(stage, _, written) => Rel(written, SourceOf(plan))
  }

  /** Nothing outside a copy's stage differs. */
  ghost predicate OnlyStage(disk: Disk, disk': Disk, plan: Plan) {
    forall q :: (plan.Copy? ==> !(plan.stage <= q)) ==> SameAt(disk, disk', q)
  }

  lemma MadeStage(disk: Disk, dst: Path, plan: Plan)
    requires TreeShaped(disk) && plan.Copy? && Stageable(disk, dst, plan) && Creatable(disk, dst)
    ensures TreeShaped(disk[plan.stage := plan.stageEntry]) && OnlyStage(disk, disk[plan.stage := plan.stageEntry], plan)
  {
    SiblingCreatable(disk, dst, plan.stage);
    var disk' := disk[plan.stage := plan.stageEntry];
    forall q | q in disk' && |q| > 1 ensures IsDirectory(disk', Parent(q)) {
      assert IsDirectory(disk, Parent(q));
    }
  }

  lemma StagedShape(disk: Disk, dst: Path, plan: Plan)
    requires TreeShaped(disk) && Stageable(disk, dst, plan) && Creatable(disk, dst)
    ensures TreeShaped(Staged(disk, plan)) && OnlyStage(disk, Staged(disk, plan), plan)
    ensures Creatable(Staged(disk, plan), dst)
  {
    if plan.Copy? {
      MadeStage(disk, dst, plan);
      AbsentIfMissing(disk, plan.stage);
      var disk' := Staged(disk, plan);
      forall q | q in disk' && |q| > 1 ensures IsDirectory(disk', Parent(q)) {
        if q in plan.written && q == SourceOf(plan) {
          assert Parent(q) == plan.stage;
        }
      }
    }
  }

  lemma StagedTrees(disk: Disk, dst: Path, plan: Plan)
    requires TreeShaped(disk) && Stageable(disk, dst, plan) && dst != []
    requires plan.Copy? ==> Disjoint(plan.stage, dst)
    ensures Rel(Staged(disk, plan), SourceOf(plan)) == Wanted(disk, plan)
    ensures Rel(Staged(disk, plan), dst) == Rel(disk, dst)
  {
    if plan.Copy? {
      AbsentIfMissing(disk, plan.stage);
      var src := SourceOf(plan);
      var disk' := Staged(disk, plan);
      forall q | src <= q ensures SameAt(plan.written, disk', q) {
        assert plan.stage <= q;
      }
      RelSame(plan.written, disk', src);
      forall q | dst <= q ensures SameAt(disk, disk', q) {
        if plan.stage <= q { PrefixesNest(plan.stage, dst, q); }
      }
      RelSame(disk, disk', dst);
    }
  }

  lemma StagedClean(disk: Disk, dst: Path, plan: Plan, j: Journal)
    requires TreeShaped(disk) && plan.Copy? && Stageable(disk, dst, plan) && j.source == SourceOf(plan)
    ensures StageClean(Staged(disk, plan), j, plan.stage)
  {
    AbsentIfMissing(disk, plan.stage);
  }

  /** What a caller can check beforehand: there is something to put in place, the
      destination's directory exists, and the names are acceptable and free. */
  ghost predicate Feasible(disk: Disk, dst: Path, plan: Plan, id: string) {
    && Creatable(disk, dst) && SourceOf(plan) in Staged(disk, plan) && Sane(Staged(disk, plan))
    && ValidPaths(JournalFor(dst, plan, id, [], [])) && BackupOf(dst, id) !in Staged(disk, plan)
  }

  /** Fills in the journal from the staged volume. */
  method Draft(disk: Disk, dst: Path, plan: Plan, id: string) returns (o: Outcome, j: Journal)
    requires TreeShaped(disk) && dst != []
    ensures o == Ok || o == Error
    ensures o == Ok ==> ValidJournal(j) && Prepared(disk, j) && SourceOf(plan) in disk
    ensures o == Ok ==> j == JournalFor(dst, plan, id, j.oldTree, j.newTree)
    ensures Sane(disk) && SourceOf(plan) in disk && ValidPaths(JournalFor(dst, plan, id, [], [])) && BackupOf(dst, id) !in disk ==> o == Ok
  {
    j := JournalFor(dst, plan, id, [], []);
    if SourceOf(plan) == [] {
      return Error, j;
    }
    var newTree := ReplacementTree(disk, SourceOf(plan));
    if newTree == [] {
      return Error, j;
    }
    var oldTree := ReplacementTree(disk, dst);
    if BackupOf(dst, id) in disk {
      return Error, j;
    }
    j := JournalFor(dst, plan, id, oldTree, newTree);
    var valid := ValidateReplacement(j);
    o := if valid then Ok else Error;
  }

  /** The volume is staged and `j` is the journal of this operation on it. */
  ghost predicate Drafted(before: Disk, disk: Disk, dst: Path, plan: Plan, id: string, j: Journal)
    requires dst != []
  {
    && disk == Staged(before, plan) && OnlyStage(before, disk, plan) && ReadyToStart(disk, j)
    && j == JournalFor(dst, plan, id, j.oldTree, j.newTree)
    && Old(j) == Rel(before, dst) && New(j) == Wanted(before, plan)
  }

  lemma DraftIsReady(disk: Disk, dst: Path, plan: Plan, id: string, j: Journal)
    requires TreeShaped(disk) && Stageable(disk, dst, plan) && Creatable(disk, dst)
    requires ValidJournal(j) && Prepared(Staged(disk, plan), j) && SourceOf(plan) in Staged(disk, plan)
    requires j == JournalFor(dst, plan, id, j.oldTree, j.newTree)
    ensures Drafted(disk, Staged(disk, plan), dst, plan, id, j) == true
  {
    ValidIsApart(j);
    StagedShape(disk, dst, plan);
    StagedTrees(disk, dst, plan);
    if plan.Copy? {
      StagedClean(disk, dst, plan, j);
    } else {
      assert Creatable(disk, j.source) by {
        assert |j.source| > 1 ==> IsDirectory(disk, Parent(j.source));
      }
    }
  }

  /** The volume during and after an operation: nothing else changed, and either a journal of
      this very operation is in flight, or the destination holds all of the old tree (with a
      moved source where it was), or all of the new one. */
  ghost predicate Atomic(before: Disk, disk: Disk, journal: Option<Journal>, dst: Path, plan: Plan, id: string)
    requires dst != []
  {
    && TreeShaped(disk)
    && (forall q :: Unconcerned(dst, plan, id, q) ==> SameAt(before, disk, q))
    && match journal
      case None =>
        && (BackupOf(dst, id) in disk ==> BackupOf(dst, id) in before)
        && (|| (Rel(disk, dst) == Rel(before, dst) && (plan.Move? ==> Rel(disk, plan.src) == Rel(before, plan.src)))
            || Rel(disk, dst) == Wanted(before, plan))
      case Some(j) =>
        && InFlight(disk, j)
        && j == JournalFor(dst, plan, id, j.oldTree, j.newTree).(committed := j.committed)
        && Old(j) == Rel(before, dst) && New(j) == Wanted(before, plan)
  }

  predicate Unconcerned(dst: Path, plan: Plan, id: string, q: Path)
    requires dst != []
  {
    && !(dst <= q) && !(SourceOf(plan) <= q) && !(BackupOf(dst, id) <= q)
    && (plan.Copy? ==> !(plan.stage <= q))
  }

  /** Stopping before the journal exists leaves the destination and a moved source alone. */
  lemma UnstartedIsAtomic(before: Disk, disk: Disk, dst: Path, plan: Plan, id: string)
    requires TreeShaped(disk) && OnlyStage(before, disk, plan) && dst != [] && Stageable(before, dst, plan)
    ensures Atomic(before, disk, None, dst, plan, id) == true
  {
    if plan.Copy? {
      SiblingsDisjoint(plan.stage, dst);
      assert Base(plan.stage)[7] == 't' && Base(BackupOf(dst, id))[7] == 'b';
      SiblingsDisjoint(plan.stage, BackupOf(dst, id));
    }
    forall q | dst <= q ensures SameAt(before, disk, q) {
      if plan.Copy? && plan.stage <= q { PrefixesNest(plan.stage, dst, q); }
    }
    RelSame(before, disk, dst);
    assert SameAt(before, disk, BackupOf(dst, id));
    if plan.Move? {
      RelSame(before, disk, plan.src);
    }
  }

  lemma LeftFrame(before: Disk, mid: Disk, disk: Disk, dst: Path, plan: Plan, id: string, j: Journal)
    requires dst != [] && OnlyStage(before, mid, plan) && SameElsewhere(mid, disk, j)
    requires j == JournalFor(dst, plan, id, j.oldTree, j.newTree)
    ensures forall q :: Unconcerned(dst, plan, id, q) ==> SameAt(before, disk, q)
  {
    forall q | Unconcerned(dst, plan, id, q) ensures SameAt(before, disk, q) {
      assert Elsewhere(j, q);
      assert SameAt(before, mid, q);
    }
  }

  lemma LeftIsAtomic(before: Disk, mid: Disk, disk: Disk, journal: Option<Journal>, dst: Path, plan: Plan, id: string, j: Journal)
    requires dst != [] && Stageable(before, dst, plan) == true && OnlyStage(before, mid, plan) == true
    requires j == JournalFor(dst, plan, id, j.oldTree, j.newTree)
    requires Old(j) == Rel(before, dst) && New(j) == Wanted(before, plan)
    requires Left(mid, disk, journal, j) == true
    ensures Atomic(before, disk, journal, dst, plan, id) == true
  {
    if disk == mid && journal == None {
      UnstartedIsAtomic(before, disk, dst, plan, id);
    } else {
      LeftFrame(before, mid, disk, dst, plan, id, j);
    }
  }

  /** Any recovery, complete or not, of an operation in flight keeps it atomic. */
  lemma RecoveredIsAtomic(before: Disk, disk: Disk, log: seq<Item>, k: Journal, disk': Disk, log': seq<Item>,
    journal': Option<Journal>, dst: Path, plan: Plan, id: string)
    requires dst != [] && Atomic(before, disk, Some(k), dst, plan, id) == true
    requires Progress(k, disk, log, disk', log') == true
    requires journal' == Some(k) || (journal' == None && Settled(disk', k) == true)
    ensures Atomic(before, disk', journal', dst, plan, id) == true
  {
    forall q | Unconcerned(dst, plan, id, q) ensures SameAt(before, disk', q) {
      assert Elsewhere(k, q);
      assert SameAt(before, disk, q) && SameAt(disk, disk', q);
    }
    if journal' == Some(k) {
      UndisturbedIsInFlight(disk', k);
    }
  }

  lemma OnlyStageChains(a: Disk, b: Disk, c: Disk, plan: Plan)
    requires plan.Copy? && OnlyStage(a, b, plan) && Pruned(b, c, plan.stage)
    ensures OnlyStage(a, c, plan)
  {
    forall q | !(plan.stage <= q) ensures SameAt(a, c, q) {
      assert SameAt(a, b, q);
    }
  }

  // ----- several journals -----

  ghost function TreesOf(j: Journal): set<Path> {
    {j.destination, j.source, j.backup} + if j.copyStage.Some? then {j.copyStage.value} else {}
  }

  /** No tree of one overlaps a tree of the other. */
  ghost predicate Separate(j: Journal, k: Journal) {
    forall a, c :: a in TreesOf(j) && c in TreesOf(k) ==> Disjoint(a, c)
  }

  /** `q` is in, or leads to, a tree of `k`. */
  ghost predicate Near(k: Journal, q: Path) {
    exists c :: c in TreesOf(k) && (q <= c || c <= q)
  }

  /** All that matters to a journal is as it was. */
  ghost predicate SameFor(disk: Disk, disk': Disk, k: Journal) {
    forall q :: Near(k, q) ==> SameAt(disk, disk', q)
  }

  lemma NearIsElsewhere(j: Journal, k: Journal, q: Path)
    requires Separate(j, k) && Near(k, q)
    ensures Elsewhere(j, q)
  {
    var c :| c in TreesOf(k) && (q <= c || c <= q);
    forall a | a in TreesOf(j) ensures !(a <= q) {
      assert Disjoint(a, c);
      if a <= q && c <= q {
        PrefixesNest(a, c, q);
      }
    }
    assert j.destination in TreesOf(j) && j.source in TreesOf(j) && j.backup in TreesOf(j);
    assert j.copyStage.Some? ==> j.copyStage.value in TreesOf(j);
  }

  lemma OthersStay(j: Journal, k: Journal, disk: Disk, disk': Disk)
    requires Separate(j, k) && SameElsewhere(disk, disk', j)
    ensures SameFor(disk, disk', k) == true
  {
    forall q | Near(k, q) ensures SameAt(disk, disk', q) {
      NearIsElsewhere(j, k, q);
    }
  }

  lemma SameForChains(a: Disk, b: Disk, c: Disk, k: Journal)
    requires SameFor(a, b, k) && SameFor(b, c, k)
    ensures SameFor(a, c, k) == true
  {
    forall q | Near(k, q) ensures SameAt(a, c, q) {
      assert SameAt(a, b, q) && SameAt(b, c, q);
    }
  }

  lemma SameTree(disk: Disk, disk': Disk, k: Journal, c: Path)
    requires SameFor(disk, disk', k) && c in TreesOf(k)
    ensures Rel(disk', c) == Rel(disk, c) && SameAt(disk, disk', c)
  {
    forall q | c <= q ensures SameAt(disk, disk', q) {
      assert Near(k, q);
    }
    RelSame(disk, disk', c);
  }

  lemma SameTrees(disk: Disk, disk': Disk, k: Journal)
    requires SameFor(disk, disk', k)
    ensures Rel(disk', k.destination) == Rel(disk, k.destination) && SameAt(disk, disk', k.destination)
    ensures Rel(disk', k.source) == Rel(disk, k.source) && SameAt(disk, disk', k.source)
    ensures Rel(disk', k.backup) == Rel(disk, k.backup) && SameAt(disk, disk', k.backup)
    ensures k.copyStage.Some? ==> SameAt(disk, disk', k.copyStage.value)
  {
    SameTree(disk, disk', k, k.destination);
    SameTree(disk, disk', k, k.source);
    SameTree(disk, disk', k, k.backup);
    if k.copyStage.Some? {
      SameTree(disk, disk', k, k.copyStage.value);
    }
  }

  lemma SameConsistent(disk: Disk, disk': Disk, k: Journal)
    requires SameFor(disk, disk', k) == true
    ensures Consistent(disk', k) <==> Consistent(disk, k)
    ensures Settled(disk', k) <==> Settled(disk, k)
    ensures Restored(disk', k) <==> Restored(disk, k)
  {
    SameTrees(disk, disk', k);
  }

  lemma SameParents(disk: Disk, disk': Disk, k: Journal, c: Path)
    requires SameFor(disk, disk', k) && c in TreesOf(k)
    ensures ParentsAreDirectories(disk', c) <==> ParentsAreDirectories(disk, c)
    ensures Creatable(disk', c) <==> Creatable(disk, c)
  {
    forall i | 0 < i < |c| ensures SameAt(disk, disk', c[..i]) {
      assert c[..i] <= c && Near(k, c[..i]);
    }
    if |c| > 1 {
      assert Parent(c) == c[..|c| - 1] && SameAt(disk, disk', c[..|c| - 1]);
    }
  }

  lemma SameAcceptable(disk: Disk, disk': Disk, k: Journal)
    requires SameFor(disk, disk', k) == true
    ensures Acceptable(disk', k) <==> Acceptable(disk, k)
    ensures Recoverable(disk', k) <==> Recoverable(disk, k)
  {
    SameParents(disk, disk', k, k.source);
    SameParents(disk, disk', k, k.destination);
    SameParents(disk, disk', k, k.backup);
    SameConsistent(disk, disk', k);
  }

  lemma SameUndisturbed(disk: Disk, disk': Disk, k: Journal)
    requires SameFor(disk, disk', k) && Undisturbed(disk, k)
    ensures Undisturbed(disk', k) == true
  {
    SameParents(disk, disk', k, k.source);
    SameParents(disk, disk', k, k.destination);
    SameConsistent(disk, disk', k);
    SameTrees(disk, disk', k);
    if k.copyStage.Some? {
      var stage := k.copyStage.value;
      forall q | q in disk' && stage < q ensures k.source <= q {
        assert Near(k, q) && SameAt(disk, disk', q);
      }
    }
  }

  lemma SameInFlight(disk: Disk, disk': Disk, k: Journal)
    requires SameFor(disk, disk', k) == true && InFlight(disk, k) && TreeShaped(disk')
    ensures InFlight(disk', k) == true
  {
    SameAcceptable(disk, disk', k);
    SameUndisturbed(disk, disk', k);
  }

  ghost predicate AllSeparate(journals: seq<Journal>) {
    forall i, j :: 0 <= i < |journals| && 0 <= j < |journals| && i != j ==> Separate(journals[i], journals[j])
  }

  /** The first `n` journals are settled; all that matters to the others is as it was. */
  ghost predicate DoneUpTo(before: Disk, disk: Disk, journals: seq<Journal>, n: nat) {
    && n <= |journals|
    && (forall i :: 0 <= i < n ==> Settled(disk, journals[i]) == true)
    && (forall i :: n <= i < |journals| ==> SameFor(before, disk, journals[i]) == true)
  }

  ghost predicate FarFromAll(journals: seq<Journal>, q: Path) {
    forall i :: 0 <= i < |journals| ==> Elsewhere(journals[i], q)
  }

  ghost predicate SameFar(before: Disk, disk: Disk, journals: seq<Journal>) {
    forall q :: FarFromAll(journals, q) ==> SameAt(before, disk, q)
  }

  /** What became of a journal that is still there: it is as recoverable as before, or was
      not looked at. */
  ghost predicate StillThere(before: Disk, disk: Disk, k: Journal) {
    if Recoverable(before, k) then Recoverable(disk, k) == true && (Undisturbed(before, k) ==> Undisturbed(disk, k) == true)
    else SameFor(before, disk, k) == true
  }

  lemma SameIsStillThere(before: Disk, disk: Disk, k: Journal)
    requires SameFor(before, disk, k) == true
    ensures StillThere(before, disk, k) == true
  {
    SameAcceptable(before, disk, k);
    if Undisturbed(before, k) {
      SameUndisturbed(before, disk, k);
    }
  }

  lemma InFlightStays(before: Disk, disk: Disk, k: Journal)
    requires InFlight(before, k) && StillThere(before, disk, k) && TreeShaped(disk)
    ensures InFlight(disk, k) == true
  {
  }

  lemma ParentStays(j: Journal, disk: Disk, log: seq<Item>, disk': Disk, log': seq<Item>, c: Path, i: nat)
    requires Apart(j) && Progress(j, disk, log, disk', log') && (c == j.source || c == j.destination || c == j.backup)
    requires 0 < i < |c| && c[..i] in disk'
    ensures SameAt(disk, disk', c[..i])
  {
    var p := c[..i];
    assert p < c;
    if j.copyStage != Some(p) {
      assert Elsewhere(j, p);
    }
  }

  /** A recovery, complete or not, keeps the parents it insists on. */
  lemma ProgressKeepsParents(j: Journal, disk: Disk, log: seq<Item>, disk': Disk, log': seq<Item>, c: Path)
    requires Apart(j) && Progress(j, disk, log, disk', log') == true && (c == j.source || c == j.destination || c == j.backup)
    requires ParentsAreDirectories(disk, c)
    ensures ParentsAreDirectories(disk', c) == true
  {
    forall i | 0 < i < |c| && c[..i] in disk' ensures IsDirectory(disk', c[..i]) {
      ParentStays(j, disk, log, disk', log', c, i);
    }
  }

  lemma ProgressIsStillThere(j: Journal, disk: Disk, log: seq<Item>, disk': Disk, log': seq<Item>)
    requires ValidJournal(j) && SafeToRecover(disk, j) && Progress(j, disk, log, disk', log')
    ensures Recoverable(disk', j) == true && (Undisturbed(disk, j) ==> Undisturbed(disk', j) == true)
  {
    ValidIsApart(j);
    ProgressKeepsParents(j, disk, log, disk', log', j.source);
    ProgressKeepsParents(j, disk, log, disk', log', j.destination);
    ProgressKeepsParents(j, disk, log, disk', log', j.backup);
  }

  /** Recovering journal `n` disturbs no other. */
  lemma OthersKept(before: Disk, disk: Disk, disk': Disk, journals: seq<Journal>, n: nat, i: nat)
    requires AllSeparate(journals) && DoneUpTo(before, disk, journals, n) && n < |journals| && i < |journals| && i != n
    requires SameElsewhere(disk, disk', journals[n])
    ensures if i < n then Settled(disk', journals[i]) == true else SameFor(before, disk', journals[i]) == true
  {
    OthersStay(journals[n], journals[i], disk, disk');
    if i < n {
      SameConsistent(disk, disk', journals[i]);
    } else {
      SameForChains(before, disk, disk', journals[i]);
    }
  }

  /** Recovering stopped at journal `n`. */
  ghost predicate LeftAt(before: Disk, disk: Disk, journals: seq<Journal>, n: nat) {
    && n < |journals| && (forall i :: 0 <= i < n ==> Settled(disk, journals[i]) == true)
    && (forall i :: n <= i < |journals| ==> StillThere(before, disk, journals[i]) == true)
  }

  lemma SameStanding(before: Disk, disk: Disk, k: Journal)
    requires SameFor(before, disk, k) == true
    ensures (Acceptable(disk, k) == true) <==> (Acceptable(before, k) == true)
    ensures (Consistent(disk, k) == true) <==> (Consistent(before, k) == true)
    ensures InFlight(before, k) ==> Recoverable(disk, k) == true && Undisturbed(disk, k) == true
  {
    SameAcceptable(before, disk, k);
    SameConsistent(before, disk, k);
    if InFlight(before, k) {
      SameUndisturbed(before, disk, k);
    }
  }

  /** What recovering journal `n` of several leaves of it and of the others. */
  lemma OneRecovered(before: Disk, disk: Disk, log: seq<Item>, disk': Disk, log': seq<Item>, journals: seq<Journal>, n: nat, gone: bool)
    requires AllSeparate(journals) == true && n < |journals| && DoneUpTo(before, disk, journals, n) == true && SameFar(before, disk, journals) == true
    requires if Recoverable(disk, journals[n]) then Progress(journals[n], disk, log, disk', log') == true else disk' == disk && !gone
    requires gone ==> Settled(disk', journals[n]) == true
    ensures SameFar(before, disk', journals) == true
    ensures if gone then DoneUpTo(before, disk', journals, n + 1) == true else LeftAt(before, disk', journals, n) == true
  {
    var j := journals[n];
    if Recoverable(disk, j) {
      FarKept(before, disk, disk', journals, n);
      ProgressIsStillThere(j, disk, log, disk', log');
      OneStillThere(before, disk, disk', j);
      forall i | 0 <= i < |journals| && i != n
        ensures if i < n then Settled(disk', journals[i]) == true else SameFor(before, disk', journals[i]) == true
      {
        OthersKept(before, disk, disk', journals, n, i);
      }
    }
    forall i | n <= i < |journals| && (i > n || !Recoverable(disk, j)) ensures StillThere(before, disk', journals[i]) == true {
      SameIsStillThere(before, disk', journals[i]);
    }
  }

  lemma OneStillThere(before: Disk, disk: Disk, disk': Disk, k: Journal)
    requires SameFor(before, disk, k) == true && Recoverable(disk', k) == true && (Undisturbed(disk, k) ==> Undisturbed(disk', k) == true)
    requires Recoverable(disk, k)
    ensures StillThere(before, disk', k) == true
  {
    SameAcceptable(before, disk, k);
    if Undisturbed(before, k) {
      SameUndisturbed(before, disk, k);
    }
  }

  lemma StartsUndone(disk: Disk, journals: seq<Journal>)
    ensures DoneUpTo(disk, disk, journals, 0) == true && SameFar(disk, disk, journals) == true
  {
    forall k: Journal, q | Near(k, q) ensures SameAt(disk, disk, q) {}
  }

  lemma DoneIsLeft(before: Disk, disk: Disk, journals: seq<Journal>, n: nat)
    requires DoneUpTo(before, disk, journals, n)
    ensures forall i :: n <= i < |journals| ==> StillThere(before, disk, journals[i]) == true
  {
    forall i | n <= i < |journals| ensures StillThere(before, disk, journals[i]) == true {
      SameIsStillThere(before, disk, journals[i]);
    }
  }

  lemma RestSeparate(journals: seq<Journal>, done: nat)
    requires AllSeparate(journals) && done <= |journals|
    ensures AllSeparate(journals[done..]) == true
  {
  }

  /** Recovering the journals after `done` leaves those before it settled. */
  lemma SettledStays(disk: Disk, disk': Disk, journals: seq<Journal>, done: nat, i: nat)
    requires AllSeparate(journals) && i < done <= |journals| && SameFar(disk, disk', journals[done..]) && Settled(disk, journals[i])
    ensures Settled(disk', journals[i]) == true
  {
    forall q | Near(journals[i], q) ensures SameAt(disk, disk', q) {
      forall j | 0 <= j < |journals[done..]| ensures Elsewhere(journals[done..][j], q) {
        NearIsElsewhere(journals[done + j], journals[i], q);
      }
      assert FarFromAll(journals[done..], q);
    }
    SameConsistent(disk, disk', journals[i]);
  }

  lemma FarChains(before: Disk, disk: Disk, disk': Disk, journals: seq<Journal>, done: nat)
    requires done <= |journals| && SameFar(before, disk, journals) && SameFar(disk, disk', journals[done..])
    ensures SameFar(before, disk', journals) == true
  {
    forall q | FarFromAll(journals, q) ensures SameAt(before, disk', q) {
      assert SameAt(before, disk, q) && FarFromAll(journals[done..], q);
    }
  }

  /** One recovery of the journals after `done`, of which `n` are settled. */
  lemma RoundKeeps(before: Disk, disk: Disk, disk': Disk, journals: seq<Journal>, done: nat, n: nat)
    requires AllSeparate(journals) == true && done + n <= |journals| && TreeShaped(disk')
    requires SameFar(before, disk, journals) == true && SameFar(disk, disk', journals[done..]) == true
    requires forall i :: 0 <= i < done ==> Settled(disk, journals[i]) == true
    requires forall i :: done <= i < |journals| ==> InFlight(disk, journals[i]) == true
    requires forall i :: 0 <= i < n ==> Settled(disk', journals[done..][i]) == true
    requires forall i :: n <= i < |journals[done..]| ==> StillThere(disk, disk', journals[done..][i]) == true
    ensures SameFar(before, disk', journals) == true
    ensures forall i :: 0 <= i < done + n ==> Settled(disk', journals[i]) == true
    ensures forall i :: done + n <= i < |journals| ==> InFlight(disk', journals[i]) == true
  {
    FarChains(before, disk, disk', journals, done);
    forall i | 0 <= i < done + n ensures Settled(disk', journals[i]) == true {
      if i < done {
        SettledStays(disk, disk', journals, done, i);
      } else {
        assert journals[i] == journals[done..][i - done];
      }
    }
    forall i | done + n <= i < |journals| ensures InFlight(disk', journals[i]) == true {
      assert journals[i] == journals[done..][i - done];
      InFlightStays(disk, disk', journals[i]);
    }
  }

  lemma FarKept(before: Disk, disk: Disk, disk': Disk, journals: seq<Journal>, n: nat)
    requires SameFar(before, disk, journals) && n < |journals| && SameElsewhere(disk, disk', journals[n])
    ensures SameFar(before, disk', journals) == true
  {
    forall q | FarFromAll(journals, q) ensures SameAt(before, disk', q) {
      assert Elsewhere(journals[n], q) && SameAt(before, disk, q);
    }
  }

  class Volume {
    var disk: Disk
    var journal: Option<Journal>
    var fates: seq<Fate>
    ghost var deleted: seq<Item>

    /** A volume as a cut left it. */
    constructor (disk: Disk, journal: Option<Journal>)
      ensures this.disk == disk && this.journal == journal && fates == [] && deleted == []
    {
      this.disk, this.journal, fates, deleted := disk, journal, [], [];
    }

    ghost predicate NoFaults()
      reads this
    {
      forall i :: 0 <= i < |fates| ==> fates[i] == Succeeds
    }

    method NextFate() returns (fate: Fate)
      modifies `fates
      ensures old(NoFaults()) ==> NoFaults() && fate == Succeeds
    {
      if fates == [] {
        return Succeeds;
      }
      fate, fates := fates[0], fates[1..];
    }

    /** Never called with something at `b`. */
    method Rename(a: Path, b: Path) returns (o: Outcome)
      requires TreeShaped(disk) && Disjoint(a, b) && b !in disk
      modifies `disk, `fates
      ensures disk == old(disk) || (a in old(disk) && Creatable(old(disk), b) && disk == Moved(old(disk), a, b))
      ensures o == Ok ==> a in old(disk) && Creatable(old(disk), b) && disk == Moved(old(disk), a, b)
      ensures o != Conflict
      ensures old(NoFaults()) ==> NoFaults()
      ensures old(NoFaults()) && a in old(disk) && Creatable(old(disk), b) ==> o == Ok
    {
      var fate := NextFate();
      if fate == Cut {
        return Stopped;
      }
      if fate == Refused || a !in disk || !Creatable(disk, b) {
        return Error;
      }
      disk := Moved(disk, a, b);
      return if fate == Unsynced then Error else Ok;
    }

    /** Removes a file, a link or an empty directory. */
    method Remove(p: Path) returns (o: Outcome)
      requires TreeShaped(disk) && p in disk
      modifies `disk, `fates, `deleted
      ensures o == Ok ==> Children(old(disk), p) == {} && disk == old(disk) - {p}
      ensures o == Ok ==> deleted == old(deleted) + [Item(p, old(disk)[p])]
      ensures o != Ok ==> disk == old(disk) && deleted == old(deleted)
      ensures o != Conflict
      ensures old(NoFaults()) ==> NoFaults() && (o == Ok <==> Children(old(disk), p) == {})
    {
      var fate := NextFate();
      if fate == Cut {
        return Stopped;
      }
      if fate == Refused || Children(disk, p) != {} {
        return Error;
      }
      deleted := deleted + [Item(p, disk[p])];
      disk := disk - {p};
      return Ok;
    }

    /** Removes a tree, children before parents. */
    method RemoveTree(p: Path) returns (o: Outcome)
      requires TreeShaped(disk) && p != []
      modifies `disk, `fates, `deleted
      ensures TreeShaped(disk) && Pruned(old(disk), disk, p)
      ensures LogsUnder(old(disk), p, old(deleted), deleted)
      ensures o == Ok ==> Absent(disk, p)
      ensures o != Conflict
      ensures old(NoFaults()) ==> NoFaults() && o == Ok
      decreases Subtree(disk, p)
    {
      if p !in disk {
        AbsentIfMissing(disk, p);
        return Ok;
      }
      ghost var disk0, log0 := disk, deleted;
      var todo := Children(disk, p);
      forall q | q in disk && p < q ensures q[|p|] in todo {
        BelowAChild(disk, p, q);
      }
      while todo != {}
        invariant TreeShaped(disk) && p in disk
        invariant Pruned(disk0, disk, p) && LogsUnder(disk0, p, log0, deleted)
        invariant forall q :: q in disk && p < q ==> q[|p|] in todo
        invariant old(NoFaults()) ==> NoFaults()
        decreases todo
      {
        var c :| c in todo;
        ghost var disk1, log1 := disk, deleted;
        assert p in Subtree(disk0, p) && p !in Subtree(disk, p + [c]);
        o := RemoveTree(p + [c]);
        PrunedNested(disk0, disk1, disk, p, c, log0, log1, deleted);
        if o != Ok {
          return;
        }
        todo := todo - {c};
        forall q | q in disk && p < q ensures q[|p|] in todo {
          AtOrUnderChild(p, c, q);
        }
      }
      forall c ensures c !in Children(disk, p) {
        ChildrenMember(disk, p, c);
        AtOrUnderChild(p, c, p + [c]);
      }
      RemovedTreeShaped(disk, p);
      o := Remove(p);
    }

    method RemoveJournal() returns (o: Outcome)
      requires journal.Some?
      modifies `journal, `fates
      ensures journal == old(journal) || journal == None
      ensures o == Ok ==> journal == None
      ensures o != Conflict
      ensures old(NoFaults()) ==> NoFaults() && o == Ok
    {
      var fate := NextFate();
      if fate == Cut {
        return Stopped;
      }
      if fate == Refused {
        return Error;
      }
      journal := None;
      return if fate == Unsynced then Error else Ok;
    }

    /** The published tree goes back to the source's name. */
    method UnpublishSource(j: Journal) returns (o: Outcome)
      requires Apart(j) && !j.committed && TreeShaped(disk) && Published(disk, j)
      modifies `disk, `fates
      ensures Progress(j, old(disk), deleted, disk, deleted)
      ensures o == Ok ==> BackedUp(disk, j)
      ensures StageThere(old(disk), j) ==> StageThere(disk, j)
      ensures o != Conflict
      ensures old(NoFaults()) ==> NoFaults()
      ensures old(NoFaults()) && (Undisturbed(old(disk), j) || StageThere(old(disk), j)) ==> o == Ok
    {
      GoneMeansEmpty(disk, j);
      if Undisturbed(disk, j) {
        PublishedNotRestored(disk, j);
        assert j.copyStage.Some? ==> Parent(j.source) == j.copyStage.value;
      }
      if Creatable(disk, j.source) {
        RollbackSource(disk, deleted, j);
      }
      AbsentIfMissing(disk, j.source);
      if StageThere(disk, j) {
        StageStaysMoved(disk, j, j.destination, j.source);
      }
      o := Rename(j.destination, j.source);
    }

    /** The backup goes back to the destination's name. */
    method RestoreDestination(j: Journal) returns (o: Outcome)
      requires Apart(j) && !j.committed && TreeShaped(disk) && BackedUp(disk, j)
      modifies `disk, `fates
      ensures Progress(j, old(disk), deleted, disk, deleted)
      ensures o == Ok ==> Restored(disk, j)
      ensures StageThere(old(disk), j) ==> StageThere(disk, j)
      ensures o != Conflict
      ensures old(NoFaults()) ==> NoFaults() && o == Ok
    {
      GoneMeansEmpty(disk, j);
      if j.oldTree == [] {
        return Ok;
      }
      assert j.oldTree[|j.oldTree| - 1].name in Old(j);
      RollbackDestination(disk, deleted, j);
      AbsentIfMissing(disk, j.destination);
      if StageThere(disk, j) {
        StageStaysMoved(disk, j, j.backup, j.destination);
      }
      o := Rename(j.backup, j.destination);
    }

    /** Takes an uncommitted replacement back to where it started, by renames alone. */
    method RollBack(j: Journal, standing: Standing) returns (o: Outcome)
      requires Apart(j) && !j.committed && TreeShaped(disk)
      requires standing == StandingOf(disk, j) != Conflicting
      modifies `disk, `fates
      ensures Progress(j, old(disk), deleted, disk, deleted) == true
      ensures o == Ok ==> Restored(disk, j) == true
      ensures StageThere(old(disk), j) ==> StageThere(disk, j)
      ensures o != Conflict
      ensures old(NoFaults()) ==> NoFaults()
      ensures old(NoFaults()) && (Undisturbed(old(disk), j) || StageThere(old(disk), j)) ==> o == Ok
    {
      NoProgressYet(j, disk, deleted);
      if standing == IsRestored {
        return Ok;
      }
      if standing == IsPublished {
        o := UnpublishSource(j);
        if o != Ok {
          return;
        }
      }
      ghost var disk1 := disk;
      o := RestoreDestination(j);
      ProgressChains(j, old(disk), deleted, disk1, deleted, disk, deleted);
    }

    method SweepCommitted(j: Journal) returns (o: Outcome)
      requires Apart(j) && j.committed && TreeShaped(disk) && Consistent(disk, j)
      modifies `disk, `fates, `deleted
      ensures Progress(j, old(disk), old(deleted), disk, deleted) == true
      ensures OnlyManifested(j, old(deleted), deleted) == true
      ensures o == Ok ==> Swept(disk, j) == true
      ensures StageThere(old(disk), j) ==> StageThere(disk, j)
      ensures o != Conflict
      ensures old(NoFaults()) ==> NoFaults() && o == Ok
    {
      o := RemoveTree(j.backup);
      SweepBackup(old(disk), old(deleted), j, disk, deleted);
      if StageThere(old(disk), j) {
        StageStaysPruned(old(disk), disk, j, j.backup);
      }
      RelEmpty(disk, j.backup);
      AbsentIfMissing(disk, j.backup);
    }

    method SweepRolledBack(j: Journal) returns (o: Outcome)
      requires Apart(j) && !j.committed && TreeShaped(disk) && Restored(disk, j)
      modifies `disk, `fates, `deleted
      ensures Progress(j, old(disk), old(deleted), disk, deleted) == true
      ensures OnlyManifested(j, old(deleted), deleted) == true
      ensures o == Ok ==> Swept(disk, j) == true
      ensures StageThere(old(disk), j) ==> StageThere(disk, j)
      ensures o != Conflict
      ensures old(NoFaults()) ==> NoFaults() && o == Ok
    {
      NoProgressYet(j, disk, deleted);
      assert OnlyManifested(j, deleted, deleted);
      if j.copyStage.None? {
        return Ok;
      }
      o := RemoveTree(j.source);
      SweepCopy(old(disk), old(deleted), j, disk, deleted);
      if StageThere(old(disk), j) {
        StageStaysPruned(old(disk), disk, j, j.source);
      }
      RelEmpty(disk, j.source);
      AbsentIfMissing(disk, j.source);
    }

    /** Removes the stage if it is empty. */
    method RemoveStage(j: Journal) returns (o: Outcome)
      requires Apart(j) && TreeShaped(disk) && Consistent(disk, j) && Swept(disk, j)
      requires j.copyStage.Some? && j.copyStage.value in disk ==> IsDirectory(disk, j.copyStage.value)
      modifies `disk, `fates, `deleted
      ensures Progress(j, old(disk), old(deleted), disk, deleted) == true
      ensures o == Ok ==> Settled(disk, j) == true
      ensures o != Conflict
      ensures old(NoFaults()) ==> NoFaults() && (Undisturbed(old(disk), j) ==> o == Ok)
      ensures deleted == old(deleted) || (StageThere(old(disk), j) && Children(old(disk), j.copyStage.value) == {}
        && deleted == old(deleted) + [Item(j.copyStage.value, old(disk)[j.copyStage.value])])
      ensures old(NoFaults()) && StageThere(old(disk), j) && Children(old(disk), j.copyStage.value) == {} ==> deleted != old(deleted)
    {
      StageRemoval(disk, deleted, j);
      if j.copyStage.None? || j.copyStage.value !in disk {
        return Ok;
      }
      o := Remove(j.copyStage.value);
    }

    /** Rolls an uncommitted replacement back, or cleans up after a committed one. */
    method RollBackOrSweep(j: Journal, standing: Standing) returns (o: Outcome)
      requires Apart(j) && TreeShaped(disk) && Consistent(disk, j)
      requires !j.committed ==> standing == StandingOf(disk, j) != Conflicting
      modifies `disk, `fates, `deleted
      ensures Progress(j, old(disk), old(deleted), disk, deleted) == true
      ensures o == Ok ==> Swept(disk, j) == true
      ensures StageThere(old(disk), j) ==> StageThere(disk, j)
      ensures o != Conflict
      ensures old(NoFaults()) ==> NoFaults()
      ensures old(NoFaults()) && (Undisturbed(old(disk), j) || StageThere(old(disk), j)) ==> o == Ok
      ensures OnlyManifested(j, old(deleted), deleted) == true
    {
      assert OnlyManifested(j, deleted, deleted);
      if j.committed {
        o := SweepCommitted(j);
        return;
      }
      o := RollBack(j, standing);
      if o != Ok {
        return;
      }
      ghost var disk1 := disk;
      o := SweepRolledBack(j);
      ProgressChains(j, old(disk), old(deleted), disk1, old(deleted), disk, deleted);
    }

    /** The sweep, and then the stage. */
    method SweepAll(j: Journal, standing: Standing) returns (o: Outcome)
      requires Apart(j) && TreeShaped(disk) && Consistent(disk, j)
      requires !j.committed ==> standing == StandingOf(disk, j) != Conflicting
      requires j.copyStage.Some? && j.copyStage.value in disk ==> IsDirectory(disk, j.copyStage.value)
      modifies `disk, `fates, `deleted
      ensures Progress(j, old(disk), old(deleted), disk, deleted) == true
      ensures Deletes(j, old(disk), old(deleted), deleted) == true
      ensures o == Ok ==> Settled(disk, j) == true
      ensures o != Conflict
      ensures old(NoFaults()) ==> NoFaults() && (Undisturbed(old(disk), j) ==> o == Ok)
      ensures old(NoFaults()) && StageThere(old(disk), j) && StageEmpties(old(disk), j, j.copyStage.value) ==>
        StageLast(j, old(disk), old(deleted), deleted) == true
    {
      o := RollBackOrSweep(j, standing);
      if o != Ok {
        return;
      }
      ghost var disk1, log1 := disk, deleted;
      if j.copyStage.Some? {
        StageEmptiesAfter(old(disk), old(deleted), disk, deleted, j, j.copyStage.value);
      }
      o := RemoveStage(j);
      ProgressChains(j, old(disk), old(deleted), disk1, log1, disk, deleted);
      if deleted != log1 {
        StageIsLast(j, old(disk), disk1, old(deleted), log1, deleted);
      }
    }

    /** Everything a recovery changes; the journal goes last. */
    method Repair(j: Journal, standing: Standing) returns (o: Outcome)
      requires Apart(j) && TreeShaped(disk) && Consistent(disk, j) && journal == Some(j)
      requires !j.committed ==> standing == StandingOf(disk, j) != Conflicting
      requires j.copyStage.Some? && j.copyStage.value in disk ==> IsDirectory(disk, j.copyStage.value)
      modifies this
      ensures Progress(j, old(disk), old(deleted), disk, deleted) == true
      ensures Deletes(j, old(disk), old(deleted), deleted) == true
      ensures journal == Some(j) || (journal == None && Settled(disk, j) == true)
      ensures o == Ok ==> journal == None
      ensures o != Conflict
      ensures old(NoFaults()) ==> NoFaults() && (Undisturbed(old(disk), j) ==> o == Ok)
      ensures old(NoFaults()) && StageThere(old(disk), j) && StageEmpties(old(disk), j, j.copyStage.value) ==>
        StageLast(j, old(disk), old(deleted), deleted) == true
    {
      o := SweepAll(j, standing);
      if o == Ok {
        o := RemoveJournal();
      }
    }

    /** Replays the journal: rolls an uncommitted replacement back, or cleans up after a
        committed one, unless the volume no longer holds what the journal recorded. It deletes
        what the manifests list and, without faults exactly if it empties, the stage. */
    method Recover() returns (o: Outcome)
      requires TreeShaped(disk) && journal.Some?
      modifies this
      ensures TreeShaped(disk)
      ensures o == Conflict <==> old(Acceptable(disk, journal.value) && !Consistent(disk, journal.value))
      ensures old(!Recoverable(disk, journal.value)) ==>
        o != Ok && disk == old(disk) && journal == old(journal) && deleted == old(deleted)
      ensures old(Recoverable(disk, journal.value)) ==>
        && Progress(old(journal).value, old(disk), old(deleted), disk, deleted) == true
        && Deletes(old(journal).value, old(disk), old(deleted), deleted) == true
      ensures old(NoFaults() && Recoverable(disk, journal.value) && StageThere(disk, journal.value)
          && StageEmpties(disk, journal.value, journal.value.copyStage.value)) ==>
        StageLast(old(journal).value, old(disk), old(deleted), deleted) == true
      ensures journal == old(journal) || (journal == None && Settled(disk, old(journal).value) == true)
      ensures o == Ok ==> journal == None
      ensures old(NoFaults()) ==> NoFaults()
      ensures old(NoFaults() && Recoverable(disk, journal.value) && Undisturbed(disk, journal.value)) ==> o == Ok
    {
      var j := journal.value;
      var standing;
      o, standing := Examine(disk, j);
      if o == Ok {
        ValidIsApart(j);
        if j.copyStage.Some? {
          assert j.source[..|j.copyStage.value|] == j.copyStage.value;
        }
        o := Repair(j, standing);
      }
    }

    /** Recovers one of several journals. */
    method RecoverOne(journals: seq<Journal>, i: nat, ghost before: Disk) returns (o: Outcome)
      requires TreeShaped(disk) && AllSeparate(journals) == true && i < |journals|
      requires DoneUpTo(before, disk, journals, i) == true && SameFar(before, disk, journals) == true
      modifies this
      ensures TreeShaped(disk) && SameFar(before, disk, journals) == true && (o == Ok ==> journal == None)
      ensures journal == None ==> DoneUpTo(before, disk, journals, i + 1) == true
      ensures journal != None ==> LeftAt(before, disk, journals, i) == true
      ensures o == Conflict ==> journal != None && Acceptable(before, journals[i]) && !Consistent(before, journals[i])
      ensures old(NoFaults()) ==> NoFaults() && (InFlight(before, journals[i]) == true ==> o == Ok)
    {
      ghost var disk0, log0 := disk, deleted;
      SameStanding(before, disk, journals[i]);
      journal := Some(journals[i]);
      o := Recover();
      OneRecovered(before, disk0, log0, disk, deleted, journals, i, journal == None);
    }

    /** Recovers each of several journals over separate trees, up to the first error; `left` are
        the journals still there. */
    method RecoverAll(journals: seq<Journal>) returns (o: Outcome, left: seq<Journal>, ghost n: nat)
      requires TreeShaped(disk) && AllSeparate(journals) == true
      modifies this
      ensures TreeShaped(disk) && n <= |journals| && left == journals[n..] && (o == Ok ==> left == [])
      ensures SameFar(old(disk), disk, journals) == true
      ensures forall i :: 0 <= i < n ==> Settled(disk, journals[i]) == true
      ensures forall i :: n <= i < |journals| ==> StillThere(old(disk), disk, journals[i]) == true
      ensures o == Conflict ==> left != [] && old(Acceptable(disk, left[0]) && !Consistent(disk, left[0]))
      ensures old(NoFaults()) && (forall i :: 0 <= i < |journals| ==> InFlight(old(disk), journals[i]) == true) ==> o == Ok
    {
      n := 0;
      StartsUndone(disk, journals);
      var i := 0;
      while i < |journals|
        invariant 0 <= i <= |journals| && n == i && TreeShaped(disk)
        invariant DoneUpTo(old(disk), disk, journals, i) == true && SameFar(old(disk), disk, journals) == true
        invariant old(NoFaults()) ==> NoFaults()
      {
        o := RecoverOne(journals, i, old(disk));
        if journal == None {
          i, n := i + 1, n + 1;
        }
        if o != Ok {
          if journal == None {
            DoneIsLeft(old(disk), disk, journals, i);
          }
          return o, journals[i..], n;
        }
      }
      return Ok, [], n;
    }

    /** Any number of recoveries, each cut or failed anywhere, and then one that runs to its
        end: all journals are gone, each replacement is settled, and nothing else changed. */
    method RecoverAllThroughCuts(journals: seq<Journal>, recoveries: seq<seq<Fate>>) returns (conflict: bool)
      requires TreeShaped(disk) && AllSeparate(journals) == true
      requires forall i :: 0 <= i < |journals| ==> InFlight(disk, journals[i]) == true
      modifies this
      ensures TreeShaped(disk) && !conflict && SameFar(old(disk), disk, journals) == true
      ensures forall i :: 0 <= i < |journals| ==> Settled(disk, journals[i]) == true
    {
      conflict := false;
      StartsUndone(disk, journals);
      var k, done := 0, 0;
      while k <= |recoveries|
        invariant 0 <= k <= |recoveries| + 1 && 0 <= done <= |journals| && TreeShaped(disk) && !conflict
        invariant SameFar(old(disk), disk, journals) == true && (k == |recoveries| + 1 ==> done == |journals|)
        invariant forall i :: 0 <= i < done ==> Settled(disk, journals[i]) == true
        invariant forall i :: done <= i < |journals| ==> InFlight(disk, journals[i]) == true
      {
        fates := if k < |recoveries| then recoveries[k] else [];
        ghost var disk0 := disk;
        RestSeparate(journals, done);
        var o, left;
        ghost var n;
        o, left, n := RecoverAll(journals[done..]);
        conflict := o == Conflict;
        RoundKeeps(old(disk), disk0, disk, journals, done, n);
        done := |journals| - |left|;
        k := k + 1;
      }
    }

    method WriteJournal(j: Journal) returns (o: Outcome)
      modifies `journal, `fates
      ensures journal == old(journal) || journal == Some(j)
      ensures o == Ok ==> journal == Some(j)
      ensures o != Conflict
      ensures old(NoFaults()) ==> NoFaults() && o == Ok
    {
      var fate := NextFate();
      if fate == Cut {
        return Stopped;
      }
      if fate == Refused {
        return Error;
      }
      journal := Some(j);
      return if fate == Unsynced then Error else Ok;
    }

    /** Recovers the replacement `j`, whose journal now reads `k`. */
    method RecoverInFlight(j: Journal, k: Journal, ghost before: Disk) returns (o: Outcome)
      requires journal == Some(k) && ((k == j && !j.committed) || k == Committed(j))
      requires InFlight(disk, k) == true && SameElsewhere(before, disk, j) == true
      modifies this
      ensures Left(before, disk, journal, j) == true
      ensures o == Ok ==> journal == None
      ensures journal == None && k == Committed(j) ==> SettledNew(disk, j) == true
      ensures o != Conflict
      ensures old(NoFaults()) ==> o == Ok
    {
      assert Recoverable(disk, k) && Undisturbed(disk, k);
      o := Recover();
      RecoveryLeaves(before, old(disk), old(deleted), j, k, disk, deleted, journal);
    }

    /** Undoes a replacement after an error, unless the process is gone. */
    method UndoAfter(j: Journal, failed: Outcome, ghost before: Disk) returns (o: Outcome)
      requires failed == Error || failed == Stopped
      requires journal == Some(j) && !j.committed
      requires InFlight(disk, j) == true && SameElsewhere(before, disk, j) == true
      modifies this
      ensures Left(before, disk, journal, j) == true
      ensures o != Ok && o != Conflict
    {
      if failed == Stopped {
        return Stopped;
      }
      o := RecoverInFlight(j, j, before);
      return if o == Stopped then Stopped else Error;
    }

    method MoveAside(j: Journal) returns (o: Outcome)
      requires ReadyToStart(disk, j) == true
      modifies `disk, `fates
      ensures InFlight(disk, j) == true
      ensures SameElsewhere(old(disk), disk, j) == true
      ensures o == Ok ==> BackedUp(disk, j) == true
      ensures o != Conflict
      ensures old(NoFaults()) ==> NoFaults() && o == Ok
    {
      ValidIsApart(j);
      UndisturbedIsInFlight(disk, j);
      GoneMeansEmpty(disk, j);
      if j.oldTree == [] {
        return Ok;
      }
      assert j.oldTree[|j.oldTree| - 1].name in Old(j);
      BackUp(disk, j);
      o := Rename(j.destination, j.backup);
      UndisturbedIsInFlight(disk, j);
    }

    method PutInPlace(j: Journal) returns (o: Outcome)
      requires !j.committed && InFlight(disk, j) == true && BackedUp(disk, j) == true
      modifies `disk, `fates
      ensures InFlight(disk, j) == true
      ensures SameElsewhere(old(disk), disk, j) == true
      ensures o == Ok ==> Published(disk, j) == true
      ensures o != Conflict
      ensures old(NoFaults()) ==> NoFaults() && o == Ok
    {
      ValidIsApart(j);
      Publish(disk, j);
      o := Rename(j.source, j.destination);
      UndisturbedIsInFlight(disk, j);
    }

    method CommitAndClean(j: Journal, ghost before: Disk) returns (o: Outcome)
      requires journal == Some(j) && !j.committed
      requires InFlight(disk, j) == true && Published(disk, j) == true && SameElsewhere(before, disk, j) == true
      modifies this
      ensures Left(before, disk, journal, j) == true
      ensures o == Ok ==> journal == None && SettledNew(disk, j) == true
      ensures o != Conflict
      ensures old(NoFaults()) ==> o == Ok
    {
      InFlightIsLeft(before, disk, j, j);
      Commit(disk, j);
      InFlightIsLeft(before, disk, j, Committed(j));
      o := WriteJournal(Committed(j));
      if o == Ok {
        o := RecoverInFlight(j, Committed(j), before);
      }
    }

    method PublishOrUndo(j: Journal, ghost before: Disk) returns (o: Outcome)
      requires journal == Some(j) && !j.committed
      requires InFlight(disk, j) == true && BackedUp(disk, j) == true && SameElsewhere(before, disk, j) == true
      modifies this
      ensures Left(before, disk, journal, j) == true
      ensures o == Ok ==> journal == None && SettledNew(disk, j) == true
      ensures o != Conflict
      ensures old(NoFaults()) ==> o == Ok
    {
      o := PutInPlace(j);
      SameElsewhereChains(before, old(disk), disk, j, j);
      if o == Ok {
        o := CommitAndClean(j, before);
      } else {
        o := UndoAfter(j, o, before);
      }
    }

    /** Carries out a prepared replacement under its journal. */
    method Execute(j: Journal) returns (o: Outcome)
      requires ReadyToStart(disk, j) == true && journal == None
      modifies this
      ensures Left(old(disk), disk, journal, j) == true
      ensures o == Ok ==> journal == None && SettledNew(disk, j) == true
      ensures o != Conflict
      ensures old(NoFaults()) ==> o == Ok
    {
      ReadyIsLeft(disk, j);
      o := WriteJournal(j);
      if o != Ok {
        return;
      }
      o := MoveAside(j);
      if o == Ok {
        o := PublishOrUndo(j, old(disk));
      } else {
        o := UndoAfter(j, o, old(disk));
      }
    }

    /** Builds the private copy, if there is one to build. */
    method Stage(dst: Path, plan: Plan) returns (o: Outcome)
      requires TreeShaped(disk) && Stageable(disk, dst, plan) && Creatable(disk, dst)
      modifies `disk, `fates
      ensures TreeShaped(disk) && OnlyStage(old(disk), disk, plan)
      ensures o == Ok ==> disk == Staged(old(disk), plan)
      ensures o != Conflict
      ensures old(NoFaults()) ==> NoFaults() && o == Ok
    {
      StagedShape(disk, dst, plan);
      if plan.Move? {
        return Ok;
      }
      MadeStage(disk, dst, plan);
      var fate := NextFate();
      if fate == Cut {
        return Stopped;
      }
      if fate == Refused {
        return Error;
      }
      disk := disk[plan.stage := plan.stageEntry];
      fate := NextFate();
      if fate == Cut {
        return Stopped;
      }
      if fate != Succeeds {
        return Error;
      }
      disk := disk + plan.written;
      return Ok;
    }

    /** Gives up before a journal exists; only an error leaves time to clear a stage. */
    method Abandon(dst: Path, plan: Plan, id: string, failed: Outcome, ghost before: Disk)
      requires TreeShaped(disk) && OnlyStage(before, disk, plan) && dst != [] && Stageable(before, dst, plan)
      requires journal == None
      modifies `disk, `fates, `deleted
      ensures Atomic(before, disk, None, dst, plan, id) == true
    {
      if failed == Error && plan.Copy? {
        var _ := RemoveTree(plan.stage);
        OnlyStageChains(before, old(disk), disk, plan);
      }
      UnstartedIsAtomic(before, disk, dst, plan, id);
    }

    /** Stages the new tree and drafts the journal, or gives up. */
    method Prepare(dst: Path, plan: Plan, id: string) returns (o: Outcome, j: Journal)
      requires TreeShaped(disk) && journal == None && dst != [] && Stageable(disk, dst, plan)
      modifies `disk, `fates, `deleted
      ensures o != Ok ==> Atomic(old(disk), disk, None, dst, plan, id) == true
      ensures o == Ok ==> Drafted(old(disk), disk, dst, plan, id, j) == true
      ensures o != Conflict
      ensures old(NoFaults()) && Feasible(old(disk), dst, plan, id) ==> NoFaults() && o == Ok
    {
      j := JournalFor(dst, plan, id, [], []);
      if !Creatable(disk, dst) {
        Abandon(dst, plan, id, Stopped, disk);
        return Error, j;
      }
      o := Stage(dst, plan);
      if o == Ok {
        o, j := Draft(disk, dst, plan, id);
      }
      if o != Ok {
        Abandon(dst, plan, id, o, old(disk));
        return;
      }
      DraftIsReady(old(disk), dst, plan, id, j);
    }

    /** Replaces the tree at `dst`. */
    method Replace(dst: Path, plan: Plan, id: string) returns (o: Outcome)
      requires TreeShaped(disk) && journal == None && dst != [] && Stageable(disk, dst, plan)
      modifies this
      ensures Atomic(old(disk), disk, journal, dst, plan, id) == true
      ensures o == Ok ==> journal == None && Rel(disk, dst) == Wanted(old(disk), plan)
      ensures o == Ok && plan.Copy? ==> plan.stage !in disk
      ensures o != Conflict
      ensures old(NoFaults()) && Feasible(old(disk), dst, plan, id) ==> o == Ok
    {
      var j;
      o, j := Prepare(dst, plan, id);
      if o == Ok {
        ghost var staged := disk;
        o := Execute(j);
        LeftIsAtomic(old(disk), staged, disk, journal, dst, plan, id, j);
      }
    }

    /** An operation cut or failed anywhere, then any number of recoveries each cut or failed
        anywhere, then one that runs to its end. */
    method ReplaceThroughCuts(dst: Path, plan: Plan, id: string, recoveries: seq<seq<Fate>>) returns (conflict: bool)
      requires TreeShaped(disk) && journal == None && dst != [] && Stageable(disk, dst, plan)
      modifies this
      ensures journal == None && !conflict
      ensures Atomic(old(disk), disk, None, dst, plan, id)
    {
      var o := Replace(dst, plan, id);
      conflict := o == Conflict;
      var i := 0;
      while i <= |recoveries|
        invariant 0 <= i <= |recoveries| + 1
        invariant Atomic(old(disk), disk, journal, dst, plan, id) == true
        invariant i == |recoveries| + 1 ==> journal == None
        invariant !conflict
      {
        fates := if i < |recoveries| then recoveries[i] else [];
        if journal.Some? {
          ghost var disk1, log1, k := disk, deleted, journal.value;
          o := Recover();
          conflict := conflict || o == Conflict;
          RecoveredIsAtomic(old(disk), disk1, log1, k, disk, deleted, journal, dst, plan, id);
        }
        i := i + 1;
      }
    }
  }

  // ----- a deletion no manifest lists -----

  const LeftStage: Path := [".birak-tmp-replace-1"]

  /** A copy whose recovery was cut after its payload went and before its stage did. */
  const LeftJournal := Journal(1, ["d"], LeftStage + ["payload"], [".birak-bak-1"], Some(LeftStage),
    [], [Item([], Entry(Directory, 2, ""))], false)

  function LeftDisk(stage: Entry): Disk {
    map[LeftStage := stage]
  }

  lemma LeftIsValid()
    ensures ValidJournal(LeftJournal)
  {
    var stage, backup := ".birak-tmp-replace-1", ".birak-bak-1";
    assert ".birak-tmp-replace-" <= stage && ".birak-bak-" <= backup;
    assert Base(LeftStage) == stage;
  }

  lemma LeftIsRecoverable(stage: Entry)
    requires stage.kind.Directory? && stage.identity != 0
    ensures TreeShaped(LeftDisk(stage)) && Recoverable(LeftDisk(stage), LeftJournal) == true
    ensures StageThere(LeftDisk(stage), LeftJournal) && StageEmpties(LeftDisk(stage), LeftJournal, LeftStage)
  {
    var disk := LeftDisk(stage);
    LeftIsValid();
    RelEmpty(disk, ["d"]);
    RelEmpty(disk, LeftStage + ["payload"]);
  }

  /** Recovering from it deletes the stage, whoever made it and whatever its mode. */
  method RecoverLeftStage(stage: Entry) returns (volume: Volume)
    requires stage.kind.Directory? && stage.identity != 0
    ensures fresh(volume) && Item(LeftStage, stage) in volume.deleted
    ensures !Manifested(LeftJournal, Item(LeftStage, stage))
  {
    volume := new Volume(LeftDisk(stage), Some(LeftJournal));
    LeftIsRecoverable(stage);
    var o := volume.Recover();
    assert StageLast(LeftJournal, LeftDisk(stage), [], volume.deleted);
  }
}
