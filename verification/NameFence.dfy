/** The check of a read against quarantined names, through a cached index of them: every
    quarantine and clear moves a generation counter on, and a read that finds the index older
    than the counter rebuilds it. Checks take no lock that quarantines take. */
module NameFence {

  import opened Meta

  /** The names quarantined at a generation, and the objects they named when the index was built. */
  datatype Snapshot = Snapshot(gen: nat, names: set<string>, files: set<nat>)

  /** `Looking`: the counter has been read, and names were quarantined; `Building`: the names
      have been read, those in `todo` have still to be looked up. */
  datatype Phase = Begun | Looking(least: nat) | Building(least: nat, snapshot: Snapshot, todo: set<string>) | Judging(snapshot: Snapshot)
    | Passed | Turned

  /** `due`: the names quarantined when the check began and not cleared since. */
  datatype Check = Check(name: string, inode: nat, phase: Phase, due: set<string>)

  /** `quarantined` gives the generation each name was quarantined at; `steady` the object a
      quarantined name has named ever since. */
  datatype State = State(quarantined: map<string, nat>, gen: nat, inodes: map<string, nat>, steady: map<string, nat>,
    cache: Option<Snapshot>, checks: map<nat, Check>)

  ghost predicate Init(s: State) {
    s.gen == 0 && s.quarantined == map[] && s.steady == map[] && s.cache == None && s.checks == map[]
  }

  // ----- steps -----

  ghost predicate Quarantines(s: State, s': State, n: string) {
    s' == if n in s.quarantined then s.(gen := s.gen + 1)
          else s.(
            gen := s.gen + 1, quarantined := s.quarantined[n := s.gen + 1],
            steady := if n in s.inodes then s.steady[n := s.inodes[n]] else s.steady)
  }

  ghost predicate Clears(s: State, s': State, n: string) {
    && s' == s.(gen := s.gen + 1, quarantined := s.quarantined - {n}, steady := s.steady - {n}, checks := s'.checks)
    && s'.checks.Keys == s.checks.Keys
    && forall id :: id in s.checks ==> s'.checks[id] == s.checks[id].(due := s.checks[id].due - {n})
  }

  /** Someone puts another object, or none, under a name. */
  ghost predicate Replaces(s: State, s': State, n: string, inode: Option<nat>) {
    s' == s.(inodes := if inode.Some? then s.inodes[n := inode.value] else s.inodes - {n}, steady := s.steady - {n})
  }

  ghost predicate Begins(s: State, s': State, id: nat, name: string, inode: nat) {
    id !in s.checks && s' == s.(checks := s.checks[id := Check(name, inode, Begun, s.quarantined.Keys)])
  }

  function WithPhase(s: State, id: nat, phase: Phase): State
    requires id in s.checks
  {
    s.(checks := s.checks[id := s.checks[id].(phase := phase)])
  }

  /** Where no name is quarantined the check passes at once. */
  ghost predicate ReadsCounter(s: State, s': State, id: nat) {
    && id in s.checks && s.checks[id].phase == Begun
    && s' == WithPhase(s, id, if s.quarantined == map[] then Passed else Looking(s.gen))
  }

  /** An index no older than the counter is used; one too long in use need not be. */
  ghost predicate UsesCache(s: State, s': State, id: nat) {
    && id in s.checks && s.checks[id].phase.Looking? && s.cache.Some? && s.cache.value.gen >= s.checks[id].phase.least
    && s' == WithPhase(s, id, Judging(s.cache.value))
  }

  ghost predicate Lists(s: State, s': State, id: nat) {
    && id in s.checks && s.checks[id].phase.Looking?
    && s' == WithPhase(s, id, Building(s.checks[id].phase.least, Snapshot(s.gen, s.quarantined.Keys, {}), s.quarantined.Keys))
  }

  ghost predicate LooksUp(s: State, s': State, id: nat, n: string) {
    && id in s.checks && s.checks[id].phase.Building? && n in s.checks[id].phase.todo
    && var p := s.checks[id].phase;
       var files := if n in s.inodes then p.snapshot.files + {s.inodes[n]} else p.snapshot.files;
       s' == WithPhase(s, id, p.(snapshot := p.snapshot.(files := files), todo := p.todo - {n}))
  }

  ghost predicate Publishes(s: State, s': State, id: nat) {
    && id in s.checks && s.checks[id].phase.Building? && s.checks[id].phase.todo == {}
    && s' == WithPhase(s, id, Judging(s.checks[id].phase.snapshot)).(cache := Some(s.checks[id].phase.snapshot))
  }

  ghost predicate Judges(s: State, s': State, id: nat) {
    && id in s.checks && s.checks[id].phase.Judging?
    && var c := s.checks[id];
       s' == WithPhase(s, id, if c.name in c.phase.snapshot.names || c.inode in c.phase.snapshot.files then Turned else Passed)
  }

  ghost predicate StoreStep(s: State, s': State, n: string) {
    Quarantines(s, s', n) || Clears(s, s', n) || exists inode :: Replaces(s, s', n, inode)
  }

  ghost predicate CheckStep(s: State, s': State, id: nat) {
    || ReadsCounter(s, s', id) || UsesCache(s, s', id) || Lists(s, s', id) || (exists n :: LooksUp(s, s', id, n))
    || Publishes(s, s', id) || Judges(s, s', id)
  }

  ghost predicate Next(s: State, s': State) {
    || (exists n :: StoreStep(s, s', n)) || (exists id, name, inode :: Begins(s, s', id, name, inode)) || (exists id :: CheckStep(s, s', id))
  }

  ghost predicate StepAt(run: seq<State>, i: nat) {
    i + 1 < |run| ==> Next(run[i], run[i + 1])
  }

  ghost predicate Run(run: seq<State>) {
    run != [] && Init(run[0]) && forall i: nat :: StepAt(run, i)
  }

  // ----- what every interleaving keeps -----

  /** An index holds every name quarantined by its generation and not cleared since; once
      looked up, also the object of a name that has kept it. */
  ghost predicate Covers(s: State, snapshot: Snapshot, todo: set<string>) {
    && snapshot.gen <= s.gen
    && (forall n :: n in s.quarantined && s.quarantined[n] <= snapshot.gen ==> n in snapshot.names)
    && (forall n :: n in s.steady && n in s.quarantined && n !in todo && s.quarantined[n] <= snapshot.gen ==> s.steady[n] in snapshot.files)
  }

  /** Every name due was quarantined by generation `gen`. */
  ghost predicate DueBy(s: State, c: Check, gen: nat) {
    forall n :: n in c.due ==> n in s.quarantined && s.quarantined[n] <= gen
  }

  ghost predicate Refuses(s: State, c: Check) {
    c.name !in c.due && forall n :: n in c.due && n in s.steady ==> s.steady[n] != c.inode
  }

  ghost predicate CheckInv(s: State, c: Check) {
    && DueBy(s, c, s.gen)
    && match c.phase
       case Begun => true
       case Looking(least) => least <= s.gen && DueBy(s, c, least)
       case Building(least, snapshot, todo) => Covers(s, snapshot, todo) && DueBy(s, c, snapshot.gen)
       case Judging(snapshot) => Covers(s, snapshot, {}) && DueBy(s, c, snapshot.gen)
       case Passed => Refuses(s, c)
       case Turned => true
  }

  ghost predicate StoreInv(s: State) {
    && s.steady.Keys <= s.quarantined.Keys
    && (forall n :: n in s.quarantined ==> s.quarantined[n] <= s.gen)
    && (forall n :: n in s.steady ==> n in s.inodes && s.inodes[n] == s.steady[n])
    && (s.cache.Some? ==> Covers(s, s.cache.value, {}))
  }

  ghost predicate Inv(s: State) {
    StoreInv(s) && forall id :: id in s.checks ==> CheckInv(s, s.checks[id]) == true
  }

  /** Quarantines, clears and replacements only take away what an index must hold. */
  ghost predicate Shrinks(s: State, s': State) {
    && s.gen <= s'.gen
    && (forall n :: n in s'.quarantined ==> s'.quarantined[n] > s.gen || (n in s.quarantined && s.quarantined[n] == s'.quarantined[n]))
    && (forall n :: n in s'.steady && n in s.quarantined ==> n in s.steady && s.steady[n] == s'.steady[n])
  }

  lemma CoversShrinks(s: State, s': State, snapshot: Snapshot, todo: set<string>)
    requires Covers(s, snapshot, todo) && Shrinks(s, s') && s'.steady.Keys <= s'.quarantined.Keys
    ensures Covers(s', snapshot, todo)
  {
  }

  lemma CheckShrinks(s: State, s': State, c: Check, c': Check)
    requires CheckInv(s, c) && Shrinks(s, s') && StoreInv(s') && c' == c.(due := c'.due) && c'.due <= c.due
    requires forall n :: n in c'.due ==> n in s'.quarantined && s'.quarantined[n] == s.quarantined[n]
    ensures CheckInv(s', c') == true
  {
    if c.phase.Building? {
      CoversShrinks(s, s', c.phase.snapshot, c.phase.todo);
    } else if c.phase.Judging? {
      CoversShrinks(s, s', c.phase.snapshot, {});
    }
  }

  lemma StepShrinks(s: State, s': State, n: string)
    requires StoreInv(s) && StoreStep(s, s', n)
    ensures Shrinks(s, s') && s'.cache == s.cache
    ensures s'.steady.Keys <= s'.quarantined.Keys
  {
  }

  lemma StoreStays(s: State, s': State, n: string)
    requires StoreInv(s) && StoreStep(s, s', n)
    ensures forall k :: k in s'.quarantined ==> s'.quarantined[k] <= s'.gen
    ensures forall k :: k in s'.steady ==> k in s'.inodes && s'.inodes[k] == s'.steady[k]
  {
  }

  lemma StoreShrinks(s: State, s': State, n: string)
    requires StoreInv(s) && StoreStep(s, s', n) == true
    ensures Shrinks(s, s') == true && StoreInv(s') == true
  {
    StepShrinks(s, s', n);
    StoreStays(s, s', n);
    if s.cache.Some? {
      CoversShrinks(s, s', s.cache.value, {});
    }
  }

  /** A step of the store leaves a check its phase, and due what is not cleared. */
  lemma StoreStepLeaves(s: State, s': State, n: string, id: nat)
    requires Inv(s) && StoreStep(s, s', n) && id in s'.checks
    ensures id in s.checks
    ensures var c, c' := s.checks[id], s'.checks[id];
      && c' == c.(due := c'.due) && c'.due <= c.due
      && forall k :: k in c'.due ==> k in s.quarantined && k in s'.quarantined && s'.quarantined[k] == s.quarantined[k]
  {
    assert CheckInv(s, s.checks[id]);
  }

  lemma StoreStepKeeps(s: State, s': State, n: string)
    requires Inv(s) && StoreStep(s, s', n)
    ensures Inv(s') == true
  {
    StoreShrinks(s, s', n);
    forall id | id in s'.checks ensures CheckInv(s', s'.checks[id]) == true {
      StoreStepLeaves(s, s', n, id);
      CheckShrinks(s, s', s.checks[id], s'.checks[id]);
    }
  }

  /** The rest of the state is as it was, as far as the other checks can tell. */
  lemma OtherCheck(s: State, s': State, c: Check)
    requires CheckInv(s, c) && s'.gen == s.gen && s'.quarantined == s.quarantined && s'.steady == s.steady
    ensures CheckInv(s', c) == true
  {
  }

  /** A check's own steps. */
  lemma CheckStepLeads(s: State, s': State, id: nat)
    requires CheckStep(s, s', id)
    ensures id in s.checks && id in s'.checks && s'.checks[id] == s.checks[id].(phase := s'.checks[id].phase)
    ensures s' == s.(checks := s.checks[id := s'.checks[id]], cache := s'.cache)
    ensures s'.cache == s.cache || (Publishes(s, s', id) && s'.cache == Some(s.checks[id].phase.snapshot))
  {
  }

  lemma LooksUpKeeps(s: State, s': State, id: nat, n: string)
    requires StoreInv(s) && LooksUp(s, s', id, n) && CheckInv(s, s.checks[id])
    ensures CheckInv(s, s'.checks[id]) == true
  {
  }

  lemma PhaseKeeps(s: State, s': State, id: nat)
    requires StoreInv(s) && CheckStep(s, s', id) && id in s.checks && CheckInv(s, s.checks[id]) && id in s'.checks
    ensures CheckInv(s, s'.checks[id]) == true
  {
    if n :| LooksUp(s, s', id, n) {
      LooksUpKeeps(s, s', id, n);
    }
  }

  lemma CheckStepKeeps(s: State, s': State, id: nat)
    requires Inv(s) && CheckStep(s, s', id)
    ensures Inv(s')
  {
    CheckStepLeads(s, s', id);
    assert CheckInv(s, s.checks[id]);
    PhaseKeeps(s, s', id);
    forall k | k in s'.checks ensures CheckInv(s', s'.checks[k]) == true {
      OtherCheck(s, s', s'.checks[k]);
    }
  }

  lemma NextKeeps(s: State, s': State)
    requires Inv(s) && Next(s, s')
    ensures Inv(s')
  {
    if id :| CheckStep(s, s', id) {
      CheckStepKeeps(s, s', id);
    } else if id, name, inode :| Begins(s, s', id, name, inode) {
      forall k | k in s'.checks ensures CheckInv(s', s'.checks[k]) == true {
        if k != id {
          OtherCheck(s, s', s.checks[k]);
        }
      }
    } else if n :| StoreStep(s, s', n) {
      StoreStepKeeps(s, s', n);
    }
  }

  lemma {:induction false} RunKeeps(run: seq<State>, i: nat)
    requires Run(run) && i < |run|
    ensures Inv(run[i])
    decreases i
  {
    if i > 0 {
      RunKeeps(run, i - 1);
      assert StepAt(run, i - 1);
      NextKeeps(run[i - 1], run[i]);
    }
  }

  /** A name stays due as long as it is not cleared. */
  lemma DueStays(s: State, s': State, id: nat, n: string)
    requires Next(s, s') && n in s.quarantined && n in s'.quarantined && id in s'.checks
    requires id in s.checks ==> n in s.checks[id].due
    ensures n in s'.checks[id].due
  {
    if k :| CheckStep(s, s', k) {
      CheckStepLeads(s, s', k);
    } else if k, name, inode :| Begins(s, s', k, name, inode) {
    } else if k :| StoreStep(s, s', k) {
      StoreStepDue(s, s', k, id, n);
    }
  }

  lemma StoreStepDue(s: State, s': State, k: string, id: nat, n: string)
    requires StoreStep(s, s', k) && n in s'.quarantined && id in s'.checks && (id in s.checks ==> n in s.checks[id].due)
    ensures n in s'.checks[id].due
  {
  }

  lemma DueNext(run: seq<State>, j: nat, id: nat, n: string)
    requires Run(run) && j + 1 < |run| && n in run[j].quarantined && n in run[j + 1].quarantined && id in run[j + 1].checks
    requires id in run[j].checks ==> n in run[j].checks[id].due
    ensures n in run[j + 1].checks[id].due
  {
    assert StepAt(run, j);
    DueStays(run[j], run[j + 1], id, n);
  }

  lemma {:induction false} DueThrough(run: seq<State>, i: nat, j: nat, id: nat, n: string)
    requires Run(run) == true && i <= j < |run| && id !in run[i].checks && id in run[j].checks
    requires forall k :: i <= k <= j ==> n in run[k].quarantined
    ensures n in run[j].checks[id].due
    decreases j
  {
    if id in run[j - 1].checks {
      DueThrough(run, i, j - 1, id, n);
    }
    DueNext(run, j - 1, id, n);
  }

  /** A read that begins to be checked after the quarantine of its name returned does not
      pass until the name is cleared, whatever index is cached or being built. */
  lemma QuarantinedNameIsRefused(run: seq<State>, i: nat, j: nat, id: nat)
    requires Run(run) == true && i <= j < |run| && id !in run[i].checks && id in run[j].checks
    requires forall k :: i <= k <= j ==> run[j].checks[id].name in run[k].quarantined
    ensures run[j].checks[id].phase != Passed
  {
    RunKeeps(run, j);
    DueThrough(run, i, j, id, run[j].checks[id].name);
    assert CheckInv(run[j], run[j].checks[id]);
  }

  /** Nor does one that reaches the object by another name, if the quarantined name has
      named it ever since. */
  lemma QuarantinedObjectIsRefused(run: seq<State>, i: nat, j: nat, id: nat, n: string)
    requires Run(run) == true && i <= j < |run| && id !in run[i].checks && id in run[j].checks
    requires forall k :: i <= k <= j ==> n in run[k].quarantined
    requires n in run[j].steady && run[j].steady[n] == run[j].checks[id].inode
    ensures run[j].checks[id].phase != Passed
  {
    RunKeeps(run, j);
    DueThrough(run, i, j, id, n);
    assert CheckInv(run[j], run[j].checks[id]);
  }
}
