/** Revocable readers against quarantines, in every interleaving: a reader registers and then
    checks the fence; a quarantine raises the fence and then revokes the registered readers.
    Reads and checks take no commit lock; quarantines and clears do, one at a time. */
module Fence {

  /** A file object as it was when it was opened. */
  datatype Generation = Generation(inode: nat, stamp: nat)

  datatype Error = None | Unreadable | Closed

  /** `Opening`: the file is open; `Checking`: registered, fence not yet looked at;
      `Handed`: given to the caller; `Turned`: refused by the fence. */
  datatype Phase = Opening | Checking | Handed | Turned

  /** `closing`: a Close has taken the reader off the register and not yet marked it closed. */
  datatype Reader = Reader(gen: Generation, phase: Phase, registered: bool, err: Error, closing: bool)

  datatype Quarantine = Idle | Fenced(gen: Generation) | Revoking(gen: Generation, targets: set<nat>)

  /** `held`: the generations whose quarantine has returned and not been cleared. */
  datatype State = State(readers: map<nat, Reader>, damaged: set<Generation>, quarantine: Quarantine, held: set<Generation>)

  ghost predicate Init(s: State) {
    s == State(map[], {}, Idle, {})
  }

  /** A read by the caller would take bytes from the file now. */
  predicate Yields(s: State, id: nat) {
    id in s.readers && s.readers[id].phase == Handed && s.readers[id].err == None
  }

  // ----- steps -----

  ghost predicate Opens(s: State, s': State, id: nat, gen: Generation) {
    id !in s.readers && s' == s.(readers := s.readers[id := Reader(gen, Opening, false, None, false)])
  }

  ghost predicate Registers(s: State, s': State, id: nat) {
    && id in s.readers && s.readers[id].phase == Opening
    && s' == s.(readers := s.readers[id := s.readers[id].(phase := Checking, registered := true)])
  }

  /** The check refuses a fenced generation; it may refuse others too. */
  ghost predicate Checks(s: State, s': State, id: nat, passes: bool) {
    && id in s.readers && s.readers[id].phase == Checking
    && (passes ==> s.readers[id].gen !in s.damaged)
    && s' == s.(readers := s.readers[id := s.readers[id].(phase := if passes then Handed else Turned)])
  }

  ghost predicate StartsClose(s: State, s': State, id: nat) {
    && id in s.readers && s.readers[id].phase in {Handed, Turned}
    && s' == s.(readers := s.readers[id := s.readers[id].(registered := false, closing := true)])
  }

  ghost predicate FinishesClose(s: State, s': State, id: nat) {
    && id in s.readers && s.readers[id].closing
    && s' == s.(readers := s.readers[id := s.readers[id].(err := Closed, closing := false)])
  }

  ghost predicate Fences(s: State, s': State, gen: Generation) {
    s.quarantine == Idle && s' == s.(damaged := s.damaged + {gen}, quarantine := Fenced(gen))
  }

  /** Every registered reader of the object, whatever its generation. */
  ghost function Targets(s: State, gen: Generation): set<nat> {
    set id | id in s.readers && s.readers[id].registered && s.readers[id].gen.inode == gen.inode
  }

  ghost predicate Collects(s: State, s': State) {
    s.quarantine.Fenced? && s' == s.(quarantine := Revoking(s.quarantine.gen, Targets(s, s.quarantine.gen)))
  }

  ghost predicate Revokes(s: State, s': State, id: nat) {
    && s.quarantine.Revoking? && id in s.quarantine.targets && id in s.readers
    && s' == s.(
      readers := s.readers[id := s.readers[id].(err := if s.readers[id].err == None then Unreadable else s.readers[id].err)],
      quarantine := s.quarantine.(targets := s.quarantine.targets - {id}))
  }

  ghost predicate Returns(s: State, s': State) {
    && s.quarantine.Revoking? && s.quarantine.targets == {}
    && s' == s.(quarantine := Idle, held := s.held + {s.quarantine.gen})
  }

  ghost predicate Clears(s: State, s': State, gen: Generation) {
    s.quarantine == Idle && s' == s.(damaged := s.damaged - {gen}, held := s.held - {gen})
  }

  ghost predicate ReaderStep(s: State, s': State, id: nat) {
    || (exists gen :: Opens(s, s', id, gen)) || Registers(s, s', id)
    || (exists passes :: Checks(s, s', id, passes)) || StartsClose(s, s', id) || FinishesClose(s, s', id)
  }

  /** Reads change nothing, so they are not steps; `Yields` says what they give. */
  ghost predicate Next(s: State, s': State) {
    || (exists id :: ReaderStep(s, s', id)) || (exists gen :: Fences(s, s', gen)) || Collects(s, s')
    || (exists id :: Revokes(s, s', id)) || Returns(s, s') || (exists gen :: Clears(s, s', gen))
  }

  ghost predicate Run(run: seq<State>) {
    run != [] && Init(run[0]) && forall i :: 0 <= i < |run| - 1 ==> Next(run[i], run[i + 1])
  }

  // ----- what every interleaving keeps -----

  /** A reader that still gives bytes is registered, or its Close is under way. */
  ghost predicate Registered(r: Reader) {
    && (r.phase == Opening ==> !r.registered && !r.closing)
    && (r.phase == Checking ==> r.registered)
    && (r.phase == Handed && r.err == None ==> r.registered || r.closing)
  }

  /** A reader that slipped past the fence is about to be revoked. */
  ghost predicate Fenceable(s: State, id: nat)
    requires id in s.readers
  {
    var r := s.readers[id];
    Yields(s, id) && !r.closing ==>
      && r.gen !in s.held
      && (s.quarantine.Revoking? && s.quarantine.gen == r.gen ==> id in s.quarantine.targets)
  }

  ghost predicate Inv(s: State) {
    && s.held <= s.damaged
    && (!s.quarantine.Idle? ==> s.quarantine.gen in s.damaged)
    && (s.quarantine.Revoking? ==> s.quarantine.targets <= s.readers.Keys)
    && (forall id :: id in s.readers ==> Registered(s.readers[id]) && Fenceable(s, id))
  }

  lemma ReaderStepKeeps(s: State, s': State, id: nat)
    requires Inv(s) && ReaderStep(s, s', id)
    ensures Inv(s')
  {
    forall k | k in s'.readers ensures Registered(s'.readers[k]) && Fenceable(s', k) {
      if k != id {
        assert k in s.readers && s'.readers[k] == s.readers[k];
        assert Fenceable(s, k);
      } else if k in s.readers {
        assert Registered(s.readers[k]) && Fenceable(s, k);
      }
    }
  }

  lemma QuarantineStepKeeps(s: State, s': State)
    requires Inv(s)
    requires (exists gen :: Fences(s, s', gen)) || Collects(s, s') || Returns(s, s') || (exists gen :: Clears(s, s', gen))
    ensures Inv(s')
  {
    forall k | k in s'.readers ensures Registered(s'.readers[k]) && Fenceable(s', k) {
      assert k in s.readers && s'.readers[k] == s.readers[k];
      assert Registered(s.readers[k]) && Fenceable(s, k);
    }
  }

  lemma RevokeKeeps(s: State, s': State, id: nat)
    requires Inv(s) && Revokes(s, s', id)
    ensures Inv(s')
  {
    forall k | k in s'.readers ensures Registered(s'.readers[k]) && Fenceable(s', k) {
      assert k in s.readers;
      assert Registered(s.readers[k]) && Fenceable(s, k);
    }
  }

  lemma NextKeeps(s: State, s': State)
    requires Inv(s) && Next(s, s')
    ensures Inv(s')
  {
    if id :| ReaderStep(s, s', id) {
      ReaderStepKeeps(s, s', id);
    } else if id :| Revokes(s, s', id) {
      RevokeKeeps(s, s', id);
    } else {
      QuarantineStepKeeps(s, s');
    }
  }

  lemma {:induction false} RunKeeps(run: seq<State>, i: nat)
    requires Run(run) && i < |run|
    ensures Inv(run[i])
    decreases i
  {
    if i > 0 {
      RunKeeps(run, i - 1);
      assert Next(run[i - 1], run[i - 1 + 1]);
      NextKeeps(run[i - 1], run[i]);
    }
  }

  /** Once the quarantine of a generation has returned, and until it is cleared, no reader of
      that generation gives bytes, unless its Close is under way at that very moment. */
  lemma NoBytesWhileQuarantined(run: seq<State>, i: nat, id: nat)
    requires Run(run) && i < |run| && id in run[i].readers && run[i].readers[id].gen in run[i].held
    ensures Yields(run[i], id) ==> run[i].readers[id].closing
  {
    RunKeeps(run, i);
    assert Fenceable(run[i], id);
  }

  lemma StaysMarked(s: State, s': State, id: nat)
    requires Next(s, s') && id in s.readers && s.readers[id].err != None
    ensures id in s'.readers && s'.readers[id].err != None && s'.readers[id].gen == s.readers[id].gen
  {
  }

  /** A revoked reader stays revoked, through clears and repairs. */
  lemma {:induction false} RevokedForever(run: seq<State>, i: nat, j: nat, id: nat)
    requires Run(run) && i <= j < |run| && id in run[i].readers && run[i].readers[id].err != None
    ensures id in run[j].readers && !Yields(run[j], id)
    ensures run[j].readers[id].err != None
    decreases j - i
  {
    if i < j {
      assert Next(run[i], run[i + 1]);
      StaysMarked(run[i], run[i + 1], id);
      RevokedForever(run, i + 1, j, id);
    }
  }

  /** The exception is real, for every generation: a reader whose Close was interrupted between its
      two steps is missed by the quarantine and still gives bytes after it returned. */
  lemma ClosingReaderIsMissed(gen: Generation) returns (run: seq<State>)
    ensures Run(run)
    ensures var s := run[|run| - 1]; gen in s.held && 0 in s.readers && s.readers[0].gen == gen && Yields(s, 0) && s.readers[0].closing
  {
    var r0 := Reader(gen, Opening, false, None, false);
    var r1 := r0.(phase := Checking, registered := true);
    var r2 := r1.(phase := Handed);
    var r3 := r2.(registered := false, closing := true);
    var s0 := State(map[], {}, Idle, {});
    var s1 := s0.(readers := map[0 := r0]);
    var s2 := s1.(readers := map[0 := r1]);
    var s3 := s2.(readers := map[0 := r2]);
    var s4 := s3.(readers := map[0 := r3]);
    var s5 := s4.(damaged := {gen}, quarantine := Fenced(gen));
    var s6 := s5.(quarantine := Revoking(gen, {}));
    var s7 := s6.(quarantine := Idle, held := {gen});
    assert Opens(s0, s1, 0, gen) && ReaderStep(s0, s1, 0);
    assert Registers(s1, s2, 0) && ReaderStep(s1, s2, 0);
    assert Checks(s2, s3, 0, true) && ReaderStep(s2, s3, 0);
    assert StartsClose(s3, s4, 0) && ReaderStep(s3, s4, 0);
    assert Fences(s4, s5, gen);
    assert Targets(s5, gen) == {};
    assert Collects(s5, s6);
    assert Returns(s6, s7);
    run := [s0, s1, s2, s3, s4, s5, s6, s7];
  }
}
