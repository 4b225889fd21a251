/** The budget on deletions inferred from absence: groups decided as a whole, and a record of
    what was published that outlives restarts. Times are nanoseconds. */
module Budget {

  import opened Meta

  const WINDOW := 600_000_000_000

  // ----- groups of missing names -----

  ghost function NameSet(list: seq<string>): set<string> {
    if list == [] then {} else NameSet(list[..|list| - 1]) + {list[|list| - 1]}
  }

  class DeletionGroup {
    const keep: nat
    var names: seq<string>
    var seen: set<string>
    var count: nat
    /** Every name ever added, here or in a group merged in. */
    ghost var missing: set<string>

    /** The count is never below the number of distinct names, and while it does not exceed
        the names kept, those are all of them. */
    ghost predicate Valid()
      reads this
    {
      && (forall n :: n in seen <==> n in names) && |seen| == |names| <= count
      && seen <= missing && |missing| <= count
      && (count == |names| ==> missing == seen)
    }

    constructor (keep: nat)
      ensures Valid() && this.keep == keep && names == [] && count == 0 && missing == {}
    {
      this.keep := keep;
      names, seen, count, missing := [], {}, 0, {};
    }

    method Add(name: string)
      requires Valid()
      modifies this
      ensures Valid() && missing == old(missing) + {name}
      ensures Group(names, count) == Added(old(Group(names, count)), keep, name)
      ensures count == if name in old(seen) then old(count) else old(count) + 1
      ensures names == if name !in old(seen) && |old(names)| < keep then old(names) + [name] else old(names)
      ensures seen == if name !in old(seen) && |old(names)| < keep then old(seen) + {name} else old(seen)
    {
      if name in seen {
        assert missing + {name} == missing;
        return;
      }
      count := count + 1;
      missing := missing + {name};
      if |names| < keep {
        seen := seen + {name};
        names := names + [name];
        assert names[..|names| - 1] == old(names);
      }
    }

    method AddAll(list: seq<string>)
      requires Valid()
      modifies this
      ensures Valid() && missing == old(missing) + NameSet(list)
      ensures Group(names, count) == AddedAll(old(Group(names, count)), keep, list)
    {
      ghost var start, before := Group(names, count), missing;
      var i := 0;
      while i < |list|
        invariant 0 <= i <= |list| && Valid() == true
        invariant missing == before + NameSet(list[..i]) && Group(names, count) == AddedAll(start, keep, list[..i])
      {
        OneMore(start, keep, list, i);
        Add(list[i]);
        i := i + 1;
      }
      assert list[..i] == list;
    }

    /** Takes in another group; names it only counted are counted here too. */
    method Merge(other: DeletionGroup)
      requires Valid() && other.Valid() && other != this
      modifies this
      ensures Valid() && missing == old(missing) + other.missing
      ensures Group(names, count) == MergedWith(old(Group(names, count)), keep, Group(other.names, other.count))
    {
      AddAll(other.names);
      forall n | n in other.seen ensures n in NameSet(other.names) {
        NameSetHas(other.names, n);
      }
      forall n | n in NameSet(other.names) ensures n in other.missing {
        NameSetHas(other.names, n);
      }
      CountedOnly(missing, other.missing, other.seen);
      assert old(missing) + other.missing == missing + other.missing;
      missing := missing + other.missing;
      count := count + (other.count - |other.names|);
    }
  }

  lemma {:induction false} NameSetHas(list: seq<string>, n: string)
    ensures n in NameSet(list) <==> n in list
    decreases |list|
  {
    if list != [] {
      NameSetHas(list[..|list| - 1], n);
      assert list == list[..|list| - 1] + [list[|list| - 1]];
    }
  }

  lemma OneMore(g: Group, keep: nat, list: seq<string>, i: nat)
    requires i < |list|
    ensures NameSet(list[..i + 1]) == NameSet(list[..i]) + {list[i]}
    ensures AddedAll(g, keep, list[..i + 1]) == Added(AddedAll(g, keep, list[..i]), keep, list[i])
  {
    assert list[..i + 1][..i] == list[..i];
  }

  /** Taking in a group whose kept names are already here adds at most the others. */
  lemma CountedOnly(here: set<string>, there: set<string>, kept: set<string>)
    requires kept <= here && kept <= there
    ensures |here + there| <= |here| + |there| - |kept|
    ensures there == kept ==> here + there == here
  {
    assert here + there == here + (there - kept);
    assert there == kept + (there - kept);
    UnionSize(here, there - kept);
  }

  lemma UnionSize(a: set<string>, b: set<string>)
    ensures |a + b| <= |a| + |b|
  {
    assert a + b == a + (b - a);
    assert |b - a| <= |b| by {
      assert b == (b - a) + (b * a);
    }
  }

  // ----- publications within the window -----

  datatype Publication = Publication(at: int, count: nat)

  /** Publications, the last one outermost. */
  datatype Log = Empty | Add(before: Log, last: Publication)

  function LogOf(list: seq<Publication>): Log {
    if list == [] then Empty else Add(LogOf(list[..|list| - 1]), list[|list| - 1])
  }

  lemma LogOfOneMore(list: seq<Publication>, p: Publication)
    ensures LogOf(list + [p]) == Add(LogOf(list), p)
  {
    assert (list + [p])[..|list|] == list;
  }

  lemma LogOfPrefix(list: seq<Publication>, i: nat)
    requires i < |list|
    ensures LogOf(list[..i + 1]) == Add(LogOf(list[..i]), list[i])
  {
    assert list[..i + 1] == list[..i] + [list[i]];
    LogOfOneMore(list[..i], list[i]);
  }

  /** What was published after `cutoff`. */
  ghost function Since(window: Log, cutoff: int): nat {
    match window
    case Empty => 0
    case Add(before, p) => Since(before, cutoff) + if p.at > cutoff then p.count else 0
  }

  /** What was published after `from` and no later than `to`. */
  ghost function Between(history: Log, from: int, to: int): nat {
    match history
    case Empty => 0
    case Add(before, p) => Between(before, from, to) + if from < p.at <= to then p.count else 0
  }

  /** What was published in the ten minutes up to `t`, their older end excluded. */
  ghost function UpTo(history: Log, t: int): nat {
    Between(history, t - WINDOW, t)
  }

  ghost predicate WithinBudget(history: Log, limit: nat) {
    forall t :: UpTo(history, t) <= limit
  }

  ghost predicate NoneAfter(history: Log, now: int) {
    match history
    case Empty => true
    case Add(before, p) => NoneAfter(before, now) && p.at <= now
  }

  lemma {:induction false} NoneAfterLater(history: Log, now: int, later: int)
    requires NoneAfter(history, now) && now <= later
    ensures NoneAfter(history, later)
  {
    if history.Add? {
      NoneAfterLater(history.before, now, later);
    }
  }

  lemma {:induction false} BetweenIsSince(history: Log, from: int, to: int, cutoff: int)
    requires cutoff <= from
    ensures Between(history, from, to) <= Since(history, cutoff)
  {
    if history.Add? {
      BetweenIsSince(history.before, from, to, cutoff);
    }
  }

  lemma {:induction false} BetweenNone(history: Log, from: int, to: int)
    requires NoneAfter(history, from)
    ensures Between(history, from, to) == 0
  {
    if history.Add? {
      BetweenNone(history.before, from, to);
    }
  }

  /** A group that fits what was left when it was decided keeps every window within the limit. */
  lemma PublishKeepsBudget(history: Log, limit: nat, decided: int, p: Publication)
    requires WithinBudget(history, limit) && NoneAfter(history, decided) && decided <= p.at
    requires p.count + Since(history, decided - WINDOW) <= limit
    ensures WithinBudget(Add(history, p), limit)
  {
    forall t ensures UpTo(Add(history, p), t) <= limit {
      assert UpTo(history, t) <= limit;
      if p.at <= t {
        if p.at > t - WINDOW {
          BetweenIsSince(history, t - WINDOW, t, decided - WINDOW);
        } else {
          NoneAfterLater(history, decided, t - WINDOW);
          BetweenNone(history, t - WINDOW, t);
        }
      }
    }
  }

  ghost function Kept(history: Log, cutoff: int): Log {
    match history
    case Empty => Empty
    case Add(before, p) => if p.at > cutoff then Add(Kept(before, cutoff), p) else Kept(before, cutoff)
  }

  /** Dropping what is older than an earlier cutoff loses nothing of a later window. */
  lemma {:induction false} KeptSince(history: Log, floor: int, cutoff: int)
    requires floor <= cutoff
    ensures Since(Kept(history, floor), cutoff) == Since(history, cutoff)
  {
    if history.Add? {
      KeptSince(history.before, floor, cutoff);
    }
  }

  lemma {:induction false} KeptTwice(history: Log, floor: int, cutoff: int)
    requires floor <= cutoff
    ensures Kept(Kept(history, floor), cutoff) == Kept(history, cutoff)
  {
    if history.Add? {
      KeptTwice(history.before, floor, cutoff);
    }
  }

  /** Adds a publication, if there was one. */
  function Plus(history: Log, out: Option<Publication>): Log {
    if out.Some? then Add(history, out.value) else history
  }

  function Counting(at: int, n: nat): Option<Publication> {
    if n == 0 then None else Some(Publication(at, n))
  }

  ghost function Amount(at: int, n: nat, t: int): nat {
    if t - WINDOW < at <= t then n else 0
  }

  lemma PlusSpends(history: Log, at: int, n: nat, t: int)
    ensures UpTo(Plus(history, Counting(at, n)), t) == UpTo(history, t) + Amount(at, n, t)
  {
  }

  // ----- groups as values -----

  /** What a decision sees of a group. */
  datatype Group = Group(names: seq<string>, count: nat)

  function Added(g: Group, keep: nat, name: string): Group {
    if name in g.names then g
    else Group(if |g.names| < keep then g.names + [name] else g.names, g.count + 1)
  }

  function AddedAll(g: Group, keep: nat, list: seq<string>): (r: Group)
    ensures g.count >= |g.names| ==> r.count >= |r.names|
    decreases |list|
  {
    if list == [] then g else Added(AddedAll(g, keep, list[..|list| - 1]), keep, list[|list| - 1])
  }

  function MergedWith(g: Group, keep: nat, other: Group): (r: Group)
    requires other.count >= |other.names|
    ensures g.count >= |g.names| ==> r.count >= |r.names|
  {
    var a := AddedAll(g, keep, other.names);
    a.(count := a.count + (other.count - |other.names|))
  }

  /** Groups collected apart and merged one after the other. */
  function Gathered(keep: nat, parts: seq<seq<string>>): (r: Group)
    ensures r.count >= |r.names|
    decreases |parts|
  {
    if parts == [] then Group([], 0)
    else MergedWith(Gathered(keep, parts[..|parts| - 1]), keep, AddedAll(Group([], 0), keep, parts[|parts| - 1]))
  }

  // ----- the breaker -----

  /** What looking at a missing name again finds. `Unconfirmed`: the deletion went out, and
      then its row could not be read; that ends the group, and the deletion is not counted. */
  datatype Look = Deleted | Back | Skipped | Fault | Unconfirmed

  predicate Ends(look: Look) {
    look == Fault || look == Unconfirmed
  }

  datatype Settlement = Nothing | Held | Settled(published: nat, fault: bool)

  /** The deletions that are counted. */
  ghost function Tally(names: seq<string>, look: string -> Look): nat
    decreases |names|
  {
    if names == [] || Ends(look(names[0])) then 0
    else (if look(names[0]) == Deleted then 1 else 0) + Tally(names[1..], look)
  }

  /** The one that goes out without being counted, if there is one. */
  ghost function Stray(names: seq<string>, look: string -> Look): nat
    decreases |names|
  {
    if names == [] || look(names[0]) == Fault then 0
    else if look(names[0]) == Unconfirmed then 1
    else Stray(names[1..], look)
  }

  lemma {:induction false} TallyBound(names: seq<string>, look: string -> Look)
    ensures Tally(names, look) + Stray(names, look) <= |names| && Stray(names, look) <= 1
    decreases |names|
  {
    if names != [] {
      TallyBound(names[1..], look);
    }
  }

  lemma {:induction false} NoStray(names: seq<string>, look: string -> Look)
    requires forall n :: look(n) != Unconfirmed
    ensures Stray(names, look) == 0
    decreases |names|
  {
    if names != [] {
      NoStray(names[1..], look);
    }
  }

  predicate AnyFault(names: seq<string>, look: string -> Look) {
    exists i :: 0 <= i < |names| && Ends(look(names[i]))
  }

  /** Publishes the names still missing, one by one, up to the first fault. */
  method PublishDeletions(names: seq<string>, look: string -> Look) returns (published: nat, fault: bool, ghost stray: nat)
    ensures published <= |names| && published == Tally(names, look) && stray == Stray(names, look)
    ensures fault <==> AnyFault(names, look)
  {
    published, fault, stray := 0, false, 0;
    var i := 0;
    while i < |names|
      invariant 0 <= i <= |names| && published <= i && stray == 0
      invariant published + Tally(names[i..], look) == Tally(names, look) && Stray(names[i..], look) == Stray(names, look)
      invariant forall j :: 0 <= j < i ==> !Ends(look(names[j]))
    {
      assert names[i..][1..] == names[i + 1..];
      if Ends(look(names[i])) {
        return published, true, if look(names[i]) == Unconfirmed then 1 else 0;
      }
      if look(names[i]) == Deleted {
        published := published + 1;
      }
      i := i + 1;
    }
  }

  /** The breaker's memory and its saved copy; and, for the record, everything it entered,
      and what was published without being entered. */
  datatype Book = Book(window: Log, loaded: bool, held: nat, saved: Log, recorded: Log, lost: Log, now: int)

  /** One decision: the groups merged into it, when it is made and how long publishing
      takes, what is found of each name, whether a window not yet read can be, and whether
      the new one is written. */
  datatype Decision = Decision(parts: seq<seq<string>>, authoritative: bool, wait: nat, takes: nat, look: string -> Look, readable: bool, written: bool)

  /** A decision; one whose process ends after publishing and before recording; a restart. */
  datatype Event = Found(d: Decision) | Killed(d: Decision) | Reboot

  ghost function Fresh(now: int): Book {
    Book(Empty, false, 0, Empty, Empty, Empty, now)
  }

  ghost function Loaded(b: Book, readable: bool): Book {
    if b.loaded then b else b.(loaded := true, window := if readable then b.saved else Empty)
  }

  /** The moment of a decision: the window read and pruned. */
  ghost function Counted(b: Book, d: Decision): Book {
    var l, at := Loaded(b, d.readable), b.now + d.wait;
    l.(window := Kept(l.window, at - WINDOW), now := at)
  }

  ghost function UsedAt(b: Book, d: Decision): nat {
    Since(Loaded(b, d.readable).window, b.now + d.wait - WINDOW)
  }

  /** A group is published if it fits what the window leaves of the budget, unless it only
      adds to a held one. */
  ghost predicate Publishes(limit: nat, b: Book, d: Decision, g: Group) {
    g.count > 0 && (d.authoritative || b.held == 0) && g.count + UsedAt(b, d) <= limit
  }

  /** What is held after a decision not to publish. */
  ghost function HeldAfter(b: Book, d: Decision, g: Group): nat {
    if g.count == 0 then (if d.authoritative then 0 else b.held)
    else if !d.authoritative && b.held > 0 then b.held
    else g.count
  }

  /** Enters what was published at `at` into the window, and the window into the saved copy. */
  ghost function Entered(b: Book, at: int, published: nat, written: bool): Book {
    if published == 0 then b
    else
      var p := Publication(at, published);
      var window := Kept(Add(b.window, p), at - WINDOW);
      b.(window := window, saved := if written then window else b.saved, recorded := Add(b.recorded, p))
  }

  /** Deletions go out that are not counted. */
  ghost function Slipped(b: Book, at: int, stray: nat): Book {
    b.(lost := Plus(b.lost, Counting(at, stray)))
  }

  /** What publishing a group leaves, from the moment it was decided. */
  ghost function Published(b: Book, d: Decision, names: seq<string>): Book {
    var at, held := b.now + d.takes, if d.authoritative && !AnyFault(names, d.look) then 0 else b.held;
    Entered(Slipped(b.(now := at, held := held), at, Stray(names, d.look)), at, Tally(names, d.look), d.written)
  }

  lemma PublishedWindow(m: Book, d: Decision, names: seq<string>)
    ensures var c, n, at := Published(m, d, names), Tally(names, d.look), m.now + d.takes;
      c.loaded == m.loaded && c.now == at && c.window == if n == 0 then m.window else Kept(Add(m.window, Publication(at, n)), at - WINDOW)
  {
  }

  lemma PublishedIsKept(m: Book, d: Decision, names: seq<string>)
    ensures var c, at := Published(m, d, names), m.now + d.takes;
      && c.recorded == Plus(m.recorded, Counting(at, Tally(names, d.look)))
      && c.lost == Plus(m.lost, Counting(at, Stray(names, d.look)))
  {
  }

  /** What a decision about a group leaves. */
  ghost function Settles(limit: nat, b: Book, d: Decision, g: Group): Book {
    if Publishes(limit, b, d, g) then Published(Counted(b, d), d, g.names)
    else Counted(b, d).(held := HeldAfter(b, d, g))
  }

  /** What a decision reports. */
  ghost function Reported(limit: nat, b: Book, d: Decision, g: Group): Settlement {
    if g.count == 0 then Nothing
    else if Publishes(limit, b, d, g) then Settled(Tally(g.names, d.look), AnyFault(g.names, d.look))
    else Held
  }

  ghost function Restarted(b: Book): Book {
    b.(window := Empty, loaded := false, held := 0)
  }

  /** What a process leaves that ends between publishing a group and recording it. */
  ghost function Dies(limit: nat, b: Book, d: Decision, g: Group): Book {
    var at := b.now + d.wait + d.takes;
    Slipped(Restarted(b.(now := at)), at, if Publishes(limit, b, d, g) then Tally(g.names, d.look) + Stray(g.names, d.look) else 0)
  }

  ghost function Happens(limit: nat, b: Book, e: Event): Book {
    match e
    case Found(d) => Settles(limit, b, d, Gathered(limit, d.parts))
    case Killed(d) => Dies(limit, b, d, Gathered(limit, d.parts))
    case Reboot => Restarted(b)
  }

  ghost function RunOf(limit: nat, b: Book, events: seq<Event>): Book
    decreases |events|
  {
    if events == [] then b else Happens(limit, RunOf(limit, b, events[..|events| - 1]), events[|events| - 1])
  }

  /** Deletions that went out in the ten minutes up to `t`, counted or not. */
  ghost function Spent(b: Book, t: int): nat {
    UpTo(b.recorded, t) + UpTo(b.lost, t)
  }

  ghost predicate Within(b: Book, limit: nat) {
    forall t :: Spent(b, t) <= limit
  }

  class Breaker {
    const limit: nat
    var window: seq<Publication>
    var loaded: bool
    var held: nat
    var saved: seq<Publication>
    ghost var recorded: Log
    ghost var lost: Log
    /** The clock, which does not go back. */
    var now: int

    ghost function Contents(): Book
      reads this
    {
      Book(LogOf(window), loaded, held, LogOf(saved), recorded, lost, now)
    }

    constructor (limit: nat, now: int)
      ensures this.limit == limit && Contents() == Fresh(now)
    {
      this.limit := limit;
      window, loaded, held, saved := [], false, 0, [];
      recorded, lost, this.now := Empty, Empty, now;
    }

    /** Drops what is older than the window and counts the rest. */
    method PublishedInWindow(now: int) returns (used: nat)
      modifies `window
      ensures LogOf(window) == Kept(LogOf(old(window)), now - WINDOW) && used == Since(LogOf(old(window)), now - WINDOW)
    {
      var cutoff := now - WINDOW;
      var kept: seq<Publication> := [];
      used := 0;
      var i := 0;
      while i < |window|
        invariant 0 <= i <= |window| && window == old(window)
        invariant LogOf(kept) == Kept(LogOf(window[..i]), cutoff) && used == Since(LogOf(window[..i]), cutoff)
      {
        LogOfPrefix(window, i);
        if window[i].at > cutoff {
          LogOfOneMore(kept, window[i]);
          kept := kept + [window[i]];
          used := used + window[i].count;
        }
        i := i + 1;
      }
      assert window[..i] == window;
      window := kept;
    }

    /** Reads the saved window once after a start; one that cannot be read counts as empty. */
    method Load(readable: bool)
      modifies `window, `loaded
      ensures Contents() == Loaded(old(Contents()), readable)
    {
      if !loaded {
        loaded := true;
        window := if readable then saved else [];
      }
    }

    method Save(now: int, written: bool)
      modifies `window, `saved
      ensures LogOf(window) == Kept(LogOf(old(window)), now - WINDOW) && saved == if written then window else old(saved)
    {
      var _ := PublishedInWindow(now);
      if written {
        saved := window;
      }
    }

    /** Reads the window if need be and counts what of it falls into the last ten minutes. */
    method Count(d: Decision) returns (used: nat)
      modifies `window, `loaded, `now
      ensures Contents() == Counted(old(Contents()), d) && used == UsedAt(old(Contents()), d)
    {
      Load(d.readable);
      now := now + d.wait;
      used := PublishedInWindow(now);
    }

    /** Publishes a group if it fits what is left of the budget, and holds all of it
        otherwise. Unless it `survives`, the process ends before it records anything. */
    method Settle(group: DeletionGroup, d: Decision, survives: bool) returns (r: Settlement)
      modifies this
      ensures var b, g := old(Contents()), Group(group.names, group.count);
        && Contents() == (if survives then Settles(limit, b, d, g) else Dies(limit, b, d, g))
        && (survives ==> r == Reported(limit, b, d, g))
    {
      ghost var b := Contents();
      var g := Group(group.names, group.count);
      var end := now + d.wait + d.takes;
      var used := Count(d);
      r := Decide(g, d, used, survives, b);
      if !survives {
        Restart();
        now := end;
      }
    }

    method Decide(g: Group, d: Decision, used: nat, survives: bool, ghost b: Book) returns (r: Settlement)
      requires Contents() == Counted(b, d) && used == UsedAt(b, d)
      modifies this
      ensures r == Reported(limit, b, d, g)
      ensures survives ==> Contents() == Settles(limit, b, d, g)
      ensures !survives ==> LogOf(saved) == b.saved && recorded == b.recorded && lost == Dies(limit, b, d, g).lost
    {
      ghost var c := Contents();
      if g.count == 0 || (!d.authoritative && held > 0) || g.count + used > limit {
        r := Hold(g.count, d.authoritative);
        assert Contents() == c.(held := HeldAfter(b, d, g));
      } else {
        assert Publishes(limit, b, d, g);
        r := Publish(g.names, d, survives);
      }
    }

    /** Nothing is published: there is nothing, or it waits. */
    method Hold(count: nat, authoritative: bool) returns (r: Settlement)
      modifies `held
      ensures held == if count == 0 then (if authoritative then 0 else old(held)) else if !authoritative && old(held) > 0 then old(held) else count
      ensures r == if count == 0 then Nothing else Held
    {
      if count == 0 {
        held := if authoritative then 0 else held;
        return Nothing;
      }
      if authoritative || held == 0 {
        held := count;
      }
      return Held;
    }

    method Publish(names: seq<string>, d: Decision, survives: bool) returns (r: Settlement)
      modifies this
      ensures r == Settled(Tally(names, d.look), AnyFault(names, d.look))
      ensures var b, at := old(Contents()), old(now) + d.takes;
        if survives then Contents() == Published(b, d, names)
        else LogOf(saved) == b.saved && recorded == b.recorded && lost == Slipped(b, at, Tally(names, d.look) + Stray(names, d.look)).lost
    {
      ghost var stray;
      var published, fault;
      published, fault, stray := PublishDeletions(names, d.look);
      now := now + d.takes;
      if d.authoritative && !fault {
        held := 0;
      }
      if survives {
        lost := Plus(lost, Counting(now, stray));
        Enter(published, d.written);
      } else {
        lost := Plus(lost, Counting(now, published + stray));
      }
      return Settled(published, fault);
    }

    /** Records what a group published. */
    method Enter(published: nat, written: bool)
      modifies `window, `saved, `recorded
      ensures Contents() == Entered(old(Contents()), now, published, written)
    {
      if published > 0 {
        LogOfOneMore(window, Publication(now, published));
        window := window + [Publication(now, published)];
        recorded := Add(recorded, Publication(now, published));
        Save(now, written);
      }
    }

    /** Carries out one event. */
    method Handle(e: Event)
      modifies this
      ensures Contents() == Happens(limit, old(Contents()), e)
    {
      if e == Reboot {
        Restart();
      } else {
        var group := Collect(limit, e.d.parts);
        var _ := Settle(group, e.d, e.Found?);
      }
    }

    /** The process starts again with what was saved. */
    method Restart()
      modifies this
      ensures Contents() == Restarted(old(Contents()))
    {
      loaded, window, held := false, [], 0;
    }
  }

  /** Carries out any sequence of decisions, ends and restarts. */
  method RunEvents(limit: nat, start: int, events: seq<Event>) returns (breaker: Breaker)
    requires limit > 0
    ensures fresh(breaker) && breaker.Contents() == RunOf(limit, Fresh(start), events)
    ensures Harmless(Kinds(events)) ==> Within(breaker.Contents(), limit)
  {
    breaker := new Breaker(limit, start);
    var i := 0;
    while i < |events|
      invariant 0 <= i <= |events| && fresh(breaker) && breaker.limit == limit
      invariant breaker.Contents() == RunOf(limit, Fresh(start), events[..i])
    {
      RunOneMore(limit, Fresh(start), events, i + 1);
      breaker.Handle(events[i]);
      i := i + 1;
    }
    assert events[..i] == events;
    if Harmless(Kinds(events)) {
      BudgetHolds(limit, start, events);
    }
  }

  lemma RunOneMore(limit: nat, b: Book, events: seq<Event>, n: nat)
    requires 0 < n <= |events|
    ensures RunOf(limit, b, events[..n]) == Happens(limit, RunOf(limit, b, events[..n - 1]), events[n - 1])
  {
    assert events[..n][..n - 1] == events[..n - 1];
  }

  /** Collects each part and merges it in. */
  method Collect(keep: nat, parts: seq<seq<string>>) returns (group: DeletionGroup)
    ensures fresh(group) && group.Valid() && Group(group.names, group.count) == Gathered(keep, parts)
  {
    group := new DeletionGroup(keep);
    var i := 0;
    while i < |parts|
      invariant 0 <= i <= |parts| && fresh(group) && group.Valid() && group.keep == keep
      invariant Group(group.names, group.count) == Gathered(keep, parts[..i])
    {
      assert parts[..i + 1][..i] == parts[..i];
      var part := new DeletionGroup(keep);
      part.AddAll(parts[i]);
      group.Merge(part);
      i := i + 1;
    }
    assert parts[..i] == parts;
  }

  // ----- which faults the budget stands -----

  /** An event without its groups and times: only what may go wrong with the window, and
      whether every deletion is confirmed. */
  datatype Kind = Deciding(readable: bool, written: bool, confirmed: bool) | Dying(readable: bool) | Restarting

  ghost predicate Confirms(d: Decision) {
    forall n :: d.look(n) != Unconfirmed
  }

  ghost function KindOf(e: Event): Kind {
    match e
    case Found(d) => Deciding(d.readable, d.written, Confirms(d))
    case Killed(d) => Dying(d.readable)
    case Reboot => Restarting
  }

  ghost function Kinds(events: seq<Event>): seq<Kind> {
    seq(|events|, i requires 0 <= i < |events| => KindOf(events[i]))
  }

  /** What can be relied on: every deletion was counted and every window saved; the window has been
      read since the last start; something may have been published; the window in memory,
      or the saved one if none was read yet, is complete. */
  datatype Trust = Trust(clean: bool, loaded: bool, any: bool, complete: bool)

  /** The decision knows everything that was published. */
  predicate Sees(tr: Trust, k: Kind) {
    k == Restarting || (tr.complete && (tr.loaded || k.readable || !tr.any))
  }

  function Then(tr: Trust, k: Kind): Trust {
    match k
    case Deciding(_, written, confirmed) => Trust(tr.clean && written && confirmed, true, true, Sees(tr, k) && confirmed)
    case Dying(_) => Trust(false, false, true, false)
    case Restarting => Trust(tr.clean, false, tr.any, tr.complete && tr.clean)
  }

  function TrustOf(ks: seq<Kind>): Trust
    decreases |ks|
  {
    if ks == [] then Trust(true, false, false, true) else Then(TrustOf(ks[..|ks| - 1]), ks[|ks| - 1])
  }

  /** The faults that are harmless: no decision is made after a deletion that could not be
      confirmed, nor, while something has been published before, after a start that reads no
      window, or one that was not saved. */
  predicate Harmless(ks: seq<Kind>) {
    forall i :: 0 <= i < |ks| ==> Sees(TrustOf(ks[..i]), ks[i])
  }

  /** `w` holds all of `h` that a decision from now on may have to count. */
  ghost predicate Covers(w: Log, h: Log, now: int) {
    exists floor :: floor <= now - WINDOW && w == Kept(h, floor)
  }

  ghost predicate Faithful(limit: nat, b: Book, tr: Trust) {
    && NoneAfter(b.recorded, b.now) && Within(b, limit) == true && b.loaded == tr.loaded
    && (!tr.any ==> b.recorded == b.saved == b.lost == b.window == Empty)
    && (tr.complete ==> b.lost == Empty && (if tr.loaded then Covers(b.window, b.recorded, b.now) == true else tr.clean))
    && (tr.clean ==> Covers(b.saved, b.recorded, b.now) == true)
  }

  /** A complete window is pruned to what falls into the last ten minutes, and counted. */
  lemma CoversCount(w: Log, h: Log, now: int, at: int)
    requires Covers(w, h, now) && now <= at
    ensures Kept(w, at - WINDOW) == Kept(h, at - WINDOW) && Since(w, at - WINDOW) == Since(h, at - WINDOW)
  {
    var floor :| floor <= now - WINDOW && w == Kept(h, floor);
    KeptTwice(h, floor, at - WINDOW);
    KeptSince(h, floor, at - WINDOW);
  }

  lemma CoversLater(w: Log, h: Log, now: int, later: int)
    requires Covers(w, h, now) == true && now <= later
    ensures Covers(w, h, later) == true
  {
    var floor :| floor <= now - WINDOW && w == Kept(h, floor);
    assert floor <= later - WINDOW && w == Kept(h, floor);
  }

  lemma CoversPruned(h: Log, now: int, at: int)
    requires now <= at
    ensures Covers(Kept(h, now - WINDOW), h, at) == true
  {
  }

  lemma SeesAll(limit: nat, b: Book, tr: Trust, d: Decision, k: Kind)
    requires Faithful(limit, b, tr) && k != Restarting && k.readable == d.readable && Sees(tr, k)
    ensures b.lost == Empty && Counted(b, d).window == Kept(b.recorded, b.now + d.wait - WINDOW)
    ensures UsedAt(b, d) == Since(b.recorded, b.now + d.wait - WINDOW)
  {
    if tr.loaded {
      CoversCount(b.window, b.recorded, b.now, b.now + d.wait);
    } else if k.readable {
      CoversCount(b.saved, b.recorded, b.now, b.now + d.wait);
    }
  }

  lemma SameSpending(a: Book, b: Book, limit: nat)
    requires Within(a, limit) && b.recorded == a.recorded && b.lost == a.lost
    ensures Within(b, limit) == true
  {
    forall t ensures Spent(b, t) <= limit {
      assert Spent(a, t) <= limit;
    }
  }

  lemma NothingLost(b: Book, limit: nat)
    requires b.lost == Empty
    ensures (Within(b, limit) == true) <==> (WithinBudget(b.recorded, limit) == true)
  {
    if Within(b, limit) {
      forall t ensures UpTo(b.recorded, t) <= limit {
        assert Spent(b, t) <= limit;
      }
    }
  }

  /** An entry and a loss at the same moment spend like one entry of both. */
  lemma StrayWithin(limit: nat, c: Book, h: Log, at: int, n: nat, stray: nat)
    requires c.recorded == Plus(h, Counting(at, n)) && c.lost == Plus(Empty, Counting(at, stray))
    requires WithinBudget(Add(h, Publication(at, n + stray)), limit) == true
    ensures Within(c, limit) == true
  {
    forall t ensures Spent(c, t) <= limit {
      assert UpTo(Add(h, Publication(at, n + stray)), t) <= limit;
      PlusSpends(h, at, n, t);
      PlusSpends(Empty, at, stray, t);
    }
  }

  /** A group that is published fits the budget, whatever became of earlier ones. */
  lemma GroupFits(limit: nat, m: Book, d: Decision, g: Group)
    requires WithinBudget(m.recorded, limit) && NoneAfter(m.recorded, m.now) && g.count >= |g.names|
    requires g.count + Since(m.recorded, m.now - WINDOW) <= limit
    ensures WithinBudget(Add(m.recorded, Publication(m.now + d.takes, Tally(g.names, d.look) + Stray(g.names, d.look))), limit) == true
  {
    TallyBound(g.names, d.look);
    PublishKeepsBudget(m.recorded, limit, m.now, Publication(m.now + d.takes, Tally(g.names, d.look) + Stray(g.names, d.look)));
  }

  /** A decision that knows everything, at its moment; `tr` is what can be relied on after it. */
  ghost predicate Ready(limit: nat, m: Book, tr: Trust) {
    && m.loaded && m.lost == Empty && m.window == Kept(m.recorded, m.now - WINDOW) && tr.loaded && tr.any
    && WithinBudget(m.recorded, limit) == true && NoneAfter(m.recorded, m.now)
    && (tr.clean ==> Covers(m.saved, m.recorded, m.now) == true)
  }

  lemma CountedIsReady(limit: nat, b: Book, tr: Trust, d: Decision, k: Kind)
    requires Faithful(limit, b, tr) && k.Deciding? && k.readable == d.readable && Sees(tr, k)
    ensures Ready(limit, Counted(b, d), Then(tr, k)) == true && UsedAt(b, d) == Since(b.recorded, b.now + d.wait - WINDOW)
  {
    SeesAll(limit, b, tr, d, k);
    NothingLost(b, limit);
    NoneAfterLater(b.recorded, b.now, b.now + d.wait);
    if tr.clean {
      CoversLater(b.saved, b.recorded, b.now, b.now + d.wait);
    }
  }

  /** Nothing goes out. */
  lemma SilentKeeps(limit: nat, m: Book, tr: Trust, at: int, held: nat)
    requires Ready(limit, m, tr) && m.now <= at
    ensures Faithful(limit, m.(now := at, held := held), tr) == true
  {
    NoneAfterLater(m.recorded, m.now, at);
    NothingLost(m.(now := at, held := held), limit);
    CoversPruned(m.recorded, m.now, at);
    if tr.clean {
      CoversLater(m.saved, m.recorded, m.now, at);
    }
  }

  /** What goes out is entered. */
  lemma EntryKeeps(limit: nat, m: Book, tr: Trust, at: int, held: nat, n: nat, written: bool)
    requires Ready(limit, m, tr) && m.now <= at && n > 0 && (tr.clean ==> written)
    requires WithinBudget(Add(m.recorded, Publication(at, n)), limit) == true
    ensures Faithful(limit, Entered(m.(now := at, held := held), at, n, written), tr) == true
  {
    var e := Entered(m.(now := at, held := held), at, n, written);
    NoneAfterLater(m.recorded, m.now, at);
    NothingLost(e, limit);
    KeptTwice(m.recorded, m.now - WINDOW, at - WINDOW);
    assert e.window == Kept(e.recorded, at - WINDOW);
    CoversPruned(e.recorded, at, at);
  }

  /** One deletion goes out uncounted: the group still fits, and nothing can be relied on afterwards. */
  lemma StrayKeeps(limit: nat, m: Book, tr: Trust, at: int, held: nat, n: nat, stray: nat, written: bool)
    requires Ready(limit, m, tr) && m.now <= at && !tr.clean && !tr.complete
    requires WithinBudget(Add(m.recorded, Publication(at, n + stray)), limit) == true
    ensures Faithful(limit, Entered(Slipped(m.(now := at, held := held), at, stray), at, n, written), tr) == true
  {
    var c := Entered(Slipped(m.(now := at, held := held), at, stray), at, n, written);
    NoneAfterLater(m.recorded, m.now, at);
    StrayWithin(limit, c, m.recorded, at, n, stray);
  }

  lemma PublishedKeeps(limit: nat, m: Book, tr: Trust, d: Decision, g: Group)
    requires Ready(limit, m, tr) && (tr.clean ==> d.written) && (tr.clean || tr.complete ==> Confirms(d))
    requires g.count >= |g.names| && g.count + Since(m.recorded, m.now - WINDOW) <= limit
    ensures Faithful(limit, Published(m, d, g.names), tr) == true
  {
    var at, n, stray := m.now + d.takes, Tally(g.names, d.look), Stray(g.names, d.look);
    var held := if d.authoritative && !AnyFault(g.names, d.look) then 0 else m.held;
    GroupFits(limit, m, d, g);
    if stray > 0 {
      if Confirms(d) {
        NoStray(g.names, d.look);
      }
      StrayKeeps(limit, m, tr, at, held, n, stray, d.written);
    } else if n > 0 {
      EntryKeeps(limit, m, tr, at, held, n, d.written);
    } else {
      SilentKeeps(limit, m, tr, at, held);
    }
  }

  lemma FoundKeeps(limit: nat, b: Book, tr: Trust, d: Decision, g: Group)
    requires Faithful(limit, b, tr) && g.count >= |g.names| && Sees(tr, KindOf(Found(d)))
    ensures Faithful(limit, Settles(limit, b, d, g), Then(tr, KindOf(Found(d)))) == true
  {
    var m, tr' := Counted(b, d), Then(tr, KindOf(Found(d)));
    CountedIsReady(limit, b, tr, d, KindOf(Found(d)));
    if Publishes(limit, b, d, g) {
      PublishedKeeps(limit, m, tr', d, g);
    } else {
      SilentKeeps(limit, m, tr', m.now, HeldAfter(b, d, g));
    }
  }

  lemma KilledKeeps(limit: nat, b: Book, tr: Trust, d: Decision, g: Group)
    requires Faithful(limit, b, tr) && g.count >= |g.names| && Sees(tr, Dying(d.readable))
    ensures Faithful(limit, Dies(limit, b, d, g), Then(tr, Dying(d.readable))) == true
  {
    var t, at, n := Dies(limit, b, d, g), b.now + d.wait + d.takes, Tally(g.names, d.look) + Stray(g.names, d.look);
    CountedIsReady(limit, b, tr, d, Deciding(d.readable, false, false));
    NoneAfterLater(b.recorded, b.now, at);
    SeesAll(limit, b, tr, d, Dying(d.readable));
    if Publishes(limit, b, d, g) {
      GroupFits(limit, Counted(b, d), d, g);
      StrayWithin(limit, t, b.recorded, at, 0, n);
    } else {
      SameSpending(b, t, limit);
    }
  }

  lemma RebootKeeps(limit: nat, b: Book, tr: Trust)
    requires Faithful(limit, b, tr)
    ensures Faithful(limit, Restarted(b), Then(tr, Restarting)) == true
  {
    SameSpending(b, Restarted(b), limit);
  }

  lemma EventKeeps(limit: nat, b: Book, tr: Trust, e: Event)
    requires Faithful(limit, b, tr) == true && Sees(tr, KindOf(e))
    ensures Faithful(limit, Happens(limit, b, e), Then(tr, KindOf(e))) == true
  {
    match e {
      case Found(d) => FoundKeeps(limit, b, tr, d, Gathered(limit, d.parts));
      case Killed(d) => KilledKeeps(limit, b, tr, d, Gathered(limit, d.parts));
      case Reboot => RebootKeeps(limit, b, tr);
    }
  }

  lemma FreshIsFaithful(limit: nat, start: int)
    ensures Faithful(limit, Fresh(start), TrustOf([])) == true
  {
    CoversPruned(Empty, start, start);
  }

  lemma KindsOneMore(events: seq<Event>)
    requires events != []
    ensures var n, ks := |events| - 1, Kinds(events);
      ks != [] && ks[..|ks| - 1] == Kinds(events[..n]) && ks[|ks| - 1] == KindOf(events[n])
  {
  }

  lemma TrustOneMore(ks: seq<Kind>)
    requires ks != []
    ensures TrustOf(ks) == Then(TrustOf(ks[..|ks| - 1]), ks[|ks| - 1])
  {
  }

  lemma {:induction false} RunIsFaithful(limit: nat, start: int, events: seq<Event>, ks: seq<Kind>)
    requires ks == Kinds(events) && Harmless(ks) == true
    ensures Faithful(limit, RunOf(limit, Fresh(start), events), TrustOf(ks)) == true
    decreases |events|
  {
    if events == [] {
      FreshIsFaithful(limit, start);
    } else {
      var n := |events| - 1;
      KindsOneMore(events);
      HarmlessBefore(ks);
      TrustOneMore(ks);
      var before := ks[..|ks| - 1];
      RunIsFaithful(limit, start, events[..n], before);
      EventKeeps(limit, RunOf(limit, Fresh(start), events[..n]), TrustOf(before), events[n]);
    }
  }

  /** The deletion budget: whatever groups are found and whenever they are decided, if the
      faults are harmless no half-open ten minutes see more deletions than the limit. */
  lemma BudgetHolds(limit: nat, start: int, events: seq<Event>)
    requires Harmless(Kinds(events)) == true
    ensures Within(RunOf(limit, Fresh(start), events), limit) == true
  {
    RunIsFaithful(limit, start, events, Kinds(events));
  }

  // ----- and no others -----

  /** `n` different names. */
  function NamesOf(n: nat): seq<string> {
    seq(n, (i: nat) => seq(i, _ => 'a'))
  }

  lemma {:induction false} NamesGather(keep: nat, n: nat)
    requires n <= keep
    ensures AddedAll(Group([], 0), keep, NamesOf(n)) == Group(NamesOf(n), n)
    decreases n
  {
    if n > 0 {
      assert NamesOf(n)[..n - 1] == NamesOf(n - 1);
      NamesGather(keep, n - 1);
      assert NamesOf(n)[n - 1] !in NamesOf(n - 1) by {
        var earlier := NamesOf(n - 1);
        assert forall i :: 0 <= i < n - 1 ==> |earlier[i]| == i;
      }
      assert NamesOf(n - 1) + [NamesOf(n)[n - 1]] == NamesOf(n);
    }
  }

  lemma {:induction false} TallyAll(names: seq<string>, look: string -> Look)
    requires forall n :: look(n) == Deleted
    ensures Tally(names, look) == |names| && Stray(names, look) == 0
    decreases |names|
  {
    if names != [] {
      TallyAll(names[1..], look);
    }
  }

  lemma {:induction false} TallyStops(names: seq<string>, look: string -> Look, k: nat)
    requires k < |names| && (forall j :: 0 <= j < k ==> look(names[j]) == Deleted) && look(names[k]) == Unconfirmed
    ensures Tally(names, look) == k && Stray(names, look) == 1
    decreases k
  {
    if k > 0 {
      var rest := names[1..];
      assert forall j :: 0 <= j < k - 1 ==> rest[j] == names[j + 1];
      assert rest[k - 1] == names[k];
      TallyStops(rest, look, k - 1);
    }
  }

  /** Of `n` names, all are confirmed, or all but the last. */
  function LookOf(n: nat, confirmed: bool): string -> Look {
    (x: string) => if confirmed || |x| + 1 < n then Deleted else Unconfirmed
  }

  /** `n` names found missing by a sweep, decided and published at once. */
  function Sweep(n: nat, readable: bool, written: bool, confirmed: bool): Decision {
    Decision(if n == 0 then [] else [NamesOf(n)], true, 0, 0, LookOf(n, confirmed), readable, written)
  }

  function EventOf(k: Kind, n: nat): Event {
    match k
    case Deciding(readable, written, confirmed) => Found(Sweep(n, readable, written, confirmed))
    case Dying(readable) => Killed(Sweep(n, readable, false, true))
    case Restarting => Reboot
  }

  lemma SweepConfirms(n: nat, readable: bool, written: bool, confirmed: bool)
    ensures Confirms(Sweep(n, readable, written, confirmed)) == confirmed
  {
    var x := seq(n, _ => 'a');
    assert LookOf(n, confirmed)(x) == if confirmed then Deleted else Unconfirmed;
  }

  lemma SweepGathers(limit: nat, n: nat, readable: bool, written: bool, confirmed: bool)
    requires n <= limit
    ensures Gathered(limit, Sweep(n, readable, written, confirmed).parts) == Group(NamesOf(n), n)
  {
    if n > 0 {
      var parts := [NamesOf(n)];
      assert parts[..0] == [];
      NamesGather(limit, n);
    }
  }

  lemma SweepTally(n: nat, confirmed: bool)
    requires n > 0
    ensures Tally(NamesOf(n), LookOf(n, confirmed)) == if confirmed then n else n - 1
    ensures Stray(NamesOf(n), LookOf(n, confirmed)) == if confirmed then 0 else 1
  {
    var names := NamesOf(n);
    if confirmed {
      TallyAll(names, LookOf(n, confirmed));
    } else {
      assert forall j :: 0 <= j < n ==> |names[j]| == j;
      TallyStops(names, LookOf(n, confirmed), n - 1);
    }
  }

  /** A decision made and published at once, about `n` names of which all are deleted, the
      last perhaps without being counted. */
  ghost predicate Sweeps(limit: nat, d: Decision, n: nat, confirmed: bool) {
    && d.authoritative && d.wait == 0 && d.takes == 0 && Confirms(d) == confirmed
    && var g := Gathered(limit, d.parts);
       && g.count == n && Tally(g.names, d.look) == (if n == 0 || confirmed then n else n - 1)
       && Stray(g.names, d.look) == if n == 0 || confirmed then 0 else 1
  }

  lemma SweepSweeps(limit: nat, n: nat, readable: bool, written: bool, confirmed: bool)
    requires n <= limit
    ensures Sweeps(limit, Sweep(n, readable, written, confirmed), n, confirmed) == true
  {
    SweepGathers(limit, n, readable, written, confirmed);
    SweepConfirms(n, readable, written, confirmed);
    if n > 0 {
      SweepTally(n, confirmed);
    }
  }

  /** An event of the given kind, about `n` names. */
  ghost predicate Proper(limit: nat, e: Event, k: Kind, n: nat) {
    KindOf(e) == k && (e != Reboot ==> Sweeps(limit, e.d, n, k.Dying? || k.confirmed) == true)
  }

  lemma EventIsProper(limit: nat, k: Kind, n: nat)
    requires n <= limit
    ensures Proper(limit, EventOf(k, n), k, n) == true
  {
    if k.Deciding? {
      SweepSweeps(limit, n, k.readable, k.written, k.confirmed);
    } else if k.Dying? {
      SweepSweeps(limit, n, k.readable, false, true);
    }
  }

  ghost function UsedBy(b: Book, readable: bool): nat {
    Since(Loaded(b, readable).window, b.now - WINDOW)
  }

  lemma CountedSpends(b: Book, d: Decision)
    requires d.wait == 0
    ensures var m := Counted(b, d);
      && m.now == b.now && m.loaded && m.saved == b.saved && m.recorded == b.recorded && m.lost == b.lost
      && Since(m.window, b.now - WINDOW) == UsedBy(b, d.readable)
  {
    KeptSince(Loaded(b, d.readable).window, b.now - WINDOW, b.now - WINDOW);
  }

  /** `n` deletions more have gone out. */
  ghost predicate Spends(b: Book, c: Book, n: nat) {
    c.now == b.now && Spent(c, b.now) == Spent(b, b.now) + n
  }

  lemma EntryCounts(w: Log, now: int, n: nat)
    ensures Since(Kept(Add(w, Publication(now, n)), now - WINDOW), now - WINDOW) == Since(w, now - WINDOW) + n
  {
    KeptSince(Add(w, Publication(now, n)), now - WINDOW, now - WINDOW);
  }

  lemma PublishedSaves(m: Book, d: Decision, names: seq<string>)
    requires d.takes == 0
    ensures var c, n := Published(m, d, names), Tally(names, d.look);
      && (!d.written ==> c.saved == m.saved) && (c.saved == m.saved || c.saved == c.window)
      && Since(c.window, m.now - WINDOW) == Since(m.window, m.now - WINDOW) + n
  {
    EntryCounts(m.window, m.now, Tally(names, d.look));
  }

  lemma KeptSpends(b: Book, c: Book, n: nat, stray: nat)
    requires c.now == b.now && c.recorded == Plus(b.recorded, Counting(b.now, n)) && c.lost == Plus(b.lost, Counting(b.now, stray))
    ensures Spends(b, c, n + stray)
  {
    PlusSpends(b.recorded, b.now, n, b.now);
    PlusSpends(b.lost, b.now, stray, b.now);
  }

  lemma FoundSpends(limit: nat, b: Book, d: Decision, n: nat, confirmed: bool)
    requires Sweeps(limit, d, n, confirmed) && 0 < n && n + UsedBy(b, d.readable) <= limit
    ensures var c := Happens(limit, b, Found(d));
      && Spends(b, c, n) && c.loaded && (!d.written ==> c.saved == b.saved) && (c.saved == b.saved || c.saved == c.window)
      && (!confirmed ==> Since(c.window, b.now - WINDOW) == UsedBy(b, d.readable) + n - 1)
  {
    var m, g, c := Counted(b, d), Gathered(limit, d.parts), Happens(limit, b, Found(d));
    assert Publishes(limit, b, d, g);
    CountedSpends(b, d);
    PublishedSaves(m, d, g.names);
    PublishedWindow(m, d, g.names);
    PublishedIsKept(m, d, g.names);
    KeptSpends(b, c, Tally(g.names, d.look), Stray(g.names, d.look));
  }

  lemma KilledSpends(limit: nat, b: Book, d: Decision, n: nat)
    requires Sweeps(limit, d, n, true) && 0 < n && n + UsedBy(b, d.readable) <= limit
    ensures var c := Happens(limit, b, Killed(d)); Spends(b, c, n) && !c.loaded && c.saved == b.saved
  {
    assert Publishes(limit, b, d, Gathered(limit, d.parts));
    KeptSpends(b, Happens(limit, b, Killed(d)), 0, n);
  }

  /** An event that fits what it sees spends what it finds. */
  lemma FullEvent(limit: nat, b: Book, tr: Trust, e: Event, k: Kind, n: nat)
    requires Proper(limit, e, k, n) && k != Restarting && 0 < n && n + UsedBy(b, k.readable) <= limit
    ensures var c := Happens(limit, b, e);
      && Spends(b, c, n) && c.loaded == Then(tr, k).loaded && (Unkept(k) ==> c.saved == b.saved)
      && (Unsure(k) ==> Since(c.window, b.now - WINDOW) == UsedBy(b, k.readable) + n - 1 && (c.saved == b.saved || c.saved == c.window))
  {
    match e
    case Found(d) => FoundSpends(limit, b, d, n, k.confirmed);
    case Killed(d) => KilledSpends(limit, b, d, n);
  }

  /** A sweep that finds nothing only reads the window. */
  lemma EmptyEvent(limit: nat, b: Book, tr: Trust, e: Event, k: Kind, m: nat)
    requires Proper(limit, e, k, 0) && b.loaded == tr.loaded
    ensures var c := Happens(limit, b, e);
      && c.now == b.now && c.saved == b.saved && c.recorded == b.recorded && c.lost == b.lost && c.loaded == Then(tr, k).loaded
      && (b.window == b.saved == Empty ==> c.window == Empty)
      && (Since(b.window, b.now - WINDOW) <= m && Since(b.saved, b.now - WINDOW) <= m ==> Since(c.window, b.now - WINDOW) <= m)
  {
    if e.Found? {
      CountedSpends(b, e.d);
      assert Since(Empty, b.now - WINDOW) == 0;
    }
  }

  /** Nothing is found except by events `i` and `k`. */
  function Witness(limit: nat, ks: seq<Kind>, i: nat, k: nat): seq<Event> {
    seq(|ks|, n requires 0 <= n < |ks| => EventOf(ks[n], ToFind(limit, i, k, n)))
  }

  /** What the event publishes is not in the saved copy. */
  predicate Unkept(k: Kind) {
    k.Dying? || (k.Deciding? && !k.written)
  }

  /** One deletion of the event may go out uncounted. */
  predicate Unsure(k: Kind) {
    k.Deciding? && !k.confirmed
  }

  /** Event `k` cannot know all that event `i` published. */
  ghost predicate Forgets(ks: seq<Kind>, i: nat, k: nat) {
    && i < k < |ks| && ks[i] != Restarting && ks[k] != Restarting
    && (Unsure(ks[i]) || (!TrustOf(ks[..k]).loaded && (!ks[k].readable || Unkept(ks[i]))))
  }

  ghost predicate SpentBy(limit: nat, start: int, ks: seq<Kind>, i: nat, k: nat, n: nat, b: Book)
    requires i < |ks| && n <= |ks|
  {
    && b.now == start && b.loaded == TrustOf(ks[..n]).loaded
    && Spent(b, start) == (if n > i then limit else 0) + (if n > k then 1 else 0)
    && (n <= i ==> b.window == b.saved == Empty)
    && (n <= k && Unkept(ks[i]) ==> b.saved == Empty)
    && (i < n <= k && Unsure(ks[i]) ==> Since(b.window, start - WINDOW) < limit && Since(b.saved, start - WINDOW) < limit)
  }

  lemma SpentByFirst(limit: nat, start: int, ks: seq<Kind>, i: nat, k: nat, e: Event, b: Book)
    requires limit > 0 && Forgets(ks, i, k) && SpentBy(limit, start, ks, i, k, i, b) && Proper(limit, e, ks[i], limit) == true
    ensures SpentBy(limit, start, ks, i, k, i + 1, Happens(limit, b, e)) == true
  {
    assert ks[..i + 1][..i] == ks[..i];
    assert Since(Empty, start - WINDOW) == 0;
    FullEvent(limit, b, TrustOf(ks[..i]), e, ks[i], limit);
  }

  lemma SpentBySecond(limit: nat, start: int, ks: seq<Kind>, i: nat, k: nat, e: Event, b: Book)
    requires limit > 0 && Forgets(ks, i, k) && SpentBy(limit, start, ks, i, k, k, b) && Proper(limit, e, ks[k], 1) == true
    ensures SpentBy(limit, start, ks, i, k, k + 1, Happens(limit, b, e)) == true
  {
    assert ks[..k + 1][..k] == ks[..k];
    assert Since(Empty, start - WINDOW) == 0;
    FullEvent(limit, b, TrustOf(ks[..k]), e, ks[k], 1);
  }

  lemma SpentByOther(limit: nat, start: int, ks: seq<Kind>, i: nat, k: nat, n: nat, e: Event, b: Book)
    requires limit > 0 && Forgets(ks, i, k) && n < |ks| && n != i && n != k && SpentBy(limit, start, ks, i, k, n, b)
    requires Proper(limit, e, ks[n], 0) == true
    ensures SpentBy(limit, start, ks, i, k, n + 1, Happens(limit, b, e)) == true
  {
    assert ks[..n + 1][..n] == ks[..n];
    EmptyEvent(limit, b, TrustOf(ks[..n]), e, ks[n], limit - 1);
  }

  function ToFind(limit: nat, i: nat, k: nat, n: nat): nat {
    if n == i then limit else if n == k then 1 else 0
  }

  lemma SpentByNext(limit: nat, start: int, ks: seq<Kind>, i: nat, k: nat, n: nat, e: Event, b: Book)
    requires limit > 0 && Forgets(ks, i, k) == true && n < |ks| && SpentBy(limit, start, ks, i, k, n, b) == true
    requires i < k && Proper(limit, e, ks[n], ToFind(limit, i, k, n)) == true
    ensures SpentBy(limit, start, ks, i, k, n + 1, Happens(limit, b, e)) == true
  {
    if n == i {
      SpentByFirst(limit, start, ks, i, k, e, b);
    } else if n == k {
      SpentBySecond(limit, start, ks, i, k, e, b);
    } else {
      SpentByOther(limit, start, ks, i, k, n, e, b);
    }
  }

  lemma SpentByNothing(limit: nat, start: int, ks: seq<Kind>, i: nat, k: nat)
    requires Forgets(ks, i, k)
    ensures SpentBy(limit, start, ks, i, k, 0, Fresh(start)) == true
  {
    assert UpTo(Empty, start) == 0;
  }

  ghost predicate AllProper(limit: nat, ks: seq<Kind>, i: nat, k: nat, events: seq<Event>) {
    |events| == |ks| && forall n :: 0 <= n < |ks| ==> Proper(limit, events[n], ks[n], ToFind(limit, i, k, n)) == true
  }

  lemma SomeProper(limit: nat, ks: seq<Kind>, i: nat, k: nat) returns (events: seq<Event>)
    requires limit > 0
    ensures AllProper(limit, ks, i, k, events) == true
  {
    events := Witness(limit, ks, i, k);
    forall n | 0 <= n < |ks| ensures Proper(limit, events[n], ks[n], ToFind(limit, i, k, n)) == true {
      EventIsProper(limit, ks[n], ToFind(limit, i, k, n));
    }
  }

  lemma ProperKinds(limit: nat, ks: seq<Kind>, i: nat, k: nat, events: seq<Event>)
    requires AllProper(limit, ks, i, k, events)
    ensures Kinds(events) == ks && |events| == |ks|
  {
    forall n | 0 <= n < |ks| ensures KindOf(events[n]) == ks[n] {
      assert Proper(limit, events[n], ks[n], ToFind(limit, i, k, n));
    }
  }

  lemma {:induction false} WitnessSpends(limit: nat, start: int, ks: seq<Kind>, i: nat, k: nat, events: seq<Event>, n: nat)
    requires limit > 0 && Forgets(ks, i, k) == true && i < k < |ks| && n <= |ks| && AllProper(limit, ks, i, k, events)
    ensures SpentBy(limit, start, ks, i, k, n, RunOf(limit, Fresh(start), events[..n])) == true
    decreases n
  {
    if n == 0 {
      SpentByNothing(limit, start, ks, i, k);
    } else {
      WitnessSpends(limit, start, ks, i, k, events, n - 1);
      RunOneMore(limit, Fresh(start), events, n);
      SpentByNext(limit, start, ks, i, k, n - 1, events[n - 1], RunOf(limit, Fresh(start), events[..n - 1]));
    }
  }

  ghost predicate SomeUnkept(ks: seq<Kind>, n: nat) {
    exists i :: 0 <= i < n && i < |ks| && Unkept(ks[i])
  }

  ghost predicate SomeUnsure(ks: seq<Kind>, n: nat) {
    exists i :: 0 <= i < n && i < |ks| && Unsure(ks[i])
  }

  ghost predicate SomeEvent(ks: seq<Kind>, n: nat) {
    exists i :: 0 <= i < n && i < |ks| && ks[i] != Restarting
  }

  lemma SomeLater(ks: seq<Kind>, n: nat)
    requires n < |ks|
    ensures SomeUnkept(ks, n + 1) <==> SomeUnkept(ks, n) || Unkept(ks[n])
    ensures SomeUnsure(ks, n + 1) <==> SomeUnsure(ks, n) || Unsure(ks[n])
    ensures SomeEvent(ks, n + 1) <==> SomeEvent(ks, n) || ks[n] != Restarting
  {
  }

  /** Why a decision does not see everything: the faults before it. */
  lemma {:induction false} Blamed(ks: seq<Kind>, n: nat)
    requires n <= |ks| && Harmless(ks[..n]) == true
    ensures var tr := TrustOf(ks[..n]);
      && (tr.any ==> SomeEvent(ks, n)) && (!tr.clean ==> SomeUnkept(ks, n) || SomeUnsure(ks, n))
      && (!tr.complete ==> SomeUnsure(ks, n) || (!tr.loaded && SomeUnkept(ks, n)))
    decreases n
  {
    if n > 0 {
      assert ks[..n][..n - 1] == ks[..n - 1];
      HarmlessBefore(ks[..n]);
      Blamed(ks, n - 1);
      SomeLater(ks, n - 1);
    }
  }

  lemma HarmlessBefore(ks: seq<Kind>)
    requires |ks| > 0
    ensures var n := |ks| - 1; Harmless(ks) <==> Harmless(ks[..n]) && Sees(TrustOf(ks[..n]), ks[n])
  {
    var n := |ks| - 1;
    var before := ks[..n];
    assert forall i :: 0 <= i < n ==> before[..i] == ks[..i];
    if Harmless(ks) {
      forall i | 0 <= i < n ensures Sees(TrustOf(before[..i]), before[i]) {
        assert Sees(TrustOf(ks[..i]), ks[i]);
      }
    }
    if Harmless(before) && Sees(TrustOf(before), ks[n]) {
      forall i | 0 <= i < |ks| ensures Sees(TrustOf(ks[..i]), ks[i]) {
        if i < n {
          assert Sees(TrustOf(before[..i]), before[i]);
        }
      }
    }
  }

  /** The first decision that does not see everything. */
  lemma {:induction false} FirstBlind(ks: seq<Kind>) returns (k: nat)
    requires !Harmless(ks)
    ensures k < |ks| && Harmless(ks[..k]) && !Sees(TrustOf(ks[..k]), ks[k])
    decreases |ks|
  {
    var n := |ks| - 1;
    HarmlessBefore(ks);
    if Harmless(ks[..n]) {
      k := n;
    } else {
      k := FirstBlind(ks[..n]);
      assert ks[..n][..k] == ks[..k];
    }
  }

  /** Faults that do harm have a decision that forgets an earlier one. */
  lemma SomeForget(ks: seq<Kind>) returns (i: nat, k: nat)
    requires !Harmless(ks)
    ensures Forgets(ks, i, k) == true && i < k < |ks|
  {
    k := FirstBlind(ks);
    Blamed(ks, k);
    if SomeUnsure(ks, k) {
      i :| 0 <= i < k && i < |ks| && Unsure(ks[i]);
    } else if SomeUnkept(ks, k) {
      i :| 0 <= i < k && i < |ks| && Unkept(ks[i]);
    } else {
      i :| 0 <= i < k && i < |ks| && ks[i] != Restarting;
    }
  }

  lemma SpentByBoth(limit: nat, start: int, ks: seq<Kind>, i: nat, k: nat, b: Book)
    requires i < k < |ks| && SpentBy(limit, start, ks, i, k, |ks|, b)
    ensures !Within(b, limit)
  {
    assert Spent(b, start) == limit + 1;
  }

  lemma ForgettingOverspends(limit: nat, start: int, ks: seq<Kind>, i: nat, k: nat, events: seq<Event>)
    requires limit > 0 && Forgets(ks, i, k) == true && i < k < |ks| && AllProper(limit, ks, i, k, events) == true && |events| == |ks|
    ensures !Within(RunOf(limit, Fresh(start), events), limit)
  {
    WitnessSpends(limit, start, ks, i, k, events, |ks|);
    assert events[..|ks|] == events;
    SpentByBoth(limit, start, ks, i, k, RunOf(limit, Fresh(start), events));
  }

  /** The condition is exact: for all other faults there are groups, and times, for which
      ten minutes see more deletions than the limit. */
  lemma BudgetFails(limit: nat, start: int, ks: seq<Kind>) returns (events: seq<Event>)
    requires limit > 0 && !Harmless(ks)
    ensures Kinds(events) == ks && !Within(RunOf(limit, Fresh(start), events), limit)
  {
    var i, k := SomeForget(ks);
    events := SomeProper(limit, ks, i, k);
    ProperKinds(limit, ks, i, k, events);
    ForgettingOverspends(limit, start, ks, i, k, events);
  }

  /** A deletion that went out and could not be confirmed: one process, no restart, every
      window written and read. */
  lemma UnconfirmedOverspends(limit: nat, start: int) returns (events: seq<Event>)
    requires limit > 0
    ensures Kinds(events) == [Deciding(true, true, false), Deciding(true, true, true)]
    ensures !Within(RunOf(limit, Fresh(start), events), limit)
  {
    var ks := [Deciding(true, true, false), Deciding(true, true, true)];
    assert ks[..1] == [Deciding(true, true, false)] && ks[..1][..0] == [];
    assert !Sees(TrustOf(ks[..1]), ks[1]);
    events := BudgetFails(limit, start, ks);
  }

  /** A window that could not be written before a restart. */
  lemma UnsavedRestartOverspends(limit: nat, start: int) returns (events: seq<Event>)
    requires limit > 0
    ensures Kinds(events) == [Deciding(true, false, true), Restarting, Deciding(true, true, true)]
    ensures !Within(RunOf(limit, Fresh(start), events), limit)
  {
    var ks := [Deciding(true, false, true), Restarting, Deciding(true, true, true)];
    assert ks[..2] == [Deciding(true, false, true), Restarting] && ks[..2][..1] == [Deciding(true, false, true)] && ks[..1][..0] == [];
    assert !Sees(TrustOf(ks[..2]), ks[2]);
    events := BudgetFails(limit, start, ks);
  }

  /** A window that cannot be read after one. */
  lemma UnreadRestartOverspends(limit: nat, start: int) returns (events: seq<Event>)
    requires limit > 0
    ensures Kinds(events) == [Deciding(true, true, true), Restarting, Deciding(false, true, true)]
    ensures !Within(RunOf(limit, Fresh(start), events), limit)
  {
    var ks := [Deciding(true, true, true), Restarting, Deciding(false, true, true)];
    assert ks[..2] == [Deciding(true, true, true), Restarting] && ks[..2][..1] == [Deciding(true, true, true)] && ks[..1][..0] == [];
    assert !Sees(TrustOf(ks[..2]), ks[2]);
    events := BudgetFails(limit, start, ks);
  }

  /** A process that ends between publishing and recording: a restart loop hands out a
      fresh budget each time. */
  lemma KilledOverspends(limit: nat, start: int) returns (events: seq<Event>)
    requires limit > 0
    ensures Kinds(events) == [Dying(true), Deciding(true, true, true)]
    ensures !Within(RunOf(limit, Fresh(start), events), limit)
  {
    var ks := [Dying(true), Deciding(true, true, true)];
    assert ks[..1] == [Dying(true)] && ks[..1][..0] == [];
    assert !Sees(TrustOf(ks[..1]), ks[1]);
    events := BudgetFails(limit, start, ks);
  }

  /** Restarts alone do no harm. */
  lemma {:induction false} CleanIsHarmless(ks: seq<Kind>)
    requires forall i :: 0 <= i < |ks| ==> ks[i] == Deciding(true, true, true) || ks[i] == Restarting
    ensures Harmless(ks) == true && TrustOf(ks).clean && TrustOf(ks).complete
    decreases |ks|
  {
    if ks != [] {
      CleanIsHarmless(ks[..|ks| - 1]);
      HarmlessBefore(ks);
    }
  }

  /** A decision, without faults, to publish a group of the whole budget. */
  ghost predicate Fills(limit: nat, d: Decision) {
    && d.authoritative && d.takes == 0 && d.readable && d.written && Confirms(d)
    && var g := Gathered(limit, d.parts); g.count == limit && Tally(g.names, d.look) == limit && Stray(g.names, d.look) == 0
  }

  lemma SomeFills(limit: nat) returns (d: Decision)
    requires limit > 0
    ensures Fills(limit, d) && d.wait == 0
  {
    d := Sweep(limit, true, true, true);
    SweepSweeps(limit, limit, true, true, true);
  }

  lemma FillsAt(limit: nat, b: Book, d: Decision)
    requires limit > 0 && Fills(limit, d) && UsedAt(b, d) == 0
    ensures var c, m, p := Happens(limit, b, Found(d)), Counted(b, d), Publication(b.now + d.wait, limit);
      c.now == p.at && c.loaded && c.recorded == Add(b.recorded, p) && c.window == Kept(Add(m.window, p), p.at - WINDOW)
  {
    var g := Gathered(limit, d.parts);
    assert Publishes(limit, b, d, g);
    PublishedWindow(Counted(b, d), d, g.names);
    PublishedIsKept(Counted(b, d), d, g.names);
  }

  ghost predicate HasFilled(limit: nat, b: Book, at: int) {
    b.loaded && b.now == at && b.window == b.recorded == Add(Empty, Publication(at, limit))
  }

  lemma FillsFirst(limit: nat, start: int, d: Decision)
    requires limit > 0 && Fills(limit, d) && d.wait == 0
    ensures HasFilled(limit, Happens(limit, Fresh(start), Found(d)), start) == true
  {
    assert UsedAt(Fresh(start), d) == 0;
    FillsAt(limit, Fresh(start), d);
  }

  lemma FilledIsPast(limit: nat, b: Book, start: int, d: Decision)
    requires d.wait == WINDOW && HasFilled(limit, b, start)
    ensures UsedAt(b, d) == 0
  {
    assert Since(Empty, start) == 0 && Since(b.window, start) == 0;
  }

  lemma FillsAgain(limit: nat, b: Book, start: int, d: Decision)
    requires limit > 0 && Fills(limit, d) == true && d.wait == WINDOW && HasFilled(limit, b, start)
    ensures Happens(limit, b, Found(d)).recorded == Add(Add(Empty, Publication(start, limit)), Publication(start + WINDOW, limit))
  {
    FilledIsPast(limit, b, start, d);
    FillsAt(limit, b, d);
  }

  lemma TwoBetween(start: int, limit: nat)
    ensures Between(Add(Add(Empty, Publication(start, limit)), Publication(start + WINDOW, limit)), start - 1, start + WINDOW) == 2 * limit
  {
    assert Between(Empty, start - 1, start + WINDOW) == 0;
    assert Between(Add(Empty, Publication(start, limit)), start - 1, start + WINDOW) == limit;
  }

  lemma FilledOnce(limit: nat, start: int, d: Decision, events: seq<Event>)
    requires limit > 0 && Fills(limit, d) == true && d.wait == 0 && |events| > 0 && events[0] == Found(d)
    ensures HasFilled(limit, RunOf(limit, Fresh(start), events[..1]), start) == true
  {
    RunOneMore(limit, Fresh(start), events, 1);
    FillsFirst(limit, start, d);
  }

  lemma FilledTwice(limit: nat, start: int, d: Decision, later: Decision, events: seq<Event>)
    requires limit > 0 && Fills(limit, d) == true && d.wait == 0 && Fills(limit, later) == true && later.wait == WINDOW
    requires |events| == 2 && events[0] == Found(d) && events[1] == Found(later)
    ensures RunOf(limit, Fresh(start), events).recorded == Add(Add(Empty, Publication(start, limit)), Publication(start + WINDOW, limit))
  {
    FilledOnce(limit, start, d, events);
    RunOneMore(limit, Fresh(start), events, 2);
    assert events[..2] == events;
    FillsAgain(limit, RunOf(limit, Fresh(start), events[..1]), start, later);
  }

  lemma TwoFills(limit: nat) returns (d: Decision, later: Decision, events: seq<Event>)
    requires limit > 0
    ensures Fills(limit, d) == true && d.wait == 0 && Fills(limit, later) == true && later.wait == WINDOW
    ensures |events| == 2 && events[0] == Found(d) && events[1] == Found(later)
    ensures Kinds(events) == [Deciding(true, true, true), Deciding(true, true, true)]
  {
    d := SomeFills(limit);
    later := d.(wait := WINDOW);
    events := [Found(d), Found(later)];
  }

  /** The budget is for half-open windows: two groups that fill it, exactly ten minutes
      apart, and no fault at all. */
  lemma ClosedWindowExceeds(limit: nat, start: int) returns (events: seq<Event>)
    requires limit > 0
    ensures Kinds(events) == [Deciding(true, true, true), Deciding(true, true, true)]
    ensures Within(RunOf(limit, Fresh(start), events), limit) == true
    ensures Between(RunOf(limit, Fresh(start), events).recorded, start - 1, start + WINDOW) == 2 * limit
  {
    var d, later;
    d, later, events := TwoFills(limit);
    CleanIsHarmless(Kinds(events));
    BudgetHolds(limit, start, events);
    FilledTwice(limit, start, d, later, events);
    TwoBetween(start, limit);
  }

  // ----- what holds under all faults -----

  /** What of a group counts: all that is entered, or lost with the process. */
  ghost function Sent(e: Event, names: seq<string>): nat
    requires e != Reboot
  {
    Tally(names, e.d.look) + if e.Found? then 0 else Stray(names, e.d.look)
  }

  /** What an event publishes and a decision counts, if its process goes on. */
  ghost function Emitted(limit: nat, b: Book, e: Event): Option<Publication> {
    if e == Reboot then None
    else
      var g := Gathered(limit, e.d.parts);
      if !Publishes(limit, b, e.d, g) then None else Counting(b.now + e.d.wait + e.d.takes, Sent(e, g.names))
  }

  /** What it publishes uncounted although its process goes on. */
  ghost function Astray(limit: nat, b: Book, e: Event): Option<Publication> {
    if !e.Found? then None
    else
      var g := Gathered(limit, e.d.parts);
      if !Publishes(limit, b, e.d, g) then None else Counting(b.now + e.d.wait + e.d.takes, Stray(g.names, e.d.look))
  }

  /** The processes so far and the one running: `out` is added to the last one, and unless it
      goes on another is started. */
  ghost function NextLives(lives: seq<Log>, out: Option<Publication>, goesOn: bool): seq<Log>
    requires |lives| > 0
  {
    lives[..|lives| - 1] + [Plus(lives[|lives| - 1], out)] + if goesOn then [] else [Empty]
  }

  /** What each process published and counted, from start to end; the last one is still running. */
  ghost function Lives(limit: nat, start: int, events: seq<Event>): (lives: seq<Log>)
    ensures |lives| > 0
    decreases |events|
  {
    if events == [] then [Empty]
    else
      var n := |events| - 1;
      NextLives(Lives(limit, start, events[..n]), Emitted(limit, RunOf(limit, Fresh(start), events[..n]), events[n]), events[n].Found?)
  }

  /** What each of them published uncounted. */
  ghost function Strays(limit: nat, start: int, events: seq<Event>): (strays: seq<Log>)
    ensures |strays| > 0
    decreases |events|
  {
    if events == [] then [Empty]
    else
      var n := |events| - 1;
      NextLives(Strays(limit, start, events[..n]), Astray(limit, RunOf(limit, Fresh(start), events[..n]), events[n]), events[n].Found?)
  }

  ghost function NextDoubts(doubts: seq<nat>, doubt: bool, goesOn: bool): seq<nat>
    requires |doubts| > 0
  {
    doubts[..|doubts| - 1] + [doubts[|doubts| - 1] + if doubt then 1 else 0] + if goesOn then [] else [0]
  }

  /** How many decisions of each of them had a deletion that could not be confirmed. */
  ghost function Doubts(events: seq<Event>): (doubts: seq<nat>)
    ensures |doubts| > 0
    decreases |events|
  {
    if events == [] then [0]
    else
      var e := events[|events| - 1];
      NextDoubts(Doubts(events[..|events| - 1]), Unsure(KindOf(e)), e.Found?)
  }

  ghost function Starts(events: seq<Event>): nat {
    if events == [] then 1 else Starts(events[..|events| - 1]) + if events[|events| - 1].Found? then 0 else 1
  }

  ghost function Total(lives: seq<Log>, t: int): nat {
    if lives == [] then 0 else Total(lives[..|lives| - 1], t) + UpTo(lives[|lives| - 1], t)
  }

  /** How many processes published anything in the ten minutes up to `t`. */
  ghost function Active(lives: seq<Log>, t: int): nat {
    if lives == [] then 0
    else Active(lives[..|lives| - 1], t) + if UpTo(lives[|lives| - 1], t) > 0 then 1 else 0
  }

  ghost function AmountOf(out: Option<Publication>, t: int): nat {
    if out.Some? then Amount(out.value.at, out.value.count, t) else 0
  }

  /** `w` counts at least what a process published that a decision from now on may have to. */
  ghost predicate Remembers(w: Log, life: Log, now: int) {
    forall cutoff :: cutoff >= now - WINDOW ==> Since(life, cutoff) <= Since(w, cutoff)
  }

  ghost predicate Living(limit: nat, b: Book, life: Log) {
    && NoneAfter(life, b.now) && WithinBudget(life, limit) == true
    && (if b.loaded then Remembers(b.window, life, b.now) == true else life == Empty)
  }

  lemma PrunedRemembers(w: Log, life: Log, now: int, at: int)
    requires Remembers(w, life, now) && now <= at
    ensures Since(life, at - WINDOW) <= Since(w, at - WINDOW) && Remembers(Kept(w, at - WINDOW), life, at) == true
  {
    forall cutoff | cutoff >= at - WINDOW ensures Since(life, cutoff) <= Since(Kept(w, at - WINDOW), cutoff) {
      KeptSince(w, at - WINDOW, cutoff);
    }
  }

  lemma EmptyRemembered(w: Log, now: int)
    ensures Remembers(w, Empty, now) == true
  {
  }

  lemma UsedRemembers(limit: nat, b: Book, life: Log, d: Decision)
    requires Living(limit, b, life)
    ensures Since(life, b.now + d.wait - WINDOW) <= UsedAt(b, d)
    ensures Remembers(Counted(b, d).window, life, b.now + d.wait) == true && NoneAfter(life, b.now + d.wait)
  {
    if !b.loaded {
      EmptyRemembered(Loaded(b, d.readable).window, b.now);
    }
    PrunedRemembers(Loaded(b, d.readable).window, life, b.now, b.now + d.wait);
    NoneAfterLater(life, b.now, b.now + d.wait);
  }

  lemma OneFits(limit: nat, life: Log, decided: int, at: int, n: nat)
    requires NoneAfter(life, decided) && WithinBudget(life, limit) && decided <= at && n + Since(life, decided - WINDOW) <= limit
    ensures WithinBudget(Plus(life, Counting(at, n)), limit) == true && NoneAfter(Plus(life, Counting(at, n)), at)
  {
    NoneAfterLater(life, decided, at);
    if n > 0 {
      PublishKeepsBudget(life, limit, decided, Publication(at, n));
    }
  }

  lemma SentFits(limit: nat, b: Book, life: Log, e: Event, g: Group)
    requires e != Reboot && g.count >= |g.names| && Publishes(limit, b, e.d, g) && Since(life, b.now + e.d.wait - WINDOW) <= UsedAt(b, e.d)
    ensures Sent(e, g.names) + Since(life, b.now + e.d.wait - WINDOW) <= limit
  {
    TallyBound(g.names, e.d.look);
  }

  /** What one process counts never overspends. */
  lemma EmittedFits(limit: nat, b: Book, life: Log, e: Event)
    requires Living(limit, b, life) && e != Reboot
    ensures var after := Plus(life, Emitted(limit, b, e));
      WithinBudget(after, limit) == true && NoneAfter(after, b.now + e.d.wait + e.d.takes)
  {
    var d, g, at := e.d, Gathered(limit, e.d.parts), b.now + e.d.wait + e.d.takes;
    UsedRemembers(limit, b, life, d);
    if Publishes(limit, b, d, g) {
      SentFits(limit, b, life, e, g);
      OneFits(limit, life, b.now + d.wait, at, Sent(e, g.names));
    } else {
      NoneAfterLater(life, b.now, at);
    }
  }

  lemma EntryRemembered(w: Log, life: Log, now: int, at: int, n: nat)
    requires Remembers(w, life, now) && now <= at
    ensures Remembers(if n == 0 then w else Kept(Add(w, Publication(at, n)), at - WINDOW), Plus(life, Counting(at, n)), at) == true
  {
    if n > 0 {
      var p := Publication(at, n);
      forall cutoff | cutoff >= at - WINDOW ensures Since(Add(life, p), cutoff) <= Since(Kept(Add(w, p), at - WINDOW), cutoff) {
        KeptSince(Add(w, p), at - WINDOW, cutoff);
        assert Since(life, cutoff) <= Since(w, cutoff);
      }
    }
  }

  lemma LoadedLives(limit: nat, c: Book, life: Log)
    requires c.loaded && Remembers(c.window, life, c.now) == true && WithinBudget(life, limit) == true && NoneAfter(life, c.now)
    ensures Living(limit, c, life) == true
  {
  }

  lemma FoundLives(limit: nat, b: Book, life: Log, d: Decision)
    requires Living(limit, b, life)
    ensures Living(limit, Happens(limit, b, Found(d)), Plus(life, Emitted(limit, b, Found(d)))) == true
  {
    var m, g, c := Counted(b, d), Gathered(limit, d.parts), Happens(limit, b, Found(d));
    UsedRemembers(limit, b, life, d);
    EmittedFits(limit, b, life, Found(d));
    if Publishes(limit, b, d, g) {
      PublishedWindow(m, d, g.names);
      EntryRemembered(m.window, life, m.now, m.now + d.takes, Tally(g.names, d.look));
    }
    LoadedLives(limit, c, Plus(life, Emitted(limit, b, Found(d))));
  }

  lemma LifeGoesOn(limit: nat, b: Book, life: Log, e: Event)
    requires Living(limit, b, life) == true
    ensures WithinBudget(Plus(life, Emitted(limit, b, e)), limit) == true
    ensures Living(limit, Happens(limit, b, e), if e.Found? then Plus(life, Emitted(limit, b, e)) else Empty) == true
  {
    assert WithinBudget(Empty, limit);
    if e.Found? {
      FoundLives(limit, b, life, e.d);
    } else if e.Killed? {
      EmittedFits(limit, b, life, e);
    }
  }

  lemma FoundIsKept(limit: nat, b: Book, d: Decision)
    ensures var c := Happens(limit, b, Found(d));
      c.recorded == Plus(b.recorded, Emitted(limit, b, Found(d))) && c.lost == Plus(b.lost, Astray(limit, b, Found(d)))
  {
    PublishedIsKept(Counted(b, d), d, Gathered(limit, d.parts).names);
  }

  /** What an event publishes is entered, or lost. */
  lemma EmittedIsSpent(limit: nat, b: Book, e: Event, t: int)
    ensures Spent(Happens(limit, b, e), t) == Spent(b, t) + AmountOf(Emitted(limit, b, e), t) + AmountOf(Astray(limit, b, e), t)
  {
    if e.Found? {
      FoundIsKept(limit, b, e.d);
    }
  }

  lemma TotalGrows(lives: seq<Log>, out: Option<Publication>, goesOn: bool, t: int)
    requires |lives| > 0
    ensures Total(NextLives(lives, out, goesOn), t) == Total(lives, t) + AmountOf(out, t)
  {
    var ended, life := lives[..|lives| - 1], Plus(lives[|lives| - 1], out);
    var next := ended + [life];
    assert next[..|next| - 1] == ended;
    if goesOn {
      assert next + [] == next;
    } else {
      var more := next + [Empty];
      assert more[..|more| - 1] == next;
    }
  }

  lemma NoTotal(t: int)
    ensures Total([Empty], t) == 0
  {
    var first := [Empty];
    assert first[..0] == [];
  }

  lemma {:induction false} TotalSpent(limit: nat, start: int, events: seq<Event>, t: int)
    ensures Spent(RunOf(limit, Fresh(start), events), t) == Total(Lives(limit, start, events), t) + Total(Strays(limit, start, events), t)
    decreases |events|
  {
    var n := |events| - 1;
    if n < 0 {
      NoTotal(t);
    } else {
      TotalSpent(limit, start, events[..n], t);
      var b := RunOf(limit, Fresh(start), events[..n]);
      EmittedIsSpent(limit, b, events[n], t);
      TotalGrows(Lives(limit, start, events[..n]), Emitted(limit, b, events[n]), events[n].Found?, t);
      TotalGrows(Strays(limit, start, events[..n]), Astray(limit, b, events[n]), events[n].Found?, t);
    }
  }

  /** A deletion goes astray only where one could not be confirmed, and alone. */
  lemma AstrayIsUnsure(limit: nat, b: Book, e: Event, t: int)
    ensures AmountOf(Astray(limit, b, e), t) <= if Unsure(KindOf(e)) then 1 else 0
  {
    if e.Found? {
      var g := Gathered(limit, e.d.parts);
      TallyBound(g.names, e.d.look);
      if Confirms(e.d) {
        NoStray(g.names, e.d.look);
      }
    }
  }

  /** Each process has as many deletions go astray as it could not confirm, or fewer. */
  ghost predicate Few(strays: seq<Log>, doubts: seq<nat>, t: int) {
    |strays| == |doubts| && forall i :: 0 <= i < |strays| ==> UpTo(strays[i], t) <= doubts[i]
  }

  lemma FewNext(strays: seq<Log>, doubts: seq<nat>, out: Option<Publication>, doubt: bool, goesOn: bool, t: int)
    requires |strays| > 0 && Few(strays, doubts, t) && AmountOf(out, t) <= if doubt then 1 else 0
    ensures Few(NextLives(strays, out, goesOn), NextDoubts(doubts, doubt, goesOn), t) == true
  {
    var m := |strays| - 1;
    OneMoreSpent(strays[m], out, t);
    var strays', doubts' := NextLives(strays, out, goesOn), NextDoubts(doubts, doubt, goesOn);
    forall i | 0 <= i < |strays'| ensures UpTo(strays'[i], t) <= doubts'[i] {
      if i < m {
        assert UpTo(strays[i], t) <= doubts[i];
      }
    }
  }

  lemma {:induction false} StraysAreFew(limit: nat, start: int, events: seq<Event>, t: int)
    ensures Few(Strays(limit, start, events), Doubts(events), t) == true && |Strays(limit, start, events)| == Starts(events)
    decreases |events|
  {
    var n := |events| - 1;
    if n >= 0 {
      StraysAreFew(limit, start, events[..n], t);
      var b, strays := RunOf(limit, Fresh(start), events[..n]), Strays(limit, start, events[..n]);
      AstrayIsUnsure(limit, b, events[n], t);
      FewNext(strays, Doubts(events[..n]), Astray(limit, b, events[n]), Unsure(KindOf(events[n])), events[n].Found?, t);
      LastNext(strays, Astray(limit, b, events[n]), events[n].Found?);
    }
  }

  lemma OneMoreSpent(life: Log, out: Option<Publication>, t: int)
    ensures UpTo(Plus(life, out), t) == UpTo(life, t) + AmountOf(out, t)
  {
  }

  ghost predicate EachWithin(lives: seq<Log>, limit: nat) {
    forall i :: 0 <= i < |lives| ==> WithinBudget(lives[i], limit) == true
  }

  ghost predicate AllFit(limit: nat, b: Book, lives: seq<Log>, starts: nat) {
    EachWithin(lives, limit) == true && |lives| == starts > 0 && Living(limit, b, lives[|lives| - 1]) == true
  }

  lemma EachNext(lives: seq<Log>, out: Option<Publication>, goesOn: bool, limit: nat)
    requires |lives| > 0 && EachWithin(lives, limit) && WithinBudget(Plus(lives[|lives| - 1], out), limit) == true
    ensures EachWithin(NextLives(lives, out, goesOn), limit) == true
  {
    assert WithinBudget(Empty, limit);
  }

  lemma LastNext(lives: seq<Log>, out: Option<Publication>, goesOn: bool)
    requires |lives| > 0
    ensures var next := NextLives(lives, out, goesOn);
      |next| == |lives| + (if goesOn then 0 else 1) && next[|next| - 1] == if goesOn then Plus(lives[|lives| - 1], out) else Empty
  {
  }

  lemma AllFitNext(limit: nat, b: Book, lives: seq<Log>, starts: nat, e: Event)
    requires AllFit(limit, b, lives, starts)
    ensures AllFit(limit, Happens(limit, b, e), NextLives(lives, Emitted(limit, b, e), e.Found?), starts + if e.Found? then 0 else 1) == true
  {
    LifeGoesOn(limit, b, lives[|lives| - 1], e);
    EachNext(lives, Emitted(limit, b, e), e.Found?, limit);
    LastNext(lives, Emitted(limit, b, e), e.Found?);
  }

  lemma FreshFits(limit: nat, start: int)
    ensures AllFit(limit, Fresh(start), [Empty], 1) == true
  {
    assert WithinBudget(Empty, limit);
  }

  lemma {:induction false} LivesFit(limit: nat, start: int, events: seq<Event>)
    ensures AllFit(limit, RunOf(limit, Fresh(start), events), Lives(limit, start, events), Starts(events)) == true
    decreases |events|
  {
    var n := |events| - 1;
    if n < 0 {
      FreshFits(limit, start);
    } else {
      LivesFit(limit, start, events[..n]);
      AllFitNext(limit, RunOf(limit, Fresh(start), events[..n]), Lives(limit, start, events[..n]), Starts(events[..n]), events[n]);
    }
  }

  lemma {:induction false} TotalBound(lives: seq<Log>, limit: nat, t: int)
    requires EachWithin(lives, limit)
    ensures Total(lives, t) <= limit * Active(lives, t)
    decreases |lives|
  {
    if lives != [] {
      var n := |lives| - 1;
      assert forall i :: 0 <= i < n ==> lives[..n][i] == lives[i];
      TotalBound(lives[..n], limit, t);
      var before, last := Active(lives[..n], t), UpTo(lives[n], t);
      assert WithinBudget(lives[n], limit) && last <= limit;
      assert limit * (before + 1) == limit * before + limit;
    }
  }

  ghost predicate EachBounded(lives: seq<Log>, strays: seq<Log>, doubts: seq<nat>, limit: nat, t: int) {
    |lives| == |strays| == |doubts| && forall i :: 0 <= i < |lives| ==> UpTo(lives[i], t) + UpTo(strays[i], t) <= limit + doubts[i]
  }

  /** Whatever goes wrong, what each process counts stays within the budget, so that in ten
      minutes it publishes at most the limit and one more for each deletion it could not
      confirm; and what all of them publish is all there is. */
  lemma BudgetPerProcess(limit: nat, start: int, events: seq<Event>, t: int)
    ensures var lives, strays := Lives(limit, start, events), Strays(limit, start, events);
      && EachWithin(lives, limit) && |lives| == Starts(events) && EachBounded(lives, strays, Doubts(events), limit, t)
      && Spent(RunOf(limit, Fresh(start), events), t) == Total(lives, t) + Total(strays, t)
      && Total(lives, t) <= limit * Active(lives, t)
  {
    var lives, strays := Lives(limit, start, events), Strays(limit, start, events);
    LivesFit(limit, start, events);
    TotalSpent(limit, start, events, t);
    StraysAreFew(limit, start, events, t);
    TotalBound(lives, limit, t);
    forall i | 0 <= i < |lives| ensures UpTo(lives[i], t) + UpTo(strays[i], t) <= limit + Doubts(events)[i] {
      assert WithinBudget(lives[i], limit);
    }
  }
}
