/** Replica downloads that survive a stop part-way: the scratch file, the durable record of
    how much of it can be trusted, and the running checksum that a later attempt resumes. */
module Partial {

  import opened Meta

  const RESUMABLE_BYTES := 1048576
  const CHECKPOINT_BYTES := 16777216
  const HASH_BYTES := 1048576
  const MAX_AGE := 604_800_000_000_000

  /** The content a download is for. */
  datatype Content = Content(name: string, size: nat, hash: string)

  /** A scratch file: its bytes, how many of them would survive a power cut, and whether its name would. */
  datatype File = File(data: string, durable: nat, linked: bool)

  datatype Record = Record(content: Content, path: string, verified: nat, prefix: string, updated: int)

  /** What a start knows: the names queued work wants, and the time in nanoseconds. */
  datatype Start = Start(queued: set<string>, now: int)

  /** What becomes of a system call or a database write: it happens; it fails, a write having
      stored the first `stored` bytes; or the process ends before it. */
  datatype Fate = Succeeds | Refused(stored: nat) | Cut

  datatype Outcome = Ok | Error | Stopped

  /** One attempt's scratch file. `hashed` is what went into the running checksum. */
  datatype Stage = Stage(
    content: Content, path: string, offset: nat, checkpointed: nat, hashed: string,
    resumable: bool, recorded: bool, dirSynced: bool, invalid: bool)

  /** The record's bytes are in the file, durably, and hash to what it says. */
  ghost predicate Trustworthy(h: string -> string, file: File, rec: Record) {
    rec.verified <= file.durable <= |file.data| && file.linked && h(file.data[..rec.verified]) == rec.prefix
  }

  /** Every record names a missing file or a trustworthy one, and no two name the same file. */
  ghost predicate Sound(h: string -> string, files: map<string, File>, records: map<string, Record>) {
    && (forall n :: n in records ==> records[n].content.name == n)
    && (forall n :: n in records && records[n].path in files ==> Trustworthy(h, files[records[n].path], records[n]))
    && (forall m, n :: m in records && n in records && m != n ==> records[m].path != records[n].path)
    && (forall p :: p in files ==> files[p].durable <= |files[p].data|)
  }

  /** No record names `path`, except that of `name` if `recorded`. */
  ghost predicate Owned(records: map<string, Record>, path: string, name: string, recorded: bool) {
    forall n :: n in records && records[n].path == path ==> n == name && recorded
  }

  /** The stage's file holds exactly the bytes that were hashed, and its record, which is
      also remembered, what was last recorded of them. */
  ghost predicate Staged(files: map<string, File>, records: map<string, Record>, partials: map<string, Record>, st: Stage) {
    && st.path in files && Owned(records, st.path, st.content.name, st.recorded)
    && st.checkpointed <= st.offset && (st.dirSynced ==> files[st.path].linked)
    && (!st.invalid ==> files[st.path].data == st.hashed && st.offset == |st.hashed| && (st.checkpointed > 0 ==> st.recorded))
    && (st.recorded ==> st.content.name in records && RecordOf(records[st.content.name], st) && st.content.name in partials)
  }

  predicate RecordOf(rec: Record, st: Stage) {
    && rec.path == st.path && rec.verified == st.checkpointed
    && rec.content.hash == st.content.hash && rec.content.size == st.content.size
  }

  /** A transfer worth going on with. */
  predicate PartWay(st: Stage) {
    !st.invalid && st.resumable && 0 < st.offset < st.content.size
  }

  /** The stage is one to be resumed if and only if its content is large enough. */
  predicate Resumable(st: Stage) {
    st.resumable <==> st.content.size >= RESUMABLE_BYTES
  }

  /** A later attempt finds the stage's file and can go on at its end. */
  ghost predicate Resumes(records: map<string, Record>, st: Stage) {
    st.content.name in records && records[st.content.name].path == st.path && records[st.content.name].verified == st.offset
  }

  /** What a power cut may leave: every durable byte under every durable name. */
  ghost predicate Survives(files: map<string, File>, files': map<string, File>) {
    && (forall p :: p in files' ==> p in files)
    && (forall p :: p in files && files[p].linked ==> p in files')
    && (forall p :: p in files' ==> Retains(files[p], files'[p]))
  }

  predicate Retains(file: File, file': File) {
    && file.durable <= |file.data| && file.durable <= file'.durable <= |file'.data| && file'.linked
    && file'.data[..file.durable] == file.data[..file.durable]
  }

  lemma CrashKeepsSound(h: string -> string, files: map<string, File>, records: map<string, Record>, files': map<string, File>)
    requires Sound(h, files, records) && Survives(files, files')
    ensures Sound(h, files', records)
  {
    forall n | n in records && records[n].path in files' ensures Trustworthy(h, files'[records[n].path], records[n]) {
      var p, v := records[n].path, records[n].verified;
      var d := files[p].durable;
      assert Trustworthy(h, files[p], records[n]);
      assert files'[p].data[..v] == files'[p].data[..d][..v] == files[p].data[..d][..v] == files[p].data[..v];
    }
  }

  /** What was put in place last for a name. */
  datatype Published = Published(content: Content, data: string)

  ghost predicate Exact(h: string -> string, p: Published) {
    |p.data| == p.content.size && h(p.data) == p.content.hash
  }

  datatype Received = Complete | Interrupted | TooLong | Unwritten | Halted

  /** A peer's answer: the pieces its body arrives in, and whether it ended or broke off. */
  datatype Response =
    | Whole(sameTag: bool, pieces: seq<string>, ended: bool)
    | Range(first: int, last: int, total: int, sameTag: bool, pieces: seq<string>, ended: bool)
    | Unsatisfiable
    | Unavailable

  /** What the pieces of a body make together. */
  function Joined(pieces: seq<string>): string
    decreases |pieces|
  {
    if pieces == [] then "" else Joined(pieces[..|pieces| - 1]) + pieces[|pieces| - 1]
  }

  lemma JoinedOneMore(pieces: seq<string>, i: nat)
    requires i < |pieces|
    ensures Joined(pieces[..i + 1]) == Joined(pieces[..i]) + pieces[i]
  {
    assert pieces[..i + 1][..i] == pieces[..i];
  }

  lemma {:induction false} JoinedGrows(pieces: seq<string>, i: nat)
    requires i <= |pieces|
    ensures |Joined(pieces[..i])| <= |Joined(pieces)|
    decreases |pieces|
  {
    if i == |pieces| {
      assert pieces[..i] == pieces;
    } else {
      var front := pieces[..|pieces| - 1];
      assert pieces[..i] == front[..i];
      JoinedGrows(front, i);
    }
  }

  /** An answer whose body can be taken: the whole file, or exactly what is missing of it. */
  predicate Usable(content: Content, offset: nat, response: Response) {
    match response
    case Whole(sameTag, _, _) => sameTag
    case Range(first, last, total, sameTag, _, _) =>
      offset > 0 && first == offset && last == content.size - 1 && total == content.size && sameTag
    case Unsatisfiable => false
    case Unavailable => false
  }

  /** A transfer of the same content can be gone on with. */
  predicate CanResume(files: map<string, File>, partials: map<string, Record>, content: Content) {
    content.name in partials
    && var rec := partials[content.name];
       && content.size >= RESUMABLE_BYTES && rec.content.hash == content.hash && rec.content.size == content.size
       && rec.path in files && 0 < rec.verified < content.size && rec.verified <= |files[rec.path].data|
  }

  /** The bytes of it that are trusted. */
  function Earlier(files: map<string, File>, partials: map<string, Record>, content: Content): string {
    if CanResume(files, partials, content) then files[partials[content.name].path].data[..partials[content.name].verified] else ""
  }

  /** Queued work wants the record, it is no older than a week, and its file is all there. */
  predicate Adoptable(files: map<string, File>, start: Start, rec: Record) {
    rec.content.name in start.queued && start.now - rec.updated <= MAX_AGE && rec.path in files && rec.verified <= |files[rec.path].data|
  }

  /** The records dealt with so far are adopted exactly if they can be; the others are as they were. */
  ghost predicate Adopted(files: map<string, File>, start: Start, before: map<string, Record>, todo: set<string>,
    records: map<string, Record>, partials: map<string, Record>)
  {
    && todo <= before.Keys && (forall n :: n in todo ==> n in records && records[n] == before[n])
    && (forall n :: n in partials ==> n in before && n !in todo && partials[n] == before[n])
    && (forall n :: n in before && n !in todo ==> (n in partials <==> Adoptable(files, start, before[n])))
  }

  lemma AdoptsOne(files: map<string, File>, start: Start, before: map<string, Record>, todo: set<string>,
    records: map<string, Record>, partials: map<string, Record>, name: string, records': map<string, Record>, partials': map<string, Record>)
    requires Adopted(files, start, before, todo, records, partials) && name in todo
    requires records' == records || records' == records - {name}
    requires partials' == if Adoptable(files, start, before[name]) then partials[name := before[name]] else partials
    ensures Adopted(files, start, before, todo - {name}, records', partials')
  {
  }

  ghost predicate Sized(files: map<string, File>) {
    forall p :: p in files ==> files[p].durable <= |files[p].data|
  }

  /** One attempt and the fate of each of its system calls; whether the process ends after
      it, what a cut leaves on disk, and the fates of the starts that follow. */
  datatype Attempt = Attempt(at: int, content: Content, response: Response, fates: seq<Fate>, cut: bool,
    survivors: map<string, File> -> map<string, File>, reloads: seq<seq<Fate>>, start: Start)

  ghost predicate Lawful(a: Attempt) {
    forall files :: Sized(files) ==> Survives(files, a.survivors(files))
  }

  /** The scratch files, the records, what is remembered of them, and what is in place. */
  datatype Disk = Disk(files: map<string, File>, records: map<string, Record>, partials: map<string, Record>, published: map<string, Published>)

  /** The bytes an answer adds to what is trusted already. */
  function Delivered(d: Disk, content: Content, response: Response): string {
    if response.Range? then Earlier(d.files, d.partials, content) + Joined(response.pieces)
    else if response.Whole? then Joined(response.pieces)
    else ""
  }

  /** An answer that makes the content complete. */
  ghost predicate Completes(h: string -> string, d: Disk, content: Content, response: Response) {
    && Usable(content, |Earlier(d.files, d.partials, content)|, response) && response.ended
    && Exact(h, Published(content, Delivered(d, content, response)))
  }

  /** An answer that ends part-way into a content worth going on with. */
  predicate BreaksOff(d: Disk, content: Content, response: Response) {
    && Usable(content, |Earlier(d.files, d.partials, content)|, response) && !response.ended
    && content.size >= RESUMABLE_BYTES && 0 < |Delivered(d, content, response)| < content.size
  }

  function Placed(published: map<string, Published>, put: Option<Published>): map<string, Published> {
    if put.Some? then published[put.value.content.name := put.value] else published
  }

  /** What one attempt reports and leaves in place: nothing, or exactly the content asked for,
      made of trusted bytes and those the peer sent; undisturbed, it succeeds exactly if the
      answer makes the content complete. */
  ghost predicate Fetched(h: string -> string, d: Disk, content: Content, response: Response, undisturbed: bool,
    o: Outcome, put: Option<Published>, published: map<string, Published>)
  {
    && published == Placed(d.published, put) && (o == Ok ==> put.Some?)
    && (put.Some? ==> Completes(h, d, content, response) && put.value == Published(content, Delivered(d, content, response)))
    && (undisturbed && Completes(h, d, content, response) ==> o == Ok)
  }

  /** What is trusted of a content is what has been delivered of it. */
  ghost predicate Trusts(e: Disk, content: Content, data: string) {
    Earlier(e.files, e.partials, content) == data
  }

  /** A process remembers exactly the records it can go on with. */
  ghost predicate Remembered(d: Disk, start: Start) {
    && (forall n :: n in d.partials ==> n in d.records && d.partials[n] == d.records[n])
    && (forall n :: n in d.records ==> (n in d.partials <==> Adoptable(d.files, start, d.records[n])))
  }

  /** After a cut and a start: without faults of its own, the start forgets nothing. */
  ghost predicate Restarted(a: Attempt, d: Disk) {
    (a.reloads == [] || d.partials != map[]) ==> Remembered(d, a.start)
  }

  predicate AllSucceed(fates: seq<Fate>) {
    forall i :: 0 <= i < |fates| ==> fates[i] == Succeeds
  }

  /** One attempt in a run, and the restart if it was cut. An undisturbed transfer that breaks
      off leaves exactly what it delivered to be gone on with, also by the next process if
      that remembers it at all. */
  ghost predicate Attempted(h: string -> string, a: Attempt, d: Disk, o: Outcome, put: Option<Published>, e: Disk) {
    && Fetched(h, d, a.content, a.response, AllSucceed(a.fates), o, put, e.published) && Sound(h, e.files, e.records)
    && (o == Stopped || a.cut ==> Restarted(a, e))
    && (AllSucceed(a.fates) && BreaksOff(d, a.content, a.response) && (o == Stopped || a.cut ==> a.content.name in e.partials) ==>
          Trusts(e, a.content, Delivered(d, a.content, a.response)))
  }

  ghost predicate TracedAt(h: string -> string, attempts: seq<Attempt>, outcomes: seq<Outcome>, puts: seq<Option<Published>>, trace: seq<Disk>, i: nat) {
    && i < |attempts| && i < |outcomes| && i < |puts| && i + 1 < |trace|
    && Attempted(h, attempts[i], trace[i], outcomes[i], puts[i], trace[i + 1]) == true
  }

  ghost predicate Traced(h: string -> string, attempts: seq<Attempt>, outcomes: seq<Outcome>, puts: seq<Option<Published>>, trace: seq<Disk>) {
    && |outcomes| == |puts| == |attempts| && |trace| == |attempts| + 1
    && forall i: nat :: i < |attempts| ==> TracedAt(h, attempts, outcomes, puts, trace, i)
  }

  lemma TracedOneMore(h: string -> string, attempts: seq<Attempt>, outcomes: seq<Outcome>, puts: seq<Option<Published>>, trace: seq<Disk>,
    n: nat, o: Outcome, put: Option<Published>, e: Disk)
    requires n < |attempts| && Traced(h, attempts[..n], outcomes, puts, trace) && Attempted(h, attempts[n], trace[n], o, put, e) == true
    ensures Traced(h, attempts[..n + 1], outcomes + [o], puts + [put], trace + [e]) == true
  {
    var attempts', outcomes', puts', trace' := attempts[..n + 1], outcomes + [o], puts + [put], trace + [e];
    forall i: nat | i < n + 1 ensures TracedAt(h, attempts', outcomes', puts', trace', i) {
      if i < n {
        assert TracedAt(h, attempts[..n], outcomes, puts, trace, i);
      }
    }
  }

  /** What is in place after a number of publications: for each name the last. */
  function PlacedAll(published: map<string, Published>, puts: seq<Option<Published>>): map<string, Published>
    decreases |puts|
  {
    if puts == [] then published else Placed(PlacedAll(published, puts[..|puts| - 1]), puts[|puts| - 1])
  }

  lemma {:induction false} TracePlaces(h: string -> string, attempts: seq<Attempt>, outcomes: seq<Outcome>, puts: seq<Option<Published>>, trace: seq<Disk>, n: nat)
    requires Traced(h, attempts, outcomes, puts, trace) && n <= |attempts|
    ensures trace[n].published == PlacedAll(trace[0].published, puts[..n])
    decreases n
  {
    if n > 0 {
      TracePlaces(h, attempts, outcomes, puts, trace, n - 1);
      assert puts[..n][..n - 1] == puts[..n - 1];
      assert TracedAt(h, attempts, outcomes, puts, trace, n - 1);
    }
  }

  /** Whatever is in place for a name after a run was there before it, or is exactly the
      content some attempt asked for, and no later attempt put anything else there. */
  lemma {:induction false} TraceExplains(h: string -> string, attempts: seq<Attempt>, outcomes: seq<Outcome>, puts: seq<Option<Published>>, trace: seq<Disk>,
    n: nat, name: string) returns (from: Option<nat>)
    requires Traced(h, attempts, outcomes, puts, trace) && n <= |attempts|
    ensures from.None? ==>
      && (name in trace[n].published <==> name in trace[0].published)
      && (name in trace[n].published ==> trace[n].published[name] == trace[0].published[name])
    ensures from.Some? ==>
      && from.value < n && name == attempts[from.value].content.name && name in trace[n].published
      && Completes(h, trace[from.value], attempts[from.value].content, attempts[from.value].response)
      && trace[n].published[name] == Published(attempts[from.value].content, Delivered(trace[from.value], attempts[from.value].content, attempts[from.value].response))
    ensures forall i :: (if from.Some? then from.value else -1) < i < n && outcomes[i] == Ok ==> attempts[i].content.name != name
    decreases n
  {
    if n == 0 {
      return None;
    }
    var i := n - 1;
    assert TracedAt(h, attempts, outcomes, puts, trace, i);
    if puts[i].Some? && attempts[i].content.name == name {
      return Some(i);
    }
    from := TraceExplains(h, attempts, outcomes, puts, trace, i, name);
  }

  /** A cut costs only what was not recorded: a record the next start finds in order is gone
      on with, and an undisturbed answer with the rest of the content completes it. */
  lemma CutThenComplete(h: string -> string, attempts: seq<Attempt>, outcomes: seq<Outcome>, puts: seq<Option<Published>>, trace: seq<Disk>,
    i: nat, rec: Record, pieces: seq<string>)
    requires Traced(h, attempts, outcomes, puts, trace) && i + 1 < |attempts| && (outcomes[i] == Stopped || attempts[i].cut) && attempts[i].reloads == []
    requires var a, d := attempts[i + 1], trace[i + 1];
      && rec.content == a.content && a.content.name in d.records && d.records[a.content.name] == rec
      && Adoptable(d.files, attempts[i].start, rec) && 0 < rec.verified < a.content.size && a.content.size >= RESUMABLE_BYTES
      && AllSucceed(a.fates) && a.response == Range(rec.verified, a.content.size - 1, a.content.size, true, pieces, true)
      && Exact(h, Published(a.content, d.files[rec.path].data[..rec.verified] + Joined(pieces)))
    ensures outcomes[i + 1] == Ok
  {
    var a, d := attempts[i + 1], trace[i + 1];
    assert TracedAt(h, attempts, outcomes, puts, trace, i);
    assert TracedAt(h, attempts, outcomes, puts, trace, i + 1);
    assert CanResume(d.files, d.partials, a.content);
  }

  /** An undisturbed transfer that breaks off costs nothing: if the next attempt is for the
      same content, an undisturbed answer with exactly the rest of it completes it. */
  lemma BrokenOffThenComplete(h: string -> string, attempts: seq<Attempt>, outcomes: seq<Outcome>, puts: seq<Option<Published>>, trace: seq<Disk>,
    i: nat, pieces: seq<string>)
    requires Traced(h, attempts, outcomes, puts, trace) && i + 1 < |attempts| && AllSucceed(attempts[i].fates)
    requires BreaksOff(trace[i], attempts[i].content, attempts[i].response)
    requires outcomes[i] == Stopped || attempts[i].cut ==> attempts[i].content.name in trace[i + 1].partials
    requires var a, b, data := attempts[i], attempts[i + 1], Delivered(trace[i], attempts[i].content, attempts[i].response);
      && b.content == a.content && AllSucceed(b.fates)
      && b.response == Range(|data|, a.content.size - 1, a.content.size, true, pieces, true)
      && Exact(h, Published(a.content, data + Joined(pieces)))
    ensures outcomes[i + 1] == Ok && puts[i + 1] == Some(Published(attempts[i].content, Delivered(trace[i], attempts[i].content, attempts[i].response) + Joined(pieces)))
  {
    assert TracedAt(h, attempts, outcomes, puts, trace, i);
    assert TracedAt(h, attempts, outcomes, puts, trace, i + 1);
  }

  /** The recorded bytes are the same in both. */
  predicate SameBytes(files: map<string, File>, files': map<string, File>, rec: Record) {
    && rec.path in files && rec.path in files' && rec.verified <= |files[rec.path].data| && rec.verified <= |files'[rec.path].data|
    && files[rec.path].data[..rec.verified] == files'[rec.path].data[..rec.verified]
  }

  /** The records left are some of those there were, with the same bytes where their file is left. */
  ghost predicate Faithful(files: map<string, File>, records: map<string, Record>, files': map<string, File>, records': map<string, Record>) {
    forall n :: n in records' ==> n in records && records'[n] == records[n] && (records[n].path in files' ==> SameBytes(files, files', records[n]))
  }

  lemma CutIsFaithful(h: string -> string, files: map<string, File>, records: map<string, Record>,
    files1: map<string, File>, records1: map<string, Record>, files2: map<string, File>)
    requires Faithful(files, records, files1, records1) && Sound(h, files1, records1) && Survives(files1, files2)
    ensures Faithful(files, records, files2, records1) == true
  {
    forall n | n in records1 && records1[n].path in files2 ensures SameBytes(files, files2, records1[n]) {
      var p, v := records1[n].path, records1[n].verified;
      var d := files1[p].durable;
      assert Trustworthy(h, files1[p], records1[n]);
      assert files2[p].data[..v] == files2[p].data[..d][..v] == files1[p].data[..d][..v] == files1[p].data[..v];
    }
  }

  lemma StartIsFaithful(h: string -> string, files: map<string, File>, records: map<string, Record>)
    requires Sound(h, files, records)
    ensures Faithful(files, records, files, records) == true
  {
    forall n | n in records && records[n].path in files ensures SameBytes(files, files, records[n]) {
      assert Trustworthy(h, files[records[n].path], records[n]);
    }
  }

  lemma FaithfulDrops(files: map<string, File>, records: map<string, Record>, files1: map<string, File>, records1: map<string, Record>, records2: map<string, Record>)
    requires Faithful(files, records, files1, records1)
    requires forall n :: n in records2 ==> n in records1 && records2[n] == records1[n]
    ensures Faithful(files, records, files1, records2) == true
  {
  }

  /** What was trusted before a restart is trusted after it, if it is remembered. */
  lemma RestartTrusts(d: Disk, e: Disk, start: Start, content: Content, data: string)
    requires Trusts(d, content, data) && data != "" && content.name in e.partials
    requires content.name in d.partials ==> content.name in d.records && d.records[content.name] == d.partials[content.name]
    requires Faithful(d.files, d.records, e.files, e.records) && Remembered(e, start)
    ensures Trusts(e, content, data) == true
  {
    assert CanResume(d.files, d.partials, content);
  }

  class Downloads {
    const h: string -> string
    var files: map<string, File>
    var records: map<string, Record>
    var partials: map<string, Record>
    var published: map<string, Published>
    var fates: seq<Fate>
    var now: int

    ghost predicate Valid()
      reads this
    {
      && Sound(h, files, records)
      && (forall n :: n in partials ==> n in records && records[n] == partials[n])
      && (forall n :: n in published ==> Exact(h, published[n]))
    }

    ghost predicate NoFaults()
      reads this
    {
      AllSucceed(fates)
    }

    ghost function Contents(): Disk
      reads this
    {
      Disk(files, records, partials, published)
    }

    method NextFate() returns (fate: Fate)
      modifies `fates
      ensures old(NoFaults()) ==> NoFaults() && fate == Succeeds
    {
      if fates == [] {
        return Succeeds;
      }
      fate, fates := fates[0], fates[1..];
    }

    method SyncFile(st: Stage) returns (o: Outcome)
      requires Valid() && Staged(files, records, partials, st)
      modifies `files, `fates
      ensures Valid() && Staged(files, records, partials, st)
      ensures o == Ok ==> files[st.path].durable == |files[st.path].data|
      ensures files[st.path].linked == old(files[st.path].linked)
      ensures old(NoFaults()) ==> NoFaults() && o == Ok
    {
      var fate := NextFate();
      if fate == Cut {
        return Stopped;
      }
      if fate.Refused? {
        return Error;
      }
      var f := files[st.path];
      files := files[st.path := f.(durable := |f.data|)];
      return Ok;
    }

    method SyncDir(st: Stage) returns (o: Outcome, st': Stage)
      requires Valid() && Staged(files, records, partials, st)
      modifies `files, `fates
      ensures Valid() && Staged(files, records, partials, st') && (o != Ok ==> st' == st)
      ensures o == Ok ==> st' == st.(dirSynced := true) && files[st.path].linked
      ensures files[st.path].durable == old(files[st.path].durable) && files[st.path].data == old(files[st.path].data)
      ensures old(NoFaults()) ==> NoFaults() && o == Ok
    {
      st' := st;
      if st.dirSynced {
        return Ok, st;
      }
      var fate := NextFate();
      if fate == Cut {
        return Stopped, st;
      }
      if fate.Refused? {
        return Error, st;
      }
      files := files[st.path := files[st.path].(linked := true)];
      return Ok, st.(dirSynced := true);
    }

    /** A record is saved only for bytes already durable. */
    method SaveRecord(rec: Record) returns (o: Outcome)
      requires Valid() && rec.path in files && Trustworthy(h, files[rec.path], rec)
      requires Owned(records, rec.path, rec.content.name, true)
      modifies `records, `partials, `fates
      ensures Valid()
      ensures o == Ok ==> records == old(records)[rec.content.name := rec] && partials == old(partials)[rec.content.name := rec]
      ensures o != Ok ==> records == old(records) && partials == old(partials)
      ensures old(NoFaults()) ==> NoFaults() && o == Ok
    {
      var fate := NextFate();
      if fate == Cut {
        return Stopped;
      }
      if fate.Refused? {
        return Error;
      }
      records := records[rec.content.name := rec];
      partials := partials[rec.content.name := rec];
      return Ok;
    }

    /** Deletes a record; what is remembered of it goes too if that worked, or `anyway`. */
    method DropRecord(name: string, anyway: bool) returns (o: Outcome)
      requires Valid()
      modifies `records, `partials, `fates
      ensures Valid() && (o == Ok || (anyway && o == Error) ==> name !in partials)
      ensures o == Ok ==> records == old(records) - {name}
      ensures o != Ok ==> records == old(records)
      ensures partials == old(partials) || partials == old(partials) - {name}
      ensures o == Stopped || (o == Error && !anyway) ==> partials == old(partials)
      ensures old(NoFaults()) ==> NoFaults() && o == Ok
    {
      var fate := NextFate();
      if fate == Succeeds {
        records := records - {name};
      }
      if fate == Succeeds || (anyway && fate != Cut) {
        partials := partials - {name};
      }
      return if fate == Cut then Stopped else if fate == Succeeds then Ok else Error;
    }

    /** Adds bytes to the stage's file; a failed write may have stored some of them. */
    method Append(st: Stage, p: string) returns (o: Outcome)
      requires Valid() && Staged(files, records, partials, st) && !st.invalid
      modifies `files, `fates
      ensures Valid()
      ensures o == Ok ==> Staged(files, records, partials, st.(hashed := st.hashed + p, offset := st.offset + |p|))
      ensures o == Error ==> Staged(files, records, partials, st.(invalid := true))
      ensures o == Stopped ==> Staged(files, records, partials, st)
      ensures old(NoFaults()) ==> NoFaults() && o == Ok
    {
      var fate := NextFate();
      if fate == Cut {
        return Stopped;
      }
      var stored := if fate == Succeeds || fate.stored > |p| then p else p[..fate.stored];
      var f := files[st.path];
      assert forall k :: 0 <= k <= f.durable ==> (f.data + stored)[..k] == f.data[..k];
      files := files[st.path := f.(data := f.data + stored)];
      return if fate == Succeeds then Ok else Error;
    }

    /** Cuts the file back; no record may reach past the cut. */
    method Truncate(path: string, size: nat) returns (o: Outcome)
      requires Valid() && path in files && size <= |files[path].data|
      requires forall n :: n in records && records[n].path == path ==> records[n].verified <= size
      modifies `files, `fates
      ensures Valid() && files.Keys == old(files.Keys)
      ensures o == Ok ==> files[path].data == old(files[path].data)[..size]
      ensures o != Ok ==> files == old(files)
      ensures files[path].linked == old(files[path].linked)
      ensures old(NoFaults()) ==> NoFaults() && o == Ok
    {
      var fate := NextFate();
      if fate == Cut {
        return Stopped;
      }
      if fate.Refused? {
        return Error;
      }
      var f := files[path];
      assert forall k :: 0 <= k <= size ==> f.data[..size][..k] == f.data[..k];
      files := files[path := f.(data := f.data[..size], durable := if f.durable < size then f.durable else size)];
      return Ok;
    }

    method RemoveScratch(path: string) returns (o: Outcome)
      requires Valid()
      modifies `files, `fates
      ensures Valid() && files.Keys <= old(files.Keys)
      ensures old(NoFaults()) ==> NoFaults() && o == Ok && files == old(files) - {path}
    {
      var fate := NextFate();
      if fate == Cut {
        return Stopped;
      }
      if fate == Succeeds {
        files := files - {path};
      }
      return Ok;
    }

    /** Makes the bytes received so far durable, then records them, in that order. */
    method Checkpoint(st: Stage) returns (o: Outcome, st': Stage)
      requires Valid() && Staged(files, records, partials, st) && !st.invalid
      modifies `files, `records, `partials, `fates
      ensures Valid() && Staged(files, records, partials, st') && !st'.invalid
      ensures st'.content == st.content && st'.path == st.path && st'.offset == st.offset && st'.hashed == st.hashed && st'.resumable == st.resumable
      ensures o == Ok ==> st'.recorded && st'.checkpointed == st'.offset && files[st'.path].data == st'.hashed
      ensures o == Ok ==> records == old(records)[st.content.name := Record(st.content, st.path, st.offset, h(st.hashed), now)]
      ensures old(NoFaults()) ==> NoFaults() && o == Ok
    {
      st' := st;
      o := SyncFile(st);
      if o != Ok {
        return;
      }
      o, st' := SyncDir(st);
      if o != Ok {
        return;
      }
      var rec := Record(st.content, st.path, st.offset, h(st.hashed), now);
      assert files[st.path].data[..st.offset] == st.hashed;
      o := SaveRecord(rec);
      if o == Ok {
        st' := st'.(recorded := true, checkpointed := st.offset);
      }
    }

    /** Appends bytes from the peer, recording progress at intervals. */
    method Write(st: Stage, p: string) returns (o: Outcome, st': Stage)
      requires Valid() && Staged(files, records, partials, st) && !st.invalid
      modifies `files, `records, `partials, `fates
      ensures Valid() && Staged(files, records, partials, st') && st'.content == st.content && st'.resumable == st.resumable
      ensures o == Ok ==> !st'.invalid && st'.hashed == st.hashed + p
      ensures o == Error ==> st'.invalid
      ensures old(NoFaults()) ==> NoFaults() && o == Ok
    {
      st' := st;
      o := Append(st, p);
      if o == Stopped {
        return;
      }
      if o == Error {
        st' := st.(invalid := true);
        return;
      }
      st' := st.(hashed := st.hashed + p, offset := st.offset + |p|);
      if st'.resumable && st'.offset - st'.checkpointed >= CHECKPOINT_BYTES && st'.offset < st'.content.size {
        o, st' := Checkpoint(st');
        if o != Stopped {
          o := Ok;
        }
      }
    }

    /** Copies what the peer sends into the stage. */
    method Receive(st: Stage, pieces: seq<string>, ended: bool) returns (r: Received, st': Stage)
      requires Valid() && Staged(files, records, partials, st) && !st.invalid && st.offset <= st.content.size
      modifies `files, `records, `partials, `fates
      ensures Valid() && Staged(files, records, partials, st') && st'.content == st.content && st'.resumable == st.resumable
      ensures r == Complete || r == Interrupted || r == TooLong ==> !st'.invalid && st'.offset <= st'.content.size
      ensures r == Unwritten ==> st'.invalid
      ensures r == Complete ==> ended && st'.hashed == st.hashed + Joined(pieces)
      ensures old(NoFaults()) && st.offset + |Joined(pieces)| <= st.content.size ==>
        NoFaults() && r == (if ended then Complete else Interrupted) && st'.hashed == st.hashed + Joined(pieces)
    {
      st' := st;
      var i := 0;
      while i < |pieces|
        invariant 0 <= i <= |pieces|
        invariant old(NoFaults()) ==> NoFaults()
        invariant st'.hashed == st.hashed + Joined(pieces[..i])
        invariant Valid() == true && Staged(files, records, partials, st') == true && st'.content == st.content && st'.resumable == st.resumable
        invariant !st'.invalid && st'.offset <= st'.content.size
      {
        JoinedOneMore(pieces, i);
        assert st.hashed + Joined(pieces[..i + 1]) == st'.hashed + pieces[i];
        if st'.offset + |pieces[i]| > st'.content.size {
          JoinedGrows(pieces, i + 1);
          return TooLong, st';
        }
        var o;
        o, st' := Write(st', pieces[i]);
        if o == Stopped {
          return Halted, st';
        }
        if o == Error {
          return Unwritten, st';
        }
        i := i + 1;
      }
      assert pieces[..i] == pieces;
      return if ended then Complete else Interrupted, st';
    }

    /** Empties the stage for a peer that answered with the whole file: the record goes first. */
    method Restart(st: Stage) returns (o: Outcome, st': Stage)
      requires Valid() && Staged(files, records, partials, st) && !st.invalid
      modifies `files, `records, `partials, `fates
      ensures Valid() && st'.content == st.content && st'.resumable == st.resumable
      ensures Staged(files, records, partials, if o == Ok then st' else st'.(invalid := true))
      ensures o == Ok ==> !st'.invalid && st'.offset == 0
      ensures old(NoFaults()) ==> NoFaults() && o == Ok
    {
      st' := st;
      if st.recorded {
        o := DropRecord(st.content.name, false);
        if o != Ok {
          return;
        }
        st' := st.(recorded := false);
      }
      o := Truncate(st.path, 0);
      if o == Ok {
        st' := st'.(offset := 0, checkpointed := 0, hashed := "");
      }
    }

    /** Removes the scratch file and any record of it. */
    method Discard(st: Stage) returns (o: Outcome)
      requires Valid()
      modifies `files, `records, `partials, `fates
      ensures Valid()
      ensures old(NoFaults()) ==> files == old(files) - {st.path} && records == if st.recorded then old(records) - {st.content.name} else old(records)
    {
      o := Ok;
      if st.recorded {
        o := DropRecord(st.content.name, true);
      }
      if o != Stopped {
        o := RemoveScratch(st.path);
      }
    }

    /** Ends an attempt: a transfer that stopped part-way keeps its file and a record of how
        far it got; anything else goes. */
    method Release(st: Stage) returns (o: Outcome)
      requires Valid() && Staged(files, records, partials, st) && (st.resumable ==> st.content.size >= RESUMABLE_BYTES)
      modifies `files, `records, `partials, `fates
      ensures Valid()
      ensures old(NoFaults()) ==>
        if PartWay(st) then Resumes(records, st) && Earlier(files, partials, st.content) == st.hashed
        else st.path !in files && (st.recorded ==> st.content.name !in records)
    {
      if PartWay(st) {
        if st.offset == st.checkpointed {
          return Ok;
        }
        var st';
        o, st' := Checkpoint(st);
        if o == Error {
          o := Discard(st');
        }
        return;
      }
      o := Discard(st);
    }

    /** Feeds the first `n` bytes of a file into a checksum, a block at a time. */
    method HashPrefix(path: string, n: nat) returns (o: Outcome, hashed: string, cancelled: bool)
      requires path in files
      modifies `fates
      ensures o == Ok ==> n <= |files[path].data| && hashed == files[path].data[..n]
      ensures old(NoFaults()) ==> NoFaults() && !cancelled && o != Stopped && (n <= |files[path].data| ==> o == Ok)
    {
      var data := files[path].data;
      hashed := "";
      while |hashed| < n
        invariant |hashed| <= n && |hashed| <= |data| && hashed == data[..|hashed|]
        invariant old(NoFaults()) ==> NoFaults()
        decreases n - |hashed|
      {
        var fate := NextFate();
        if fate != Succeeds {
          return if fate == Cut then Stopped else Error, hashed, true;
        }
        var want := if n - |hashed| < HASH_BYTES then n - |hashed| else HASH_BYTES;
        if |hashed| + want > |data| {
          return Error, hashed, false;
        }
        assert data[..|hashed|] + data[|hashed|..|hashed| + want] == data[..|hashed| + want];
        hashed := hashed + data[|hashed|..|hashed| + want];
      }
      return Ok, hashed, false;
    }

    /** Reopens a recorded transfer if its prefix still holds the recorded bytes. */
    method ResumeStage(rec: Record, content: Content) returns (o: Outcome, st: Stage, cancelled: bool)
      requires Valid() && content.name in partials && partials[content.name] == rec
      requires rec.content.hash == content.hash && rec.content.size == content.size
      modifies `files, `fates
      ensures Valid() && files.Keys == old(files.Keys)
      ensures o == Ok ==> Staged(files, records, partials, st) && !st.invalid && st.content == content && 0 < st.offset < content.size
      ensures o == Ok ==> st.resumable && st.recorded && h(st.hashed) == rec.prefix
      ensures o == Ok ==> rec.path in old(files) && rec.verified <= |old(files)[rec.path].data| && st.hashed == old(files)[rec.path].data[..rec.verified]
      ensures old(NoFaults()) ==> NoFaults() && !cancelled && (o == Ok <==> rec.path in old(files) && 0 < rec.verified < content.size) && o != Stopped
    {
      st := Stage(content, rec.path, rec.verified, rec.verified, "", true, true, true, false);
      if rec.path !in files || rec.verified == 0 || rec.verified >= content.size || |files[rec.path].data| < rec.verified {
        return Error, st, false;
      }
      var hashed;
      o, hashed, cancelled := HashPrefix(rec.path, rec.verified);
      if o != Ok {
        return;
      }
      if h(hashed) != rec.prefix {
        return Error, st, false;
      }
      o := Truncate(rec.path, rec.verified);
      st := st.(hashed := hashed);
    }

    /** Looks for a transfer of the same content to go on with, and drops any other of the name. */
    method ResumableStage(content: Content) returns (o: Outcome, resumed: Option<Stage>)
      requires Valid()
      modifies `files, `records, `partials, `fates
      ensures Valid()
      ensures resumed.Some? ==> o == Ok && Staged(files, records, partials, resumed.value) && !resumed.value.invalid
      ensures resumed.Some? ==> resumed.value.content == content && 0 < resumed.value.offset < content.size && Resumable(resumed.value)
      ensures files.Keys <= old(files.Keys)
      ensures forall n :: n in records ==> n in old(records) && records[n] == old(records)[n]
      ensures old(NoFaults()) ==> NoFaults() && o == Ok && (resumed.Some? <==> old(CanResume(files, partials, content)))
      ensures resumed.Some? ==> old(CanResume(files, partials, content)) && resumed.value.hashed == old(Earlier(files, partials, content))
    {
      if content.name !in partials {
        return Ok, None;
      }
      var rec := partials[content.name];
      assert rec.path in files ==> Trustworthy(h, files[rec.path], rec);
      if content.size >= RESUMABLE_BYTES && rec.content.hash == content.hash && rec.content.size == content.size {
        var st, cancelled;
        o, st, cancelled := ResumeStage(rec, content);
        if o == Ok {
          return Ok, Some(st);
        }
        if o == Stopped || cancelled {
          return o, None;
        }
      }
      o := DropRecord(content.name, false);
      if o == Ok {
        o := RemoveScratch(rec.path);
      }
      return if o == Stopped then Stopped else Ok, None;
    }

    /** A scratch file under a name not used before. */
    method NewStage(content: Content, path: string) returns (o: Outcome, st: Stage)
      requires Valid() && path !in files && Owned(records, path, content.name, false)
      modifies `files, `fates
      ensures Valid()
      ensures o == Ok ==> Staged(files, records, partials, st) && !st.invalid && st.content == content && st.offset == 0 && Resumable(st)
      ensures old(NoFaults()) ==> NoFaults() && o == Ok
    {
      st := Stage(content, path, 0, 0, "", content.size >= RESUMABLE_BYTES, false, false, false);
      var fate := NextFate();
      if fate != Succeeds {
        return if fate == Cut then Stopped else Error, st;
      }
      files := files[path := File("", 0, false)];
      return Ok, st;
    }

    /** Puts a complete file in place: its size and checksum are those asked for. */
    method Publish(st: Stage) returns (o: Outcome)
      requires Valid() && Staged(files, records, partials, st) && !st.invalid
      requires st.offset == st.content.size && h(st.hashed) == st.content.hash
      modifies `files, `published, `fates
      ensures Valid()
      ensures o == Ok ==> published == old(published)[st.content.name := Published(st.content, st.hashed)]
      ensures o != Ok ==> Staged(files, records, partials, st) && published == old(published)
      ensures old(NoFaults()) ==> NoFaults() && o == Ok
    {
      var fate := NextFate();
      if fate != Succeeds {
        return if fate == Cut then Stopped else Error;
      }
      published := published[st.content.name := Published(st.content, files[st.path].data)];
      files := files - {st.path};
      return Ok;
    }

    /** Checks a finished transfer and publishes it, or keeps or drops what there is. */
    method Finish(st: Stage, r: Received) returns (o: Outcome, ghost put: Option<Published>)
      requires Valid() && Staged(files, records, partials, st) && Resumable(st)
      requires r == Complete || r == Interrupted || r == TooLong || r == Unwritten
      requires r == Complete || r == Interrupted || r == TooLong ==> !st.invalid
      modifies this
      ensures Valid()
      ensures published == Placed(old(published), put) && (o == Ok ==> put.Some?)
      ensures put.Some? ==> r == Complete && put.value == Published(st.content, st.hashed) && Exact(h, put.value)
      ensures old(NoFaults()) && r == Complete && st.offset == st.content.size && h(st.hashed) == st.content.hash ==> o == Ok
      ensures old(NoFaults()) && r == Interrupted && PartWay(st) ==> Earlier(files, partials, st.content) == st.hashed
    {
      var bad := r == TooLong || (r == Complete && (st.offset != st.content.size || h(st.hashed) != st.content.hash));
      put := None;
      if r != Complete || bad {
        o := Release(if bad then st.(invalid := true) else st);
        return if o == Stopped then Stopped else Error, None;
      }
      o := SyncFile(st);
      if o == Ok {
        o := Publish(st);
      }
      if o != Ok {
        if o == Error {
          var released := Release(st);
          o := if released == Stopped then Stopped else Error;
        }
        return;
      }
      put := Some(Published(st.content, st.hashed));
      if st.recorded {
        o := DropRecord(st.content.name, true);
        if o == Error {
          o := Ok;
        }
      }
    }

    /** Takes the peer's answer into account before any byte of it is read. */
    method Answered(content: Content, resumed: Option<Stage>, response: Response, path: string) returns (o: Outcome, st: Stage)
      requires Valid() && path !in files && Owned(records, path, content.name, false)
      requires resumed.Some? ==> Staged(files, records, partials, resumed.value) && !resumed.value.invalid
      requires resumed.Some? ==> resumed.value.content == content && resumed.value.offset < content.size && Resumable(resumed.value)
      modifies `files, `records, `partials, `fates
      ensures Valid()
      ensures o == Ok ==> Staged(files, records, partials, st) && !st.invalid && st.content == content && st.offset <= content.size && Resumable(st)
      ensures o == Ok ==> Usable(content, if resumed.Some? then resumed.value.offset else 0, response)
      ensures o == Ok && response.Whole? ==> st.offset == 0
      ensures o == Ok && response.Range? ==> resumed == Some(st) && response.first == st.offset && response.total == content.size
      ensures old(NoFaults()) && Usable(content, if resumed.Some? then resumed.value.offset else 0, response) ==> NoFaults() && o == Ok
    {
      st := if resumed.Some? then resumed.value else Stage(content, path, 0, 0, "", false, false, false, true);
      var usable := Usable(content, if resumed.Some? then st.offset else 0, response);
      o := Ok;
      if resumed.Some? && response.Whole? {
        o, st := Restart(st);
        if o == Stopped {
          return;
        }
      }
      if o != Ok || !usable {
        if resumed.Some? {
          o := Release(if response.Unavailable? && o == Ok then st else st.(invalid := true));
        }
        return if o == Stopped then Stopped else Error, st;
      }
      if resumed.None? {
        o, st := NewStage(content, path);
      }
    }

    /** Receives what an answer adds to an earlier transfer, or starts anew. */
    method Transfer(content: Content, response: Response, path: string) returns (o: Outcome, r: Received, st: Stage)
      requires Valid() && path !in files && (forall n :: n in records ==> records[n].path != path)
      modifies `files, `records, `partials, `fates
      ensures Valid()
      ensures o == Ok ==> Staged(files, records, partials, st) && st.content == content && r != Halted && (r != Unwritten ==> !st.invalid) && Resumable(st)
      ensures o == Ok && r == Complete ==>
        && Usable(content, |old(Earlier(files, partials, content))|, response) && response.ended
        && st.hashed == Delivered(old(Contents()), content, response)
      ensures old(NoFaults()) && Completes(h, old(Contents()), content, response) ==> NoFaults() && o == Ok && r == Complete
      ensures old(NoFaults()) && BreaksOff(old(Contents()), content, response) ==>
        NoFaults() && o == Ok && r == Interrupted && st.hashed == Delivered(old(Contents()), content, response)
    {
      r := Halted;
      var resumed;
      o, resumed := ResumableStage(content);
      if o != Ok {
        return o, r, Stage(content, path, 0, 0, "", false, false, false, true);
      }
      o, st := Answered(content, resumed, response, path);
      if o != Ok {
        return;
      }
      r, st := Receive(st, response.pieces, response.ended);
      if r == Halted {
        o := Stopped;
      }
    }

    /** One attempt to fetch `content` and put it in place. */
    method Download(content: Content, response: Response, path: string) returns (o: Outcome, ghost put: Option<Published>)
      requires Valid() && path !in files && (forall n :: n in records ==> records[n].path != path)
      modifies this
      ensures Valid() && Fetched(h, old(Contents()), content, response, old(NoFaults()), o, put, published) == true
      ensures old(NoFaults()) && BreaksOff(old(Contents()), content, response) ==> Trusts(Contents(), content, Delivered(old(Contents()), content, response)) == true
    {
      put := None;
      var r, st;
      o, r, st := Transfer(content, response, path);
      if o == Ok {
        o, put := Finish(st, r);
      }
    }

    constructor (h: string -> string, now: int)
      ensures Valid() && this.h == h && files == map[] && records == map[] && published == map[]
    {
      this.h, this.now := h, now;
      files, records, partials, published, fates := map[], map[], map[], map[], [];
    }

    /** The process ends: what it remembered goes, and of the files what was not durable may. */
    method Crash(files': map<string, File>)
      requires Valid() && Survives(files, files')
      modifies `files, `partials
      ensures Valid() && files == files' && partials == map[]
    {
      CrashKeepsSound(h, files, records, files');
      files, partials := files', map[];
    }

    /** Adopts one record, or drops it. */
    method AdoptOrDrop(name: string, start: Start) returns (o: Outcome)
      requires Valid() && name in records && name !in partials
      modifies `records, `partials, `fates
      ensures Valid() && (o == Ok || o == Stopped)
      ensures records == old(records) || records == old(records) - {name}
      ensures o == Ok && Adoptable(files, start, old(records)[name]) ==> partials == old(partials)[name := old(records)[name]]
      ensures o == Ok && !Adoptable(files, start, old(records)[name]) ==> partials == old(partials)
      ensures old(NoFaults()) ==> NoFaults() && o == Ok
    {
      if Adoptable(files, start, records[name]) {
        partials := partials[name := records[name]];
        return Ok;
      }
      o := DropRecord(name, false);
      assert old(partials) - {name} == old(partials);
      if o == Error {
        o := Ok;
      }
    }

    /** Adopts the records that can still be resumed and drops the others; records that
        cannot be read are left, and nothing is adopted. */
    method Load(start: Start) returns (o: Outcome)
      requires Valid() && partials == map[]
      modifies `records, `partials, `fates
      ensures Valid() && (o == Error ==> partials == map[])
      ensures o == Ok ==> forall n :: n in partials <==> n in old(records) && Adoptable(files, start, old(records)[n])
      ensures o == Ok ==> Remembered(Contents(), start) == true
      ensures forall n :: n in records ==> n in old(records) && records[n] == old(records)[n]
      ensures old(NoFaults()) ==> o == Ok
    {
      var fate := NextFate();
      if fate != Succeeds {
        return if fate == Cut then Stopped else Error;
      }
      o := Adopt(start);
    }

    method Adopt(start: Start) returns (o: Outcome)
      requires Valid() && partials == map[]
      modifies `records, `partials, `fates
      ensures Valid() && o != Error
      ensures o == Ok ==> forall n :: n in partials <==> n in old(records) && Adoptable(files, start, old(records)[n])
      ensures o == Ok ==> Remembered(Contents(), start) == true
      ensures forall n :: n in records ==> n in old(records) && records[n] == old(records)[n]
      ensures old(NoFaults()) ==> o == Ok
    {
      var todo := records.Keys;
      o := Ok;
      while todo != {}
        invariant Valid() && o == Ok && (old(NoFaults()) ==> NoFaults())
        invariant forall n :: n in records ==> n in old(records) && records[n] == old(records)[n]
        invariant Adopted(files, start, old(records), todo, records, partials) == true
        decreases todo
      {
        var name :| name in todo;
        ghost var records0, partials0 := records, partials;
        o := AdoptOrDrop(name, start);
        if o == Stopped {
          return;
        }
        AdoptsOne(files, start, old(records), todo, records0, partials0, name, records, partials);
        todo := todo - {name};
      }
    }

    method CutShort(a: Attempt)
      requires Valid() && Lawful(a)
      modifies `files, `partials
      ensures Valid() && partials == map[] && Survives(old(files), files) == true
    {
      Crash(a.survivors(files));
    }

    /** The process ends, and is started until one start gets through. */
    method Reboot(a: Attempt)
      requires Valid() && Lawful(a) == true
      modifies `files, `records, `partials, `fates
      ensures Valid() && Restarted(a, Contents()) == true
      ensures Faithful(old(files), old(records), files, records) == true
    {
      var k, o := 0, Stopped;
      StartIsFaithful(h, files, records);
      while o == Stopped
        invariant Valid() && k <= |a.reloads| + 1 && (o == Ok ==> Remembered(Contents(), a.start) == true) && (o == Error ==> partials == map[])
        invariant (k == |a.reloads| + 1 ==> o == Ok) && (o != Stopped ==> k > 0)
        invariant Faithful(old(files), old(records), files, records) == true
        decreases |a.reloads| + 1 - k
      {
        ghost var files1, records1 := files, records;
        CutShort(a);
        CutIsFaithful(h, old(files), old(records), files1, records1, files);
        fates := if k < |a.reloads| then a.reloads[k] else [];
        o := Load(a.start);
        FaithfulDrops(old(files), old(records), files, records1, records);
        k := k + 1;
      }
    }

    method TryOnce(a: Attempt, path: string) returns (o: Outcome, ghost put: Option<Published>)
      requires Valid() && Lawful(a) == true && path !in files && (forall n :: n in records ==> records[n].path != path)
      modifies this
      ensures Valid() && Attempted(h, a, old(Contents()), o, put, Contents()) == true
    {
      fates, now := a.fates, a.at;
      o, put := Download(a.content, a.response, path);
      if o == Stopped || a.cut {
        ghost var d := Contents();
        Reboot(a);
        ghost var data := Delivered(old(Contents()), a.content, a.response);
        if AllSucceed(a.fates) && BreaksOff(old(Contents()), a.content, a.response) && a.content.name in partials {
          RestartTrusts(d, Contents(), a.start, a.content, data);
        }
      }
    }

    /** Any number of attempts, each cut or failing anywhere, with restarts in between. */
    method Run(attempts: seq<Attempt>, temp: set<string> -> string)
      returns (outcomes: seq<Outcome>, ghost puts: seq<Option<Published>>, ghost trace: seq<Disk>)
      requires Valid() && (forall s :: temp(s) !in s)
      requires forall a :: a in attempts ==> Lawful(a) == true
      modifies this
      ensures Valid() && Traced(h, attempts, outcomes, puts, trace)
      ensures trace[0] == old(Contents()) && trace[|attempts|] == Contents()
    {
      outcomes, puts, trace := [], [], [Contents()];
      var i := 0;
      while i < |attempts|
        invariant 0 <= i <= |attempts| && Valid()
        invariant Traced(h, attempts[..i], outcomes, puts, trace) == true
        invariant |trace| == i + 1 && trace[0] == old(Contents()) && trace[i] == Contents()
      {
        assert Lawful(attempts[i]);
        var used := files.Keys + set n | n in records :: records[n].path;
        var path := temp(used);
        ghost var put;
        var o;
        o, put := TryOnce(attempts[i], path);
        TracedOneMore(h, attempts, outcomes, puts, trace, i, o, put, Contents());
        outcomes, puts, trace := outcomes + [o], puts + [put], trace + [Contents()];
        i := i + 1;
      }
      assert attempts[..i] == attempts;
    }
  }
}
