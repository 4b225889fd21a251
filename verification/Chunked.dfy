/** Decoding of aws-chunked request bodies: framing, the chain of chunk signatures,
    trailers, and the checks on the decoded bytes. Bytes are the characters of a string. */
module Chunked {

  import opened Meta
  import Rank

  const CHUNK_LINE_LIMIT := 4096
  const MAX_TRAILER_LINES := 32
  const TRAILER_SIGNATURE := "x-amz-trailer-signature"

  // ----- pieces of text -----

  /** The first position of `c`, or the length. */
  function Find(s: string, c: char): (i: nat)
    ensures i <= |s| && (i < |s| ==> s[i] == c)
  {
    if s == [] || s[0] == c then 0 else 1 + Find(s[1..], c)
  }

  lemma {:induction false} FindIsFirst(s: string, c: char, j: nat)
    requires j < Find(s, c)
    ensures s[j] != c
  {
    if j > 0 {
      FindIsFirst(s[1..], c, j - 1);
    }
  }

  function CutHead(s: string, c: char): string { s[..Find(s, c)] }

  function CutTail(s: string, c: char): string {
    if Find(s, c) < |s| then s[Find(s, c) + 1..] else ""
  }

  predicate IsSpace(c: char) {
    c == ' ' || c == '\t' || c == '\n' || c == '\r' || c == 11 as char || c == 12 as char
  }

  function TrimLeft(s: string): string {
    if s != [] && IsSpace(s[0]) then TrimLeft(s[1..]) else s
  }

  function TrimRight(s: string): string {
    if s != [] && IsSpace(s[|s| - 1]) then TrimRight(s[..|s| - 1]) else s
  }

  function TrimSpace(s: string): string { TrimRight(TrimLeft(s)) }

  function Lower(c: char): char {
    if 'A' <= c <= 'Z' then (c as int + 32) as char else c
  }

  function ToLower(s: string): string {
    if s == [] then [] else [Lower(s[0])] + ToLower(s[1..])
  }

  function TrimSuffix(s: string, c: char): string {
    if s != [] && s[|s| - 1] == c then s[..|s| - 1] else s
  }

  predicate IsHexDigit(c: char) {
    '0' <= c <= '9' || 'a' <= c <= 'f' || 'A' <= c <= 'F'
  }

  function HexDigit(c: char): nat
    requires IsHexDigit(c)
  {
    if c <= '9' then c as int - '0' as int
    else if c >= 'a' then c as int - 'a' as int + 10
    else c as int - 'A' as int + 10
  }

  predicate IsHex(s: string) { forall i :: 0 <= i < |s| ==> IsHexDigit(s[i]) }

  function HexValue(s: string): nat
    requires IsHex(s)
  {
    if s == [] then 0 else 16 * HexValue(s[..|s| - 1]) + HexDigit(s[|s| - 1])
  }

  // ----- one-shot decoding -----

  /** A keyed hash over the previous signature and a chunk's data, or the canonical trailers. */
  datatype Signer = Signer(chunk: (string, string) -> string, trailer: (string, string) -> string)

  /** `eager` says that the transport reports the end of the body together with its last bytes. */
  datatype Config = Config(signed: bool, signer: Option<Signer>, trailing: bool, declared: string, emptyOK: bool, eager: bool)

  datatype Failure = Encoding | Signature | Truncated | MalformedTrailer

  datatype End = Eof(trailers: map<string, string>) | Fail(failure: Failure)

  datatype Decoded = Decoded(data: string, end: End)

  /** A buffered read up to a newline. */
  datatype LineRead = Line(text: string, rest: string) | TooLong | Unended(text: string)

  /** Without a newline in the first 4096 bytes the line is too long, unless these are all
      there is and the end is known by then. */
  function ReadSlice(s: string, eager: bool): (l: LineRead)
    ensures l.Line? ==> s == l.text + l.rest && l.text != ""
  {
    var i := Find(s, '\n');
    if i < |s| && i < CHUNK_LINE_LIMIT then Line(s[..i + 1], s[i + 1..])
    else if |s| > CHUNK_LINE_LIMIT || (|s| == CHUNK_LINE_LIMIT && !eager) then TooLong
    else Unended(s)
  }

  datatype Header = Header(size: nat, sig: string) | BadHeader(failure: Failure)

  function ParseExtension(ext: string): Option<string> {
    if CutHead(ext, '=') == "chunk-signature" && Rank.IsSHA256Hex(CutTail(ext, '=')) then Some(CutTail(ext, '=')) else None
  }

  predicate IsSize(size: string) {
    size != "" && |size| <= 16 && IsHex(size) && HexValue(size) < 0x8000_0000_0000_0000
  }

  function ParseHeader(cfg: Config, line: string): Header {
    var text := TrimSuffix(TrimSuffix(line, '\n'), '\r');
    var size := CutHead(text, ';');
    if !IsSize(size) then BadHeader(Encoding)
    else if !cfg.signed then Header(HexValue(size), "")
    else match ParseExtension(CutTail(text, ';'))
      case None => BadHeader(Signature)
      case Some(sig) => Header(HexValue(size), sig)
  }

  predicate ChunkVerified(cfg: Config, prev: string, data: string, sig: string) {
    cfg.signer.Some? ==> cfg.signer.value.chunk(prev, data) == sig
  }

  /** What follows a chunk header's line, or the start of the body. */
  function Frames(cfg: Config, rest: string, prev: string, started: bool): Decoded
    decreases |rest|, 1
  {
    match ReadSlice(rest, cfg.eager)
    case TooLong => Decoded("", Fail(Encoding))
    case Unended(text) =>
      if !started && text == "" && cfg.emptyOK then Decoded("", Eof(map[])) else Decoded("", Fail(Truncated))
    case Line(text, rest') =>
      match ParseHeader(cfg, text)
      case BadHeader(failure) => Decoded("", Fail(failure))
      case Header(size, sig) =>
        if size > 0 then ChunkData(cfg, rest', size, "", sig, prev)
        else if !ChunkVerified(cfg, prev, "", sig) then Decoded("", Fail(Signature))
        else Decoded("", Trailers(ParseTrailer, cfg, rest', sig, 0, NoTrailers))
  }

  /** An open chunk of which `got` has been read and `left` bytes are to come. */
  function ChunkData(cfg: Config, rest: string, left: nat, got: string, sig: string, prev: string): Decoded
    decreases |rest|, 2
  {
    if |rest| < left then Decoded(rest, Fail(Truncated))
    else
      var end := ChunkEnd(cfg, rest[left..], got + rest[..left], sig, prev);
      Decoded(rest[..left] + end.data, end.end)
  }

  /** An open chunk whose data is complete. */
  function ChunkEnd(cfg: Config, rest: string, data: string, sig: string, prev: string): Decoded
    decreases |rest|, 1
  {
    if |rest| < 2 then Decoded("", Fail(Truncated))
    else if rest[..2] != "\r\n" then Decoded("", Fail(Encoding))
    else if !ChunkVerified(cfg, prev, data, sig) then Decoded("", Fail(Signature))
    else Frames(cfg, rest[2..], sig, true)
  }

  datatype TrailerState = TrailerState(trailers: map<string, string>, canonical: string, signed: bool)

  const NoTrailers := TrailerState(map[], "", false)

  datatype TrailerLine = Blank | Malformed | Field(name: string, value: string)

  function ParseTrailer(line: string): TrailerLine {
    var text := TrimSpace(line);
    if text == "" then Blank
    else
      var name := ToLower(TrimSpace(CutHead(text, ':')));
      if ':' !in text || name == "" then Malformed else Field(name, TrimSpace(CutTail(text, ':')))
  }

  datatype TrailerStep = Next(state: TrailerState) | Bad(failure: Failure)

  /** One line of the trailers, told apart by `parse`. */
  function TakeTrailer(parse: string -> TrailerLine, cfg: Config, prev: string, st: TrailerState, line: string): TrailerStep {
    match parse(line)
    case Blank => Next(st)
    case Malformed => Bad(MalformedTrailer)
    case Field(name, value) =>
      if st.signed then Bad(MalformedTrailer)
      else if name == TRAILER_SIGNATURE then
        if !cfg.signed || !cfg.trailing then Bad(MalformedTrailer)
        else if !Rank.IsSHA256Hex(value) || (cfg.signer.Some? && cfg.signer.value.trailer(prev, st.canonical) != value) then Bad(Signature)
        else Next(st.(signed := true))
      else if name != cfg.declared || name in st.trailers then Bad(MalformedTrailer)
      else Next(TrailerState(st.trailers[name := value], st.canonical + name + ":" + value + "\n", false))
  }

  function TrailersEnd(cfg: Config, st: TrailerState): End {
    if cfg.signed && cfg.trailing && !st.signed then Fail(MalformedTrailer) else Eof(st.trailers)
  }

  function Trailers(parse: string -> TrailerLine, cfg: Config, rest: string, prev: string, i: nat, st: TrailerState): End
    requires i <= MAX_TRAILER_LINES
    decreases MAX_TRAILER_LINES - i
  {
    if i == MAX_TRAILER_LINES then Fail(MalformedTrailer)
    else match ReadSlice(rest, cfg.eager)
      case TooLong => Fail(MalformedTrailer)
      case Unended(text) =>
        (match TakeTrailer(parse, cfg, prev, st, text)
         case Bad(failure) => Fail(failure)
         case Next(st') => TrailersEnd(cfg, st'))
      case Line(text, rest') =>
        (match TakeTrailer(parse, cfg, prev, st, text)
         case Bad(failure) => Fail(failure)
         case Next(st') => Trailers(parse, cfg, rest', prev, i + 1, st'))
  }

  /** The whole body at once. */
  function Decode(cfg: Config, body: string, seed: string): Decoded {
    Frames(cfg, body, seed, false)
  }

  // ----- incremental decoding -----

  lemma CompleteChunk(cfg: Config, rest: string, got: string, sig: string, prev: string)
    ensures ChunkData(cfg, rest, 0, got, sig, prev) == ChunkEnd(cfg, rest, got, sig, prev)
  {
    var end := ChunkEnd(cfg, rest, got, sig, prev);
    assert rest[..0] == "" && rest[0..] == rest && got + "" == got && "" + end.data == end.data;
  }

  /** Reading part of a chunk's data hands that part out and leaves the rest to come. */
  lemma PartOfChunk(cfg: Config, rest: string, left: nat, got: string, sig: string, prev: string, n: nat)
    requires n <= left && n <= |rest|
    ensures var more := ChunkData(cfg, rest[n..], left - n, got + rest[..n], sig, prev);
      ChunkData(cfg, rest, left, got, sig, prev) == Decoded(rest[..n] + more.data, more.end)
  {
    if |rest| < left {
      assert rest == rest[..n] + rest[n..];
    } else {
      var tail := rest[n..];
      assert rest[..left] == rest[..n] + tail[..left - n];
      assert rest[left..] == tail[left - n..];
      assert got + rest[..left] == got + rest[..n] + tail[..left - n];
      var end := ChunkEnd(cfg, rest[left..], got + rest[..left], sig, prev);
      assert rest[..n] + (tail[..left - n] + end.data) == rest[..left] + end.data;
    }
  }

  /** A body that ends inside a chunk, or right after its data, is cut short. */
  lemma LastPart(cfg: Config, rest: string, left: nat, got: string, sig: string, prev: string)
    requires |rest| <= left
    ensures ChunkData(cfg, rest, left, got, sig, prev) == Decoded(rest, Fail(Truncated))
  {
    assert rest + "" == rest;
  }

  class ChunkReader {
    const cfg: Config
    var rest: string
    var started: bool
    var open: bool
    var left: nat
    var sig: string
    var hashed: string
    var prev: string
    var err: Option<End>

    ghost predicate Valid()
      reads this
    {
      err == None ==> if open then started else left == 0 && hashed == ""
    }

    /** What a one-shot decoder would make of everything still to come. */
    ghost function Pending(): Decoded
      reads this
    {
      if err.Some? then Decoded("", err.value)
      else if open then ChunkData(cfg, rest, left, hashed, sig, prev)
      else Frames(cfg, rest, prev, started)
    }

    constructor (cfg: Config, body: string, seed: string)
      ensures Valid() && Pending() == Decode(cfg, body, seed) && this.cfg == cfg
    {
      this.cfg := cfg;
      rest, started, open, left, sig, hashed, prev, err := body, false, false, 0, "", "", seed, None;
    }

    method ReadTrailers() returns (end: End)
      modifies `rest
      ensures end == Trailers(ParseTrailer, cfg, old(rest), prev, 0, NoTrailers)
    {
      var st, i := NoTrailers, 0;
      while true
        invariant 0 <= i <= MAX_TRAILER_LINES
        invariant Trailers(ParseTrailer, cfg, rest, prev, i, st) == Trailers(ParseTrailer, cfg, old(rest), prev, 0, NoTrailers)
        decreases MAX_TRAILER_LINES - i
      {
        if i == MAX_TRAILER_LINES {
          return Fail(MalformedTrailer);
        }
        var line := ReadSlice(rest, cfg.eager);
        if line.TooLong? {
          return Fail(MalformedTrailer);
        }
        var step := TakeTrailer(ParseTrailer, cfg, prev, st, line.text);
        if step.Bad? {
          return Fail(step.failure);
        }
        st := step.state;
        if line.Unended? {
          return TrailersEnd(cfg, st);
        }
        rest := line.rest;
        i := i + 1;
      }
    }

    /** Checks the end of the chunk just read. */
    method CheckClose() returns (failed: Option<End>)
      requires open && left == 0
      ensures failed.Some? ==> ChunkData(cfg, rest, left, hashed, sig, prev) == Decoded("", failed.value)
      ensures failed.None? ==> |rest| >= 2 && ChunkData(cfg, rest, left, hashed, sig, prev) == Frames(cfg, rest[2..], sig, true)
    {
      CompleteChunk(cfg, rest, hashed, sig, prev);
      if |rest| < 2 {
        return Some(Fail(Truncated));
      }
      if rest[..2] != "\r\n" {
        return Some(Fail(Encoding));
      }
      if !ChunkVerified(cfg, prev, hashed, sig) {
        return Some(Fail(Signature));
      }
      return None;
    }

    /** Closes the chunk just read. */
    method CloseChunk() returns (failed: Option<End>)
      requires Valid() && err == None && open && left == 0
      modifies this
      ensures err == None
      ensures failed == None ==> Valid() && !open && Pending() == old(Pending())
      ensures failed.Some? ==> old(Pending()) == Decoded("", failed.value)
    {
      failed := CheckClose();
      if failed == None {
        rest, prev, hashed, open := rest[2..], sig, "", false;
      }
    }

    /** Reads a chunk header; after the last chunk, also the trailers. */
    method OpenChunk() returns (ended: Option<End>)
      requires Valid() && err == None && !open
      modifies this
      ensures err == None
      ensures ended == None ==> Valid() && open && left > 0 && Pending() == old(Pending())
      ensures ended.Some? ==> old(Pending()) == Decoded("", ended.value)
    {
      var line := ReadSlice(rest, cfg.eager);
      if line.TooLong? {
        return Some(Fail(Encoding));
      }
      if line.Unended? {
        return Some(if !started && line.text == "" && cfg.emptyOK then Eof(map[]) else Fail(Truncated));
      }
      var header := ParseHeader(cfg, line.text);
      if header.BadHeader? {
        return Some(Fail(header.failure));
      }
      if header.size == 0 {
        if !ChunkVerified(cfg, prev, "", header.sig) {
          return Some(Fail(Signature));
        }
        rest, prev := line.rest, header.sig;
        var end := ReadTrailers();
        return Some(end);
      }
      rest, started, sig, left, open := line.rest, true, header.sig, header.size, true;
      return None;
    }

    /** Closes the chunk just read and opens the following one. */
    method NextChunk() returns (ended: Option<End>)
      requires Valid() && err == None && left == 0
      modifies this
      ensures Valid() && err == ended && Pending() == old(Pending())
      ensures ended == None ==> open && left > 0
    {
      ended := None;
      if open {
        ended := CloseChunk();
      }
      if ended == None {
        ended := OpenChunk();
      }
      err := ended;
    }

    /** Hands out up to `max` bytes of the open chunk. */
    method ReadData(max: nat, eof: bool) returns (p: string)
      requires Valid() && err == None && open
      modifies this
      ensures Valid() && |p| <= max
      ensures old(Pending()) == Decoded(p + Pending().data, Pending().end)
      ensures old(left) > 0 && max > 0 && err == None ==> p != ""
    {
      var n := if left < max then left else max;
      n := if |rest| < n then |rest| else n;
      p := rest[..n];
      if n == |rest| && (eof || n == 0) {
        LastPart(cfg, rest, left, hashed, sig, prev);
        err := Some(Fail(Truncated));
      } else {
        PartOfChunk(cfg, rest, left, hashed, sig, prev, n);
      }
      left, hashed, rest := left - n, hashed + p, rest[n..];
    }

    /** One read into a buffer of `size` bytes. The transport hands over up to `want` bytes,
        and may report the end of the body together with its last bytes. */
    method Read(size: nat, want: nat, eof: bool) returns (p: string, e: Option<End>)
      requires Valid()
      modifies this
      ensures Valid() && |p| <= size
      ensures old(Pending()) == Decoded(p + Pending().data, Pending().end)
      ensures e.Some? ==> Pending() == Decoded("", e.value)
      ensures size > 0 && e == None && want > 0 ==> p != ""
    {
      p := "";
      assert "" + Pending().data == Pending().data;
      if err.Some? || size == 0 {
        return "", err;
      }
      if left == 0 {
        e := NextChunk();
        if e.Some? {
          return;
        }
      }
      p := ReadData(if want < size then want else size, eof);
      e := err;
    }
  }

  // ----- what a complete body proves -----

  datatype Chunk = Chunk(data: string, sig: string)

  predicate IsLine(line: string) {
    && 0 < |line| <= CHUNK_LINE_LIMIT && line[|line| - 1] == '\n'
    && forall i :: 0 <= i < |line| - 1 ==> line[i] != '\n'
  }

  /** A chunk header's line. */
  predicate Heads(cfg: Config, line: string, chunk: Chunk) {
    IsLine(line) && ParseHeader(cfg, line) == Header(|chunk.data|, chunk.sig)
  }

  /** `body` is chunks of data, an empty last one, and then `tail`. */
  ghost predicate Framed(cfg: Config, body: string, chunks: seq<Chunk>, tail: string)
    decreases |chunks|
  {
    chunks != [] &&
    if |chunks| == 1 then
      chunks[0].data == "" && exists line :: Heads(cfg, line, chunks[0]) && body == line + tail
    else
      chunks[0].data != "" && exists line, rest :: Opens(cfg, body, line, chunks[0], rest) && Framed(cfg, rest, chunks[1..], tail)
  }

  predicate Opens(cfg: Config, body: string, line: string, chunk: Chunk, rest: string) {
    Heads(cfg, line, chunk) && body == line + (chunk.data + ("\r\n" + rest))
  }

  /** Every signature covers its chunk's data and the signature before it. */
  ghost predicate Linked(cfg: Config, prev: string, chunks: seq<Chunk>)
    decreases |chunks|
  {
    chunks != [] ==> ChunkVerified(cfg, prev, chunks[0].data, chunks[0].sig) && Linked(cfg, chunks[0].sig, chunks[1..])
  }

  ghost function Concat(chunks: seq<Chunk>): string {
    if chunks == [] then "" else chunks[0].data + Concat(chunks[1..])
  }

  ghost function LastSig(prev: string, chunks: seq<Chunk>): string {
    if chunks == [] then prev else chunks[|chunks| - 1].sig
  }

  lemma FindIs(s: string, c: char, i: nat)
    requires i <= |s| && (i < |s| ==> s[i] == c) && forall j :: 0 <= j < i ==> s[j] != c
    ensures Find(s, c) == i
  {
    if i < Find(s, c) {
      FindIsFirst(s, c, i);
    }
  }

  lemma {:induction false} LowerStays(s: string)
    requires forall i :: 0 <= i < |s| ==> Lower(s[i]) == s[i]
    ensures ToLower(s) == s
    decreases |s|
  {
    if s != [] {
      LowerStays(s[1..]);
    }
  }

  lemma ReadsLine(line: string, rest: string, eager: bool)
    requires IsLine(line)
    ensures ReadSlice(line + rest, eager) == Line(line, rest)
  {
    var s := line + rest;
    FindIs(s, '\n', |line| - 1);
    assert s[..|line|] == line && s[|line|..] == rest;
  }

  lemma ReadIsLine(s: string, eager: bool)
    requires ReadSlice(s, eager).Line?
    ensures IsLine(ReadSlice(s, eager).text)
  {
    var i := Find(s, '\n');
    forall j | 0 <= j < i ensures s[j] != '\n' {
      FindIsFirst(s, '\n', j);
    }
  }

  lemma FirstLast(prev: string, chunks: seq<Chunk>)
    requires chunks != []
    ensures LastSig(chunks[0].sig, chunks[1..]) == LastSig(prev, chunks)
  {
  }

  lemma ChunkDecodes(cfg: Config, chunk: Chunk, rest: string, prev: string)
    requires ChunkVerified(cfg, prev, chunk.data, chunk.sig)
    ensures var more := Frames(cfg, rest, chunk.sig, true);
      ChunkData(cfg, chunk.data + ("\r\n" + rest), |chunk.data|, "", chunk.sig, prev) == Decoded(chunk.data + more.data, more.end)
  {
    var after := chunk.data + ("\r\n" + rest);
    assert after[..|chunk.data|] == chunk.data && after[|chunk.data|..] == "\r\n" + rest;
    assert ("\r\n" + rest)[..2] == "\r\n" && ("\r\n" + rest)[2..] == rest;
    assert "" + chunk.data == chunk.data;
  }

  lemma OpensDecodes(cfg: Config, body: string, line: string, chunk: Chunk, rest: string, prev: string, started: bool)
    requires Opens(cfg, body, line, chunk, rest) && chunk.data != "" && ChunkVerified(cfg, prev, chunk.data, chunk.sig)
    ensures var more := Frames(cfg, rest, chunk.sig, true);
      Frames(cfg, body, prev, started) == Decoded(chunk.data + more.data, more.end)
  {
    ReadsLine(line, chunk.data + ("\r\n" + rest), cfg.eager);
    ChunkDecodes(cfg, chunk, rest, prev);
  }

  lemma LastDecodes(cfg: Config, body: string, line: string, chunk: Chunk, tail: string, prev: string, started: bool)
    requires Heads(cfg, line, chunk) && chunk.data == "" && body == line + tail && ChunkVerified(cfg, prev, "", chunk.sig)
    ensures Frames(cfg, body, prev, started) == Decoded("", Trailers(ParseTrailer, cfg, tail, chunk.sig, 0, NoTrailers))
  {
    ReadsLine(line, tail, cfg.eager);
  }

  /** A well-framed body whose signatures link decodes to its data. */
  lemma {:induction false} FramedDecodes(cfg: Config, body: string, chunks: seq<Chunk>, tail: string, prev: string, started: bool)
    requires Framed(cfg, body, chunks, tail) && Linked(cfg, prev, chunks)
    ensures Frames(cfg, body, prev, started) == Decoded(Concat(chunks), Trailers(ParseTrailer, cfg, tail, LastSig(prev, chunks), 0, NoTrailers))
    decreases |chunks|
  {
    var chunk := chunks[0];
    if |chunks| == 1 {
      var line :| Heads(cfg, line, chunk) && body == line + tail;
      LastDecodes(cfg, body, line, chunk, tail, prev, started);
      assert chunks[1..] == [];
    } else {
      var line, rest :| Opens(cfg, body, line, chunk, rest) && Framed(cfg, rest, chunks[1..], tail);
      OpensDecodes(cfg, body, line, chunk, rest, prev, started);
      FramedDecodes(cfg, rest, chunks[1..], tail, chunk.sig, true);
      FirstLast(prev, chunks);
    }
  }

  lemma ChunkEndsWell(cfg: Config, rest: string, data: string, sig: string, prev: string)
    requires ChunkEnd(cfg, rest, data, sig, prev).end.Eof?
    ensures |rest| >= 2 && rest == "\r\n" + rest[2..] && ChunkVerified(cfg, prev, data, sig)
    ensures ChunkEnd(cfg, rest, data, sig, prev) == Frames(cfg, rest[2..], sig, true)
  {
    assert rest == rest[..2] + rest[2..];
  }

  lemma DataIsFramed(cfg: Config, rest: string, left: nat, sig: string, prev: string) returns (data: string, more: string)
    requires ChunkData(cfg, rest, left, "", sig, prev).end.Eof?
    ensures |data| == left && rest == data + ("\r\n" + more) && ChunkVerified(cfg, prev, data, sig)
    ensures ChunkData(cfg, rest, left, "", sig, prev) == Decoded(data + Frames(cfg, more, sig, true).data, Frames(cfg, more, sig, true).end)
  {
    data := rest[..left];
    assert "" + data == data;
    ChunkEndsWell(cfg, rest[left..], data, sig, prev);
    more := rest[left..][2..];
    assert rest == data + rest[left..];
  }

  /** The first frame of a body that decodes to its end. */
  lemma OpensFrame(cfg: Config, rest: string, prev: string, started: bool) returns (line: string, chunk: Chunk, more: string)
    requires Frames(cfg, rest, prev, started).end.Eof? && (started || rest != "")
    ensures Heads(cfg, line, chunk) && ChunkVerified(cfg, prev, chunk.data, chunk.sig) && |more| < |rest|
    ensures chunk.data == "" ==> rest == line + more
    ensures chunk.data == "" ==> Frames(cfg, rest, prev, started) == Decoded("", Trailers(ParseTrailer, cfg, more, chunk.sig, 0, NoTrailers))
    ensures chunk.data != "" ==> Opens(cfg, rest, line, chunk, more)
    ensures chunk.data != "" ==>
      Frames(cfg, rest, prev, started) == Decoded(chunk.data + Frames(cfg, more, chunk.sig, true).data, Frames(cfg, more, chunk.sig, true).end)
  {
    var read := ReadSlice(rest, cfg.eager);
    ReadIsLine(rest, cfg.eager);
    line := read.text;
    var header := ParseHeader(cfg, line);
    if header.size == 0 {
      chunk, more := Chunk("", header.sig), read.rest;
    } else {
      var data;
      data, more := DataIsFramed(cfg, read.rest, header.size, header.sig, prev);
      chunk := Chunk(data, header.sig);
    }
  }

  /** Only a well-framed body whose signatures all link decodes to its end. */
  lemma {:induction false} EofIsFramed(cfg: Config, rest: string, prev: string, started: bool) returns (chunks: seq<Chunk>, tail: string)
    requires Frames(cfg, rest, prev, started).end.Eof? && (started || rest != "")
    ensures Framed(cfg, rest, chunks, tail) && Linked(cfg, prev, chunks)
    ensures Frames(cfg, rest, prev, started) == Decoded(Concat(chunks), Trailers(ParseTrailer, cfg, tail, LastSig(prev, chunks), 0, NoTrailers))
    decreases |rest|
  {
    var line, chunk, more := OpensFrame(cfg, rest, prev, started);
    if chunk.data == "" {
      chunks, tail := [chunk], more;
    } else {
      var chunks', tail' := EofIsFramed(cfg, more, chunk.sig, true);
      chunks, tail := [chunk] + chunks', tail';
      assert chunks[1..] == chunks';
      FirstLast(prev, chunks);
    }
  }

  // ----- trailers -----

  ghost function Lines(rest: string, eager: bool): seq<string>
    decreases |rest|
  {
    match ReadSlice(rest, eager)
    case Line(text, rest') => [text] + Lines(rest', eager)
    case TooLong => []
    case Unended(text) => [text]
  }

  /** The text the trailer signature covers; at most the one announced trailer is in it. */
  ghost function Canonical(cfg: Config, trailers: map<string, string>): string {
    if cfg.declared in trailers then cfg.declared + ":" + trailers[cfg.declared] + "\n" else ""
  }

  ghost predicate OnlyDeclared(cfg: Config, st: TrailerState) {
    st.trailers.Keys <= {cfg.declared} && st.canonical == Canonical(cfg, st.trailers)
  }

  lemma TakesTrailer(parse: string -> TrailerLine, cfg: Config, prev: string, st: TrailerState, line: string)
    requires OnlyDeclared(cfg, st) && TakeTrailer(parse, cfg, prev, st, line).Next?
    ensures var st' := TakeTrailer(parse, cfg, prev, st, line).state;
      && OnlyDeclared(cfg, st') && (st.signed ==> st' == st)
      && (st'.signed && !st.signed && cfg.signer.Some? ==>
            st'.trailers == st.trailers && parse(line) == Field(TRAILER_SIGNATURE, cfg.signer.value.trailer(prev, st.canonical)))
  {
    assert "" + cfg.declared == cfg.declared;
  }

  /** What holds of trailers read to the end: only the announced one was sent, and where a
      trailer signature is due, one of the lines is the signature of exactly these trailers. */
  ghost predicate Attested(parse: string -> TrailerLine, cfg: Config, prev: string, lines: seq<string>, trailers: map<string, string>) {
    && trailers.Keys <= {cfg.declared}
    && (cfg.signed && cfg.trailing && cfg.signer.Some? ==>
          exists k :: 0 <= k < |lines| && SignsTrailers(parse, cfg, prev, lines[k], trailers))
  }

  ghost predicate SignsTrailers(parse: string -> TrailerLine, cfg: Config, prev: string, line: string, trailers: map<string, string>) {
    cfg.signer.Some? && parse(line) == Field(TRAILER_SIGNATURE, cfg.signer.value.trailer(prev, Canonical(cfg, trailers)))
  }

  /** What trailers read to the end make of their first line. */
  lemma TrailersStep(parse: string -> TrailerLine, cfg: Config, rest: string, prev: string, i: nat, st: TrailerState)
    requires i <= MAX_TRAILER_LINES && Trailers(parse, cfg, rest, prev, i, st).Eof?
    ensures i < MAX_TRAILER_LINES && !ReadSlice(rest, cfg.eager).TooLong?
    ensures TakeTrailer(parse, cfg, prev, st, ReadSlice(rest, cfg.eager).text).Next?
    ensures var read := ReadSlice(rest, cfg.eager); var st' := TakeTrailer(parse, cfg, prev, st, read.text).state;
      Trailers(parse, cfg, rest, prev, i, st) == if read.Line? then Trailers(parse, cfg, read.rest, prev, i + 1, st') else TrailersEnd(cfg, st')
  {
  }

  lemma {:induction false} SignedStays(parse: string -> TrailerLine, cfg: Config, rest: string, prev: string, i: nat, st: TrailerState)
    requires i <= MAX_TRAILER_LINES && OnlyDeclared(cfg, st) && st.signed && Trailers(parse, cfg, rest, prev, i, st).Eof?
    ensures Trailers(parse, cfg, rest, prev, i, st) == Eof(st.trailers)
    decreases MAX_TRAILER_LINES - i
  {
    TrailersStep(parse, cfg, rest, prev, i, st);
    var read := ReadSlice(rest, cfg.eager);
    TakesTrailer(parse, cfg, prev, st, read.text);
    if read.Line? {
      SignedStays(parse, cfg, read.rest, prev, i + 1, st);
    }
  }

  lemma AttestedLater(parse: string -> TrailerLine, cfg: Config, prev: string, text: string, lines: seq<string>, trailers: map<string, string>)
    requires Attested(parse, cfg, prev, lines, trailers)
    ensures Attested(parse, cfg, prev, [text] + lines, trailers)
  {
    forall k | 0 <= k < |lines| ensures ([text] + lines)[k + 1] == lines[k] {}
  }

  /** The first line of trailers read to the end: either it signs them, or the rest is still unsigned. */
  lemma FirstTrailerLine(parse: string -> TrailerLine, cfg: Config, rest: string, prev: string, i: nat, st: TrailerState) returns (st': TrailerState)
    requires i <= MAX_TRAILER_LINES && OnlyDeclared(cfg, st) && !st.signed && Trailers(parse, cfg, rest, prev, i, st).Eof?
    ensures i < MAX_TRAILER_LINES && !ReadSlice(rest, cfg.eager).TooLong? && OnlyDeclared(cfg, st')
    ensures !st'.signed && ReadSlice(rest, cfg.eager).Line? ==>
      Trailers(parse, cfg, rest, prev, i, st) == Trailers(parse, cfg, ReadSlice(rest, cfg.eager).rest, prev, i + 1, st')
    ensures st'.signed || ReadSlice(rest, cfg.eager).Unended? ==> Trailers(parse, cfg, rest, prev, i, st) == Eof(st'.trailers)
    ensures st'.signed && cfg.signer.Some? ==> SignsTrailers(parse, cfg, prev, ReadSlice(rest, cfg.eager).text, st'.trailers)
    ensures ReadSlice(rest, cfg.eager).Unended? && cfg.signed && cfg.trailing ==> st'.signed
  {
    TrailersStep(parse, cfg, rest, prev, i, st);
    var read := ReadSlice(rest, cfg.eager);
    TakesTrailer(parse, cfg, prev, st, read.text);
    st' := TakeTrailer(parse, cfg, prev, st, read.text).state;
    if st'.signed && read.Line? {
      SignedStays(parse, cfg, read.rest, prev, i + 1, st');
    }
  }

  lemma AttestedNow(parse: string -> TrailerLine, cfg: Config, prev: string, text: string, lines: seq<string>, trailers: map<string, string>)
    requires lines != [] && lines[0] == text && trailers.Keys <= {cfg.declared}
    requires cfg.signed && cfg.trailing && cfg.signer.Some? ==> SignsTrailers(parse, cfg, prev, text, trailers)
    ensures Attested(parse, cfg, prev, lines, trailers)
  {
  }

  lemma FinalTrailerLine(parse: string -> TrailerLine, cfg: Config, rest: string, prev: string, i: nat, st: TrailerState, st': TrailerState, trailers: map<string, string>)
    requires !ReadSlice(rest, cfg.eager).TooLong? && OnlyDeclared(cfg, st') && trailers == st'.trailers
    requires st'.signed && cfg.signer.Some? ==> SignsTrailers(parse, cfg, prev, ReadSlice(rest, cfg.eager).text, st'.trailers)
    requires cfg.signed && cfg.trailing ==> st'.signed
    ensures Attested(parse, cfg, prev, Lines(rest, cfg.eager), trailers) == true
  {
    assert Lines(rest, cfg.eager)[0] == ReadSlice(rest, cfg.eager).text;
    AttestedNow(parse, cfg, prev, ReadSlice(rest, cfg.eager).text, Lines(rest, cfg.eager), trailers);
  }

  /** The lines of trailers are read one by one until the last. */
  ghost predicate Unsigned(parse: string -> TrailerLine, cfg: Config, rest: string, prev: string, i: nat, st: TrailerState, trailers: map<string, string>) {
    i <= MAX_TRAILER_LINES && OnlyDeclared(cfg, st) && !st.signed && Trailers(parse, cfg, rest, prev, i, st) == Eof(trailers)
  }

  lemma NextTrailerLine(parse: string -> TrailerLine, cfg: Config, rest: string, prev: string, i: nat, st: TrailerState, trailers: map<string, string>) returns (st': TrailerState)
    requires Unsigned(parse, cfg, rest, prev, i, st, trailers) == true
    ensures i < MAX_TRAILER_LINES && !ReadSlice(rest, cfg.eager).TooLong?
    ensures ReadSlice(rest, cfg.eager).Line? && !st'.signed ==> Unsigned(parse, cfg, ReadSlice(rest, cfg.eager).rest, prev, i + 1, st', trailers) == true
    ensures ReadSlice(rest, cfg.eager).Unended? || st'.signed ==> Attested(parse, cfg, prev, Lines(rest, cfg.eager), trailers) == true
  {
    st' := FirstTrailerLine(parse, cfg, rest, prev, i, st);
    if ReadSlice(rest, cfg.eager).Unended? || st'.signed {
      FinalTrailerLine(parse, cfg, rest, prev, i, st, st', trailers);
    }
  }

  lemma {:induction false} TrailersAttested(parse: string -> TrailerLine, cfg: Config, rest: string, prev: string, i: nat, st: TrailerState, trailers: map<string, string>)
    requires Unsigned(parse, cfg, rest, prev, i, st, trailers) == true
    ensures Attested(parse, cfg, prev, Lines(rest, cfg.eager), trailers) == true
    decreases |rest|
  {
    var st' := NextTrailerLine(parse, cfg, rest, prev, i, st, trailers);
    if ReadSlice(rest, cfg.eager).Line? && !st'.signed {
      TrailersAttested(parse, cfg, ReadSlice(rest, cfg.eager).rest, prev, i + 1, st', trailers);
      AttestedLater(parse, cfg, prev, ReadSlice(rest, cfg.eager).text, Lines(ReadSlice(rest, cfg.eager).rest, cfg.eager), trailers);
    }
  }

  /** End of file means: the framing is sound, every chunk's signature links to the seed,
      and the trailers are the announced ones, signed over the last link where due. */
  lemma EofIsAuthentic(cfg: Config, body: string, seed: string) returns (chunks: seq<Chunk>, tail: string)
    requires Decode(cfg, body, seed).end.Eof? && body != ""
    ensures Framed(cfg, body, chunks, tail) && Linked(cfg, seed, chunks)
    ensures Decode(cfg, body, seed).data == Concat(chunks)
    ensures Attested(ParseTrailer, cfg, LastSig(seed, chunks), Lines(tail, cfg.eager), Decode(cfg, body, seed).end.trailers)
  {
    chunks, tail := EofIsFramed(cfg, body, seed, false);
    TrailersAttested(ParseTrailer, cfg, tail, LastSig(seed, chunks), 0, NoTrailers, Decode(cfg, body, seed).end.trailers);
  }

  /** An empty body passes only where it may stand for an empty payload. */
  lemma EmptyBody(cfg: Config, seed: string)
    ensures Decode(cfg, "", seed) == Decoded("", if cfg.emptyOK then Eof(map[]) else Fail(Truncated))
  {
  }

  // ----- encoding -----

  function HexChar(d: nat): (c: char)
    requires d < 16
    ensures IsHexDigit(c) && HexDigit(c) == d && c != ';' && c != '\n' && c != '\r'
  {
    if d < 10 then ('0' as int + d) as char else ('a' as int + (d - 10)) as char
  }

  function HexOf(n: nat): (s: string)
    ensures s != "" && forall i :: 0 <= i < |s| ==> IsHexDigit(s[i]) && s[i] != ';' && s[i] != '\n' && s[i] != '\r'
  {
    if n < 16 then [HexChar(n)] else HexOf(n / 16) + [HexChar(n % 16)]
  }

  lemma {:induction false} HexRoundTrip(n: nat)
    ensures IsHex(HexOf(n)) && HexValue(HexOf(n)) == n
  {
    if n < 16 {
      assert HexOf(n)[..0] == "";
    } else {
      HexRoundTrip(n / 16);
      assert HexOf(n)[..|HexOf(n)| - 1] == HexOf(n / 16);
    }
  }

  function Pow16(k: nat): nat { if k == 0 then 1 else 16 * Pow16(k - 1) }

  lemma {:induction false} HexLength(n: nat, k: nat)
    requires k > 0 && n < Pow16(k)
    ensures |HexOf(n)| <= k
    decreases k
  {
    if n >= 16 {
      HexLength(n / 16, k - 1);
    }
  }

  lemma Pow16At16()
    ensures Pow16(16) == 0x1_0000_0000_0000_0000
  {
    assert Pow16(4) == 0x1_0000;
    assert Pow16(8) == 0x1_0000_0000;
    assert Pow16(12) == 0x1_0000_0000_0000;
  }

  function Extension(sig: string): string { "chunk-signature=" + sig }

  function HeaderLine(cfg: Config, chunk: Chunk): string {
    var hex := HexOf(|chunk.data|);
    if cfg.signed then hex + ([';'] + Extension(chunk.sig)) + "\r\n" else hex + "\r\n"
  }

  predicate Encodable(cfg: Config, chunk: Chunk) {
    |chunk.data| < 0x8000_0000_0000_0000 && if cfg.signed then Rank.IsSHA256Hex(chunk.sig) else chunk.sig == ""
  }

  /** Cutting at a character that the head does not hold. */
  lemma CutsAt(head: string, c: char, tail: string)
    requires c !in head
    ensures CutHead(head + ([c] + tail), c) == head && CutTail(head + ([c] + tail), c) == tail
    ensures CutHead(head, c) == head && CutTail(head, c) == ""
  {
    var s := head + ([c] + tail);
    FindIs(s, c, |head|);
    assert s[..|head|] == head && s[|head| + 1..] == tail;
    FindIs(head, c, |head|);
  }

  lemma TrimsLineEnd(text: string)
    requires text != "" && text[|text| - 1] != '\r'
    ensures TrimSuffix(TrimSuffix(text + "\r\n", '\n'), '\r') == text
  {
    var s := text + "\r\n";
    assert s[..|s| - 1] == text + "\r";
    assert (text + "\r")[..|text|] == text;
  }

  lemma ParsesExtension(sig: string)
    requires Rank.IsSHA256Hex(sig)
    ensures ParseExtension(Extension(sig)) == Some(sig)
  {
    assert Extension(sig) == "chunk-signature" + (['='] + sig);
    CutsAt("chunk-signature", '=', sig);
  }

  lemma ExtensionText(sig: string)
    requires Rank.IsSHA256Hex(sig)
    ensures |Extension(sig)| == 80 && forall i :: 0 <= i < 80 ==> Extension(sig)[i] != '\n' && Extension(sig)[i] != '\r'
  {
    forall i | 0 <= i < 80 ensures Extension(sig)[i] != '\n' && Extension(sig)[i] != '\r' {
      if i >= 16 { assert Extension(sig)[i] == sig[i - 16]; }
    }
  }

  predicate SizeText(hex: string, n: nat) {
    IsSize(hex) && HexValue(hex) == n && forall i :: 0 <= i < |hex| ==> hex[i] != ';' && hex[i] != '\n' && hex[i] != '\r'
  }

  lemma SizeTextOf(n: nat)
    requires n < 0x8000_0000_0000_0000
    ensures SizeText(HexOf(n), n)
  {
    HexRoundTrip(n);
    Pow16At16();
    HexLength(n, 16);
  }

  lemma PlainHeader(cfg: Config, hex: string, n: nat)
    requires SizeText(hex, n) && !cfg.signed
    ensures ParseHeader(cfg, hex + "\r\n") == Header(n, "") && IsLine(hex + "\r\n")
  {
    TrimsLineEnd(hex);
    CutsAt(hex, ';', "");
  }

  lemma SignedHeader(cfg: Config, hex: string, n: nat, ext: string, sig: string)
    requires SizeText(hex, n) && cfg.signed && ParseExtension(ext) == Some(sig)
    requires 0 < |ext| <= 100 && forall i :: 0 <= i < |ext| ==> ext[i] != '\n' && ext[i] != '\r'
    ensures ParseHeader(cfg, hex + ([';'] + ext) + "\r\n") == Header(n, sig) && IsLine(hex + ([';'] + ext) + "\r\n")
  {
    var text := hex + ([';'] + ext);
    assert text[|text| - 1] == ext[|ext| - 1];
    TrimsLineEnd(text);
    CutsAt(hex, ';', ext);
    forall i | 0 <= i < |text| ensures text[i] != '\n' {
      if i > |hex| { assert text[i] == ext[i - |hex| - 1]; }
    }
  }

  /** A header line names its chunk. */
  lemma HeaderRoundTrip(cfg: Config, chunk: Chunk)
    requires Encodable(cfg, chunk)
    ensures Heads(cfg, HeaderLine(cfg, chunk), chunk)
  {
    var n := |chunk.data|;
    SizeTextOf(n);
    if cfg.signed {
      ParsesExtension(chunk.sig);
      ExtensionText(chunk.sig);
      SignedHeader(cfg, HexOf(n), n, Extension(chunk.sig), chunk.sig);
    } else {
      PlainHeader(cfg, HexOf(n), n);
    }
  }

  ghost function Encode(cfg: Config, chunks: seq<Chunk>, tail: string): string {
    if chunks == [] then tail
    else if |chunks| == 1 then HeaderLine(cfg, chunks[0]) + tail
    else HeaderLine(cfg, chunks[0]) + (chunks[0].data + ("\r\n" + Encode(cfg, chunks[1..], tail)))
  }

  /** Data chunks and an empty last one. */
  ghost predicate Streams(cfg: Config, chunks: seq<Chunk>) {
    && chunks != [] && (forall i :: 0 <= i < |chunks| ==> Encodable(cfg, chunks[i]))
    && (forall i :: 0 <= i < |chunks| ==> (chunks[i].data == "" <==> i == |chunks| - 1))
  }

  lemma {:induction false} EncodeIsFramed(cfg: Config, chunks: seq<Chunk>, tail: string)
    requires Streams(cfg, chunks)
    ensures Framed(cfg, Encode(cfg, chunks, tail), chunks, tail)
    decreases |chunks|
  {
    HeaderRoundTrip(cfg, chunks[0]);
    if |chunks| > 1 {
      EncodeIsFramed(cfg, chunks[1..], tail);
      assert Opens(cfg, Encode(cfg, chunks, tail), HeaderLine(cfg, chunks[0]), chunks[0], Encode(cfg, chunks[1..], tail));
    }
  }

  /** Encoding and then decoding any linked list of chunks gives back its data. */
  lemma RoundTrip(cfg: Config, chunks: seq<Chunk>, tail: string, seed: string)
    requires Streams(cfg, chunks) && Linked(cfg, seed, chunks)
    ensures Decode(cfg, Encode(cfg, chunks, tail), seed)
      == Decoded(Concat(chunks), Trailers(ParseTrailer, cfg, tail, LastSig(seed, chunks), 0, NoTrailers))
  {
    EncodeIsFramed(cfg, chunks, tail);
    FramedDecodes(cfg, Encode(cfg, chunks, tail), chunks, tail, seed, false);
  }

  // ----- encoding trailers -----

  /** Text that trimming leaves alone. */
  predicate Plain(s: string) {
    s != "" && forall i :: 0 <= i < |s| ==> !IsSpace(s[i])
  }

  predicate PlainName(s: string) {
    Plain(s) && forall i :: 0 <= i < |s| ==> s[i] != ':' && Lower(s[i]) == s[i]
  }

  lemma TrimsPlain(s: string)
    requires Plain(s)
    ensures TrimSpace(s) == s && TrimSpace(s + "\r\n") == s
  {
    var t := s + "\r\n";
    assert TrimLeft(t) == t;
    assert t[..|t| - 1] == s + "\r" && (s + "\r")[..|s|] == s;
    assert TrimRight(s) == s;
    assert TrimRight(s + "\r") == s;
  }

  lemma ParsesField(name: string, value: string)
    requires PlainName(name) && Plain(value)
    ensures ParseTrailer(name + ([':'] + value) + "\r\n") == Field(name, value)
  {
    var text := name + ([':'] + value);
    assert Plain(text);
    TrimsPlain(text);
    CutsAt(name, ':', value);
    TrimsPlain(name);
    TrimsPlain(value);
    LowerStays(name);
    assert text[|name|] == ':';
  }

  function FieldLine(name: string, value: string): string {
    name + ([':'] + value) + "\r\n"
  }

  lemma TrailerLineStep(parse: string -> TrailerLine, cfg: Config, line: string, rest: string, prev: string, i: nat, st: TrailerState, st': TrailerState)
    requires i < MAX_TRAILER_LINES && IsLine(line) == true && TakeTrailer(parse, cfg, prev, st, line) == Next(st')
    ensures Trailers(parse, cfg, line + rest, prev, i, st) == Trailers(parse, cfg, rest, prev, i + 1, st')
  {
    ReadsLine(line, rest, cfg.eager);
  }

  lemma BlankEnd(parse: string -> TrailerLine, cfg: Config, prev: string, i: nat, st: TrailerState)
    requires i + 1 < MAX_TRAILER_LINES && parse("\r\n") == Blank && parse("") == Blank
    ensures Trailers(parse, cfg, "\r\n", prev, i, st) == TrailersEnd(cfg, st)
  {
    assert "\r\n" + "" == "\r\n";
    TrailerLineStep(parse, cfg, "\r\n", "", prev, i, st, st);
  }

  ghost function Sent(cfg: Config, value: Option<string>): map<string, string> {
    if value.Some? then map[cfg.declared := value.value] else map[]
  }

  /** The lines a client ends with: the announced trailer, if there is one to send, its
      signature where one is due, and a blank line. */
  ghost function Tail(cfg: Config, value: Option<string>, declared: string, signature: string): string {
    (if value.Some? then declared else "") + ((if cfg.signed && cfg.trailing then signature else "") + "\r\n")
  }

  /** `declared` and `signature` are lines that read as the trailer and as its signature. */
  ghost predicate ReadAs(parse: string -> TrailerLine, cfg: Config, prev: string, value: Option<string>, declared: string, signature: string) {
    && parse("\r\n") == Blank && parse("") == Blank
    && (value.Some? ==> cfg.declared != TRAILER_SIGNATURE && IsLine(declared) && parse(declared) == Field(cfg.declared, value.value))
    && (cfg.signed && cfg.trailing ==> IsLine(signature) && SignatureLine(parse, cfg, prev, Canonical(cfg, Sent(cfg, value)), signature))
  }

  ghost predicate SignatureLine(parse: string -> TrailerLine, cfg: Config, prev: string, canonical: string, line: string) {
    && parse(line).Field? && parse(line).name == TRAILER_SIGNATURE && Rank.IsSHA256Hex(parse(line).value)
    && (cfg.signer.Some? ==> cfg.signer.value.trailer(prev, canonical) == parse(line).value)
  }

  lemma SignatureEnds(parse: string -> TrailerLine, cfg: Config, prev: string, i: nat, st: TrailerState, value: Option<string>, declared: string, signature: string)
    requires i <= 1 && !st.signed && st.canonical == Canonical(cfg, Sent(cfg, value))
    requires ReadAs(parse, cfg, prev, value, declared, signature)
    ensures Trailers(parse, cfg, (if cfg.signed && cfg.trailing then signature else "") + "\r\n", prev, i, st) == Eof(st.trailers)
  {
    if cfg.signed && cfg.trailing {
      TrailerLineStep(parse, cfg, signature, "\r\n", prev, i, st, st.(signed := true));
      BlankEnd(parse, cfg, prev, i + 1, st.(signed := true));
    } else {
      assert "" + "\r\n" == "\r\n";
      BlankEnd(parse, cfg, prev, i, st);
    }
  }

  lemma TailEnds(parse: string -> TrailerLine, cfg: Config, prev: string, value: Option<string>, declared: string, signature: string)
    requires ReadAs(parse, cfg, prev, value, declared, signature)
    ensures Trailers(parse, cfg, Tail(cfg, value, declared, signature), prev, 0, NoTrailers) == Eof(Sent(cfg, value))
  {
    var st := TrailerState(Sent(cfg, value), Canonical(cfg, Sent(cfg, value)), false);
    var rest := (if cfg.signed && cfg.trailing then signature else "") + "\r\n";
    if value.Some? {
      assert "" + cfg.declared == cfg.declared;
      TrailerLineStep(parse, cfg, declared, rest, prev, 0, NoTrailers, st);
      SignatureEnds(parse, cfg, prev, 1, st, value, declared, signature);
    } else {
      assert "" + rest == rest;
      SignatureEnds(parse, cfg, prev, 0, st, value, declared, signature);
    }
  }

  lemma BlankLines()
    ensures ParseTrailer("\r\n") == Blank && ParseTrailer("") == Blank
  {
    var blank := "\r\n";
    assert blank[1..] == "\n" && "\n"[1..] == "";
    assert TrimSpace(blank) == "" && TrimSpace("") == "";
  }

  lemma HexIsPlain(sig: string)
    requires Rank.IsSHA256Hex(sig)
    ensures Plain(sig)
  {
  }

  lemma SignatureNameIsPlain()
    ensures PlainName(TRAILER_SIGNATURE)
  {
    var s := TRAILER_SIGNATURE;
    assert |s| == 23;
    assert forall i :: 0 <= i < 23 ==> ('a' <= s[i] <= 'z' || s[i] == '-');
  }

  lemma FieldIsLine(name: string, value: string)
    requires PlainName(name) && Plain(value) && |name| + |value| <= 4000
    ensures IsLine(FieldLine(name, value))
  {
  }

  ghost predicate Sendable(cfg: Config, value: Option<string>) {
    value.Some? ==>
      && PlainName(cfg.declared) && cfg.declared != TRAILER_SIGNATURE
      && Plain(value.value) && |cfg.declared| + |value.value| <= 4000
  }

  lemma SignatureLineReads(cfg: Config, prev: string, canonical: string, sig: string)
    requires Rank.IsSHA256Hex(sig) && (cfg.signer.Some? ==> cfg.signer.value.trailer(prev, canonical) == sig)
    ensures IsLine(FieldLine(TRAILER_SIGNATURE, sig)) && SignatureLine(ParseTrailer, cfg, prev, canonical, FieldLine(TRAILER_SIGNATURE, sig))
  {
    SignatureNameIsPlain();
    HexIsPlain(sig);
    ParsesField(TRAILER_SIGNATURE, sig);
    FieldIsLine(TRAILER_SIGNATURE, sig);
  }

  ghost function DeclaredLine(cfg: Config, value: Option<string>): string {
    if value.Some? then FieldLine(cfg.declared, value.value) else ""
  }

  lemma FieldLinesRead(cfg: Config, prev: string, value: Option<string>, sig: string)
    requires Sendable(cfg, value)
    requires cfg.signed && cfg.trailing ==> Rank.IsSHA256Hex(sig)
    requires cfg.signed && cfg.trailing && cfg.signer.Some? ==> cfg.signer.value.trailer(prev, Canonical(cfg, Sent(cfg, value))) == sig
    ensures ReadAs(ParseTrailer, cfg, prev, value, DeclaredLine(cfg, value), FieldLine(TRAILER_SIGNATURE, sig))
  {
    BlankLines();
    if value.Some? {
      ParsesField(cfg.declared, value.value);
      FieldIsLine(cfg.declared, value.value);
    }
    if cfg.signed && cfg.trailing {
      SignatureLineReads(cfg, prev, Canonical(cfg, Sent(cfg, value)), sig);
    }
  }

  /** What a client sends: each piece of data as a chunk signed over the one before, then an empty chunk. */
  ghost function SignAll(cfg: Config, prev: string, pieces: seq<string>): seq<Chunk>
    decreases |pieces|
  {
    if pieces == [] then [Chunk("", SignatureOf(cfg, prev, ""))]
    else
      var sig := SignatureOf(cfg, prev, pieces[0]);
      [Chunk(pieces[0], sig)] + SignAll(cfg, sig, pieces[1..])
  }

  ghost function SignatureOf(cfg: Config, prev: string, data: string): string {
    if cfg.signed && cfg.signer.Some? then cfg.signer.value.chunk(prev, data) else ""
  }

  /** A client that signs as configured. */
  ghost predicate Signs(cfg: Config) {
    && (cfg.signed <==> cfg.signer.Some?)
    && (cfg.signed ==> forall prev, data :: Rank.IsSHA256Hex(cfg.signer.value.chunk(prev, data)))
    && (cfg.signed ==> forall prev, data :: Rank.IsSHA256Hex(cfg.signer.value.trailer(prev, data)))
  }

  ghost function Joined(pieces: seq<string>): string {
    if pieces == [] then "" else pieces[0] + Joined(pieces[1..])
  }

  lemma {:induction false} SignAllStreams(cfg: Config, prev: string, pieces: seq<string>)
    requires Signs(cfg) && forall i :: 0 <= i < |pieces| ==> 0 < |pieces[i]| < 0x8000_0000_0000_0000
    ensures Streams(cfg, SignAll(cfg, prev, pieces)) && Linked(cfg, prev, SignAll(cfg, prev, pieces))
    ensures Concat(SignAll(cfg, prev, pieces)) == Joined(pieces)
    decreases |pieces|
  {
    var chunks := SignAll(cfg, prev, pieces);
    assert Encodable(cfg, chunks[0]);
    if pieces == [] {
      assert chunks[1..] == [];
    } else {
      var sig := SignatureOf(cfg, prev, pieces[0]);
      var more := SignAll(cfg, sig, pieces[1..]);
      SignAllStreams(cfg, sig, pieces[1..]);
      assert chunks[1..] == more;
      forall i | 0 <= i < |chunks| ensures Encodable(cfg, chunks[i]) && (chunks[i].data == "" <==> i == |chunks| - 1) {
        if i > 0 { assert chunks[i] == more[i - 1]; }
      }
    }
  }

  /** The trailer signature over the last chunk's signature and the trailer sent. */
  ghost function TrailerSig(cfg: Config, prev: string, value: Option<string>): string {
    if cfg.signer.Some? then cfg.signer.value.trailer(prev, Canonical(cfg, Sent(cfg, value))) else ""
  }

  /** What a client sends for `pieces` of data and a trailer. */
  ghost function Upload(cfg: Config, seed: string, pieces: seq<string>, value: Option<string>): string {
    var chunks := SignAll(cfg, seed, pieces);
    var sig := TrailerSig(cfg, LastSig(seed, chunks), value);
    Encode(cfg, chunks, Tail(cfg, value, DeclaredLine(cfg, value), FieldLine(TRAILER_SIGNATURE, sig)))
  }

  /** Whatever pieces a client cuts its data into, with or without signatures and a trailer,
      decoding what it sends gives its data and its trailer back. */
  lemma ClientRoundTrip(cfg: Config, seed: string, pieces: seq<string>, value: Option<string>)
    requires Signs(cfg) && Sendable(cfg, value)
    requires forall i :: 0 <= i < |pieces| ==> 0 < |pieces[i]| < 0x8000_0000_0000_0000
    ensures Decode(cfg, Upload(cfg, seed, pieces, value), seed) == Decoded(Joined(pieces), Eof(Sent(cfg, value)))
  {
    var chunks := SignAll(cfg, seed, pieces);
    var prev := LastSig(seed, chunks);
    var line := FieldLine(TRAILER_SIGNATURE, TrailerSig(cfg, prev, value));
    SignAllStreams(cfg, seed, pieces);
    RoundTrip(cfg, chunks, Tail(cfg, value, DeclaredLine(cfg, value), line), seed);
    FieldLinesRead(cfg, prev, value, TrailerSig(cfg, prev, value));
    TailEnds(ParseTrailer, cfg, prev, value, DeclaredLine(cfg, value), line);
  }

  // ----- what the transport decides -----

  /** Exactly as many bytes as a line may have follow the last newline, or are all there is. */
  predicate LongEnd(s: string) {
    && |s| >= CHUNK_LINE_LIMIT && (forall i :: |s| - CHUNK_LINE_LIMIT <= i < |s| ==> s[i] != '\n')
    && (|s| > CHUNK_LINE_LIMIT ==> s[|s| - CHUNK_LINE_LIMIT - 1] == '\n')
  }

  /** Whatever precedes a newline has no part in it. */
  lemma LongEndAfter(s: string, n: nat)
    requires 0 < n <= |s| && s[n - 1] == '\n'
    ensures LongEnd(s[n..]) <==> LongEnd(s)
  {
    var t := s[n..];
    if LongEnd(t) {
      forall i | |s| - CHUNK_LINE_LIMIT <= i < |s| ensures s[i] != '\n' {
        assert s[i] == t[i - n];
      }
      assert |t| > CHUNK_LINE_LIMIT ==> s[|s| - CHUNK_LINE_LIMIT - 1] == t[|t| - CHUNK_LINE_LIMIT - 1];
    }
    if LongEnd(s) {
      assert n - 1 < |s| - CHUNK_LINE_LIMIT;
    }
  }

  lemma ReadsDiffer(s: string)
    ensures ReadSlice(s, true) == ReadSlice(s, false) || (|s| == CHUNK_LINE_LIMIT && LongEnd(s) && ReadSlice(s, false) == TooLong && ReadSlice(s, true) == Unended(s))
  {
    var n := Find(s, '\n');
    if n == |s| == CHUNK_LINE_LIMIT {
      forall i | 0 <= i < |s| ensures s[i] != '\n' {
        FindIsFirst(s, '\n', i);
      }
    }
  }

  /** Two readings of the same bytes: alike, or the body ends in such a line and the reading
      that learns of the end too late refuses it, as it does if the other one accepts it. */
  ghost predicate Alike(rest: string, eager: End, late: End) {
    (eager == late || (LongEnd(rest) && late.Fail?)) && (eager.Eof? && LongEnd(rest) ==> late.Fail?)
  }

  lemma TakesAlike(parse: string -> TrailerLine, cfg: Config, prev: string, st: TrailerState, line: string)
    ensures TakeTrailer(parse, cfg.(eager := true), prev, st, line) == TakeTrailer(parse, cfg.(eager := false), prev, st, line)
  {
  }

  lemma {:induction false} TrailersAlike(parse: string -> TrailerLine, cfg: Config, rest: string, prev: string, i: nat, st: TrailerState)
    requires i <= MAX_TRAILER_LINES
    ensures Alike(rest, Trailers(parse, cfg.(eager := true), rest, prev, i, st), Trailers(parse, cfg.(eager := false), rest, prev, i, st))
    decreases MAX_TRAILER_LINES - i
  {
    ReadsDiffer(rest);
    var read := ReadSlice(rest, false);
    if i < MAX_TRAILER_LINES && !read.TooLong? {
      TakesAlike(parse, cfg, prev, st, read.text);
      var step := TakeTrailer(parse, cfg.(eager := false), prev, st, read.text);
      if read.Line? && step.Next? {
        TrailersAlike(parse, cfg, read.rest, prev, i + 1, step.state);
        ReadIsLine(rest, false);
        LongEndAfter(rest, |read.text|);
      }
    }
  }

  ghost predicate BothAlike(rest: string, eager: Decoded, late: Decoded) {
    eager.data == late.data && Alike(rest, eager.end, late.end)
  }

  lemma {:induction false} ChunkAlike(cfg: Config, rest: string, left: nat, sig: string, prev: string)
    ensures BothAlike(rest, ChunkData(cfg.(eager := true), rest, left, "", sig, prev), ChunkData(cfg.(eager := false), rest, left, "", sig, prev))
    decreases |rest|, 2
  {
    if |rest| >= left + 2 && rest[left..][..2] == "\r\n" {
      FramesAlike(cfg, rest[left..][2..], sig, true);
      assert rest[left..][2..] == rest[left + 2..];
      assert rest[left + 1] == rest[left..][..2][1];
      LongEndAfter(rest, left + 2);
    }
  }

  /** What follows a header's line. */
  ghost function AfterHeader(cfg: Config, rest: string, header: Header, prev: string): Decoded {
    match header
    case BadHeader(failure) => Decoded("", Fail(failure))
    case Header(size, sig) =>
      if size > 0 then ChunkData(cfg, rest, size, "", sig, prev)
      else if !ChunkVerified(cfg, prev, "", sig) then Decoded("", Fail(Signature))
      else Decoded("", Trailers(ParseTrailer, cfg, rest, sig, 0, NoTrailers))
  }

  lemma FramesStep(cfg: Config, rest: string, prev: string, started: bool, read: LineRead)
    requires ReadSlice(rest, cfg.eager) == read && (read.Unended? ==> read.text != "")
    ensures Frames(cfg, rest, prev, started) ==
      if read.TooLong? then Decoded("", Fail(Encoding))
      else if read.Unended? then Decoded("", Fail(Truncated))
      else AfterHeader(cfg, read.rest, ParseHeader(cfg, read.text), prev)
  {
  }

  lemma HeaderAlike(cfg: Config, rest: string, header: Header, prev: string)
    requires header.BadHeader? || header.size == 0
    ensures BothAlike(rest, AfterHeader(cfg.(eager := true), rest, header, prev), AfterHeader(cfg.(eager := false), rest, header, prev))
  {
    if header.Header? {
      TrailersAlike(ParseTrailer, cfg, rest, header.sig, 0, NoTrailers);
    }
  }

  lemma {:induction false} FramesAlike(cfg: Config, rest: string, prev: string, started: bool)
    ensures BothAlike(rest, Frames(cfg.(eager := true), rest, prev, started), Frames(cfg.(eager := false), rest, prev, started))
    decreases |rest|, 1
  {
    ReadsDiffer(rest);
    var read := ReadSlice(rest, false);
    if rest != "" {
      FramesStep(cfg.(eager := true), rest, prev, started, ReadSlice(rest, true));
      FramesStep(cfg.(eager := false), rest, prev, started, read);
    }
    if read.Line? {
      var header := ParseHeader(cfg, read.text);
      ReadIsLine(rest, false);
      LongEndAfter(rest, |read.text|);
      if header.Header? && header.size > 0 {
        ChunkAlike(cfg, read.rest, header.size, header.sig, prev);
      } else {
        HeaderAlike(cfg, read.rest, header, prev);
      }
    }
  }

  /** How the end of the body is reported never matters to the data. A body that passes when it
      is reported late passes either way; one that passes when it is reported with the last
      bytes is refused otherwise if and only if exactly 4096 bytes follow its last newline; and
      no two verdicts differ unless they do. */
  lemma TransportMatters(cfg: Config, body: string, seed: string)
    ensures var eager, late := Decode(cfg.(eager := true), body, seed), Decode(cfg.(eager := false), body, seed);
      && eager.data == late.data && (late.end.Eof? ==> eager == late)
      && (eager.end.Eof? ==> (late.end.Fail? <==> LongEnd(body)))
      && (eager.end != late.end ==> LongEnd(body))
  {
    FramesAlike(cfg, body, seed, false);
  }

  lemma {:induction false} TrimsBlank(s: string)
    requires forall i :: 0 <= i < |s| ==> IsSpace(s[i])
    ensures TrimSpace(s) == ""
    decreases |s|
  {
    if s != "" {
      TrimsBlank(s[1..]);
    }
  }

  lemma BlankTrailer(parse: string -> TrailerLine, cfg: Config, tail: string, prev: string)
    requires |tail| == CHUNK_LINE_LIMIT == Find(tail, '\n') && parse(tail) == Blank && !(cfg.signed && cfg.trailing)
    ensures Trailers(parse, cfg, tail, prev, 0, NoTrailers) == if cfg.eager then Eof(map[]) else Fail(MalformedTrailer)
  {
  }

  /** It does matter to a body that ends in a blank line of exactly 4096 bytes. */
  lemma TransportDecides(cfg: Config, body: string, chunks: seq<Chunk>, tail: string, seed: string)
    requires Framed(cfg, body, chunks, tail) == true && Linked(cfg, seed, chunks) == true && !(cfg.signed && cfg.trailing)
    requires |tail| == CHUNK_LINE_LIMIT && forall i :: 0 <= i < |tail| ==> tail[i] == ' '
    ensures Decode(cfg, body, seed) == Decoded(Concat(chunks), if cfg.eager then Eof(map[]) else Fail(MalformedTrailer))
  {
    FindIs(tail, '\n', |tail|);
    TrimsBlank(tail);
    BlankTrailer(ParseTrailer, cfg, tail, LastSig(seed, chunks));
    FramedDecodes(cfg, body, chunks, tail, seed, false);
  }

  // ----- checks on the decoded bytes -----

  /** A declared checksum: its value, or the trailer that will carry it. */
  datatype Checksum = Checksum(name: string, trailing: bool, want: string, digest: string -> string, decode: string -> Option<string>)

  datatype Verdict = Intact | Broken(failure: Failure) | WrongLength | MissingChecksum | BadChecksum | WrongDigest

  /** The checks on a body that was decoded to its end. */
  function Finish(length: Option<nat>, sum: Option<Checksum>, data: string, trailers: map<string, string>): Verdict {
    if length.Some? && |data| != length.value then WrongLength
    else if sum.None? then Intact
    else
      var s := sum.value;
      if s.trailing && s.name !in trailers then MissingChecksum
      else if s.trailing && s.decode(trailers[s.name]).None? then BadChecksum
      else if s.digest(data) != (if s.trailing then s.decode(trailers[s.name]).value else s.want) then WrongDigest
      else Intact
  }

  /** What becomes of a body as a whole. */
  function Judge(length: Option<nat>, sum: Option<Checksum>, whole: Decoded): Verdict {
    if length.Some? && |whole.data| > length.value then WrongLength
    else match whole.end
      case Fail(failure) => Broken(failure)
      case Eof(trailers) => Finish(length, sum, whole.data, trailers)
  }

  /** Every check has passed. */
  ghost predicate Checked(length: Option<nat>, sum: Option<Checksum>, whole: Decoded) {
    && whole.end.Eof? && (length.Some? ==> |whole.data| == length.value)
    && (sum.Some? && !sum.value.trailing ==> sum.value.digest(whole.data) == sum.value.want)
    && (sum.Some? && sum.value.trailing ==>
          && sum.value.name in whole.end.trailers
          && sum.value.decode(whole.end.trailers[sum.value.name]) == Some(sum.value.digest(whole.data)))
  }

  lemma IntactMeansChecked(length: Option<nat>, sum: Option<Checksum>, whole: Decoded)
    ensures Judge(length, sum, whole) == Intact <==> Checked(length, sum, whole)
  {
  }

  class Payload {
    const chunks: ChunkReader
    const length: Option<nat>
    const sum: Option<Checksum>
    var n: nat
    var summed: string
    var err: Option<Verdict>
    ghost const whole: Decoded
    ghost var handed: string

    ghost predicate Valid()
      reads this, chunks
    {
      && chunks.Valid() && n == |summed| && handed <= whole.data
      && (err == None ==> handed == summed && (length.Some? ==> n <= length.value))
      && (err == None ==> whole == Decoded(summed + chunks.Pending().data, chunks.Pending().end))
      && (err.Some? ==> err.value == Judge(length, sum, whole) && (err.value == Intact ==> handed == whole.data))
    }

    constructor (cfg: Config, body: string, seed: string, length: Option<nat>, sum: Option<Checksum>)
      ensures Valid() && fresh(chunks) && err == None && handed == ""
      ensures whole == Decode(cfg, body, seed) && this.length == length && this.sum == sum
    {
      chunks := new ChunkReader(cfg, body, seed);
      this.length, this.sum := length, sum;
      n, summed, err, handed, whole := 0, "", None, "", Decode(cfg, body, seed);
      new;
      assert "" + chunks.Pending().data == chunks.Pending().data;
    }

    method Read(size: nat, want: nat, eof: bool) returns (p: string, e: Option<Verdict>)
      requires Valid()
      modifies this, chunks
      ensures Valid() && handed == old(handed) + p && |p| <= size && e == err
      ensures size > 0 && want > 0 && e == None ==> p != ""
    {
      if err.Some? {
        return "", err;
      }
      var end;
      p, end := chunks.Read(size, want, eof);
      assert summed + (p + chunks.Pending().data) == summed + p + chunks.Pending().data;
      n := n + |p|;
      summed := summed + p;
      if length.Some? && n > length.value {
        err := Some(WrongLength);
        return "", err;
      }
      handed := handed + p;
      if end.Some? {
        assert summed + "" == summed;
        err := Some(if end.value.Eof? then Finish(length, sum, summed, end.value.trailers) else Broken(end.value.failure));
      }
      e := err;
    }
  }

  datatype Request = Request(size: nat, want: nat, eof: bool)

  /** Any sequence of reads hands out a prefix of the decoded data. A verdict is the one the
      whole body deserves, and end of file comes with all of the data. Reads that ask for
      something and get something reach a verdict. */
  method ReadThrough(cfg: Config, body: string, seed: string, length: Option<nat>, sum: Option<Checksum>, requests: seq<Request>)
    returns (out: string, verdict: Option<Verdict>)
    ensures out <= Decode(cfg, body, seed).data
    ensures verdict.Some? ==> verdict.value == Judge(length, sum, Decode(cfg, body, seed))
    ensures verdict == Some(Intact) ==> out == Decode(cfg, body, seed).data
    ensures |requests| > |Decode(cfg, body, seed).data| && (forall r :: r in requests ==> r.size > 0 && r.want > 0) ==> verdict.Some?
  {
    var payload := new Payload(cfg, body, seed, length, sum);
    out, verdict := "", None;
    var i := 0;
    while i < |requests| && verdict == None
      invariant 0 <= i <= |requests| && payload.Valid() && fresh(payload) && fresh(payload.chunks)
      invariant payload.whole == Decode(cfg, body, seed) && payload.length == length && payload.sum == sum
      invariant out == payload.handed && verdict == payload.err
      invariant verdict == None && (forall r :: r in requests ==> r.size > 0 && r.want > 0) ==> |out| >= i
    {
      assert requests[i] in requests;
      var p;
      p, verdict := payload.Read(requests[i].size, requests[i].want, requests[i].eof);
      out := out + p;
      i := i + 1;
    }
  }
}
