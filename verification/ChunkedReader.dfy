/** The streaming chunked decoder: a five-state machine over a shared reader, driven by arbitrary
    buffer sizes and short reads. Its invariant is the refinement: what was delivered so far followed by
    what the reference decoder yields from the present state is what it yields from the whole input. */
module ChunkedReader {
  import opened Bytes
  import opened ChunkGrammar
  import opened ChunkedLines

  const MAX_DRAIN_BYTES: nat := 65536
  const DRAIN_BUFFER: nat := 4096

  datatype State = StateChunkSize | StateChunkData | StateChunkCRLF | StateTrailerSection | StateDone

  datatype ReadError = NoError | EOF | Failed(error: Error)

  /** The connection under the reader, closed on the first failure. */
  class Connection {
    var closed: bool

    constructor ()
      ensures !closed
    {
      closed := false;
    }

    method Close()
      modifies this
      ensures closed
    {
      closed := true;
    }
  }

  // Wire bytes, other than body bytes, that a state can still take before the next body byte or the end.
  const OWED_TRAILERS: nat := MAX_TRAILER_BYTES + MAX_TRAILER_LINE + 1
  const OWED_SIZE: nat := MAX_SIZE_LINE + 1 + OWED_TRAILERS
  const OWED_CRLF: nat := 2 + OWED_SIZE
  // Each body byte pays for itself and the longest framing that can surround it.
  const WIRE_PER_BYTE: nat := MAX_SIZE_LINE + 4

  class ChunkedBodyReader {
    const r: BufReader
    var closer: Connection?
    var state: State
    var chunkRemaining: nat
    var totalBodyRead: nat
    const maxBodyBytes: int
    var err: Option<Error>
    var closed: bool
    var trailers: seq<Field>

    ghost const input: bytes
    ghost var delivered: bytes

    constructor (r: BufReader, closer: Connection?, maxBodyBytes: int)
      requires r.Valid()
      ensures Valid() && this.r == r && this.closer == closer && this.maxBodyBytes == maxBodyBytes
      ensures input == r.Unread() && delivered == [] && err == None && !closed && state == StateChunkSize
    {
      this.r, this.closer, this.maxBodyBytes := r, closer, maxBodyBytes;
      state, chunkRemaining, totalBodyRead := StateChunkSize, 0, 0;
      err, closed, trailers := None, false, [];
      input, delivered := r.Unread(), [];
    }

    /** What the unlimited one-shot decoder makes of the whole input. */
    ghost function Expected(): Decoded {
      Decode(input, r.fin)
    }

    /** What it makes of the unread input from the present state. */
    ghost function Residual(): Decoded
      requires r.pos <= |r.data|
      reads this`state, this`chunkRemaining, r
    {
      match state
      case StateChunkSize => Decode(r.Unread(), r.fin)
      case StateChunkData => DecodeData(chunkRemaining, r.Unread(), r.fin)
      case StateChunkCRLF => DecodeCRLF(r.Unread(), r.fin)
      case StateTrailerSection => DecodeTrailers(r.Unread(), 0, r.fin)
      case StateDone => Decoded([], [], Accepted(r.Unread()))
    }

    ghost predicate Tracks(rest: Decoded)
      reads this`delivered, this`trailers
    {
      Expected() == Decoded(delivered + rest.body, trailers + rest.trailers, rest.outcome)
    }

    /** The body has more than maxBodyBytes bytes, or breaks off when it has them all. */
    ghost predicate OverLimit()
      reads this`delivered
    {
      && 0 < maxBodyBytes <= |delivered|
      && delivered <= Expected().body
      && (|Expected().body| > maxBodyBytes || Expected().outcome.Rejected?)
    }

    ghost predicate Valid()
      reads this, r.Parts()
    {
      && r.Valid()
      && |delivered| == totalBodyRead
      && (state == StateDone ==> err == None)
      && match err
         case None =>
           && Tracks(Residual())
           && (state == StateChunkData ==> chunkRemaining > 0)
           && (maxBodyBytes > 0 ==> totalBodyRead <= maxBodyBytes)
         case Some(e) =>
           if e == BodyTooLarge then OverLimit()
           else Tracks(Decoded([], [], Rejected(e))) && (maxBodyBytes > 0 ==> totalBodyRead <= maxBodyBytes)
    }

    ghost function Owed(): nat
      reads this
    {
      if err.Some? then 0
      else match state
           case StateChunkSize => OWED_SIZE
           case StateChunkData => OWED_TRAILERS
           case StateChunkCRLF => OWED_CRLF
           case StateTrailerSection => OWED_TRAILERS
           case StateDone => 0
    }

    ghost function Frame(): set<object>
      reads this
    {
      {this} + r.Parts() + if closer == null then {} else {closer as object}
    }

    /** Nothing but the position in the message may differ. */
    twostate predicate Kept()
      reads this
    {
      closer == old(closer) && closed == old(closed)
    }

    /** The connection is closed when a failure is first met, and for no other reason. */
    twostate predicate FailureCloses()
      requires closer == old(closer)
      reads this, Frame()
    {
      closer != null ==> closer.closed == (old(closer.closed) || (old(err) == None && err.Some?))
    }

    method SetCloser(c: Connection?)
      requires Valid()
      modifies this`closer
      ensures Valid() && closer == c
    {
      closer := c;
    }

    method IsEOF() returns (done: bool)
      requires Valid()
      ensures done <==> state == StateDone
      ensures done ==> Expected() == Decoded(delivered, trailers, Accepted(r.Unread()))
    {
      done := state == StateDone;
    }

    method CloseConnection()
      modifies if closer == null then {} else {closer}
      ensures closer != null ==> closer.closed
    {
      if closer != null {
        closer.Close();
      }
    }

    method ParseChunkSizeLine() returns (h: SizeHead)
      requires r.Valid()
      modifies r.Parts()
      ensures r.Valid() && h == ReadSize(old(r.Unread()), r.fin) && r.past == old(r.past)
      ensures h.SizeHead? ==> r.Unread() == old(r.Unread())[h.length..]
      ensures old(r.pos) <= r.pos <= old(r.pos) + MAX_SIZE_LINE + 1
      ensures h.SizeHead? ==> r.pos == old(r.pos) + h.length
    {
      hide BufReader.Valid;
      var line, scan := ReadLine(r, MAX_SIZE_LINE);
      match scan
      case Cut => h := BadSize(EndError(r.fin));
      case TooLong => h := BadSize(BadRequest);
      case Line(_) => h := ParseSizeLine(line);
    }

    /** A chunk-size line: on to the data or to the trailers. */
    method SizeStep() returns (ok: bool)
      requires Valid() && err == None && state == StateChunkSize
      modifies Frame()
      ensures Valid() && Kept() && FailureCloses() && (ok <==> err == None)
      ensures r.past == old(r.past) && delivered == old(delivered) && (err.Some? ==> err != Some(BodyTooLarge))
      ensures ok ==> r.pos > old(r.pos)
      ensures r.pos >= old(r.pos) && r.pos + Owed() <= old(r.pos + Owed())
    {
      hide DecodeData, DecodeTrailers, ReadSize, BufReader.Valid;
      var h := ParseChunkSizeLine();
      if h.BadSize? {
        err := Some(h.error);
        BadSizeError(old(r.Unread()));
        CloseConnection();
        return false;
      }
      if h.size == 0 {
        state := StateTrailerSection;
      } else {
        chunkRemaining, state := h.size, StateChunkData;
      }
      return true;
    }

    lemma BadSizeError(s: bytes)
      ensures ReadSize(s, r.fin).BadSize? ==> ReadSize(s, r.fin).error != BodyTooLarge
    {
    }

    /** Chunk data into p[n..]: m bytes, and how the call that made them goes on. */
    method DataStep(p: array<byte>, n: nat) returns (m: nat, ok: bool, now: bool)
      requires Valid() && err == None && state == StateChunkData && n < p.Length
      modifies Frame(), p
      ensures Valid() && Kept() && FailureCloses() && (ok <==> err == None)
      ensures n + m <= p.Length && (ok ==> m > 0 && state != StateDone)
      ensures p[..n] == old(p[..n]) && p[n + m..] == old(p[n + m..])
      ensures delivered == old(delivered) + p[n..n + m]
      ensures now ==> !ok && err == Some(BodyTooLarge) && 0 < maxBodyBytes < |delivered|
      ensures p.Length <= BUFFER_SIZE ==> r.past == old(r.past)
      ensures !now && maxBodyBytes > 0 ==> totalBodyRead <= maxBodyBytes
      ensures 0 < maxBodyBytes <= old(totalBodyRead) ==> m == 0
      ensures r.pos >= old(r.pos) && r.pos + Owed() <= old(r.pos + Owed()) + WIRE_PER_BYTE * m
    {
      hide DecodeData, DecodeCRLF, DecodeTrailers, Decode, BufReader.Valid;
      if maxBodyBytes > 0 && totalBodyRead >= maxBodyBytes {
        AtLimit();
        err := Some(BodyTooLarge);
        CloseConnection();
        return 0, false, false;
      }
      m := TakeData(p, n);
      if m == 0 {
        err := Some(EndError(r.fin));
        CloseConnection();
        return 0, false, false;
      }
      if maxBodyBytes > 0 && totalBodyRead > maxBodyBytes {
        err := Some(BodyTooLarge);
        CloseConnection();
        return m, false, true;
      }
      if chunkRemaining == 0 {
        DataAll(r.Unread());
        state := StateChunkCRLF;
      }
      return m, true, false;
    }

    /** One short read of chunk data into p[n..]. */
    method TakeData(p: array<byte>, n: nat) returns (m: nat)
      requires Valid() && err == None && state == StateChunkData && n < p.Length
      modifies r.Parts(), this`delivered, this`chunkRemaining, this`totalBodyRead, p
      ensures r.Valid() && r.pos == old(r.pos) + m
      ensures n + m <= p.Length && p[..n] == old(p[..n]) && p[n + m..] == old(p[n + m..])
      ensures delivered == old(delivered) + p[n..n + m] && |delivered| == totalBodyRead
      ensures chunkRemaining == old(chunkRemaining) - m && (p.Length <= BUFFER_SIZE ==> r.past == old(r.past))
      ensures m > 0 ==> Tracks(DecodeData(chunkRemaining, r.Unread(), r.fin))
      ensures m == 0 ==> Tracks(Decoded([], [], Rejected(EndError(r.fin))))
    {
      hide DecodeData, Decode, BufReader.Valid;
      ghost var s := r.Unread();
      var toRead := if p.Length - n > chunkRemaining then chunkRemaining else p.Length - n;
      m := r.Read(p, n, n + toRead);
      DataInPieces(chunkRemaining, s, m, r.fin);
      delivered := delivered + s[..m];
      chunkRemaining, totalBodyRead := chunkRemaining - m, totalBodyRead + m;
      assert r.Unread() == s[m..];
      if m == 0 {
        DataCut(chunkRemaining, s);
        assert s[..0] == [];
      }
    }

    lemma DataCut(size: nat, s: bytes)
      requires size > 0 && s == []
      ensures DecodeData(size, s, r.fin) == Decoded([], [], Rejected(EndError(r.fin)))
    {
    }

    lemma DataAll(s: bytes)
      ensures DecodeData(0, s, r.fin) == DecodeCRLF(s, r.fin)
    {
      var d := DecodeCRLF(s, r.fin);
      assert s[..0] + d.body == d.body;
    }

    /** At the limit with a non-empty chunk to come: either a byte too many, or the data is cut. */
    lemma AtLimit()
      requires Valid() && err == None && state == StateChunkData
      requires 0 < maxBodyBytes <= totalBodyRead
      ensures OverLimit()
    {
      var s := r.Unread();
      if s == [] {
        DataCut(chunkRemaining, s);
      } else {
        DataInPieces(chunkRemaining, s, 1, r.fin);
      }
    }

    /** The CRLF that ends a chunk. */
    method CRLFStep() returns (ok: bool)
      requires Valid() && err == None && state == StateChunkCRLF
      modifies Frame()
      ensures Valid() && Kept() && FailureCloses() && (ok <==> err == None)
      ensures r.past == old(r.past) && delivered == old(delivered) && (err.Some? ==> err != Some(BodyTooLarge))
      ensures ok ==> r.pos > old(r.pos)
      ensures r.pos >= old(r.pos) && r.pos + Owed() <= old(r.pos + Owed())
    {
      hide Decode, BufReader.Valid;
      var crlf := r.ReadTwo();
      if |crlf| < 2 {
        err := Some(if r.fin.CleanEnd? then BadRequest else ReadFailure);
        CloseConnection();
        return false;
      }
      assert crlf == old(r.Unread())[..2];
      if crlf[0] != CR || crlf[1] != LF {
        err := Some(BadRequest);
        CloseConnection();
        return false;
      }
      assert crlf == CRLF;
      state := StateChunkSize;
      return true;
    }

    lemma TrailersUnfold(s: bytes, used: nat)
      ensures var d, scan := DecodeTrailers(s, used, r.fin), ScanLine(s, MAX_TRAILER_LINE);
              && (scan.Cut? ==> d == Decoded([], [], Rejected(EndError(r.fin))))
              && (scan.TooLong? ==> d == Decoded([], [], Rejected(HeaderTooLarge)))
              && (scan.Line? ==>
                    var n, t := scan.length, ReadTrailerLine(s[..scan.length], used);
                    && (t.BadLine? ==> d == Decoded([], [], Rejected(t.error)) && t.error != BodyTooLarge)
                    && (t.EndLine? ==> d == Decoded([], [], Accepted(s[n..])))
                    && (t.FieldLine? ==>
                          var rest := DecodeTrailers(s[n..], used + n, r.fin);
                          d == rest.(trailers := [t.field] + rest.trailers)))
    {
    }

    /** Field lines up to the blank one, or the first that is refused. */
    method ParseTrailers() returns (e: Option<Error>)
      requires r.Valid()
      modifies r.Parts(), this`trailers
      ensures r.Valid() && old(r.pos) <= r.pos <= old(r.pos) + OWED_TRAILERS && r.past == old(r.past)
      ensures var d := DecodeTrailers(old(r.Unread()), 0, r.fin);
              && trailers == old(trailers) + d.trailers
              && d.outcome == if e == None then Accepted(r.Unread()) else Rejected(e.value)
      ensures e != Some(BodyTooLarge)
    {
      hide DecodeTrailers, ReadTrailerLine, ScanLine, BufReader.Valid;
      ghost var d := DecodeTrailers(r.Unread(), 0, r.fin);
      var totalTrailerBytes := 0;
      while true
        invariant r.Valid() && totalTrailerBytes <= MAX_TRAILER_BYTES
        invariant r.pos == old(r.pos) + totalTrailerBytes && r.past == old(r.past)
        invariant var rest := DecodeTrailers(r.Unread(), totalTrailerBytes, r.fin);
                  old(trailers) + d.trailers == trailers + rest.trailers && d.outcome == rest.outcome
        decreases |r.data| - r.pos
      {
        ghost var s := r.Unread();
        TrailersUnfold(s, totalTrailerBytes);
        var line, scan := ReadLine(r, MAX_TRAILER_LINE);
        match scan
        case Cut => return Some(EndError(r.fin));
        case TooLong => return Some(HeaderTooLarge);
        case Line(_) =>
          var t := ParseTrailerSectionLine(line, totalTrailerBytes);
          assert s[|line|..] == r.Unread();
          match t
          case BadLine(error) => return Some(error);
          case EndLine => return None;
          case FieldLine(f) =>
            totalTrailerBytes := totalTrailerBytes + |line|;
            trailers := trailers + [f];
      }
    }

    /** The trailer section, read in one go. */
    method TrailerStep() returns (ok: bool)
      requires Valid() && err == None && state == StateTrailerSection
      modifies Frame()
      ensures Valid() && Kept() && FailureCloses() && (ok <==> err == None)
      ensures r.past == old(r.past) && delivered == old(delivered) && (err.Some? ==> err != Some(BodyTooLarge))
      ensures ok ==> state == StateDone
      ensures r.pos >= old(r.pos) && r.pos + Owed() <= old(r.pos + Owed())
    {
      hide DecodeTrailers, BufReader.Valid;
      var e := ParseTrailers();
      if e.Some? {
        err := e;
        CloseConnection();
        return false;
      }
      state := StateDone;
      return true;
    }

    /** One Read with a buffer of any size. */
    method Read(p: array<byte>) returns (n: nat, e: ReadError)
      requires Valid()
      modifies Frame(), p
      ensures Valid() && Kept() && FailureCloses()
      // what the call hands over, and nothing else, is added to what was delivered
      ensures n <= p.Length && p[n..] == old(p[n..])
      ensures delivered == old(delivered) + p[..n]
      // a small buffer never makes the reads beneath pass the second buffer by
      ensures p.Length <= BUFFER_SIZE ==> r.past == old(r.past)
      // a closed or failed reader answers the same for ever
      ensures old(closed) ==> n == 0 && e == EOF
      ensures !old(closed) && old(err).Some? ==> n == 0 && e == Failed(old(err).value)
      ensures old(closed) || old(err).Some? ==> err == old(err) && state == old(state) && r.pos == old(r.pos)
      // nothing more is delivered once the ceiling is reached
      ensures 0 < maxBodyBytes <= |old(delivered)| ==> n == 0
      // a failure is reported by the next call when bytes were read, but for the byte over the ceiling
      ensures e.Failed? && n > 0 ==> 0 < maxBodyBytes < |delivered|
      // errors are sticky, end of file means the message is complete, success means progress
      ensures !closed && e == EOF ==> n == 0 && state == StateDone
      ensures e.Failed? ==> err == Some(e.error)
      ensures e == NoError && p.Length > 0 ==> n > 0
      ensures e == NoError ==> n == p.Length || err.Some? || state == StateDone
      // the end of the message is met only by a call that finds room behind the body
      ensures 0 < n == p.Length ==> state != StateDone
      ensures old(state) == StateDone ==> state == StateDone
      ensures p.Length == 0 && !closed && old(err) == None ==> e == NoError && state == old(state)
      ensures e == NoError && maxBodyBytes > 0 && p.Length > 0 ==> |delivered| <= maxBodyBytes
      ensures r.pos >= old(r.pos) && r.pos + Owed() <= old(r.pos + Owed()) + WIRE_PER_BYTE * n
    {
      hide Residual, Tracks, OverLimit, Decode, BufReader.Valid;
      n := 0;
      if closed {
        return 0, EOF;
      }
      if err.Some? {
        return 0, Failed(err.value);
      }
      if p.Length == 0 {
        return 0, NoError;
      }
      while n < p.Length
        invariant Valid()
        invariant Kept() && FailureCloses()
        invariant err == None && (n == p.Length ==> state != StateDone) && (old(state) == StateDone ==> state == StateDone)
        invariant !closed
        invariant 0 < maxBodyBytes <= |old(delivered)| ==> n == 0
        invariant n <= p.Length && p[n..] == old(p[n..])
        invariant delivered == old(delivered) + p[..n] && (p.Length <= BUFFER_SIZE ==> r.past == old(r.past))
        invariant r.pos >= old(r.pos) && r.pos + Owed() <= old(r.pos + Owed()) + WIRE_PER_BYTE * n
        decreases p.Length - n, state != StateDone, |r.data| - r.pos
      {
        var ok, now := true, false;
        match state {
        case StateChunkSize => ok := SizeStep();
        case StateChunkData =>
          var m;
          ghost var before := p[..n];
          m, ok, now := DataStep(p, n);
          assert p[..n + m] == before + p[n..n + m];
          n := n + m;
        case StateChunkCRLF => ok := CRLFStep();
        case StateTrailerSection => ok := TrailerStep();
        case StateDone =>
          return n, if n > 0 then NoError else EOF;
        }
        if !ok {
          return n, if n > 0 && !now then NoError else Failed(err.value);
        }
      }
      return n, NoError;
    }

    // ----- what the invariant means for whole runs -----

    /** The reference decoder accepts the input and its body is within the limit. */
    ghost predicate Complete() {
      Expected().outcome.Accepted? && (maxBodyBytes > 0 ==> |Expected().body| <= maxBodyBytes)
    }

    /** At every moment of every run: only a prefix of the body was delivered, a complete message never
        fails, an incomplete one never ends, and at its end nothing of the next message was taken. */
    lemma Refines()
      requires Valid()
      ensures delivered <= Expected().body
      ensures Complete() ==> err == None
      ensures state == StateDone ==> Complete()
      ensures state == StateDone ==> Expected() == Decoded(delivered, trailers, Accepted(r.Unread()))
      ensures err.Some? ==> !Complete()
    {
    }

    /** io.ReadAll: buffers of any positive sizes, until end of file or failure. */
    method ReadAll(sizes: nat -> nat) returns (out: bytes, e: Option<Error>)
      requires Valid() && !closed && err == None && forall i :: sizes(i) > 0
      modifies Frame()
      ensures Valid() && delivered == old(delivered) + out
      ensures (forall j :: sizes(j) <= BUFFER_SIZE) ==> r.past == old(r.past)
      ensures e == None <==> Complete()
      ensures e == None ==> Expected() == Decoded(delivered, trailers, Accepted(r.Unread()))
      ensures e.Some? ==> err == e
    {
      hide Residual, Tracks, OverLimit, Decode, BufReader.Valid;
      out := [];
      var i: nat := 0;
      while true
        invariant Valid() && Kept() && !closed
        invariant delivered == old(delivered) + out
        invariant (forall j :: sizes(j) <= BUFFER_SIZE) ==> r.past == old(r.past)
        decreases |Expected().body| - |delivered|
      {
        var p := new byte[sizes(i)];
        var n, result := Read(p);
        Refines();
        out := out + p[..n];
        match result
        case NoError => i := i + 1;
        case EOF => return out, None;
        case Failed(error) => return out, Some(error);
      }
    }

    /** The bounded drain: to the end of the message, to a failure, or to the last byte allowed. */
    method Drain()
      requires Valid() && !closed && err == None
      modifies Frame()
      ensures Valid() && Kept() && FailureCloses()
      ensures Complete() && |Expected().body| < |old(delivered)| + MAX_DRAIN_BYTES ==> state == StateDone
      ensures state == StateDone && old(state) != StateDone ==> Complete() && |Expected().body| < |old(delivered)| + MAX_DRAIN_BYTES
      ensures |delivered| <= |old(delivered)| + MAX_DRAIN_BYTES
      ensures r.pos <= old(r.pos) + OWED_CRLF + WIRE_PER_BYTE * MAX_DRAIN_BYTES
    {
      hide Residual, Tracks, OverLimit, Decode, BufReader.Valid;
      var drained := 0;
      while state != StateDone && drained < MAX_DRAIN_BYTES
        invariant Valid() && Kept() && !closed && FailureCloses()
        invariant drained <= MAX_DRAIN_BYTES && |delivered| == |old(delivered)| + drained
        invariant state == StateDone && old(state) != StateDone ==> drained < MAX_DRAIN_BYTES
        invariant r.pos + Owed() <= old(r.pos + Owed()) + WIRE_PER_BYTE * drained
        decreases MAX_DRAIN_BYTES - drained
      {
        var toDrain := if MAX_DRAIN_BYTES - drained < DRAIN_BUFFER then MAX_DRAIN_BYTES - drained else DRAIN_BUFFER;
        var drainBuf := new byte[toDrain];
        var n, result := Read(drainBuf);
        drained := drained + n;
        Refines();
        if result != NoError {
          break;
        }
      }
      Refines();
    }

    /** Drains what is left of the body, at most MAX_DRAIN_BYTES of it, or gives the connection up. */
    method Close() returns (e: ReadError)
      requires Valid()
      modifies Frame()
      ensures Valid() && closed && closer == old(closer)
      // either the next message starts at the next byte, or the connection is closed
      ensures !old(closed) && state == StateDone ==> Expected() == Decoded(delivered, trailers, Accepted(r.Unread()))
      ensures !old(closed) && closer != null && state != StateDone ==> closer.closed
      // a complete message with less than MAX_DRAIN_BYTES left, and no other, is read to its end
      ensures !old(closed) ==>
                (state == StateDone <==>
                   old(state) == StateDone || (Complete() && |Expected().body| < |old(delivered)| + MAX_DRAIN_BYTES))
      ensures state == StateDone && closer != null ==> closer.closed == old(closer.closed)
      ensures old(state) == StateDone ==> r.past == old(r.past)
      // and the price is bounded, in body bytes and in bytes of the wire
      ensures |delivered| <= |old(delivered)| + MAX_DRAIN_BYTES
      ensures r.pos <= old(r.pos) + OWED_CRLF + WIRE_PER_BYTE * MAX_DRAIN_BYTES
      ensures e == if old(closed) || old(err) == None then NoError else Failed(old(err).value)
    {
      hide Residual, Tracks, OverLimit, Decode, BufReader.Valid;
      Refines();
      if closed {
        return NoError;
      }
      if state == StateDone {
        closed := true;
        return NoError;
      }
      if err.Some? {
        CloseConnection();
        closed := true;
        return Failed(err.value);
      }
      Drain();
      Refines();
      if state != StateDone {
        CloseConnection();
      }
      closed := true;
      return NoError;
    }
  }

  /** An encoded message within the limit is a complete one; a reader that is done with it has delivered
      exactly its chunks and stands exactly at the bytes that follow. */
  lemma StreamingRoundTrip(cr: ChunkedBodyReader, chunks: seq<bytes>, rest: bytes)
    requires cr.Valid() && cr.input == Encode(chunks) + rest
    requires forall i :: 0 <= i < |chunks| ==> 0 < |chunks[i]| <= MAX_INT64
    requires cr.maxBodyBytes > 0 ==> |Concat(chunks)| <= cr.maxBodyBytes
    ensures cr.Complete() && cr.delivered <= Concat(chunks)
    ensures cr.state == StateDone ==> cr.delivered == Concat(chunks) && cr.r.Unread() == rest
  {
    RoundTrip(chunks, rest, cr.r.fin);
    cr.Refines();
  }

  method ParseTrailerSectionLine(line: bytes, used: nat) returns (t: TrailerLine)
    ensures t == ReadTrailerLine(line, used)
  {
    hide ParseTrailer;
    if |line| < 2 || line[|line| - 2] != CR {
      return BadLine(BadRequest);
    }
    var content := line[..|line| - 2];
    if used + |line| > MAX_TRAILER_BYTES {
      return BadLine(HeaderTooLarge);
    }
    if content == [] {
      return EndLine;
    }
    var f := ParseTrailerLine(content);
    t := if f.Some? then FieldLine(f.value) else BadLine(BadRequest);
  }
}
