/** Requests one after the other on one connection: the head, then the body, each reader stopping where the
    next one starts. */
module Pipeline {
  import opened Bytes
  import opened ChunkGrammar
  import opened ChunkedLines
  import opened ChunkedReader
  import opened HeaderFraming
  import opened HeaderParser

  const DEFAULT_BODY_BYTES: nat := 4 * 1024 * 1024

  // ----- what is sent -----

  datatype Body = ChunkedBody(chunks: seq<bytes>) | SizedBody(data: bytes) | Bodiless

  datatype Request = Request(verb: bytes, target: bytes, proto: bytes, fields: seq<Field>, body: Body)

  function RenderBody(body: Body): bytes {
    match body
    case ChunkedBody(chunks) => Encode(chunks)
    case SizedBody(data) => data
    case Bodiless => []
  }

  function ContentOf(body: Body): bytes {
    match body
    case ChunkedBody(chunks) => Concat(chunks)
    case SizedBody(data) => data
    case Bodiless => []
  }

  function FramingOf(body: Body): Framing {
    match body
    case ChunkedBody(_) => Chunked
    case SizedBody(data) => Length(|data|)
    case Bodiless => NoBody
  }

  function StartOf(q: Request): (start: Start)
    ensures start.Start?
  {
    Start(q.verb, q.target, q.proto)
  }

  function RenderHead(q: Request): bytes {
    RenderStart(StartOf(q)) + RenderBlock(q.fields)
  }

  function RenderRequest(q: Request): bytes {
    RenderHead(q) + RenderBody(q.body)
  }

  datatype Options = Options(maxHeaderBytes: int, maxBodyBytes: int)

  function BodyLimit(o: Options): nat {
    if o.maxBodyBytes <= 0 then DEFAULT_BODY_BYTES else o.maxBodyBytes
  }

  /** A request whose fields announce the body it has, within the limits. */
  ghost predicate Fits(q: Request, o: Options, targetOK: TargetCheck) {
    && SendableStart(StartOf(q), targetOK) && (forall i :: 0 <= i < |q.fields| ==> Sendable(q.fields[i]))
    && |RenderHead(q)| <= (if o.maxHeaderBytes > 0 then o.maxHeaderBytes else 8192)
    && Frames(q.fields, FramingOf(q.body))
    && |ContentOf(q.body)| <= (if o.maxBodyBytes > 0 then o.maxBodyBytes else 4 * 1024 * 1024)
    && (q.body.ChunkedBody? ==> forall i :: 0 <= i < |q.body.chunks| ==> 0 < |q.body.chunks[i]| <= MAX_INT64)
  }

  /** A sent request followed by anything: its head is read as it was sent, its framing is the one announced,
      and behind the head stands its body followed by the same bytes. */
  lemma RequestRoundTrip(q: Request, rest: bytes, o: Options, targetOK: TargetCheck)
    requires Fits(q, o, targetOK)
    ensures var s, k := RenderRequest(q) + rest, |RenderHead(q)|;
            && ReadHead(s, Budget(o.maxHeaderBytes), targetOK) == HeadLines(StartOf(q), q.fields, k)
            && (forall f :: Frames(q.fields, f) <==> f == FramingOf(q.body))
            && s[k..] == RenderBody(q.body) + rest
  {
    hide ReadHead, RenderStart, RenderBlock, Sendable, Frames, RenderBody;
    var after := RenderBody(q.body) + rest;
    var s := RenderRequest(q) + rest;
    assert s == RenderHead(q) + after;
    HeadRoundTrip(StartOf(q), q.fields, after, Budget(o.maxHeaderBytes), targetOK);
    forall f | Frames(q.fields, f) ensures f == FramingOf(q.body) {
      FramingIsUnique(q.fields, f, FramingOf(q.body));
    }
  }

  // ----- what is received -----

  datatype RequestError = BadHead(error: HeaderError) | BodyTooLong | BodyCut

  datatype Parsed =
    | Streaming(start: Start, fields: seq<Field>, reader: ChunkedBodyReader)
    | Buffered(start: Start, fields: seq<Field>, data: bytes)
    | NotParsed(error: RequestError)

  lemma TakeMore(s: bytes, k: nat, m: nat)
    requires k + m <= |s|
    ensures s[..k + m] == s[..k] + s[k..][..m] && s[k..][m..] == s[k + m..]
  {
  }

  /** io.ReadFull: n bytes by any short reads, or all there are. */
  method ReadFull(r: BufReader, n: nat) returns (ok: bool, data: bytes)
    requires r.Valid()
    modifies r.Parts()
    ensures r.Valid() && ok == (n <= |old(r.Unread())|)
    ensures data == old(r.Unread())[..if ok then n else |old(r.Unread())|] && r.pos == old(r.pos) + |data|
  {
    hide BufReader.Valid;
    var buf := new byte[n];
    ghost var s := r.Unread();
    var done := 0;
    while done < n
      invariant r.Valid() && done <= n && done <= |s| && r.pos == old(r.pos) + done
      invariant buf[..done] == s[..done]
    {
      var m := r.Read(buf, done, n);
      if m == 0 {
        return false, buf[..done];
      }
      assert buf[..done + m] == buf[..done] + buf[done..done + m];
      TakeMore(s, done, m);
      done := done + m;
    }
    return true, buf[..done];
  }

  /** The head, then a reader for a chunked body, or the bytes of a body of known length. */
  method ParseRequest(r: BufReader, closer: Connection?, o: Options, targetOK: TargetCheck) returns (p: Parsed)
    requires r.Valid()
    modifies r.Parts()
    ensures r.Valid()
    ensures match ReadHead(old(r.Unread()), Budget(o.maxHeaderBytes), targetOK)
            case NoHead(e) => p == NotParsed(BadHead(e))
            case HeadLines(start, fields, k) =>
              k <= |old(r.Unread())| && After(p, start, fields, old(r.Unread())[k..], r, closer, o)
    ensures p.Streaming? ==> fresh(p.reader)
    // no more than the limits, which have defaults
    ensures p.Buffered? ==> |p.data| <= if o.maxBodyBytes > 0 then o.maxBodyBytes else 4 * 1024 * 1024
    ensures p.Streaming? ==> p.reader.maxBodyBytes == if o.maxBodyBytes > 0 then o.maxBodyBytes else 4 * 1024 * 1024
  {
    hide ReadHead, Frames, RefusalOf, EndsBlank, After;
    ghost var s := r.Unread();
    HeadFits(s, Budget(o.maxHeaderBytes), targetOK);
    var h := ParseHeader(r, o.maxHeaderBytes, targetOK);
    if h.NotAHead? {
      ghost var lines := ReadHead(s, Budget(o.maxHeaderBytes), targetOK);
      if lines.HeadLines? {
        RefusedHead(lines.start, lines.fields, s[lines.length..], r, closer, o);
      }
      return NotParsed(BadHead(h.error));
    }
    assert r.Unread() == s[ReadHead(s, Budget(o.maxHeaderBytes), targetOK).length..];
    p := ReadBody(r, closer, o, h.start, h.fields, h.framing);
    AfterWithinLimit(p, h.start, h.fields, s[ReadHead(s, Budget(o.maxHeaderBytes), targetOK).length..], r, closer, o);
  }

  method ReadBody(r: BufReader, closer: Connection?, o: Options, start: Start, fields: seq<Field>, framing: Framing) returns (p: Parsed)
    requires r.Valid() && Frames(fields, framing)
    modifies r.Parts()
    ensures r.Valid() && After(p, start, fields, old(r.Unread()), r, closer, o)
    ensures p.Streaming? ==> fresh(p.reader)
  {
    hide Frames, After;
    if framing == Chunked {
      var reader := new ChunkedBodyReader(r, closer, BodyLimit(o));
      StreamedBody(start, fields, reader, closer, o);
      return Streaming(start, fields, reader);
    }
    if framing == NoBody || framing.n == 0 {
      EmptyBody(start, fields, r, closer, o);
      return Buffered(start, fields, []);
    }
    p := ReadSized(r, closer, o, start, fields, framing.n);
  }

  lemma RefusedHead(start: Start, fields: seq<Field>, body: bytes, r: BufReader, closer: Connection?, o: Options)
    requires r.Valid() && forall f :: !Frames(fields, f)
    ensures After(NotParsed(BadHead(RefusalOf(fields))), start, fields, body, r, closer, o)
  {
    hide Frames, RefusalOf;
  }

  lemma StreamedBody(start: Start, fields: seq<Field>, reader: ChunkedBodyReader, closer: Connection?, o: Options)
    requires reader.Valid() && Frames(fields, Chunked) && reader.closer == closer && reader.maxBodyBytes == BodyLimit(o)
    requires reader.input == reader.r.Unread() && reader.delivered == [] && reader.err == None && !reader.closed
    ensures After(Streaming(start, fields, reader), start, fields, reader.input, reader.r, closer, o)
  {
    hide Frames, RefusalOf;
  }

  lemma EmptyBody(start: Start, fields: seq<Field>, r: BufReader, closer: Connection?, o: Options)
    requires r.Valid() && (Frames(fields, NoBody) || Frames(fields, Length(0)))
    ensures After(Buffered(start, fields, []), start, fields, r.Unread(), r, closer, o)
  {
    hide Frames, RefusalOf;
  }

  /** The bytes of a body of known length, if they are not too many and all come. */
  method ReadSized(r: BufReader, ghost closer: Connection?, o: Options, start: Start, fields: seq<Field>, n: nat) returns (p: Parsed)
    requires r.Valid() && Frames(fields, Length(n))
    modifies r.Parts()
    ensures r.Valid() && !p.Streaming? && After(p, start, fields, old(r.Unread()), r, closer, o)
  {
    hide Frames, RefusalOf;
    ghost var body := r.Unread();
    if n > BodyLimit(o) {
      return NotParsed(BodyTooLong);
    }
    var ok, data := ReadFull(r, n);
    if !ok {
      return NotParsed(BodyCut);
    }
    assert r.Unread() == body[n..];
    return Buffered(start, fields, data);
  }

  lemma HeadFits(s: bytes, budget: nat, targetOK: TargetCheck)
    ensures ReadHead(s, budget, targetOK).HeadLines? ==> ReadHead(s, budget, targetOK).length <= |s|
  {
    hide ReadHead, EndsBlank;
    if ReadHead(s, budget, targetOK).HeadLines? {
      HeadIsLocal(s, budget, targetOK, []);
    }
  }

  /** What follows a head, by the one framing its fields allow. */
  ghost predicate After(p: Parsed, start: Start, fields: seq<Field>, body: bytes, r: BufReader, closer: Connection?, o: Options)
    requires r.Valid()
    reads r.Parts(), if p.Streaming? then {p.reader} + p.reader.r.Parts() else {}
  {
    && (p.Streaming? ==>
          && p.start == start && p.fields == fields && Frames(fields, Chunked)
          && p.reader.r == r && p.reader.closer == closer && p.reader.maxBodyBytes == BodyLimit(o)
          && p.reader.Valid() && p.reader.input == body == r.Unread() && p.reader.delivered == []
          && p.reader.err == None && !p.reader.closed)
    && (p.Buffered? ==>
          && p.start == start && p.fields == fields && (Frames(fields, Length(|p.data|)) || (Frames(fields, NoBody) && p.data == []))
          && |p.data| <= BodyLimit(o) && p.data <= body && r.Unread() == body[|p.data|..])
    && (p.NotParsed? ==>
          match p.error
          case BadHead(e) => e == RefusalOf(fields) && forall f :: !Frames(fields, f)
          case BodyTooLong => exists n: nat :: n > BodyLimit(o) && Frames(fields, Length(n))
          case BodyCut => exists n: nat :: n > |body| && Frames(fields, Length(n)))
  }

  lemma AfterWithinLimit(p: Parsed, start: Start, fields: seq<Field>, body: bytes, r: BufReader, closer: Connection?, o: Options)
    requires r.Valid() && After(p, start, fields, body, r, closer, o)
    ensures var limit := if o.maxBodyBytes > 0 then o.maxBodyBytes else 4 * 1024 * 1024;
            (p.Buffered? ==> |p.data| <= limit) && (p.Streaming? ==> p.reader.maxBodyBytes == limit)
  {
    hide Frames, RefusalOf;
  }

  datatype Received = Received(start: Start, fields: seq<Field>, content: bytes) | Nothing

  function Sent(q: Request): Received {
    Received(StartOf(q), q.fields, ContentOf(q.body))
  }

  /** A chunked body behind its head decodes to its content and stops at the following bytes. */
  lemma ChunkedRoundTrip(q: Request, rest: bytes, fin: Ending, o: Options, targetOK: TargetCheck)
    requires Fits(q, o, targetOK) && FramingOf(q.body) == Chunked
    ensures Decode(RenderBody(q.body) + rest, fin) == Decoded(ContentOf(q.body), [], Accepted(rest))
    ensures |ContentOf(q.body)| <= BodyLimit(o)
  {
    hide SendableStart, Sendable, RenderHead, Frames, Encode, Decode;
    RoundTrip(q.body.chunks, rest, fin);
  }

  /** Bytes read as long as announced are the content. */
  lemma SizedRoundTrip(q: Request, rest: bytes, data: bytes, body: bytes)
    requires FramingOf(q.body) == Length(|data|) || (FramingOf(q.body) == NoBody && data == [])
    requires body == RenderBody(q.body) + rest && data <= body
    ensures data == ContentOf(q.body) && body[|data|..] == rest
  {
    if q.body.SizedBody? {
      assert data == body[..|data|] == q.body.data;
    }
  }

  /** The bytes are a request that fits, followed by rest. */
  ghost predicate Arrives(q: Request, rest: bytes, s: bytes, o: Options, targetOK: TargetCheck) {
    Fits(q, o, targetOK) && s == RenderRequest(q) + rest
  }

  lemma Arrived(q: Request, rest: bytes, s: bytes, o: Options, targetOK: TargetCheck)
    requires Arrives(q, rest, s, o, targetOK)
    ensures Fits(q, o, targetOK) && s == RenderRequest(q) + rest
  {
  }

  /** A request that fits is not refused, neither for its head nor for its body. */
  lemma RefusedDoesNotFit(q: Request, rest: bytes, s: bytes, p: Parsed, r: BufReader, o: Options, targetOK: TargetCheck)
    requires r.Valid() && p.NotParsed?
    requires match ReadHead(s, Budget(o.maxHeaderBytes), targetOK)
             case NoHead(e) => p == NotParsed(BadHead(e))
             case HeadLines(start, fields, k) => k <= |s| && After(p, start, fields, s[k..], r, null, o)
    ensures !Arrives(q, rest, s, o, targetOK)
  {
    hide ReadHead, Frames, SendableStart, Sendable, RenderHead, RefusalOf;
    if Arrives(q, rest, s, o, targetOK) {
      RequestRoundTrip(q, rest, o, targetOK);
    }
  }

  /** One request and the whole of its body. Whatever the sizes of the reads: if a request that fits was
      sent, it is received as it was sent, and the connection stands at what follows it. */
  method ReceiveOne(r: BufReader, o: Options, targetOK: TargetCheck, sizes: nat -> nat) returns (got: Received)
    requires r.Valid() && forall i :: sizes(i) > 0
    modifies r.Parts()
    ensures r.Valid()
    ensures forall q, rest :: Arrives(q, rest, old(r.Unread()), o, targetOK) ==>
                                got == Sent(q) && r.Unread() == rest
    ensures ReadHead(old(r.Unread()), Budget(o.maxHeaderBytes), targetOK).NoHead? ==> got == Nothing
  {
    hide Arrives, Fits, RenderRequest, RenderHead, RenderBody, ReadHead, Frames, ContentOf, FramingOf, Decode,
      FillEnd, Chain, BufReader.Over, BufReader.Accounted;
    ghost var s := r.Unread();
    HeadFits(s, Budget(o.maxHeaderBytes), targetOK);
    var p := ParseRequest(r, null, o, targetOK);
    match p {
      case Streaming(start, fields, reader) =>
        ghost var fin, expected, complete := r.fin, reader.Expected(), reader.Complete();
        forall q, rest | Arrives(q, rest, s, o, targetOK)
          ensures start == StartOf(q) && fields == q.fields && complete
          ensures expected == Decoded(ContentOf(q.body), [], Accepted(rest))
        {
          Arrived(q, rest, s, o, targetOK);
          RequestRoundTrip(q, rest, o, targetOK);
          ChunkedRoundTrip(q, rest, fin, o, targetOK);
        }
        var out, e := reader.ReadAll(sizes);
        got := if e == None then Received(start, fields, out) else Nothing;
      case Buffered(start, fields, data) =>
        forall q, rest | Arrives(q, rest, s, o, targetOK)
          ensures Received(start, fields, data) == Sent(q) && r.Unread() == rest
        {
          Arrived(q, rest, s, o, targetOK);
          RequestRoundTrip(q, rest, o, targetOK);
          SizedRoundTrip(q, rest, data, RenderBody(q.body) + rest);
        }
        got := Received(start, fields, data);
      case NotParsed(_) =>
        forall q, rest ensures !Arrives(q, rest, s, o, targetOK) {
          RefusedDoesNotFit(q, rest, s, p, r, o, targetOK);
        }
        got := Nothing;
    }
  }

  function RenderAll(qs: seq<Request>): bytes {
    if qs == [] then [] else RenderRequest(qs[0]) + RenderAll(qs[1..])
  }

  /** A connection that carries requests that fit, followed by anything, is split into exactly those, and
      stands at what follows the last of them. */
  method ReceiveAll(r: BufReader, o: Options, targetOK: TargetCheck, sizes: nat -> nat, n: nat, ghost qs: seq<Request>, ghost rest: bytes)
    returns (got: seq<Received>)
    requires r.Valid() && forall i :: sizes(i) > 0
    requires |qs| == n && forall i :: 0 <= i < n ==> Fits(qs[i], o, targetOK)
    requires r.Unread() == RenderAll(qs) + rest
    modifies r.Parts()
    ensures r.Valid() && r.Unread() == rest
    ensures |got| == n && forall i :: 0 <= i < n ==> got[i] == Sent(qs[i])
  {
    hide Fits, RenderRequest, Sent;
    got := [];
    for k := 0 to n
      invariant r.Valid() && r.Unread() == RenderAll(qs[k..]) + rest
      invariant |got| == k && forall i :: 0 <= i < k ==> got[i] == Sent(qs[i])
    {
      ghost var tail := RenderAll(qs[k + 1..]) + rest;
      assert qs[k..][1..] == qs[k + 1..] && qs[k..][0] == qs[k];
      assert Arrives(qs[k], tail, r.Unread(), o, targetOK);
      var one := ReceiveOne(r, o, targetOK, sizes);
      got := got + [one];
    }
  }
}
