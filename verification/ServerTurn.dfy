/** The body of a request as the server reads it: a body of known length straight from the connection's
    buffer, a chunked one through a second buffer over it. Where the connection stands afterwards. */
module ServerTurn {
  import opened Bytes
  import opened WhiteSpace
  import opened ChunkGrammar
  import opened ChunkedLines
  import opened ChunkedReader
  import opened StreamingBody
  import opened HeaderFraming
  import opened FramingByRFC
  import opened HeaderParser
  import opened Pipeline

  // ----- what is left in the second buffer -----

  /** The connection stands where the second buffer does exactly when nothing is left in it. */
  lemma StandsIff(inner: BufReader)
    requires inner.Valid() && inner.under != null
    ensures inner.under.pos <= |inner.under.data| && inner.under.Unread() == inner.Unread()[|inner.buffered|..]
    ensures inner.under.Unread() == inner.Unread() <==> inner.buffered == []
  {
    hide FillEnd, Chain;
    var br := inner.under;
    assert inner.data == br.data[inner.start..];
    assert br.Unread() == inner.Unread()[|inner.buffered|..];
    assert |br.Unread()| == |inner.Unread()| - |inner.buffered|;
  }

  lemma {:induction false} ChainGrows(br: BufReader, start: nat, j: nat, k: nat)
    requires j <= k
    ensures Chain(br, start, j) <= Chain(br, start, k)
  {
    if j == k {
    } else {
      ChainGrows(br, start, j, k - 1);
    }
  }

  /** One of the fills of a second buffer, each made where the one before it ended, ends after m bytes. */
  ghost predicate SomeFillEnds(br: BufReader, start: nat, m: nat) {
    exists j: nat :: Chain(br, start, j) == m
  }

  /** Unless a read took more than the buffer holds, nothing is left exactly when one of the fills, each made
      where the one before it ended, ends here. */
  lemma ExactFills(inner: BufReader)
    requires inner.Valid() && inner.under != null && inner.pos > 0 && !inner.past
    ensures inner.buffered == [] <==> SomeFillEnds(inner.under, inner.start, inner.pos)
  {
    hide FillEnd;
    if SomeFillEnds(inner.under, inner.start, inner.pos) {
      var j: nat :| Chain(inner.under, inner.start, j) == inner.pos;
      if j < inner.fills {
        ChainGrows(inner.under, inner.start, j, inner.fills - 1);
      } else {
        ChainGrows(inner.under, inner.start, inner.fills, j);
      }
    }
  }

  /** Nothing behind the message had come when a fill was made: nothing is left. */
  lemma NothingBeyond(inner: BufReader)
    requires inner.Valid() && inner.under != null
    requires forall x :: inner.start <= x < inner.start + inner.pos ==> inner.under.Reach(x) <= inner.start + inner.pos
    ensures inner.buffered == []
  {
    hide Chain;
  }

  /** Something always had, and the message is shorter than the buffer: something is left. */
  lemma SomethingBeyond(inner: BufReader)
    requires inner.Valid() && inner.under != null && 0 < inner.pos < BUFFER_SIZE
    requires forall x :: inner.start <= x < inner.start + inner.pos ==> inner.under.Reach(x) > inner.start + inner.pos
    ensures inner.buffered != []
  {
    hide Chain;
  }

  // ----- a chunked body read to its end -----

  /** The bytes of the message that stands here, if one does. */
  ghost function MessageLength(s: bytes, fin: Ending): nat {
    var d := Decode(s, fin);
    if d.outcome.Accepted? && |d.outcome.rest| <= |s| then |s| - |d.outcome.rest| else 0
  }

  lemma MessageIsPrefix(s: bytes, fin: Ending)
    requires Decode(s, fin).outcome.Accepted?
    ensures 0 < MessageLength(s, fin) <= |s| && Decode(s, fin).outcome.rest == s[MessageLength(s, fin)..]
  {
    hide Decode;
    var m := DecodeSound(s, fin);
    var rest := Decode(s, fin).outcome.rest;
    RenderedIsSomething(m);
    assert s == Render(m) + rest;
  }

  lemma RenderedIsSomething(m: Message)
    ensures Render(m) != []
  {
  }

  /** Where a connection stands, from which a second buffer took a message and maybe more. */
  ghost predicate StandsBehind(br: BufReader, pos: nat, s: bytes, fin: Ending, small: bool)
    reads br
  {
    var m := MessageLength(s, fin);
    && br.pos <= |br.data| && m <= |s|
    // inside what follows the message, less than a buffer's length
    && |s| - m - BUFFER_SIZE < |br.Unread()| <= |s| - m && br.Unread() == s[|s| - |br.Unread()|..]
    // for a message that fits the buffer, and for every one in small reads: at what follows exactly when a
    // fill ended with the message
    && (m <= BUFFER_SIZE || small ==> (br.Unread() == s[m..] <==> SomeFillEnds(br, pos, m)))
    // for every message: if nothing behind it had come when a fill was made
    && ((forall x :: pos <= x < pos + m ==> br.Reach(x) <= pos + m) ==> br.Unread() == s[m..])
    // and if everything had come and fits the buffer, nothing is left to read
    && ((forall x :: pos <= x < pos + m ==> br.Reach(x) == pos + |s|) && |s| <= BUFFER_SIZE ==> br.Unread() == [])
  }

  /** A second buffer that handed on a whole message leaves the connection so. */
  lemma BehindMessage(inner: BufReader, s: bytes, small: bool)
    requires inner.Valid() && inner.under != null && inner.data == s && Decode(s, inner.fin).outcome == Accepted(inner.Unread())
    requires small ==> !inner.past
    ensures StandsBehind(inner.under, inner.start, s, inner.fin, small)
  {
    hide Decode, FillEnd, SomeFillEnds;
    var br, m := inner.under, MessageLength(s, inner.fin);
    MessageIsPrefix(s, inner.fin);
    assert inner.pos == m;
    StandsIff(inner);
    if m <= BUFFER_SIZE || small {
      ExactFills(inner);
    }
    if forall x :: inner.start <= x < inner.start + m ==> br.Reach(x) <= inner.start + m {
      NothingBeyond(inner);
    }
    if (forall x :: inner.start <= x < inner.start + m ==> br.Reach(x) == inner.start + |s|) && |s| <= BUFFER_SIZE {
      AllTaken(inner);
    }
    LessThanBuffer(inner);
    assert br.Unread() == s[m + |inner.buffered|..];
  }

  lemma AllTaken(inner: BufReader)
    requires inner.Valid() && inner.under != null && inner.pos > 0 && |inner.data| <= BUFFER_SIZE
    requires forall x :: inner.start <= x < inner.start + inner.pos ==> inner.under.Reach(x) == inner.start + |inner.data|
    ensures |inner.buffered| == |inner.data| - inner.pos
  {
    hide Chain;
  }

  lemma LessThanBuffer(inner: BufReader)
    requires inner.Valid() && inner.under != null
    ensures |inner.buffered| < BUFFER_SIZE
  {
    hide Chain;
  }

  /** A chunked body through a second buffer, by reads of any sizes: it is delivered whole exactly when the
      message is complete and within the limit, and then the connection stands as StandsBehind says. */
  method ReadChunkedBody(br: BufReader, conn: Connection?, limit: nat, sizes: nat -> nat)
    returns (out: bytes, e: Option<Error>)
    requires br.Valid() && br.under == null && limit > 0 && forall i :: sizes(i) > 0
    modifies br, if conn == null then {} else {conn}
    ensures br.Valid()
    ensures var d := Decode(old(br.Unread()), br.fin);
            && (e == None <==> d.outcome.Accepted? && |d.body| <= limit)
            && (e == None ==> out == d.body && StandsBehind(br, old(br.pos), old(br.Unread()), br.fin, forall i :: sizes(i) <= BUFFER_SIZE))
  {
    hide Decode, StandsBehind, FillEnd, Chain;
    ghost var s := br.Unread();
    var chunkedBufr := new BufReader.Behind(br);
    var reader := new ChunkedBodyReader(chunkedBufr, conn, limit);
    out, e := reader.ReadAll(sizes);
    UnderIsValid(chunkedBufr);
    if e == None {
      BehindMessage(chunkedBufr, s, forall i :: sizes(i) <= BUFFER_SIZE);
    }
  }

  lemma UnderIsValid(inner: BufReader)
    requires inner.Valid() && inner.under != null
    ensures inner.under.Valid()
  {
    hide FillEnd, Chain;
  }

  // ----- one turn of the connection -----

  datatype Fate = Kept | Ended

  predicate InSmallReads(wanted: seq<nat>) {
    forall i :: 0 <= i < |wanted| ==> wanted[i] <= BUFFER_SIZE
  }

  /** How many bytes the handler's reads ask for. */
  function AskedFor(wanted: seq<nat>): nat {
    if wanted == [] then 0 else AskedFor(wanted[..|wanted| - 1]) + wanted[|wanted| - 1]
  }

  /** How many of them ask for any. */
  function Asks(wanted: seq<nat>): nat {
    if wanted == [] then 0 else Asks(wanted[..|wanted| - 1]) + if wanted[|wanted| - 1] > 0 then 1 else 0
  }

  lemma {:induction false} AskedForGrows(wanted: seq<nat>, i: nat)
    requires i <= |wanted|
    ensures AskedFor(wanted[..i]) <= AskedFor(wanted) && Asks(wanted[..i]) <= Asks(wanted)
  {
    if i == |wanted| {
      assert wanted[..i] == wanted;
    } else {
      AskedForGrows(wanted[..|wanted| - 1], i);
      assert wanted[..|wanted| - 1][..i] == wanted[..i];
    }
  }

  /** A chunked body that is read for so many bytes keeps the connection: a complete message within the limit,
      asked for beyond its last byte, or, behind an error response, short of that by less than the drain. */
  ghost predicate KeepsChunked(s: bytes, fin: Ending, limit: nat, asked: nat, status: int) {
    var d := Decode(s, fin);
    && d.outcome.Accepted? && |d.body| <= limit
    && |d.body| < asked + if status >= 400 then MAX_DRAIN_BYTES else 0
  }

  /** The handler wanted a chunked body as far as it likes; then the body is closed. */
  method ChunkedTurn(br: BufReader, conn: Connection, limit: nat, wanted: seq<nat>, status: int) returns (fate: Fate)
    requires br.Valid() && br.under == null && limit > 0
    modifies br, conn
    ensures br.Valid()
    ensures fate == Kept <==> KeepsChunked(old(br.Unread()), br.fin, limit, AskedFor(wanted), status)
    ensures fate == Kept ==> StandsBehind(br, old(br.pos), old(br.Unread()), br.fin, status < 400 && InSmallReads(wanted))
    ensures fate == Kept ==> conn.closed == old(conn.closed)
    ensures fate == Ended ==> conn.closed
  {
    hide Decode, StandsBehind, FillEnd, Chain;
    ghost var s := br.Unread();
    var chunkedBufr := new BufReader.Behind(br);
    var reader := new ChunkedBodyReader(chunkedBufr, conn, limit);
    ReadSome(reader, wanted);
    fate := FinishBody(reader, conn, status);
    UnderIsValid(chunkedBufr);
    if fate == Kept {
      BehindMessage(chunkedBufr, s, status < 400 && InSmallReads(wanted));
    }
  }

  /** The handler's reads, until one of them brings an end or a failure. */
  method ReadSome(reader: ChunkedBodyReader, wanted: seq<nat>)
    requires reader.Valid() && !reader.closed && reader.err == None && reader.state != StateDone && reader.delivered == []
    modifies reader.Frame()
    ensures reader.Valid() && !reader.closed && reader.closer == old(reader.closer)
    ensures reader.state == StateDone <==> reader.Complete() && |reader.Expected().body| < AskedFor(wanted)
    ensures reader.Complete() && reader.state != StateDone ==> |reader.delivered| == AskedFor(wanted)
    ensures reader.Complete() && reader.closer != null ==> reader.closer.closed == old(reader.closer.closed)
    ensures InSmallReads(wanted) ==> reader.r.past == old(reader.r.past)
  {
    hide ChunkedBodyReader.Valid, ChunkedBodyReader.Complete, Decode, FillEnd, Chain;
    reader.Refines();
    for i := 0 to |wanted|
      invariant reader.Valid() && !reader.closed && reader.closer == old(reader.closer)
      invariant InSmallReads(wanted) ==> reader.r.past == old(reader.r.past)
      invariant reader.Complete() ==> reader.err == None
      invariant reader.Complete() && reader.closer != null ==> reader.closer.closed == old(reader.closer.closed)
      invariant reader.state == StateDone ==> reader.Complete() && |reader.Expected().body| < AskedFor(wanted[..i])
      invariant reader.Complete() && reader.state != StateDone ==> |reader.delivered| == AskedFor(wanted[..i])
    {
      assert wanted[..i + 1][..i] == wanted[..i];
      AskedForGrows(wanted, i + 1);
      var p := new byte[wanted[i]];
      var n, result := reader.Read(p);
      reader.Refines();
      if result != NoError {
        return;
      }
    }
    assert wanted[..|wanted|] == wanted;
    reader.Refines();
  }

  /** Closing the body: an unread one ends the connection, unless the response reports an error and the rest
      can be drained. */
  method FinishBody(reader: ChunkedBodyReader, conn: Connection, status: int) returns (fate: Fate)
    requires reader.Valid() && !reader.closed && reader.closer == conn
    modifies reader.Frame()
    ensures reader.Valid()
    ensures fate == Kept <==>
              old(reader.state) == StateDone
              || (status >= 400 && reader.Complete() && |reader.Expected().body| < |old(reader.delivered)| + MAX_DRAIN_BYTES)
    ensures fate == Kept ==> reader.Complete() && reader.Expected().outcome == Accepted(reader.r.Unread())
    ensures fate == Kept ==> conn.closed == old(conn.closed)
    ensures fate == Ended ==> conn.closed
    ensures fate == Kept && status < 400 ==> reader.r.past == old(reader.r.past)
  {
    hide Decode, FillEnd, Chain;
    var done := reader.IsEOF();
    if !done && status < 400 {
      var e := reader.Close();
      conn.Close();
      return Ended;
    }
    var e := reader.Close();
    done := reader.IsEOF();
    if !done {
      conn.Close();
      return Ended;
    }
    reader.Refines();
    return Kept;
  }

  /** The same reads of a body of known length: each that asks for bytes gets some while there are any. */
  method ReadSomeSized(body: StreamingBodyReader, wanted: seq<nat>)
    requires body.Valid() && !body.closed && body.totalRead == 0 && body.closer == null && 0 < body.contentLength <= body.limit
    modifies body.Frame()
    ensures body.Valid() && !body.closed && body.r.pos == old(body.r.pos) + body.totalRead
    ensures body.totalRead <= body.contentLength && body.totalRead <= AskedFor(wanted)
    ensures body.totalRead < body.contentLength && body.totalRead < |body.input| ==> Asks(wanted) <= body.totalRead
  {
    hide StreamingBodyReader.Valid;
    for i := 0 to |wanted|
      invariant body.Valid() && !body.closed && body.r.pos == old(body.r.pos) + body.totalRead
      invariant body.totalRead <= body.contentLength && body.totalRead <= AskedFor(wanted[..i])
      invariant body.totalRead < body.contentLength && body.totalRead < |body.input| ==> Asks(wanted[..i]) <= body.totalRead
    {
      assert wanted[..i + 1][..i] == wanted[..i];
      AskedForGrows(wanted, i + 1);
      var p := new byte[wanted[i]];
      var n, result := body.Read(p);
      WithinLength(body);
      if result != NoError {
        return;
      }
    }
    assert wanted[..|wanted|] == wanted;
  }

  lemma WithinLength(body: StreamingBodyReader)
    requires body.Valid() && 0 < body.contentLength <= body.limit
    ensures body.totalRead <= body.contentLength
  {
  }

  /** A body of known length, which shares the connection's buffer: it keeps the connection exactly when the
      handler took all of it. */
  method SizedTurn(br: BufReader, conn: Connection, limit: nat, length: nat, wanted: seq<nat>, status: int) returns (fate: Fate)
    requires br.Valid() && br.under == null && 0 < length <= limit
    modifies br, conn
    ensures br.Valid() && old(br.pos) <= br.pos <= old(br.pos) + length
    ensures fate == Kept <==> br.pos == old(br.pos) + length
    ensures br.pos - old(br.pos) <= AskedFor(wanted)
    ensures br.pos - old(br.pos) < length && br.Unread() != [] ==> Asks(wanted) <= br.pos - old(br.pos)
    ensures fate == Kept ==> conn.closed == old(conn.closed)
    ensures fate == Ended && status < 400 ==> conn.closed
  {
    hide FillEnd, Chain;
    var body := new StreamingBodyReader(br, limit, length, null);
    ReadSomeSized(body, wanted);
    if body.totalRead < length && status < 400 {
      body.Close();
      conn.Close();
      return Ended;
    }
    body.Close();
    return if body.totalRead < length then Ended else Kept;
  }

  /** The body's part of one turn, and exactly when it keeps the connection: when nobody asked to close it, and
      there is no body, or all of one of known length was taken, or a chunked one was read or drained to its
      end. A connection that is kept stands at the next request: behind a body of known length, or none,
      always; behind a chunked one as StandsBehind says. */
  method Turn(br: BufReader, conn: Connection, framing: Framing, limit: nat, wanted: seq<nat>, status: int, closeAsked: bool)
    returns (fate: Fate)
    requires br.Valid() && br.under == null && limit > 0 && (framing.Length? ==> framing.n <= limit)
    modifies br, conn
    ensures br.Valid()
    ensures fate == Kept <==>
              && !closeAsked
              && match framing
                 case Chunked => KeepsChunked(old(br.Unread()), br.fin, limit, AskedFor(wanted), status)
                 case Length(n) => br.pos == old(br.pos) + n
                 case NoBody => true
    ensures fate == Kept ==>
              match framing
              case Chunked => StandsBehind(br, old(br.pos), old(br.Unread()), br.fin, status < 400 && InSmallReads(wanted))
              case Length(n) => n <= |old(br.Unread())| && br.Unread() == old(br.Unread())[n..]
              case NoBody => br.Unread() == old(br.Unread())
    ensures framing.Length? && br.pos - old(br.pos) < framing.n && br.Unread() != [] ==> Asks(wanted) <= br.pos - old(br.pos)
    ensures fate == Kept ==> conn.closed == old(conn.closed)
  {
    hide Decode, StandsBehind, KeepsChunked, FillEnd, Chain;
    fate := Kept;
    if framing == Chunked {
      fate := ChunkedTurn(br, conn, limit, wanted, status);
    } else if framing.Length? && framing.n > 0 {
      fate := SizedTurn(br, conn, limit, framing.n, wanted, status);
    }
    if closeAsked {
      fate := Ended;
    }
  }

  // ----- a request that is lost -----

  /** Two requests that fit arrive together, the first with a chunked body. The first is received as it was
      sent, and nothing of the second, though one shared buffer would have given both. */
  method LostRequest(first: Request, second: Request, o: Options, targetOK: TargetCheck, sizes: nat -> nat)
    returns (got: Received, next: Received)
    requires Fits(first, o, targetOK) && first.body.ChunkedBody? && Fits(second, o, targetOK) && BodyLimit(o) > 0
    requires |RenderBody(first.body) + RenderRequest(second)| <= BUFFER_SIZE && forall i :: sizes(i) > 0
    ensures got == Sent(first) && next == Nothing
  {
    hide Fits, RenderHead, RenderBody, Decode, ReadHead, ContentOf, Frames, RefusalOf, EndsBlank, StandsBehind;
    var wire := RenderRequest(first) + RenderRequest(second);
    var br := new BufReader(wire, CleanEnd, _ => |wire|);
    RequestRoundTrip(first, RenderRequest(second), o, targetOK);
    ChunkedRoundTrip(first, RenderRequest(second), CleanEnd, o, targetOK);
    assert br.Unread() == wire;
    var h := ParseHeader(br, o.maxHeaderBytes, targetOK);
    ghost var s := RenderBody(first.body) + RenderRequest(second);
    assert Frames(first.fields, FramingOf(first.body));
    assert br.Unread() == s;
    var out, e := ReadChunkedBody(br, null, BodyLimit(o), sizes);
    got := Received(h.start, h.fields, out);
    NothingLeft(br, |wire| - |s|, s, forall i :: sizes(i) <= BUFFER_SIZE);
    EmptyIsNoHead(Budget(o.maxHeaderBytes), targetOK);
    next := ReceiveOne(br, o, targetOK, sizes);
  }

  lemma NothingLeft(br: BufReader, pos: nat, s: bytes, small: bool)
    requires br.pos <= |br.data| && StandsBehind(br, pos, s, br.fin, small) && |s| <= BUFFER_SIZE && |br.data| == pos + |s|
    requires forall x: nat :: br.arrived(x) == |br.data|
    ensures br.Unread() == []
  {
    hide Chain, MessageLength;
    assert forall x :: pos <= x < pos + MessageLength(s, br.fin) ==> br.Reach(x) == pos + |s|;
  }

  lemma EmptyIsNoHead(budget: nat, targetOK: TargetCheck)
    ensures ReadHead([], budget, targetOK).NoHead?
  {
  }

  // ----- and such requests there are -----

  function ChunkedRequest(): Request {
    Request([0x50], [0x2F], HTTP11, [Field(TRANSFER_ENCODING, CHUNKED)], ChunkedBody([]))
  }

  function PlainRequest(): Request {
    Request([0x50], [0x2F], HTTP11, [], Bodiless)
  }

  predicate AnyTarget(verb: bytes, target: bytes, proto: bytes) {
    true
  }

  lemma BothFit()
    ensures Fits(ChunkedRequest(), Options(0, 0), AnyTarget) && Fits(PlainRequest(), Options(0, 0), AnyTarget)
    ensures |RenderBody(ChunkedRequest().body) + RenderRequest(PlainRequest())| <= BUFFER_SIZE
    ensures ChunkedRequest().body.ChunkedBody? && BodyLimit(Options(0, 0)) > 0
  {
    hide Sendable, RenderField, Frames, IsWord;
    var f := Field(TRANSFER_ENCODING, CHUNKED);
    Words();
    FieldIsSendable(f);
    ChunkedIsFramed(f);
    NothingIsFramed();
    assert |RenderBlock([])| == 2 && |RenderBlock([f])| <= 100 by {
      assert [f][1..] == [];
      FieldIsShort(f);
    }
    assert |RenderStart(StartOf(PlainRequest()))| <= 100;
    assert |Encode([])| == 5;
  }

  lemma Words()
    ensures IsWord([0x50]) && IsWord([0x2F]) && |HTTP11| == 8
  {
  }

  lemma FieldIsShort(f: Field)
    requires |f.name| <= 40 && |f.value| <= 40
    ensures |RenderField(f)| <= 90
  {
  }

  lemma FieldIsSendable(f: Field)
    requires f == Field(TRANSFER_ENCODING, CHUNKED)
    ensures Sendable(f)
  {
    hide TrimSpace, Bare;
    VisibleEndsAreBare(CHUNKED);
    BareIsTrimmed(CHUNKED);
    LettersAndDash();
  }

  lemma LettersAndDash()
    ensures IsToken(TRANSFER_ENCODING) && NoControl(CHUNKED)
  {
  }

  lemma ChunkedIsFramed(f: Field)
    requires f == Field(TRANSFER_ENCODING, CHUNKED)
    ensures Frames([f], Chunked)
  {
    hide TrimSpace, Bare, Lower, LowerCoding, CodingsIn, SpellingsIn, RfcItems, KelvinSpelling, Split;
    NamesAreLower();
    OneField(TRANSFER_ENCODING, CHUNKED, CONTENT_LENGTH);
    ChunkedIsChunked();
    ChunkedSpellings(CHUNKED);
    ChunkedIsOneItem();
    OneItem(CHUNKED);
    CodingsOfSpellings([CHUNKED]);
  }

  lemma ChunkedIsOneItem()
    ensures COMMA !in CHUNKED && Bare(CHUNKED) && !IsBlank(CHUNKED[0]) && !IsBlank(CHUNKED[6])
  {
    hide Bare;
    VisibleEndsAreBare(CHUNKED);
  }

  lemma NothingIsFramed()
    ensures Frames([], NoBody)
  {
  }

  /** A connection on which the second of two requests is lost. */
  method LostExample() returns (got: Received, next: Received)
    ensures Fits(PlainRequest(), Options(0, 0), AnyTarget)
    ensures got == Sent(ChunkedRequest()) && next == Nothing
  {
    hide *;
    BothFit();
    got, next := LostRequest(ChunkedRequest(), PlainRequest(), Options(0, 0), AnyTarget, _ => 512);
  }
}
