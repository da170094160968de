/** The chunked transfer coding as the gateway takes it, within its limits: an unlimited one-shot decoder,
    the grammar it accepts, and the round trip with an encoder. */
module ChunkGrammar {
  import opened Bytes
  import opened Numerals
  import opened WhiteSpace

  const MAX_SIZE_LINE: nat := 512
  const MAX_TRAILER_LINE: nat := 1024
  const MAX_CHUNK_EXTENSION_BYTES: nat := 256
  const MAX_TRAILER_BYTES: nat := 4096

  /** How the connection ends once its bytes are used up. */
  datatype Ending = CleanEnd | BrokenEnd

  datatype Error = UnexpectedEOF | BadRequest | HeaderTooLarge | BodyTooLarge | ReadFailure

  function EndError(fin: Ending): Error {
    if fin.CleanEnd? then UnexpectedEOF else ReadFailure
  }

  // ----- lines -----

  datatype LineScan = Line(length: nat) | Cut | TooLong

  /** Reading up to and including a line feed, at most cap bytes. */
  function ScanLine(s: bytes, cap: nat): (r: LineScan)
    ensures r.Line? ==> 0 < r.length <= cap && r.length <= |s|
  {
    var i := IndexOf(s, LF);
    if i < |s| && i < cap then Line(i + 1) else if |s| <= cap then Cut else TooLong
  }

  /** What stands before the CRLF of a line; a bare line feed ends no line. */
  function Content(line: bytes): Option<bytes> {
    if |line| >= 2 && line[|line| - 2] == CR then Some(line[..|line| - 2]) else None
  }

  // ----- the chunk-size line -----

  function HexPrefix(s: bytes): (k: nat)
    ensures k <= |s| && (forall i :: 0 <= i < k ==> IsHexDigit(s[i])) && (k < |s| ==> !IsHexDigit(s[k]))
  {
    if s == [] || !IsHexDigit(s[0]) then 0 else 1 + HexPrefix(s[1..])
  }

  predicate ExtensionOK(e: bytes) {
    e == [] ||
    (var w := BlankPrefix(e);
     w < |e| && e[w] == SEMICOLON && |e| < MAX_CHUNK_EXTENSION_BYTES && NoControl(e[w..]))
  }

  function ParseSize(content: bytes): Option<nat> {
    var k := HexPrefix(content);
    var size := HexValue(content[..k]);
    if k == 0 || size > MAX_INT64 || !ExtensionOK(content[k..]) then None else Some(size)
  }

  /** chunk-size [ BWS ";" ... ]: the size line as a grammar, with the gateway's bounds. */
  ghost predicate SizeLine(content: bytes, size: nat) {
    exists hex: bytes, blank: bytes, ext: bytes ::
      SizeLineParts(content, size, hex, blank, ext)
  }

  ghost predicate SizeLineParts(content: bytes, size: nat, hex: bytes, blank: bytes, ext: bytes) {
    && content == hex + blank + ext
    && Denotes(16, hex, size) && size <= MAX_INT64
    && (ext == [] ==> blank == [])
    && (forall i :: 0 <= i < |blank| ==> IsBlank(blank[i]))
    && (ext != [] ==> ext[0] == SEMICOLON && NoControl(ext) && |blank| + |ext| < MAX_CHUNK_EXTENSION_BYTES)
  }

  lemma HexPrefixIs(s: bytes, k: nat)
    requires k <= |s| && (forall i :: 0 <= i < k ==> IsHexDigit(s[i])) && (k < |s| ==> !IsHexDigit(s[k]))
    ensures HexPrefix(s) == k
  {
  }

  /** The reading of a size line is exactly its grammar. */
  lemma ParseSizeIsGrammar(content: bytes, size: nat)
    ensures ParseSize(content) == Some(size) <==> SizeLine(content, size)
  {
    if ParseSize(content) == Some(size) {
      var k := HexPrefix(content);
      var e := content[k..];
      var w := if e == [] then 0 else BlankPrefix(e);
      HexIff(content[..k], size);
      assert SizeLineParts(content, size, content[..k], e[..w], e[w..]);
    }
    if SizeLine(content, size) {
      var hex, blank, ext :| SizeLineParts(content, size, hex, blank, ext);
      SizeLinePartsParse(content, size, hex, blank, ext);
    }
  }

  lemma SizeLinePartsParse(content: bytes, size: nat, hex: bytes, blank: bytes, ext: bytes)
    requires SizeLineParts(content, size, hex, blank, ext)
    ensures ParseSize(content) == Some(size)
  {
    var k, e := |hex|, blank + ext;
    HexIff(hex, size);
    assert content[..k] == hex && content[k..] == e;
    HexPrefixIs(content, k);
    if ext != [] {
      assert e[|blank|] == ext[0] && e[|blank|..] == ext;
      BlankPrefixIs(e, |blank|);
    }
  }

  /** A chunk-size line at the head of the input: its size and its whole length, or why it is refused. */
  datatype SizeHead = SizeHead(size: nat, length: nat) | BadSize(error: Error)

  function ReadSize(s: bytes, fin: Ending): (h: SizeHead)
    ensures h.SizeHead? ==> 0 < h.length <= |s| && h.length <= MAX_SIZE_LINE && h.size <= MAX_INT64
  {
    match ScanLine(s, MAX_SIZE_LINE)
    case Cut => BadSize(EndError(fin))
    case TooLong => BadSize(BadRequest)
    case Line(n) => SizeOfLine(s[..n])
  }

  function SizeOfLine(line: bytes): (h: SizeHead)
    ensures h.SizeHead? ==> h.length == |line| && h.size <= MAX_INT64
    ensures h.BadSize? ==> h.error == BadRequest
  {
    match Content(line)
    case None => BadSize(BadRequest)
    case Some(content) =>
      match ParseSize(content)
      case None => BadSize(BadRequest)
      case Some(size) => SizeHead(size, |line|)
  }

  // ----- the trailer section -----

  datatype Field = Field(name: bytes, value: bytes)

  predicate ForbiddenTrailer(name: bytes) {
    Lower(name) in [
      Ascii("transfer-encoding"), Ascii("content-length"), Ascii("connection"), Ascii("host"),
      Ascii("keep-alive"), Ascii("te"), Ascii("trailer"), Ascii("trailers"), Ascii("upgrade")]
  }

  function ParseTrailer(content: bytes): Option<Field> {
    var i := IndexOf(content, COLON);
    if i == |content| then None
    else
      var name := TrimSpace(content[..i]);
      var value := TrimSpace(content[i + 1..]);
      if name == [] || ForbiddenTrailer(name) || !IsToken(name) || !NoControl(value) then None
      else Some(Field(name, value))
  }

  /** A trailer line as the gateway knows it: a token before the colon and a clean value behind it, each
      with any white space around it. */
  ghost predicate TrailerField(line: bytes, f: Field) {
    exists a: bytes, b: bytes, c: bytes, d: bytes :: TrailerParts(line, f, a, b, c, d)
  }

  ghost predicate TrailerParts(line: bytes, f: Field, a: bytes, b: bytes, c: bytes, d: bytes) {
    && line == (a + f.name + b) + [COLON] + (c + f.value + d)
    && Spaces(a) && Spaces(b) && Spaces(c) && Spaces(d)
    && f.name != [] && IsToken(f.name) && !ForbiddenTrailer(f.name)
    && Bare(f.value) && NoControl(f.value)
  }

  /** The reading of a trailer line is exactly its grammar. */
  lemma ParseTrailerIsGrammar(line: bytes, f: Field)
    ensures ParseTrailer(line) == Some(f) <==> TrailerField(line, f)
  {
    hide TrimSpace, Spaces, Bare, ForbiddenTrailer, IsToken, NoControl;
    if ParseTrailer(line) == Some(f) {
      var i := IndexOf(line, COLON);
      var a, b := TrimSpaceParts(line[..i]);
      var c, d := TrimSpaceParts(line[i + 1..]);
      assert line == line[..i] + [COLON] + line[i + 1..];
      assert TrailerParts(line, f, a, b, c, d);
    }
    if TrailerField(line, f) {
      var a, b, c, d :| TrailerParts(line, f, a, b, c, d);
      TrailerPartsParse(line, f, a, b, c, d);
    }
  }

  lemma TokenIsBare(k: bytes)
    requires IsToken(k)
    ensures Bare(k) && forall i :: 0 <= i < |k| ==> k[i] != COLON
  {
    hide Bare;
    assert !IsTokenChar(COLON);
    if k != [] {
      assert IsTokenChar(k[0]) && IsTokenChar(k[|k| - 1]);
    }
    VisibleEndsAreBare(k);
  }

  lemma TrailerPartsParse(line: bytes, f: Field, a: bytes, b: bytes, c: bytes, d: bytes)
    requires TrailerParts(line, f, a, b, c, d)
    ensures ParseTrailer(line) == Some(f)
  {
    hide TrimSpace, Spaces, Bare, ForbiddenTrailer, IsToken, NoControl;
    var key := a + f.name + b;
    SpacesAreInvisible(a);
    SpacesAreInvisible(b);
    TokenIsBare(f.name);
    assert forall i :: 0 <= i < |key| ==> line[i] == key[i] != COLON;
    IndexOfIs(line, COLON, |key|);
    assert line[..|key|] == key && line[|key| + 1..] == c + f.value + d;
    TrimSpaceOf(a, f.name, b);
    TrimSpaceOf(c, f.value, d);
  }

  datatype Outcome = Accepted(rest: bytes) | Rejected(error: Error)

  datatype Decoded = Decoded(body: bytes, trailers: seq<Field>, outcome: Outcome)

  datatype TrailerLine = EndLine | FieldLine(field: Field) | BadLine(error: Error)

  /** One complete trailer line, after `used` bytes of earlier ones. */
  function ReadTrailerLine(line: bytes, used: nat): (r: TrailerLine)
    ensures !r.BadLine? ==> used + |line| <= MAX_TRAILER_BYTES
  {
    match Content(line)
    case None => BadLine(BadRequest)
    case Some(content) =>
      if used + |line| > MAX_TRAILER_BYTES then BadLine(HeaderTooLarge)
      else if content == [] then EndLine
      else match ParseTrailer(content)
           case None => BadLine(BadRequest)
           case Some(f) => FieldLine(f)
  }

  function DecodeTrailers(s: bytes, used: nat, fin: Ending): (d: Decoded)
    ensures d.body == []
    decreases |s|
  {
    match ScanLine(s, MAX_TRAILER_LINE)
    case Cut => Decoded([], [], Rejected(EndError(fin)))
    case TooLong => Decoded([], [], Rejected(HeaderTooLarge))
    case Line(n) =>
      match ReadTrailerLine(s[..n], used)
      case BadLine(e) => Decoded([], [], Rejected(e))
      case EndLine => Decoded([], [], Accepted(s[n..]))
      case FieldLine(f) =>
        var d := DecodeTrailers(s[n..], used + n, fin);
        d.(trailers := [f] + d.trailers)
  }

  // ----- the one-shot decoder -----

  function Decode(s: bytes, fin: Ending): Decoded
    decreases |s|, 2
  {
    match ReadSize(s, fin)
    case BadSize(e) => Decoded([], [], Rejected(e))
    case SizeHead(size, n) =>
      if size == 0 then DecodeTrailers(s[n..], 0, fin) else DecodeData(size, s[n..], fin)
  }

  function DecodeData(size: nat, s: bytes, fin: Ending): Decoded
    decreases |s|, 1
  {
    if |s| < size then Decoded(s, [], Rejected(EndError(fin)))
    else
      var d := DecodeCRLF(s[size..], fin);
      d.(body := s[..size] + d.body)
  }

  function DecodeCRLF(s: bytes, fin: Ending): Decoded
    decreases |s|, 0
  {
    if |s| < 2 then Decoded([], [], Rejected(if fin.CleanEnd? then BadRequest else ReadFailure))
    else if s[..2] != CRLF then Decoded([], [], Rejected(BadRequest))
    else Decode(s[2..], fin)
  }

  /** Data may be taken in pieces. */
  lemma DataInPieces(size: nat, s: bytes, k: nat, fin: Ending)
    requires k <= size && k <= |s|
    ensures var d := DecodeData(size - k, s[k..], fin);
            DecodeData(size, s, fin) == d.(body := s[..k] + d.body)
  {
    if |s| < size {
      assert s[..k] + s[k..] == s;
    } else {
      assert s[k..][size - k..] == s[size..];
      assert s[..k] + (s[k..][..size - k] + DecodeCRLF(s[size..], fin).body) == s[..size] + DecodeCRLF(s[size..], fin).body;
    }
  }

  // ----- the grammar -----

  datatype Chunk = Chunk(head: bytes, data: bytes)

  /** A chunked message as the grammar derives it: chunks, the last chunk's line, trailer lines. */
  datatype Message = Message(chunks: seq<Chunk>, last: bytes, trailers: seq<Trailer>)

  datatype Trailer = Trailer(line: bytes, field: Field)

  ghost predicate WellFormedChunk(c: Chunk) {
    c.data != [] && SizeLine(c.head, |c.data|) && |c.head| + 2 <= MAX_SIZE_LINE
  }

  ghost predicate WellFormedTrailer(t: Trailer) {
    t.line != [] && TrailerField(t.line, t.field) && LF !in t.line && |t.line| + 2 <= MAX_TRAILER_LINE
  }

  ghost predicate WellFormed(m: Message) {
    && (forall i :: 0 <= i < |m.chunks| ==> WellFormedChunk(m.chunks[i]))
    && SizeLine(m.last, 0) && |m.last| + 2 <= MAX_SIZE_LINE
    && WellFormedTrailers(m.trailers, 0)
  }

  ghost predicate WellFormedTrailers(ts: seq<Trailer>, used: nat) {
    && (forall i :: 0 <= i < |ts| ==> WellFormedTrailer(ts[i]))
    && used + |RenderTrailers(ts)| <= MAX_TRAILER_BYTES
  }

  function RenderTrailers(ts: seq<Trailer>): bytes {
    if ts == [] then CRLF else ts[0].line + CRLF + RenderTrailers(ts[1..])
  }

  function RenderChunk(c: Chunk): bytes {
    c.head + CRLF + c.data + CRLF
  }

  function Render(m: Message): bytes
    decreases |m.chunks|
  {
    if m.chunks == [] then m.last + CRLF + RenderTrailers(m.trailers)
    else RenderChunk(m.chunks[0]) + Render(m.(chunks := m.chunks[1..]))
  }

  function Body(chunks: seq<Chunk>): bytes {
    if chunks == [] then [] else chunks[0].data + Body(chunks[1..])
  }

  function Fields(ts: seq<Trailer>): seq<Field> {
    if ts == [] then [] else [ts[0].field] + Fields(ts[1..])
  }

  lemma LineOf(content: bytes, rest: bytes, cap: nat)
    requires LF !in content && |content| + 2 <= cap
    ensures var s := content + CRLF + rest;
            && ScanLine(s, cap) == Line(|content| + 2)
            && s[..|content| + 2] == content + CRLF && s[|content| + 2..] == rest
            && Content(content + CRLF) == Some(content)
  {
    var s := content + CRLF + rest;
    assert s[|content| + 1] == LF && s[|content|] == CR;
    assert forall j :: 0 <= j < |content| ==> s[j] == content[j];
    IndexOfIs(s, LF, |content| + 1);
    assert s[..|content| + 2] == content + CRLF;
    assert s[|content| + 2..] == rest;
    assert (content + CRLF)[..|content|] == content;
  }

  lemma SizeLineHasNoLF(content: bytes, size: nat)
    requires SizeLine(content, size)
    ensures LF !in content
  {
    var hex, blank, ext :| SizeLineParts(content, size, hex, blank, ext);
    HexIff(hex, size);
    forall i | 0 <= i < |content| ensures content[i] != LF {
      if i < |hex| { assert content[i] == hex[i]; }
      else if i < |hex| + |blank| { assert content[i] == blank[i - |hex|]; }
      else { assert content[i] == ext[i - |hex| - |blank|]; }
    }
  }

  lemma ReadSizeLine(content: bytes, size: nat, rest: bytes, fin: Ending)
    requires SizeLine(content, size) && |content| + 2 <= MAX_SIZE_LINE
    ensures ReadSize(content + CRLF + rest, fin) == SizeHead(size, |content| + 2)
    ensures (content + CRLF + rest)[|content| + 2..] == rest
  {
    SizeLineHasNoLF(content, size);
    LineOf(content, rest, MAX_SIZE_LINE);
    ParseSizeIsGrammar(content, size);
  }

  /** One trailer line, or the blank line, at the head of the section. */
  lemma TrailerStep(t: Trailer, tail: bytes, used: nat, fin: Ending)
    requires WellFormedTrailer(t) && used + |t.line| + 2 <= MAX_TRAILER_BYTES
    ensures var d := DecodeTrailers(tail, used + |t.line| + 2, fin);
            DecodeTrailers(t.line + CRLF + tail, used, fin) == d.(trailers := [t.field] + d.trailers)
  {
    hide ParseTrailer, ScanLine, TrailerField;
    ParseTrailerIsGrammar(t.line, t.field);
    LineOf(t.line, tail, MAX_TRAILER_LINE);
    assert ReadTrailerLine(t.line + CRLF, used) == FieldLine(t.field);
  }

  lemma TrailersEnd(rest: bytes, used: nat, fin: Ending)
    requires used + 2 <= MAX_TRAILER_BYTES
    ensures DecodeTrailers(CRLF + rest, used, fin) == Decoded([], [], Accepted(rest))
  {
    hide ParseTrailer, TrailerField;
    LineOf([], rest, MAX_TRAILER_LINE);
    assert [] + CRLF + rest == CRLF + rest && [] + CRLF == CRLF;
  }

  lemma {:induction false} TrailersComplete(ts: seq<Trailer>, used: nat, rest: bytes, fin: Ending)
    requires WellFormedTrailers(ts, used)
    ensures DecodeTrailers(RenderTrailers(ts) + rest, used, fin) == Decoded([], Fields(ts), Accepted(rest))
  {
    hide ParseTrailer, TrailerField, DecodeTrailers;
    if ts == [] {
      TrailersEnd(rest, used, fin);
    } else {
      var tail := RenderTrailers(ts[1..]) + rest;
      assert RenderTrailers(ts) + rest == ts[0].line + CRLF + tail;
      TrailerStep(ts[0], tail, used, fin);
      TrailersComplete(ts[1..], used + |ts[0].line| + 2, rest, fin);
    }
  }

  /** Every derivation of the grammar, whatever follows it, decodes to its body and stops exactly at its end. */
  lemma {:induction false} DecodeComplete(m: Message, rest: bytes, fin: Ending)
    requires WellFormed(m)
    ensures Decode(Render(m) + rest, fin) == Decoded(Body(m.chunks), Fields(m.trailers), Accepted(rest))
    decreases |m.chunks|
  {
    hide ParseTrailer, TrailerField, ParseSize, DecodeData, DecodeTrailers;
    if m.chunks == [] {
      var tail := RenderTrailers(m.trailers) + rest;
      assert Render(m) + rest == m.last + CRLF + tail;
      ReadSizeLine(m.last, 0, tail, fin);
      TrailersComplete(m.trailers, 0, rest, fin);
    } else {
      var c, m' := m.chunks[0], m.(chunks := m.chunks[1..]);
      var after := Render(m') + rest;
      assert Render(m) + rest == c.head + CRLF + (c.data + CRLF + after);
      ChunkStep(c, after, fin);
      DecodeComplete(m', rest, fin);
    }
  }

  /** One chunk at the head of the input. */
  lemma ChunkStep(c: Chunk, after: bytes, fin: Ending)
    requires WellFormedChunk(c)
    ensures var d := Decode(after, fin);
            Decode(c.head + CRLF + (c.data + CRLF + after), fin) == d.(body := c.data + d.body)
  {
    hide ParseSize, ReadSize, DecodeTrailers, SizeLine;
    var tail := c.data + CRLF + after;
    ReadSizeLine(c.head, |c.data|, tail, fin);
    assert Decode(c.head + CRLF + tail, fin) == DecodeData(|c.data|, tail, fin);
    assert tail[..|c.data|] == c.data && tail[|c.data|..] == CRLF + after;
    assert (CRLF + after)[..2] == CRLF && (CRLF + after)[2..] == after;
    assert DecodeCRLF(tail[|c.data|..], fin) == Decode(after, fin);
  }

  /** What an accepted trailer section begins with. */
  lemma TrailersAccepted(s: bytes, used: nat, fin: Ending) returns (n: nat, line: bytes)
    requires DecodeTrailers(s, used, fin).outcome.Accepted?
    ensures n == |line| + 2 <= |s| && s[..n] == line + CRLF && LF !in line
    ensures n <= MAX_TRAILER_LINE && used + n <= MAX_TRAILER_BYTES
    ensures line == [] ==> DecodeTrailers(s, used, fin).outcome.rest == s[n..]
    ensures line != [] ==> ParseTrailer(line).Some? &&
                           DecodeTrailers(s[n..], used + n, fin).outcome == DecodeTrailers(s, used, fin).outcome
  {
    hide ParseTrailer, TrailerField, IndexOf;
    n := ScanLine(s, MAX_TRAILER_LINE).length;
    line := Content(s[..n]).value;
    assert s[..n] == line + CRLF;
    assert forall i :: 0 <= i < |line| ==> line[i] == s[i];
  }

  lemma {:induction false} TrailersSound(s: bytes, used: nat, fin: Ending) returns (ts: seq<Trailer>)
    requires DecodeTrailers(s, used, fin).outcome.Accepted?
    ensures WellFormedTrailers(ts, used)
    ensures s == RenderTrailers(ts) + DecodeTrailers(s, used, fin).outcome.rest
    decreases |s|
  {
    hide ParseTrailer, DecodeTrailers, TrailerField;
    var n, line := TrailersAccepted(s, used, fin);
    assert s == s[..n] + s[n..];
    if line == [] {
      ts := [];
    } else {
      var ts' := TrailersSound(s[n..], used + n, fin);
      ParseTrailerIsGrammar(line, ParseTrailer(line).value);
      ts := [Trailer(line, ParseTrailer(line).value)] + ts';
      assert ts[1..] == ts';
      assert RenderTrailers(ts) == line + CRLF + RenderTrailers(ts');
    }
  }

  /** What an accepted input begins with. */
  lemma DecodeAccepted(s: bytes, fin: Ending) returns (head: bytes, size: nat, tail: bytes)
    requires Decode(s, fin).outcome.Accepted?
    ensures s == head + CRLF + tail && SizeLine(head, size) && |head| + 2 <= MAX_SIZE_LINE
    ensures size == 0 ==> Decode(s, fin) == DecodeTrailers(tail, 0, fin)
    ensures size != 0 ==> && size + 2 <= |tail| && tail[size..size + 2] == CRLF
                          && Decode(tail[size + 2..], fin).outcome == Decode(s, fin).outcome
  {
    hide ParseSize, SizeLine, DecodeTrailers;
    var h := ReadSize(s, fin);
    var n := h.length;
    head, size, tail := Content(s[..n]).value, h.size, s[n..];
    assert s[..n] == head + CRLF;
    ParseSizeIsGrammar(head, size);
    if size != 0 {
      assert Decode(s, fin) == DecodeData(size, tail, fin);
      var cr := tail[size..];
      assert DecodeCRLF(cr, fin).outcome == Decode(s, fin).outcome;
      assert cr[..2] == tail[size..size + 2] && cr[2..] == tail[size + 2..];
    }
  }

  lemma ChunkAndAfter(c: Chunk, tail: bytes)
    requires |c.data| + 2 <= |tail| && c.data == tail[..|c.data|] && tail[|c.data|..|c.data| + 2] == CRLF
    ensures c.head + CRLF + tail == RenderChunk(c) + tail[|c.data| + 2..]
  {
    assert tail == c.data + CRLF + tail[|c.data| + 2..];
  }

  lemma LastAlone(last: bytes, ts: seq<Trailer>)
    requires SizeLine(last, 0) && |last| + 2 <= MAX_SIZE_LINE && WellFormedTrailers(ts, 0)
    ensures WellFormed(Message([], last, ts))
    ensures Render(Message([], last, ts)) == last + CRLF + RenderTrailers(ts)
  {
  }

  lemma ChunkInFront(m: Message, c: Chunk)
    requires WellFormed(m) && c.data != [] && SizeLine(c.head, |c.data|) && |c.head| + 2 <= MAX_SIZE_LINE
    ensures WellFormed(m.(chunks := [c] + m.chunks))
    ensures Render(m.(chunks := [c] + m.chunks)) == RenderChunk(c) + Render(m)
  {
    hide SizeLine, WellFormedTrailers;
    var m' := m.(chunks := [c] + m.chunks);
    assert m'.(chunks := m'.chunks[1..]) == m;
    assert forall i :: 0 < i < |m'.chunks| ==> m'.chunks[i] == m.chunks[i - 1];
  }

  /** Whatever the decoder accepts is a derivation of the grammar followed by the unread rest. */
  lemma {:induction false} DecodeSound(s: bytes, fin: Ending) returns (m: Message)
    requires Decode(s, fin).outcome.Accepted?
    ensures WellFormed(m) && s == Render(m) + Decode(s, fin).outcome.rest
    decreases |s|
  {
    hide *;
    var head, size, tail := DecodeAccepted(s, fin);
    if size == 0 {
      var ts := TrailersSound(tail, 0, fin);
      m := Message([], head, ts);
      LastAlone(head, ts);
    } else {
      var data, after := tail[..size], tail[size + 2..];
      var c := Chunk(head, data);
      var m' := DecodeSound(after, fin);
      m := m'.(chunks := [c] + m'.chunks);
      ChunkInFront(m', c);
      ChunkAndAfter(c, tail);
      assert s == RenderChunk(c) + after;
    }
  }

  ghost predicate Derives(s: bytes, m: Message, rest: bytes) {
    WellFormed(m) && s == Render(m) + rest
  }

  /** The decoder accepts exactly the grammar, and its three results are those of the derivation. */
  lemma DecodeIsGrammar(s: bytes, fin: Ending, rest: bytes)
    ensures Decode(s, fin).outcome == Accepted(rest) <==> exists m :: Derives(s, m, rest)
    ensures forall m :: Derives(s, m, rest) ==>
              Decode(s, fin).body == Body(m.chunks) && Decode(s, fin).trailers == Fields(m.trailers)
  {
    hide WellFormed, Decode, Render;
    if Decode(s, fin).outcome == Accepted(rest) {
      var m := DecodeSound(s, fin);
      assert Derives(s, m, rest);
    }
    forall m | Derives(s, m, rest)
      ensures Decode(s, fin) == Decoded(Body(m.chunks), Fields(m.trailers), Accepted(rest))
    {
      DecodeComplete(m, rest, fin);
    }
  }

  // ----- messages cut short -----

  /** How many bytes the accepted message takes. */
  function Taken(s: bytes, d: Decoded): int
    requires d.outcome.Accepted?
  {
    |s| - |d.outcome.rest|
  }

  /** The n-th byte is one of the two behind the data of a chunk. */
  predicate InsideCRLF(s: bytes, n: nat)
    decreases |s|
  {
    var h := ReadSize(s, CleanEnd);
    h.SizeHead? && h.size > 0 && h.length + h.size + 2 <= |s| &&
    (h.length + h.size <= n < h.length + h.size + 2
     || (h.length + h.size + 2 <= n && InsideCRLF(s[h.length..][h.size..][2..], n - h.length - h.size - 2)))
  }

  /** Why a stream that ends after n bytes of a message is refused. */
  function CutError(s: bytes, n: nat, fin: Ending): Error {
    match fin
    case CleanEnd => if InsideCRLF(s, n) then BadRequest else UnexpectedEOF
    case BrokenEnd => ReadFailure
  }

  /** A line of which only a part has come is not there yet; a line that has come is the same. */
  lemma ScanPrefix(s: bytes, cap: nat, n: nat)
    requires ScanLine(s, cap).Line? && n <= |s|
    ensures ScanLine(s[..n], cap) == if n < ScanLine(s, cap).length then Cut else ScanLine(s, cap)
    ensures n >= ScanLine(s, cap).length ==> s[..n][..ScanLine(s, cap).length] == s[..ScanLine(s, cap).length]
  {
    var k := ScanLine(s, cap).length;
    IndexOfIs(s[..n], LF, if n < k then n else k - 1);
  }

  lemma {:induction false} TrailersCutShort(s: bytes, used: nat, fin: Ending, n: nat, fin': Ending)
    requires DecodeTrailers(s, used, fin).outcome.Accepted? && n < Taken(s, DecodeTrailers(s, used, fin)) && n <= |s|
    ensures DecodeTrailers(s[..n], used, fin').outcome == Rejected(EndError(fin'))
    decreases |s|
  {
    hide ScanLine, ReadTrailerLine;
    ScanPrefix(s, MAX_TRAILER_LINE, n);
    var k := ScanLine(s, MAX_TRAILER_LINE).length;
    if n >= k && ReadTrailerLine(s[..k], used).FieldLine? {
      TrailersCutShort(s[k..], used + k, fin, n - k, fin');
      assert s[k..][..n - k] == s[..n][k..];
    }
  }

  lemma SizePrefix(s: bytes, fin: Ending, n: nat, fin': Ending)
    requires ReadSize(s, fin).SizeHead? && n <= |s|
    ensures ReadSize(s[..n], fin') == if n < ReadSize(s, fin).length then BadSize(EndError(fin')) else ReadSize(s, fin)
  {
    hide SizeOfLine, ScanLine;
    ScanPrefix(s, MAX_SIZE_LINE, n);
  }

  /** What an accepted message does behind a size line that is not of the last chunk. */
  lemma DataOutcome(size: nat, tail: bytes, fin: Ending)
    ensures DecodeData(size, tail, fin).outcome.Accepted? ==>
              && size + 2 <= |tail|
              && DecodeData(size, tail, fin).outcome == Decode(tail[size..][2..], fin).outcome
  {
    hide Decode;
    if |tail| >= size {
      assert DecodeData(size, tail, fin).outcome == DecodeCRLF(tail[size..], fin).outcome;
    }
  }

  lemma DataCutShort(size: nat, tail: bytes, fin: Ending, n: nat, fin': Ending)
    requires DecodeData(size, tail, fin).outcome.Accepted? && n <= |tail|
    ensures DecodeData(size, tail[..n], fin').outcome
            == if n < size then Rejected(EndError(fin'))
               else if n < size + 2 then Rejected(if fin'.CleanEnd? then BadRequest else ReadFailure)
               else Decode(tail[size..][2..][..n - size - 2], fin').outcome
  {
    hide Decode;
    if n >= size {
      var end := tail[size..];
      assert tail[..n][size..] == end[..n - size];
      if n - size >= 2 {
        assert end[..n - size][..2] == end[..2] && end[..n - size][2..] == end[2..][..n - size - 2];
      }
    }
  }

  lemma InsideCRLFUnfold(s: bytes, n: nat)
    ensures var h := ReadSize(s, CleanEnd);
            InsideCRLF(s, n)
            <==> h.SizeHead? && h.size > 0 && h.length + h.size + 2 <= |s| &&
                 (h.length + h.size <= n < h.length + h.size + 2
                  || (h.length + h.size + 2 <= n && InsideCRLF(s[h.length..][h.size..][2..], n - h.length - h.size - 2)))
  {
    hide ReadSize;
  }

  /** A message that breaks off anywhere is refused, for its end and nothing else. */
  lemma {:induction false} CutShortIsRefused(s: bytes, fin: Ending, n: nat, fin': Ending)
    requires Decode(s, fin).outcome.Accepted? && n < Taken(s, Decode(s, fin)) && n <= |s|
    ensures Decode(s[..n], fin').outcome == Rejected(CutError(s, n, fin'))
    decreases |s|
  {
    hide DecodeTrailers, ReadSize, DecodeData, InsideCRLF;
    SizePrefix(s, fin, n, fin');
    SizePrefix(s, fin, |s|, CleanEnd);
    assert s[..|s|] == s;
    InsideCRLFUnfold(s, n);
    var k, size := ReadSize(s, fin).length, ReadSize(s, fin).size;
    if n >= k {
      var tail := s[k..];
      assert s[..n][k..] == tail[..n - k];
      if size == 0 {
        TrailersCutShort(tail, 0, fin, n - k, fin');
      } else {
        DataOutcome(size, tail, fin);
        DataCutShort(size, tail, fin, n - k, fin');
        if n - k >= size + 2 {
          CutShortIsRefused(tail[size..][2..], fin, n - k - size - 2, fin');
        }
      }
    }
  }

  // ----- the round trip -----

  function Encode(chunks: seq<bytes>): bytes {
    if chunks == [] then Ascii("0") + CRLF + CRLF
    else NumeralOf(16, |chunks[0]|) + CRLF + chunks[0] + CRLF + Encode(chunks[1..])
  }

  function Concat(chunks: seq<bytes>): bytes {
    if chunks == [] then [] else chunks[0] + Concat(chunks[1..])
  }

  /** The derivation that Encode prints. */
  ghost function Written(chunks: seq<bytes>): (m: Message)
    requires forall i :: 0 <= i < |chunks| ==> 0 < |chunks[i]| <= MAX_INT64
    ensures |m.chunks| == |chunks| && m.last == Ascii("0") && m.trailers == []
  {
    if chunks == [] then Message([], Ascii("0"), [])
    else
      var m := Written(chunks[1..]);
      m.(chunks := [Chunk(NumeralOf(16, |chunks[0]|), chunks[0])] + m.chunks)
  }

  /** Sixteen hexadecimal digits hold 64 bits, of which one is the sign. */
  lemma SixteenDigits()
    ensures Power16(16) == 2 * (MAX_INT64 + 1)
  {
    assert Power16(4) == 0x1_0000;
    assert Power16(8) == 0x1_0000 * Power16(4);
    assert Power16(12) == 0x1_0000 * Power16(8);
    assert Power16(16) == 0x1_0000 * Power16(12);
  }

  lemma HexSizeLine(n: nat)
    requires n <= MAX_INT64
    ensures SizeLine(NumeralOf(16, n), n) && |NumeralOf(16, n)| <= 16
  {
    ShortestDenotes(16, n);
    SixteenDigits();
    HexLength(n, 16, Power16(16));
    assert SizeLineParts(NumeralOf(16, n), n, NumeralOf(16, n), [], []);
  }

  lemma {:induction false} WrittenIs(chunks: seq<bytes>)
    requires forall i :: 0 <= i < |chunks| ==> 0 < |chunks[i]| <= MAX_INT64
    ensures var m := Written(chunks);
            WellFormed(m) && Render(m) == Encode(chunks) && Body(m.chunks) == Concat(chunks)
  {
    hide ParseTrailer, TrailerField, SizeLine;
    var m := Written(chunks);
    if chunks == [] {
      HexSizeLine(0);
      assert NumeralOf(16, 0) == Ascii("0");
      assert WellFormedTrailers([], 0);
    } else {
      var m' := Written(chunks[1..]);
      WrittenIs(chunks[1..]);
      HexSizeLine(|chunks[0]|);
      assert m.(chunks := m.chunks[1..]) == m';
      assert forall i :: 0 < i < |m.chunks| ==> m.chunks[i] == m'.chunks[i - 1];
    }
  }

  /** Decoding what was encoded gives it back and leaves exactly the bytes that follow. */
  lemma RoundTrip(chunks: seq<bytes>, rest: bytes, fin: Ending)
    requires forall i :: 0 <= i < |chunks| ==> 0 < |chunks[i]| <= MAX_INT64
    ensures Decode(Encode(chunks) + rest, fin) == Decoded(Concat(chunks), [], Accepted(rest))
  {
    WrittenIs(chunks);
    DecodeComplete(Written(chunks), rest, fin);
  }
}
