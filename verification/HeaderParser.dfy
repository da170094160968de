/** Reading a request head from the shared connection: byte by byte, line by line, within a budget. */
module HeaderParser {
  import opened Bytes
  import opened WhiteSpace
  import opened ChunkGrammar
  import opened ChunkedLines
  import opened HeaderFraming
  import opened FramingByRFC

  /** Whether the request target makes a URL; what a URL is stays outside. */
  type TargetCheck = (bytes, bytes, bytes) -> bool

  datatype Start = Start(verb: bytes, target: bytes, proto: bytes) | NoStart(error: HeaderError)

  datatype HeadLines = HeadLines(start: Start, fields: seq<Field>, length: nat) | NoHead(error: HeaderError)

  datatype Head = Head(start: Start, fields: seq<Field>, framing: Framing) | NotAHead(error: HeaderError)

  const HTTP11: bytes := Ascii("HTTP/1.1")
  const HTTP10: bytes := Ascii("HTTP/1.0")

  function ReadStart(line: bytes, targetOK: TargetCheck): Start {
    var content := TrimLineEnding(line);
    var parts := Split(content, SP);
    if CR in content || LF in content || |parts| != 3 then NoStart(Malformed)
    else if parts[2] != HTTP11 && parts[2] != HTTP10 then NoStart(UnknownProtocol)
    else if !targetOK(parts[0], parts[1], parts[2]) then NoStart(Malformed)
    else Start(parts[0], parts[1], parts[2])
  }

  /** The request line, then the block of fields in what is left of the budget. */
  function ReadHead(s: bytes, budget: nat, targetOK: TargetCheck): HeadLines {
    match ScanLine(s, budget)
    case Cut => NoHead(StreamEnded)
    case TooLong => NoHead(TooLarge)
    case Line(n) =>
      var start := ReadStart(s[..n], targetOK);
      if start.NoStart? then NoHead(start.error)
      else
        var block := ReadBlock(s[n..], budget - n);
        if block.NoBlock? then NoHead(block.error) else HeadLines(start, block.fields, n + block.length)
  }

  function Budget(maxHeaderBytes: int): nat {
    if maxHeaderBytes <= 0 then DEFAULT_HEADER_BYTES else maxHeaderBytes
  }

  /** A head takes at most its budget, ends with its empty line, and nothing behind it is looked at. */
  lemma HeadIsLocal(s: bytes, budget: nat, targetOK: TargetCheck, rest: bytes)
    requires ReadHead(s, budget, targetOK).HeadLines?
    ensures var n := ReadHead(s, budget, targetOK).length;
            && 0 < n <= budget && n <= |s| && EndsBlank(s[..n])
            && ReadHead(s[..n] + rest, budget, targetOK) == ReadHead(s, budget, targetOK)
  {
    hide ReadStart, ReadBlock, ScanLine, EndsBlank;
    var k := ScanLine(s, budget).length;
    BlockIsLocal(s[k..], budget - k, rest);
    var n := ReadHead(s, budget, targetOK).length;
    var t := s[..n] + rest;
    assert t[..k] == s[..k] && t[k..] == s[k..][..n - k] + rest;
    LineIsLocal(s, budget, k, t);
    BlankAfterLine(s, k, n);
  }

  /** The fields of a head as they were received. */
  function RawHead(s: bytes, budget: nat): seq<Field> {
    match ScanLine(s, budget)
    case Line(n) => RawFields(s[n..], budget - n)
    case _ => []
  }

  /** Every head the gateway reads: it is framed as the standard frames the received values, but for what
      the gateway does not support and for the unusual spellings it takes. */
  lemma HeadFramedAsRFC(s: bytes, budget: nat, targetOK: TargetCheck, framing: Framing)
    requires ReadHead(s, budget, targetOK).HeadLines?
    ensures var raw := RawHead(s, budget);
            FramesByRFC(raw, framing) && !Unsupported(raw, framing)
            <==> Frames(ReadHead(s, budget, targetOK).fields, framing) && !Unusual(raw)
  {
    hide ReadStart, ReadBlock, RawFields, ScanLine, FramesByRFC, Unsupported, Frames, Unusual, TrimAll;
    var n := ScanLine(s, budget).length;
    BlockIsTrimmed(s[n..], budget - n);
    FramesAsRFC(RawHead(s, budget), framing);
  }

  // ----- the round trip -----

  function RenderStart(start: Start): bytes
    requires start.Start?
  {
    start.verb + [SP] + start.target + [SP] + start.proto + CRLF
  }

  predicate IsWord(w: bytes) {
    SP !in w && CR !in w && LF !in w
  }

  predicate SendableStart(start: Start, targetOK: TargetCheck) {
    && start.Start? && IsWord(start.verb) && IsWord(start.target)
    && (start.proto == HTTP11 || start.proto == HTTP10)
    && targetOK(start.verb, start.target, start.proto)
  }

  lemma SplitOff(w: bytes, rest: bytes)
    requires SP !in w
    ensures Split(w + [SP] + rest, SP) == [w] + Split(rest, SP) && Split(w, SP) == [w]
  {
    var s := w + [SP] + rest;
    IndexOfIs(s, SP, |w|);
    IndexOfIs(w, SP, |w|);
    assert s[..|w|] == w && s[|w| + 1..] == rest;
  }

  lemma StartRoundTrip(start: Start, targetOK: TargetCheck)
    requires SendableStart(start, targetOK)
    ensures ReadStart(RenderStart(start), targetOK) == start
  {
    hide Split, IsWord;
    var last := start.target + [SP] + start.proto;
    var content := start.verb + [SP] + last;
    var line := RenderStart(start);
    assert line == content + CRLF && line[|line| - 2..] == CRLF && line[..|line| - 2] == content;
    ProtocolsAreWords();
    WordsHaveNoBreak(start.verb, start.target, start.proto);
    assert SP !in start.verb && SP !in start.target && SP !in start.proto by {
      WordHasNoSpace(start.verb);
      WordHasNoSpace(start.target);
      WordHasNoSpace(start.proto);
    }
    SplitOff(start.verb, last);
    SplitOff(start.target, start.proto);
    SplitOff(start.proto, []);
  }

  lemma WordHasNoSpace(w: bytes)
    requires IsWord(w)
    ensures SP !in w
  {
  }

  lemma ProtocolsAreWords()
    ensures IsWord(HTTP11) && IsWord(HTTP10)
  {
  }

  lemma WordsHaveNoBreak(a: bytes, b: bytes, c: bytes)
    requires IsWord(a) && IsWord(b) && IsWord(c)
    ensures var s := a + [SP] + (b + [SP] + c); CR !in s && LF !in s
  {
  }

  lemma StartIsLine(start: Start, targetOK: TargetCheck, rest: bytes, budget: nat)
    requires SendableStart(start, targetOK) && |RenderStart(start)| <= budget
    ensures ScanLine(RenderStart(start) + rest, budget) == Line(|RenderStart(start)|)
  {
    hide Split;
    ProtocolsAreWords();
    var last := start.target + [SP] + start.proto;
    var content := start.verb + [SP] + last;
    WordsHaveNoBreak(start.verb, start.target, start.proto);
    var s := RenderStart(start) + rest;
    assert s == content + CRLF + rest;
    IndexOfIs(s, LF, |content| + 1);
  }

  /** A written head followed by anything is read back as it was, up to its last byte. */
  lemma HeadRoundTrip(start: Start, fields: seq<Field>, rest: bytes, budget: nat, targetOK: TargetCheck)
    requires SendableStart(start, targetOK) && forall i :: 0 <= i < |fields| ==> Sendable(fields[i])
    requires |RenderStart(start)| + |RenderBlock(fields)| <= budget
    ensures ReadHead(RenderStart(start) + RenderBlock(fields) + rest, budget, targetOK)
            == HeadLines(start, fields, |RenderStart(start)| + |RenderBlock(fields)|)
  {
    hide RenderStart, RenderBlock, Sendable, ReadStart, ReadBlock, ScanLine;
    var line := RenderStart(start);
    var tail := RenderBlock(fields) + rest;
    var s := line + RenderBlock(fields) + rest;
    assert s == line + tail;
    StartRoundTrip(start, targetOK);
    StartIsLine(start, targetOK, tail, budget);
    assert s[..|line|] == line && s[|line|..] == tail;
    BlockRoundTrip(fields, rest, budget - |line|);
  }

  // ----- the parser -----

  method ReadLineBounded(r: BufReader, maxBytes: nat) returns (line: bytes, scan: LineScan)
    requires r.Valid()
    modifies r.Parts()
    ensures r.Valid() && old(r.pos) <= r.pos <= old(r.pos) + maxBytes + 1
    ensures scan == ScanLine(old(r.Unread()), maxBytes)
    ensures scan.Line? ==> line == old(r.Unread())[..scan.length] && r.pos == old(r.pos) + scan.length
  {
    hide BufReader.Valid;
    ghost var s := r.Unread();
    line := [];
    while true
      invariant r.Valid() && |line| <= maxBytes && |line| <= |s|
      invariant r.pos == old(r.pos) + |line| && line == s[..|line|]
      invariant forall i :: 0 <= i < |line| ==> s[i] != LF
      decreases |r.data| - r.pos
    {
      var b := r.ReadByte();
      if b.None? {
        IndexOfIs(s, LF, |s|);
        return line, Cut;
      }
      line := line + [b.value];
      if |line| > maxBytes {
        return [], TooLong;
      }
      if b.value == LF {
        break;
      }
    }
    IndexOfIs(s, LF, |line| - 1);
    return line, Line(|line|);
  }

  /** One field line that is not empty. */
  method ParseFieldLine(content: bytes) returns (f: Option<Field>)
    ensures f == ParseField(content)
  {
    hide TrimSpace, IsTokenChar;
    if CR in content || LF in content {
      BreaksAreRefused(content);
      return None;
    }
    var colonIdx := IndexOf(content, COLON);
    if colonIdx == |content| {
      return None;
    }
    var k := content[..colonIdx];
    if k == [] {
      return None;
    }
    var token := CheckToken(k);
    if !token {
      return None;
    }
    var afterColon := content[colonIdx + 1..];
    if Lower(k) == TRANSFER_ENCODING && afterColon != [] && afterColon[0] == TAB {
      return None;
    }
    var clean := CheckNoControl(afterColon);
    if !clean {
      return None;
    }
    return Some(Field(k, TrimSpace(afterColon)));
  }

  lemma BreaksAreRefused(content: bytes)
    requires CR in content || LF in content
    ensures ParseField(content) == None
  {
    hide TrimSpace, IndexOf;
    var i := IndexOf(content, COLON);
    var j :| 0 <= j < |content| && (content[j] == CR || content[j] == LF);
    assert !IsTokenChar(CR) && !IsTokenChar(LF) && IsControl(CR) && IsControl(LF);
    if i < |content| {
      if j < i {
        assert content[..i][j] == content[j];
      } else {
        assert content[i] != content[j];
        assert content[i + 1..][j - i - 1] == content[j];
      }
    }
  }

  function After(fields: seq<Field>, used: nat, rest: Block): Block {
    if rest.Block? then Block(fields + rest.fields, used + rest.length) else rest
  }

  /** The field lines, counted against what is left of the budget. */
  method ReadFields(r: BufReader, budget: nat, first: nat) returns (fields: seq<Field>, e: Option<HeaderError>)
    requires r.Valid() && first <= budget
    modifies r.Parts()
    ensures r.Valid() && old(r.pos) <= r.pos <= old(r.pos) + budget - first + 1
    ensures match ReadBlock(old(r.Unread()), budget - first)
            case Block(fs, n) => e == None && fields == fs && r.pos == old(r.pos) + n
            case NoBlock(error) => e == Some(error)
  {
    hide ParseField, ScanLine, TrimLineEnding, ReadBlock, BufReader.Valid;
    ghost var s := r.Unread();
    var headerBytesCount := first;
    fields := [];
    while true
      invariant r.Valid() && first <= headerBytesCount <= budget
      invariant r.pos == old(r.pos) + headerBytesCount - first <= |r.data|
      invariant ReadBlock(s, budget - first)
             == After(fields, headerBytesCount - first, ReadBlock(r.Unread(), budget - headerBytesCount))
      decreases |r.data| - r.pos
    {
      ghost var here := r.Unread();
      var left := budget - headerBytesCount;
      var line, scan := ReadLineBounded(r, left);
      if !scan.Line? {
        NoLineNoBlock(here, left);
        return fields, Some(if scan.Cut? then StreamEnded else TooLarge);
      }
      BlockStep(here, left, scan.length);
      var lineTrimmed := TrimLineEnding(line);
      if lineTrimmed == [] {
        return fields, None;
      }
      headerBytesCount := headerBytesCount + |line|;
      var f := ParseFieldLine(lineTrimmed);
      if f.None? {
        return fields, Some(Malformed);
      }
      assert r.Unread() == here[scan.length..];
      fields := fields + [f.value];
    }
  }

  lemma NoLineNoBlock(s: bytes, budget: nat)
    requires !ScanLine(s, budget).Line?
    ensures ReadBlock(s, budget) == NoBlock(if ScanLine(s, budget).Cut? then StreamEnded else TooLarge)
  {
    hide ScanLine;
  }

  /** A head is accepted with the one framing its fields allow and then exactly its bytes were taken; if
      its fields allow none, or its lines are not in order, it is refused. */
  method ParseHeader(r: BufReader, maxHeaderBytes: int, targetOK: TargetCheck) returns (h: Head)
    requires r.Valid()
    modifies r.Parts()
    ensures r.Valid() && old(r.pos) <= r.pos <= old(r.pos) + (if maxHeaderBytes > 0 then maxHeaderBytes else 8192) + 1
    ensures match ReadHead(old(r.Unread()), Budget(maxHeaderBytes), targetOK)
            case NoHead(error) => h == NotAHead(error)
            case HeadLines(start, fields, n) =>
              && r.pos == old(r.pos) + n && n <= Budget(maxHeaderBytes)
              && (h.Head? ==> h.start == start && h.fields == fields && Frames(fields, h.framing))
              && (h.NotAHead? ==> h.error == RefusalOf(fields) && forall f :: !Frames(fields, f))
  {
    hide ReadBlock, ScanLine, Frames, TrimLineEnding, Split, EndsBlank, RefusalOf, BufReader.Valid;
    ghost var s := r.Unread();
    var budget := Budget(maxHeaderBytes);
    var requestLine, scan := ReadLineBounded(r, budget);
    if !scan.Line? {
      return NotAHead(if scan.Cut? then StreamEnded else TooLarge);
    }
    var requestLineTrimmed := TrimLineEnding(requestLine);
    if CR in requestLineTrimmed || LF in requestLineTrimmed {
      return NotAHead(Malformed);
    }
    var parts := Split(requestLineTrimmed, SP);
    if |parts| != 3 {
      return NotAHead(Malformed);
    }
    var verb, target, proto := parts[0], parts[1], parts[2];
    if proto != HTTP11 && proto != HTTP10 {
      return NotAHead(UnknownProtocol);
    }
    if !targetOK(verb, target, proto) {
      return NotAHead(Malformed);
    }
    assert r.Unread() == s[scan.length..];
    var fields, e := ReadFields(r, budget, |requestLine|);
    if e.Some? {
      return NotAHead(e.value);
    }
    HeadIsLocal(s, budget, targetOK, []);
    var v := DecideFraming(fields);
    h := match v case Framed(framing) => Head(Start(verb, target, proto), fields, framing) case Refused(error) => NotAHead(error);
  }
}
