/** Which request heads are accepted, as a grammar of lines that does not mention the parser, and how the
    fields a sender writes are framed. */
module HeadGrammar {
  import opened Bytes
  import opened Numerals
  import opened WhiteSpace
  import opened ChunkGrammar
  import opened HeaderFraming
  import opened HeaderParser

  // ----- splitting -----

  function Joined(parts: seq<bytes>, sep: byte): bytes {
    if parts == [] then [] else if |parts| == 1 then parts[0] else parts[0] + [sep] + Joined(parts[1..], sep)
  }

  ghost predicate Without(parts: seq<bytes>, sep: byte) {
    parts != [] && forall i :: 0 <= i < |parts| ==> sep !in parts[i]
  }

  lemma SplitUnfold(s: bytes, sep: byte)
    ensures var i := IndexOf(s, sep); Split(s, sep) == if i == |s| then [s] else [s[..i]] + Split(s[i + 1..], sep)
  {
    hide IndexOf;
  }

  lemma {:induction false} SplitJoins(s: bytes, sep: byte)
    ensures Joined(Split(s, sep), sep) == s && Without(Split(s, sep), sep)
    decreases |s|
  {
    hide IndexOf, Split;
    var i := IndexOf(s, sep);
    SplitUnfold(s, sep);
    if i == |s| {
    } else {
      SplitJoins(s[i + 1..], sep);
      var rest := Split(s[i + 1..], sep);
      assert ([s[..i]] + rest)[1..] == rest;
      assert s == s[..i] + [sep] + s[i + 1..];
    }
  }

  lemma {:induction false} SplitOfJoined(parts: seq<bytes>, sep: byte)
    requires Without(parts, sep)
    ensures Split(Joined(parts, sep), sep) == parts
    decreases |parts|
  {
    hide IndexOf, Split;
    var first := parts[0];
    var s := Joined(parts, sep);
    SplitUnfold(s, sep);
    assert sep !in first;
    if |parts| == 1 {
      IndexOfIs(s, sep, |s|);
    } else {
      var rest := Joined(parts[1..], sep);
      assert s == first + [sep] + rest;
      IndexOfIs(s, sep, |first|);
      assert s[..|first|] == first && s[|first| + 1..] == rest;
      SplitOfJoined(parts[1..], sep);
    }
  }

  /** Splitting is the one way to write a text as parts without separators, joined by them. */
  lemma SplitIff(s: bytes, sep: byte, parts: seq<bytes>)
    ensures Split(s, sep) == parts <==> Without(parts, sep) && s == Joined(parts, sep)
  {
    hide Split;
    SplitJoins(s, sep);
    if Without(parts, sep) {
      SplitOfJoined(parts, sep);
    }
  }

  // ----- lines -----

  /** A line and how it ends: with CRLF, or with LF alone. */
  datatype HeadLine = HeadLine(content: bytes, bare: bool)

  predicate IsLine(l: HeadLine) {
    LF !in l.content && (l.bare && l.content != [] ==> l.content[|l.content| - 1] != CR)
  }

  function RenderLine(l: HeadLine): bytes {
    l.content + if l.bare then [LF] else CRLF
  }

  /** A line that fits is found, whatever follows it. */
  lemma LineIsScanned(l: HeadLine, rest: bytes, cap: nat)
    requires IsLine(l) && |RenderLine(l)| <= cap
    ensures var s, k := RenderLine(l) + rest, |RenderLine(l)|;
            ScanLine(s, cap) == Line(k) && s[..k] == RenderLine(l) && s[k..] == rest
    ensures TrimLineEnding(RenderLine(l)) == l.content
  {
    var s, k := RenderLine(l) + rest, |RenderLine(l)|;
    assert forall i :: 0 <= i < |l.content| ==> s[i] == l.content[i];
    IndexOfIs(s, LF, k - 1);
    var line := RenderLine(l);
    if l.bare {
      assert line[k - 1..] == [LF];
      if k >= 2 {
        assert line[k - 2..][0] == l.content[|l.content| - 1];
      }
    } else {
      assert line[k - 2..] == CRLF;
    }
  }

  /** What is found is a line. */
  lemma ScannedIsLine(s: bytes, cap: nat) returns (l: HeadLine)
    requires ScanLine(s, cap).Line?
    ensures IsLine(l) && RenderLine(l) == s[..ScanLine(s, cap).length] && |RenderLine(l)| <= cap
    ensures l.content == TrimLineEnding(s[..ScanLine(s, cap).length])
  {
    var k := ScanLine(s, cap).length;
    var line := s[..k];
    assert forall i :: 0 <= i < k - 1 ==> line[i] == s[i] != LF;
    if k >= 2 && line[k - 2] == CR {
      assert line[k - 2..] == CRLF;
      l := HeadLine(line[..k - 2], false);
    } else {
      assert k >= 2 ==> line[k - 2..] != CRLF by {
        if k >= 2 {
          assert line[k - 2..][0] == line[k - 2];
        }
      }
      l := HeadLine(line[..k - 1], true);
    }
  }

  // ----- field lines -----

  /** A token right before the colon, and behind it a value without control characters, white space around
      it; but no tab right behind the colon of a Transfer-Encoding. */
  ghost predicate FieldContent(content: bytes, f: Field) {
    exists a: bytes, b: bytes :: FieldParts(content, f, a, b)
  }

  ghost predicate FieldParts(content: bytes, f: Field, a: bytes, b: bytes) {
    && content == f.name + [COLON] + (a + f.value + b)
    && f.name != [] && IsToken(f.name)
    && Spaces(a) && Bare(f.value) && Spaces(b) && NoControl(a + f.value + b)
    && !([TAB] <= a + f.value + b && Lower(f.name) == TRANSFER_ENCODING)
  }

  /** A field line is accepted exactly in this form, with this name and value. */
  lemma FieldIff(content: bytes, f: Field)
    ensures ParseField(content) == Some(f) <==> FieldContent(content, f)
  {
    hide TrimSpace, Spaces, Bare, IsToken, NoControl, Lower;
    if ParseField(content) == Some(f) {
      var i := IndexOf(content, COLON);
      var a, b := TrimSpaceParts(content[i + 1..]);
      assert content == content[..i] + [COLON] + content[i + 1..];
      assert FieldParts(content, f, a, b);
    }
    if FieldContent(content, f) {
      var a, b :| FieldParts(content, f, a, b);
      TokenIsBare(f.name);
      assert forall i :: 0 <= i < |f.name| ==> content[i] == f.name[i] != COLON;
      IndexOfIs(content, COLON, |f.name|);
      assert content[..|f.name|] == f.name && content[|f.name| + 1..] == a + f.value + b;
      TrimSpaceOf(a, f.value, b);
    }
  }

  // ----- the request line -----

  /** A verb, a target and a protocol version between single spaces, none with a line break inside. */
  ghost predicate StartContent(content: bytes, start: Start, targetOK: TargetCheck) {
    && start.Start? && content == Joined([start.verb, start.target, start.proto], SP)
    && IsWord(start.verb) && IsWord(start.target)
    && (start.proto == Ascii("HTTP/1.1") || start.proto == Ascii("HTTP/1.0"))
    && targetOK(start.verb, start.target, start.proto)
  }

  lemma StartIff(line: bytes, start: Start, targetOK: TargetCheck)
    requires start.Start?
    ensures ReadStart(line, targetOK) == start <==> StartContent(TrimLineEnding(line), start, targetOK)
  {
    hide Split, TrimLineEnding, Joined;
    var content := TrimLineEnding(line);
    var words := [start.verb, start.target, start.proto];
    SplitIff(content, SP, words);
    ProtocolsAreWords();
    if content == Joined(words, SP) {
      ThreeWords(words);
    }
    if StartContent(content, start, targetOK) {
      assert Without(words, SP);
    }
    if ReadStart(line, targetOK) == start {
      assert Split(content, SP) == words;
      assert words[0] == start.verb && words[1] == start.target && words[2] == start.proto;
    }
  }

  /** Three words with another protocol version are refused for that; everything else as malformed. */
  lemma StartRefused(line: bytes, targetOK: TargetCheck)
    ensures ReadStart(line, targetOK) == NoStart(UnknownProtocol)
            <==> exists words :: OtherProtocol(TrimLineEnding(line), words)
    ensures ReadStart(line, targetOK).NoStart? ==> ReadStart(line, targetOK).error in {UnknownProtocol, Malformed}
  {
    hide Split, TrimLineEnding, Joined;
    var content := TrimLineEnding(line);
    var parts := Split(content, SP);
    SplitIff(content, SP, parts);
    forall words | OtherProtocol(content, words) ensures parts == words {
      SplitIff(content, SP, words);
    }
    if ReadStart(line, targetOK) == NoStart(UnknownProtocol) {
      assert OtherProtocol(content, parts);
    }
  }

  ghost predicate OtherProtocol(content: bytes, words: seq<bytes>) {
    && |words| == 3 && Without(words, SP) && content == Joined(words, SP) && CR !in content && LF !in content
    && words[2] != Ascii("HTTP/1.1") && words[2] != Ascii("HTTP/1.0")
  }

  lemma ThreeWords(words: seq<bytes>)
    requires |words| == 3
    ensures var s := Joined(words, SP);
            && s == words[0] + [SP] + words[1] + [SP] + words[2]
            && (CR in s <==> CR in words[0] || CR in words[1] || CR in words[2])
            && (LF in s <==> LF in words[0] || LF in words[1] || LF in words[2])
  {
    assert words[1..][1..] == [words[2]];
    assert Joined(words[1..], SP) == words[1] + [SP] + words[2];
    var s := Joined(words, SP);
    assert s == words[0] + [SP] + words[1] + [SP] + words[2];
  }

  // ----- blocks and heads -----

  ghost predicate FieldLines(lines: seq<HeadLine>, fields: seq<Field>) {
    && |lines| == |fields|
    && forall i :: 0 <= i < |lines| ==> IsLine(lines[i]) && lines[i].content != [] && FieldContent(lines[i].content, fields[i])
  }

  function RenderLines(lines: seq<HeadLine>): bytes {
    if lines == [] then [] else RenderLine(lines[0]) + RenderLines(lines[1..])
  }

  function EmptyLine(bare: bool): bytes {
    RenderLine(HeadLine([], bare))
  }

  /** Field lines, then an empty line. */
  ghost predicate BlockText(s: bytes, fields: seq<Field>, lines: seq<HeadLine>, bare: bool) {
    FieldLines(lines, fields) && s == RenderLines(lines) + EmptyLine(bare)
  }

  lemma {:induction false} BlockComplete(lines: seq<HeadLine>, bare: bool, fields: seq<Field>, rest: bytes, budget: nat)
    requires FieldLines(lines, fields) && |RenderLines(lines) + EmptyLine(bare)| <= budget
    ensures ReadBlock(RenderLines(lines) + EmptyLine(bare) + rest, budget) == Block(fields, |RenderLines(lines) + EmptyLine(bare)|)
    decreases |lines|
  {
    hide ReadBlock, ScanLine, TrimLineEnding, ParseField, FieldContent, RenderLine, IsLine;
    var s := RenderLines(lines) + EmptyLine(bare) + rest;
    if lines == [] {
      EmptyIsLine(bare);
      LineIsScanned(HeadLine([], bare), rest, budget);
      assert s == RenderLine(HeadLine([], bare)) + rest;
      BlockStep(s, budget, |EmptyLine(bare)|);
    } else {
      var l, k := lines[0], |RenderLine(lines[0])|;
      var tail := RenderLines(lines[1..]) + EmptyLine(bare) + rest;
      assert s == RenderLine(l) + tail;
      LineIsScanned(l, tail, budget);
      BlockStep(s, budget, k);
      FieldIff(l.content, fields[0]);
      BlockComplete(lines[1..], bare, fields[1..], rest, budget - k);
      assert [fields[0]] + fields[1..] == fields;
    }
  }

  lemma EmptyIsLine(bare: bool)
    ensures IsLine(HeadLine([], bare))
  {
  }

  lemma EmptyEnding(l: HeadLine)
    requires l.content == []
    ensures RenderLine(l) == EmptyLine(l.bare)
  {
  }

  lemma {:induction false} BlockSound(s: bytes, budget: nat) returns (lines: seq<HeadLine>, bare: bool)
    requires ReadBlock(s, budget).Block?
    ensures var b := ReadBlock(s, budget); b.length <= |s| && b.length <= budget && BlockText(s[..b.length], b.fields, lines, bare)
    decreases |s|
  {
    hide ReadBlock, ScanLine, TrimLineEnding, ParseField, FieldContent, RenderLine, IsLine;
    BlockHasLine(s, budget);
    var k := ScanLine(s, budget).length;
    BlockStep(s, budget, k);
    var l := ScannedIsLine(s, budget);
    if l.content == [] {
      lines, bare := [], l.bare;
      EmptyEnding(l);
      assert RenderLines([]) + EmptyLine(bare) == EmptyLine(bare);
    } else {
      var tail := s[k..];
      var f, after := ParseField(l.content).value, ReadBlock(tail, budget - k);
      var more;
      more, bare := BlockSound(tail, budget - k);
      FieldIff(l.content, f);
      lines := [l] + more;
      FirstLine(l, f, more, after.fields);
      assert lines[1..] == more;
      assert s[..k + after.length] == s[..k] + tail[..after.length];
      assert RenderLines(lines) + EmptyLine(bare) == RenderLine(l) + (RenderLines(more) + EmptyLine(bare));
    }
  }

  lemma FirstLine(l: HeadLine, f: Field, more: seq<HeadLine>, fields: seq<Field>)
    requires FieldLines(more, fields) && IsLine(l) && l.content != [] && FieldContent(l.content, f)
    ensures FieldLines([l] + more, [f] + fields)
  {
    hide IsLine, FieldContent;
  }

  /** A block of fields is read exactly when the bytes taken are field lines with those fields and an empty
      line, within the budget. */
  lemma BlockIsGrammar(s: bytes, budget: nat, fields: seq<Field>, n: nat)
    requires n <= |s|
    ensures ReadBlock(s, budget) == Block(fields, n)
            <==> n <= budget && exists lines, bare :: BlockText(s[..n], fields, lines, bare)
  {
    hide ReadBlock, FieldLines, RenderLines, RenderLine;
    if ReadBlock(s, budget) == Block(fields, n) {
      var lines, bare := BlockSound(s, budget);
      assert BlockText(s[..n], fields, lines, bare);
    }
    if n <= budget && exists lines, bare :: BlockText(s[..n], fields, lines, bare) {
      var lines, bare :| BlockText(s[..n], fields, lines, bare);
      BlockComplete(lines, bare, fields, s[n..], budget);
      assert s[..n] + s[n..] == s;
    }
  }

  /** A request line, then a block. */
  ghost predicate HeadText(s: bytes, start: Start, fields: seq<Field>, targetOK: TargetCheck, first: HeadLine, lines: seq<HeadLine>, bare: bool) {
    && IsLine(first) && StartContent(first.content, start, targetOK)
    && FieldLines(lines, fields) && s == RenderLine(first) + RenderLines(lines) + EmptyLine(bare)
  }

  /** A head is accepted exactly when the bytes taken are a request line, field lines and an empty line, in at
      most the budget; and these are its parts. */
  lemma HeadIsGrammar(s: bytes, budget: nat, targetOK: TargetCheck, start: Start, fields: seq<Field>, n: nat)
    requires n <= |s|
    ensures ReadHead(s, budget, targetOK) == HeadLines(start, fields, n)
            <==> n <= budget && exists first, lines, bare :: HeadText(s[..n], start, fields, targetOK, first, lines, bare)
  {
    hide ReadHead, FieldLines, RenderLines, RenderLine, StartContent;
    if ReadHead(s, budget, targetOK) == HeadLines(start, fields, n) {
      var first, lines, bare := HeadSound(s, budget, targetOK);
    }
    if n <= budget && exists first, lines, bare :: HeadText(s[..n], start, fields, targetOK, first, lines, bare) {
      var first, lines, bare :| HeadText(s[..n], start, fields, targetOK, first, lines, bare);
      HeadComplete(s, budget, targetOK, start, fields, n, first, lines, bare);
    }
  }

  lemma HeadSound(s: bytes, budget: nat, targetOK: TargetCheck) returns (first: HeadLine, lines: seq<HeadLine>, bare: bool)
    requires ReadHead(s, budget, targetOK).HeadLines?
    ensures var h := ReadHead(s, budget, targetOK);
            h.length <= |s| && h.length <= budget && HeadText(s[..h.length], h.start, h.fields, targetOK, first, lines, bare)
  {
    hide ReadStart, ReadBlock, ScanLine, StartContent, FieldLines, RenderLines, RenderLine, IsLine;
    HeadParts(s, budget, targetOK);
    hide ReadHead, TrimLineEnding, EmptyLine, FieldLines;
    var k := ScanLine(s, budget).length;
    first := ScannedIsLine(s, budget);
    StartIff(s[..k], ReadStart(s[..k], targetOK), targetOK);
    lines, bare := BlockSound(s[k..], budget - k);
    var m := ReadBlock(s[k..], budget - k).length;
    LineAndBlock(s, k, m, RenderLine(first), RenderLines(lines), EmptyLine(bare));
  }

  lemma LineAndBlock(s: bytes, k: nat, m: nat, line: bytes, lines: bytes, empty: bytes)
    requires k <= |s| && m <= |s| - k && s[..k] == line && s[k..][..m] == lines + empty
    ensures s[..k + m] == line + lines + empty
  {
    assert s[..k + m] == s[..k] + s[k..][..m];
  }

  lemma HeadParts(s: bytes, budget: nat, targetOK: TargetCheck)
    requires ReadHead(s, budget, targetOK).HeadLines?
    ensures ScanLine(s, budget).Line?
    ensures var k, h := ScanLine(s, budget).length, ReadHead(s, budget, targetOK);
            && ReadStart(s[..k], targetOK).Start? && ReadBlock(s[k..], budget - k).Block?
            && h.start == ReadStart(s[..k], targetOK)
            && h.fields == ReadBlock(s[k..], budget - k).fields && h.length == k + ReadBlock(s[k..], budget - k).length
  {
    hide ScanLine, ReadStart, ReadBlock;
  }

  lemma HeadComplete(s: bytes, budget: nat, targetOK: TargetCheck, start: Start, fields: seq<Field>, n: nat,
                     first: HeadLine, lines: seq<HeadLine>, bare: bool)
    requires n <= |s| && n <= budget && HeadText(s[..n], start, fields, targetOK, first, lines, bare)
    ensures ReadHead(s, budget, targetOK) == HeadLines(start, fields, n)
  {
    hide ReadStart, ReadBlock, ScanLine, StartContent, FieldLines, RenderLines, RenderLine, IsLine;
    var block := RenderLines(lines) + EmptyLine(bare);
    var tail := block + s[n..];
    assert s == s[..n] + s[n..] == RenderLine(first) + tail;
    LineIsScanned(first, tail, budget);
    StartHasParts(first.content, start, targetOK);
    StartIff(RenderLine(first), start, targetOK);
    BlockComplete(lines, bare, fields, s[n..], budget - |RenderLine(first)|);
  }

  lemma StartHasParts(content: bytes, start: Start, targetOK: TargetCheck)
    requires StartContent(content, start, targetOK)
    ensures start.Start?
  {
  }

  // ----- heads cut short, and heads too long -----

  /** A line that has come only in part, or for which the budget is too small, is not found. */
  lemma LineMissing(s: bytes, cap: nat, n: nat, cap': nat)
    requires ScanLine(s, cap).Line? && n <= |s|
    ensures n < ScanLine(s, cap).length ==> ScanLine(s[..n], cap) == Cut
    ensures n >= ScanLine(s, cap).length ==>
              ScanLine(s[..n], cap) == ScanLine(s, cap) && s[..n][..ScanLine(s, cap).length] == s[..ScanLine(s, cap).length]
    ensures cap' < ScanLine(s, cap).length ==> ScanLine(s, cap') == TooLong
    ensures ScanLine(s, cap).length <= cap' <= cap ==> ScanLine(s, cap') == ScanLine(s, cap)
  {
    ScanPrefix(s, cap, n);
  }

  /** A block that breaks off anywhere is refused for its end, and one beyond the budget for its length. */
  lemma {:induction false} BlockCutShort(s: bytes, budget: nat, n: nat, less: nat)
    requires ReadBlock(s, budget).Block? && n <= |s| && less <= budget
    ensures n < ReadBlock(s, budget).length ==> ReadBlock(s[..n], budget) == NoBlock(StreamEnded)
    ensures less < ReadBlock(s, budget).length ==> ReadBlock(s, less) == NoBlock(TooLarge)
    decreases |s|
  {
    hide ReadBlock, ScanLine, TrimLineEnding, ParseField;
    BlockHasLine(s, budget);
    var k := ScanLine(s, budget).length;
    BlockStep(s, budget, k);
    LineMissing(s, budget, n, less);
    if n < k {
      NoLineNoBlock(s[..n], budget);
    } else {
      BlockStep(s[..n], budget, k);
      assert s[..n][k..] == s[k..][..n - k];
    }
    if less < k {
      NoLineNoBlock(s, less);
    } else {
      BlockStep(s, less, k);
    }
    if TrimLineEnding(s[..k]) != [] {
      BlockCutShort(s[k..], budget - k, if n < k then 0 else n - k, if less < k then 0 else less - k);
    }
  }

  /** So is a head: what is missing is waited for, what is too long is called so, and neither is malformed. */
  lemma HeadCutShort(s: bytes, budget: nat, targetOK: TargetCheck, n: nat, less: nat)
    requires ReadHead(s, budget, targetOK).HeadLines? && n <= |s| && less <= budget
    ensures n < ReadHead(s, budget, targetOK).length ==> ReadHead(s[..n], budget, targetOK) == NoHead(StreamEnded)
    ensures less < ReadHead(s, budget, targetOK).length ==> ReadHead(s, less, targetOK) == NoHead(TooLarge)
  {
    hide ScanLine, ReadStart, ReadBlock;
    var k := ScanLine(s, budget).length;
    LineMissing(s, budget, n, less);
    BlockCutShort(s[k..], budget - k, if n < k then 0 else n - k, if less < k then 0 else less - k);
    if n >= k {
      assert s[..n][k..] == s[k..][..n - k];
    }
  }
}
