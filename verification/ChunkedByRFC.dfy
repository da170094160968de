/** The chunked grammar by the letter of section 7.1 of RFC 9112, and exactly how the messages the gateway
    accepts differ from it: in white space around trailer names and values, and in chunk extensions. */
module ChunkedByRFC {
  import opened Bytes
  import opened Numerals
  import opened WhiteSpace
  import opened ChunkGrammar

  const DQUOTE: byte := 0x22
  const EQUALS: byte := 0x3D
  const BACKSLASH: byte := 0x5C

  // ----- chunk extensions: section 7.1.1 of RFC 9112, quoted strings: section 5.6.4 of RFC 9110 -----

  /** HTAB, SP, a visible character or obs-text. */
  predicate IsText(c: byte) {
    !IsControl(c)
  }

  predicate QuotedText(t: bytes)
    decreases |t|
  {
    || t == []
    || (IsText(t[0]) && t[0] != DQUOTE && t[0] != BACKSLASH && QuotedText(t[1..]))
    || (t[0] == BACKSLASH && |t| >= 2 && IsText(t[1]) && QuotedText(t[2..]))
  }

  predicate QuotedString(x: bytes) {
    |x| >= 2 && x[0] == DQUOTE && x[|x| - 1] == DQUOTE && QuotedText(x[1..|x| - 1])
  }

  /** BWS "=" BWS chunk-ext-val, or nothing. */
  ghost predicate ExtensionValue(v: bytes) {
    v == [] || exists a: bytes, b: bytes, x: bytes :: ValueParts(v, a, b, x)
  }

  ghost predicate ValueParts(v: bytes, a: bytes, b: bytes, x: bytes) {
    v == a + [EQUALS] + b + x && Blanks(a) && Blanks(b) && ((x != [] && IsToken(x)) || QuotedString(x))
  }

  /** *( BWS ";" BWS chunk-ext-name [ BWS "=" BWS chunk-ext-val ] ) */
  ghost predicate Extensions(e: bytes)
    decreases |e|
  {
    e == [] || exists a: bytes, b: bytes, name: bytes, v: bytes, rest: bytes ::
      ExtensionParts(e, a, b, name, v, rest) && Extensions(rest)
  }

  ghost predicate ExtensionParts(e: bytes, a: bytes, b: bytes, name: bytes, v: bytes, rest: bytes)
    ensures ExtensionParts(e, a, b, name, v, rest) ==> |rest| < |e|
  {
    && e == a + [SEMICOLON] + b + name + v + rest
    && Blanks(a) && Blanks(b) && name != [] && IsToken(name) && ExtensionValue(v)
  }

  /** chunk-size [ chunk-ext ]; the last chunk's size is all zeros, which is the value 0. */
  ghost predicate RfcSizeLine(content: bytes, size: nat) {
    exists hex: bytes, ext: bytes :: RfcSizeParts(content, size, hex, ext)
  }

  ghost predicate RfcSizeParts(content: bytes, size: nat, hex: bytes, ext: bytes) {
    content == hex + ext && Denotes(16, hex, size) && Extensions(ext)
  }

  // ----- trailer fields: section 5 of RFC 9112 -----

  /** field-name ":" OWS field-value OWS, the value without blanks at its ends. */
  ghost predicate RfcField(line: bytes, f: Field) {
    exists c: bytes, d: bytes :: RfcFieldParts(line, f, c, d)
  }

  ghost predicate RfcFieldParts(line: bytes, f: Field, c: bytes, d: bytes) {
    && line == f.name + [COLON] + (c + f.value + d) && Blanks(c) && Blanks(d)
    && f.name != [] && IsToken(f.name)
    && NoControl(f.value) && (f.value != [] ==> !IsBlank(f.value[0]) && !IsBlank(f.value[|f.value| - 1]))
  }

  // ----- messages -----

  ghost predicate RfcMessage(m: Message) {
    && (forall i :: 0 <= i < |m.chunks| ==> m.chunks[i].data != [] && RfcSizeLine(m.chunks[i].head, |m.chunks[i].data|))
    && RfcSizeLine(m.last, 0)
    && (forall i :: 0 <= i < |m.trailers| ==> RfcField(m.trailers[i].line, m.trailers[i].field))
  }

  function ExtensionOf(head: bytes): bytes {
    head[HexPrefix(head)..]
  }

  /** The gateway's bounds on a size line; the standard has none. */
  predicate SizeLineFits(head: bytes, size: nat) {
    size <= MAX_INT64 && |head| + 2 <= MAX_SIZE_LINE && |ExtensionOf(head)| < MAX_CHUNK_EXTENSION_BYTES
  }

  /** Its bounds on trailers, and the fields it does not take there. */
  predicate TrailerFits(t: Trailer) {
    |t.line| + 2 <= MAX_TRAILER_LINE && !ForbiddenTrailer(t.field.name)
  }

  predicate WithinLimits(m: Message) {
    && (forall i :: 0 <= i < |m.chunks| ==> SizeLineFits(m.chunks[i].head, |m.chunks[i].data|))
    && SizeLineFits(m.last, 0)
    && (forall i :: 0 <= i < |m.trailers| ==> TrailerFits(m.trailers[i]))
    && |RenderTrailers(m.trailers)| <= MAX_TRAILER_BYTES
  }

  /** The name stands at the head of the line, right before the colon, and only SP and HTAB around the value. */
  predicate TidyTrailer(t: Trailer) {
    t.field.name + [COLON] <= t.line && !OddSpace(t.line[|t.field.name| + 1..])
  }

  /** What the gateway does not look at: extensions by the grammar, and tidy trailers. */
  ghost predicate Tidy(m: Message) {
    && (forall i :: 0 <= i < |m.chunks| ==> Extensions(ExtensionOf(m.chunks[i].head)))
    && Extensions(ExtensionOf(m.last))
    && (forall i :: 0 <= i < |m.trailers| ==> TidyTrailer(m.trailers[i]))
  }

  /** No field value begins or ends with white space of Unicode, which the gateway would trim. */
  predicate BareValues(m: Message) {
    forall i :: 0 <= i < |m.trailers| ==> Bare(m.trailers[i].field.value)
  }

  // ----- size lines -----

  lemma {:induction false} QuotedTextIsText(t: bytes)
    requires QuotedText(t)
    ensures NoControl(t)
    decreases |t|
  {
    if t == [] {
    } else {
      if t[0] != BACKSLASH {
        QuotedTextIsText(t[1..]);
        assert forall i :: 1 <= i < |t| ==> t[i] == t[1..][i - 1];
      } else {
        QuotedTextIsText(t[2..]);
        assert forall i :: 2 <= i < |t| ==> t[i] == t[2..][i - 2];
      }
    }
  }

  lemma TokenIsText(s: bytes)
    requires IsToken(s)
    ensures NoControl(s)
  {
    forall i | 0 <= i < |s| ensures !IsControl(s[i]) {
      assert IsTokenChar(s[i]);
    }
  }

  lemma BlanksAreText(s: bytes)
    requires Blanks(s)
    ensures NoControl(s)
  {
    forall i | 0 <= i < |s| ensures !IsControl(s[i]) {
      assert IsBlank(s[i]);
    }
  }

  lemma TextOfSum(a: bytes, b: bytes)
    requires NoControl(a) && NoControl(b)
    ensures NoControl(a + b)
  {
  }

  lemma ValueIsText(v: bytes)
    requires ExtensionValue(v)
    ensures NoControl(v)
  {
    hide NoControl, Blanks, IsToken, QuotedString;
    if v == [] {
      BlanksAreText(v) by { assert Blanks([]) by { NoBlanks(); } }
    } else {
      var a, b, x :| ValueParts(v, a, b, x);
      BlanksAreText(a);
      BlanksAreText(b);
      if IsToken(x) {
        TokenIsText(x);
      } else {
        QuotedIsText(x);
      }
      OneIsText(EQUALS);
      TextOfSum(a, [EQUALS]);
      TextOfSum(a + [EQUALS], b);
      TextOfSum(a + [EQUALS] + b, x);
    }
  }

  lemma OneIsText(c: byte)
    requires !IsControl(c)
    ensures NoControl([c])
  {
  }

  lemma QuotedIsText(x: bytes)
    requires QuotedString(x)
    ensures NoControl(x)
  {
    QuotedTextIsText(x[1..|x| - 1]);
    assert forall i :: 1 <= i < |x| - 1 ==> x[i] == x[1..|x| - 1][i - 1];
  }

  /** Extensions are clean text that begins with blanks and a semicolon. */
  lemma {:induction false} ExtensionsAreText(e: bytes)
    requires Extensions(e)
    ensures NoControl(e)
    ensures e != [] ==> BlankPrefix(e) < |e| && e[BlankPrefix(e)] == SEMICOLON && !IsHexDigit(e[0])
    decreases |e|
  {
    hide NoControl, Blanks, IsToken, ExtensionValue, Extensions;
    if e == [] {
      NoBlanks();
      BlanksAreText(e);
    } else {
      var a, b, name, v, rest := ExtensionsUnfold(e);
      ExtensionsAreText(rest);
      BlanksAreText(a);
      BlanksAreText(b);
      TokenIsText(name);
      ValueIsText(v);
      OneIsText(SEMICOLON);
      TextOfSum(a, [SEMICOLON]);
      TextOfSum(a + [SEMICOLON], b);
      TextOfSum(a + [SEMICOLON] + b, name);
      TextOfSum(a + [SEMICOLON] + b + name, v);
      TextOfSum(a + [SEMICOLON] + b + name + v, rest);
      SemicolonAfterBlanks(e, a, b + name + v + rest);
    }
  }

  lemma ExtensionsUnfold(e: bytes) returns (a: bytes, b: bytes, name: bytes, v: bytes, rest: bytes)
    requires Extensions(e) && e != []
    ensures ExtensionParts(e, a, b, name, v, rest) && Extensions(rest)
  {
    hide ExtensionParts;
    a, b, name, v, rest :| ExtensionParts(e, a, b, name, v, rest) && Extensions(rest);
  }

  lemma SemicolonAfterBlanks(e: bytes, a: bytes, tail: bytes)
    requires e == a + [SEMICOLON] + tail && Blanks(a)
    ensures BlankPrefix(e) == |a| && e[|a|] == SEMICOLON && !IsHexDigit(e[0])
  {
    assert forall i :: 0 <= i < |a| ==> e[i] == a[i];
    BlankPrefixIs(e, |a|);
  }

  /** A size line the gateway reads is one of the standard exactly when its extensions are. */
  lemma SizeLineByRFC(head: bytes, size: nat)
    ensures RfcSizeLine(head, size) && size <= MAX_INT64 && |ExtensionOf(head)| < MAX_CHUNK_EXTENSION_BYTES
            <==> SizeLine(head, size) && Extensions(ExtensionOf(head))
  {
    hide RfcSizeLine, SizeLine, Extensions, ExtensionOf;
    if RfcSizeLine(head, size) && size <= MAX_INT64 && |ExtensionOf(head)| < MAX_CHUNK_EXTENSION_BYTES {
      RfcSizeLineIsRead(head, size);
    }
    if SizeLine(head, size) && Extensions(ExtensionOf(head)) {
      ReadSizeLineIsRfc(head, size);
    }
  }

  lemma RfcHasExtensions(head: bytes, size: nat)
    requires RfcSizeLine(head, size)
    ensures Extensions(ExtensionOf(head))
  {
    hide Extensions, NoControl, Denotes, ExtensionOf;
    var hex, ext :| RfcSizeParts(head, size, hex, ext);
    ExtensionsAreText(ext);
    HexIff(hex, size);
    ExtensionAt(head, hex, ext);
  }

  lemma RfcSizeLineIsRead(head: bytes, size: nat)
    requires RfcSizeLine(head, size) && size <= MAX_INT64 && |ExtensionOf(head)| < MAX_CHUNK_EXTENSION_BYTES
    ensures SizeLine(head, size) && Extensions(ExtensionOf(head))
  {
    hide Extensions, NoControl, Denotes, ExtensionOf;
    var hex, ext :| RfcSizeParts(head, size, hex, ext);
    ExtensionsAreText(ext);
    HexIff(hex, size);
    ExtensionAt(head, hex, ext);
    var w := BlankPrefix(ext);
    CleanTail(ext, w);
    assert SizeLineParts(head, size, hex, ext[..w], ext[w..]);
  }

  lemma ReadSizeLineIsRfc(head: bytes, size: nat)
    requires SizeLine(head, size) && Extensions(ExtensionOf(head))
    ensures RfcSizeLine(head, size) && size <= MAX_INT64 && |ExtensionOf(head)| < MAX_CHUNK_EXTENSION_BYTES
  {
    hide Extensions, NoControl, Denotes, ExtensionOf;
    var hex, blank, ext :| SizeLineParts(head, size, hex, blank, ext);
    assert head == hex + (blank + ext);
    NotHex(blank + ext, blank, ext);
    HexIff(hex, size);
    ExtensionAt(head, hex, blank + ext);
    assert RfcSizeParts(head, size, hex, blank + ext);
  }

  lemma CleanTail(ext: bytes, w: nat)
    requires w <= |ext| && NoControl(ext)
    ensures NoControl(ext[w..])
  {
  }

  lemma NotHex(e: bytes, blank: bytes, ext: bytes)
    requires e == blank + ext && (ext == [] ==> blank == []) && (ext != [] ==> ext[0] == SEMICOLON)
    requires forall i :: 0 <= i < |blank| ==> IsBlank(blank[i])
    ensures e != [] ==> !IsHexDigit(e[0])
  {
    assert blank != [] ==> e[0] == blank[0];
    assert blank == [] ==> e == ext;
  }

  lemma ExtensionAt(head: bytes, hex: bytes, ext: bytes)
    requires head == hex + ext && AllHex(hex) && (ext != [] ==> !IsHexDigit(ext[0]))
    ensures ExtensionOf(head) == ext
  {
    HexPrefixIs(head, |hex|);
    assert head[|hex|..] == ext;
  }

  // ----- trailers -----

  /** For a line the gateway reads as a field: it is one of the standard, with that field, exactly when it is tidy. */
  lemma TrailerByRFC(t: Trailer)
    ensures RfcField(t.line, t.field) && !ForbiddenTrailer(t.field.name) && Bare(t.field.value)
            <==> TrailerField(t.line, t.field) && TidyTrailer(t)
  {
    hide Spaces, Bare, IsToken, NoControl, TrimSpace, TrimBlanks, ForbiddenTrailer;
    var line, f := t.line, t.field;
    if RfcField(line, f) && !ForbiddenTrailer(f.name) && Bare(f.value) {
      var c, d :| RfcFieldParts(line, f, c, d);
      TrimBlanksOf(c, f.value, d);
      BlanksAreSpaces(c);
      BlanksAreSpaces(d);
      EmptyIsBare();
      assert line == ([] + f.name + []) + [COLON] + (c + f.value + d);
      assert TrailerParts(line, f, [], [], c, d);
      assert line[|f.name| + 1..] == c + f.value + d;
      assert line[..|f.name| + 1] == f.name + [COLON];
    }
    if TrailerField(line, f) && TidyTrailer(t) {
      TidyIsRFC(t);
    }
  }

  lemma TidyIsRFC(t: Trailer)
    requires TrailerField(t.line, t.field) && TidyTrailer(t)
    ensures RfcField(t.line, t.field) && !ForbiddenTrailer(t.field.name) && Bare(t.field.value)
  {
    hide Spaces, Bare, IsToken, NoControl, TrimSpace, TrimBlanks, ForbiddenTrailer;
    var line, f := t.line, t.field;
    ParseTrailerIsGrammar(line, f);
    var n := |f.name|;
    TokenIsBare(f.name);
    assert line[..n + 1] == f.name + [COLON];
    assert forall i :: 0 <= i < n ==> line[i] == line[..n + 1][i] == f.name[i];
    assert line[n] == line[..n + 1][n] == COLON;
    IndexOfIs(line, COLON, n);
    var after := line[n + 1..];
    TrimmingsAgreeIff(after);
    var c, d := TrimBlanksParts(after);
    assert line == f.name + [COLON] + after;
    assert RfcFieldParts(line, f, c, d);
  }

  // ----- messages -----

  lemma FieldIsOneLine(line: bytes, f: Field)
    requires RfcField(line, f)
    ensures line != [] && LF !in line
  {
    hide NoControl, Blanks, IsToken;
    var c, d :| RfcFieldParts(line, f, c, d);
    TokenIsText(f.name);
    BlanksAreText(c);
    BlanksAreText(d);
    OneIsText(COLON);
    TextOfSum(f.name, [COLON]);
    TextOfSum(c, f.value);
    TextOfSum(c + f.value, d);
    TextOfSum(f.name + [COLON], c + f.value + d);
    NoLineFeed(line);
  }

  lemma NoLineFeed(s: bytes)
    requires NoControl(s)
    ensures LF !in s
  {
    assert IsControl(LF);
  }

  /** The messages of the standard that keep within the gateway's limits are exactly the tidy ones it accepts. */
  lemma AcceptedAndTidyIsRFC(m: Message)
    ensures RfcMessage(m) && WithinLimits(m) && BareValues(m) <==> WellFormed(m) && Tidy(m)
  {
    hide RfcSizeLine, SizeLine, Extensions, ExtensionOf, RfcField, TrailerField, TidyTrailer, Bare, ForbiddenTrailer, RenderTrailers;
    forall head: bytes, size: nat
      ensures RfcSizeLine(head, size) && size <= MAX_INT64 && |ExtensionOf(head)| < MAX_CHUNK_EXTENSION_BYTES
              <==> SizeLine(head, size) && Extensions(ExtensionOf(head))
    {
      SizeLineByRFC(head, size);
    }
    forall t: Trailer
      ensures RfcField(t.line, t.field) && !ForbiddenTrailer(t.field.name) && Bare(t.field.value)
              <==> TrailerField(t.line, t.field) && TidyTrailer(t)
    {
      TrailerByRFC(t);
    }
    forall t: Trailer | RfcField(t.line, t.field) ensures t.line != [] && LF !in t.line {
      FieldIsOneLine(t.line, t.field);
    }
  }

  /** For a message the gateway accepts: it is one of the standard exactly when it is tidy. */
  lemma AcceptedIsRFCIff(m: Message)
    requires WellFormed(m)
    ensures RfcMessage(m) <==> Tidy(m)
  {
    hide RfcMessage, Tidy;
    AcceptedAndTidyIsRFC(m);
    AcceptedIsWithinLimits(m);
  }

  lemma AcceptedIsWithinLimits(m: Message)
    requires WellFormed(m)
    ensures WithinLimits(m) && BareValues(m)
  {
    hide SizeLine, ExtensionOf, TrailerField, Bare, ForbiddenTrailer, RenderTrailers;
    forall head: bytes, size: nat | SizeLine(head, size)
      ensures size <= MAX_INT64 && |ExtensionOf(head)| < MAX_CHUNK_EXTENSION_BYTES
    {
      AcceptedExtensionFits(head, size);
    }
    forall t: Trailer | TrailerField(t.line, t.field) ensures !ForbiddenTrailer(t.field.name) && Bare(t.field.value) {
      AcceptedFieldIsBare(t);
    }
  }

  lemma AcceptedExtensionFits(head: bytes, size: nat)
    requires SizeLine(head, size)
    ensures size <= MAX_INT64 && |ExtensionOf(head)| < MAX_CHUNK_EXTENSION_BYTES
  {
    hide NoControl, Denotes, ExtensionOf;
    var hex, blank, ext :| SizeLineParts(head, size, hex, blank, ext);
    assert head == hex + (blank + ext);
    NotHex(blank + ext, blank, ext);
    HexIff(hex, size);
    ExtensionAt(head, hex, blank + ext);
  }

  lemma AcceptedFieldIsBare(t: Trailer)
    requires TrailerField(t.line, t.field)
    ensures !ForbiddenTrailer(t.field.name) && Bare(t.field.value)
  {
    hide Bare, ForbiddenTrailer, Spaces;
    var a, b, c, d :| TrailerParts(t.line, t.field, a, b, c, d);
  }

  // ----- every message of the standard -----

  /** A field of the standard is read with its name, and with its value trimmed of all white space. */
  lemma RfcFieldIsRead(line: bytes, f: Field)
    requires RfcField(line, f) && !ForbiddenTrailer(f.name)
    ensures TrailerField(line, Field(f.name, TrimSpace(f.value)))
  {
    hide Spaces, Bare, IsToken, NoControl, TrimSpace, ForbiddenTrailer, Blanks;
    var c, d :| RfcFieldParts(line, f, c, d);
    var v := TrimSpace(f.value);
    var a, b := TrimSpaceParts(f.value);
    BlanksAreSpaces(c);
    BlanksAreSpaces(d);
    SpacesOfSum(c, a);
    SpacesOfSum(b, d);
    EmptyIsBare();
    PartOfText(f.value, a, v, b);
    assert c + f.value + d == (c + a) + v + (b + d);
    assert line == ([] + f.name + []) + [COLON] + ((c + a) + v + (b + d));
    assert TrailerParts(line, Field(f.name, v), [], [], c + a, b + d);
  }

  lemma PartOfText(s: bytes, a: bytes, v: bytes, b: bytes)
    requires s == a + v + b && NoControl(s)
    ensures NoControl(v)
  {
    forall i | 0 <= i < |v| ensures !IsControl(v[i]) {
      assert s[|a| + i] == v[i];
    }
  }

  function TrimTrailers(ts: seq<Trailer>): (r: seq<Trailer>)
    ensures |r| == |ts|
    ensures forall i :: 0 <= i < |ts| ==> r[i] == Trailer(ts[i].line, Field(ts[i].field.name, TrimSpace(ts[i].field.value)))
  {
    seq(|ts|, i requires 0 <= i < |ts| => Trailer(ts[i].line, Field(ts[i].field.name, TrimSpace(ts[i].field.value))))
  }

  /** The same message, with its trailer values as the gateway hands them on. */
  function HandedOn(m: Message): Message {
    m.(trailers := TrimTrailers(m.trailers))
  }

  lemma {:induction false} SameLines(a: seq<Trailer>, b: seq<Trailer>)
    requires |a| == |b| && forall i :: 0 <= i < |a| ==> a[i].line == b[i].line
    ensures RenderTrailers(a) == RenderTrailers(b)
  {
    if a == [] {
    } else {
      SameLines(a[1..], b[1..]);
    }
  }

  lemma {:induction false} SameRendering(m: Message)
    ensures Render(HandedOn(m)) == Render(m)
    decreases |m.chunks|
  {
    hide TrimTrailers, RenderTrailers;
    if m.chunks == [] {
      SameLines(TrimTrailers(m.trailers), m.trailers);
    } else {
      var m' := m.(chunks := m.chunks[1..]);
      SameRendering(m');
      assert HandedOn(m).(chunks := m.chunks[1..]) == HandedOn(m');
    }
  }

  lemma RfcIsAccepted(m: Message)
    requires RfcMessage(m) && WithinLimits(m)
    ensures WellFormed(HandedOn(m))
  {
    hide RfcSizeLine, SizeLine, Extensions, ExtensionOf, RfcField, TrailerField, ForbiddenTrailer, RenderTrailers, TrimSpace, TrimTrailers;
    forall head: bytes, size: nat
      ensures RfcSizeLine(head, size) && size <= MAX_INT64 && |ExtensionOf(head)| < MAX_CHUNK_EXTENSION_BYTES ==> SizeLine(head, size)
    {
      SizeLineByRFC(head, size);
    }
    var ts := TrimTrailers(m.trailers);
    forall i | 0 <= i < |ts| ensures WellFormedTrailer(ts[i]) {
      FieldIsOneLine(m.trailers[i].line, m.trailers[i].field);
      RfcFieldIsRead(m.trailers[i].line, m.trailers[i].field);
    }
    SameLines(ts, m.trailers);
  }

  /** Every message of the standard within the limits, whatever follows it, decodes to its body and to its
      trailers with their values trimmed, and stops exactly at its end. */
  lemma DecodesRFC(m: Message, rest: bytes, fin: Ending)
    requires RfcMessage(m) && WithinLimits(m)
    ensures Decode(Render(m) + rest, fin) == Decoded(Body(m.chunks), Fields(TrimTrailers(m.trailers)), Accepted(rest))
  {
    hide RfcMessage, WithinLimits, WellFormed, Decode, Render, TrimTrailers;
    RfcIsAccepted(m);
    SameRendering(m);
    DecodeComplete(HandedOn(m), rest, fin);
  }

  /** And its values are handed on as they were received exactly when none has white space at an end. */
  lemma ValuesKeptIff(m: Message)
    ensures TrimTrailers(m.trailers) == m.trailers <==> BareValues(m)
  {
    hide TrimSpace, Bare;
    var ts := m.trailers;
    forall v: bytes ensures TrimSpace(v) == v <==> Bare(v) {
      TrimmedIff(v);
    }
    if BareValues(m) {
      assert forall i :: 0 <= i < |ts| ==> TrimTrailers(ts)[i] == ts[i];
    } else {
      var i :| 0 <= i < |ts| && !Bare(ts[i].field.value);
      assert TrimTrailers(ts)[i] != ts[i];
    }
  }

  lemma TrimmedIff(v: bytes)
    ensures TrimSpace(v) == v <==> Bare(v)
  {
    hide TrimSpace, Bare;
    if Bare(v) {
      BareIsTrimmed(v);
    }
    var a, b := TrimSpaceParts(v);
  }

  ghost predicate RfcLine(line: bytes) {
    exists g :: RfcField(line, g)
  }

  /** A trailer line that is read as a field is one of the standard, with whatever value, exactly when the
      name stands right before the colon and there is no control character behind it. */
  lemma LineByRFC(line: bytes, f: Field)
    requires TrailerField(line, f)
    ensures RfcLine(line) <==> f.name + [COLON] <= line && NoControl(line[|f.name| + 1..])
  {
    hide Spaces, Bare, NoControl, TrimSpace, TrimBlanks, ForbiddenTrailer, IsToken, RfcFieldParts;
    ParseTrailerIsGrammar(line, f);
    if RfcLine(line) {
      var g :| RfcField(line, g);
      RfcLineIsClean(line, g);
      FirstColon(line, g.name);
      NameIsTrimmed(g.name);
    }
    if f.name + [COLON] <= line && NoControl(line[|f.name| + 1..]) {
      CleanLineIsRfc(line, f);
    }
  }

  lemma FirstColon(line: bytes, name: bytes)
    requires name + [COLON] <= line && IsToken(name)
    ensures IndexOf(line, COLON) == |name| && line[..|name|] == name
  {
    var n := |name|;
    TokenIsBare(name);
    assert line[..n + 1] == name + [COLON];
    assert forall i :: 0 <= i < n ==> line[i] == line[..n + 1][i] == name[i];
    assert line[n] == line[..n + 1][n] == COLON;
    IndexOfIs(line, COLON, n);
  }

  lemma NameIsTrimmed(name: bytes)
    requires IsToken(name)
    ensures TrimSpace(name) == name
  {
    hide TrimSpace, Bare;
    TokenIsBare(name);
    BareIsTrimmed(name);
  }

  lemma RfcLineIsClean(line: bytes, g: Field)
    requires RfcField(line, g)
    ensures g.name != [] && IsToken(g.name) && g.name + [COLON] <= line && NoControl(line[|g.name| + 1..])
  {
    hide NoControl, Blanks, IsToken;
    var c, d :| RfcFieldParts(line, g, c, d);
    BlanksAreText(c);
    BlanksAreText(d);
    TextOfSum(c, g.value);
    TextOfSum(c + g.value, d);
    assert line[|g.name| + 1..] == c + g.value + d;
    assert line[..|g.name| + 1] == g.name + [COLON];
  }

  lemma CleanLineIsRfc(line: bytes, f: Field)
    requires TrailerField(line, f) && f.name + [COLON] <= line && NoControl(line[|f.name| + 1..])
    ensures RfcField(line, Field(f.name, TrimBlanks(line[|f.name| + 1..])))
  {
    hide NoControl, IsToken, TrimBlanks, Spaces, Bare, ForbiddenTrailer;
    var after := line[|f.name| + 1..];
    var c, d := TrimBlanksParts(after);
    PartOfText(after, c, TrimBlanks(after), d);
    assert line == line[..|f.name| + 1] + after && line[..|f.name| + 1] == f.name + [COLON];
    assert RfcFieldParts(line, Field(f.name, TrimBlanks(after)), c, d);
  }

  /** Its lines are lines of the standard, whatever values they hold there. */
  ghost predicate RfcLines(m: Message) {
    && (forall i :: 0 <= i < |m.chunks| ==> RfcSizeLine(m.chunks[i].head, |m.chunks[i].data|))
    && RfcSizeLine(m.last, 0)
    && (forall i :: 0 <= i < |m.trailers| ==> RfcLine(m.trailers[i].line))
  }

  predicate CleanTrailer(t: Trailer) {
    t.field.name + [COLON] <= t.line && NoControl(t.line[|t.field.name| + 1..])
  }

  /** For a message the gateway accepts: the standard derives its bytes exactly when its extensions are well
      formed, its trailer names stand right before their colons, and no control character is behind them. */
  lemma AcceptedLinesIff(m: Message)
    requires WellFormed(m)
    ensures RfcLines(m)
            <==> && (forall i :: 0 <= i < |m.chunks| ==> Extensions(ExtensionOf(m.chunks[i].head)))
                 && Extensions(ExtensionOf(m.last))
                 && (forall i :: 0 <= i < |m.trailers| ==> CleanTrailer(m.trailers[i]))
  {
    hide RfcSizeLine, SizeLine, Extensions, ExtensionOf, RfcLine, TrailerField, RenderTrailers, NoControl;
    forall head: bytes, size: nat | SizeLine(head, size) ensures RfcSizeLine(head, size) <==> Extensions(ExtensionOf(head)) {
      SizeLineByRFC(head, size);
      AcceptedExtensionFits(head, size);
    }
    forall t: Trailer | TrailerField(t.line, t.field) ensures RfcLine(t.line) <==> CleanTrailer(t) {
      LineByRFC(t.line, t.field);
    }
  }

  // ----- accepted, and not of the standard -----

  /** A field named X with the value v: in a line with these bytes between and behind them. */
  lemma LineOfX(line: bytes, b: bytes, c: bytes, d: bytes) returns (t: Trailer)
    requires line == [0x58] + b + [COLON] + c + [0x76] + d && Spaces(b) && Spaces(c) && Spaces(d)
    ensures t == Trailer(line, Field([0x58], [0x76])) && TrailerField(line, t.field)
    ensures |line| < 100 && LF !in line ==> WellFormedTrailer(t)
  {
    hide Spaces, Bare, ForbiddenTrailer;
    var x, v: bytes := [0x58], [0x76];
    t := Trailer(line, Field(x, v));
    EmptyIsBare();
    VisibleEndsAreBare(v);
    NotForbidden(x);
    assert line == ([] + x + b) + [COLON] + (c + v + d);
    assert TrailerParts(line, t.field, [], b, c, d);
  }

  /** White space between a trailer's name and its colon. */
  lemma SpaceBeforeColon()
    ensures var t := Trailer([0x58, SP, COLON, 0x76], Field([0x58], [0x76]));
            WellFormedTrailer(t) && !RfcLine(t.line)
  {
    hide Spaces, RfcLine, TrailerField;
    var line: bytes := [0x58, SP, COLON, 0x76];
    OneSpace(SP);
    EmptyIsBare();
    var t := LineOfX(line, [SP], [], []);
    assert ([0x58] + [COLON])[1] == COLON && line[1] == SP;
    LineByRFC(line, t.field);
  }

  /** A vertical tab between the colon and the value. */
  lemma ControlBeforeValue()
    ensures var t := Trailer([0x58, COLON, 0x0B, 0x76], Field([0x58], [0x76]));
            WellFormedTrailer(t) && !RfcLine(t.line)
  {
    hide Spaces, RfcLine, TrailerField;
    var line: bytes := [0x58, COLON, 0x0B, 0x76];
    OneSpace(0x0B);
    EmptyIsBare();
    var t := LineOfX(line, [], [0x0B], []);
    assert line[2..][0] == 0x0B && IsControl(0x0B);
    LineByRFC(line, t.field);
  }

  /** A no-break space (U+00A0) behind the value belongs to it; the gateway hands the value on without it. */
  lemma NoBreakSpaceIsDropped()
    ensures var line: bytes := [0x58, COLON, 0x76, 0xC2, 0xA0];
            RfcField(line, Field([0x58], [0x76, 0xC2, 0xA0])) && TrailerField(line, Field([0x58], [0x76]))
  {
    hide Spaces, TrailerField;
    var line: bytes := [0x58, COLON, 0x76, 0xC2, 0xA0];
    NoBreakSpace();
    EmptyIsBare();
    var t := LineOfX(line, [], [], [0xC2, 0xA0]);
    assert RfcFieldParts(line, Field([0x58], [0x76, 0xC2, 0xA0]), [], []);
  }

  lemma OneSpace(c: byte)
    requires IsSpace1(c)
    ensures Spaces([c])
  {
    assert [c][1..] == [];
  }

  lemma NotForbidden(name: bytes)
    requires |name| == 1
    ensures !ForbiddenTrailer(name)
  {
    assert |Lower(name)| == 1;
  }

  lemma ExtensionHasName(e: bytes)
    ensures Extensions(e) && e != [] ==> |e| >= 2
  {
    hide Extensions;
    if Extensions(e) && e != [] {
      var a, b, name, v, rest := ExtensionsUnfold(e);
    }
  }

  /** A semicolon without an extension behind it. */
  lemma ExtensionWithoutName()
    ensures SizeLine(Ascii("5;"), 5) && forall n :: !RfcSizeLine(Ascii("5;"), n)
  {
    hide RfcSizeLine, Extensions;
    var head, five := Ascii("5;"), Ascii("5");
    ShortestDenotes(16, 5);
    assert five == NumeralOf(16, 5);
    assert head == five + [] + [SEMICOLON];
    assert SizeLineParts(head, 5, five, [], [SEMICOLON]);
    assert head == five + [SEMICOLON];
    HexIff(five, 5);
    ExtensionAt(head, five, [SEMICOLON]);
    ExtensionHasName([SEMICOLON]);
    forall n ensures !RfcSizeLine(head, n) {
      if RfcSizeLine(head, n) {
        RfcHasExtensions(head, n);
      }
    }
  }
}
