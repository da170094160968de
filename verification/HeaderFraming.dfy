/** The request head: line by line within a byte budget, and how the body that follows is framed. */
module HeaderFraming {
  import opened Bytes
  import opened Numerals
  import opened WhiteSpace
  import opened ChunkGrammar
  import opened ChunkedLines

  datatype HeaderError = Malformed | TooLarge | UnknownProtocol | UnknownCoding | StreamEnded

  /** How the body is delimited, as in section 6.3 of RFC 9112. */
  datatype Framing = Chunked | Length(n: nat) | NoBody

  datatype Verdict = Framed(framing: Framing) | Refused(error: HeaderError)

  const DEFAULT_HEADER_BYTES: nat := 8192
  const DASH: byte := 0x2D
  const PLUS: byte := 0x2B
  const TRANSFER_ENCODING: bytes := Ascii("transfer-encoding")
  const CONTENT_LENGTH: bytes := Ascii("content-length")
  const CHUNKED: bytes := Ascii("chunked")
  const DOTTED_I: bytes := Utf8(0x130)
  const KELVIN_SIGN: bytes := Utf8(0x212A)

  // ----- lists of tokens -----

  function Split(s: bytes, sep: byte): (parts: seq<bytes>)
    ensures parts != []
    decreases |s|
  {
    var i := IndexOf(s, sep);
    if i == |s| then [s] else [s[..i]] + Split(s[i + 1..], sep)
  }

  /** The values of all fields of one name, whatever its case, in order. */
  function Values(fields: seq<Field>, name: bytes): seq<bytes> {
    if fields == [] then []
    else
      var last := fields[|fields| - 1];
      Values(fields[..|fields| - 1], name) + if Lower(last.name) == name then [last.value] else []
  }

  function AllTokens(values: seq<bytes>, tokens: bytes -> seq<bytes>): seq<bytes> {
    if values == [] then [] else AllTokens(values[..|values| - 1], tokens) + tokens(values[|values| - 1])
  }

  /** Lower case as strings.ToLower of Go gives it, as far as the result can be ASCII: besides the letters
      A to Z only U+0130 and U+212A become ASCII, an i and a k. */
  function LowerCoding(s: bytes): bytes {
    if s == [] then []
    else if DOTTED_I <= s then [0x69] + LowerCoding(s[2..])
    else if KELVIN_SIGN <= s then [0x6B] + LowerCoding(s[3..])
    else [LowerByte(s[0])] + LowerCoding(s[1..])
  }

  function ItemsIn(value: bytes): seq<bytes> {
    var parts := Split(value, COMMA);
    seq(|parts|, i requires 0 <= i < |parts| => TrimSpace(parts[i]))
  }

  function SpellingsIn(value: bytes): seq<bytes> {
    ItemsIn(TrimSpace(value))
  }

  function CodingsIn(value: bytes): seq<bytes> {
    var spelled := SpellingsIn(value);
    seq(|spelled|, i requires 0 <= i < |spelled| => LowerCoding(spelled[i]))
  }

  predicate Signed(token: bytes) {
    token != [] && (token[0] == PLUS || token[0] == DASH)
  }

  /** strconv.ParseInt in base 10 and 64 bits, with negative results refused. */
  function NumberOf(token: bytes): Option<nat> {
    var digits := if Signed(token) then token[1..] else token;
    if digits == [] || !AllDigits(digits) then None
    else
      var v := DecimalValue(digits);
      if v > (if token[0] == DASH then 0 else MAX_INT64) then None else Some(v)
  }

  /** A numeral of n, or one behind a plus; behind a minus only one of 0. */
  ghost predicate IsNumber(token: bytes, n: nat) {
    && n <= MAX_INT64
    && (|| Denotes(10, token, n)
        || (token != [] && token[0] == PLUS && Denotes(10, token[1..], n))
        || (token != [] && token[0] == DASH && n == 0 && Denotes(10, token[1..], 0)))
  }

  /** What is read as a number is exactly its numerals, in decimal and within 64 bits. */
  lemma NumberIff(token: bytes, n: nat)
    ensures NumberOf(token) == Some(n) <==> IsNumber(token, n)
  {
    hide Denotes, DecimalValue;
    DecimalIff(token, n);
    if token != [] {
      DecimalIff(token[1..], n);
    }
    assert !IsDigit(PLUS) && !IsDigit(DASH);
  }

  lemma NumbersIff()
    ensures forall token: bytes, n: nat :: NumberOf(token) == Some(n) <==> IsNumber(token, n)
  {
    hide NumberOf, IsNumber;
    forall token: bytes, n: nat ensures NumberOf(token) == Some(n) <==> IsNumber(token, n) {
      NumberIff(token, n);
    }
  }

  ghost predicate AllAre(tokens: seq<bytes>, n: nat) {
    forall i :: 0 <= i < |tokens| ==> IsNumber(tokens[i], n)
  }

  // ----- framing -----

  /** The one way of framing a head allows. */
  ghost predicate Frames(fields: seq<Field>, framing: Framing) {
    var te := Values(fields, TRANSFER_ENCODING);
    var cl := Values(fields, CONTENT_LENGTH);
    match framing
    case Chunked => cl == [] && te != [] && AllTokens(te, CodingsIn) == [CHUNKED]
    case Length(n) => te == [] && cl != [] && AllAre(AllTokens(cl, ItemsIn), n)
    case NoBody => te == [] && cl == []
  }

  lemma {:induction false} SomeToken(values: seq<bytes>)
    requires values != []
    ensures AllTokens(values, ItemsIn) != []
  {
    assert ItemsIn(values[|values| - 1]) != [];
  }

  lemma FramingIsUnique(fields: seq<Field>, f: Framing, g: Framing)
    requires Frames(fields, f) && Frames(fields, g)
    ensures f == g
  {
    hide CodingsIn, ItemsIn, NumberOf, IsNumber;
    if f.Length? {
      NumbersIff();
      var cl := Values(fields, CONTENT_LENGTH);
      SomeToken(cl);
      assert NumberOf(AllTokens(cl, ItemsIn)[0]) == Some(f.n);
    }
  }

  /** The codings of one field value, or failure when one of them is empty. */
  method ReadCodings(value: bytes) returns (ok: bool, codings: seq<bytes>)
    ensures ok <==> [] !in CodingsIn(value)
    ensures ok ==> codings == CodingsIn(value)
  {
    hide LowerCoding, TrimSpace, Split;
    var parts := Split(TrimSpace(value), COMMA);
    codings := [];
    for i := 0 to |parts|
      invariant codings == CodingsIn(value)[..i] && [] !in codings
    {
      var c := LowerCoding(TrimSpace(parts[i]));
      assert c == CodingsIn(value)[i];
      if c == [] {
        return false, [];
      }
      codings := codings + [c];
    }
    return true, codings;
  }

  /** The verdict on a Transfer-Encoding: one coding, which is chunked. */
  function VerdictOnCodings(codings: seq<bytes>): Verdict {
    if [] in codings then Refused(Malformed)
    else if exists i :: 0 <= i < |codings| && codings[i] != CHUNKED then Refused(UnknownCoding)
    else if |codings| == 1 then Framed(Chunked)
    else Refused(Malformed)
  }

  method FrameByCodings(te: seq<bytes>) returns (v: Verdict)
    ensures v == VerdictOnCodings(AllTokens(te, CodingsIn))
    // accepted for chunked alone; a coding that is not supported is named as the cause if no item is empty
    ensures v == Framed(Chunked) <==> AllTokens(te, CodingsIn) == [CHUNKED]
    ensures v.Framed? ==> v == Framed(Chunked)
    ensures v == Refused(UnknownCoding) <==>
              [] !in AllTokens(te, CodingsIn) && exists c :: c in AllTokens(te, CodingsIn) && c != CHUNKED
    ensures v.Refused? ==> v.error == UnknownCoding || v.error == Malformed
  {
    hide CodingsIn;
    var codings := [];
    for i := 0 to |te|
      invariant codings == AllTokens(te[..i], CodingsIn) && [] !in codings
    {
      var ok, more := ReadCodings(te[i]);
      assert te[..i + 1][..i] == te[..i];
      if !ok {
        TokensPersist(te, i + 1, CodingsIn, []);
        return Refused(Malformed);
      }
      codings := codings + more;
    }
    assert te[..|te|] == te;
    if |codings| == 0 {
      return Refused(Malformed);
    }
    var finalCoding := codings[|codings| - 1];
    if finalCoding != CHUNKED {
      assert finalCoding in codings;
      return Refused(UnknownCoding);
    }
    var chunkedCount := 0;
    for i := 0 to |codings|
      invariant chunkedCount == i && forall j :: 0 <= j < i ==> codings[j] == CHUNKED
    {
      if codings[i] == CHUNKED {
        chunkedCount := chunkedCount + 1;
      } else {
        assert codings[i] in codings;
        return Refused(UnknownCoding);
      }
    }
    if chunkedCount > 1 {
      return Refused(Malformed);
    }
    return Framed(Chunked);
  }

  lemma {:induction false} TokensPersist(values: seq<bytes>, k: nat, tokens: bytes -> seq<bytes>, t: bytes)
    requires k <= |values| && t in AllTokens(values[..k], tokens)
    ensures t in AllTokens(values, tokens)
    decreases |values|
  {
    if k == |values| {
      assert values[..k] == values;
    } else {
      assert values[..|values| - 1][..k] == values[..k];
      TokensPersist(values[..|values| - 1], k, tokens, t);
    }
  }

  /** Reading the numbers of one field value onto the one read before; -1 stands for none. */
  method ReadLengths(value: bytes, before: int) returns (ok: bool, n: int)
    requires before >= -1
    ensures ok ==> n >= 0 && (before == -1 || n == before) && AllAre(ItemsIn(value), n)
    ensures !ok ==> forall m: nat :: before == -1 || m == before ==> !AllAre(ItemsIn(value), m)
  {
    hide TrimSpace, Split, NumberOf, IsNumber;
    NumbersIff();
    var parts := Split(value, COMMA);
    ghost var tokens := ItemsIn(value);
    n := before;
    for i := 0 to |parts|
      invariant n >= -1 && (before == -1 || n == before) && (if i == 0 then n == before else n >= 0)
      invariant forall j :: 0 <= j < i ==> NumberOf(tokens[j]) == Some(n)
    {
      var p := TrimSpace(parts[i]);
      assert p == tokens[i];
      var val := NumberOf(p);
      if val.None? || (n != -1 && val.value != n) {
        forall m: nat | before == -1 || m == before ensures !AllAre(tokens, m) {
          var j := if val.Some? && val.value == m then 0 else i;
          assert NumberOf(tokens[j]) != Some(m);
        }
        return false, n;
      }
      n := val.value;
    }
    return true, n;
  }

  lemma NotAllInBoth(a: seq<bytes>, b: seq<bytes>, before: int, m: nat)
    requires before == -1 || (a != [] && before >= 0 && AllAre(a, before))
    requires before == -1 || m == before ==> !AllAre(b, m)
    ensures !AllAre(a + b, m)
  {
    hide IsNumber;
    NumbersIff();
    if before == -1 || m == before {
      var i :| 0 <= i < |b| && !IsNumber(b[i], m);
      assert (a + b)[|a| + i] == b[i];
    } else {
      assert (a + b)[0] == a[0];
    }
  }

  lemma {:induction false} NotAllYet(values: seq<bytes>, k: nat, m: nat)
    requires k <= |values| && !AllAre(AllTokens(values[..k], ItemsIn), m)
    ensures !AllAre(AllTokens(values, ItemsIn), m)
    decreases |values|
  {
    hide ItemsIn, IsNumber;
    if k == |values| {
      assert values[..k] == values;
    } else {
      var earlier := values[..|values| - 1];
      assert earlier[..k] == values[..k];
      NotAllYet(earlier, k, m);
      var a := AllTokens(earlier, ItemsIn);
      var i :| 0 <= i < |a| && !IsNumber(a[i], m);
      assert AllTokens(values, ItemsIn)[i] == a[i];
    }
  }

  method FrameByLengths(cl: seq<bytes>) returns (v: Verdict)
    requires cl != []
    ensures v.Framed? ==> v.framing.Length? && AllAre(AllTokens(cl, ItemsIn), v.framing.n)
    ensures v.Refused? ==> v.error == Malformed && forall m: nat :: !AllAre(AllTokens(cl, ItemsIn), m)
  {
    hide ItemsIn, IsNumber;
    var clInt := -1;
    for i := 0 to |cl|
      invariant clInt >= -1 && (i > 0 <==> clInt >= 0)
      invariant clInt >= 0 ==> AllAre(AllTokens(cl[..i], ItemsIn), clInt)
    {
      var ok, n := ReadLengths(cl[i], clInt);
      assert cl[..i + 1][..i] == cl[..i];
      if i > 0 {
        SomeToken(cl[..i]);
      }
      if !ok {
        forall m: nat ensures !AllAre(AllTokens(cl, ItemsIn), m) {
          NotAllInBoth(AllTokens(cl[..i], ItemsIn), ItemsIn(cl[i]), clInt, m);
          NotAllYet(cl, i + 1, m);
        }
        return Refused(Malformed);
      }
      clInt := n;
    }
    assert cl[..|cl|] == cl;
    return Framed(Length(clInt));
  }

  /** Why fields that allow no framing are refused: for their codings if they name some and no length. */
  function RefusalOf(fields: seq<Field>): HeaderError {
    var te := Values(fields, TRANSFER_ENCODING);
    if te == [] || Values(fields, CONTENT_LENGTH) != [] then Malformed
    else match VerdictOnCodings(AllTokens(te, CodingsIn))
         case Refused(e) => e
         case Framed(_) => Malformed
  }

  /** The decision on the whole head, and it is the only possible one. */
  method DecideFraming(fields: seq<Field>) returns (v: Verdict)
    ensures v.Framed? ==> Frames(fields, v.framing)
    ensures v.Refused? ==> forall f :: !Frames(fields, f)
    ensures v.Refused? ==> v.error == RefusalOf(fields)
  {
    hide CodingsIn, ItemsIn, IsNumber, Values;
    var cl := Values(fields, CONTENT_LENGTH);
    var te := Values(fields, TRANSFER_ENCODING);
    if |te| > 0 && |cl| > 0 {
      return Refused(Malformed);
    }
    if |te| > 0 {
      v := FrameByCodings(te);
      return;
    }
    if |cl| > 0 {
      v := FrameByLengths(cl);
      return;
    }
    return Framed(NoBody);
  }

  // ----- the lines of the head -----

  /** A line without its CRLF or its LF. */
  function TrimLineEnding(line: bytes): bytes {
    if |line| >= 2 && line[|line| - 2..] == CRLF then line[..|line| - 2]
    else if |line| >= 1 && line[|line| - 1] == LF then line[..|line| - 1]
    else line
  }

  /** The name before the first colon and all that stands behind it. */
  function SplitField(content: bytes): Option<Field> {
    var i := IndexOf(content, COLON);
    if i == |content| || i == 0 || !IsToken(content[..i]) then None
    else
      var after := content[i + 1..];
      if (after != [] && after[0] == TAB && Lower(content[..i]) == TRANSFER_ENCODING) || !NoControl(after) then None
      else Some(Field(content[..i], after))
  }

  function Trimmed(f: Field): Field {
    Field(f.name, TrimSpace(f.value))
  }

  function ParseField(content: bytes): Option<Field> {
    match SplitField(content)
    case None => None
    case Some(f) => Some(Trimmed(f))
  }

  datatype Block = Block(fields: seq<Field>, length: nat) | NoBlock(error: HeaderError)

  function AddField(f: Field, length: nat, rest: Block): Block {
    if rest.Block? then Block([f] + rest.fields, length + rest.length) else rest
  }

  /** The fields up to the first empty line, in at most budget bytes. */
  function ReadBlock(s: bytes, budget: nat): Block {
    match ScanLine(s, budget)
    case Cut => NoBlock(StreamEnded)
    case TooLong => NoBlock(TooLarge)
    case Line(n) =>
      var content := TrimLineEnding(s[..n]);
      if content == [] then Block([], n)
      else
        var f := ParseField(content);
        if f.None? then NoBlock(Malformed) else AddField(f.value, n, ReadBlock(s[n..], budget - n))
  }

  /** The same fields with their values as they were received. */
  function RawFields(s: bytes, budget: nat): seq<Field> {
    match ScanLine(s, budget)
    case Cut => []
    case TooLong => []
    case Line(n) =>
      match SplitField(TrimLineEnding(s[..n]))
      case None => []
      case Some(f) => [f] + RawFields(s[n..], budget - n)
  }

  // ----- exact consumption -----

  /** The last line is empty: LF or CRLF, at the start or after a line feed. */
  predicate EndsBlank(t: bytes) {
    var n := |t|;
    && n >= 1 && t[n - 1] == LF
    && (n == 1 || t[n - 2] == LF || (t[n - 2] == CR && (n == 2 || t[n - 3] == LF)))
  }

  lemma LineIsLocal(s: bytes, cap: nat, k: nat, t: bytes)
    requires ScanLine(s, cap) == Line(k) && k <= |t| && t[..k] == s[..k]
    ensures ScanLine(t, cap) == Line(k) && s[k - 1] == LF
  {
    assert forall i :: 0 <= i < k ==> t[i] == t[..k][i] == s[..k][i] == s[i];
    IndexOfIs(t, LF, k - 1);
  }

  lemma BlockStep(s: bytes, budget: nat, k: nat)
    requires ScanLine(s, budget) == Line(k)
    ensures var content := TrimLineEnding(s[..k]);
            ReadBlock(s, budget) == if content == [] then Block([], k)
                                    else if ParseField(content).None? then NoBlock(Malformed)
                                    else AddField(ParseField(content).value, k, ReadBlock(s[k..], budget - k))
  {
    hide ScanLine, TrimLineEnding, ParseField, AddField;
  }

  lemma BlockHasLine(s: bytes, budget: nat)
    ensures ReadBlock(s, budget).Block? ==> ScanLine(s, budget).Line?
  {
    hide ScanLine, TrimLineEnding, ParseField, AddField;
  }

  /** A block is at most its budget long, ends with an empty line, and is read the same whatever follows. */
  lemma {:induction false} BlockIsLocal(s: bytes, budget: nat, rest: bytes)
    requires ReadBlock(s, budget).Block?
    ensures var n := ReadBlock(s, budget).length;
            && 0 < n <= budget && n <= |s| && EndsBlank(s[..n])
            && ReadBlock(s[..n] + rest, budget) == ReadBlock(s, budget)
    decreases |s|
  {
    hide ReadBlock, ParseField, ScanLine, TrimLineEnding, EndsBlank;
    BlockHasLine(s, budget);
    var n := ReadBlock(s, budget).length;
    var k := ScanLine(s, budget).length;
    BlockStep(s, budget, k);
    if TrimLineEnding(s[..k]) == [] {
      var t := s[..n] + rest;
      assert t[..k] == s[..k];
      LineIsLocal(s, budget, k, t);
      EmptyLine(s[..k]);
      BlockStep(t, budget, k);
    } else {
      BlockIsLocal(s[k..], budget - k, rest);
      var t := s[..n] + rest;
      assert t[..k] == s[..k] && t[k..] == s[k..][..n - k] + rest;
      LineIsLocal(s, budget, k, t);
      BlankAfterLine(s, k, n);
      BlockStep(t, budget, k);
    }
  }

  lemma EmptyLine(line: bytes)
    requires TrimLineEnding(line) == [] && line != []
    ensures EndsBlank(line)
  {
  }

  lemma BlankAfterLine(s: bytes, k: nat, n: nat)
    requires 0 < k < n <= |s| && s[k - 1] == LF && EndsBlank(s[k..][..n - k])
    ensures EndsBlank(s[..n])
  {
  }

  // ----- the round trip -----

  predicate Sendable(f: Field) {
    && f.name != [] && IsToken(f.name)
    && NoControl(f.value) && TrimSpace(f.value) == f.value
  }

  function RenderField(f: Field): bytes {
    f.name + [COLON, SP] + f.value + CRLF
  }

  function RenderBlock(fields: seq<Field>): bytes {
    if fields == [] then CRLF else RenderField(fields[0]) + RenderBlock(fields[1..])
  }

  lemma FieldRoundTrip(f: Field)
    requires Sendable(f)
    ensures ParseField(f.name + [COLON, SP] + f.value) == Some(f)
  {
    hide IsToken, NoControl, TrimSpace;
    var content := f.name + [COLON, SP] + f.value;
    NoColonInToken(f.name);
    IndexOfIs(content, COLON, |f.name|);
    assert content[..|f.name|] == f.name;
    var after := content[|f.name| + 1..];
    assert after == [SP] + f.value;
    BlankIsTrimmed(f.value);
    BlankIsNoControl(f.value);
  }

  lemma NoColonInToken(name: bytes)
    requires IsToken(name)
    ensures forall i :: 0 <= i < |name| ==> name[i] != COLON && name[i] != LF
  {
    assert !IsTokenChar(COLON) && !IsTokenChar(LF);
  }

  lemma BlankIsNoControl(v: bytes)
    requires NoControl(v)
    ensures NoControl([SP] + v)
  {
  }

  lemma BlankIsTrimmed(v: bytes)
    ensures TrimSpace([SP] + v) == TrimSpace(v)
  {
    assert ([SP] + v)[..1] == [SP] && ([SP] + v)[1..] == v;
  }

  lemma RenderedLine(f: Field, rest: bytes, budget: nat)
    requires Sendable(f) && |RenderField(f)| <= budget
    ensures ScanLine(RenderField(f) + rest, budget) == Line(|RenderField(f)|)
    ensures TrimLineEnding(RenderField(f)) == f.name + [COLON, SP] + f.value
  {
    hide IsTokenChar, TrimSpace;
    NoColonInToken(f.name);
    var line := RenderField(f);
    var k := |line|;
    assert line[k - 2..] == CRLF;
    assert line[..k - 2] == f.name + [COLON, SP] + f.value;
    assert forall i :: 0 <= i < |f.value| ==> f.value[i] != LF by {
      assert IsControl(LF);
    }
    IndexOfIs(line + rest, LF, k - 1);
  }

  lemma BlankLine(s: bytes, budget: nat)
    requires CRLF <= s && budget >= 2
    ensures ScanLine(s, budget) == Line(2) && TrimLineEnding(CRLF) == []
  {
    assert s[0] == CRLF[0] && s[1] == CRLF[1];
    IndexOfIs(s, LF, 1);
    assert CRLF[0..] == CRLF && CRLF[..0] == [];
  }

  /** Writing fields and reading them back gives the same fields and takes exactly what was written. */
  lemma {:induction false} BlockRoundTrip(fields: seq<Field>, rest: bytes, budget: nat)
    requires forall i :: 0 <= i < |fields| ==> Sendable(fields[i])
    requires |RenderBlock(fields)| <= budget
    ensures ReadBlock(RenderBlock(fields) + rest, budget) == Block(fields, |RenderBlock(fields)|)
    decreases |fields|
  {
    hide RenderField, ParseField, Sendable, ReadBlock, ScanLine, TrimLineEnding;
    var s := RenderBlock(fields) + rest;
    if fields == [] {
      assert s[..2] == CRLF;
      BlankLine(s, budget);
      BlockStep(s, budget, 2);
    } else {
      var f := fields[0];
      var tail := RenderBlock(fields[1..]) + rest;
      assert s == RenderField(f) + tail;
      RenderedLine(f, tail, budget);
      FieldRoundTrip(f);
      var k := |RenderField(f)|;
      assert s[..k] == RenderField(f) && s[k..] == tail;
      BlockStep(s, budget, k);
      BlockRoundTrip(fields[1..], rest, budget - k);
      assert [f] + fields[1..] == fields;
    }
  }
}
