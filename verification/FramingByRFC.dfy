/** The framing decision compared with the letter of section 6.3 of RFC 9112, from the field values as they
    were received. The version of HTTP plays no part here: the decision never looks at it. */
module FramingByRFC {
  import opened Bytes
  import opened Numerals
  import opened WhiteSpace
  import opened ChunkGrammar
  import opened HeaderFraming

  // ----- the letter -----

  /** The items of a list, with SP and HTAB around them taken off. Quoted parameters, which may hold commas,
      stand only behind codings besides chunked. */
  function RfcItems(value: bytes): seq<bytes> {
    var parts := Split(TrimBlanks(value), COMMA);
    seq(|parts|, i requires 0 <= i < |parts| => TrimBlanks(parts[i]))
  }

  function RfcTokens(fields: seq<Field>, name: bytes): seq<bytes> {
    AllTokens(Values(fields, name), RfcItems)
  }

  /** A recipient ignores empty list items (section 5.6.1 of RFC 9110). */
  function NonEmpty(tokens: seq<bytes>): seq<bytes> {
    if tokens == [] then []
    else NonEmpty(tokens[..|tokens| - 1]) + if tokens[|tokens| - 1] == [] then [] else [tokens[|tokens| - 1]]
  }

  predicate IsChunked(coding: bytes) {
    Lower(coding) == CHUNKED
  }

  /** chunked is the final coding, and applied only once. */
  ghost predicate FinallyChunked(codings: seq<bytes>) {
    && codings != [] && IsChunked(codings[|codings| - 1])
    && forall i :: 0 <= i < |codings| - 1 ==> !IsChunked(codings[i])
  }

  ghost predicate IsLength(item: bytes, n: nat) {
    Denotes(10, item, n)
  }

  /** All the items that count are one length, and there are some. */
  ghost predicate SameLengths(items: seq<bytes>, n: nat) {
    items != [] && forall i :: 0 <= i < |items| ==> IsLength(items[i], n)
  }

  /** How the standard frames a request: by a Transfer-Encoding that ends in chunked, which overrides any
      Content-Length; by a Content-Length of one decimal number, which may be repeated; or as without a body. */
  ghost predicate FramesByRFC(raw: seq<Field>, framing: Framing) {
    var te := Values(raw, TRANSFER_ENCODING);
    var cl := Values(raw, CONTENT_LENGTH);
    match framing
    case Chunked => te != [] && FinallyChunked(NonEmpty(RfcTokens(raw, TRANSFER_ENCODING)))
    case Length(n) => te == [] && cl != [] && SameLengths(NonEmpty(RfcTokens(raw, CONTENT_LENGTH)), n)
    case NoBody => te == [] && cl == []
  }

  // ----- the differences -----

  /** What the gateway refuses though it is framed: a coding besides chunked, an empty list item, both
      fields at once, and lengths beyond 64 bits. */
  ghost predicate Unsupported(raw: seq<Field>, framing: Framing) {
    || (exists i :: 0 <= i < |RfcTokens(raw, TRANSFER_ENCODING)| && !IsChunked(RfcTokens(raw, TRANSFER_ENCODING)[i]))
    || (exists i :: 0 <= i < |RfcTokens(raw, CONTENT_LENGTH)| && RfcTokens(raw, CONTENT_LENGTH)[i] == [])
    || (Values(raw, TRANSFER_ENCODING) != [] && Values(raw, CONTENT_LENGTH) != [])
    || (framing.Length? && framing.n > MAX_INT64)
  }

  /** "chunked" with U+212A for its k. */
  predicate KelvinSpelling(c: bytes) {
    |c| == 9 && Lower(c[..4]) == CHUNKED[..4] && c[4..7] == Utf8(0x212A) && Lower(c[7..]) == CHUNKED[5..]
  }

  /** White space that is neither SP nor HTAB at an end of the value or of one of its items. */
  ghost predicate OddValue(value: bytes) {
    || OddSpace(value)
    || exists i :: 0 <= i < |Split(TrimBlanks(value), COMMA)| && OddSpace(Split(TrimBlanks(value), COMMA)[i])
  }

  ghost predicate OddValues(values: seq<bytes>) {
    exists i :: 0 <= i < |values| && OddValue(values[i])
  }

  /** What the gateway accepts though it is not valid: a signed length, the Kelvin spelling, odd white space. */
  ghost predicate Unusual(raw: seq<Field>) {
    || OddValues(Values(raw, CONTENT_LENGTH)) || OddValues(Values(raw, TRANSFER_ENCODING))
    || (exists i :: 0 <= i < |RfcTokens(raw, CONTENT_LENGTH)| && Signed(RfcTokens(raw, CONTENT_LENGTH)[i]))
    || (exists i :: 0 <= i < |RfcTokens(raw, TRANSFER_ENCODING)| && KelvinSpelling(RfcTokens(raw, TRANSFER_ENCODING)[i]))
  }

  // ----- received and trimmed values -----

  function TrimAll(raw: seq<Field>): (fields: seq<Field>)
    ensures |fields| == |raw|
  {
    seq(|raw|, i requires 0 <= i < |raw| => Trimmed(raw[i]))
  }

  function TrimValues(values: seq<bytes>): (r: seq<bytes>)
    ensures |r| == |values|
  {
    seq(|values|, i requires 0 <= i < |values| => TrimSpace(values[i]))
  }

  lemma {:induction false} ValuesOfTrimmed(raw: seq<Field>, name: bytes)
    ensures Values(TrimAll(raw), name) == TrimValues(Values(raw, name))
  {
    hide TrimSpace, Lower;
    if raw == [] {
      assert Values(TrimAll(raw), name) == [];
    } else {
      var n := |raw| - 1;
      assert TrimAll(raw)[..n] == TrimAll(raw[..n]);
      ValuesOfTrimmed(raw[..n], name);
      TrimValuesOfSum(Values(raw[..n], name), if Lower(raw[n].name) == name then [raw[n].value] else []);
    }
  }

  lemma TrimValuesOfSum(a: seq<bytes>, b: seq<bytes>)
    ensures TrimValues(a + b) == TrimValues(a) + TrimValues(b)
  {
    hide TrimSpace;
  }

  /** The fields the head is parsed into are the received ones, trimmed. */
  lemma {:induction false} BlockIsTrimmed(s: bytes, budget: nat)
    requires ReadBlock(s, budget).Block?
    ensures ReadBlock(s, budget).fields == TrimAll(RawFields(s, budget))
    decreases |s|
  {
    hide ReadBlock, SplitField, ScanLine, TrimLineEnding, TrimSpace;
    BlockHasLine(s, budget);
    var k := ScanLine(s, budget).length;
    BlockStep(s, budget, k);
    var content := TrimLineEnding(s[..k]);
    if content == [] {
      NoField();
    } else {
      BlockIsTrimmed(s[k..], budget - k);
      TrimFirst(SplitField(content).value, RawFields(s[k..], budget - k));
    }
  }

  lemma NoField()
    ensures SplitField([]) == None
  {
  }

  lemma TrimFirst(f: Field, rest: seq<Field>)
    ensures TrimAll([f] + rest) == [Trimmed(f)] + TrimAll(rest)
  {
    hide TrimSpace;
  }

  // ----- without odd white space both read the same items -----

  lemma SameItems(value: bytes)
    requires !OddValue(value)
    ensures ItemsIn(TrimSpace(value)) == RfcItems(value) == SpellingsIn(TrimSpace(value))
  {
    hide OddSpace, TrimSpace, TrimBlanks, Split, Bare;
    TrimmingsAgreeIff(value);
    var v := TrimSpace(value);
    var a, b := TrimSpaceParts(value);
    BareIsTrimmed(v);
    var parts := Split(v, COMMA);
    forall i | 0 <= i < |parts| ensures TrimSpace(parts[i]) == TrimBlanks(parts[i]) {
      TrimmingsAgreeIff(parts[i]);
    }
  }

  lemma {:induction false} SameTokens(values: seq<bytes>)
    requires !OddValues(values)
    ensures AllTokens(TrimValues(values), ItemsIn) == AllTokens(values, RfcItems) == AllTokens(TrimValues(values), SpellingsIn)
  {
    hide OddValue, TrimSpace, ItemsIn, SpellingsIn, RfcItems;
    if values == [] {
      assert TrimValues(values) == [];
    } else {
      var n := |values| - 1;
      assert TrimValues(values)[..n] == TrimValues(values[..n]);
      assert forall i :: 0 <= i < n ==> values[..n][i] == values[i];
      SameTokens(values[..n]);
      SameItems(values[n]);
    }
  }

  // ----- valid items leave no odd white space -----

  predicate Solid(item: bytes) {
    item != [] && VisibleEnds(item)
  }

  ghost predicate AllSolid(items: seq<bytes>) {
    forall i :: 0 <= i < |items| ==> Solid(items[i])
  }

  lemma {:induction false} SplitEnds(s: bytes, sep: byte)
    ensures var p := Split(s, sep);
            p[0] <= s && |p[|p| - 1]| <= |s| && s[|s| - |p[|p| - 1]|..] == p[|p| - 1]
    decreases |s|
  {
    hide IndexOf;
    var i := IndexOf(s, sep);
    if i == |s| {
      assert s[0..] == s;
    } else {
      var rest := s[i + 1..];
      SplitEnds(rest, sep);
      var q := Split(rest, sep);
      var last := q[|q| - 1];
      assert Split(s, sep) == [s[..i]] + q;
      assert s[|s| - |last|..] == rest[|rest| - |last|..];
    }
  }

  lemma TrimBlanksKeepsEnds(p: bytes)
    requires p != []
    ensures !IsBlank(p[0]) ==> TrimBlanks(p) != [] && TrimBlanks(p)[0] == p[0]
    ensures !IsBlank(p[|p| - 1]) ==> TrimBlanks(p) != [] && TrimBlanks(p)[|TrimBlanks(p)| - 1] == p[|p| - 1]
  {
    hide TrimBlanks;
    var a, b := TrimBlanksParts(p);
    assert p == a + (TrimBlanks(p) + b);
  }

  lemma SolidItemsAreNotOdd(value: bytes)
    requires AllSolid(RfcItems(value))
    ensures !OddValue(value)
  {
    hide TrimBlanks, Split, Bare;
    var t := TrimBlanks(value);
    var p := Split(t, COMMA);
    forall i | 0 <= i < |p| ensures !OddSpace(p[i]) {
      assert Solid(RfcItems(value)[i]);
      VisibleEndsAreBare(TrimBlanks(p[i]));
    }
    SplitEnds(t, COMMA);
    assert RfcItems(value)[0] == TrimBlanks(p[0]) && RfcItems(value)[|p| - 1] == TrimBlanks(p[|p| - 1]);
    SolidEnds(value, t, p[0], p[|p| - 1]);
    VisibleEndsAreBare(t);
  }

  lemma SolidEnds(value: bytes, t: bytes, first: bytes, last: bytes)
    requires t == TrimBlanks(value) && first <= t && |last| <= |t| && t[|t| - |last|..] == last
    requires Solid(TrimBlanks(first)) && Solid(TrimBlanks(last))
    ensures VisibleEnds(t)
  {
    hide TrimBlanks;
    var a, b := TrimBlanksParts(value);
    var c, d := TrimBlanksParts(first);
    var e, g := TrimBlanksParts(last);
    assert first[0] == t[0];
    assert last[|last| - 1] == t[|t| - 1];
    TrimBlanksKeepsEnds(first);
    TrimBlanksKeepsEnds(last);
  }

  lemma {:induction false} SolidTokens(values: seq<bytes>)
    requires AllSolid(AllTokens(values, RfcItems))
    ensures !OddValues(values)
  {
    hide OddValue, RfcItems, Solid;
    if values == [] {
    } else {
      var n := |values| - 1;
      var a, b := AllTokens(values[..n], RfcItems), RfcItems(values[n]);
      assert forall i :: 0 <= i < |a| ==> (a + b)[i] == a[i];
      assert forall i :: 0 <= i < |b| ==> (a + b)[|a| + i] == b[i];
      SolidTokens(values[..n]);
      SolidItemsAreNotOdd(values[n]);
      assert forall i :: 0 <= i < n ==> values[i] == values[..n][i];
    }
  }

  // ----- spellings -----

  predicate IsPlain(x: byte) {
    0x61 <= x <= 0x7A && x != 0x69 && x != 0x6B
  }

  lemma HeadAndTail(x: byte, s: bytes, y: byte, t: bytes)
    ensures [x] + s == [y] + t <==> x == y && s == t
  {
    assert ([x] + s)[0] == x && ([x] + s)[1..] == s;
    assert ([y] + t)[0] == y && ([y] + t)[1..] == t;
  }

  lemma PeelByte(s: bytes, x: byte, rest: bytes)
    requires IsPlain(x)
    ensures LowerCoding(s) == [x] + rest <==> s != [] && LowerByte(s[0]) == x && LowerCoding(s[1..]) == rest
  {
    if s == [] {
    } else {
      if DOTTED_I <= s {
        assert s[0] == DOTTED_I[0];
        HeadAndTail(0x69, LowerCoding(s[2..]), x, rest);
      } else if KELVIN_SIGN <= s {
        assert s[0] == KELVIN_SIGN[0];
        HeadAndTail(0x6B, LowerCoding(s[3..]), x, rest);
      } else {
        HeadAndTail(LowerByte(s[0]), LowerCoding(s[1..]), x, rest);
      }
    }
  }

  lemma PeelK(s: bytes, rest: bytes)
    ensures LowerCoding(s) == [0x6B] + rest
            <==> || (s != [] && LowerByte(s[0]) == 0x6B && LowerCoding(s[1..]) == rest)
                 || (KELVIN_SIGN <= s && LowerCoding(s[3..]) == rest)
  {
    if s != [] {
      if DOTTED_I <= s {
        assert s[0] == DOTTED_I[0] && !(KELVIN_SIGN <= s) by {
          assert KELVIN_SIGN[0] != DOTTED_I[0];
        }
        HeadAndTail(0x69, LowerCoding(s[2..]), 0x6B, rest);
      } else if KELVIN_SIGN <= s {
        assert s[0] == KELVIN_SIGN[0];
        HeadAndTail(0x6B, LowerCoding(s[3..]), 0x6B, rest);
      } else {
        HeadAndTail(LowerByte(s[0]), LowerCoding(s[1..]), 0x6B, rest);
      }
    }
  }

  lemma {:induction false} PeelPlain(s: bytes, a: bytes, v: bytes)
    requires forall i :: 0 <= i < |a| ==> IsPlain(a[i])
    ensures LowerCoding(s) == a + v <==> |s| >= |a| && Lower(s[..|a|]) == a && LowerCoding(s[|a|..]) == v
    decreases |a|
  {
    hide LowerCoding, LowerByte;
    if a == [] {
      assert a + v == v && s[..0] == [] && s[0..] == s;
    } else {
      assert a + v == [a[0]] + (a[1..] + v);
      PeelByte(s, a[0], a[1..] + v);
      if s == [] {
      } else {
        PeelPlain(s[1..], a[1..], v);
        if |s| >= |a| {
          assert s[1..][|a| - 1..] == s[|a|..] && s[1..][..|a| - 1] == s[..|a|][1..];
          LowerCut(s[..|a|], a);
        }
      }
    }
  }

  lemma LowerCut(s: bytes, a: bytes)
    requires s != [] && a != []
    ensures Lower(s) == a <==> LowerByte(s[0]) == a[0] && Lower(s[1..]) == a[1..]
  {
    hide LowerByte;
    assert a == [a[0]] + a[1..];
    assert Lower(s) == [LowerByte(s[0])] + Lower(s[1..]);
    HeadAndTail(LowerByte(s[0]), Lower(s[1..]), a[0], a[1..]);
  }

  lemma LowerOfSum(s: bytes, k: nat, w: bytes)
    requires k <= |s| && k <= |w|
    ensures Lower(s) == w <==> Lower(s[..k]) == w[..k] && Lower(s[k..]) == w[k..]
  {
    hide LowerByte;
    assert Lower(s) == Lower(s[..k]) + Lower(s[k..]);
    assert w == w[..k] + w[k..];
    assert |Lower(s[..k])| == k;
    assert (Lower(s[..k]) + Lower(s[k..]))[..k] == Lower(s[..k]) && (Lower(s[..k]) + Lower(s[k..]))[k..] == Lower(s[k..]);
  }

  /** Exactly two spellings are read as chunked. */
  lemma ChunkedSpellings(c: bytes)
    ensures LowerCoding(c) == CHUNKED <==> Lower(c) == CHUNKED || KelvinSpelling(c)
  {
    hide LowerCoding, LowerByte, Lower;
    var chun, ed := CHUNKED[..4], CHUNKED[5..];
    assert CHUNKED == chun + ([0x6B] + ed) && CHUNKED[4..] == [0x6B] + ed;
    PeelPlain(c, chun, [0x6B] + ed);
    if |c| >= 4 {
      var d := c[4..];
      LowerOfSum(c, 4, CHUNKED);
      PeelK(d, ed);
      if d != [] {
        PlainSpelling(d[1..], ed);
        LowerCut(d, [0x6B] + ed);
      }
      if KELVIN_SIGN <= d {
        PlainSpelling(d[3..], ed);
        assert d[..3] == c[4..7] && d[3..] == c[7..];
      }
    }
  }

  lemma PlainSpelling(s: bytes, w: bytes)
    requires forall i :: 0 <= i < |w| ==> IsPlain(w[i])
    ensures LowerCoding(s) == w <==> Lower(s) == w
  {
    hide LowerByte;
    PeelPlain(s, w, []);
    assert w + [] == w;
    assert |s| == |w| ==> s[..|w|] == s;
  }

  lemma {:induction false} CodingsOfSpellings(values: seq<bytes>)
    ensures |AllTokens(values, CodingsIn)| == |AllTokens(values, SpellingsIn)|
    ensures forall i :: 0 <= i < |AllTokens(values, CodingsIn)| ==>
                          AllTokens(values, CodingsIn)[i] == LowerCoding(AllTokens(values, SpellingsIn)[i])
  {
    hide LowerCoding, SpellingsIn;
    if values == [] {
    } else {
      CodingsOfSpellings(values[..|values| - 1]);
    }
  }

  lemma SpelledOnce(c: bytes)
    ensures Lower(c) == CHUNKED ==> !KelvinSpelling(c)
  {
    assert |Lower(c)| == |c|;
  }

  lemma NumberByRFC(t: bytes, n: nat)
    ensures IsLength(t, n) && n <= MAX_INT64 <==> NumberOf(t) == Some(n) && !Signed(t)
  {
    hide DecimalValue, Denotes;
    DecimalIff(t, n);
  }

  lemma {:induction false} NonEmptyIsAll(tokens: seq<bytes>)
    requires forall i :: 0 <= i < |tokens| ==> tokens[i] != []
    ensures NonEmpty(tokens) == tokens
  {
    if tokens == [] {
    } else {
      var n := |tokens| - 1;
      NonEmptyIsAll(tokens[..n]);
      assert tokens == tokens[..n] + [tokens[n]];
    }
  }

  /** Codings: one item that is read as chunked. */
  lemma CodingsByRFC(items: seq<bytes>)
    ensures FinallyChunked(NonEmpty(items)) && (forall i :: 0 <= i < |items| ==> IsChunked(items[i]))
            <==> |items| == 1 && LowerCoding(items[0]) == CHUNKED && !KelvinSpelling(items[0])
  {
    hide LowerCoding, KelvinSpelling, IsChunked, NonEmpty;
    EmptyIsNotChunked();
    if |items| == 1 {
      ReadAsChunked(items[0]);
    }
    if forall i :: 0 <= i < |items| ==> IsChunked(items[i]) {
      NonEmptyIsAll(items);
      var first := if items == [] then [] else items[0];
    }
  }

  lemma ReadAsChunked(c: bytes)
    ensures LowerCoding(c) == CHUNKED && !KelvinSpelling(c) <==> IsChunked(c)
  {
    hide LowerCoding, KelvinSpelling, Lower;
    ChunkedSpellings(c);
    SpelledOnce(c);
  }

  lemma EmptyIsNotChunked()
    ensures !IsChunked([])
  {
    assert |Lower([])| == 0;
  }

  lemma ChunkedIsSolid(c: bytes)
    requires IsChunked(c)
    ensures Solid(c)
  {
    assert |Lower(c)| == |c|;
    assert Lower(c)[0] == CHUNKED[0] && Lower(c)[6] == CHUNKED[6];
  }

  lemma LengthIsSolid(t: bytes, n: nat)
    requires IsLength(t, n)
    ensures Solid(t)
  {
    DecimalIff(t, n);
    assert IsDigit(t[0]) && IsDigit(t[|t| - 1]);
  }

  // ----- the comparison -----

  /** A valid framing comes from items that are solid text. */
  lemma ValidItemsAreSolid(raw: seq<Field>, framing: Framing)
    requires FramesByRFC(raw, framing) && !Unsupported(raw, framing)
    ensures AllSolid(RfcTokens(raw, CONTENT_LENGTH)) && AllSolid(RfcTokens(raw, TRANSFER_ENCODING))
  {
    hide RfcItems, IsChunked, IsLength, Solid, Values, NonEmpty;
    var te, cl := RfcTokens(raw, TRANSFER_ENCODING), RfcTokens(raw, CONTENT_LENGTH);
    NonEmptyIsAll(cl);
    forall i | 0 <= i < |te| ensures Solid(te[i]) {
      ChunkedIsSolid(te[i]);
    }
    forall i | 0 <= i < |cl| ensures Solid(cl[i]) {
      LengthIsSolid(cl[i], framing.n);
    }
  }

  lemma NothingOdd(raw: seq<Field>, framing: Framing)
    requires FramesByRFC(raw, framing) && !Unsupported(raw, framing)
    ensures !OddValues(Values(raw, CONTENT_LENGTH)) && !OddValues(Values(raw, TRANSFER_ENCODING))
  {
    hide FramesByRFC, Unsupported, AllSolid, OddValues;
    ValidItemsAreSolid(raw, framing);
    SolidTokens(Values(raw, CONTENT_LENGTH));
    SolidTokens(Values(raw, TRANSFER_ENCODING));
  }

  /** Once both read the same items, they differ in the spellings alone. */
  lemma SameFraming(raw: seq<Field>, framing: Framing)
    requires !OddValues(Values(raw, CONTENT_LENGTH)) && !OddValues(Values(raw, TRANSFER_ENCODING))
    ensures FramesByRFC(raw, framing) && !Unsupported(raw, framing) <==> Frames(TrimAll(raw), framing) && !Unusual(raw)
  {
    hide OddValues, RfcItems, ItemsIn, SpellingsIn, CodingsIn, Values, NonEmpty, FinallyChunked, IsChunked, IsLength, Signed,
      KelvinSpelling, NumberOf, LowerCoding, TrimAll, TrimSpace;
    var te, cl := Values(raw, TRANSFER_ENCODING), Values(raw, CONTENT_LENGTH);
    ValuesOfTrimmed(raw, TRANSFER_ENCODING);
    ValuesOfTrimmed(raw, CONTENT_LENGTH);
    SameTokens(te);
    SameTokens(cl);
    CodingsOfSpellings(TrimValues(te));
    CodingsByRFC(RfcTokens(raw, TRANSFER_ENCODING));
    match framing {
      case Chunked =>
      case Length(n) =>
        if cl != [] {
          SomeToken(TrimValues(cl));
        }
        LengthsByRFC(RfcTokens(raw, CONTENT_LENGTH), n);
      case NoBody =>
    }
  }

  /** Lengths: items that are all the same unsigned number. */
  lemma LengthsByRFC(items: seq<bytes>, n: nat)
    ensures SameLengths(NonEmpty(items), n) && n <= MAX_INT64 && (forall i :: 0 <= i < |items| ==> items[i] != [])
            <==> items != [] && AllAre(items, n) && forall i :: 0 <= i < |items| ==> !Signed(items[i])
  {
    hide IsLength, NumberOf, IsNumber, Signed, NonEmpty;
    NumbersIff();
    forall t ensures IsLength(t, n) && n <= MAX_INT64 <==> NumberOf(t) == Some(n) && !Signed(t) {
      NumberByRFC(t, n);
    }
    forall t ensures IsLength(t, n) ==> t != [] {
      LengthIsDigits(t, n);
    }
    if forall i :: 0 <= i < |items| ==> items[i] != [] {
      NonEmptyIsAll(items);
    }
    var first := if items == [] then [] else items[0];
  }

  lemma LengthIsDigits(t: bytes, n: nat)
    ensures IsLength(t, n) ==> t != [] && AllDigits(t)
  {
    DecimalIff(t, n);
  }

  /** The gateway frames a message as the standard does, but for what it does not support and for three
      unusual spellings. */
  lemma FramesAsRFC(raw: seq<Field>, framing: Framing)
    ensures FramesByRFC(raw, framing) && !Unsupported(raw, framing) <==> Frames(TrimAll(raw), framing) && !Unusual(raw)
  {
    hide FramesByRFC, Unsupported, Frames, OddValues;
    if OddValues(Values(raw, CONTENT_LENGTH)) || OddValues(Values(raw, TRANSFER_ENCODING)) {
      if FramesByRFC(raw, framing) && !Unsupported(raw, framing) {
        NothingOdd(raw, framing);
      }
    } else {
      SameFraming(raw, framing);
    }
  }

  // ----- accepted, and not valid -----

  lemma {:induction false} OneField(name: bytes, value: bytes, other: bytes)
    requires Lower(name) == name && name != other
    ensures Values([Field(name, value)], name) == [value] && Values([Field(name, value)], other) == []
  {
    assert [Field(name, value)][..0] == [];
  }

  lemma NamesAreLower()
    ensures Lower(CONTENT_LENGTH) == CONTENT_LENGTH && Lower(TRANSFER_ENCODING) == TRANSFER_ENCODING
    ensures CONTENT_LENGTH != TRANSFER_ENCODING
  {
    assert |CONTENT_LENGTH| != |TRANSFER_ENCODING|;
  }

  /** A value that is one item, with nothing to trim. */
  lemma OneItem(value: bytes)
    requires COMMA !in value && Bare(value) && value != [] && !IsBlank(value[0]) && !IsBlank(value[|value| - 1])
    ensures !OddValues([value]) && AllTokens([value], RfcItems) == [value] && AllTokens([value], SpellingsIn) == [value]
  {
    hide TrimSpace, Bare;
    OnlyItem([], value, []);
    assert [] + value + [] == value;
    BareIsTrimmed(value);
    SameTokens([value]);
    assert TrimValues([value]) == [value];
  }

  /** A value that is one item between blanks and what the standard does not trim. */
  lemma OnlyItem(a: bytes, item: bytes, b: bytes)
    requires COMMA !in item && item != [] && !IsBlank(item[0]) && !IsBlank(item[|item| - 1]) && Blanks(a) && Blanks(b)
    ensures TrimBlanks(a + item + b) == item && RfcItems(a + item + b) == [item]
    ensures AllTokens([a + item + b], RfcItems) == [item]
    ensures Bare(item) ==> !OddValues([a + item + b])
  {
    hide TrimBlanks, Bare;
    TrimBlanksOf(a, item, b);
    NoBlanks();
    TrimBlanksOf([], item, []);
    assert [] + item + [] == item;
    IndexOfIs(item, COMMA, |item|);
    assert Split(item, COMMA) == [item];
    assert [a + item + b][..0] == [];
  }

  lemma LengthAccepted(raw: seq<Field>, value: bytes, item: bytes, n: nat)
    requires raw == [Field(CONTENT_LENGTH, value)] && TrimSpace(value) == item && COMMA !in item && NumberOf(item) == Some(n)
    ensures Frames(TrimAll(raw), Length(n)) && Values(raw, CONTENT_LENGTH) == [value] && Values(raw, TRANSFER_ENCODING) == []
  {
    hide TrimSpace, NumberOf, IsNumber, Lower, Split;
    NumberIff(item, n);
    NamesAreLower();
    OneField(CONTENT_LENGTH, value, TRANSFER_ENCODING);
    ValuesOfTrimmed(raw, CONTENT_LENGTH);
    ValuesOfTrimmed(raw, TRANSFER_ENCODING);
    assert TrimValues([value]) == [item];
    var a, b := TrimSpaceParts(value);
    BareIsTrimmed(item);
    AloneInList(item);
    assert [item][..0] == [];
    assert AllTokens([item], ItemsIn) == [item];
  }

  lemma AloneInList(item: bytes)
    requires COMMA !in item && TrimSpace(item) == item
    ensures ItemsIn(item) == [item]
  {
    hide TrimSpace;
    IndexOfIs(item, COMMA, |item|);
  }

  /** A single item that is not all digits is no length of the standard. */
  lemma NoLength(raw: seq<Field>, item: bytes)
    requires Values(raw, TRANSFER_ENCODING) == [] && RfcTokens(raw, CONTENT_LENGTH) == [item]
    requires Values(raw, CONTENT_LENGTH) != [] && item != [] && !AllDigits(item)
    ensures forall f :: !FramesByRFC(raw, f)
  {
    hide RfcItems, Values, AllDigits, NonEmpty, IsLength;
    NonEmptyIsAll([item]);
    assert [item][0] == item;
    forall n ensures !IsLength(item, n) {
      LengthIsDigits(item, n);
    }
  }

  /** "+5" is a length here. */
  lemma PlusIsAccepted()
    ensures var raw := [Field(CONTENT_LENGTH, [PLUS, 0x35])];
            Frames(TrimAll(raw), Length(5)) && forall f :: !FramesByRFC(raw, f)
  {
    hide TrimSpace, NumberOf, Lower, Split, RfcItems, Bare, ItemsIn, AllDigits;
    var five := [PLUS, 0x35];
    PlusFive(five);
    VisibleEndsAreBare(five);
    BareIsTrimmed(five);
    LengthAccepted([Field(CONTENT_LENGTH, five)], five, five, 5);
    NoBlanks();
    OnlyItem([], five, []);
    assert [] + five + [] == five;
    NoLength([Field(CONTENT_LENGTH, five)], five);
  }

  lemma PlusFive(t: bytes)
    requires t == [PLUS, 0x35]
    ensures NumberOf(t) == Some(5) && !AllDigits(t)
  {
    Five(t[1..]);
    assert !IsDigit(t[0]);
  }

  /** A no-break space (U+00A0) behind a length is taken off like a blank. */
  lemma NoBreakSpaceIsAccepted()
    ensures var raw := [Field(CONTENT_LENGTH, [0x35, 0xC2, 0xA0])];
            Frames(TrimAll(raw), Length(5)) && forall f :: !FramesByRFC(raw, f)
  {
    hide TrimSpace, NumberOf, Lower, Split, RfcItems, Bare, ItemsIn, AllDigits, Spaces;
    var five, value: bytes := [0x35], [0x35, 0xC2, 0xA0];
    Five(five);
    NoBreakSpace();
    VisibleEndsAreBare(five);
    EmptyIsBare();
    TrimSpaceOf([], five, [0xC2, 0xA0]);
    assert [] + five + [0xC2, 0xA0] == value;
    LengthAccepted([Field(CONTENT_LENGTH, value)], value, five, 5);
    NoBlanks();
    OnlyItem([], value, []);
    assert [] + value + [] == value;
    NotDigits(value);
    NoLength([Field(CONTENT_LENGTH, value)], value);
  }

  lemma Five(t: bytes)
    requires t == [0x35]
    ensures NumberOf(t) == Some(5) && IsLength(t, 5)
  {
    assert DIGITS[5] == 0x35;
    assert NumeralOf(10, 5) == t;
    ShortestDenotes(10, 5);
    DecimalIff(t, 5);
  }

  lemma NotDigits(value: bytes)
    requires |value| == 3 && value[1] == 0xC2
    ensures !AllDigits(value)
  {
    assert !IsDigit(value[1]);
  }

  /** The coding with the Kelvin sign is chunked here. */
  lemma KelvinIsAccepted()
    ensures var raw := [Field(TRANSFER_ENCODING, CHUNKED[..4] + KELVIN_SIGN + CHUNKED[5..])];
            Frames(TrimAll(raw), Chunked) && forall f :: !FramesByRFC(raw, f)
  {
    hide TrimSpace, Split, Bare, RfcItems, SpellingsIn, CodingsIn, LowerCoding, Lower, KelvinSpelling, NonEmpty;
    var c := CHUNKED[..4] + KELVIN_SIGN + CHUNKED[5..];
    var raw := [Field(TRANSFER_ENCODING, c)];
    NamesAreLower();
    OneField(TRANSFER_ENCODING, c, CONTENT_LENGTH);
    ValuesOfTrimmed(raw, TRANSFER_ENCODING);
    ValuesOfTrimmed(raw, CONTENT_LENGTH);
    KelvinIsOneItem(c);
    KelvinSpells(c);
    ChunkedSpellings(c);
    SpelledOnce(c);
    OneItem(c);
    SameTokens([c]);
    CodingsOfSpellings(TrimValues([c]));
    NonEmptyIsAll([c]);
  }

  lemma KelvinSpells(c: bytes)
    requires c == CHUNKED[..4] + KELVIN_SIGN + CHUNKED[5..]
    ensures KelvinSpelling(c)
  {
    assert c[..4] == CHUNKED[..4] && c[4..7] == KELVIN_SIGN && c[7..] == CHUNKED[5..];
    assert Lower(CHUNKED[..4]) == CHUNKED[..4] && Lower(CHUNKED[5..]) == CHUNKED[5..];
  }

  lemma KelvinIsOneItem(c: bytes)
    requires c == CHUNKED[..4] + KELVIN_SIGN + CHUNKED[5..]
    ensures COMMA !in c && Bare(c) && c != [] && !IsBlank(c[0]) && !IsBlank(c[|c| - 1])
  {
    hide Bare;
    assert c[0] == CHUNKED[0] && c[|c| - 1] == CHUNKED[6];
    VisibleEndsAreBare(c);
  }

  /** A list of one item and an empty one. */
  lemma ItemAndComma(v: bytes, item: bytes)
    requires v == item + [COMMA] && COMMA !in item && Solid(item)
    ensures AllTokens([v], RfcItems) == [item, []] && NonEmpty([item, []]) == [item]
    ensures TrimValues([v]) == [v]
    ensures |AllTokens([v], ItemsIn)| == |AllTokens([v], CodingsIn)| == 2 && AllTokens([v], ItemsIn)[1] == []
  {
    hide TrimSpace, TrimBlanks, Bare, NonEmpty, Split, LowerCoding;
    var none: bytes := [];
    VisibleEndsAreBare(v);
    BareIsTrimmed(v);
    EmptyIsBare();
    BareIsTrimmed(none);
    NoBlanks();
    TrimBlanksOf(none, v, none);
    TrimBlanksOf(none, item, none);
    TrimBlanksOf(none, none, none);
    assert none + v + none == v && none + item + none == item && none + none + none == none;
    SplitAtComma(v, item);
    assert RfcItems(v) == [item, []];
    var values: seq<bytes> := [v];
    assert values[..0] == [];
    FilterLast(item);
  }

  /** And a comma behind chunked, which a recipient is to ignore, is refused. */
  lemma EmptyItemIsRefused()
    ensures var raw := [Field(TRANSFER_ENCODING, CHUNKED + [COMMA])];
            FramesByRFC(raw, Chunked) && forall f :: !Frames(TrimAll(raw), f)
  {
    hide TrimSpace, TrimBlanks, Lower, NonEmpty, Split, RfcItems, CodingsIn, ItemsIn, IsChunked;
    var v := CHUNKED + [COMMA];
    var raw := [Field(TRANSFER_ENCODING, v)];
    NamesAreLower();
    OneField(TRANSFER_ENCODING, v, CONTENT_LENGTH);
    ValuesOfTrimmed(raw, TRANSFER_ENCODING);
    ItemAndComma(v, CHUNKED);
    ChunkedIsChunked();
  }

  /** A comma behind a length as well. */
  lemma EmptyLengthItemIsRefused()
    ensures var raw := [Field(CONTENT_LENGTH, [0x35, COMMA])];
            FramesByRFC(raw, Length(5)) && forall f :: !Frames(TrimAll(raw), f)
  {
    hide TrimSpace, TrimBlanks, Lower, NonEmpty, Split, RfcItems, ItemsIn, NumberOf, IsLength;
    var v, five: bytes := [0x35, COMMA], [0x35];
    var raw := [Field(CONTENT_LENGTH, v)];
    NamesAreLower();
    OneField(CONTENT_LENGTH, v, TRANSFER_ENCODING);
    ValuesOfTrimmed(raw, CONTENT_LENGTH);
    ValuesOfTrimmed(raw, TRANSFER_ENCODING);
    assert v == five + [COMMA];
    ItemAndComma(v, five);
    Five(five);
    NoNumber();
  }

  lemma NoNumber()
    ensures NumberOf([]) == None
  {
  }

  /** And a Content-Length beside a Transfer-Encoding, which overrides it. */
  lemma BothFieldsAreRefused()
    ensures var raw := [Field(TRANSFER_ENCODING, CHUNKED), Field(CONTENT_LENGTH, [0x35])];
            FramesByRFC(raw, Chunked) && forall f :: !Frames(TrimAll(raw), f)
  {
    hide TrimSpace, TrimBlanks, Bare, Lower, NonEmpty, Split, RfcItems;
    var five: bytes := [0x35];
    var te, cl := Field(TRANSFER_ENCODING, CHUNKED), Field(CONTENT_LENGTH, five);
    var raw := [te, cl];
    NamesAreLower();
    OneField(TRANSFER_ENCODING, CHUNKED, CONTENT_LENGTH);
    assert raw[..1] == [te];
    assert Values(raw, TRANSFER_ENCODING) == [CHUNKED];
    assert [te][..0] == [] && Values([te], CONTENT_LENGTH) == [];
    assert Values(raw, CONTENT_LENGTH) == [five];
    ValuesOfTrimmed(raw, CONTENT_LENGTH);
    ValuesOfTrimmed(raw, TRANSFER_ENCODING);
    NoBlanks();
    ChunkedIsChunked();
    OnlyItem([], CHUNKED, []);
    assert [] + CHUNKED + [] == CHUNKED;
    NonEmptyIsAll([CHUNKED]);
  }

  lemma ChunkedIsChunked()
    ensures IsChunked(CHUNKED)
  {
  }

  lemma FilterLast(c: bytes)
    requires c != []
    ensures NonEmpty([c, []]) == [c]
  {
    assert [c, []][..1] == [c] && [c][..0] == [];
    assert NonEmpty([c]) == [c];
  }

  lemma SplitAtComma(v: bytes, item: bytes)
    requires v == item + [COMMA] && COMMA !in item
    ensures Split(v, COMMA) == [item, []]
  {
    IndexOfIs(v, COMMA, |item|);
    assert v[..|item|] == item && v[|item| + 1..] == [];
    assert Split([], COMMA) == [[]];
  }
}
