/** What the framing decision comes to for the fields of a head, field by field: names in any case, lengths as
    numerals, one coding; and that trailers never change it. */
module FramingCases {
  import opened Bytes
  import opened Numerals
  import opened WhiteSpace
  import opened ChunkGrammar
  import opened HeaderFraming
  import opened FramingByRFC

  // ----- names -----

  predicate Named(f: Field, name: bytes) {
    Lower(f.name) == name
  }

  ghost predicate NoneNamed(fields: seq<Field>, name: bytes) {
    forall i :: 0 <= i < |fields| ==> !Named(fields[i], name)
  }

  /** One field has the name, and it has this value. */
  ghost predicate OneNamed(fields: seq<Field>, name: bytes, value: bytes) {
    exists i :: 0 <= i < |fields| && OnlyAt(fields, name, i) && fields[i].value == value
  }

  ghost predicate OnlyAt(fields: seq<Field>, name: bytes, i: nat) {
    i < |fields| && forall j :: 0 <= j < |fields| ==> (Named(fields[j], name) <==> j == i)
  }

  lemma {:induction false} ValuesOfNone(fields: seq<Field>, name: bytes)
    ensures NoneNamed(fields, name) <==> Values(fields, name) == []
  {
    hide Lower;
    if fields == [] {
    } else {
      var n := |fields| - 1;
      ValuesOfNone(fields[..n], name);
      assert NoneNamed(fields, name) <==> NoneNamed(fields[..n], name) && !Named(fields[n], name);
    }
  }

  lemma {:induction false} ValuesOfOne(fields: seq<Field>, name: bytes, i: nat)
    requires OnlyAt(fields, name, i)
    ensures Values(fields, name) == [fields[i].value]
  {
    hide Lower;
    var n := |fields| - 1;
    if i == n {
      ValuesOfNone(fields[..n], name);
      assert Named(fields[n], name);
    } else {
      assert !Named(fields[n], name);
      forall j | 0 <= j < n ensures Named(fields[..n][j], name) <==> j == i {
        assert fields[..n][j] == fields[j];
      }
      ValuesOfOne(fields[..n], name, i);
    }
  }

  /** The same fields, but for the case of the names. */
  ghost predicate SameButCase(a: seq<Field>, b: seq<Field>) {
    |a| == |b| && forall i :: 0 <= i < |a| ==> Lower(a[i].name) == Lower(b[i].name) && a[i].value == b[i].value
  }

  lemma {:induction false} ValuesIgnoreCase(a: seq<Field>, b: seq<Field>, name: bytes)
    requires SameButCase(a, b)
    ensures Values(a, name) == Values(b, name)
  {
    hide Lower;
    if a == [] {
    } else {
      var n := |a| - 1;
      assert SameButCase(a[..n], b[..n]);
      ValuesIgnoreCase(a[..n], b[..n], name);
    }
  }

  /** The case of field names makes no difference to the framing, nor to why none is found. */
  lemma FramingIgnoresCase(a: seq<Field>, b: seq<Field>, framing: Framing)
    requires SameButCase(a, b)
    ensures Frames(a, framing) <==> Frames(b, framing)
    ensures RefusalOf(a) == RefusalOf(b)
  {
    hide CodingsIn, ItemsIn, IsNumber, Values;
    ValuesIgnoreCase(a, b, TRANSFER_ENCODING);
    ValuesIgnoreCase(a, b, CONTENT_LENGTH);
  }

  // ----- the heads that senders write -----

  /** One value of one item. */
  lemma ItemAlone(value: bytes)
    requires COMMA !in value && TrimSpace(value) == value
    ensures AllTokens([value], ItemsIn) == [value] && AllTokens([value], CodingsIn) == [LowerCoding(value)]
  {
    hide TrimSpace, LowerCoding;
    AloneInList(value);
    assert [value][..0] == [];
    assert CodingsIn(value) == [LowerCoding(value)];
  }

  lemma NumeralIsItem(value: bytes, n: nat)
    requires Denotes(10, value, n)
    ensures COMMA !in value && TrimSpace(value) == value
  {
    hide TrimSpace, Bare, Denotes;
    DecimalIff(value, n);
    assert !IsDigit(COMMA) && IsDigit(value[0]) && IsDigit(value[|value| - 1]);
    VisibleEndsAreBare(value);
    BareIsTrimmed(value);
  }

  /** One Content-Length, a decimal numeral of n with any zeros before it, and no Transfer-Encoding: the
      body has n bytes if n fits 64 bits, and there is no other framing. */
  lemma LengthIsFramed(fields: seq<Field>, value: bytes, n: nat)
    requires NoneNamed(fields, Ascii("transfer-encoding")) && OneNamed(fields, Ascii("content-length"), value) && Denotes(10, value, n)
    ensures forall framing :: Frames(fields, framing) <==> framing == Length(n) && n <= MAX_INT64
  {
    hide Values, ItemsIn, CodingsIn, NumberOf, Denotes, LowerCoding, Lower, IsNumber;
    ValuesOfNone(fields, TRANSFER_ENCODING);
    var i :| 0 <= i < |fields| && OnlyAt(fields, CONTENT_LENGTH, i) && fields[i].value == value;
    ValuesOfOne(fields, CONTENT_LENGTH, i);
    NumeralIsItem(value, n);
    ItemAlone(value);
    assert [value][0] == value;
    forall m ensures IsNumber(value, m) <==> m == n && n <= MAX_INT64 {
      NumeralIsNumber(value, n, m);
    }
  }

  lemma NumeralIsNumber(value: bytes, n: nat, m: nat)
    requires Denotes(10, value, n)
    ensures IsNumber(value, m) <==> m == n && n <= MAX_INT64
  {
    hide Denotes;
    DecimalIff(value, n);
    DecimalIff(value, m);
    assert !IsDigit(PLUS) && !IsDigit(DASH);
  }

  /** One Transfer-Encoding, which is chunked in any case, and no Content-Length: chunked, and nothing else. */
  lemma ChunkedIsFramed(fields: seq<Field>, value: bytes)
    requires NoneNamed(fields, Ascii("content-length")) && OneNamed(fields, Ascii("transfer-encoding"), value)
    requires Lower(value) == Ascii("chunked")
    ensures forall framing :: Frames(fields, framing) <==> framing == Chunked
  {
    hide Values, ItemsIn, CodingsIn, LowerCoding, Lower, TrimSpace, Bare;
    ValuesOfNone(fields, CONTENT_LENGTH);
    var i :| 0 <= i < |fields| && OnlyAt(fields, TRANSFER_ENCODING, i) && fields[i].value == value;
    ValuesOfOne(fields, TRANSFER_ENCODING, i);
    ChunkedLetters(value);
    VisibleEndsAreBare(value);
    BareIsTrimmed(value);
    ItemAlone(value);
    ChunkedSpellings(value);
  }

  lemma ChunkedLetters(value: bytes)
    requires Lower(value) == CHUNKED
    ensures COMMA !in value && VisibleEnds(value)
  {
    assert |value| == 7;
    forall i | 0 <= i < 7 ensures value[i] != COMMA && IsVisible(value[i]) {
      assert Lower(value)[i] == CHUNKED[i];
    }
  }

  /** Neither field: no body, and nothing else. Both: refused as malformed. */
  lemma NeitherOrBoth(fields: seq<Field>)
    ensures NoneNamed(fields, TRANSFER_ENCODING) && NoneNamed(fields, CONTENT_LENGTH) ==>
              forall framing :: Frames(fields, framing) <==> framing == NoBody
    ensures !NoneNamed(fields, TRANSFER_ENCODING) && !NoneNamed(fields, CONTENT_LENGTH) ==>
              RefusalOf(fields) == Malformed && forall framing :: !Frames(fields, framing)
  {
    hide Values, ItemsIn, CodingsIn, NoneNamed, AllAre;
    ValuesOfNone(fields, TRANSFER_ENCODING);
    ValuesOfNone(fields, CONTENT_LENGTH);
  }

  // ----- trailers -----

  lemma {:induction false} ValuesOfMore(fields: seq<Field>, more: seq<Field>, name: bytes)
    requires NoneNamed(more, name)
    ensures Values(fields + more, name) == Values(fields, name)
  {
    hide Lower;
    if more == [] {
      assert fields + more == fields;
    } else {
      var n := |more| - 1;
      assert forall i :: 0 <= i < n ==> more[..n][i] == more[i];
      ValuesOfMore(fields, more[..n], name);
      assert (fields + more)[..|fields| + n] == fields + more[..n];
      assert !Named(more[n], name);
    }
  }

  ghost predicate AllAllowed(trailers: seq<Field>) {
    forall i :: 0 <= i < |trailers| ==> !ForbiddenTrailer(trailers[i].name)
  }

  lemma FieldLineIsAllowed(line: bytes, used: nat)
    ensures ReadTrailerLine(line, used).FieldLine? ==> !ForbiddenTrailer(ReadTrailerLine(line, used).field.name)
  {
    hide ForbiddenTrailer, TrimSpace, IsToken, NoControl;
  }

  lemma {:induction false} TrailersAreAllowed(s: bytes, used: nat, fin: Ending)
    ensures AllAllowed(DecodeTrailers(s, used, fin).trailers)
    decreases |s|
  {
    hide ScanLine, ForbiddenTrailer, ReadTrailerLine;
    var scan := ScanLine(s, MAX_TRAILER_LINE);
    if scan.Line? {
      FieldLineIsAllowed(s[..scan.length], used);
      if ReadTrailerLine(s[..scan.length], used).FieldLine? {
        TrailersAreAllowed(s[scan.length..], used + scan.length, fin);
      }
    }
  }

  lemma {:induction false} DecodedTrailers(s: bytes, fin: Ending)
    ensures AllAllowed(Decode(s, fin).trailers)
    decreases |s|
  {
    hide AllAllowed, DecodeTrailers, ReadSize;
    NoTrailers();
    var h := ReadSize(s, fin);
    if h.SizeHead? {
      var tail := s[h.length..];
      if h.size == 0 {
        TrailersAreAllowed(tail, 0, fin);
      } else if |tail| >= h.size {
        var end := tail[h.size..];
        assert Decode(s, fin).trailers == DecodeCRLF(end, fin).trailers;
        if |end| >= 2 {
          DecodedTrailers(end[2..], fin);
        }
      }
    }
  }

  lemma NoTrailers()
    ensures AllAllowed([])
  {
  }

  /** Put beside the fields of the head, the trailers of a body change neither how the message is framed nor the
      values of these two fields, whatever they are. */
  lemma TrailersKeepFraming(fields: seq<Field>, s: bytes, fin: Ending, framing: Framing)
    ensures Values(fields + Decode(s, fin).trailers, TRANSFER_ENCODING) == Values(fields, TRANSFER_ENCODING)
    ensures Values(fields + Decode(s, fin).trailers, CONTENT_LENGTH) == Values(fields, CONTENT_LENGTH)
    ensures Frames(fields + Decode(s, fin).trailers, framing) <==> Frames(fields, framing)
  {
    hide Decode, Values, CodingsIn, ItemsIn, IsNumber;
    var more := Decode(s, fin).trailers;
    DecodedTrailers(s, fin);
    forall i | 0 <= i < |more| ensures !Named(more[i], TRANSFER_ENCODING) && !Named(more[i], CONTENT_LENGTH) {
      assert !ForbiddenTrailer(more[i].name);
    }
    ValuesOfMore(fields, more, TRANSFER_ENCODING);
    ValuesOfMore(fields, more, CONTENT_LENGTH);
  }

  /** No accepted trailer has a name, in any case, that frames, routes or governs the connection. */
  lemma TrailersNeverGovern(s: bytes, fin: Ending, i: nat)
    requires i < |Decode(s, fin).trailers|
    ensures Lower(Decode(s, fin).trailers[i].name) !in
            [Ascii("transfer-encoding"), Ascii("content-length"), Ascii("connection"), Ascii("host"), Ascii("keep-alive"),
             Ascii("te"), Ascii("trailer"), Ascii("trailers"), Ascii("upgrade")]
  {
    hide Decode, Lower;
    DecodedTrailers(s, fin);
    assert !ForbiddenTrailer(Decode(s, fin).trailers[i].name);
  }
}
