/** Bytes, the few results and text operations every other module of the model uses. */
module Bytes {

  type byte = b: int | 0 <= b < 256
  type bytes = seq<byte>

  datatype Option<+T> = None | Some(value: T)

  const TAB: byte := 0x09
  const LF: byte := 0x0A
  const CR: byte := 0x0D
  const SP: byte := 0x20
  const COMMA: byte := 0x2C
  const COLON: byte := 0x3A
  const SEMICOLON: byte := 0x3B
  const DEL: byte := 0x7F
  const CRLF: bytes := [CR, LF]

  const MAX_INT64: nat := 0x7FFF_FFFF_FFFF_FFFF

  /** The control characters the parsers refuse: all but the horizontal tab. */
  predicate IsControl(c: byte) {
    (c < 0x20 && c != TAB) || c == DEL
  }

  predicate NoControl(s: bytes) {
    forall i :: 0 <= i < |s| ==> !IsControl(s[i])
  }

  predicate IsBlank(c: byte) {
    c == SP || c == TAB
  }

  predicate IsDigit(c: byte) {
    0x30 <= c <= 0x39
  }

  /** A token character of section 5.6.2 of RFC 9110. */
  predicate IsTokenChar(c: byte) {
    IsDigit(c) || 0x61 <= c <= 0x7A || 0x41 <= c <= 0x5A
    || c in [0x21, 0x23, 0x24, 0x25, 0x26, 0x27, 0x2A, 0x2B, 0x2D, 0x2E, 0x5E, 0x5F, 0x60, 0x7C, 0x7E]
  }

  predicate IsToken(s: bytes) {
    forall i :: 0 <= i < |s| ==> IsTokenChar(s[i])
  }

  /** The bytes of an ASCII literal. */
  function Ascii(text: string): (r: bytes)
    requires forall i :: 0 <= i < |text| ==> text[i] < 128 as char
    ensures |r| == |text|
    ensures forall i :: 0 <= i < |text| ==> r[i] == text[i] as int
  {
    seq(|text|, i requires 0 <= i < |text| => text[i] as int)
  }

  /** Position of the first c, or |s| when there is none. */
  function IndexOf(s: bytes, c: byte): (i: nat)
    ensures i <= |s|
    ensures i < |s| ==> s[i] == c
    ensures forall j :: 0 <= j < i ==> s[j] != c
  {
    if s == [] || s[0] == c then 0 else 1 + IndexOf(s[1..], c)
  }

  lemma IndexOfIs(s: bytes, c: byte, i: nat)
    requires i <= |s|
    requires i < |s| ==> s[i] == c
    requires forall j :: 0 <= j < i ==> s[j] != c
    ensures IndexOf(s, c) == i
  {
  }

  function LowerByte(c: byte): byte {
    if 0x41 <= c <= 0x5A then c + 32 else c
  }

  function Lower(s: bytes): (r: bytes)
    ensures |r| == |s|
  {
    seq(|s|, i requires 0 <= i < |s| => LowerByte(s[i]))
  }

  const UPPER_LETTERS: bytes := Ascii("ABCDEFGHIJKLMNOPQRSTUVWXYZ")
  const LOWER_LETTERS: bytes := Ascii("abcdefghijklmnopqrstuvwxyz")

  /** Each of the 26 letters becomes the small one of its place; every other byte is kept. */
  lemma LowerByteIs(c: byte)
    ensures forall i :: 0 <= i < 26 && c == UPPER_LETTERS[i] ==> LowerByte(c) == LOWER_LETTERS[i]
    ensures c !in UPPER_LETTERS ==> LowerByte(c) == c
  {
    Letters();
    hide Ascii;
    Consecutive(UPPER_LETTERS, 0x41, c);
  }

  lemma Letters()
    ensures |UPPER_LETTERS| == |LOWER_LETTERS| == 26
    ensures forall i :: 0 <= i < 26 ==> UPPER_LETTERS[i] == 0x41 + i && LOWER_LETTERS[i] == 0x61 + i
  {
  }

  /** The characters section 5.6.2 of RFC 9110 names, and no others. */
  lemma TokenAlphabet(c: byte)
    ensures IsTokenChar(c)
            <==> c in Ascii("!#$%&'*+-.^_`|~") || c in Ascii("0123456789") || c in LOWER_LETTERS || c in UPPER_LETTERS
  {
    Punctuation();
    Letters();
    hide Ascii;
    Consecutive(Ascii("0123456789"), 0x30, c);
    Consecutive(LOWER_LETTERS, 0x61, c);
    Consecutive(UPPER_LETTERS, 0x41, c);
  }

  /** Outside control characters are HTAB, SP, the visible characters, and the bytes of other texts (section 5.5
      of RFC 9110); optional white space is of SP and HTAB alone (section 5.6.3). */
  lemma TextAlphabet(c: byte)
    ensures !IsControl(c) <==> c == 0x09 || c == 0x20 || 0x21 <= c <= 0x7E || 0x80 <= c <= 0xFF
    ensures IsBlank(c) <==> c == 0x20 || c == 0x09
  {
  }

  lemma Punctuation()
    ensures Ascii("!#$%&'*+-.^_`|~") == [0x21, 0x23, 0x24, 0x25, 0x26, 0x27, 0x2A, 0x2B, 0x2D, 0x2E, 0x5E, 0x5F, 0x60, 0x7C, 0x7E]
  {
  }

  lemma Consecutive(s: bytes, first: byte, c: byte)
    requires forall i :: 0 <= i < |s| ==> s[i] == first + i
    ensures c in s <==> first <= c < first + |s|
  {
    if first <= c < first + |s| {
      assert s[c - first] == c;
    }
  }

  predicate IsHexDigit(c: byte) {
    IsDigit(c) || 0x61 <= c <= 0x66 || 0x41 <= c <= 0x46
  }

  predicate AllHex(s: bytes) {
    forall i :: 0 <= i < |s| ==> IsHexDigit(s[i])
  }
}
