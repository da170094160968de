/** White space as the standards know it, which is SP and HTAB, and as strings.TrimSpace of Go does, which
    is that of Unicode; and what trimming does in terms of the text around the result. */
module WhiteSpace {
  import opened Bytes

  // ----- strings.TrimSpace -----

  // The white-space characters of one, two and three bytes in UTF-8.

  predicate IsSpace1(c: byte) {
    0x09 <= c <= 0x0D || c == SP
  }

  predicate IsSpace2(c: byte, d: byte) {
    c == 0xC2 && (d == 0x85 || d == 0xA0)
  }

  predicate IsSpace3(c: byte, d: byte, e: byte) {
    || (c == 0xE1 && d == 0x9A && e == 0x80)
    || (c == 0xE2 && d == 0x80 && (0x80 <= e <= 0x8A || e == 0xA8 || e == 0xA9 || e == 0xAF))
    || (c == 0xE2 && d == 0x81 && e == 0x9F)
    || (c == 0xE3 && d == 0x80 && e == 0x80)
  }

  /** The length of the white-space character a text begins with, or 0. */
  function LeadingRune(s: bytes): (k: nat)
    ensures k <= |s|
  {
    if |s| >= 1 && IsSpace1(s[0]) then 1
    else if |s| >= 2 && IsSpace2(s[0], s[1]) then 2
    else if |s| >= 3 && IsSpace3(s[0], s[1], s[2]) then 3
    else 0
  }

  /** The length of the white-space character a text ends with, or 0. */
  function TrailingRune(s: bytes): (k: nat)
    ensures k <= |s|
  {
    var n := |s|;
    if n >= 1 && IsSpace1(s[n - 1]) then 1
    else if n >= 2 && IsSpace2(s[n - 2], s[n - 1]) then 2
    else if n >= 3 && IsSpace3(s[n - 3], s[n - 2], s[n - 1]) then 3
    else 0
  }

  /** The code points Unicode counts as white space. */
  predicate WhiteSpacePoint(u: nat) {
    || 0x09 <= u <= 0x0D || u == 0x20 || u == 0x85 || u == 0xA0 || u == 0x1680 || 0x2000 <= u <= 0x200A
    || u == 0x2028 || u == 0x2029 || u == 0x202F || u == 0x205F || u == 0x3000
  }

  /** A code point in one, two or three bytes, as section 3 of RFC 3629 encodes it. */
  function Utf8(u: nat): bytes
    requires u < 0x10000
  {
    if u < 0x80 then [u]
    else if u < 0x800 then [0xC0 + u / 64, 0x80 + u % 64]
    else [0xE0 + u / 4096, 0x80 + u / 64 % 64, 0x80 + u % 64]
  }

  ghost predicate EncodesSpace(e: bytes) {
    exists u: nat :: u < 0x10000 && WhiteSpacePoint(u) && e == Utf8(u)
  }

  lemma Encoded(u: nat)
    requires u < 0x10000 && WhiteSpacePoint(u)
    ensures Utf8(u) == if u < 0x80 then [u]
                       else if u < 0x800 then [0xC2, u]
                       else if u == 0x1680 then [0xE1, 0x9A, 0x80]
                       else if u == 0x205F then [0xE2, 0x81, 0x9F]
                       else if u == 0x3000 then [0xE3, 0x80, 0x80]
                       else [0xE2, 0x80, 0x80 + (u - 0x2000)]
  {
  }

  lemma SpaceOfBytes(c: byte, d: byte, e: byte)
    ensures IsSpace1(c) <==> EncodesSpace([c])
    ensures IsSpace2(c, d) <==> EncodesSpace([c, d])
    ensures IsSpace3(c, d, e) <==> EncodesSpace([c, d, e])
  {
    hide Utf8;
    forall u: nat | u < 0x10000 && WhiteSpacePoint(u)
      ensures Utf8(u) == [c] ==> IsSpace1(c)
      ensures Utf8(u) == [c, d] ==> IsSpace2(c, d)
      ensures Utf8(u) == [c, d, e] ==> IsSpace3(c, d, e)
    {
      Encoded(u);
    }
    if IsSpace1(c) {
      Encoded(c);
    }
    if IsSpace2(c, d) {
      Encoded(d);
    }
    if IsSpace3(c, d, e) {
      Encoded(if c == 0xE1 then 0x1680 else if c == 0xE3 then 0x3000 else if d == 0x81 then 0x205F else 0x2000 + (e - 0x80));
    }
  }

  /** A text begins, or ends, with white space of so many bytes exactly when these encode a code point of it. */
  lemma RunesAreSpaces(s: bytes, k: nat)
    requires 0 < k <= |s|
    ensures LeadingRune(s) == k <==> EncodesSpace(s[..k])
    ensures TrailingRune(s) == k <==> EncodesSpace(s[|s| - k..])
  {
    LeadingIsSpace(s, k);
    TrailingIsSpace(s, k);
  }

  lemma LeadingIsSpace(s: bytes, k: nat)
    requires 0 < k <= |s|
    ensures LeadingRune(s) == k <==> EncodesSpace(s[..k])
  {
    hide EncodesSpace;
    var n := |s|;
    if EncodesSpace(s[..k]) {
      SpaceLength(s[..k]);
    }
    SpaceOfBytes(s[0], if n > 1 then s[1] else 0, if n > 2 then s[2] else 0);
    assert s[..1] == [s[0]];
    assert n > 1 ==> s[..2] == [s[0], s[1]];
    assert n > 2 ==> s[..3] == [s[0], s[1], s[2]];
  }

  /** No last byte belongs to characters of two lengths. */
  lemma NotBoth(d: byte, e: byte, c: byte)
    ensures !(IsSpace1(e) && IsSpace2(d, e)) && !(IsSpace1(e) && IsSpace3(c, d, e)) && !(IsSpace2(d, e) && IsSpace3(c, d, e))
  {
  }

  lemma TrailingIsSpace(s: bytes, k: nat)
    requires 0 < k <= |s|
    ensures TrailingRune(s) == k <==> EncodesSpace(s[|s| - k..])
  {
    hide EncodesSpace;
    var n := |s|;
    if EncodesSpace(s[n - k..]) {
      SpaceLength(s[n - k..]);
    }
    SpaceOfBytes(s[n - 1], 0, 0);
    assert s[n - 1..] == [s[n - 1]];
    hide IsSpace1, IsSpace2, IsSpace3;
    if n > 1 {
      SpaceOfBytes(s[n - 2], s[n - 1], 0);
      assert s[n - 2..] == [s[n - 2], s[n - 1]];
      NotBoth(s[n - 2], s[n - 1], if n > 2 then s[n - 3] else 0);
    }
    if n > 2 {
      SpaceOfBytes(s[n - 3], s[n - 2], s[n - 1]);
      assert s[n - 3..] == [s[n - 3], s[n - 2], s[n - 1]];
    }
  }

  lemma SpaceLength(e: bytes)
    requires EncodesSpace(e)
    ensures 1 <= |e| <= 3
  {
  }

  function TrimLeft(s: bytes): (r: bytes)
    ensures |r| <= |s|
    decreases |s|
  {
    var k := LeadingRune(s);
    if k == 0 then s else TrimLeft(s[k..])
  }

  function TrimRight(s: bytes): (r: bytes)
    ensures |r| <= |s|
    decreases |s|
  {
    var k := TrailingRune(s);
    if k == 0 then s else TrimRight(s[..|s| - k])
  }

  function TrimSpace(s: bytes): (r: bytes)
    ensures |r| <= |s|
  {
    TrimRight(TrimLeft(s))
  }

  function BlankPrefix(s: bytes): (k: nat)
    ensures k <= |s| && (forall i :: 0 <= i < k ==> IsBlank(s[i])) && (k < |s| ==> !IsBlank(s[k]))
  {
    if s == [] || !IsBlank(s[0]) then 0 else 1 + BlankPrefix(s[1..])
  }

  lemma BlankPrefixIs(s: bytes, k: nat)
    requires k <= |s| && (forall i :: 0 <= i < k ==> IsBlank(s[i])) && (k < |s| ==> !IsBlank(s[k]))
    ensures BlankPrefix(s) == k
  {
  }

  function TrimRightBlanks(s: bytes): (r: bytes)
    ensures |r| <= |s| && r == s[..|r|]
    ensures forall i :: |r| <= i < |s| ==> IsBlank(s[i])
    ensures r != [] ==> !IsBlank(r[|r| - 1])
  {
    if s != [] && IsBlank(s[|s| - 1]) then TrimRightBlanks(s[..|s| - 1]) else s
  }

  lemma TrimRightBlanksIs(s: bytes, k: nat)
    requires 0 < k <= |s| && !IsBlank(s[k - 1])
    requires forall i :: k <= i < |s| ==> IsBlank(s[i])
    ensures TrimRightBlanks(s) == s[..k]
  {
  }

  /** White-space characters and nothing else. */
  predicate Spaces(s: bytes)
    decreases |s|
  {
    s == [] || (LeadingRune(s) > 0 && Spaces(s[LeadingRune(s)..]))
  }

  /** No white space at either end. */
  predicate Bare(v: bytes) {
    LeadingRune(v) == 0 && TrailingRune(v) == 0
  }

  /** No character of white space begins inside another one, or with the last bytes of one. */
  lemma RuneBytes(s: bytes)
    ensures LeadingRune(s) > 0 ==> s[0] < 0x80 || s[0] >= 0xC2
    ensures forall i :: 1 <= i < LeadingRune(s) ==> 0x80 <= s[i] < 0xC0
  {
  }

  /** The first character of a text is that of any longer text; none begins in a text without one. */
  lemma LeadingRuneOfSum(a: bytes, w: bytes)
    ensures LeadingRune(a) > 0 ==> LeadingRune(a + w) == LeadingRune(a)
    ensures a != [] && LeadingRune(a) == 0 && (w == [] || w[0] < 0x80 || w[0] >= 0xC0) ==> LeadingRune(a + w) == 0
  {
    var s := a + w;
    assert forall i :: 0 <= i < |a| ==> s[i] == a[i];
    RuneBytes(s);
    assert w != [] ==> s[|a|] == w[0];
  }

  lemma TrailingRuneOfSum(v: bytes, b: bytes)
    requires TrailingRune(b) > 0
    ensures TrailingRune(v + b) == TrailingRune(b)
  {
    assert forall i :: 0 <= i < |b| ==> (v + b)[|v| + i] == b[i];
  }

  lemma {:induction false} SpacesOfSum(a: bytes, b: bytes)
    requires Spaces(a) && Spaces(b)
    ensures Spaces(a + b)
    decreases |a|
  {
    hide LeadingRune;
    if a == [] {
      assert a + b == b;
    } else {
      var k := LeadingRune(a);
      LeadingRuneOfSum(a, b);
      assert (a + b)[k..] == a[k..] + b;
      SpacesOfSum(a[k..], b);
    }
  }

  /** The first character alone, read from either side. */
  lemma FirstRune(s: bytes)
    requires LeadingRune(s) > 0
    ensures var r := s[..LeadingRune(s)]; Spaces(r) && TrailingRune(r) == |r|
  {
    var r := s[..LeadingRune(s)];
    assert r[|r|..] == [];
  }

  lemma LastRune(s: bytes)
    requires TrailingRune(s) > 0
    ensures Spaces(s[|s| - TrailingRune(s)..])
  {
    var r := s[|s| - TrailingRune(s)..];
    assert r[|r|..] == [];
  }

  /** U+00A0 */
  lemma NoBreakSpace()
    ensures Spaces([0xC2, 0xA0])
  {
    var s: bytes := [0xC2, 0xA0];
    assert LeadingRune(s) == 2 && s[2..] == [];
  }

  /** White space read from the left is white space read from the right. */
  lemma {:induction false} SpacesFromRight(b: bytes)
    requires Spaces(b) && b != []
    ensures TrailingRune(b) > 0 && Spaces(b[..|b| - TrailingRune(b)])
    decreases |b|
  {
    hide LeadingRune, TrailingRune;
    var k := LeadingRune(b);
    var first, rest := b[..k], b[k..];
    FirstRune(b);
    if rest == [] {
      assert b == first && b[..0] == [];
    } else {
      SpacesFromRight(rest);
      assert b == first + rest;
      TrailingRuneOfSum(first, rest);
      var inner := rest[..|rest| - TrailingRune(rest)];
      SpacesOfSum(first, inner);
      assert b[..|b| - TrailingRune(b)] == first + inner;
    }
  }

  lemma {:induction false} TrimLeftOf(a: bytes, w: bytes)
    requires Spaces(a) && LeadingRune(w) == 0
    ensures TrimLeft(a + w) == w
    decreases |a|
  {
    if a == [] {
      assert a + w == w;
    } else {
      LeadingRuneOfSum(a, w);
      var k := LeadingRune(a);
      assert (a + w)[k..] == a[k..] + w;
      TrimLeftOf(a[k..], w);
    }
  }

  lemma {:induction false} TrimRightOf(v: bytes, b: bytes)
    requires Spaces(b) && TrailingRune(v) == 0
    ensures TrimRight(v + b) == v
    decreases |b|
  {
    hide TrailingRune;
    if b == [] {
      assert v + b == v;
    } else {
      SpacesFromRight(b);
      TrailingRuneOfSum(v, b);
      var k := TrailingRune(b);
      assert (v + b)[..|v + b| - k] == v + b[..|b| - k];
      TrimRightOf(v, b[..|b| - k]);
    }
  }

  /** Trimming takes off exactly the white space around a bare text. */
  lemma TrimSpaceOf(a: bytes, v: bytes, b: bytes)
    requires Spaces(a) && Bare(v) && Spaces(b)
    ensures TrimSpace(a + v + b) == v
  {
    hide LeadingRune, TrailingRune, TrimLeft, TrimRight;
    if v == [] {
      assert a + v + b == (a + b) + [];
      SpacesOfSum(a, b);
      EmptyIsBare();
      TrimLeftOf(a + b, []);
      TrimRightOf([], []);
      assert [] + [] == v;
    } else {
      RuneBytes(b);
      LeadingRuneOfSum(v, b);
      assert a + v + b == a + (v + b);
      TrimLeftOf(a, v + b);
      TrimRightOf(v, b);
    }
  }

  lemma EmptyIsBare()
    ensures Bare([]) && Spaces([])
  {
  }

  lemma TrimLeftStep(s: bytes)
    ensures TrimLeft(s) == if LeadingRune(s) == 0 then s else TrimLeft(s[LeadingRune(s)..])
  {
    hide LeadingRune;
  }

  lemma {:induction false} TrimLeftParts(s: bytes) returns (a: bytes)
    ensures s == a + TrimLeft(s) && Spaces(a) && LeadingRune(TrimLeft(s)) == 0
    decreases |s|
  {
    hide LeadingRune, Spaces, TrimLeft;
    TrimLeftStep(s);
    var k := LeadingRune(s);
    if k == 0 {
      EmptyIsBare();
      a := [];
    } else {
      var first, tail := s[..k], s[k..];
      var rest := TrimLeftParts(tail);
      FirstRune(s);
      SpacesOfSum(first, rest);
      a := first + rest;
      assert s == first + tail;
    }
  }

  lemma {:induction false} TrimRightParts(s: bytes) returns (b: bytes)
    ensures s == TrimRight(s) + b && Spaces(b) && TrailingRune(TrimRight(s)) == 0
    decreases |s|
  {
    hide TrailingRune, Spaces;
    var k := TrailingRune(s);
    if k == 0 {
      EmptyIsBare();
      b := [];
    } else {
      var n := |s| - k;
      var rest := TrimRightParts(s[..n]);
      LastRune(s);
      SpacesOfSum(rest, s[n..]);
      b := rest + s[n..];
    }
  }

  /** What TrimSpace leaves is bare, and what it takes off is white space. */
  lemma TrimSpaceParts(s: bytes) returns (a: bytes, b: bytes)
    ensures s == a + TrimSpace(s) + b && Spaces(a) && Bare(TrimSpace(s)) && Spaces(b)
  {
    hide LeadingRune, TrailingRune, TrimLeft, TrimRight;
    a := TrimLeftParts(s);
    b := TrimRightParts(TrimLeft(s));
    LeadingRuneOfSum(TrimSpace(s), b);
  }

  predicate IsVisible(c: byte) {
    0x20 < c < 0x80
  }

  predicate VisibleEnds(v: bytes) {
    v == [] || (IsVisible(v[0]) && IsVisible(v[|v| - 1]))
  }

  lemma VisibleEndsAreBare(v: bytes)
    requires VisibleEnds(v)
    ensures Bare(v)
  {
  }

  lemma BareIsTrimmed(v: bytes)
    requires Bare(v)
    ensures TrimSpace(v) == v
  {
    hide Bare, TrimSpace;
    EmptyIsBare();
    TrimSpaceOf([], v, []);
    assert [] + v + [] == v;
  }

  lemma {:induction false} SpacesAreInvisible(s: bytes)
    requires Spaces(s)
    ensures forall i :: 0 <= i < |s| ==> !IsVisible(s[i])
    decreases |s|
  {
    if s == [] {
    } else {
      var k := LeadingRune(s);
      SpacesAreInvisible(s[k..]);
      assert forall i :: k <= i < |s| ==> s[i] == s[k..][i - k];
    }
  }

  // ----- SP and HTAB -----

  predicate Blanks(s: bytes) {
    forall i :: 0 <= i < |s| ==> IsBlank(s[i])
  }

  function TrimBlanks(s: bytes): (r: bytes) {
    TrimRightBlanks(s[BlankPrefix(s)..])
  }

  lemma {:induction false} BlanksAreSpaces(s: bytes)
    requires Blanks(s)
    ensures Spaces(s)
    decreases |s|
  {
    if s == [] {
    } else {
      assert IsBlank(s[0]);
      BlanksAreSpaces(s[1..]);
    }
  }

  lemma TrimBlanksParts(s: bytes) returns (a: bytes, b: bytes)
    ensures s == a + TrimBlanks(s) + b && Blanks(a) && Blanks(b)
    ensures TrimBlanks(s) != [] ==> !IsBlank(TrimBlanks(s)[0]) && !IsBlank(TrimBlanks(s)[|TrimBlanks(s)| - 1])
  {
    hide BlankPrefix, TrimRightBlanks;
    var k := BlankPrefix(s);
    var u := s[k..];
    var r := TrimRightBlanks(u);
    a, b := s[..k], u[|r|..];
    assert s == a + u && u == r + b;
  }

  lemma NoBlanks()
    ensures Blanks([])
  {
  }

  lemma TrimBlanksOf(c: bytes, v: bytes, d: bytes)
    requires Blanks(c) && Blanks(d) && (v != [] ==> !IsBlank(v[0]) && !IsBlank(v[|v| - 1]))
    ensures TrimBlanks(c + v + d) == v
  {
    var s := c + v + d;
    if v == [] {
      assert forall i :: 0 <= i < |s| ==> IsBlank(s[i]);
      BlankPrefixIs(s, |s|);
      assert s[|s|..] == [];
    } else {
      assert forall i :: 0 <= i < |c| ==> s[i] == c[i];
      assert s[|c|] == v[0];
      BlankPrefixIs(s, |c|);
      assert s[|c|..] == v + d;
      TrimRightBlanksIs(v + d, |v|);
    }
  }

  /** White space other than SP and HTAB stands at an end. */
  predicate OddSpace(s: bytes) {
    !Bare(TrimBlanks(s))
  }

  /** Both trimmings agree on a text exactly when no other white space stands at its ends. */
  lemma TrimmingsAgreeIff(s: bytes)
    ensures TrimSpace(s) == TrimBlanks(s) <==> !OddSpace(s)
  {
    hide LeadingRune, TrailingRune, TrimSpace, TrimBlanks;
    if !OddSpace(s) {
      var a, b := TrimBlanksParts(s);
      BlanksAreSpaces(a);
      BlanksAreSpaces(b);
      TrimSpaceOf(a, TrimBlanks(s), b);
    } else {
      var a, b := TrimSpaceParts(s);
    }
  }
}
