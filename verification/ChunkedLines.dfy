/** The line-level half of the streaming chunked decoder: a shared buffered reader, and the loops
    that read a chunk-size line and a trailer line, each proved against the grammar's reading. */
module ChunkedLines {
  import opened Bytes
  import opened Numerals
  import opened WhiteSpace
  import opened ChunkGrammar

  const BUFFER_SIZE: nat := 4096

  /** Where a fill ends that is made f bytes behind start: with what had come by then, or when the buffer is full. */
  ghost function FillEnd(br: BufReader, start: nat, f: nat): nat {
    if br.Reach(start + f) - start > f + BUFFER_SIZE then f + BUFFER_SIZE else br.Reach(start + f) - start
  }

  /** Where the first j fills end, if each is made where the one before it ended. */
  ghost function Chain(br: BufReader, start: nat, j: nat): nat {
    if j == 0 then 0 else FillEnd(br, start, Chain(br, start, j - 1))
  }

  lemma ChainStep(br: BufReader, start: nat, j: nat)
    ensures Chain(br, start, j + 1) == FillEnd(br, start, Chain(br, start, j))
  {
    hide FillEnd;
  }

  /** A buffered reader: the bytes still to come and how they end. It stands over the network, or over
      another buffered reader, from which it then takes what it hands on. */
  class BufReader {
    const data: bytes
    const fin: Ending
    const under: BufReader?
    // over the network: how far bytes have come when a read is made at a position
    const arrived: nat -> nat
    ghost const start: nat
    var pos: nat
    // taken from the reader beneath and not handed on yet
    var buffered: bytes
    ghost var lastFill: nat
    ghost var fills: nat
    // a read that passed the buffer by has taken more than the buffer holds
    ghost var past: bool

    ghost function Parts(): (parts: set<object>)
      ensures this in parts && (under != null ==> under in parts)
    {
      if under == null then {this} else {this, under}
    }

    ghost predicate Valid()
      reads Parts()
      ensures Valid() ==> pos <= |data|
    {
      && pos + |buffered| <= |data| && buffered == data[pos..pos + |buffered|]
      && if under == null then buffered == [] else Over(under) && Accounted(under)
    }

    /** What was taken from the reader beneath is what was handed on and what is buffered. */
    ghost predicate Over(br: BufReader)
      reads this, br
    {
      && br.under == null && br.buffered == [] && br.pos == start + pos + |buffered|
      && br.fin == fin && start <= |br.data| && data == br.data[start..]
    }

    function Unread(): bytes
      requires pos <= |data|
      reads this
    {
      data[pos..]
    }

    // ----- what a fill takes -----

    /** How far a read at a position can reach: at least one byte, if there are any. */
    function Reach(p: nat): (e: nat)
      ensures p <= e && (p < |data| ==> p < e <= |data|)
    {
      if p >= |data| then p
      else if arrived(p) <= p then p + 1
      else if arrived(p) <= |data| then arrived(p) else |data|
    }

    /** The last fill was made before the bytes that were handed on ended; until a read has taken more than
        the buffer holds the fills are those of the chain. */
    ghost predicate Accounted(br: BufReader)
      reads this
    {
      && (fills == 0 ==> pos == 0 && buffered == [])
      && (fills > 0 ==> lastFill < pos && FillEnd(br, start, lastFill) <= pos + |buffered|)
      && (buffered != [] ==> fills > 0 && pos + |buffered| == FillEnd(br, start, lastFill))
      && (past ==> pos > BUFFER_SIZE)
      && (!past ==> pos + |buffered| == Chain(br, start, fills) && (fills > 0 ==> lastFill == Chain(br, start, fills - 1)))
    }

    constructor (data: bytes, fin: Ending, arrived: nat -> nat)
      ensures Valid() && this.data == data && this.fin == fin && this.arrived == arrived && pos == 0 && under == null && !past
    {
      this.data, this.fin, this.arrived, under, start := data, fin, arrived, null, 0;
      pos, buffered, lastFill, fills, past := 0, [], 0, 0, false;
    }

    /** A second buffer, over what is still to come from the first. */
    constructor Behind(br: BufReader)
      requires br.Valid() && br.under == null
      ensures Valid() && data == br.Unread() && fin == br.fin && under == br && start == br.pos && pos == 0 && buffered == [] && !past
    {
      data, fin, arrived, under, start := br.Unread(), br.fin, br.arrived, br, br.pos;
      pos, buffered, lastFill, fills, past := 0, [], 0, 0, false;
    }

    /** One read of the network into p[lo..hi]: what has come, as far as it fits. */
    method ReadNetwork(p: array<byte>, lo: nat, hi: nat) returns (n: nat)
      requires Valid() && under == null && lo < hi <= p.Length
      modifies this`pos, p
      ensures Valid() && pos == old(pos) + n && n <= |old(Unread())|
      ensures n == if Reach(old(pos)) - old(pos) < hi - lo then Reach(old(pos)) - old(pos) else hi - lo
      ensures p[..lo] == old(p[..lo]) && p[lo + n..] == old(p[lo + n..])
      ensures p[lo..lo + n] == old(Unread())[..n]
    {
      n := if Reach(pos) - pos < hi - lo then Reach(pos) - pos else hi - lo;
      forall i | 0 <= i < n { p[lo + i] := data[pos + i]; }
      pos := pos + n;
    }

    /** One read of the reader beneath into p[lo..hi], with nothing buffered; nothing comes only at the end. */
    method ReadUnder(p: array<byte>, lo: nat, hi: nat) returns (n: nat)
      requires under != null && Valid() && buffered == [] && lo < hi <= p.Length
      modifies under, p
      ensures under.under == null && under.buffered == [] && under.pos == start + pos + n && n <= |Unread()|
      ensures n == 0 <==> pos == |data|
      ensures n <= hi - lo
      ensures hi - lo >= BUFFER_SIZE && n > 0 ==> FillEnd(under, start, pos) <= pos + n
      ensures hi - lo >= BUFFER_SIZE && n <= BUFFER_SIZE ==> pos + n == FillEnd(under, start, pos)
      ensures p[..lo] == old(p[..lo]) && p[lo + n..] == old(p[lo + n..])
      ensures p[lo..lo + n] == Unread()[..n]
    {
      hide Accounted;
      assert under.Unread() == data[pos..];
      n := under.ReadNetwork(p, lo, hi);
    }

    /** Bytes lie in the buffer, from a fill that was made no later than here. */
    ghost predicate Filled()
      reads Parts()
    {
      && under != null && Over(under)
      && 0 < |buffered| <= |data| - pos && buffered == data[pos..pos + |buffered|]
      && fills > 0 && lastFill <= pos && pos + |buffered| == FillEnd(under, start, lastFill)
      && (past ==> pos > BUFFER_SIZE)
      && (!past ==> pos + |buffered| == Chain(under, start, fills) && lastFill == Chain(under, start, fills - 1))
    }

    lemma BufferedIsFilled()
      requires Valid() && buffered != []
      ensures Filled()
    {
      hide FillEnd, Chain;
    }

    /** Fills the empty buffer by one read; nothing comes only at the end. */
    method Fill()
      requires under != null && Valid() && buffered == []
      modifies Parts()
      ensures pos == old(pos) && past == old(past)
      ensures if pos < |data| then Filled() else Valid() && buffered == []
    {
      hide FillEnd, Chain;
      var tmp := new byte[BUFFER_SIZE];
      var n := ReadUnder(tmp, 0, BUFFER_SIZE);
      ChainStep(under, start, fills);
      assert tmp[0..n] == tmp[..n] && data[pos..][..n] == data[pos..pos + n];
      buffered := tmp[..n];
      if n > 0 {
        lastFill, fills := pos, fills + 1;
      }
    }

    /** Hands on the first k bytes of the buffer. */
    method HandOn(k: nat)
      requires Filled() && 0 < k <= |buffered|
      modifies this
      ensures Valid() && pos == old(pos) + k && past == old(past)
    {
      hide FillEnd, Chain;
      buffered, pos := buffered[k..], pos + k;
    }

    method ReadByte() returns (b: Option<byte>)
      requires Valid()
      modifies Parts()
      ensures Valid() && past == old(past)
      ensures b == if old(Unread()) == [] then None else Some(old(Unread())[0])
      ensures pos == if old(Unread()) == [] then old(pos) else old(pos) + 1
    {
      hide FillEnd, Chain;
      if under == null {
        if pos == |data| {
          return None;
        }
        b, pos := Some(data[pos]), pos + 1;
        return;
      }
      if buffered == [] {
        Fill();
        if buffered == [] {
          return None;
        }
      }
      b := Some(buffered[0]);
      HandOn(1);
    }

    /** A short read of at least one byte into p[lo..hi], or none at the end of the stream. */
    method Read(p: array<byte>, lo: nat, hi: nat) returns (n: nat)
      requires Valid() && lo < hi <= p.Length
      modifies Parts(), p
      ensures Valid() && pos == old(pos) + n && n <= hi - lo
      ensures hi - lo <= BUFFER_SIZE ==> past == old(past)
      ensures n == 0 <==> old(Unread()) == []
      ensures n <= |old(Unread())|
      ensures p[..lo] == old(p[..lo]) && p[lo + n..] == old(p[lo + n..])
      ensures p[lo..lo + n] == old(Unread())[..n]
    {
      hide Chain, FillEnd, Over, Accounted;
      if under == null {
        n := ReadNetwork(p, lo, hi);
        return;
      }
      if buffered == [] {
        if hi - lo >= BUFFER_SIZE {
          n := ReadPast(p, lo, hi);
          return;
        }
        Fill();
        if buffered == [] {
          return 0;
        }
      } else {
        BufferedIsFilled();
      }
      n := if |buffered| < hi - lo then |buffered| else hi - lo;
      CopyOut(p, lo, n);
    }

    method CopyOut(p: array<byte>, lo: nat, n: nat)
      requires Filled() && 0 < n <= |buffered| && lo + n <= p.Length
      modifies this, p
      ensures Valid() && pos == old(pos) + n && past == old(past)
      ensures p[..lo] == old(p[..lo]) && p[lo + n..] == old(p[lo + n..])
      ensures p[lo..lo + n] == old(Unread())[..n]
    {
      hide FillEnd, Chain;
      ghost var unread := Unread();
      assert forall i :: 0 <= i < n ==> buffered[i] == data[pos + i] == unread[i];
      forall i | 0 <= i < n { p[lo + i] := buffered[i]; }
      HandOn(n);
    }

    /** A read that asks for at least the buffer's length passes it by. */
    method ReadPast(p: array<byte>, lo: nat, hi: nat) returns (n: nat)
      requires under != null && Valid() && buffered == [] && lo + BUFFER_SIZE <= hi <= p.Length
      modifies Parts(), p
      ensures Valid() && pos == old(pos) + n && n <= hi - lo && past == (old(past) || n > BUFFER_SIZE)
      ensures n == 0 <==> old(Unread()) == []
      ensures n <= |old(Unread())|
      ensures p[..lo] == old(p[..lo]) && p[lo + n..] == old(p[lo + n..])
      ensures p[lo..lo + n] == old(Unread())[..n]
    {
      hide FillEnd, Chain;
      n := ReadUnder(p, lo, hi);
      ChainStep(under, start, fills);
      if n > 0 {
        lastFill, fills, pos, past := pos, fills + 1, pos + n, past || n > BUFFER_SIZE;
      }
    }

    /** Two bytes, or fewer when the stream ends first. */
    method ReadTwo() returns (two: bytes)
      requires Valid()
      modifies Parts()
      ensures Valid() && past == old(past)
      ensures two == old(Unread())[..if |old(Unread())| < 2 then |old(Unread())| else 2]
      ensures pos == old(pos) + |two|
    {
      hide Accounted, Over;
      var a := ReadByte();
      if a.None? {
        return [];
      }
      var b := ReadByte();
      return if b.None? then [a.value] else [a.value, b.value];
    }
  }

  /** Byte-wise reading of one line into a buffer of cap bytes. */
  method ReadLine(r: BufReader, cap: nat) returns (line: bytes, scan: LineScan)
    requires r.Valid()
    modifies r.Parts()
    ensures r.Valid() && old(r.pos) <= r.pos <= old(r.pos) + cap + 1 && r.past == old(r.past)
    ensures scan == ScanLine(old(r.Unread()), cap)
    ensures scan.Line? ==> line == old(r.Unread())[..scan.length] && r.pos == old(r.pos) + scan.length
  {
    hide BufReader.Valid;
    ghost var s := r.Unread();
    var lineBuf := new byte[cap];
    var idx := 0;
    while true
      invariant r.Valid() && idx <= cap && idx <= |s|
      invariant r.pos == old(r.pos) + idx && r.past == old(r.past)
      invariant forall i :: 0 <= i < idx ==> lineBuf[i] == s[i] && s[i] != LF
      decreases |r.data| - r.pos
    {
      var b := r.ReadByte();
      if b.None? {
        IndexOfIs(s, LF, |s|);
        return [], Cut;
      }
      if idx < cap {
        lineBuf[idx] := b.value;
        idx := idx + 1;
      } else {
        return [], TooLong;
      }
      if b.value == LF {
        break;
      }
    }
    IndexOfIs(s, LF, idx - 1);
    assert lineBuf[..idx] == s[..idx];
    return lineBuf[..idx], Line(idx);
  }

  // ----- the chunk-size line -----

  /** The part of a size line the source reads as its number: trimmed only when an extension follows. */
  function SizeToken(content: bytes, semi: nat): (token: bytes)
    requires semi <= |content|
    ensures |token| <= semi && token == content[..|token|]
    ensures semi < |content| ==> forall i :: |token| <= i < semi ==> IsBlank(content[i])
    ensures semi == |content| ==> token == content
  {
    if semi < |content| then TrimRightBlanks(content[..semi]) else content
  }

  predicate GoodToken(content: bytes, semi: nat)
    requires semi <= |content|
  {
    var token := SizeToken(content, semi);
    token != [] && AllHex(token) && HexValue(token) <= MAX_INT64 &&
    (semi < |content| ==> |content| - |token| < MAX_CHUNK_EXTENSION_BYTES && NoControl(content[semi..]))
  }

  /** Splitting at the first semicolon and trimming reads the same size as scanning forward. */
  lemma SplitAtSemicolon(content: bytes, semi: nat)
    requires semi == IndexOf(content, SEMICOLON)
    ensures ParseSize(content) == if GoodToken(content, semi) then Some(HexValue(SizeToken(content, semi))) else None
  {
    hide HexValue, SizeToken;
    var token := SizeToken(content, semi);
    var k := HexPrefix(content);
    if token != [] && AllHex(token) {
      TokenIsHexPrefix(content, semi);
    } else if k > 0 && ExtensionOK(content[k..]) {
      HexPrefixIsToken(content, semi);
    }
  }

  lemma TokenIsHexPrefix(content: bytes, semi: nat)
    requires semi == IndexOf(content, SEMICOLON)
    requires SizeToken(content, semi) != [] && AllHex(SizeToken(content, semi))
    ensures var k := HexPrefix(content);
            k == |SizeToken(content, semi)| && content[..k] == SizeToken(content, semi)
    ensures var k := HexPrefix(content);
            semi < |content| ==> BlankPrefix(content[k..]) == semi - k && content[k..][semi - k..] == content[semi..]
  {
    hide SizeToken;
    var token := SizeToken(content, semi);
    assert forall i :: 0 <= i < |token| ==> content[i] == token[i];
    HexPrefixIs(content, |token|);
    var k := |token|;
    if semi < |content| {
      BlankPrefixIs(content[k..], semi - k);
    }
  }

  lemma HexPrefixIsToken(content: bytes, semi: nat)
    requires semi == IndexOf(content, SEMICOLON)
    requires HexPrefix(content) > 0 && ExtensionOK(content[HexPrefix(content)..])
    ensures SizeToken(content, semi) == content[..HexPrefix(content)]
  {
    hide HexValue, NoControl;
    var k := HexPrefix(content);
    if k == |content| {
      IndexOfIs(content, SEMICOLON, |content|);
    } else {
      var w := BlankPrefix(content[k..]);
      assert forall i :: k <= i < k + w ==> content[i] == content[k..][i - k];
      IndexOfIs(content, SEMICOLON, k + w);
      TrimRightBlanksIs(content[..semi], k);
    }
  }

  /** The strict reading of a complete chunk-size line. */
  method ParseSizeLine(line: bytes) returns (h: SizeHead)
    ensures h == SizeOfLine(line)
  {
    hide ParseSize, HexValue;
    if |line| < 2 || line[|line| - 2] != CR {
      return BadSize(BadRequest);
    }
    var content := line[..|line| - 2];
    var semi := 0;
    while semi < |content| && content[semi] != SEMICOLON
      invariant semi <= |content|
      invariant forall i :: 0 <= i < semi ==> content[i] != SEMICOLON
    {
      semi := semi + 1;
    }
    IndexOfIs(content, SEMICOLON, semi);
    SplitAtSemicolon(content, semi);
    if semi == 0 || content[0] in [0x2B, 0x2D, SP, TAB] {
      return BadSize(BadRequest);
    }
    var token := SizeToken(content, semi);
    if token == [] {
      return BadSize(BadRequest);
    }
    var hex := CheckAllHex(token);
    if !hex || HexValue(token) > MAX_INT64 {
      return BadSize(BadRequest);
    }
    if semi < |content| {
      if |content| - |token| >= MAX_CHUNK_EXTENSION_BYTES {
        return BadSize(BadRequest);
      }
      var clean := CheckNoControl(content[semi..]);
      if !clean {
        return BadSize(BadRequest);
      }
    }
    return SizeHead(HexValue(token), |line|);
  }

  method CheckAllHex(s: bytes) returns (ok: bool)
    ensures ok <==> AllHex(s)
  {
    for i := 0 to |s|
      invariant forall j :: 0 <= j < i ==> IsHexDigit(s[j])
    {
      if !IsHexDigit(s[i]) { return false; }
    }
    return true;
  }

  method CheckNoControl(s: bytes) returns (ok: bool)
    ensures ok <==> NoControl(s)
  {
    for i := 0 to |s|
      invariant forall j :: 0 <= j < i ==> !IsControl(s[j])
    {
      if IsControl(s[i]) { return false; }
    }
    return true;
  }

  method CheckToken(s: bytes) returns (ok: bool)
    ensures ok <==> IsToken(s)
  {
    for i := 0 to |s|
      invariant forall j :: 0 <= j < i ==> IsTokenChar(s[j])
    {
      if !IsTokenChar(s[i]) { return false; }
    }
    return true;
  }

  // ----- a trailer line -----

  function IsForbiddenTrailer(key: bytes): bool {
    var k := TrimSpace(key);
    (k != [] && k[0] == COLON) || ForbiddenTrailer(k)
  }

  lemma TokenIsTrimmed(k: bytes)
    requires IsToken(k)
    ensures TrimSpace(k) == k
  {
    hide TrimSpace, Bare;
    if k != [] {
      assert IsTokenChar(k[0]) && IsTokenChar(k[|k| - 1]);
    }
    VisibleEndsAreBare(k);
    BareIsTrimmed(k);
  }

  lemma ForbiddenOrNoToken(k: bytes)
    requires k != []
    ensures IsToken(k) ==> (IsForbiddenTrailer(k) <==> ForbiddenTrailer(k))
  {
    hide TrimSpace, ForbiddenTrailer;
    if IsToken(k) {
      TokenIsTrimmed(k);
      assert IsTokenChar(k[0]);
    }
  }

  lemma TrimKeepsVisible(t: bytes)
    requires t != [] && IsVisible(t[0])
    ensures TrimSpace(t) != [] && TrimSpace(t)[0] == t[0]
  {
    hide TrimSpace, Bare, Spaces;
    var a, b := TrimSpaceParts(t);
    SpacesAreInvisible(a);
    SpacesAreInvisible(b);
  }

  /** A line that begins with a colon has no acceptable name. */
  lemma LeadingColon(content: bytes, colonIdx: nat)
    requires 0 < colonIdx <= |content| && content[0] == COLON
    ensures ParseTrailer(content) == None
    ensures IsForbiddenTrailer(TrimSpace(content[..colonIdx]))
  {
    hide TrimSpace, ForbiddenTrailer;
    TokenIsTrimmed([]);
    assert content[..0] == [];
    var t := content[..colonIdx];
    TrimKeepsVisible(t);
    TrimKeepsVisible(TrimSpace(t));
  }

  /** One non-blank trailer line: where the colon is looked for, what is trimmed, what is refused. */
  method ParseTrailerLine(content: bytes) returns (f: Option<Field>)
    requires content != []
    ensures f == ParseTrailer(content) && forall g :: f == Some(g) <==> TrailerField(content, g)
  {
    hide TrimSpace, ForbiddenTrailer, IsForbiddenTrailer, IsToken, NoControl, TrailerField;
    forall g ensures ParseTrailer(content) == Some(g) <==> TrailerField(content, g) {
      ParseTrailerIsGrammar(content, g);
    }
    var startSearch := if content[0] == COLON then 1 else 0;
    assert content[0..] == content;
    var i := IndexOf(content[startSearch..], COLON);
    if startSearch == 1 {
      LeadingColon(content, 1 + i);
    }
    if i == |content| - startSearch {
      return None;
    }
    var colonIdx := startSearch + i;
    var k := TrimSpace(content[..colonIdx]);
    if k == [] {
      return None;
    }
    var token := CheckToken(k);
    ForbiddenOrNoToken(k);
    if IsForbiddenTrailer(k) {
      return None;
    }
    if !token {
      return None;
    }
    var v := TrimSpace(content[colonIdx + 1..]);
    var clean := CheckNoControl(v);
    if !clean {
      return None;
    }
    return Some(Field(k, v));
  }
}
