/** The reader for a body of known length under a byte ceiling: it shares the connection with the next
    request, so what it takes matters as much as what it delivers. */
module StreamingBody {
  import opened Bytes
  import opened ChunkGrammar
  import opened ChunkedLines
  import opened ChunkedReader

  function Min(a: int, b: int): int {
    if a < b then a else b
  }

  lemma Slices(s: bytes, from: nat, n: nat)
    requires from + n <= |s|
    ensures s[from..][..n] == s[from..from + n] && s[from..][n..] == s[from + n..]
  {
  }

  class StreamingBodyReader {
    const r: BufReader
    var remaining: int
    var totalRead: nat
    const limit: int
    const contentLength: int
    const closer: Connection?
    var closed: bool

    ghost const input: bytes

    /** A negative contentLength stands for an unknown one, a limit of zero or less for no ceiling. */
    constructor (r: BufReader, limit: int, contentLength: int, closer: Connection?)
      requires r.Valid()
      ensures Valid() && this.r == r && this.limit == limit && this.contentLength == contentLength && this.closer == closer
      ensures input == r.Unread() && totalRead == 0 && !closed
    {
      this.r, this.limit, this.contentLength, this.closer := r, limit, contentLength, closer;
      remaining, totalRead, closed := limit, 0, false;
      input := r.Unread();
    }

    /** The most this reader may ever take: the length, and one byte over the ceiling to notice it. */
    ghost function MostTaken(): int {
      if contentLength >= 0 && limit > 0 then Min(contentLength, limit + 1)
      else if contentLength >= 0 then contentLength
      else if limit > 0 then limit + 1
      else |input|
    }

    /** It took the first totalRead bytes of its input, no others, and no more than it may. */
    ghost predicate Valid()
      reads this, r.Parts()
    {
      && r.Valid()
      && totalRead <= |input| && r.Unread() == input[totalRead..]
      && totalRead <= MostTaken()
      && remaining == limit - totalRead
    }

    ghost function Frame(): set<object>
      reads this
    {
      {this} + r.Parts() + if closer == null then {} else {closer as object}
    }

    /** Nothing more to take: the length is reached, or the stream has ended. */
    ghost predicate AtEnd()
      reads this
    {
      totalRead == contentLength || totalRead == |input|
    }

    ghost predicate Over()
      reads this
    {
      limit > 0 && totalRead > limit
    }

    method Read(p: array<byte>) returns (n: nat, result: ReadError)
      requires Valid()
      modifies Frame(), p
      ensures Valid() && closed == old(closed) && n <= p.Length
      ensures totalRead == old(totalRead) + n && r.pos == old(r.pos) + n
      ensures p[..n] == input[old(totalRead)..totalRead] && p[n..] == old(p[n..])
      // nothing more comes at the end of the body, at the end of the stream, or once over the ceiling
      ensures !closed && p.Length > 0 ==> (n == 0 <==> old(AtEnd() || Over()))
      ensures !closed && p.Length > 0 ==> result == if n == 0 && totalRead == contentLength then EOF
                                                   else if Over() then Failed(BodyTooLarge)
                                                   else if n > 0 then NoError
                                                   else if r.fin.CleanEnd? then EOF else Failed(ReadFailure)
      ensures closed ==> n == 0 && result == EOF
      ensures !closed && p.Length == 0 ==> result == NoError
      ensures closer != null ==> closer.closed == (old(closer.closed) || (limit > 0 && old(totalRead) <= limit < totalRead))
    {
      if closed {
        return 0, EOF;
      }
      if p.Length == 0 {
        return 0, NoError;
      }
      var toRead := p.Length;
      if contentLength >= 0 {
        var remCL := contentLength - totalRead;
        if remCL <= 0 {
          return 0, EOF;
        }
        toRead := Min(toRead, remCL);
      }
      if limit > 0 && totalRead > limit {
        return 0, Failed(BodyTooLarge);
      }
      if limit > 0 {
        var maxAllowed := limit - totalRead + 1;
        toRead := Min(toRead, maxAllowed);
      }
      n := Take(p, toRead);
      if n > 0 {
        if limit > 0 && totalRead > limit {
          if closer != null {
            closer.Close();
          }
          return n, Failed(BodyTooLarge);
        }
        return n, NoError;
      }
      return 0, if r.fin.CleanEnd? then EOF else Failed(ReadFailure);
    }

    /** One read from the connection, counted. */
    method Take(p: array<byte>, toRead: nat) returns (n: nat)
      requires Valid() && 0 < toRead <= p.Length
      requires totalRead + toRead <= MostTaken() || (contentLength < 0 && limit <= 0)
      modifies this`totalRead, this`remaining, r.Parts(), p
      ensures Valid() && n <= toRead && totalRead == old(totalRead) + n && r.pos == old(r.pos) + n
      ensures p[..n] == input[old(totalRead)..totalRead] && p[n..] == old(p[n..])
      ensures n == 0 <==> old(totalRead) == |input|
    {
      n := r.Read(p, 0, toRead);
      assert p[0..n] == p[..n] && p[0 + n..] == p[n..];
      Slices(input, totalRead, n);
      totalRead, remaining := totalRead + n, remaining - n;
    }

    /** io.ReadAll from the start of the body, buffers of any positive sizes. */
    method ReadAll(sizes: nat -> nat) returns (out: bytes, e: Option<Error>)
      requires Valid() && !closed && totalRead == 0 && forall i :: sizes(i) > 0
      modifies Frame()
      ensures Valid() && out == input[..totalRead] && r.pos == old(r.pos) + |out|
      // a length within the ceiling: all that came of the body and not one byte more; it is reported
      // complete exactly when it is, or when the stream ended cleanly before it was
      ensures contentLength >= 0 && (limit <= 0 || contentLength <= limit) ==>
                && |out| == Min(contentLength, |input|)
                && (e == None <==> |input| >= contentLength || r.fin.CleanEnd?)
      // so success means the whole body if and only if the stream has it, or breaks
      ensures contentLength >= 0 && (limit <= 0 || contentLength <= limit) ==>
                ((e == None ==> |out| == contentLength) <==> (|input| >= contentLength || r.fin.BrokenEnd?))
      // a body over the ceiling is refused, one byte over it
      ensures limit > 0 && (contentLength < 0 || contentLength > limit) && |input| > limit ==>
                |out| == limit + 1 && e == Some(BodyTooLarge)
      // a stream that ends early and cleanly looks like the end of the body
      ensures r.fin.CleanEnd? && (contentLength < 0 || |input| < contentLength) && (limit <= 0 || |input| <= limit) ==>
                out == input && e == None
    {
      out := [];
      var i: nat := 0;
      while true
        invariant Valid() && !closed && out == input[..totalRead]
        invariant r.pos == old(r.pos) + |out|
        invariant limit > 0 ==> totalRead <= limit
        decreases |input| - totalRead
      {
        var p := new byte[sizes(i)];
        var n, result := Read(p);
        out := out + p[..n];
        match result
        case NoError => i := i + 1;
        case EOF => return out, None;
        case Failed(error) => return out, Some(error);
      }
    }

    method Close()
      requires Valid()
      modifies Frame()
      ensures Valid() && closed && r.pos == old(r.pos) && totalRead == old(totalRead)
      ensures closer != null ==> closer.closed == (old(closer.closed) || !old(closed))
    {
      if closed {
        return;
      }
      closed := true;
      if closer != null {
        closer.Close();
      }
    }
  }

  /** Three bytes of a body of five, then a clean end: reported complete. */
  method ShortBody() returns (out: bytes, e: Option<Error>)
    ensures out == [1, 2, 3] && e == None
  {
    var r := new BufReader([1, 2, 3], CleanEnd, _ => 3);
    var body := new StreamingBodyReader(r, 10, 5, null);
    assert r.Unread() == [1, 2, 3];
    out, e := body.ReadAll(_ => 4096);
  }
}
