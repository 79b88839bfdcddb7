/** The two ends of a connection or terminal, and the code that fills and empties buffers over
    them (crypto.go: WriteFrame, ReadFrame; main.go: authenticate, relay). `*` stands for what the
    operating system does. */
module Channel {
  import opened Prelude
  import opened Frames

  function Flatten(chunks: seq<seq<byte>>): seq<byte> {
    if chunks == [] then [] else chunks[0] + Flatten(chunks[1..])
  }

  lemma FlattenAppend(a: seq<seq<byte>>, b: seq<seq<byte>>)
    ensures Flatten(a + b) == Flatten(a) + Flatten(b)
  {
    if a == [] {
      assert a + b == b;
    } else {
      assert (a + b)[1..] == a[1..] + b;
      FlattenAppend(a[1..], b);
    }
  }

  /** Something bytes are written to. A failed write may have written a part; on a reliable sink
      no write fails. */
  class Sink {
    const reliable: bool
    var written: seq<byte>

    constructor (reliable: bool)
      ensures this.reliable == reliable && written == []
    {
      this.reliable := reliable;
      written := [];
    }

    method Write(data: seq<byte>) returns (ok: bool)
      modifies this`written
      ensures reliable ==> ok
      ensures ok ==> written == old(written) + data
      ensures !ok ==> old(written) <= written <= old(written) + data
    {
      ok := *;
      ok := ok || reliable;
      if ok {
        written := written + data;
      } else {
        var part: int := *;
        if 0 <= part <= |data| {
          written := written + data[..part];
        }
      }
    }
  }

  /** Something bytes are read from: they arrive in chunks, whose sizes are not the reader's
      choice; after the last one comes the end of input. */
  class Source {
    var incoming: seq<seq<byte>>

    constructor (chunks: seq<seq<byte>>)
      ensures incoming == chunks
    {
      incoming := chunks;
    }

    function Stream(): seq<byte>
      reads this
    {
      Flatten(incoming)
    }

    /** One read into a part of the buffer: as much as is there, at most up to its end. */
    method Read(buf: array<byte>, from: nat) returns (n: nat, ended: bool)
      requires from <= buf.Length
      modifies this, buf
      ensures ended <==> old(incoming) == []
      ensures n <= buf.Length - from && n <= |old(Stream())|
      ensures buf[..from] == old(buf[..from])
      ensures buf[from..from + n] == old(Stream())[..n] && Stream() == old(Stream())[n..]
      ensures ended ==> n == 0 && incoming == []
      ensures !ended && from < buf.Length ==> n > 0 || |incoming| < |old(incoming)|
    {
      if incoming == [] {
        return 0, true;
      }
      var chunk := incoming[0];
      n := if |chunk| <= buf.Length - from then |chunk| else buf.Length - from;
      var i := 0;
      while i < n
        invariant 0 <= i <= n && incoming == old(incoming)
        invariant buf[..from] == old(buf[..from])
        invariant buf[from..from + i] == chunk[..i]
      {
        buf[from + i] := chunk[i];
        i := i + 1;
      }
      incoming := if n == |chunk| then incoming[1..] else [chunk[n..]] + incoming[1..];
      ended := false;
      assert n < |chunk| ==> Flatten(incoming) == chunk[n..] + Flatten(incoming[1..]);
    }

    /** Reads until the buffer is full or the input ends. */
    method ReadFull(buf: array<byte>) returns (end: Reading)
      modifies this, buf
      ensures |old(Stream())| >= buf.Length ==>
                end == Text([]) && buf[..] == old(Stream())[..buf.Length] && Stream() == old(Stream())[buf.Length..]
      ensures |old(Stream())| < buf.Length ==>
                end == (if old(Stream()) == [] then Eof else UnexpectedEof) && Stream() == []
    {
      var have := 0;
      ghost var stream := Stream();
      while have < buf.Length
        invariant 0 <= have <= buf.Length && have <= |stream|
        invariant buf[..have] == stream[..have] && Stream() == stream[have..]
        decreases buf.Length - have, |incoming|
      {
        var n, ended := Read(buf, have);
        if ended {
          return if have == 0 then Eof else UnexpectedEof;
        }
        assert buf[..have + n] == buf[..have] + buf[have..have + n];
        have := have + n;
      }
      assert buf[..] == buf[..have];
      return Text([]);
    }
  }

  /** Copies a text into a part of a buffer. */
  method CopyInto(buf: array<byte>, from: nat, data: seq<byte>)
    requires from + |data| <= buf.Length
    modifies buf
    ensures buf[..from] == old(buf[..from])
    ensures buf[from..from + |data|] == data
    ensures buf[from + |data|..] == old(buf[from + |data|..])
  {
    var i := 0;
    while i < |data|
      invariant 0 <= i <= |data|
      invariant buf[..from] == old(buf[..from])
      invariant buf[from..from + i] == data[..i]
      invariant buf[from + |data|..] == old(buf[from + |data|..])
    {
      buf[from + i] := data[i];
      i := i + 1;
    }
  }

  /** Seals one text under a random nonce and writes it as one frame. `entropy` says whether the
      system's random source works. */
  method WriteFrame(sink: Sink, aead: Aead, text: seq<byte>, entropy: bool) returns (ok: bool, nonce: seq<byte>)
    modifies sink`written
    ensures |nonce| == NONCE
    ensures entropy && sink.reliable ==> ok
    ensures !entropy ==> !ok && sink.written == old(sink.written)
    ensures ok ==> sink.written == old(sink.written) + Frame(aead, nonce, text)
    ensures !ok ==> old(sink.written) <= sink.written <= old(sink.written) + Frame(aead, nonce, text)
  {
    nonce := RandomNonce();
    if !entropy {
      return false, nonce;
    }
    var frame := BuildFrame(nonce, aead.seal(nonce, text));
    ok := sink.Write(frame[..]);
  }

  method BuildFrame(nonce: seq<byte>, sealed: seq<byte>) returns (frame: array<byte>)
    ensures fresh(frame) && frame[..] == PutUint32(|nonce| + |sealed|) + (nonce + sealed)
  {
    var length := PutUint32(|nonce| + |sealed|);
    var body := |nonce| + HEADER;
    frame := new byte[body + |sealed|];
    CopyInto(frame, 0, length);
    CopyInto(frame, HEADER, nonce);
    assert frame[..body] == length + nonce;
    CopyInto(frame, body, sealed);
    assert frame[..] == frame[..body] + frame[body..body + |sealed|];
  }

  method RandomNonce() returns (nonce: seq<byte>)
    ensures |nonce| == NONCE
  {
    nonce := [];
    while |nonce| < NONCE
      invariant |nonce| <= NONCE
    {
      var b: byte := *;
      nonce := nonce + [b];
    }
  }

  /** Reads one frame: the result and the bytes used up do not depend on how they were chunked. */
  method ReadFrame(source: Source, aead: Aead) returns (r: Reading)
    modifies source
    ensures r == Receive(aead, old(source.Stream())).0
    ensures source.Stream() == Receive(aead, old(source.Stream())).1
  {
    ghost var stream := source.Stream();
    var header := new byte[HEADER];
    var end := source.ReadFull(header);
    if !end.Text? {
      return end;
    }
    var n := GetUint32(header[..]);
    if n > MAX_FRAME || n < NONCE {
      return BadLength;
    }
    var buf := new byte[n];
    end := source.ReadFull(buf);
    if !end.Text? {
      return end;
    }
    assert buf[..NONCE] == stream[HEADER..][..NONCE] && buf[NONCE..] == stream[HEADER..][NONCE..n];
    var plain := aead.unseal(buf[..NONCE], buf[NONCE..]);
    return if plain.None? then BadSeal else Text(plain.value);
  }

  /** The test client's reader. */
  method ClientReadFrame(source: Source, aead: Aead) returns (r: Reading)
    modifies source
    ensures r == ClientReceive(aead, old(source.Stream())).0
    ensures source.Stream() == ClientReceive(aead, old(source.Stream())).1
  {
    ghost var stream := source.Stream();
    var header := new byte[HEADER];
    var end := source.ReadFull(header);
    if !end.Text? {
      return end;
    }
    var buf := new byte[GetUint32(header[..])];
    end := source.ReadFull(buf);
    if !end.Text? {
      return end;
    }
    if buf.Length < NONCE {
      return BadLength;
    }
    assert buf[..NONCE] == stream[HEADER..][..NONCE] && buf[NONCE..] == stream[HEADER..][NONCE..buf.Length];
    var plain := aead.unseal(buf[..NONCE], buf[NONCE..]);
    return if plain.None? then BadSeal else Text(plain.value);
  }

  /** The first frame must be the session token, and nothing after it is read. */
  method Authenticate(source: Source, aead: Aead, token: seq<byte>) returns (ok: bool)
    modifies source
    ensures ok <==> Receive(aead, old(source.Stream())).0 == Text(token)
    ensures source.Stream() == Receive(aead, old(source.Stream())).1
  {
    var r := ReadFrame(source, aead);
    return r.Text? && r.data == token;
  }
}
