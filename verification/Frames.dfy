/** Sealed frames on a byte stream (crypto.go): a big-endian length, a nonce, and the sealed text.
    The stream arrives in chunks of any size. */
module Frames {
  import opened Prelude

  type byte = x: int | 0 <= x < 256

  const HEADER: nat := 4
  const NONCE: nat := 12
  const TAG: nat := 16
  const MAX_FRAME: nat := 0x10_0000

  /** ChaCha20-Poly1305 under one key, as section 2.8 of RFC 8439 describes it from outside. */
  datatype Aead = Aead(seal: (seq<byte>, seq<byte>) -> seq<byte>, unseal: (seq<byte>, seq<byte>) -> Option<seq<byte>>)
  {
    ghost predicate Valid() {
      && (forall nonce: seq<byte>, text: seq<byte> :: |nonce| == NONCE ==>
            |seal(nonce, text)| == |text| + TAG && unseal(nonce, seal(nonce, text)) == Some(text))
      && (forall nonce: seq<byte>, sealed: seq<byte> :: unseal(nonce, sealed).Some? ==>
            |sealed| == |unseal(nonce, sealed).value| + TAG)
    }
  }

  /** What is asked of the cipher can be had: here is one (that hides nothing). */
  function ToyAead(): Aead {
    Aead((nonce, text) => text + seq(TAG, _ => 0),
         (nonce, sealed) =>
           if |sealed| >= TAG && sealed[|sealed| - TAG..] == seq(TAG, _ => 0)
           then Some(sealed[..|sealed| - TAG]) else None)
  }

  lemma ToyAeadIsValid()
    ensures ToyAead().Valid()
  {
    forall nonce: seq<byte>, text: seq<byte> | |nonce| == NONCE
      ensures ToyAead().unseal(nonce, ToyAead().seal(nonce, text)) == Some(text)
    {
      var sealed := text + seq(TAG, _ => 0);
      assert sealed[..|sealed| - TAG] == text && sealed[|sealed| - TAG..] == seq(TAG, _ => 0);
    }
  }

  // ----- Lengths on the wire -----

  function PutUint32(n: nat): seq<byte> {
    var m := n % 0x1_0000_0000;
    [m / 0x100_0000, m / 0x1_0000 % 0x100, m / 0x100 % 0x100, m % 0x100]
  }

  function GetUint32(s: seq<byte>): (n: nat)
    requires |s| == HEADER
    ensures n < 0x1_0000_0000
  {
    ((s[0] as int * 0x100 + s[1]) * 0x100 + s[2]) * 0x100 + s[3]
  }

  lemma LengthRoundTrip(n: nat)
    ensures GetUint32(PutUint32(n)) == n % 0x1_0000_0000
    ensures var s := PutUint32(n);
            |s| == 4 && s[0] as int * 16777216 + s[1] as int * 65536 + s[2] as int * 256 + s[3] == n % 4294967296
  {
    var m := n % 0x1_0000_0000;
    assert m / 0x1_0000 == m / 0x100_0000 * 0x100 + m / 0x1_0000 % 0x100;
    assert m / 0x100 == m / 0x1_0000 * 0x100 + m / 0x100 % 0x100;
  }

  // ----- One frame -----

  /** The bytes of one frame. The length field has 32 bits, whatever the text's length. */
  function Frame(aead: Aead, nonce: seq<byte>, text: seq<byte>): seq<byte> {
    var sealed := aead.seal(nonce, text);
    PutUint32(|nonce| + |sealed|) + (nonce + sealed)
  }

  datatype Reading =
    | Text(data: seq<byte>)
    | Eof
    | UnexpectedEof
    | BadLength
    | BadSeal

  /** What one read gives from a stream that ends after these bytes, and what it leaves. */
  function Receive(aead: Aead, stream: seq<byte>): (Reading, seq<byte>) {
    if |stream| < HEADER then (if stream == [] then Eof else UnexpectedEof, [])
    else
      var n := GetUint32(stream[..HEADER]);
      var body := stream[HEADER..];
      if n > MAX_FRAME || n < NONCE then (BadLength, body)
      else if |body| < n then (if body == [] then Eof else UnexpectedEof, [])
      else
        match aead.unseal(body[..NONCE], body[NONCE..n])
        case None => (BadSeal, body[n..])
        case Some(text) => (Text(text), body[n..])
  }

  lemma TextLeavesLess(aead: Aead, stream: seq<byte>)
    ensures Receive(aead, stream).0.Text? ==> |Receive(aead, stream).1| < |stream|
  {
  }

  /** The length on the wire is at most 1 MiB exactly when this holds. */
  predicate Fits(text: seq<byte>) {
    |text| + NONCE + TAG <= MAX_FRAME
  }

  lemma FrameShape(aead: Aead, nonce: seq<byte>, text: seq<byte>, rest: seq<byte>)
    requires aead.Valid() && |nonce| == NONCE
    ensures var stream := Frame(aead, nonce, text) + rest;
            && |Frame(aead, nonce, text)| == HEADER + NONCE + TAG + |text|
            && GetUint32(stream[..HEADER]) == (|text| + NONCE + TAG) % 0x1_0000_0000
            && stream[HEADER..] == nonce + aead.seal(nonce, text) + rest
  {
    var sealed := aead.seal(nonce, text);
    var stream := Frame(aead, nonce, text) + rest;
    LengthRoundTrip(|nonce| + |sealed|);
    assert stream[..HEADER] == PutUint32(|nonce| + |sealed|);
  }

  /** A frame is read back as its text, leaving exactly what follows it, if and only if it fits:
      the writer does not check the bound, the reader does. */
  lemma FrameRoundTrip(aead: Aead, nonce: seq<byte>, text: seq<byte>, rest: seq<byte>)
    requires aead.Valid() && |nonce| == NONCE
    ensures Receive(aead, Frame(aead, nonce, text) + rest) == (Text(text), rest) <==> Fits(text)
    ensures Fits(text) <==> |text| + 28 <= 1048576
  {
    var sealed := aead.seal(nonce, text);
    var stream := Frame(aead, nonce, text) + rest;
    FrameShape(aead, nonce, text, rest);
    var n := GetUint32(stream[..HEADER]);
    var body := stream[HEADER..];
    if Fits(text) {
      assert n == |text| + NONCE + TAG;
      assert body[..NONCE] == nonce && body[NONCE..n] == sealed && body[n..] == rest;
    }
  }

  /** The bytes are a frame of these parts, of a length up to the bound. */
  predicate IsFrame(aead: Aead, bound: nat, stream: seq<byte>, nonce: seq<byte>, sealed: seq<byte>,
                    text: seq<byte>, rest: seq<byte>)
  {
    && |nonce| == 12 && 12 + |sealed| <= bound
    && stream == PutUint32(12 + |sealed|) + (nonce + sealed) + rest
    && aead.unseal(nonce, sealed) == Some(text)
  }

  /** The parts of what a reader took as one frame. */
  lemma PartsOfFrame(stream: seq<byte>) returns (nonce: seq<byte>, sealed: seq<byte>, rest: seq<byte>)
    requires |stream| >= HEADER && 12 <= GetUint32(stream[..HEADER]) <= |stream| - HEADER
    ensures var n, body := GetUint32(stream[..HEADER]), stream[HEADER..];
            nonce == body[..NONCE] && sealed == body[NONCE..n] && rest == body[n..] && n == 12 + |sealed|
    ensures |nonce| == 12 && stream == PutUint32(12 + |sealed|) + (nonce + sealed) + rest
  {
    var header, body := stream[..HEADER], stream[HEADER..];
    var n := GetUint32(header);
    nonce, sealed, rest := body[..NONCE], body[NONCE..n], body[n..];
    HeaderRoundTrip(header);
    assert body == nonce + sealed + rest && stream == header + body;
    Associate(header, nonce + sealed, rest);
  }

  lemma FrameHasParts(nonce: seq<byte>, sealed: seq<byte>, rest: seq<byte>)
    requires |nonce| == 12 && 12 + |sealed| < 0x1_0000_0000
    ensures var stream, n := PutUint32(12 + |sealed|) + (nonce + sealed) + rest, 12 + |sealed|;
            && |stream| >= HEADER && GetUint32(stream[..HEADER]) == n <= |stream| - HEADER
            && stream[HEADER..][..NONCE] == nonce && stream[HEADER..][NONCE..n] == sealed
            && stream[HEADER..][n..] == rest
  {
    var n := 12 + |sealed|;
    var stream := PutUint32(n) + (nonce + sealed) + rest;
    LengthRoundTrip(n);
    Associate(PutUint32(n), nonce + sealed, rest);
    assert stream[..HEADER] == PutUint32(n) && stream[HEADER..] == nonce + sealed + rest;
  }

  /** A text is read exactly from a frame: a length of at most 1 MiB, twelve bytes of nonce, and bytes
      the cipher accepts and opens to that text. */
  lemma TextIffFrame(aead: Aead, stream: seq<byte>, text: seq<byte>, rest: seq<byte>)
    ensures Receive(aead, stream) == (Text(text), rest) <==>
            exists nonce, sealed :: IsFrame(aead, 1048576, stream, nonce, sealed, text, rest)
  {
    if Receive(aead, stream) == (Text(text), rest) {
      var nonce, sealed, left := PartsOfFrame(stream);
      assert IsFrame(aead, 1048576, stream, nonce, sealed, text, rest);
    }
    if nonce, sealed :| IsFrame(aead, 1048576, stream, nonce, sealed, text, rest) {
      FrameHasParts(nonce, sealed, rest);
    }
  }

  lemma HeaderRoundTrip(s: seq<byte>)
    requires |s| == HEADER
    ensures PutUint32(GetUint32(s)) == s
  {
    var n := GetUint32(s);
    assert n == s[0] as int * 0x100_0000 + s[1] as int * 0x1_0000 + s[2] as int * 0x100 + s[3];
    assert n / 0x100 == s[0] as int * 0x1_0000 + s[1] as int * 0x100 + s[2];
    assert n / 0x1_0000 == s[0] as int * 0x100 + s[1];
    assert n / 0x100_0000 == s[0];
  }

  // ----- The test client's reader (testclient/main.go) -----

  /** The client reads any length it is told; a frame too short for a nonce stops it. */
  function ClientReceive(aead: Aead, stream: seq<byte>): (Reading, seq<byte>) {
    if |stream| < HEADER then (if stream == [] then Eof else UnexpectedEof, [])
    else
      var n := GetUint32(stream[..HEADER]);
      var body := stream[HEADER..];
      if |body| < n then (if body == [] then Eof else UnexpectedEof, [])
      else if n < NONCE then (BadLength, body[n..])
      else
        match aead.unseal(body[..NONCE], body[NONCE..n])
        case None => (BadSeal, body[n..])
        case Some(text) => (Text(text), body[n..])
  }

  /** The only bound on what the client can be sent is the width of the length field. */
  lemma ClientRoundTrip(aead: Aead, nonce: seq<byte>, text: seq<byte>, rest: seq<byte>)
    requires aead.Valid() && |nonce| == NONCE
    ensures ClientReceive(aead, Frame(aead, nonce, text) + rest) == (Text(text), rest) <==>
            |text| + NONCE + TAG < 0x1_0000_0000
  {
    var sealed := aead.seal(nonce, text);
    var stream := Frame(aead, nonce, text) + rest;
    FrameShape(aead, nonce, text, rest);
    var n := GetUint32(stream[..HEADER]);
    var body := stream[HEADER..];
    if |text| + NONCE + TAG < 0x1_0000_0000 {
      assert n == |text| + NONCE + TAG;
      assert body[..NONCE] == nonce && body[NONCE..n] == sealed && body[n..] == rest;
    }
  }

  /** And what it reads is a frame as well, of any length the field can hold. */
  lemma ClientTextIffFrame(aead: Aead, stream: seq<byte>, text: seq<byte>, rest: seq<byte>)
    ensures ClientReceive(aead, stream) == (Text(text), rest) <==>
            exists nonce, sealed :: IsFrame(aead, 4294967295, stream, nonce, sealed, text, rest)
  {
    if ClientReceive(aead, stream) == (Text(text), rest) {
      var nonce, sealed, left := PartsOfFrame(stream);
      assert IsFrame(aead, 4294967295, stream, nonce, sealed, text, rest);
    }
    if nonce, sealed :| IsFrame(aead, 4294967295, stream, nonce, sealed, text, rest) {
      FrameHasParts(nonce, sealed, rest);
    }
  }

  /** Every text the server's reader accepts, the client's reader accepts, and leaves the same rest. */
  lemma ClientReadsNoLess(aead: Aead, stream: seq<byte>)
    ensures Receive(aead, stream).0.Text? ==> ClientReceive(aead, stream) == Receive(aead, stream)
    ensures ClientReceive(aead, stream).0.Text? ==>
              (ClientReceive(aead, stream) == Receive(aead, stream) <==> GetUint32(stream[..HEADER]) <= MAX_FRAME)
  {
  }

  // ----- Many frames -----

  datatype Sealing = Sealing(nonce: seq<byte>, text: seq<byte>)

  predicate AllFit(items: seq<Sealing>) {
    forall i :: 0 <= i < |items| ==> |items[i].nonce| == NONCE && Fits(items[i].text)
  }

  function Wire(aead: Aead, items: seq<Sealing>): seq<byte> {
    if items == [] then [] else Frame(aead, items[0].nonce, items[0].text) + Wire(aead, items[1..])
  }

  function Texts(items: seq<Sealing>): seq<seq<byte>> {
    if items == [] then [] else [items[0].text] + Texts(items[1..])
  }

  /** Reads up to `count` frames: the texts, what is left, and whether all reads succeeded. */
  function ReceiveSome(aead: Aead, stream: seq<byte>, count: nat): (seq<seq<byte>>, seq<byte>, bool)
    decreases count
  {
    if count == 0 then ([], stream, true)
    else
      var (r, rest) := Receive(aead, stream);
      if !r.Text? then ([], rest, false)
      else
        var (texts, left, ok) := ReceiveSome(aead, rest, count - 1);
        ([r.data] + texts, left, ok)
  }

  /** Reads until a read fails: the texts and the failure. */
  function ReceiveAll(aead: Aead, stream: seq<byte>): (seq<seq<byte>>, Reading)
    decreases |stream|
  {
    var (r, rest) := Receive(aead, stream);
    TextLeavesLess(aead, stream);
    if !r.Text? then ([], r)
    else
      var (texts, end) := ReceiveAll(aead, rest);
      ([r.data] + texts, end)
  }

  /** Any list of texts that fit comes back as that list, and exactly its bytes are used up. */
  lemma {:induction false} StreamRoundTrip(aead: Aead, items: seq<Sealing>, rest: seq<byte>)
    requires aead.Valid() && AllFit(items)
    ensures ReceiveSome(aead, Wire(aead, items) + rest, |items|) == (Texts(items), rest, true)
    decreases |items|
  {
    if items == [] {
      assert Wire(aead, items) + rest == rest;
    } else {
      var item := items[0];
      var more := Wire(aead, items[1..]) + rest;
      FrameRoundTrip(aead, item.nonce, item.text, more);
      assert Wire(aead, items) + rest == Frame(aead, item.nonce, item.text) + more;
      StreamRoundTrip(aead, items[1..], rest);
    }
  }

  lemma {:induction false} WholeStream(aead: Aead, items: seq<Sealing>)
    requires aead.Valid() && AllFit(items)
    ensures ReceiveAll(aead, Wire(aead, items)) == (Texts(items), Eof)
    decreases |items|
  {
    if items == [] {
    } else {
      var item := items[0];
      FrameRoundTrip(aead, item.nonce, item.text, Wire(aead, items[1..]));
      WholeStream(aead, items[1..]);
    }
  }

  lemma CutFrame(aead: Aead, item: Sealing, later: seq<byte>, cut: nat)
    requires aead.Valid() && |item.nonce| == NONCE && Fits(item.text)
    requires cut < |Frame(aead, item.nonce, item.text)|
    ensures Receive(aead, (Frame(aead, item.nonce, item.text) + later)[..cut]).0 ==
            if cut == 0 || cut == 4 then Eof else UnexpectedEof
  {
    FrameShape(aead, item.nonce, item.text, later);
    var stream := Frame(aead, item.nonce, item.text) + later;
    if cut >= HEADER {
      assert stream[..cut][..HEADER] == stream[..HEADER];
    }
  }

  lemma CutFirst(aead: Aead, item: Sealing, later: seq<byte>, cut: nat)
    requires aead.Valid() && |item.nonce| == NONCE && Fits(item.text)
    requires cut < |Frame(aead, item.nonce, item.text)|
    ensures var (texts, end) := ReceiveAll(aead, (Frame(aead, item.nonce, item.text) + later)[..cut]);
            texts == [] && (end == Eof || end == UnexpectedEof)
  {
    CutFrame(aead, item, later, cut);
  }

  /** A stream cut anywhere before its end gives the first texts, in order, and then reports the
      end of input; never a wrong text, never all of them. */
  lemma {:induction false} CutStream(aead: Aead, items: seq<Sealing>, cut: nat)
    requires aead.Valid() && AllFit(items) && cut < |Wire(aead, items)|
    ensures var (texts, end) := ReceiveAll(aead, Wire(aead, items)[..cut]);
            && |texts| < |items| && texts <= Texts(items)
            && (end == Eof || end == UnexpectedEof)
    decreases |items|
  {
    var item := items[0];
    var frame := Frame(aead, item.nonce, item.text);
    var later := Wire(aead, items[1..]);
    if cut >= |frame| {
      var shorter := later[..cut - |frame|];
      assert (frame + later)[..cut] == frame + shorter;
      FrameRoundTrip(aead, item.nonce, item.text, shorter);
      CutStream(aead, items[1..], cut - |frame|);
      var (texts, end) := ReceiveAll(aead, shorter);
      PrefixCons(item.text, texts, Texts(items[1..]));
    } else {
      CutFirst(aead, item, later, cut);
    }
  }

  lemma PrefixCons<T>(x: T, a: seq<T>, b: seq<T>)
    requires a <= b
    ensures [x] + a <= [x] + b
  {
  }

  // ----- Several readers, one after the other -----

  /** Reading i frames and then j frames with another reader is reading i + j frames with one:
      a reader takes no bytes beyond its frames. */
  lemma {:induction false} ReadersInTurn(aead: Aead, stream: seq<byte>, i: nat, j: nat)
    ensures var (first, left, ok) := ReceiveSome(aead, stream, i);
            var (second, end, ok') := ReceiveSome(aead, left, j);
            ok ==> ReceiveSome(aead, stream, i + j) == (first + second, end, ok')
    decreases i
  {
    if i > 0 {
      var (r, rest) := Receive(aead, stream);
      if r.Text? {
        ReadersInTurn(aead, rest, i - 1, j);
        var first := ReceiveSome(aead, rest, i - 1).0;
        var second := ReceiveSome(aead, ReceiveSome(aead, rest, i - 1).1, j).0;
        assert [r.data] + first + second == [r.data] + (first + second);
      }
    } else {
      var second := ReceiveSome(aead, stream, j).0;
      assert [] + second == second;
    }
  }

  lemma {:induction false} WireAppend(aead: Aead, a: seq<Sealing>, b: seq<Sealing>)
    ensures Wire(aead, a + b) == Wire(aead, a) + Wire(aead, b)
    ensures AllFit(a + b) <==> AllFit(a) && AllFit(b)
  {
    if a == [] {
      assert a + b == b;
    } else {
      assert (a + b)[0] == a[0] && (a + b)[1..] == a[1..] + b;
      WireAppend(aead, a[1..], b);
      AllFitCons(a);
      AllFitCons(a + b);
    }
  }

  lemma AllFitCons(a: seq<Sealing>)
    requires a != []
    ensures AllFit(a) <==> |a[0].nonce| == NONCE && Fits(a[0].text) && AllFit(a[1..])
  {
    assert forall i :: 0 < i < |a| ==> a[i] == a[1..][i - 1];
  }

  /** The token reader, the gate's reader and the relay's reader, each taking its share of one
      sequence of frames, together see exactly the texts that were sent. */
  lemma Handover(aead: Aead, token: seq<Sealing>, gate: seq<Sealing>, relay: seq<Sealing>)
    requires aead.Valid() && AllFit(token + (gate + relay)) && |token| == 1
    ensures var (t, afterToken, ok1) := ReceiveSome(aead, Wire(aead, token + (gate + relay)), 1);
            var (g, afterGate, ok2) := ReceiveSome(aead, afterToken, |gate|);
            var (r, end) := ReceiveAll(aead, afterGate);
            ok1 && ok2 && t == Texts(token) && g == Texts(gate) && r == Texts(relay) && end == Eof
  {
    WireAppend(aead, token, gate + relay);
    WireAppend(aead, gate, relay);
    StreamRoundTrip(aead, token, Wire(aead, gate + relay));
    StreamRoundTrip(aead, gate, Wire(aead, relay));
    WholeStream(aead, relay);
  }
}
