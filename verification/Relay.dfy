/** The relay between a terminal and the sealed connection (main.go, relay): two pumps and an
    idle watchdog. */
module Relay {
  import opened Prelude
  import opened Frames
  import opened Channel

  predicate WithinBuffer(chunks: seq<Chunk<byte>>) {
    forall i :: 0 <= i < |chunks| ==> |chunks[i].data| <= READ_SIZE
  }

  /** The pieces that are sent on: those that are not empty, up to the first error. */
  function Pieces(chunks: seq<Chunk<byte>>): seq<seq<byte>> {
    if chunks == [] then []
    else (if chunks[0].data == [] then [] else [chunks[0].data])
         + (if chunks[0].failed then [] else Pieces(chunks[1..]))
  }

  /** What the terminal printed up to its first error. */
  function Printed(chunks: seq<Chunk<byte>>): seq<byte> {
    if chunks == [] then []
    else chunks[0].data + (if chunks[0].failed then [] else Printed(chunks[1..]))
  }

  lemma {:induction false} PiecesArePrinted(chunks: seq<Chunk<byte>>)
    ensures Flatten(Pieces(chunks)) == Printed(chunks)
    ensures WithinBuffer(chunks) ==> forall p :: p in Pieces(chunks) ==> |p| <= READ_SIZE
  {
    if chunks == [] {
    } else {
      PiecesArePrinted(chunks[1..]);
      var head := if chunks[0].data == [] then [] else [chunks[0].data];
      FlattenAppend(head, if chunks[0].failed then [] else Pieces(chunks[1..]));
      assert [chunks[0].data][1..] == [];
      assert forall i :: 0 < i < |chunks| ==> chunks[i] == chunks[1..][i - 1];
    }
  }

  lemma {:induction false} TextsFit(items: seq<Sealing>)
    requires forall i :: 0 <= i < |items| ==> |items[i].nonce| == NONCE
    requires forall p :: p in Texts(items) ==> |p| <= READ_SIZE
    ensures AllFit(items)
  {
    if items == [] {
    } else {
      assert items[0].text in Texts(items);
      assert forall i :: 0 <= i < |items[1..]| ==> items[1..][i] == items[i + 1];
      TextsFit(items[1..]);
      AllFitCons(items);
    }
  }

  lemma {:induction false} WireSnoc(aead: Aead, items: seq<Sealing>, item: Sealing)
    ensures Wire(aead, items + [item]) == Wire(aead, items) + Frame(aead, item.nonce, item.text)
    ensures Texts(items + [item]) == Texts(items) + [item.text]
  {
    if items == [] {
      assert items + [item] == [item];
      assert [item][1..] == [];
    } else {
      assert (items + [item])[1..] == items[1..] + [item];
      WireSnoc(aead, items[1..], item);
    }
  }

  function After(chunks: seq<Chunk<byte>>, i: nat): seq<seq<byte>>
    requires i < |chunks|
  {
    if chunks[i].failed then [] else Pieces(chunks[i + 1..])
  }

  lemma PiecesStep(chunks: seq<Chunk<byte>>, i: nat)
    requires i < |chunks|
    ensures chunks[i].data == [] ==> Pieces(chunks[i..]) == After(chunks, i)
    ensures chunks[i].data != [] ==> Pieces(chunks[i..]) == [chunks[i].data] + After(chunks, i)
  {
    assert chunks[i..][1..] == chunks[i + 1..];
  }

  /** What has been read up to chunk i has been sent as `items`, on top of `start`. */
  ghost predicate SentSoFar(aead: Aead, chunks: seq<Chunk<byte>>, i: nat, items: seq<Sealing>, start: seq<byte>, written: seq<byte>)
    requires i <= |chunks|
  {
    && (forall k :: 0 <= k < |items| ==> |items[k].nonce| == NONCE)
    && written == start + Wire(aead, items)
    && Texts(items) + Pieces(chunks[i..]) == Pieces(chunks)
  }

  /** One read of the terminal becomes one frame. */
  lemma PumpStep(aead: Aead, chunks: seq<Chunk<byte>>, i: nat, items: seq<Sealing>, item: Sealing,
                 start: seq<byte>, written: seq<byte>)
    requires i < |chunks| && chunks[i].data != [] && item.text == chunks[i].data && |item.nonce| == NONCE
    requires SentSoFar(aead, chunks, i, items, start, written)
    ensures Texts(items + [item]) == Texts(items) + [item.text]
    ensures Texts(items + [item]) + After(chunks, i) == Pieces(chunks)
    ensures written + Frame(aead, item.nonce, item.text) == start + Wire(aead, items + [item])
  {
    PiecesStep(chunks, i);
    WireSnoc(aead, items, item);
    Associate(Texts(items), [item.text], After(chunks, i));
    Associate(start, Wire(aead, items), Frame(aead, item.nonce, item.text));
  }

  /** Beyond the frames sent there is at most a part of the frame of the next piece. */
  ghost predicate CutInNext(aead: Aead, chunks: seq<Chunk<byte>>, items: seq<Sealing>, next: Sealing,
                            start: seq<byte>, written: seq<byte>)
  {
    && |next.nonce| == NONCE && Texts(items) + [next.text] <= Pieces(chunks)
    && start + Wire(aead, items) <= written <= start + Wire(aead, items) + Frame(aead, next.nonce, next.text)
  }

  /** Terminal to connection: every piece becomes one frame, in order. It stops at the first read
      or write error; after a write error `next` is the frame that was not written whole. */
  method PumpOut(chunks: seq<Chunk<byte>>, sink: Sink, aead: Aead)
    returns (ok: bool, items: seq<Sealing>, ghost next: Sealing)
    modifies sink`written
    ensures forall i :: 0 <= i < |items| ==> |items[i].nonce| == NONCE
    ensures sink.reliable ==> ok
    ensures !ok ==> CutInNext(aead, chunks, items, next, old(sink.written), sink.written)
    ensures ok ==> Texts(items) == Pieces(chunks) && sink.written == old(sink.written) + Wire(aead, items)
  {
    items, next := [], Sealing([], []);
    var i := 0;
    assert chunks[0..] == chunks;
    while i < |chunks|
      invariant 0 <= i <= |chunks|
      invariant SentSoFar(aead, chunks, i, items, old(sink.written), sink.written)
    {
      PiecesStep(chunks, i);
      if chunks[i].data != [] {
        ok, items, next := SendPiece(chunks, i, sink, aead, items, old(sink.written));
        if !ok {
          return;
        }
      }
      if chunks[i].failed {
        return true, items, next;
      }
      i := i + 1;
    }
    return true, items, next;
  }

  method SendPiece(chunks: seq<Chunk<byte>>, i: nat, sink: Sink, aead: Aead, before: seq<Sealing>, ghost start: seq<byte>)
    returns (sent: bool, items: seq<Sealing>, ghost next: Sealing)
    requires i < |chunks| && chunks[i].data != []
    requires SentSoFar(aead, chunks, i, before, start, sink.written)
    modifies sink`written
    ensures forall k :: 0 <= k < |items| ==> |items[k].nonce| == NONCE
    ensures sink.reliable ==> sent
    ensures !sent ==> CutInNext(aead, chunks, items, next, start, sink.written)
    ensures sent ==> sink.written == start + Wire(aead, items) && Texts(items) + After(chunks, i) == Pieces(chunks)
  {
    var nonce;
    sent, nonce := WriteFrame(sink, aead, chunks[i].data, true);
    var item := Sealing(nonce, chunks[i].data);
    next := item;
    PumpStep(aead, chunks, i, before, item, start, old(sink.written));
    items := if sent then before + [item] else before;
  }

  lemma ReceiveAllStep(aead: Aead, stream: seq<byte>)
    ensures var (r, rest) := Receive(aead, stream);
            if r.Text? then
              && |rest| < |stream|
              && ReceiveAll(aead, stream).1 == ReceiveAll(aead, rest).1
              && Flatten(ReceiveAll(aead, stream).0) == r.data + Flatten(ReceiveAll(aead, rest).0)
            else ReceiveAll(aead, stream) == ([], r)
  {
    TextLeavesLess(aead, stream);
    var (r, rest) := Receive(aead, stream);
    if r.Text? {
      var texts := ReceiveAll(aead, rest).0;
      assert ([r.data] + texts)[1..] == texts;
    }
  }

  /** Connection to terminal: the texts of the frames, in order, are typed into the terminal until
      a read or write fails. */
  method PumpIn(source: Source, aead: Aead, terminal: Sink) returns (ok: bool, end: Reading)
    modifies source, terminal`written
    ensures old(terminal.written) <= terminal.written
                                  <= old(terminal.written) + Flatten(ReceiveAll(aead, old(source.Stream())).0)
    ensures terminal.reliable ==> ok
    ensures ok ==>
              && end == ReceiveAll(aead, old(source.Stream())).1
              && terminal.written == old(terminal.written) + Flatten(ReceiveAll(aead, old(source.Stream())).0)
  {
    ghost var typed := terminal.written;
    ghost var all := Flatten(ReceiveAll(aead, source.Stream()).0);
    while true
      invariant typed <= terminal.written
      invariant terminal.written + Flatten(ReceiveAll(aead, source.Stream()).0) == typed + all
      invariant ReceiveAll(aead, source.Stream()).1 == ReceiveAll(aead, old(source.Stream())).1
      decreases |source.Stream()|
    {
      ReceiveAllStep(aead, source.Stream());
      ghost var before := terminal.written;
      end := ReadFrame(source, aead);
      if !end.Text? {
        return true, end;
      }
      Associate(before, end.data, Flatten(ReceiveAll(aead, source.Stream()).0));
      var typing := terminal.Write(end.data);
      if !typing {
        return false, end;
      }
    }
  }

  /** What the far end reads is what the terminal printed, however the terminal cut it into reads of
      at most 32 KiB, and no frame is too long for the reader. */
  lemma RelayDelivers(aead: Aead, chunks: seq<Chunk<byte>>, items: seq<Sealing>)
    requires aead.Valid() && forall i :: 0 <= i < |chunks| ==> |chunks[i].data| <= 32768
    requires forall i :: 0 <= i < |items| ==> |items[i].nonce| == NONCE
    requires Texts(items) == Pieces(chunks)
    ensures AllFit(items)
    ensures ReceiveAll(aead, Wire(aead, items)).1 == Eof
    ensures Flatten(ReceiveAll(aead, Wire(aead, items)).0) == Printed(chunks)
  {
    PiecesArePrinted(chunks);
    TextsFit(items);
    WholeStream(aead, items);
  }
}
