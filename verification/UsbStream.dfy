/** Streams of bytes over packets of 64, handed to the application in chunks. */
module UsbStream {
  import opened Memory
  import opened Rounding

  const PACKET := 64

  /** A call of on_chunk for data received: the length passed and the chunk buffer at that time. */
  datatype Delivery = Delivery(len: nat, contents: seq<byte>)

  function Zeros(n: nat): (r: seq<byte>)
    ensures |r| == n
  {
    seq(n, _ => 0)
  }

  function Padded(s: seq<byte>, size: nat): (r: seq<byte>)
    requires |s| <= size
    ensures |r| == size
  {
    s + Zeros(size - |s|)
  }

  /** The chunks of a stream: all of one size but the last, each padded with zeros to that size. */
  function Chunks(s: seq<byte>, size: nat): seq<Delivery>
    requires size > 0
    decreases |s|
  {
    if |s| == 0 then []
    else if |s| <= size then [Delivery(|s|, Padded(s, size))]
    else [Delivery(size, s[..size])] + Chunks(s[size..], size)
  }

  lemma OneMoreChunk(s: seq<byte>, size: nat)
    requires 0 < size < |s|
    ensures Chunks(s, size) == [Delivery(size, s[..size])] + Chunks(s[size..], size)
  {
  }

  lemma {:induction false} CountOfChunks(s: seq<byte>, size: nat)
    requires size > 0
    ensures |s| <= |Chunks(s, size)| * size < |s| + size
    decreases |s|
  {
    if |s| > size {
      hide Chunks;
      CountOfChunks(s[size..], size);
      OneMoreChunk(s, size);
      ChunkCount(|Chunks(s[size..], size)|, |s| - size, size);
    }
  }

  lemma {:induction false} ChunksJoined(s: seq<byte>, size: nat)
    requires size > 0
    ensures Joined(Chunks(s, size)) == s
    decreases |s|
  {
    if |s| > size {
      ChunksJoined(s[size..], size);
      OneMoreChunk(s, size);
      hide Chunks, Padded;
      assert Chunks(s, size)[1..] == Chunks(s[size..], size);
    } else if |s| > 0 {
      assert Chunks(s, size)[1..] == [];
      assert Padded(s, size)[..|s|] == s;
    }
  }

  lemma {:induction false} ChunksPadded(s: seq<byte>, size: nat, k: nat)
    requires size > 0 && k < |Chunks(s, size)|
    ensures var c := Chunks(s, size)[k];
            && 0 < c.len <= size == |c.contents| && c.contents == Padded(c.contents[..c.len], size)
            && (k < |Chunks(s, size)| - 1 ==> c.len == size)
    decreases |s|
  {
    if |s| > size {
      OneMoreChunk(s, size);
      if k > 0 {
        hide Chunks, Padded;
        ChunksPadded(s[size..], size, k - 1);
      } else {
        assert s[..size] == Padded(s[..size][..size], size);
      }
    } else {
      assert Padded(s, size)[..|s|] == s;
    }
  }

  /** Chunk k holds the bytes of the stream from k * size on, up to size of them, and zeros. */
  lemma {:induction false} ChunkHolds(s: seq<byte>, size: nat, k: nat)
    requires size > 0 && k < |Chunks(s, size)|
    ensures k * size < |s|
    ensures var c, start := Chunks(s, size)[k], k * size;
            && c.len == (if |s| - start < size then |s| - start else size) && |c.contents| == size
            && c.contents[..c.len] == s[start..start + c.len]
            && forall i :: c.len <= i < size ==> c.contents[i] == 0
    decreases |s|
  {
    hide Chunks, Padded;
    if |s| > size {
      OneMoreChunk(s, size);
      if k > 0 {
        ChunkHolds(s[size..], size, k - 1);
        MulStep(k - 1, size);
        var c, start := Chunks(s, size)[k], (k - 1) * size;
        assert s[size..][start..start + c.len] == s[size + start..size + start + c.len];
      }
    } else {
      OnlyChunk(s, size);
      assert k == 0;
    }
  }

  lemma OnlyChunk(s: seq<byte>, size: nat)
    requires |s| <= size && size > 0
    ensures |Chunks(s, size)| <= 1
    ensures |s| > 0 ==> Chunks(s, size) == [Delivery(|s|, Padded(s, size))]
    ensures |s| == 0 ==> Chunks(s, size) == []
    ensures Padded(s, size)[..|s|] == s && forall i :: |s| <= i < size ==> Padded(s, size)[i] == 0
  {
  }

  /** There are |s| / size of them, rounded up, and they hold the stream. */
  lemma {:induction false} ChunksHoldStream(s: seq<byte>, size: nat)
    requires size > 0
    ensures |s| <= |Chunks(s, size)| * size < |s| + size
    ensures Joined(Chunks(s, size)) == s
    ensures forall k :: 0 <= k < |Chunks(s, size)| ==>
              var c := Chunks(s, size)[k];
              && 0 < c.len <= size == |c.contents| && c.contents == Padded(c.contents[..c.len], size)
              && (k < |Chunks(s, size)| - 1 ==> c.len == size)
  {
    hide Chunks, Joined, Padded;
    CountOfChunks(s, size);
    ChunksJoined(s, size);
    forall k | 0 <= k < |Chunks(s, size)|
      ensures var c := Chunks(s, size)[k];
              && 0 < c.len <= size == |c.contents| && c.contents == Padded(c.contents[..c.len], size)
              && (k < |Chunks(s, size)| - 1 ==> c.len == size)
    {
      ChunksPadded(s, size, k);
    }
  }

  lemma ChunkCount(k: nat, n: nat, size: nat)
    requires n <= k * size < n + size
    ensures n + size <= (k + 1) * size < n + size + size
  {
    MulStep(k, size);
  }

  function Joined(chunks: seq<Delivery>): seq<byte> {
    if chunks == [] then []
    else
      (if chunks[0].len <= |chunks[0].contents| then chunks[0].contents[..chunks[0].len] else [])
      + Joined(chunks[1..])
  }

  /** The offset within the chunk: offset & (size - 1), the size being a power of two. */
  function ChunkOffset(offset: nat, size: nat): nat
    requires size > 0
  {
    offset % size
  }

  /** start is the start of a chunk. */
  predicate Boundary(start: nat, size: nat)
    requires size > 0
  {
    start % size == 0
  }

  lemma OffsetIn(start: nat, r: nat, size: nat)
    requires size > 0 && Boundary(start, size) && r < size
    ensures ChunkOffset(start + r, size) == r
  {
    DivMod(start, size);
    DivNonNegative(start, size);
    DivModOf(start / size, r, size);
  }

  lemma NextChunk(start: nat, size: nat)
    requires size > 0 && Boundary(start, size)
    ensures Boundary(start + size, size)
  {
    DivMod(start, size);
    DivNonNegative(start, size);
    MulStep(start / size, size);
    DivModOf(start / size + 1, 0, size);
  }

  /** length & (size - 1), or a full chunk if that is zero. */
  function LastLength(length: nat, size: nat): nat
    requires size > 0
  {
    if length % size != 0 then length % size else size
  }

  lemma LastLengthMeans(start: nat, length: nat, size: nat)
    requires size > 0 && Boundary(start, size) && start < length <= start + size
    ensures LastLength(length, size) == length - start
  {
    if length < start + size {
      OffsetIn(start, length - start, size);
    } else {
      NextChunk(start, size);
    }
  }

  /** The chunk length with which on_chunk is called after a packet received at an offset, or 0. */
  function EndedChunk(offset: nat, length: nat, size: nat): nat
    requires size > 0
  {
    if offset + PACKET >= length then
      // the end of the transfer, possibly in the middle of a chunk
      LastLength(length, size)
    else if ChunkOffset(offset, size) + PACKET >= size then size
    else 0
  }

  lemma OffsetMeans(start: nat, offset: nat, size: nat)
    requires Within(start, offset, size)
    ensures size > 0 && ChunkOffset(offset, size) == offset - start && start <= offset
            && offset - start + PACKET <= size
    ensures Boundary(start, size)
  {
    hide Boundary, ChunkOffset;
    OffsetIn(start, offset - start, size);
  }

  lemma EndedChunkMeans(start: nat, offset: nat, length: nat, size: nat)
    requires size > 0 && Within(start, offset, size) && offset < length
    ensures var end := if offset + PACKET < length then offset + PACKET else length;
            EndedChunk(offset, length, size) == if end == length || end == start + size then end - start else 0
  {
    hide Boundary, ChunkOffset, LastLength, Within, WholePackets;
    OffsetMeans(start, offset, size);
    if offset + PACKET >= length { LastLengthMeans(start, length, size); }
  }

  /** A whole number of packets. */
  predicate WholePackets(n: nat) { n % 64 == 0 }

  lemma PacketsAdd(a: nat, b: nat)
    requires WholePackets(a) && WholePackets(b)
    ensures WholePackets(a + b)
  {
  }

  lemma OnePacket(o: nat)
    requires WholePackets(o)
    ensures WholePackets(o + PACKET)
  {
  }

  /** Between packets, within a chunk. */
  predicate Within(start: nat, o: nat, size: nat) {
    && size > 0 && WholePackets(size) && WholePackets(o) && WholePackets(start)
    && start <= o < start + size && Boundary(start, size)
  }

  /** Of the incoming stream s, o bytes have been taken. */
  ghost predicate Taken(s: seq<byte>, size: nat, start: nat, o: nat, buffer: seq<byte>, delivered: seq<Delivery>) {
    && size > 0 && o <= |s|
    && (o < |s| ==>
          && Within(start, o, size)
          && delivered + Chunks(s[start..], size) == Chunks(s, size)
          && (o > start ==> buffer == Padded(s[start..o], size)))
    && (o == |s| ==> delivered == Chunks(s, size))
  }

  lemma AllTaken(s: seq<byte>, size: nat, start: nat, buffer: seq<byte>, delivered: seq<Delivery>)
    requires Taken(s, size, start, |s|, buffer, delivered)
    ensures delivered == Chunks(s, size)
  {
  }

  lemma TakenBetween(s: seq<byte>, size: nat, start: nat, o: nat, buffer: seq<byte>, delivered: seq<Delivery>)
    requires Taken(s, size, start, o, buffer, delivered) && o < |s|
    ensures Within(start, o, size) && (o > start ==> buffer == Padded(s[start..o], size))
  {
  }

  /** The end of a chunk, which may be the end of the stream. */
  lemma ChunkEnded(s: seq<byte>, size: nat, start: nat, o: nat, was: seq<byte>, delivered: seq<Delivery>, end: nat,
                   buffer: seq<byte>)
    requires Taken(s, size, start, o, was, delivered) && o < end <= |s| && end - start <= size
    requires (end == |s| || end == start + size) && buffer == Padded(s[start..end], size)
    ensures Taken(s, size, end, end, buffer, delivered + [Delivery(end - start, buffer)])
  {
    hide Boundary, WholePackets;
    var rest := s[start..];
    NextChunk(start, size);
    PacketsAdd(start, size);
    var call := [Delivery(end - start, buffer)];
    if end < |s| {
      assert rest[..size] == s[start..end] == buffer && rest[size..] == s[end..];
      assert Chunks(rest, size) == call + Chunks(s[end..], size);
      assert delivered + (call + Chunks(s[end..], size)) == (delivered + call) + Chunks(s[end..], size);
    } else {
      assert s[start..end] == rest;
      assert Chunks(rest, size) == call;
    }
  }

  lemma ChunkGoesOn(s: seq<byte>, size: nat, start: nat, o: nat, was: seq<byte>, delivered: seq<Delivery>, end: nat,
                    buffer: seq<byte>)
    requires Taken(s, size, start, o, was, delivered) && o < end < |s| && end < start + size && end == o + PACKET
    requires buffer == Padded(s[start..end], size)
    ensures Taken(s, size, start, end, buffer, delivered)
  {
    hide Boundary, Chunks, WholePackets;
    OnePacket(o);
  }

  /** A stream transfer: usb_stream_setup_transfer with a buffer of one chunk. */
  class Stream {
    var offset: nat
    const transferLength: nat
    const chunkSize: nat
    const chunkBuffer: array<byte>
    ghost var start: nat                    // of the current chunk
    ghost var delivered: seq<Delivery>      // the calls of on_chunk

    constructor (length: nat, size: nat, ghost s: seq<byte>)
      requires size > 0 && WholePackets(size) && |s| == length
      ensures Receiving(s, 0) && Sending(s)
      ensures offset == 0 && transferLength == length && chunkSize == size && fresh(chunkBuffer) && delivered == []
    {
      offset, transferLength, chunkSize, start, delivered := 0, length, size, 0, [];
      chunkBuffer := new byte[size];
      new;
      assert Boundary(0, size) by { DivModOf(0, 0, size); }
      assert s[0..] == s;
    }

    ghost predicate Shape(s: seq<byte>) {
      |s| == transferLength && chunkSize > 0 && WholePackets(chunkSize) && chunkBuffer.Length == chunkSize
    }

    /** Of the incoming stream s, o bytes have been taken. */
    ghost predicate Receiving(s: seq<byte>, o: nat)
      reads this`start, this`delivered, chunkBuffer
    {
      Shape(s) && Taken(s, chunkSize, start, o, chunkBuffer[..], delivered)
    }

    /** The buffer is cleared at the start of a chunk, so on_chunk never sees older data. */
    method FillBuffer(at: nat, data: seq<byte>, ghost t: seq<byte>)
      requires at + |data| <= chunkBuffer.Length == chunkSize && |t| == at
      requires at > 0 ==> chunkBuffer[..] == Padded(t, chunkSize)
      modifies chunkBuffer
      ensures chunkBuffer[..] == Padded(t + data, chunkSize)
    {
      if at == 0 {
        forall i | 0 <= i < chunkSize { chunkBuffer[i] := 0; }
      }
      forall i | 0 <= i < |data| { chunkBuffer[at + i] := data[i]; }
    }

    ghost method NoteChunk(s: seq<byte>, chunkLen: nat, was: seq<byte>, end: nat)
      requires Shape(s) && Taken(s, chunkSize, start, offset, was, delivered)
      requires start <= offset < end <= |s| && end - start <= chunkSize
      requires chunkBuffer[..] == Padded(s[start..end], chunkSize)
      requires chunkLen == if end == |s| || end == start + chunkSize then end - start else 0
      requires chunkLen == 0 ==> end == offset + PACKET
      modifies this`start, this`delivered
      ensures Taken(s, chunkSize, start, end, chunkBuffer[..], delivered)
      ensures start == if chunkLen > 0 then end else old(start)
      ensures delivered ==
              if chunkLen > 0 then old(delivered) + [Delivery(chunkLen, chunkBuffer[..])] else old(delivered)
    {
      hide Taken, Padded;
      if chunkLen > 0 {
        ChunkEnded(s, chunkSize, start, offset, was, delivered, end, chunkBuffer[..]);
        delivered := delivered + [Delivery(chunkLen, chunkBuffer[..])];
        start := end;
      } else {
        ChunkGoesOn(s, chunkSize, start, offset, was, delivered, end, chunkBuffer[..]);
      }
    }

    /** The packet handler for received data, up to the call of on_chunk. */
    method PacketHandler(data: seq<byte>, ghost s: seq<byte>) returns (chunkLen: nat)
      requires Receiving(s, offset) && offset < |s|
      requires data == s[offset..if offset + PACKET < |s| then offset + PACKET else |s|]
      modifies this`start, this`delivered, chunkBuffer
      ensures Receiving(s, offset + |data|)
      ensures chunkLen <= chunkSize
      ensures delivered ==
              if chunkLen > 0 then old(delivered) + [Delivery(chunkLen, chunkBuffer[..])] else old(delivered)
      ensures var end := offset + |data|;
              if chunkLen > 0 then
                && start == end == old(start) + chunkLen && (chunkLen == chunkSize || end == |s|)
                && chunkBuffer[..] == Padded(s[old(start)..end], chunkSize)
              else start == old(start) && end < |s|
    {
      TakenBetween(s, chunkSize, start, offset, chunkBuffer[..], delivered);
      OffsetMeans(start, offset, chunkSize);
      EndedChunkMeans(start, offset, |s|, chunkSize);
      hide Within, Taken, Chunks, Padded, EndedChunk, ChunkOffset, WholePackets, Boundary;
      var chunkOffset := ChunkOffset(offset, chunkSize);
      chunkLen := EndedChunk(offset, transferLength, chunkSize);
      ghost var was, end := chunkBuffer[..], offset + |data|;
      FillBuffer(chunkOffset, data, s[start..offset]);
      assert s[start..offset] + data == s[start..end];
      NoteChunk(s, chunkLen, was, end);
    }

    /** The rest of the handling of a packet received, at once or when on_chunk has finished. */
    method PacketHandlerComplete(dataLen: nat, ghost s: seq<byte>)
      requires Receiving(s, offset + dataLen)
      modifies this`offset
      ensures Receiving(s, offset) && offset == old(offset) + dataLen
    {
      offset := offset + dataLen;
    }

    /** Of the outgoing stream t the packets up to offset have been sent. */
    ghost predicate Sending(t: seq<byte>)
      reads this`offset, this`start, chunkBuffer
    {
      Shape(t) && Sent(t, chunkSize, start, offset, chunkBuffer[..])
    }

    /** What the application's on_chunk does for a stream to be sent: it puts the chunk in the buffer. */
    method SupplyChunk(chunkLen: nat, t: seq<byte>)
      requires chunkLen <= chunkSize == chunkBuffer.Length && offset + chunkLen <= |t|
      modifies chunkBuffer
      ensures chunkBuffer[..chunkLen] == t[offset..offset + chunkLen]
    {
      forall i | 0 <= i < chunkLen { chunkBuffer[i] := t[offset + i]; }
    }

    method BeginChunk(t: seq<byte>)
      requires chunkSize == chunkBuffer.Length > 0 && offset < |t| == transferLength
      modifies chunkBuffer
      ensures Loaded(t, chunkSize, offset, chunkBuffer[..])
    {
      var chunkLen := if offset + chunkSize > transferLength then transferLength - offset else chunkSize;
      SupplyChunk(chunkLen, t);
      assert chunkBuffer[..][..chunkLen] == chunkBuffer[..chunkLen];
    }

    /** The packet handler for a stream to be sent: on_chunk is called at the start of each chunk. */
    method InPacketHandler(t: seq<byte>)
      requires Sending(t) && offset < |t|
      modifies chunkBuffer
      ensures Sending(t) && Loaded(t, chunkSize, start, chunkBuffer[..])
    {
      SentBetween(t, chunkSize, start, offset, chunkBuffer[..]);
      OffsetMeans(start, offset, chunkSize);
      hide Within, Boundary, ChunkOffset, WholePackets, Loaded;
      var chunkOffset := ChunkOffset(offset, chunkSize);
      if chunkOffset == 0 { BeginChunk(t); }
    }

    /** The rest of the handling: the packet is filled from the chunk. */
    method InPacketHandlerComplete(t: seq<byte>) returns (packet: seq<byte>)
      requires Sending(t) && offset < |t| && Loaded(t, chunkSize, start, chunkBuffer[..])
      modifies this`offset, this`start
      ensures Sending(t) && offset == old(offset) + |packet|
      ensures packet == t[old(offset)..if old(offset) + PACKET < |t| then old(offset) + PACKET else |t|]
    {
      SentBetween(t, chunkSize, start, offset, chunkBuffer[..]);
      OffsetMeans(start, offset, chunkSize);
      hide Within, Boundary, ChunkOffset, WholePackets, Sent, Loaded;
      var chunkOffset := ChunkOffset(offset, chunkSize);
      var dataLen := PACKET;
      if offset + PACKET > transferLength { dataLen := transferLength - offset; }
      PacketOf(t, chunkSize, start, offset, chunkBuffer[..], dataLen);
      PacketSent(t, chunkSize, start, offset, chunkBuffer[..], dataLen);
      packet := chunkBuffer[..][chunkOffset..chunkOffset + dataLen];
      offset := offset + dataLen;
      if offset == start + chunkSize { start := offset; }
    }
  }

  /** Of the outgoing stream t, o bytes have been sent, and buffer holds the chunk begun. */
  ghost predicate Sent(t: seq<byte>, size: nat, start: nat, o: nat, buffer: seq<byte>) {
    && size > 0 && o <= |t| && |buffer| == size
    && (o < |t| ==>
          && Within(start, o, size)
          && (o > start ==> Loaded(t, size, start, buffer)))
  }

  function ChunkEnd(start: nat, size: nat, length: nat): nat {
    if start + size < length then start + size else length
  }

  lemma SentBetween(t: seq<byte>, size: nat, start: nat, o: nat, buffer: seq<byte>)
    requires Sent(t, size, start, o, buffer) && o < |t|
    ensures Within(start, o, size)
    ensures o > start ==> Loaded(t, size, start, buffer)
  {
  }

  ghost predicate Loaded(t: seq<byte>, size: nat, start: nat, buffer: seq<byte>) {
    var end := ChunkEnd(start, size, |t|);
    start < end && end - start <= |buffer| && buffer[..end - start] == t[start..end]
  }

  lemma PacketOf(t: seq<byte>, size: nat, start: nat, o: nat, buffer: seq<byte>, dataLen: nat)
    requires start <= o < |t| && o - start + PACKET <= size == |buffer| && Loaded(t, size, start, buffer)
    requires dataLen == if o + PACKET > |t| then |t| - o else PACKET
    ensures buffer[o - start..o - start + dataLen] == t[o..o + dataLen]
  {
    var end, a := ChunkEnd(start, size, |t|), o - start;
    var p, q := buffer[a..a + dataLen], t[o..o + dataLen];
    forall i | 0 <= i < dataLen ensures p[i] == q[i] {
      assert buffer[..end - start][a + i] == t[start..end][a + i];
    }
  }

  lemma PacketSent(t: seq<byte>, size: nat, start: nat, o: nat, buffer: seq<byte>, dataLen: nat)
    requires Within(start, o, size) && o - start + PACKET <= size && o < |t| && |buffer| == size
    requires dataLen == if o + PACKET > |t| then |t| - o else PACKET
    requires Loaded(t, size, start, buffer)
    ensures Sent(t, size, if o + dataLen == start + size then o + dataLen else start, o + dataLen, buffer)
  {
    hide Boundary, WholePackets;
    OnePacket(o);
    PacketsAdd(start, size);
    NextChunk(start, size);
  }

  /** A stream sent packet by packet and received by the other side: as many packets as the transfer
      was set up for, and on_chunk is called with the chunks of the stream, once each, in order. */
  method Relay(source: Stream, sink: Stream, t: seq<byte>)
    requires source != sink && source.chunkBuffer != sink.chunkBuffer
    requires source.Sending(t) && source.offset == 0 && sink.Receiving(t, 0) && sink.offset == 0
    modifies source, sink, source.chunkBuffer, sink.chunkBuffer
    ensures sink.delivered == Chunks(t, sink.chunkSize)
  {
    var packets := (source.transferLength + 63) / 64;
    for i := 0 to packets
      invariant source.Sending(t) && sink.Receiving(t, sink.offset)
      invariant source.offset == sink.offset == if 64 * i < |t| then 64 * i else |t|
    {
      source.InPacketHandler(t);
      var packet := source.InPacketHandlerComplete(t);
      var chunkLen := sink.PacketHandler(packet, t);
      sink.PacketHandlerComplete(|packet|, t);
    }
  }
}
