/**
 The incremental packet reader and the serialiser (libqwsproto/qws_proto.c), and the proxy's loop that
 drives the reader over the bytes of one read (proxy/proxy.c). The reader is proved against Codec.Fed:
 everything it remembers between calls is the bytes of the packet it is inside of.
 */
module Reader {
  import opened Sequences
  import opened Wrappers
  import opened Codec

  datatype ReadState = Header | Simple | Raw | Done

  /** memcpy into dst at a position. */
  method CopyInto(dst: array<Byte>, at: nat, src: seq<Byte>, from: nat, n: nat)
    requires at + n <= dst.Length && from + n <= |src|
    modifies dst
    ensures dst[..at + n] == old(dst[..at]) + src[from..from + n]
    ensures dst[at + n..] == old(dst[at + n..])
  {
    forall i | 0 <= i < n {
      dst[at + i] := src[from + i];
    }
  }

  ghost function Whole(a: array?<Byte>): (s: seq<Byte>)
    reads a
  {
    if a == null then [] else a[..]
  }

  class PacketReader {
    var state: ReadState
    const hdr: array<Byte>
    var simpleLen: nat
    var simpleBuf: array?<Byte>
    var rawBuf: array?<Byte>
    var bytesRead: nat
    const readingCommands: bool
    /** The table for what is being read. */
    const lengths: Lengths
    /** The bytes of the current packet read so far. */
    ghost var kept: seq<Byte>
    /** Every array this reader writes. */
    ghost var buffers: set<array<Byte>>

    function Dir(): Direction {
      if readingCommands then Commands else Events
    }

    /** A buffer holds what the header announced, or is null where nothing was announced. */
    ghost predicate Holds(buf: array?<Byte>, len: int) {
      if len > 0 then buf != null && buf.Length == len else buf == null
    }

    ghost predicate HeaderKnown()
      requires hdr.Length == HEADER_SIZE
      reads this, hdr
    {
      simpleLen == lengths(HeaderType(hdr[..])) && Holds(simpleBuf, simpleLen)
    }

    ghost predicate Owned()
      reads this
    {
      && hdr in buffers && (simpleBuf != null ==> simpleBuf in buffers) && (rawBuf != null ==> rawBuf in buffers)
      && hdr != simpleBuf && hdr != rawBuf && (simpleBuf != null ==> simpleBuf != rawBuf)
      && hdr.Length == HEADER_SIZE
    }

    ghost predicate Valid()
      reads this, buffers
    {
      && Owned()
      && match state
         case Header =>
           bytesRead < HEADER_SIZE && simpleLen == 0 && simpleBuf == null && rawBuf == null && kept == hdr[..bytesRead]
         case Simple =>
           HeaderKnown() && bytesRead < simpleLen && rawBuf == null && kept == hdr[..] + simpleBuf[..bytesRead]
         case Raw =>
           HeaderKnown() && bytesRead < HeaderRawLen(hdr[..]) && Holds(rawBuf, HeaderRawLen(hdr[..]))
           && kept == hdr[..] + Whole(simpleBuf) + rawBuf[..bytesRead]
         case Done =>
           HeaderKnown() && Holds(rawBuf, HeaderRawLen(hdr[..])) && kept == hdr[..] + Whole(simpleBuf) + Whole(rawBuf)
    }

    constructor (readingCommands: bool)
      ensures Valid() && state == Header && kept == [] && this.readingCommands == readingCommands
      ensures lengths == LengthsOf(Dir()) && fresh(buffers)
      ensures forall ty :: lengths(ty) == if readingCommands then DissectorCommand(ty) else DissectorEvent(ty)
    {
      this.state := Header;
      this.hdr := new Byte[HEADER_SIZE](_ => 0);
      this.simpleLen := 0;
      this.simpleBuf, this.rawBuf := null, null;
      this.bytesRead := 0;
      this.readingCommands := readingCommands;
      this.lengths := LengthsOf(if readingCommands then Commands else Events);
      this.kept := [];
      this.buffers := {hdr};
      forall ty ensures LengthsOf(Commands)(ty) == DissectorCommand(ty) && LengthsOf(Events)(ty) == DissectorEvent(ty) {
        DissectorAgreesOnCommands(ty);
        DissectorAgreesOnEvents(ty);
      }
    }

    method Reset()
      requires hdr.Length == HEADER_SIZE
      modifies this, hdr
      ensures Valid() && state == Header && kept == []
      ensures buffers == {hdr}
    {
      forall i | 0 <= i < hdr.Length {
        hdr[i] := 0;
      }
      simpleLen, simpleBuf, rawBuf, bytesRead := 0, null, null, 0;
      state := Header;
      kept := [];
      buffers := {hdr};
    }

    lemma KeptHeader()
      requires Valid() && state != Header
      ensures |kept| >= HEADER_SIZE
      ensures HeaderType(kept) == HeaderType(hdr[..]) && HeaderRawLen(kept) == HeaderRawLen(hdr[..])
      ensures TotalLength(lengths, kept) ==
              HEADER_SIZE + lengths(HeaderType(hdr[..])) + NonNegative(HeaderRawLen(hdr[..]))
    {
      var h := hdr[..];
      assert kept[..4] == h[..4] && kept[4..8] == h[4..8];
    }

    /** What is kept is a whole packet exactly in the state DONE. */
    lemma KeptIsPartial()
      requires Valid()
      ensures if state == Done then Complete(lengths, kept) else Partial(lengths, kept)
    {
      if state != Header {
        KeptHeader();
      }
    }

    lemma NothingToSplit()
      requires Valid() && state != Done
      ensures Splits(lengths, kept, [], kept)
    {
      KeptIsPartial();
    }

    method StartRaw()
      requires Owned() && HeaderKnown() && rawBuf == null && bytesRead == 0 && kept == hdr[..] + Whole(simpleBuf)
      modifies `state, `rawBuf, `buffers
      ensures Valid()
      ensures state == Raw || state == Done
      ensures fresh(buffers - old(buffers))
    {
      var rawLen := HeaderRawLen(hdr[..]);
      if rawLen > 0 {
        rawBuf := new Byte[rawLen](_ => 0);
        buffers := buffers + {rawBuf};
        state := Raw;
      } else {
        state := Done;
      }
    }

    /** The header is complete: its type says how long the fixed part is. */
    method StartPacket()
      requires Owned() && bytesRead == HEADER_SIZE && simpleBuf == null && rawBuf == null && kept == hdr[..]
      modifies `state, `simpleLen, `simpleBuf, `rawBuf, `bytesRead, `buffers
      ensures Valid() && state != Header
      ensures fresh(buffers - old(buffers))
    {
      simpleLen := lengths(HeaderType(hdr[..]));
      bytesRead := 0;
      if simpleLen > 0 {
        simpleBuf := new Byte[simpleLen](_ => 0);
        buffers := buffers + {simpleBuf};
        state := Simple;
      } else {
        StartRaw();
      }
    }

    method FeedHeader(src: seq<Byte>, consumed: nat) returns (take: nat)
      requires Valid() && state == Header && consumed < |src|
      modifies this, hdr
      ensures Valid() && 0 < take <= |src| - consumed
      ensures kept == old(kept) + src[consumed..consumed + take]
      ensures fresh(buffers - old(buffers))
    {
      var avail, need := |src| - consumed, HEADER_SIZE - bytesRead;
      take := if avail < need then avail else need;
      CopyInto(hdr, bytesRead, src, consumed, take);
      bytesRead := bytesRead + take;
      kept := kept + src[consumed..consumed + take];
      if bytesRead == HEADER_SIZE {
        StartPacket();
      }
    }

    method FeedSimple(src: seq<Byte>, consumed: nat) returns (take: nat)
      requires Valid() && state == Simple && consumed < |src|
      modifies this, simpleBuf
      ensures Valid() && 0 < take <= |src| - consumed
      ensures kept == old(kept) + src[consumed..consumed + take]
      ensures fresh(buffers - old(buffers))
    {
      var avail, need := |src| - consumed, simpleLen - bytesRead;
      take := if avail < need then avail else need;
      ghost var h, done, piece := hdr[..], simpleBuf[..bytesRead], src[consumed..consumed + take];
      CopyInto(simpleBuf, bytesRead, src, consumed, take);
      assert hdr[..] == h && simpleBuf[..bytesRead + take] == done + piece;
      Regrouped(h, done, piece);
      bytesRead := bytesRead + take;
      kept := kept + piece;
      if bytesRead == simpleLen {
        assert Whole(simpleBuf) == simpleBuf[..bytesRead];
        bytesRead := 0;
        StartRaw();
      }
    }

    method FeedRaw(src: seq<Byte>, consumed: nat) returns (take: nat)
      requires Valid() && state == Raw && consumed < |src|
      modifies this, rawBuf
      ensures Valid() && 0 < take <= |src| - consumed
      ensures kept == old(kept) + src[consumed..consumed + take]
      ensures buffers == old(buffers)
    {
      var avail, need := |src| - consumed, HeaderRawLen(hdr[..]) - bytesRead;
      take := if avail < need then avail else need;
      ghost var front, done, piece := hdr[..] + Whole(simpleBuf), rawBuf[..bytesRead], src[consumed..consumed + take];
      ghost var h := hdr[..];
      CopyInto(rawBuf, bytesRead, src, consumed, take);
      assert hdr[..] == h && hdr[..] + Whole(simpleBuf) == front && rawBuf[..bytesRead + take] == done + piece;
      assert front + (done + piece) == (front + done) + piece;
      bytesRead := bytesRead + take;
      kept := kept + src[consumed..consumed + take];
      if bytesRead == HeaderRawLen(hdr[..]) {
        assert Whole(rawBuf) == rawBuf[..bytesRead];
        state := Done;
      }
    }

    /** One round of the reading loop. */
    method FeedSome(src: seq<Byte>, consumed: nat) returns (take: nat)
      requires Valid() && state != Done && consumed < |src|
      modifies this, buffers
      ensures Valid() && 0 < take <= |src| - consumed
      ensures kept == old(kept) + src[consumed..consumed + take]
      ensures fresh(buffers - old(buffers))
    {
      match state
      case Header => take := FeedHeader(src, consumed);
      case Simple => take := FeedSimple(src, consumed);
      case Raw => take := FeedRaw(src, consumed);
    }

    /** Hands the finished packet over and starts afresh. */
    method TakePacket() returns (p: Packet)
      requires Valid() && state == Done
      modifies this, hdr
      ensures Valid() && state == Header && kept == []
      ensures Complete(lengths, old(kept)) && p == Parsed(lengths, old(kept))
      ensures buffers == {hdr}
    {
      KeptHeader();
      KeptIsPartial();
      p := Packet(HeaderType(hdr[..]), HeaderRawLen(hdr[..]), simpleLen,
                  if simpleBuf == null then None else Some(simpleBuf[..]),
                  if rawBuf == null then None else Some(rawBuf[..]));
      Reset();
    }

    /** The reading loop: up to the end of the packet or of the input. */
    method ReadOn(data: seq<Byte>) returns (consumed: nat)
      requires Valid() && state != Done
      modifies this, buffers
      ensures Valid() && fresh(buffers - old(buffers))
      ensures consumed <= |data| && kept == old(kept) + data[..consumed]
      ensures state == Done || consumed == |data|
    {
      ghost var before, read := kept, [];
      consumed := 0;
      while consumed < |data| && state != Done
        invariant Valid() && fresh(buffers - old(buffers))
        invariant consumed <= |data| && read == data[..consumed] && kept == before + read
        decreases |data| - consumed
      {
        var take := FeedSome(data, consumed);
        Regrouped(before, read, data[consumed..consumed + take]);
        OnePieceMore(data, consumed, take);
        read := read + data[consumed..consumed + take];
        consumed := consumed + take;
      }
    }

    /** One call: consumes up to the end of the current packet and never more. */
    method Feed(data: seq<Byte>) returns (consumed: nat, out: Option<Packet>)
      requires Valid() && state != Done
      modifies this, buffers
      ensures Valid() && state != Done && fresh(buffers - old(buffers))
      ensures Partial(lengths, old(kept))
      ensures Codec.Feed(consumed, out, kept) == Fed(lengths, old(kept), data)
    {
      KeptIsPartial();
      consumed := ReadOn(data);
      KeptIsPartial();
      if state == Done {
        FedCompletes(lengths, old(kept), data, consumed);
        var p := TakePacket();
        out := Some(p);
      } else {
        assert data[..consumed] == data;
        out := None;
      }
    }
  }

  lemma FedCompletes(lens: Lengths, partial: seq<Byte>, data: seq<Byte>, consumed: nat)
    requires Partial(lens, partial) && consumed <= |data| && Complete(lens, partial + data[..consumed])
    ensures Fed(lens, partial, data) == Codec.Feed(consumed, Some(Parsed(lens, partial + data[..consumed])), [])
  {
    var whole := partial + data[..consumed];
    SameHeader(lens, whole, data[consumed..]);
    assert whole + data[consumed..] == partial + data;
    assert (partial + data)[..|whole|] == whole;
  }

  /** One call in the loop over the bytes of a read: from the packets split off what came so far to
      those split off what came so far and the piece consumed. */
  method FeedNext(reader: PacketReader, data: seq<Byte>, ghost sofar: seq<Byte>, ghost packets: seq<Packet>)
      returns (consumed: nat, out: Option<Packet>)
    requires reader.Valid() && reader.state != Done && data != []
    requires Splits(reader.lengths, sofar, packets, reader.kept)
    modifies reader, reader.buffers
    ensures reader.Valid() && reader.state != Done && fresh(reader.buffers - old(reader.buffers))
    ensures 0 < consumed <= |data|
    ensures Splits(reader.lengths, sofar + data[..consumed], packets + OutOf(out), reader.kept)
  {
    ghost var kept := reader.kept;
    consumed, out := reader.Feed(data);
    FedExtends(reader.lengths, sofar, packets, kept, data, Codec.Feed(consumed, out, reader.kept));
  }

  lemma FedExtends(lens: Lengths, sofar: seq<Byte>, packets: seq<Packet>, kept: seq<Byte>, data: seq<Byte>,
                   f: Codec.Feed)
    requires data != [] && Splits(lens, sofar, packets, kept)
    requires Partial(lens, kept) && f == Fed(lens, kept, data)
    ensures 0 < f.consumed <= |data|
    ensures Splits(lens, sofar + data[..f.consumed], packets + OutOf(f.out), f.partial)
  {
    FeedIsStep(lens, kept, data);
    SplitsFurther(lens, sofar, packets, kept, data[..f.consumed], OutOf(f.out), f.partial);
  }

  /** The proxy's loop over one read: the consumed == 0 exit is never taken, and the packets dispatched
      are exactly the whole packets in what was kept plus what arrived. */
  method Drive(reader: PacketReader, data: seq<Byte>) returns (packets: seq<Packet>)
    requires reader.Valid() && reader.state != Done
    modifies reader, reader.buffers
    ensures reader.Valid() && reader.state != Done && fresh(reader.buffers - old(reader.buffers))
    ensures Splits(reader.lengths, old(reader.kept) + data, packets, reader.kept)
  {
    ghost var sofar := reader.kept;
    packets := [];
    var offset := 0;
    reader.NothingToSplit();
    assert sofar + data[..0] == sofar;
    while offset < |data|
      invariant reader.Valid() && reader.state != Done && fresh(reader.buffers - old(reader.buffers))
      invariant offset <= |data| && sofar == old(reader.kept) + data[..offset]
      invariant Splits(reader.lengths, sofar, packets, reader.kept)
    {
      var consumed, out := FeedNext(reader, data[offset..], sofar, packets);
      if consumed == 0 {
        assert false;
        break;
      }
      sofar := sofar + data[offset..][..consumed];
      offset := offset + consumed;
      packets := packets + OutOf(out);
    }
    assert data[..offset] == data;
  }

  /** A packet as the dissector describes those of a direction. */
  predicate Described(readingCommands: bool, p: Packet) {
    && p.simpleLen == (if readingCommands then DissectorCommand(p.ty) else DissectorEvent(p.ty))
    && 0 <= p.rawLen && BufferFits(p.simple, p.simpleLen) && BufferFits(p.raw, p.rawLen)
  }

  /** A fresh reader of either direction, driven over the reads of a connection: if the bytes are those of
      packets as the dissector describes them, then however they are cut these packets come out and the
      reader keeps nothing. */
  method ReadConnection(readingCommands: bool, chunks: seq<seq<Byte>>, ghost ps: seq<Packet>)
      returns (packets: seq<Packet>, reader: PacketReader)
    requires forall i :: 0 <= i < |ps| ==> Described(readingCommands, ps[i])
    requires Flatten(chunks) == SerializedAll(ps)
    ensures packets == ps && reader.kept == [] && reader.state == Header
  {
    reader := new PacketReader(readingCommands);
    packets := [];
    reader.NothingToSplit();
    for i := 0 to |chunks|
      invariant reader.Valid() && reader.state != Done && fresh(reader) && fresh(reader.buffers)
      invariant forall ty :: reader.lengths(ty) == if readingCommands then DissectorCommand(ty) else DissectorEvent(ty)
      invariant Splits(reader.lengths, Flatten(chunks[..i]), packets, reader.kept)
    {
      ghost var kept := reader.kept;
      var more := Drive(reader, chunks[i]);
      SplitsFurther(reader.lengths, Flatten(chunks[..i]), packets, kept, chunks[i], more, reader.kept);
      assert chunks[..i + 1][..i] == chunks[..i];
      packets := packets + more;
    }
    assert chunks[..|chunks|] == chunks;
    RoundTrip(reader.lengths, ps);
    reader.KeptIsPartial();
  }

  /** Buffers that are read have the announced length; the C code trusts its caller for this. */
  predicate BuffersMatch(p: Packet) {
    && (p.simpleLen > 0 && p.simple.Some? ==> |p.simple.value| == p.simpleLen)
    && (p.rawLen > 0 && p.raw.Some? ==> |p.raw.value| == p.rawLen)
  }

  lemma SerializedFits(p: Packet)
    requires BuffersMatch(p) && !Overruns(p)
    ensures |Serialized(p)| <= WireSize(p)
  {
  }

  /** memcpy of a buffer that may be null or empty, then the advance of the write position. */
  method Append(buf: array<Byte>, n: nat, src: seq<Byte>) returns (m: nat)
    requires n + |src| <= buf.Length
    modifies buf
    ensures m == n + |src|
    ensures buf[..m] == old(buf[..n]) + src && buf[m..] == old(buf[m..])
  {
    CopyInto(buf, n, src, 0, |src|);
    m := n + |src|;
    assert src[0..|src|] == src;
  }

  /** The same for one of the packet's buffers, which may be missing. */
  method AppendBuffer(buf: array<Byte>, n: nat, buffer: Option<seq<Byte>>, len: int) returns (m: nat)
    requires n + |Written(buffer, len)| <= buf.Length
    modifies buf
    ensures m == n + |Written(buffer, len)|
    ensures buf[..m] == old(buf[..n]) + Written(buffer, len) && buf[m..] == old(buf[m..])
  {
    m := n;
    if len > 0 && buffer.Some? {
      m := Append(buf, n, buffer.value);
    }
  }

  /** The type and the raw length. */
  method AppendHeader(buf: array<Byte>, p: Packet) returns (m: nat)
    requires HEADER_SIZE <= buf.Length
    modifies buf
    ensures m == HEADER_SIZE && buf[..m] == EncodeInt32(p.ty) + EncodeInt32(p.rawLen) && buf[m..] == old(buf[m..])
  {
    ghost var was := buf[..];
    m := Append(buf, 0, EncodeInt32(p.ty));
    ghost var typed := buf[..];
    m := Append(buf, m, EncodeInt32(p.rawLen));
    SameShorterTail(typed, was, 4, m);
  }

  /** Writes the packet to the front of the buffer, or nothing at all when its wire size is larger. A wire
      size that wrapped to too little says nothing about the room; then the caller has to have it. */
  method Serialize(p: Packet, buf: array<Byte>) returns (n: nat)
    requires BuffersMatch(p)
    requires Overruns(p) && WireSize(p) <= buf.Length ==> |Serialized(p)| <= buf.Length
    modifies buf
    ensures buf.Length < WireSize(p) ==> n == 0 && buf[..] == old(buf[..])
    ensures WireSize(p) <= buf.Length ==>
              n == |Serialized(p)| <= buf.Length && buf[..n] == Serialized(p) && buf[n..] == old(buf[n..])
  {
    if buf.Length < WireSize(p) {
      return 0;
    }
    ghost var was := buf[..];
    if !Overruns(p) {
      SerializedFits(p);
    }
    n := AppendHeader(buf, p);
    ghost var first := buf[..];
    n := AppendBuffer(buf, n, p.simple, p.simpleLen);
    ghost var second := buf[..];
    SameShorterTail(first, was, HEADER_SIZE, n);
    ghost var m := n;
    n := AppendBuffer(buf, n, p.raw, p.rawLen);
    SameShorterTail(second, was, m, n);
  }
}
