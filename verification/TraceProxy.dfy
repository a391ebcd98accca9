/**
 What the trace proxy does with the bytes of one read, and with the reads of one direction of a session
 (feed_and_enqueue and the direction threads in trace_proxy/trace_proxy.c).
 */
module TraceProxy {
  import opened Wrappers
  import opened Codec
  import opened Reader
  import opened Sequences
  import opened Streams
  import opened TraceQueue

  // ---------- one read ----------

  /** The file descriptor of the other side. */
  class Peer {
    var received: seq<Byte>

    constructor ()
      ensures received == []
    {
      received := [];
    }

    /** write_all: all bytes arrive, or an error ends it after some of them. */
    method WriteAll(data: array<Byte>, len: nat) returns (ok: bool)
      requires len <= data.Length
      modifies this
      ensures ok ==> received == old(received) + data[..len]
      ensures old(received) <= received
    {
      var written: nat :| written <= len;
      received := received + data[..written];
      ok := written == len;
    }
  }

  /** One parsed packet: forwarded unless its type is masked, traced in any case. */
  method Handle(ghost lens: Lengths, pkt: Packet, clientId: int, dir: Direction, queue: Queue, peer: Peer, mask: bv64)
      returns (ok: bool)
    requires queue.Valid() && FromReader(lens, pkt) && NoOverrun(mask, dir, [pkt])
    modifies queue, queue.repr, peer
    ensures queue.Valid() && queue.items == old(queue.items) + Traced(mask, dir, clientId, [pkt])
    ensures fresh(queue.repr - old(queue.repr))
    ensures ok ==> peer.received == old(peer.received) + SentAll(Passed(mask, dir, [pkt]))
    ensures old(peer.received) <= peer.received
  {
    ok := true;
    var drop := Dropped(mask, dir, pkt.ty);
    if !drop {
      ok := Forward(lens, pkt, peer);
    }
    queue.Enqueue(Item(Some(pkt), clientId, dir, drop));
    OnePacket(mask, dir, clientId, pkt);
  }

  /** A buffer of the wire size, the packet into it, the buffer out; no buffer, nothing out. */
  method Forward(ghost lens: Lengths, pkt: Packet, peer: Peer) returns (ok: bool)
    requires FromReader(lens, pkt) && !Overruns(pkt)
    modifies peer
    ensures ok ==> peer.received == old(peer.received) + Sent(pkt)
    ensures old(peer.received) <= peer.received
  {
    ok := true;
    var wsz := WireSize(pkt);
    SerializedLength(lens, pkt);
    if wsz <= MAX_ALLOC {
      var wbuf := new Byte[wsz](_ => 0);
      var n := Serialize(pkt, wbuf);
      ok := peer.WriteAll(wbuf, wsz);
    } else {
      assert Sent(pkt) == [];
    }
  }

  lemma LastIsHandled(lens: Lengths, mask: bv64, dir: Direction, sofar: seq<Byte>, data: seq<Byte>, ps: seq<Packet>,
                      out: Option<Packet>, kept: seq<Byte>, n: nat)
    requires n <= |data| && Splits(lens, sofar + data[..n], ps + OutOf(out), kept)
    requires NeverOverruns(lens, mask, dir, sofar + data) && out.Some?
    ensures FromReader(lens, out.value) && NoOverrun(mask, dir, [out.value])
  {
    assert sofar + data == (sofar + data[..n]) + data[n..];
    SplitConcat(lens, sofar + data[..n], data[n..]);
    NoOverrunParts(mask, dir, ps + OutOf(out), Split(lens, kept + data[n..]).0);
    NoOverrunParts(mask, dir, ps, OutOf(out));
    SplitIsFromReader(lens, sofar + data[..n]);
    assert (ps + OutOf(out))[|ps|] == out.value;
  }

  /** What a feed gave, if anything, is handled; the reader it came from is left alone. */
  method HandleOut(reader: PacketReader, pkt: Option<Packet>, clientId: int, queue: Queue, peer: Peer, mask: bv64)
      returns (ok: bool)
    requires queue.Valid() && reader.Valid()
    requires pkt.Some? ==> FromReader(reader.lengths, pkt.value) && NoOverrun(mask, reader.Dir(), [pkt.value])
    modifies queue, queue.repr, peer
    ensures reader.Valid() && unchanged(reader)
    ensures queue.Valid() && fresh(queue.repr - old(queue.repr))
    ensures queue.items == old(queue.items) + Traced(mask, reader.Dir(), clientId, OutOf(pkt))
    ensures ok ==> peer.received == old(peer.received) + SentAll(Passed(mask, reader.Dir(), OutOf(pkt)))
    ensures old(peer.received) <= peer.received
  {
    ok := true;
    if pkt.Some? {
      ok := Handle(reader.lengths, pkt.value, clientId, reader.Dir(), queue, peer, mask);
    }
  }

  /** A feed leaves the queue and the peer alone. */
  method FeedBeside(reader: PacketReader, data: seq<Byte>, queue: Queue, peer: Peer, ghost sofar: seq<Byte>,
                    ghost ps: seq<Packet>)
      returns (consumed: nat, pkt: Option<Packet>)
    requires reader.Valid() && reader.state != Done && queue.Valid()
    requires data != [] && Splits(reader.lengths, sofar, ps, reader.kept)
    modifies reader, reader.buffers
    ensures reader.Valid() && reader.state != Done && fresh(reader.buffers - old(reader.buffers))
    ensures queue.Valid() && unchanged(queue) && unchanged(peer)
    ensures 0 < consumed <= |data|
    ensures Splits(reader.lengths, sofar + data[..consumed], ps + OutOf(pkt), reader.kept)
  {
    consumed, pkt := FeedNext(reader, data, sofar, ps);
  }

  /** One round of the loop: the packets it adds to what was split off so far are traced and forwarded. */
  method FeedAndEnqueueOne(reader: PacketReader, data: seq<Byte>, clientId: int, queue: Queue, peer: Peer, mask: bv64,
                           ghost sofar: seq<Byte>, ghost ps: seq<Packet>)
      returns (consumed: nat, ok: bool, ghost more: seq<Packet>)
    requires reader.Valid() && reader.state != Done && queue.Valid()
    requires data != [] && Splits(reader.lengths, sofar, ps, reader.kept)
    requires NeverOverruns(reader.lengths, mask, reader.Dir(), sofar + data)
    modifies reader, reader.buffers, queue, queue.repr, peer
    ensures reader.Valid() && reader.state != Done && queue.Valid()
    ensures fresh(reader.buffers - old(reader.buffers)) && fresh(queue.repr - old(queue.repr))
    ensures 0 < consumed <= |data|
    ensures Splits(reader.lengths, sofar + data[..consumed], ps + more, reader.kept)
    ensures queue.items == old(queue.items) + Traced(mask, reader.Dir(), clientId, more)
    ensures ok ==> peer.received == old(peer.received) + SentAll(Passed(mask, reader.Dir(), more))
    ensures old(peer.received) <= peer.received
  {
    var pkt;
    consumed, pkt := FeedBeside(reader, data, queue, peer, sofar, ps);
    assert consumed != 0 || pkt != None;
    more := OutOf(pkt);
    if pkt.Some? {
      LastIsHandled(reader.lengths, mask, reader.Dir(), sofar, data, ps, pkt, reader.kept, consumed);
    }
    ok := HandleOut(reader, pkt, clientId, queue, peer, mask);
  }

  /** Where the loop stands after the input sofar: the packets split off, and what became of them. */
  datatype Progress = Progress(sofar: seq<Byte>, ps: seq<Packet>, rc: int, items: seq<Item>, sent: seq<Byte>)

  ghost predicate Follows(mask: bv64, dir: Direction, clientId: int, start: Progress, now: Progress) {
    && (forall ps :: ps == now.ps ==> now.items == start.items + Traced(mask, dir, clientId, ps))
    && (now.rc == 0 ==> forall ps :: ps == now.ps ==> now.sent == start.sent + SentAll(Passed(mask, dir, ps)))
    && (now.rc == 0 || now.rc == -1)
    && start.sent <= now.sent
  }

  lemma FollowsFurther(mask: bv64, dir: Direction, clientId: int, start: Progress, now: Progress, next: Progress,
                       more: seq<Packet>, ok: bool)
    requires Follows(mask, dir, clientId, start, now)
    requires next.ps == now.ps + more && next.items == now.items + Traced(mask, dir, clientId, more)
    requires ok ==> next.sent == now.sent + SentAll(Passed(mask, dir, more))
    requires next.rc == (if ok then now.rc else -1) && now.sent <= next.sent
    ensures Follows(mask, dir, clientId, start, next)
  {
    Appends(mask, dir, clientId, now.ps, more);
    Regrouped(start.items, Traced(mask, dir, clientId, now.ps), Traced(mask, dir, clientId, more));
    Regrouped(start.sent, SentAll(Passed(mask, dir, now.ps)), SentAll(Passed(mask, dir, more)));
    PrefixOfPrefix(start.sent, now.sent, next.sent);
  }

  lemma RestOfWhole(front: seq<Byte>, data: seq<Byte>, offset: nat)
    requires offset <= |data|
    ensures front + data == (front + data)[..|front| + offset] + data[offset..]
  {
  }

  lemma PieceOfWhole(front: seq<Byte>, data: seq<Byte>, offset: nat, consumed: nat)
    requires offset + consumed <= |data|
    ensures (front + data)[..|front| + offset] + data[offset..][..consumed] ==
            (front + data)[..|front| + offset + consumed]
  {
  }

  method FeedAndEnqueueNext(reader: PacketReader, data: seq<Byte>, offset: nat, clientId: int, queue: Queue, peer: Peer,
                            mask: bv64, rc0: int, ghost whole: seq<Byte>, ghost start: Progress, ghost now: Progress)
      returns (offset': nat, rc: int, ghost next: Progress)
    requires reader.Valid() && reader.state != Done && queue.Valid()
    requires offset < |data| && Splits(reader.lengths, now.sofar, now.ps, reader.kept)
    requires whole == start.sofar + data && now.sofar == whole[..|start.sofar| + offset]
    requires NeverOverruns(reader.lengths, mask, reader.Dir(), whole)
    requires Follows(mask, reader.Dir(), clientId, start, now)
    requires rc0 == now.rc && queue.items == now.items && peer.received == now.sent
    modifies reader, reader.buffers, queue, queue.repr, peer
    ensures reader.Valid() && reader.state != Done && queue.Valid()
    ensures fresh(reader.buffers - old(reader.buffers)) && fresh(queue.repr - old(queue.repr))
    ensures offset < offset' <= |data| && next.sofar == whole[..|start.sofar| + offset']
    ensures Splits(reader.lengths, next.sofar, next.ps, reader.kept)
    ensures Follows(mask, reader.Dir(), clientId, start, next)
    ensures rc == next.rc && queue.items == next.items && peer.received == next.sent
  {
    var consumed: nat, ok: bool;
    ghost var more: seq<Packet>;
    var piece := data[offset..];
    RestOfWhole(start.sofar, data, offset);
    consumed, ok, more := FeedAndEnqueueOne(reader, piece, clientId, queue, peer, mask, now.sofar, now.ps);
    rc := if ok then rc0 else -1;
    offset' := offset + consumed;
    next := Progress(now.sofar + piece[..consumed], now.ps + more, rc, queue.items, peer.received);
    FollowsFurther(mask, reader.Dir(), clientId, start, now, next, more, ok);
    PieceOfWhole(start.sofar, data, offset, consumed);
  }

  /** The loop over the bytes of one read. */
  method FeedAll(reader: PacketReader, data: seq<Byte>, clientId: int, queue: Queue, peer: Peer, mask: bv64,
                 ghost start: Progress)
      returns (rc: int, ghost now: Progress)
    requires reader.Valid() && reader.state != Done && queue.Valid()
    requires NeverOverruns(reader.lengths, mask, reader.Dir(), start.sofar + data)
    requires Splits(reader.lengths, start.sofar, start.ps, reader.kept)
    requires Follows(mask, reader.Dir(), clientId, start, start)
    requires start.rc == 0 && queue.items == start.items && peer.received == start.sent
    modifies reader, reader.buffers, queue, queue.repr, peer
    ensures reader.Valid() && reader.state != Done && queue.Valid()
    ensures fresh(reader.buffers - old(reader.buffers)) && fresh(queue.repr - old(queue.repr))
    ensures now.sofar == start.sofar + data && Splits(reader.lengths, now.sofar, now.ps, reader.kept)
    ensures Follows(mask, reader.Dir(), clientId, start, now)
    ensures rc == now.rc && queue.items == now.items && peer.received == now.sent
  {
    rc := 0;
    now := start;
    var offset := 0;
    ghost var whole := start.sofar + data;
    while offset < |data|
      invariant reader.Valid() && reader.state != Done && queue.Valid()
      invariant fresh(reader.buffers - old(reader.buffers)) && fresh(queue.repr - old(queue.repr))
      invariant offset <= |data| && now.sofar == whole[..|start.sofar| + offset]
      invariant Splits(reader.lengths, now.sofar, now.ps, reader.kept)
      invariant Follows(mask, reader.Dir(), clientId, start, now)
      invariant rc == now.rc && queue.items == now.items && peer.received == now.sent
    {
      offset, rc, now := FeedAndEnqueueNext(reader, data, offset, clientId, queue, peer, mask, rc, whole, start, now);
    }
  }

  /** All bytes of one read go through the reader; every packet they complete is queued for the tracer, and
      unless a write failed the unmasked ones have been forwarded, in order. */
  method FeedAndEnqueue(reader: PacketReader, data: seq<Byte>, clientId: int, queue: Queue, peer: Peer, mask: bv64)
      returns (rc: int, ghost ps: seq<Packet>)
    requires reader.Valid() && reader.state != Done && queue.Valid()
    requires NeverOverruns(reader.lengths, mask, reader.Dir(), reader.kept + data)
    modifies reader, reader.buffers, queue, queue.repr, peer
    ensures reader.Valid() && reader.state != Done && queue.Valid()
    ensures fresh(reader.buffers - old(reader.buffers)) && fresh(queue.repr - old(queue.repr))
    ensures Splits(reader.lengths, old(reader.kept) + data, ps, reader.kept)
    ensures queue.items == old(queue.items) + Traced(mask, reader.Dir(), clientId, ps)
    ensures rc == 0 ==> peer.received == old(peer.received) + SentAll(Passed(mask, reader.Dir(), ps))
    ensures (rc == 0 || rc == -1) && old(peer.received) <= peer.received
  {
    ghost var start := Progress(reader.kept, [], 0, queue.items, peer.received);
    ghost var now;
    reader.NothingToSplit();
    rc, now := FeedAll(reader, data, clientId, queue, peer, mask, start);
    ps := now.ps;
  }

  // ---------- one direction of a session ----------

  lemma OneReadOfStream(lens: Lengths, mask: bv64, dir: Direction, chunks: seq<seq<Byte>>, n: nat, ps: seq<Packet>,
                        kept: seq<Byte>)
    requires n < |chunks| && Splits(lens, Flatten(chunks[..n]), ps, kept)
    requires NeverOverruns(lens, mask, dir, Flatten(chunks))
    ensures NeverOverruns(lens, mask, dir, kept + chunks[n])
  {
    var after := FlattenRest(chunks, n + 1);
    FlattenOneMore(chunks, n);
    assert kept == Split(lens, Flatten(chunks[..n])).1;
    ReadIsPartOfStream(lens, mask, dir, Flatten(chunks[..n]), kept, chunks[n], after);
  }

  lemma FlattenOneMore(chunks: seq<seq<Byte>>, n: nat)
    requires n < |chunks|
    ensures Flatten(chunks[..n + 1]) == Flatten(chunks[..n]) + chunks[n]
  {
    assert chunks[..n + 1][..n] == chunks[..n];
  }

  lemma {:induction false} FlattenRest(chunks: seq<seq<Byte>>, n: nat) returns (after: seq<Byte>)
    requires n <= |chunks|
    ensures Flatten(chunks) == Flatten(chunks[..n]) + after
    decreases |chunks| - n
  {
    if n == |chunks| {
      assert chunks[..n] == chunks;
      after := [];
    } else {
      var rest := FlattenRest(chunks, n + 1);
      FlattenOneMore(chunks, n);
      after := chunks[n] + rest;
      Regrouped(Flatten(chunks[..n]), chunks[n], rest);
    }
  }

  /** One read of the thread, with what was split off, traced and forwarded before it. */
  method RelayOne(reader: PacketReader, chunks: seq<seq<Byte>>, n: nat, clientId: int, queue: Queue, peer: Peer,
                  mask: bv64, ghost start: Progress, ghost now: Progress)
      returns (rc: int, ghost next: Progress)
    requires reader.Valid() && reader.state != Done && queue.Valid()
    requires n < |chunks| && NeverOverruns(reader.lengths, mask, reader.Dir(), Flatten(chunks))
    requires now.sofar == Flatten(chunks[..n]) && Splits(reader.lengths, now.sofar, now.ps, reader.kept)
    requires now.rc == 0 && Follows(mask, reader.Dir(), clientId, start, now)
    requires queue.items == now.items && peer.received == now.sent
    modifies reader, reader.buffers, queue, queue.repr, peer
    ensures reader.Valid() && reader.state != Done && queue.Valid()
    ensures fresh(reader.buffers - old(reader.buffers)) && fresh(queue.repr - old(queue.repr))
    ensures next.sofar == Flatten(chunks[..n + 1]) && Splits(reader.lengths, next.sofar, next.ps, reader.kept)
    ensures Follows(mask, reader.Dir(), clientId, start, next)
    ensures rc == next.rc && queue.items == next.items && peer.received == next.sent
  {
    OneReadOfStream(reader.lengths, mask, reader.Dir(), chunks, n, now.ps, reader.kept);
    ghost var kept := reader.kept;
    ghost var more;
    rc, more := FeedAndEnqueue(reader, chunks[n], clientId, queue, peer, mask);
    SplitsFurther(reader.lengths, now.sofar, now.ps, kept, chunks[n], more, reader.kept);
    FlattenOneMore(chunks, n);
    next := Progress(now.sofar + chunks[n], now.ps + more, rc, queue.items, peer.received);
    FollowsFurther(mask, reader.Dir(), clientId, start, now, next, more, rc == 0);
  }

  /** The loop of a direction thread over its reads, up to the end of the stream or the first failed write.
      Over the whole stream the peer has received what Forwarded says. */
  method Relay(reader: PacketReader, chunks: seq<seq<Byte>>, clientId: int, queue: Queue, peer: Peer, mask: bv64)
      returns (done: nat, rc: int, ghost ps: seq<Packet>)
    requires reader.Valid() && reader.state != Done && reader.kept == [] && queue.Valid()
    requires NeverOverruns(reader.lengths, mask, reader.Dir(), Flatten(chunks))
    modifies reader, reader.buffers, queue, queue.repr, peer
    ensures reader.Valid() && reader.state != Done && queue.Valid()
    ensures done <= |chunks| && (rc == 0 ==> done == |chunks|)
    ensures Splits(reader.lengths, Flatten(chunks[..done]), ps, reader.kept)
    ensures queue.items == old(queue.items) + Traced(mask, reader.Dir(), clientId, ps)
    ensures rc == 0 ==>
              peer.received == old(peer.received) + Forwarded(reader.lengths, mask, reader.Dir(), chunks)
    ensures old(peer.received) <= peer.received
  {
    done, rc := 0, 0;
    ghost var start := Progress([], [], 0, queue.items, peer.received);
    ghost var now := start;
    reader.NothingToSplit();
    while done < |chunks| && rc == 0
      invariant reader.Valid() && reader.state != Done && queue.Valid()
      invariant fresh(reader.buffers - old(reader.buffers)) && fresh(queue.repr - old(queue.repr))
      invariant done <= |chunks| && now.sofar == Flatten(chunks[..done])
      invariant Splits(reader.lengths, now.sofar, now.ps, reader.kept)
      invariant Follows(mask, reader.Dir(), clientId, start, now)
      invariant rc == now.rc && queue.items == now.items && peer.received == now.sent
      decreases |chunks| - done
    {
      rc, now := RelayOne(reader, chunks, done, clientId, queue, peer, mask, start, now);
      done := done + 1;
    }
    ps := now.ps;
    RelayEnds(reader.lengths, mask, reader.Dir(), clientId, chunks, done, start, now, reader.kept);
  }

  lemma RelayEnds(lens: Lengths, mask: bv64, dir: Direction, clientId: int, chunks: seq<seq<Byte>>, done: nat,
                  start: Progress, now: Progress, kept: seq<Byte>)
    requires done <= |chunks| && (now.rc == 0 ==> done == |chunks|)
    requires Follows(mask, dir, clientId, start, now)
    requires now.sofar == Flatten(chunks[..done]) && Splits(lens, now.sofar, now.ps, kept)
    ensures now.items == start.items + Traced(mask, dir, clientId, now.ps)
    ensures now.rc == 0 ==> now.sent == start.sent + Forwarded(lens, mask, dir, chunks)
    ensures start.sent <= now.sent
  {
    if now.rc == 0 {
      AllForwarded(lens, mask, dir, chunks, done, now.ps, kept);
    }
  }

  lemma AllForwarded(lens: Lengths, mask: bv64, dir: Direction, chunks: seq<seq<Byte>>, n: nat, ps: seq<Packet>,
                     kept: seq<Byte>)
    requires n == |chunks| && Splits(lens, Flatten(chunks[..n]), ps, kept)
    ensures SentAll(Passed(mask, dir, ps)) == Forwarded(lens, mask, dir, chunks)
  {
    assert chunks[..n] == chunks;
    assert Split(lens, Flatten(chunks)) == (ps, kept);
    var at := ForwardsWhatIsNotDropped(lens, mask, dir, chunks);
  }
}
