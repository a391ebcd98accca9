/**
 What the trace proxy makes of a byte stream (feed_and_enqueue in trace_proxy/trace_proxy.c), as values:
 which packets go on, what is written for them, what the tracer gets, over a stream cut into arbitrary
 reads. TraceProxy does it on buffers and Tracer interleaves it.
 */
module Streams {
  import opened Sequences
  import opened Wrappers
  import opened Codec
  import opened TraceQueue

  // ---------- the drop mask ----------

  /** Is the bit at this place of the mask set? The lowest is at 0. */
  predicate BitSet(mask: bv64, place: nat) {
    if place == 0 then mask & 1 == 1 else BitSet(mask >> 1, place - 1)
  }

  /** Commands have the lower 32 bits of the mask by type, events the upper 32; types outside 0..31 have no
      bit and are never dropped. */
  predicate Dropped(mask: bv64, dir: Direction, ty: int) {
    0 <= ty < 32 && BitSet(mask, if dir.Events? then ty + 32 else ty)
  }

  lemma PlaceFits(place: nat)
    requires place < 64
    ensures (place as bv6) as int == place
  {
  }

  lemma PlaceBelow(p: bv6)
    requires p as int > 0
    ensures p > 0 && (p - 1) as int == p as int - 1
  {
  }

  lemma ShiftOnce(mask: bv64, p: bv6)
    requires p > 0
    ensures ((mask >> 1) >> (p - 1)) & 1 == (mask >> p) & 1
  {
  }

  /** The same as a shift. */
  lemma {:induction false} BitSetIsShift(mask: bv64, p: bv6, place: nat)
    requires p as int == place
    ensures BitSet(mask, place) <==> (mask >> p) & 1 == 1
    decreases place
  {
    if place > 0 {
      PlaceBelow(p);
      BitSetIsShift(mask >> 1, p - 1, place - 1);
      ShiftOnce(mask, p);
    }
  }

  lemma LowMask(mask: bv64, place: bv6)
    requires 32 <= place && mask < 0x1_0000_0000
    ensures (mask >> place) & 1 == 0
  {
  }

  lemma HighMask(mask: bv64, place: bv6)
    requires place < 32 && mask & 0xFFFF_FFFF == 0
    ensures (mask >> place) & 1 == 0
  {
  }

  lemma PlaceHalf(p: bv6)
    ensures p < 32 <==> p as int < 32
  {
  }

  /** A mask below 2^32 drops no event, a mask with a zero lower half no command. */
  lemma HalvesAreApart(mask: bv64, ty: int)
    ensures mask < 0x1_0000_0000 ==> !Dropped(mask, Events, ty)
    ensures mask & 0xFFFF_FFFF == 0 ==> !Dropped(mask, Commands, ty)
  {
    if 0 <= ty < 32 {
      if mask < 0x1_0000_0000 {
        UpperHalf(mask, ty + 32);
      }
      if mask & 0xFFFF_FFFF == 0 {
        LowerHalf(mask, ty);
      }
    }
  }

  lemma UpperHalf(mask: bv64, place: nat)
    requires mask < 0x1_0000_0000 && 32 <= place < 64
    ensures !BitSet(mask, place)
  {
    PlaceFits(place);
    PlaceHalf(place as bv6);
    BitSetIsShift(mask, place as bv6, place);
    LowMask(mask, place as bv6);
  }

  lemma LowerHalf(mask: bv64, place: nat)
    requires mask & 0xFFFF_FFFF == 0 && place < 32
    ensures !BitSet(mask, place)
  {
    PlaceFits(place);
    PlaceHalf(place as bv6);
    BitSetIsShift(mask, place as bv6, place);
    HighMask(mask, place as bv6);
  }

  // ---------- what happens to a list of packets ----------

  /** The packets that go on to the other side. */
  function Passed(mask: bv64, dir: Direction, ps: seq<Packet>): seq<Packet> {
    if ps == [] then []
    else (if Dropped(mask, dir, ps[0].ty) then [] else [ps[0]]) + Passed(mask, dir, ps[1..])
  }

  /** The items for the tracer: every packet, dropped or not. */
  function Traced(mask: bv64, dir: Direction, clientId: int, ps: seq<Packet>): (items: seq<Item>)
    ensures |items| == |ps|
    ensures forall i :: 0 <= i < |items| ==> items[i].pkt.Some? && items[i].clientId == clientId && items[i].dir == dir
  {
    if ps == [] then []
    else [Item(Some(ps[0]), clientId, dir, Dropped(mask, dir, ps[0].ty))] + Traced(mask, dir, clientId, ps[1..])
  }

  /** One item for each packet, in order, flagged exactly when the mask drops it. */
  lemma {:induction false} TracedAt(mask: bv64, dir: Direction, clientId: int, ps: seq<Packet>, i: nat)
    requires i < |ps|
    ensures Traced(mask, dir, clientId, ps)[i] == Item(Some(ps[i]), clientId, dir, Dropped(mask, dir, ps[i].ty))
  {
    if i > 0 {
      TracedAt(mask, dir, clientId, ps[1..], i - 1);
    }
  }

  lemma PassedSnoc(mask: bv64, dir: Direction, ps: seq<Packet>)
    requires ps != []
    ensures var last := ps[|ps| - 1];
            Passed(mask, dir, ps) ==
              Passed(mask, dir, ps[..|ps| - 1]) + (if Dropped(mask, dir, last.ty) then [] else [last])
  {
    var last := ps[|ps| - 1];
    assert ps == ps[..|ps| - 1] + [last];
    PassedConcat(mask, dir, ps[..|ps| - 1], [last]);
    assert Passed(mask, dir, []) == [] && [last][1..] == [];
  }

  /** The packets at these places of the list, which are those the mask does not drop. */
  ghost predicate Unmasked(mask: bv64, dir: Direction, ps: seq<Packet>, passed: seq<Packet>, at: seq<nat>) {
    && |at| == |passed|
    && (forall k :: 0 <= k < |at| ==> at[k] < |ps| && passed[k] == ps[at[k]])
    && (forall k, l :: 0 <= k < l < |at| ==> at[k] < at[l])
    && (forall i :: 0 <= i < |ps| ==> (i in at <==> !Dropped(mask, dir, ps[i].ty)))
  }

  lemma UnmaskedMore(mask: bv64, dir: Direction, ps: seq<Packet>, passed: seq<Packet>, at: seq<nat>)
    requires ps != [] && Unmasked(mask, dir, ps[..|ps| - 1], passed, at)
    ensures var last := ps[|ps| - 1];
            if Dropped(mask, dir, last.ty) then Unmasked(mask, dir, ps, passed, at)
            else Unmasked(mask, dir, ps, passed + [last], at + [|ps| - 1])
  {
  }

  lemma {:induction false} PassedAt(mask: bv64, dir: Direction, ps: seq<Packet>) returns (at: seq<nat>)
    ensures Unmasked(mask, dir, ps, Passed(mask, dir, ps), at)
  {
    if ps == [] {
      at := [];
    } else {
      var front, last := ps[..|ps| - 1], ps[|ps| - 1];
      at := PassedAt(mask, dir, front);
      PassedSnoc(mask, dir, ps);
      UnmaskedMore(mask, dir, ps, Passed(mask, dir, front), at);
      if Dropped(mask, dir, last.ty) {
        assert Passed(mask, dir, front) + [] == Passed(mask, dir, front);
      } else {
        at := at + [|ps| - 1];
      }
    }
  }

  lemma {:induction false} PassedConcat(mask: bv64, dir: Direction, a: seq<Packet>, b: seq<Packet>)
    ensures Passed(mask, dir, a + b) == Passed(mask, dir, a) + Passed(mask, dir, b)
  {
    if a == [] {
      assert a + b == b;
    } else {
      assert (a + b)[1..] == a[1..] + b;
      PassedConcat(mask, dir, a[1..], b);
      var first := if Dropped(mask, dir, a[0].ty) then [] else [a[0]];
      Regrouped(first, Passed(mask, dir, a[1..]), Passed(mask, dir, b));
    }
  }

  lemma {:induction false} TracedConcat(mask: bv64, dir: Direction, clientId: int, a: seq<Packet>, b: seq<Packet>)
    ensures Traced(mask, dir, clientId, a + b) == Traced(mask, dir, clientId, a) + Traced(mask, dir, clientId, b)
  {
    if a == [] {
      assert a + b == b;
    } else {
      assert (a + b)[1..] == a[1..] + b;
      TracedConcat(mask, dir, clientId, a[1..], b);
    }
  }

  lemma {:induction false} SentConcat(a: seq<Packet>, b: seq<Packet>)
    ensures SentAll(a + b) == SentAll(a) + SentAll(b)
  {
    if a == [] {
      assert a + b == b;
    } else {
      assert (a + b)[1..] == a[1..] + b;
      SentConcat(a[1..], b);
    }
  }

  lemma Appends(mask: bv64, dir: Direction, clientId: int, ps: seq<Packet>, more: seq<Packet>)
    ensures Traced(mask, dir, clientId, ps + more) ==
            Traced(mask, dir, clientId, ps) + Traced(mask, dir, clientId, more)
    ensures SentAll(Passed(mask, dir, ps + more)) == SentAll(Passed(mask, dir, ps)) + SentAll(Passed(mask, dir, more))
  {
    TracedConcat(mask, dir, clientId, ps, more);
    PassedConcat(mask, dir, ps, more);
    SentConcat(Passed(mask, dir, ps), Passed(mask, dir, more));
  }

  /** The items of a stream: those of what came before and those one more read completes. */
  lemma TracedFurther(lens: Lengths, mask: bv64, dir: Direction, clientId: int, before: seq<Byte>, kept: seq<Byte>,
                      bytes: seq<Byte>)
    requires kept == Split(lens, before).1
    ensures Traced(mask, dir, clientId, Split(lens, before + bytes).0) ==
            Traced(mask, dir, clientId, Split(lens, before).0) +
            Traced(mask, dir, clientId, Split(lens, kept + bytes).0)
  {
    SplitConcat(lens, before, bytes);
    TracedConcat(mask, dir, clientId, Split(lens, before).0, Split(lens, kept + bytes).0);
  }

  lemma OnePacket(mask: bv64, dir: Direction, clientId: int, pkt: Packet)
    ensures Traced(mask, dir, clientId, [pkt]) == [Item(Some(pkt), clientId, dir, Dropped(mask, dir, pkt.ty))]
    ensures SentAll(Passed(mask, dir, [pkt])) == if Dropped(mask, dir, pkt.ty) then [] else Sent(pkt)
  {
    assert Passed(mask, dir, []) == [] && [pkt][1..] == [];
  }

  lemma {:induction false} NoneDropped(mask: bv64, dir: Direction, ps: seq<Packet>)
    requires (dir.Events? && mask < 0x1_0000_0000) || (dir.Commands? && mask & 0xFFFF_FFFF == 0)
    ensures Passed(mask, dir, ps) == ps
  {
    if ps != [] {
      NoneDropped(mask, dir, ps[1..]);
      HalvesAreApart(mask, ps[0].ty);
    }
  }

  lemma {:induction false} PassedFromReader(lens: Lengths, mask: bv64, dir: Direction, ps: seq<Packet>)
    requires forall i :: 0 <= i < |ps| ==> FromReader(lens, ps[i])
    ensures forall i :: 0 <= i < |Passed(mask, dir, ps)| ==> FromReader(lens, Passed(mask, dir, ps)[i])
  {
    if ps != [] {
      PassedFromReader(lens, mask, dir, ps[1..]);
    }
  }

  // ---------- a whole stream ----------

  /** What has been written to the other side after a stream arrived in chunks. */
  function Forwarded(lens: Lengths, mask: bv64, dir: Direction, chunks: seq<seq<Byte>>): seq<Byte> {
    if chunks == [] then []
    else
      var front := chunks[..|chunks| - 1];
      var kept := Driven(lens, [], front).1;
      Forwarded(lens, mask, dir, front) + SentAll(Passed(mask, dir, Split(lens, kept + chunks[|chunks| - 1]).0))
  }

  lemma {:induction false} ForwardedIsDriven(lens: Lengths, mask: bv64, dir: Direction, chunks: seq<seq<Byte>>)
    ensures Forwarded(lens, mask, dir, chunks) == SentAll(Passed(mask, dir, Driven(lens, [], chunks).0))
  {
    if chunks != [] {
      var front := chunks[..|chunks| - 1];
      var (ps, kept) := Driven(lens, [], front);
      var more := Split(lens, kept + chunks[|chunks| - 1]).0;
      ForwardedIsDriven(lens, mask, dir, front);
      PassedConcat(mask, dir, ps, more);
      SentConcat(Passed(mask, dir, ps), Passed(mask, dir, more));
    }
  }

  lemma WholeStream(lens: Lengths, chunks: seq<seq<Byte>>)
    ensures Driven(lens, [], chunks) == Split(lens, Flatten(chunks))
  {
    ChunksDoNotMatter(lens, [], chunks);
    assert [] + Flatten(chunks) == Flatten(chunks);
  }

  /** However the stream is cut, what goes out is what is sent for exactly the packets the mask does not drop,
      in order; it is their whole serialisation exactly when none of them has a negative raw length. A mask
      without upper half drops no event, one without lower half no command. */
  lemma ForwardsWhatIsNotDropped(lens: Lengths, mask: bv64, dir: Direction, chunks: seq<seq<Byte>>)
      returns (at: seq<nat>)
    ensures var passed := Passed(mask, dir, Split(lens, Flatten(chunks)).0);
            && Unmasked(mask, dir, Split(lens, Flatten(chunks)).0, passed, at)
            && Forwarded(lens, mask, dir, chunks) == SentAll(passed)
            && (Forwarded(lens, mask, dir, chunks) == SerializedAll(passed) <==> NoNegativeLength(passed))
            && ((dir.Events? && mask < 0x1_0000_0000) || (dir.Commands? && mask & 0xFFFF_FFFF == 0) ==>
                  passed == Split(lens, Flatten(chunks)).0)
  {
    at := PassedAt(mask, dir, Split(lens, Flatten(chunks)).0);
    if (dir.Events? && mask < 0x1_0000_0000) || (dir.Commands? && mask & 0xFFFF_FFFF == 0) {
      NoneDropped(mask, dir, Split(lens, Flatten(chunks)).0);
    }
    ForwardedIsDriven(lens, mask, dir, chunks);
    WholeStream(lens, chunks);
    SplitIsFromReader(lens, Flatten(chunks));
    PassedFromReader(lens, mask, dir, Split(lens, Flatten(chunks)).0);
    AllSentIff(lens, Passed(mask, dir, Split(lens, Flatten(chunks)).0));
  }

  /** With nothing masked the proxy is transparent, what went out and what it still holds being the input,
      exactly when no packet has a negative raw length; then the output is a prefix of the input. */
  lemma ZeroMaskIsTransparentIff(lens: Lengths, dir: Direction, chunks: seq<seq<Byte>>)
    ensures Forwarded(lens, 0, dir, chunks) + Driven(lens, [], chunks).1 == Flatten(chunks)
       <==> NoNegativeLength(Split(lens, Flatten(chunks)).0)
    ensures NoNegativeLength(Split(lens, Flatten(chunks)).0) ==> Forwarded(lens, 0, dir, chunks) <= Flatten(chunks)
  {
    var at := ForwardsWhatIsNotDropped(lens, 0, dir, chunks);
    WholeStream(lens, chunks);
    NoneDropped(0, dir, Split(lens, Flatten(chunks)).0);
    SplitIsTransparentIff(lens, Flatten(chunks));
  }

  lemma ReadBackIff(lens: Lengths, ps: seq<Packet>)
    requires forall i :: 0 <= i < |ps| ==> FromReader(lens, ps[i])
    ensures Split(lens, SentAll(ps)) == (ps, []) <==> NoNegativeLength(ps)
  {
    AllSentIff(lens, ps);
    if NoNegativeLength(ps) {
      RoundTrip(lens, ps);
    } else {
      SplitKeepsBytes(lens, SentAll(ps));
      assert SerializedAll(ps) + [] == SerializedAll(ps);
    }
  }

  /** The peer behind the proxy reads exactly the packets that were let through, with nothing left over,
      exactly when none of those has a negative raw length. */
  lemma PeerReadsWhatPassedIff(lens: Lengths, mask: bv64, dir: Direction, chunks: seq<seq<Byte>>)
    ensures var passed := Passed(mask, dir, Split(lens, Flatten(chunks)).0);
            Split(lens, Forwarded(lens, mask, dir, chunks)) == (passed, []) <==> NoNegativeLength(passed)
  {
    var at := ForwardsWhatIsNotDropped(lens, mask, dir, chunks);
    SplitIsFromReader(lens, Flatten(chunks));
    PassedFromReader(lens, mask, dir, Split(lens, Flatten(chunks)).0);
    ReadBackIff(lens, Passed(mask, dir, Split(lens, Flatten(chunks)).0));
  }

  // ---------- what the code can carry out ----------

  /** Every packet that is let through fits a buffer of its wire size. */
  predicate NoOverrun(mask: bv64, dir: Direction, ps: seq<Packet>) {
    forall i :: 0 <= i < |ps| ==> Dropped(mask, dir, ps[i].ty) || !Overruns(ps[i])
  }

  /** No packet of the stream does. The quantifier only keeps proofs that merely pass it on from unfolding
      Split. */
  ghost predicate NeverOverruns(lens: Lengths, mask: bv64, dir: Direction, bs: seq<Byte>) {
    forall s :: s == bs ==> NoOverrun(mask, dir, Split(lens, s).0)
  }

  lemma NoOverrunParts(mask: bv64, dir: Direction, a: seq<Packet>, b: seq<Packet>)
    requires NoOverrun(mask, dir, a + b)
    ensures NoOverrun(mask, dir, a) && NoOverrun(mask, dir, b)
  {
    forall i | 0 <= i < |a| ensures a[i] == (a + b)[i] {}
    forall i | 0 <= i < |b| ensures b[i] == (a + b)[|a| + i] {}
  }

  /** What the stream begins with, and what the rest of it completes, is safe if the stream is. */
  lemma StreamParts(lens: Lengths, mask: bv64, dir: Direction, front: seq<Byte>, back: seq<Byte>)
    requires NeverOverruns(lens, mask, dir, front + back)
    ensures NeverOverruns(lens, mask, dir, front) && NeverOverruns(lens, mask, dir, Split(lens, front).1 + back)
  {
    assert NoOverrun(mask, dir, Split(lens, front + back).0);
    SplitConcat(lens, front, back);
    NoOverrunParts(mask, dir, Split(lens, front).0, Split(lens, Split(lens, front).1 + back).0);
  }

  /** The packets one read completes are among those of the whole stream. */
  lemma ReadIsPartOfStream(lens: Lengths, mask: bv64, dir: Direction, before: seq<Byte>, kept: seq<Byte>,
                           chunk: seq<Byte>, after: seq<Byte>)
    requires kept == Split(lens, before).1
    requires NeverOverruns(lens, mask, dir, (before + chunk) + after)
    ensures NeverOverruns(lens, mask, dir, kept + chunk)
  {
    StreamParts(lens, mask, dir, before + chunk, after);
    StreamParts(lens, mask, dir, before, chunk);
  }
}
