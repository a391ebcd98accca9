/**
 The wire format (libqwsproto/qws_proto.c and qws_proto.h): packet sizes, serialisation, and the
 splitting of a byte stream into packets that the reader in Reader.dfy is proved against.
 */
module Codec {
  import opened Sequences
  import opened Wrappers

  type Byte = b: int | 0 <= b < 256

  type Int32 = n: int | -0x8000_0000 <= n < 0x8000_0000

  datatype Direction = Commands | Events

  const HEADER_SIZE := 8

  // ---------- int32 on the wire ----------

  function Word(b0: int, b1: int, b2: int, b3: int): int {
    b0 + 0x100 * (b1 + 0x100 * (b2 + 0x100 * b3))
  }

  function DecodeInt32(b: seq<Byte>): Int32
    requires |b| == 4
  {
    var u := Word(b[0], b[1], b[2], b[3]);
    if u < 0x8000_0000 then u else u - 0x1_0000_0000
  }

  function EncodeInt32(n: Int32): (b: seq<Byte>)
    ensures |b| == 4
  {
    var u: int := if n >= 0 then n else n + 0x1_0000_0000;
    [u % 0x100, (u / 0x100) % 0x100, (u / 0x1_0000) % 0x100, u / 0x100_0000]
  }

  lemma WordDigits(b0: Byte, b1: Byte, b2: Byte, b3: Byte)
    ensures var u := Word(b0, b1, b2, b3);
            && 0 <= u < 0x1_0000_0000
            && u % 0x100 == b0 && (u / 0x100) % 0x100 == b1 && (u / 0x1_0000) % 0x100 == b2 && u / 0x100_0000 == b3
  {
    var u := Word(b0, b1, b2, b3);
    assert u / 0x100 == b1 + 0x100 * (b2 + 0x100 * b3);
    assert u / 0x1_0000 == b2 + 0x100 * b3;
  }

  lemma DigitsOfWord(u: int)
    requires 0 <= u < 0x1_0000_0000
    ensures Word(u % 0x100, (u / 0x100) % 0x100, (u / 0x1_0000) % 0x100, u / 0x100_0000) == u
  {
    assert u / 0x1_0000 == (u / 0x100) / 0x100 && u / 0x100_0000 == (u / 0x1_0000) / 0x100;
  }

  /** Both directions: the four bytes and the number determine each other. */
  lemma Int32RoundTrip(n: Int32, b: seq<Byte>)
    requires |b| == 4
    ensures DecodeInt32(EncodeInt32(n)) == n
    ensures EncodeInt32(DecodeInt32(b)) == b
  {
    DigitsOfWord(if n >= 0 then n else n + 0x1_0000_0000);
    WordDigits(b[0], b[1], b[2], b[3]);
  }

  // ---------- sizes of the fixed parts ----------

  function PaddedTo4(end: int): int {
    end + (if end % 4 == 0 then 0 else 4 - end % 4)
  }

  /** sizeof of a payload struct: int32 words first, then 16-bit, then 8-bit fields, padded to the
      alignment of the widest. */
  function SizeOf(words: int, halves: int, bytes: int): int {
    if words > 0 then PaddedTo4(4 * words + 2 * halves + bytes)
    else if halves > 0 then 2 * halves + bytes + bytes % 2
    else bytes
  }

  /** The size of the command struct of a type, -1 for a type the switch does not know. */
  function CommandLength(ty: int): int {
    match ty
    case 1 => SizeOf(1, 0, 0) // Create
    case 2 => SizeOf(0, 0, 0) // Shutdown
    case 3 => SizeOf(4, 0, 0) // Region
    case 4 => SizeOf(3, 0, 0) // RegionMove
    case 5 => SizeOf(1, 0, 0) // RegionDestroy
    case 6 => SizeOf(3, 0, 0) // SetProperty
    case 7 => SizeOf(2, 0, 0) // AddProperty
    case 8 => SizeOf(2, 0, 0) // RemoveProperty
    case 9 => SizeOf(2, 0, 0) // GetProperty
    case 10 => SizeOf(5, 0, 0) // SetSelectionOwner
    case 11 => SizeOf(3, 0, 0) // ConvertSelection
    case 12 => SizeOf(2, 0, 0) // RequestFocus
    case 13 => SizeOf(2, 0, 1) // ChangeAltitude: is_fixed is one byte
    case 14 => SizeOf(1, 0, 1) // SetOpacity: opacity is one byte
    case 15 => SizeOf(5, 0, 0) // DefineCursor
    case 16 => SizeOf(2, 0, 0) // SelectCursor
    case 17 => SizeOf(2, 0, 0) // PositionCursor
    case 18 => SizeOf(1, 0, 1) // GrabMouse
    case 19 => SizeOf(1, 0, 0) // PlaySound
    case 20 => SizeOf(1, 0, 0) // QCopRegister
    case 21 => SizeOf(3, 0, 0) // QCopSend
    case 22 => SizeOf(3, 0, 0) // RegionName
    case 23 => SizeOf(2, 0, 0) // Identify
    case 24 => SizeOf(1, 0, 1) // GrabKeyboard
    case 25 => SizeOf(4, 0, 0) // RepaintRegion
    case 26 => SizeOf(3, 0, 0) // IMMouse
    case 27 => SizeOf(3, 0, 0) // IMUpdate
    case 28 => SizeOf(2, 0, 0) // IMResponse
    case 29 => SizeOf(4, 0, 0) // Embed
    case 30 => SizeOf(1, 0, 0) // Font
    case 31 => SizeOf(2, 0, 0) // ScreenTransform
    case _ => -1
  }

  function EventLength(ty: int): int {
    match ty
    case 0 => SizeOf(0, 0, 0) // NoEvent
    case 1 => SizeOf(4, 0, 0) // Connected
    case 2 => SizeOf(6, 0, 0) // Mouse
    case 3 => SizeOf(2, 0, 0) // Focus
    case 4 => SizeOf(3, 2, 0) // Key
    case 5 => SizeOf(2, 0, 1) // Region: type is one byte
    case 6 => SizeOf(2, 0, 0) // Creation
    case 7 => SizeOf(3, 0, 0) // PropertyNotify
    case 8 => SizeOf(3, 0, 0) // PropertyReply
    case 9 => SizeOf(1, 0, 0) // SelectionClear
    case 10 => SizeOf(4, 0, 0) // SelectionRequest
    case 11 => SizeOf(4, 0, 0) // SelectionNotify
    case 12 => SizeOf(5, 0, 0) // MaxWindowRect
    case 13 => SizeOf(4, 0, 0) // QCopMessage
    case 14 => SizeOf(2, 0, 0) // WindowOperation
    case 15 => SizeOf(3, 0, 0) // IMEvent
    case 16 => SizeOf(2, 0, 0) // IMQuery
    case 17 => SizeOf(2, 0, 0) // IMInit
    case 18 => SizeOf(3, 0, 0) // Embed
    case 19 => SizeOf(1, 0, 0) // Font
    case 20 => SizeOf(2, 0, 0) // ScreenTransform
    case _ => -1
  }

  /** A length in an int32 that is not negative. */
  type SimpleLen = n: int | 0 <= n < 0x8000_0000

  function TableLength(dir: Direction, ty: int): int {
    if dir.Commands? then CommandLength(ty) else EventLength(ty)
  }

  /** What the reader makes of the table: an unknown type has no fixed part. */
  function SimpleLength(dir: Direction, ty: int): SimpleLen {
    var n := TableLength(dir, ty);
    if n > 0 then n else 0
  }

  // ---------- the same sizes as the dissector lists them ----------

  function DissectorCommand(ty: int): nat {
    match ty
    case 1 => 4 case 3 => 16 case 4 => 12 case 5 => 4 case 6 => 12 case 7 => 8 case 8 => 8 case 9 => 8
    case 10 => 20 case 11 => 12 case 12 => 8 case 13 => 12 case 14 => 8 case 15 => 20 case 16 => 8 case 17 => 8
    case 18 => 8 case 19 => 4 case 20 => 4 case 21 => 12 case 22 => 12 case 23 => 8 case 24 => 8 case 25 => 16
    case 26 => 12 case 27 => 12 case 28 => 8 case 29 => 16 case 30 => 4 case 31 => 8
    case _ => 0
  }

  function DissectorEvent(ty: int): nat {
    match ty
    case 1 => 16 case 2 => 24 case 3 => 8 case 4 => 16 case 5 => 12 case 6 => 8 case 7 => 12 case 8 => 12
    case 9 => 4 case 10 => 16 case 11 => 16 case 12 => 20 case 13 => 16 case 14 => 8 case 15 => 12 case 16 => 8
    case 17 => 8 case 18 => 12 case 19 => 4 case 20 => 8
    case _ => 0
  }

  /** The struct layouts of the C tables and the dissector's hand-written numbers agree, for every type. */
  lemma DissectorAgreesOnCommands(ty: int)
    ensures SimpleLength(Commands, ty) == DissectorCommand(ty)
  {
  }

  lemma DissectorAgreesOnEvents(ty: int)
    ensures SimpleLength(Events, ty) == DissectorEvent(ty)
  {
  }

  /** How long the fixed part of each packet type is; the theory below holds for any table. */
  type Lengths = int -> SimpleLen

  function LengthsOf(dir: Direction): Lengths {
    ty => SimpleLength(dir, ty)
  }

  // ---------- packets ----------

  /** A missing buffer is a null pointer. simpleLen is not on the wire. */
  datatype Packet =
    Packet(ty: Int32, rawLen: Int32, simpleLen: SimpleLen, simple: Option<seq<Byte>>, raw: Option<seq<Byte>>)

  predicate BufferFits(buffer: Option<seq<Byte>>, len: int) {
    if len > 0 then buffer.Some? && |buffer.value| == len else buffer.None?
  }

  /** What the reader makes: buffers of the announced lengths, and none for a negative one. */
  predicate FromReader(lens: Lengths, p: Packet) {
    && p.simpleLen == lens(p.ty)
    && BufferFits(p.simple, p.simpleLen)
    && BufferFits(p.raw, p.rawLen)
  }

  predicate WellFormed(lens: Lengths, p: Packet) {
    FromReader(lens, p) && 0 <= p.rawLen
  }

  /** The sum is a 64-bit size_t, so a negative raw length wraps it around. */
  function WireSize(p: Packet): nat {
    var size := HEADER_SIZE + p.simpleLen + p.rawLen;
    if size >= 0 then size else size + 0x1_0000_0000_0000_0000
  }

  /** The bytes of a buffer that are written: none when it is null or its length is not positive. */
  function Written(buffer: Option<seq<Byte>>, len: int): seq<Byte> {
    if len > 0 && buffer.Some? then buffer.value else []
  }

  function Serialized(p: Packet): seq<Byte> {
    EncodeInt32(p.ty) + EncodeInt32(p.rawLen) + Written(p.simple, p.simpleLen) + Written(p.raw, p.rawLen)
  }

  function SerializedAll(ps: seq<Packet>): seq<Byte> {
    if ps == [] then [] else Serialized(ps[0]) + SerializedAll(ps[1..])
  }

  /** No allocation is larger than this (PTRDIFF_MAX). */
  const MAX_ALLOC := 0x7FFF_FFFF_FFFF_FFFF

  /** What is written out for a packet: as many of its bytes as the wire size says, or nothing when no
      buffer of that size can be had. */
  function Sent(p: Packet): seq<Byte> {
    if WireSize(p) > MAX_ALLOC then []
    else if WireSize(p) < |Serialized(p)| then Serialized(p)[..WireSize(p)]
    else Serialized(p)
  }

  function SentAll(ps: seq<Packet>): seq<Byte> {
    if ps == [] then [] else Sent(ps[0]) + SentAll(ps[1..])
  }

  predicate NoNegativeLength(ps: seq<Packet>) {
    forall i :: 0 <= i < |ps| ==> 0 <= ps[i].rawLen
  }

  /** The wire size comes to less than the header and the fixed part: a buffer of that size has no room
      for them. */
  predicate Overruns(p: Packet) {
    p.rawLen < 0 && WireSize(p) < HEADER_SIZE + p.simpleLen
  }

  // ---------- a stream of packets ----------

  function HeaderType(bs: seq<Byte>): Int32
    requires |bs| >= HEADER_SIZE
  {
    DecodeInt32(bs[..4])
  }

  function HeaderRawLen(bs: seq<Byte>): Int32
    requires |bs| >= HEADER_SIZE
  {
    DecodeInt32(bs[4..8])
  }

  function NonNegative(n: int): nat { if n > 0 then n else 0 }

  /** How long the packet starting here is; a negative raw length counts as none. */
  function TotalLength(lens: Lengths, bs: seq<Byte>): nat
    requires |bs| >= HEADER_SIZE
  {
    HEADER_SIZE + lens(HeaderType(bs)) + NonNegative(HeaderRawLen(bs))
  }

  /** Not yet a whole packet. */
  predicate Partial(lens: Lengths, bs: seq<Byte>) {
    |bs| < HEADER_SIZE || |bs| < TotalLength(lens, bs)
  }

  predicate Complete(lens: Lengths, bs: seq<Byte>) {
    |bs| >= HEADER_SIZE && |bs| == TotalLength(lens, bs)
  }

  function Parsed(lens: Lengths, bs: seq<Byte>): Packet
    requires Complete(lens, bs)
  {
    var n := lens(HeaderType(bs));
    Packet(HeaderType(bs), HeaderRawLen(bs), n,
           if n > 0 then Some(bs[8..8 + n]) else None,
           if HeaderRawLen(bs) > 0 then Some(bs[8 + n..]) else None)
  }

  /** The whole packets at the front of a stream and what is left. */
  function Split(lens: Lengths, bs: seq<Byte>): (seq<Packet>, seq<Byte>)
    decreases |bs|
  {
    if Partial(lens, bs) then ([], bs)
    else
      var n := TotalLength(lens, bs);
      assert bs[..n][..4] == bs[..4] && bs[..n][4..8] == bs[4..8];
      var (ps, rest) := Split(lens, bs[n..]);
      ([Parsed(lens, bs[..n])] + ps, rest)
  }

  /** Split as a relation. The quantifier only keeps proofs that merely pass it on from unfolding Split. */
  ghost predicate Splits(lens: Lengths, bs: seq<Byte>, packets: seq<Packet>, rest: seq<Byte>) {
    forall s :: s == bs ==> Split(lens, s) == (packets, rest)
  }

  lemma SameHeader(lens: Lengths, a: seq<Byte>, b: seq<Byte>)
    requires |a| >= HEADER_SIZE
    ensures HeaderType(a + b) == HeaderType(a) && HeaderRawLen(a + b) == HeaderRawLen(a)
    ensures TotalLength(lens, a + b) == TotalLength(lens, a)
  {
    assert (a + b)[..4] == a[..4] && (a + b)[4..8] == a[4..8];
  }

  lemma {:induction false} SplitLeavesPartial(lens: Lengths, bs: seq<Byte>)
    ensures Partial(lens, Split(lens, bs).1)
    decreases |bs|
  {
    if !Partial(lens, bs) {
      SplitLeavesPartial(lens, bs[TotalLength(lens, bs)..]);
    }
  }

  /** Reading on from what is left is the same as reading everything at once. */
  lemma {:induction false} SplitConcat(lens: Lengths, a: seq<Byte>, b: seq<Byte>)
    ensures Split(lens, a + b).0 == Split(lens, a).0 + Split(lens, Split(lens, a).1 + b).0
    ensures Split(lens, a + b).1 == Split(lens, Split(lens, a).1 + b).1
    decreases |a|
  {
    if !Partial(lens, a) {
      var n := TotalLength(lens, a);
      SameHeader(lens, a, b);
      assert (a + b)[n..] == a[n..] + b && (a + b)[..n] == a[..n];
      SplitConcat(lens, a[n..], b);
    }
  }

  lemma SplitsFurther(lens: Lengths, bs: seq<Byte>, packets: seq<Packet>, kept: seq<Byte>,
                      piece: seq<Byte>, more: seq<Packet>, rest: seq<Byte>)
    requires Splits(lens, bs, packets, kept) && Splits(lens, kept + piece, more, rest)
    ensures Splits(lens, bs + piece, packets + more, rest)
  {
    SplitConcat(lens, bs, piece);
  }

  lemma SplitOfComplete(lens: Lengths, bs: seq<Byte>)
    requires Complete(lens, bs)
    ensures Split(lens, bs) == ([Parsed(lens, bs)], [])
  {
    var n := TotalLength(lens, bs);
    assert bs[..n] == bs && bs[n..] == [];
    assert Partial(lens, []);
    assert [Parsed(lens, bs)] + [] == [Parsed(lens, bs)];
  }

  // ---------- serialising undoes parsing and the other way round ----------

  /** Where everything lies on the wire: the type and the raw length in four bytes each, the lowest first and
      negative numbers as two's complement, then the fixed part, then the variable part. */
  lemma WireLayout(p: Packet)
    requires BufferFits(p.simple, p.simpleLen) && BufferFits(p.raw, p.rawLen)
    ensures var b := Serialized(p);
            && |b| == 8 + p.simpleLen + (if p.rawLen > 0 then p.rawLen else 0)
            && b[0] as int + 256 * b[1] as int + 65536 * b[2] as int + 16777216 * b[3] as int ==
                 (if p.ty >= 0 then p.ty as int else p.ty as int + 4294967296)
            && b[4] as int + 256 * b[5] as int + 65536 * b[6] as int + 16777216 * b[7] as int ==
                 (if p.rawLen >= 0 then p.rawLen as int else p.rawLen as int + 4294967296)
            && (p.simpleLen > 0 ==> b[8..8 + p.simpleLen] == p.simple.value)
            && (p.rawLen > 0 ==> b[8 + p.simpleLen..] == p.raw.value)
  {
    DigitsOfWord(if p.ty >= 0 then p.ty else p.ty + 0x1_0000_0000);
    DigitsOfWord(if p.rawLen >= 0 then p.rawLen else p.rawLen + 0x1_0000_0000);
  }

  lemma HeaderEncodes(bs: seq<Byte>)
    requires |bs| >= HEADER_SIZE
    ensures EncodeInt32(HeaderType(bs)) == bs[..4] && EncodeInt32(HeaderRawLen(bs)) == bs[4..8]
  {
    Int32RoundTrip(0, bs[..4]);
    Int32RoundTrip(0, bs[4..8]);
  }

  lemma SerializedFrom(p: Packet, bs: seq<Byte>, n: nat)
    requires HEADER_SIZE + n <= |bs|
    requires EncodeInt32(p.ty) == bs[..4] && EncodeInt32(p.rawLen) == bs[4..8]
    requires Written(p.simple, p.simpleLen) == bs[8..8 + n]
    requires Written(p.raw, p.rawLen) == bs[8 + n..]
    ensures Serialized(p) == bs
  {
    Reassembled(bs, n);
  }

  /** Serialising a parsed packet gives its bytes back; they are all written out exactly when the raw
      length is not negative. */
  lemma SerializeParsed(lens: Lengths, bs: seq<Byte>)
    requires Complete(lens, bs)
    ensures Serialized(Parsed(lens, bs)) == bs
    ensures Sent(Parsed(lens, bs)) == bs <==> HeaderRawLen(bs) >= 0
  {
    HeaderEncodes(bs);
    var n := lens(HeaderType(bs));
    var p := Parsed(lens, bs);
    assert Written(p.simple, p.simpleLen) == bs[8..8 + n];
    assert Written(p.raw, p.rawLen) == bs[8 + n..];
    SerializedFrom(p, bs, n);
    ParsedIsWellFormed(lens, bs);
    SentIsWholeIff(lens, p);
  }

  /** Every parsed packet has matching buffers, and is well formed and as long as its wire size exactly
      when its raw length is not negative. */
  lemma ParsedIsWellFormed(lens: Lengths, bs: seq<Byte>)
    requires Complete(lens, bs)
    ensures FromReader(lens, Parsed(lens, bs))
    ensures WellFormed(lens, Parsed(lens, bs)) <==> HeaderRawLen(bs) >= 0
    ensures WireSize(Parsed(lens, bs)) == |bs| <==> HeaderRawLen(bs) >= 0
  {
  }

  lemma SerializedLength(lens: Lengths, p: Packet)
    requires FromReader(lens, p)
    ensures |Serialized(p)| == HEADER_SIZE + p.simpleLen + NonNegative(p.rawLen)
  {
  }

  lemma SentIsWholeIff(lens: Lengths, p: Packet)
    requires FromReader(lens, p)
    ensures |Sent(p)| <= |Serialized(p)|
    ensures |Sent(p)| == |Serialized(p)| <==> 0 <= p.rawLen
    ensures 0 <= p.rawLen <==> Sent(p) == Serialized(p)
  {
    SerializedLength(lens, p);
  }

  /** What is written out for a packet from the reader: everything when its raw length is not negative;
      otherwise the header and fixed part short of so many bytes, or nothing when that is less than none. */
  lemma SentIs(lens: Lengths, p: Packet)
    requires FromReader(lens, p)
    ensures Sent(p) == if p.rawLen >= 0 then Serialized(p)
                       else if 8 + p.simpleLen + p.rawLen < 0 then []
                       else Serialized(p)[..8 + p.simpleLen + p.rawLen]
  {
    SerializedLength(lens, p);
  }

  lemma Reassembled(bs: seq<Byte>, n: nat)
    requires HEADER_SIZE + n <= |bs|
    ensures bs[..4] + bs[4..8] + bs[8..8 + n] + bs[8 + n..] == bs
  {
  }

  lemma ParseSerialized(lens: Lengths, p: Packet)
    requires WellFormed(lens, p)
    ensures |Serialized(p)| == WireSize(p) && Sent(p) == Serialized(p)
    ensures Complete(lens, Serialized(p)) && Parsed(lens, Serialized(p)) == p
  {
    var bs := Serialized(p);
    Int32RoundTrip(p.ty, EncodeInt32(0));
    Int32RoundTrip(p.rawLen, EncodeInt32(0));
    assert bs[..4] == EncodeInt32(p.ty) && bs[4..8] == EncodeInt32(p.rawLen);
    assert bs[8..8 + p.simpleLen] == Written(p.simple, p.simpleLen);
    assert bs[8 + p.simpleLen..] == Written(p.raw, p.rawLen);
  }

  lemma {:induction false} SplitIsFromReader(lens: Lengths, bs: seq<Byte>)
    ensures forall i :: 0 <= i < |Split(lens, bs).0| ==> FromReader(lens, Split(lens, bs).0[i])
    decreases |bs|
  {
    if !Partial(lens, bs) {
      var n := TotalLength(lens, bs);
      SameHeader(lens, bs[..n], bs[n..]);
      assert bs[..n] + bs[n..] == bs;
      ParsedIsWellFormed(lens, bs[..n]);
      SplitIsFromReader(lens, bs[n..]);
      assert Split(lens, bs).0 == [Parsed(lens, bs[..n])] + Split(lens, bs[n..]).0;
    }
  }

  /** The packets of a stream and the partial bytes make up the stream. */
  lemma {:induction false} SplitKeepsBytes(lens: Lengths, bs: seq<Byte>)
    ensures SerializedAll(Split(lens, bs).0) + Split(lens, bs).1 == bs
    decreases |bs|
  {
    if !Partial(lens, bs) {
      var n := TotalLength(lens, bs);
      SameHeader(lens, bs[..n], bs[n..]);
      assert bs[..n] + bs[n..] == bs;
      SerializeParsed(lens, bs[..n]);
      SplitKeepsBytes(lens, bs[n..]);
      var ps := Split(lens, bs).0;
      assert ps[0] == Parsed(lens, bs[..n]) && ps[1..] == Split(lens, bs[n..]).0;
    }
  }

  /** Packets from the reader are written out whole exactly when no raw length is negative. */
  lemma {:induction false} AllSentIff(lens: Lengths, ps: seq<Packet>)
    requires forall i :: 0 <= i < |ps| ==> FromReader(lens, ps[i])
    ensures |SentAll(ps)| <= |SerializedAll(ps)|
    ensures |SentAll(ps)| == |SerializedAll(ps)| <==> NoNegativeLength(ps)
    ensures SentAll(ps) == SerializedAll(ps) <==> NoNegativeLength(ps)
  {
    if ps != [] {
      SentIsWholeIff(lens, ps[0]);
      AllSentIff(lens, ps[1..]);
      assert NoNegativeLength(ps) <==> 0 <= ps[0].rawLen && NoNegativeLength(ps[1..]) by {
        NoNegativeTail(ps);
      }
    }
  }

  lemma NoNegativeTail(ps: seq<Packet>)
    requires ps != []
    ensures NoNegativeLength(ps) <==> 0 <= ps[0].rawLen && NoNegativeLength(ps[1..])
  {
    if 0 <= ps[0].rawLen && NoNegativeLength(ps[1..]) {
      forall i | 0 <= i < |ps| ensures 0 <= ps[i].rawLen {
        if i > 0 {
          assert ps[i] == ps[1..][i - 1];
        }
      }
    }
  }

  /** Written out again, the packets of a stream and then the partial bytes are the stream exactly when no
      packet in it has a negative raw length. */
  lemma SplitIsTransparentIff(lens: Lengths, bs: seq<Byte>)
    ensures SentAll(Split(lens, bs).0) + Split(lens, bs).1 == bs <==> NoNegativeLength(Split(lens, bs).0)
  {
    SplitKeepsBytes(lens, bs);
    SplitIsFromReader(lens, bs);
    AllSentIff(lens, Split(lens, bs).0);
  }

  lemma SplitOneSerialized(lens: Lengths, p: Packet, more: seq<Byte>)
    requires WellFormed(lens, p)
    ensures Split(lens, Serialized(p) + more) == ([p] + Split(lens, more).0, Split(lens, more).1)
  {
    ParseSerialized(lens, p);
    SplitOfComplete(lens, Serialized(p));
    SplitConcat(lens, Serialized(p), more);
    assert [] + more == more;
  }

  /** Any well-formed packets come back exactly, with nothing left over. */
  lemma {:induction false} RoundTrip(lens: Lengths, ps: seq<Packet>)
    requires forall p :: p in ps ==> WellFormed(lens, p)
    ensures Split(lens, SerializedAll(ps)) == (ps, [])
  {
    if ps == [] {
      assert Partial(lens, []);
    } else {
      var more := SerializedAll(ps[1..]);
      assert SerializedAll(ps) == Serialized(ps[0]) + more;
      RoundTrip(lens, ps[1..]);
      SplitOneSerialized(lens, ps[0], more);
      assert [ps[0]] + ps[1..] == ps;
    }
  }

  // ---------- one feed ----------

  /** What one call of the reader consumes, returns and keeps, from what it kept before. */
  datatype Feed = Feed(consumed: nat, out: Option<Packet>, partial: seq<Byte>)

  function OutOf(out: Option<Packet>): seq<Packet> {
    if out.Some? then [out.value] else []
  }

  function Fed(lens: Lengths, partial: seq<Byte>, data: seq<Byte>): Feed
    requires Partial(lens, partial)
  {
    var all := partial + data;
    if Partial(lens, all) then Feed(|data|, None, all)
    else
      FedIsPositive(lens, partial, data);
      var n := TotalLength(lens, all);
      SameHeader(lens, all[..n], all[n..]);
      assert all[..n] + all[n..] == all;
      Feed(n - |partial|, Some(Parsed(lens, all[..n])), [])
  }

  lemma FedIsPositive(lens: Lengths, partial: seq<Byte>, data: seq<Byte>)
    requires Partial(lens, partial) && !Partial(lens, partial + data)
    ensures |partial| < TotalLength(lens, partial + data)
  {
    if |partial| >= HEADER_SIZE {
      SameHeader(lens, partial, data);
    }
  }

  /** One call on input makes progress, ends between packets or inside one, and is a step of Split. */
  lemma FeedIsStep(lens: Lengths, partial: seq<Byte>, data: seq<Byte>)
    requires Partial(lens, partial)
    ensures var f := Fed(lens, partial, data);
            && f.consumed <= |data| && (data != [] ==> 0 < f.consumed)
            && Partial(lens, f.partial)
            && Splits(lens, partial + data[..f.consumed], OutOf(f.out), f.partial)
  {
    var all := partial + data;
    var f := Fed(lens, partial, data);
    if Partial(lens, all) {
      assert data[..|data|] == data;
    } else {
      FedIsPositive(lens, partial, data);
      var n := TotalLength(lens, all);
      SameHeader(lens, all[..n], all[n..]);
      assert all[..n] + all[n..] == all;
      assert partial + data[..f.consumed] == all[..n];
      SplitOfComplete(lens, all[..n]);
    }
  }

  // ---------- chunks ----------

  function Flatten(chunks: seq<seq<Byte>>): seq<Byte> {
    if chunks == [] then [] else Flatten(chunks[..|chunks| - 1]) + chunks[|chunks| - 1]
  }

  /** The packets and the reader state after a stream arrived in chunks, each driven to its end. */
  function Driven(lens: Lengths, partial: seq<Byte>, chunks: seq<seq<Byte>>): (seq<Packet>, seq<Byte>) {
    if chunks == [] then ([], partial)
    else
      var (ps, kept) := Driven(lens, partial, chunks[..|chunks| - 1]);
      var (more, rest) := Split(lens, kept + chunks[|chunks| - 1]);
      (ps + more, rest)
  }

  lemma {:induction false} DrivenSplits(lens: Lengths, partial: seq<Byte>, chunks: seq<seq<Byte>>)
    requires Partial(lens, partial)
    ensures Splits(lens, partial + Flatten(chunks), Driven(lens, partial, chunks).0, Driven(lens, partial, chunks).1)
  {
    if chunks == [] {
      assert partial + [] == partial;
    } else {
      var front, last := chunks[..|chunks| - 1], chunks[|chunks| - 1];
      var (ps, kept) := Driven(lens, partial, front);
      var (more, rest) := Split(lens, kept + last);
      DrivenSplits(lens, partial, front);
      SplitsFurther(lens, partial + Flatten(front), ps, kept, last, more, rest);
      Regrouped(partial, Flatten(front), last);
    }
  }

  /** However a stream is cut into chunks, the packets and the final state are those of one feed. */
  lemma ChunksDoNotMatter(lens: Lengths, partial: seq<Byte>, chunks: seq<seq<Byte>>)
    requires Partial(lens, partial)
    ensures Driven(lens, partial, chunks) == Split(lens, partial + Flatten(chunks))
  {
    DrivenSplits(lens, partial, chunks);
    assert Split(lens, partial + Flatten(chunks)) == (Driven(lens, partial, chunks).0, Driven(lens, partial, chunks).1);
  }

  /** A fresh reader driven over any cut of serialised well-formed packets returns exactly those packets
      and ends in its initial state. */
  lemma RoundTripInChunks(lens: Lengths, ps: seq<Packet>, chunks: seq<seq<Byte>>)
    requires forall p :: p in ps ==> WellFormed(lens, p)
    requires Flatten(chunks) == SerializedAll(ps)
    ensures Driven(lens, [], chunks) == (ps, [])
  {
    ChunksDoNotMatter(lens, [], chunks);
    assert [] + Flatten(chunks) == Flatten(chunks);
    RoundTrip(lens, ps);
  }
}
