/**
 How a list of packet names becomes the drop mask (qws_trace_parse_filter_mask in libqwsproto/qws_trace.c),
 proved against what the mask then drops. The list comes split at its commas, and the names of the types
 are a parameter.
 */
module DropMask {
  import opened Codec
  import opened Streams

  /** qws_command_type_name and qws_event_type_name. */
  type Names = (Direction, int) -> string

  function Lower(c: char): char {
    if 'A' <= c <= 'Z' then c - 'A' + 'a' else c
  }

  /** strcasecmp. */
  predicate SameName(a: string, b: string) {
    |a| == |b| && forall i :: 0 <= i < |a| ==> Lower(a[i]) == Lower(b[i])
  }

  /** What an element of the list names: a type of the direction its prefix gives, or of either one. */
  predicate Denotes(tok: string, names: Names, dir: Direction, ty: int) {
    && 0 <= ty < 32
    && if "cmd:" <= tok then dir == Commands && SameName(names(Commands, ty), tok[4..])
       else if "evt:" <= tok then dir == Events && SameName(names(Events, ty), tok[4..])
       else SameName(names(dir, ty), tok)
  }

  // ---------- one bit ----------

  lemma OneMoreBit(mask: bv64, a: bv6, b: bv6)
    ensures ((mask | (1 << a)) >> b) & 1 == 1 <==> (mask >> b) & 1 == 1 || a == b
  {
  }

  lemma SamePlace(a: nat, b: nat)
    requires a < 64 && b < 64
    ensures a as bv6 == b as bv6 <==> a == b
  {
    PlaceFits(a);
    PlaceFits(b);
  }

  lemma BitAdded(mask: bv64, added: nat, place: nat)
    requires added < 64 && place < 64
    ensures BitSet(mask | (1 << added as bv6), place) <==> BitSet(mask, place) || place == added
  {
    SamePlace(added, place);
    OneMoreBit(mask, added as bv6, place as bv6);
    PlaceFits(place);
    BitSetIsShift(mask, place as bv6, place);
    BitSetIsShift(mask | (1 << added as bv6), place as bv6, place);
  }

  lemma AddedAt(mask: bv64, added: nat, dir: Direction, ty: int)
    requires added < 64
    ensures Dropped(mask | (1 << added as bv6), dir, ty) <==>
            Dropped(mask, dir, ty) || (0 <= ty < 32 && added == if dir == Commands then ty else ty + 32)
  {
    if 0 <= ty < 32 {
      BitAdded(mask, added, if dir == Commands then ty else ty + 32);
    }
  }

  /** One bit or-ed in: place i is the command of type i, place i + 32 the event of type i. */
  method SetBit(bits: bv64, place: nat) returns (mask: bv64)
    requires place < 64
    ensures forall dir, ty :: Dropped(mask, dir, ty) <==>
              Dropped(bits, dir, ty) || (0 <= ty < 32 && place == if dir == Commands then ty else ty + 32)
  {
    mask := bits | (1 << place as bv6);
    forall dir, ty ensures Dropped(mask, dir, ty) <==>
        Dropped(bits, dir, ty) || (0 <= ty < 32 && place == if dir == Commands then ty else ty + 32)
    {
      AddedAt(bits, place, dir, ty);
    }
  }

  // ---------- the list ----------

  ghost predicate Known(tok: string, names: Names) {
    exists dir, ty :: Denotes(tok, names, dir, ty)
  }

  /** The bits of one type, as a command, as an event, as both or as neither. */
  method AddType(i: nat, isCommand: bool, isEvent: bool, bits: bv64) returns (mask: bv64)
    requires i < 32
    ensures forall dir, ty :: Dropped(mask, dir, ty) <==>
              Dropped(bits, dir, ty) || (ty == i && if dir == Commands then isCommand else isEvent)
  {
    mask := bits;
    if isCommand {
      mask := SetBit(mask, i);
    }
    if isEvent {
      mask := SetBit(mask, i + 32);
    }
  }

  /** One element: the bits of the types it names are added, and it is unknown when it names none. */
  method AddToken(tok: string, names: Names, bits: bv64) returns (mask: bv64, matched: bool)
    ensures matched <==> Known(tok, names)
    ensures forall dir, ty :: Dropped(mask, dir, ty) <==> Dropped(bits, dir, ty) || Denotes(tok, names, dir, ty)
  {
    var checkCommands, checkEvents, name := true, true, tok;
    if "cmd:" <= tok {
      name, checkEvents := tok[4..], false;
    } else if "evt:" <= tok {
      name, checkCommands := tok[4..], false;
    }
    mask, matched := bits, false;
    for i := 0 to 32
      invariant matched <==> exists dir, ty :: ty < i && Denotes(tok, names, dir, ty)
      invariant forall dir, ty ::
                  Dropped(mask, dir, ty) <==> Dropped(bits, dir, ty) || (ty < i && Denotes(tok, names, dir, ty))
    {
      var isCommand := checkCommands && SameName(names(Commands, i), name);
      var isEvent := checkEvents && SameName(names(Events, i), name);
      assert isCommand <==> Denotes(tok, names, Commands, i);
      assert isEvent <==> Denotes(tok, names, Events, i);
      mask := AddType(i, isCommand, isEvent, mask);
      matched := matched || isCommand || isEvent;
    }
  }

  /** The whole list: it is refused exactly when an element names no type, and otherwise its bits are added to
      those there were. From an empty mask, then, the mask drops a packet type of a direction exactly when some
      element names it. */
  method ParseFilterMask(tokens: seq<string>, names: Names, bits: bv64) returns (ok: bool, mask: bv64)
    ensures ok <==> forall k :: 0 <= k < |tokens| ==> Known(tokens[k], names)
    ensures ok ==> forall dir, ty ::
              Dropped(mask, dir, ty) <==>
                Dropped(bits, dir, ty) || exists k :: 0 <= k < |tokens| && Denotes(tokens[k], names, dir, ty)
    ensures ok && bits == 0 ==> forall dir, ty ::
              Dropped(mask, dir, ty) <==> exists k :: 0 <= k < |tokens| && Denotes(tokens[k], names, dir, ty)
  {
    ok, mask := true, bits;
    var n := 0;
    while n < |tokens| && ok
      invariant 0 <= n <= |tokens|
      invariant forall k :: 0 <= k < n ==> Known(tokens[k], names)
      invariant !ok ==> n < |tokens| && !Known(tokens[n], names)
      invariant forall dir, ty ::
                  Dropped(mask, dir, ty) <==>
                    Dropped(bits, dir, ty) || exists k :: 0 <= k < n && Denotes(tokens[k], names, dir, ty)
      decreases |tokens| - n, ok
    {
      mask, ok := AddToken(tokens[n], names, mask);
      if ok {
        n := n + 1;
      }
    }
    forall dir, ty ensures !Dropped(0, dir, ty) {
      NoBits(dir, ty);
    }
  }

  lemma NoBits(dir: Direction, ty: int)
    ensures !Dropped(0, dir, ty)
  {
    HalvesAreApart(0, ty);
  }

  /** `evt:Mouse` alone: the mask is 0x4_0000_0000 and drops Mouse events and nothing else. */
  lemma MouseEventsOnly(dir: Direction, ty: int)
    ensures Dropped(0x4_0000_0000, dir, ty) <==> dir == Events && ty == 2
  {
    NoBits(dir, ty);
    AddedAt(0, 34, dir, ty);
    assert 0 | (1 << 34 as bv6) == 0x4_0000_0000 as bv64;
  }
}
