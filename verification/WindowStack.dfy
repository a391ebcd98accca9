/**
 The z-order of one client's windows as a value, front first (proxy/client.c).
 Dispatcher.Client edits its list in place and is proved against these functions.
 */
module WindowStack {
  import opened Rects

  type Opacity = o: int | 0 <= o < 256

  /** request is geometry.rects, visible is visible_rects. */
  datatype Win = Win(id: int, onTop: bool, opacity: Opacity, request: seq<Rect>, visible: seq<Rect>)

  datatype Altitude = Lower | Raise | StaysOnTop

  predicate DistinctIds(stack: seq<Win>) {
    forall i, j :: 0 <= i < j < |stack| ==> stack[i].id != stack[j].id
  }

  predicate Has(stack: seq<Win>, id: int) {
    exists i :: 0 <= i < |stack| && stack[i].id == id
  }

  function IndexOf(stack: seq<Win>, id: int): (k: nat)
    ensures k <= |stack|
    ensures k < |stack| ==> stack[k].id == id
    ensures forall i :: 0 <= i < k ==> stack[i].id != id
    ensures Has(stack, id) <==> k < |stack|
  {
    if stack == [] then 0
    else if stack[0].id == id then 0
    else
      var k := IndexOf(stack[1..], id);
      assert forall i :: 0 < i < k + 1 ==> stack[i] == stack[1..][i - 1];
      assert Has(stack[1..], id) ==> Has(stack, id) by {
        if Has(stack[1..], id) {
          var i :| 0 <= i < |stack[1..]| && stack[1..][i].id == id;
          assert stack[i + 1].id == id;
        }
      }
      k + 1
  }

  /** Where the on-top zone ends: the first window that is not on_top. */
  function Boundary(stack: seq<Win>): (k: nat)
    ensures k <= |stack|
    ensures forall i :: 0 <= i < k ==> stack[i].onTop
    ensures k < |stack| ==> !stack[k].onTop
  {
    if stack == [] || !stack[0].onTop then 0 else 1 + Boundary(stack[1..])
  }

  function InsertAt(stack: seq<Win>, k: nat, w: Win): seq<Win>
    requires k <= |stack|
  {
    stack[..k] + [w] + stack[k..]
  }

  function Push(stack: seq<Win>, w: Win): seq<Win> {
    InsertAt(stack, Boundary(stack), w)
  }

  function Without(stack: seq<Win>, id: int): seq<Win> {
    var k := IndexOf(stack, id);
    if k < |stack| then stack[..k] + stack[k + 1..] else stack
  }

  function RaiseWindow(stack: seq<Win>, id: int): seq<Win>
    requires Has(stack, id)
  {
    var w := stack[IndexOf(stack, id)];
    if w.onTop then [w] + Without(stack, id) else Push(Without(stack, id), w)
  }

  function LowerWindow(stack: seq<Win>, id: int): seq<Win>
    requires Has(stack, id)
  {
    Without(stack, id) + [stack[IndexOf(stack, id)]]
  }

  function Update(stack: seq<Win>, id: int, w: Win): (s: seq<Win>)
    requires w.id == id
  {
    var k := IndexOf(stack, id);
    if k < |stack| then stack[k := w] else stack
  }

  /** What the altitude command does to the list. */
  function ChangeAltitude(stack: seq<Win>, id: int, altitude: Altitude, fixed: bool): seq<Win>
    requires Has(stack, id)
  {
    var w := stack[IndexOf(stack, id)];
    var marked := if fixed && altitude.StaysOnTop? then Update(stack, id, w.(onTop := true)) else stack;
    UpdateKeepsIds(stack, id, w.(onTop := true));
    if altitude.Lower? then LowerWindow(marked, id) else RaiseWindow(marked, id)
  }

  lemma UpdateKeepsIds(stack: seq<Win>, id: int, w: Win)
    requires w.id == id
    ensures |Update(stack, id, w)| == |stack|
    ensures forall i :: 0 <= i < |stack| ==> Update(stack, id, w)[i].id == stack[i].id
    ensures forall other :: Has(Update(stack, id, w), other) <==> Has(stack, other)
  {
    var s := Update(stack, id, w);
    forall other ensures Has(s, other) <==> Has(stack, other) {
      if Has(stack, other) {
        var i :| 0 <= i < |stack| && stack[i].id == other;
        assert s[i].id == other;
      }
      if Has(s, other) {
        var i :| 0 <= i < |s| && s[i].id == other;
        assert stack[i].id == other;
      }
    }
  }

  // ---------- restacking is a permutation that moves one window ----------

  lemma IndexOfInserted(stack: seq<Win>, k: nat, w: Win)
    requires k <= |stack| && !Has(stack, w.id)
    ensures IndexOf(InsertAt(stack, k, w), w.id) == k
    ensures Without(InsertAt(stack, k, w), w.id) == stack
  {
    var s := InsertAt(stack, k, w);
    assert s[k] == w;
    assert forall i :: 0 <= i < k ==> s[i] == stack[i];
    assert IndexOf(s, w.id) == k;
    assert s[..k] == stack[..k] && s[k + 1..] == stack[k..];
  }

  lemma WithoutIsClean(stack: seq<Win>, id: int)
    requires DistinctIds(stack)
    ensures !Has(Without(stack, id), id) && DistinctIds(Without(stack, id))
    ensures forall other :: other != id ==> (Has(Without(stack, id), other) <==> Has(stack, other))
  {
    var k := IndexOf(stack, id);
    var s := Without(stack, id);
    if k < |stack| {
      assert forall i :: 0 <= i < |s| ==> s[i] == stack[if i < k then i else i + 1];
      forall other | other != id ensures Has(s, other) <==> Has(stack, other) {
        if Has(stack, other) {
          var i :| 0 <= i < |stack| && stack[i].id == other;
          assert s[if i < k then i else i - 1].id == other;
        }
      }
    }
  }

  /** The window at each place of a list after an insertion. */
  function Origin(stack: seq<Win>, k: nat, w: Win, i: nat): Win
    requires k <= |stack| && i <= |stack|
  {
    if i < k then stack[i] else if i == k then w else stack[i - 1]
  }

  lemma InsertAtIs(stack: seq<Win>, k: nat, w: Win)
    requires k <= |stack|
    ensures |InsertAt(stack, k, w)| == |stack| + 1
    ensures forall i :: 0 <= i <= |stack| ==> InsertAt(stack, k, w)[i] == Origin(stack, k, w, i)
  {
  }

  lemma InsertKeeps(stack: seq<Win>, k: nat, w: Win)
    requires k <= |stack| && DistinctIds(stack) && !Has(stack, w.id)
    ensures DistinctIds(InsertAt(stack, k, w))
    ensures multiset(InsertAt(stack, k, w)) == multiset(stack) + multiset{w}
    ensures forall id :: Has(InsertAt(stack, k, w), id) <==> id == w.id || Has(stack, id)
  {
    InsertDistinct(stack, k, w);
    InsertHas(stack, k, w);
    assert stack == stack[..k] + stack[k..];
  }

  lemma InsertDistinct(stack: seq<Win>, k: nat, w: Win)
    requires k <= |stack| && DistinctIds(stack) && !Has(stack, w.id)
    ensures DistinctIds(InsertAt(stack, k, w))
  {
    InsertAtIs(stack, k, w);
    var s := InsertAt(stack, k, w);
    forall i, j | 0 <= i < j < |s| ensures s[i].id != s[j].id {
      assert s[i] == Origin(stack, k, w, i) && s[j] == Origin(stack, k, w, j);
    }
  }

  lemma InsertHas(stack: seq<Win>, k: nat, w: Win)
    requires k <= |stack|
    ensures forall id :: Has(InsertAt(stack, k, w), id) <==> id == w.id || Has(stack, id)
  {
    InsertAtIs(stack, k, w);
    var s := InsertAt(stack, k, w);
    forall id ensures Has(s, id) <==> id == w.id || Has(stack, id) {
      if Has(s, id) {
        var i :| 0 <= i < |s| && s[i].id == id;
        assert s[i] == Origin(stack, k, w, i);
      }
      if Has(stack, id) {
        var i :| 0 <= i < |stack| && stack[i].id == id;
        assert s[if i < k then i else i + 1] == stack[i];
      }
      if id == w.id {
        assert s[k] == w;
      }
    }
  }

  /** Where a restacked window lands, and in which list. */
  lemma RestackIsInsert(stack: seq<Win>, id: int, lower: bool) returns (k: nat)
    requires Has(stack, id) && DistinctIds(stack)
    ensures var rest := Without(stack, id);
            && k == (if lower then |rest| else if stack[IndexOf(stack, id)].onTop then 0 else Boundary(rest))
            && (if lower then LowerWindow(stack, id) else RaiseWindow(stack, id))
               == InsertAt(rest, k, stack[IndexOf(stack, id)])
  {
    var rest := Without(stack, id);
    var w := stack[IndexOf(stack, id)];
    k := if lower then |rest| else if w.onTop then 0 else Boundary(rest);
    assert rest[..0] + [w] + rest[0..] == [w] + rest;
    assert rest[..|rest|] + [w] + rest[|rest|..] == rest + [w];
  }

  function Restacked(stack: seq<Win>, id: int, lower: bool): seq<Win>
    requires Has(stack, id)
  {
    if lower then LowerWindow(stack, id) else RaiseWindow(stack, id)
  }

  /** Raise and Lower permute the stack and keep every other window in its order. */
  lemma RestackMovesOnlyIts(stack: seq<Win>, id: int, lower: bool)
    requires Has(stack, id) && DistinctIds(stack)
    ensures multiset(Restacked(stack, id, lower)) == multiset(stack)
    ensures Without(Restacked(stack, id, lower), id) == Without(stack, id)
  {
    var w := stack[IndexOf(stack, id)];
    var k := RestackIsInsert(stack, id, lower);
    WithoutIsClean(stack, id);
    IndexOfInserted(Without(stack, id), k, w);
    InsertKeeps(Without(stack, id), k, w);
    WithoutDropsOne(stack, id);
  }

  lemma WithoutDropsOne(stack: seq<Win>, id: int)
    requires Has(stack, id)
    ensures multiset(stack) == multiset(Without(stack, id)) + multiset{stack[IndexOf(stack, id)]}
  {
    var k := IndexOf(stack, id);
    DropAt(stack, k);
    assert Without(stack, id) == stack[..k] + stack[k + 1..];
  }

  lemma DropAt(stack: seq<Win>, i: nat)
    requires i < |stack|
    ensures multiset(stack) == multiset(stack[..i] + stack[i + 1..]) + multiset{stack[i]}
  {
    assert stack == stack[..i] + ([stack[i]] + stack[i + 1..]);
  }

  lemma RestackKeepsIds(stack: seq<Win>, id: int, lower: bool)
    requires Has(stack, id) && DistinctIds(stack)
    ensures DistinctIds(Restacked(stack, id, lower))
    ensures forall other :: Has(Restacked(stack, id, lower), other) <==> Has(stack, other)
  {
    var k := RestackIsInsert(stack, id, lower);
    WithoutIsClean(stack, id);
    InsertKeeps(Without(stack, id), k, stack[IndexOf(stack, id)]);
  }

  // ---------- zones ----------

  /** Every on-top window outside `lowered` lies in front of every normal window. */
  predicate ZonesExcept(stack: seq<Win>, lowered: set<int>) {
    forall i, j :: 0 <= i < j < |stack| && stack[j].onTop && stack[j].id !in lowered ==> stack[i].onTop
  }

  predicate Zones(stack: seq<Win>) {
    ZonesExcept(stack, {})
  }

  lemma InsertAtZones(stack: seq<Win>, k: nat, w: Win, lowered: set<int>)
    requires k <= |stack| && ZonesExcept(stack, lowered)
    requires k < Boundary(stack) ==> w.onTop
    requires Boundary(stack) < k ==> !w.onTop || w.id in lowered
    ensures ZonesExcept(InsertAt(stack, k, w), lowered)
  {
    var s := InsertAt(stack, k, w);
    InsertAtIs(stack, k, w);
    forall i, j | 0 <= i < j < |s| && s[j].onTop && s[j].id !in lowered ensures s[i].onTop {
      assert s[i] == Origin(stack, k, w, i) && s[j] == Origin(stack, k, w, j);
    }
  }

  lemma WithoutZones(stack: seq<Win>, id: int, lowered: set<int>)
    requires DistinctIds(stack) && ZonesExcept(stack, lowered)
    ensures ZonesExcept(Without(stack, id), lowered - {id}) && ZonesExcept(Without(stack, id), lowered + {id})
  {
    var k := IndexOf(stack, id);
    var s := Without(stack, id);
    if k < |stack| {
      assert forall i :: 0 <= i < |s| ==> s[i] == stack[if i < k then i else i + 1];
    }
    WithoutIsClean(stack, id);
    forall i | 0 <= i < |s| ensures s[i].id != id {
    }
  }

  /** The lowered windows after an altitude command. */
  function LoweredAfter(lowered: set<int>, id: int, altitude: Altitude): set<int> {
    if altitude.Lower? then lowered + {id} else lowered - {id}
  }

  lemma ChangeAltitudeZones(stack: seq<Win>, id: int, altitude: Altitude, fixed: bool, lowered: set<int>)
    requires Has(stack, id) && DistinctIds(stack) && ZonesExcept(stack, lowered)
    ensures ZonesExcept(ChangeAltitude(stack, id, altitude, fixed), LoweredAfter(lowered, id, altitude))
  {
    var w := stack[IndexOf(stack, id)];
    var w' := if fixed && altitude.StaysOnTop? then w.(onTop := true) else w;
    var marked := Update(stack, id, w');
    UpdateKeepsIds(stack, id, w');
    assert marked == if fixed && altitude.StaysOnTop? then Update(stack, id, w.(onTop := true)) else stack;
    assert IndexOf(marked, id) == IndexOf(stack, id);
    assert Without(marked, id) == Without(stack, id);
    WithoutZones(stack, id, lowered);
    var k := RestackIsInsert(marked, id, altitude.Lower?);
    InsertAtZones(Without(stack, id), k, w', LoweredAfter(lowered, id, altitude));
  }

  lemma PushZones(stack: seq<Win>, w: Win, lowered: set<int>)
    requires ZonesExcept(stack, lowered) && !w.onTop
    ensures ZonesExcept(Push(stack, w), lowered)
  {
    InsertAtZones(stack, Boundary(stack), w, lowered);
  }

  /** The comment in the source promises the plain zones. Lowering breaks them exactly when an
      on-top window is lowered while a normal window is on the stack. */
  lemma LowerKeepsZonesIff(stack: seq<Win>, id: int)
    requires Has(stack, id) && DistinctIds(stack) && Zones(stack)
    ensures Zones(LowerWindow(stack, id))
       <==> !stack[IndexOf(stack, id)].onTop || (forall i :: 0 <= i < |stack| ==> stack[i].onTop)
  {
    var none: set<int> := {};
    var w := stack[IndexOf(stack, id)];
    if !w.onTop || forall i :: 0 <= i < |stack| ==> stack[i].onTop {
      assert none - {id} == none;
      WithoutZones(stack, id, none);
      var at := RestackIsInsert(stack, id, true);
      WithoutFrom(stack, id);
      InsertAtZones(Without(stack, id), at, w, none);
    } else {
      NormalBeforeLowered(stack, id);
    }
  }

  lemma NormalBeforeLowered(stack: seq<Win>, id: int)
    requires Has(stack, id) && stack[IndexOf(stack, id)].onTop
    requires exists i :: 0 <= i < |stack| && !stack[i].onTop
    ensures !Zones(LowerWindow(stack, id))
  {
    var k := IndexOf(stack, id);
    var i :| 0 <= i < |stack| && !stack[i].onTop;
    var rest, j := stack[..k] + stack[k + 1..], if i < k then i else i - 1;
    assert rest[j] == stack[i] && (rest + [stack[k]])[j] == rest[j];
    NormalThenOnTop(rest + [stack[k]], j);
  }

  lemma NormalThenOnTop(stack: seq<Win>, i: nat)
    requires i < |stack| && !stack[i].onTop && stack[|stack| - 1].onTop
    ensures !Zones(stack)
  {
    var none: set<int> := {};
    assert stack[|stack| - 1].id !in none;
  }

  lemma WithoutFrom(stack: seq<Win>, id: int)
    ensures forall i :: 0 <= i < |Without(stack, id)| ==> Without(stack, id)[i] in stack
  {
  }
}
