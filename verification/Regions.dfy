/**
 The region walk over a window stack (proxy/client.c, qwswl_update_regions), as functions of the
 stack, and what it means as point sets. Dispatcher.Client computes these functions in place.
 */
module Regions {
  import opened Wrappers
  import opened Rects
  import opened Sequences
  import opened WindowStack

  datatype Screen = Screen(width: int, height: int)

  predicate ValidScreen(scr: Screen) {
    1 <= scr.width && 1 <= scr.height
  }

  /** What the walk sends to the client. */
  datatype Output = RegionEvent(id: int, rects: seq<Rect>)

  predicate OnScreen(scr: Screen, p: Point) {
    Covers(Rect(0, 0, scr.width - 1, scr.height - 1), p)
  }

  predicate Opaque(w: Win) { w.opacity == 255 }

  // ---------- the walk ----------

  /** Each requested rectangle minus the blocking list, one after another. */
  function SubtractEach(request: seq<Rect>, blocking: seq<Rect>): seq<Rect> {
    if request == [] then []
    else SubtractEach(request[..|request| - 1], blocking) + Subtract([request[|request| - 1]], blocking)
  }

  function Alloc(request: seq<Rect>, blocking: seq<Rect>, scr: Screen): seq<Rect> {
    Clipped(SubtractEach(request, blocking), scr.width - 1, scr.height - 1)
  }

  /** The blocking list when the walk reaches position k. */
  function Blocking(stack: seq<Win>, k: nat, scr: Screen): seq<Rect>
    requires k <= |stack|
    decreases k, 0
  {
    if k == 0 then []
    else Blocking(stack, k - 1, scr) + (if Opaque(stack[k - 1]) then AllocAt(stack, k - 1, scr) else [])
  }

  /** The new allocation of the window at position k. */
  function AllocAt(stack: seq<Win>, k: nat, scr: Screen): seq<Rect>
    requires k < |stack|
    decreases k, 1
  {
    Alloc(stack[k].request, Blocking(stack, k, scr), scr)
  }

  /** Every window's new allocation, in stack order. */
  function Allocs(stack: seq<Win>, scr: Screen): seq<seq<Rect>> {
    seq(|stack|, k requires 0 <= k < |stack| => AllocAt(stack, k, scr))
  }

  predicate Emits(w: Win, alloc: seq<Rect>, requester: Option<int>) {
    requester == Some(w.id) || alloc != w.visible
  }

  /** The events of the first k windows, front to back. */
  function Events(stack: seq<Win>, allocs: seq<seq<Rect>>, k: nat, requester: Option<int>): seq<Output>
    requires k <= |stack| == |allocs|
  {
    if k == 0 then []
    else Events(stack, allocs, k - 1, requester) +
         (if Emits(stack[k - 1], allocs[k - 1], requester) then [RegionEvent(stack[k - 1].id, allocs[k - 1])] else [])
  }

  function AllEvents(stack: seq<Win>, requester: Option<int>, scr: Screen): seq<Output> {
    Events(stack, Allocs(stack, scr), |stack|, requester)
  }

  /** The stack after the walk. */
  function Walked(stack: seq<Win>, scr: Screen): seq<Win> {
    seq(|stack|, k requires 0 <= k < |stack| => stack[k].(visible := AllocAt(stack, k, scr)))
  }

  // ---------- area ----------

  ghost predicate Hidden(stack: seq<Win>, k: nat, p: Point)
    requires k <= |stack|
  {
    exists j :: 0 <= j < k && Opaque(stack[j]) && InArea(stack[j].request, p)
  }

  /** The simple definition: requested, on screen, and in no opaque window's request above. */
  ghost predicate Shows(stack: seq<Win>, k: nat, scr: Screen, p: Point)
    requires k < |stack|
  {
    InArea(stack[k].request, p) && OnScreen(scr, p) && !Hidden(stack, k, p)
  }

  ghost predicate AreasExact(stack: seq<Win>, scr: Screen) {
    forall k, p :: 0 <= k < |stack| ==> (InArea(stack[k].visible, p) <==> Shows(stack, k, scr, p))
  }

  lemma {:induction false} SubtractEachArea(request: seq<Rect>, blocking: seq<Rect>, p: Point)
    ensures InArea(SubtractEach(request, blocking), p) <==> InArea(request, p) && !InArea(blocking, p)
  {
    if request != [] {
      var n := |request| - 1;
      assert request == request[..n] + [request[n]];
      AreaOfConcat(request[..n], [request[n]], p);
      AreaOfConcat(SubtractEach(request[..n], blocking), Subtract([request[n]], blocking), p);
      SubtractEachArea(request[..n], blocking, p);
      SubtractArea([request[n]], blocking, p);
    }
  }

  lemma AllocArea(request: seq<Rect>, blocking: seq<Rect>, scr: Screen, p: Point)
    requires ValidScreen(scr)
    ensures InArea(Alloc(request, blocking, scr), p) <==> InArea(request, p) && OnScreen(scr, p) && !InArea(blocking, p)
  {
    var left := SubtractEach(request, blocking);
    SubtractEachArea(request, blocking, p);
    ClippedOnScreen(left, scr, p);
  }

  lemma ClippedOnScreen(rs: seq<Rect>, scr: Screen, p: Point)
    requires ValidScreen(scr)
    ensures InArea(Clipped(rs, scr.width - 1, scr.height - 1), p) <==> InArea(rs, p) && OnScreen(scr, p)
  {
    ClippedArea(rs, scr.width - 1, scr.height - 1, p);
  }

  lemma HiddenStep(stack: seq<Win>, k: nat, p: Point)
    requires 0 < k <= |stack|
    ensures Hidden(stack, k, p)
       <==> Hidden(stack, k - 1, p) || (Opaque(stack[k - 1]) && InArea(stack[k - 1].request, p))
  {
  }

  /** Subtracting the already reduced visible rects loses nothing: on screen the blocking list
      covers exactly the requests of the opaque windows above. */
  lemma {:induction false} BlockingArea(stack: seq<Win>, k: nat, scr: Screen, p: Point)
    requires k <= |stack| && ValidScreen(scr)
    ensures InArea(Blocking(stack, k, scr), p) <==> OnScreen(scr, p) && Hidden(stack, k, p)
  {
    if k > 0 {
      BlockingArea(stack, k - 1, scr, p);
      AllocArea(stack[k - 1].request, Blocking(stack, k - 1, scr), scr, p);
      AreaOfConcat(Blocking(stack, k - 1, scr), if Opaque(stack[k - 1]) then AllocAt(stack, k - 1, scr) else [], p);
      HiddenStep(stack, k, p);
    }
  }

  /** A walk reads only ids, requests and opacities. */
  predicate SameShape(a: seq<Win>, b: seq<Win>, n: nat) {
    && n <= |a| && n <= |b|
    && forall i :: 0 <= i < n ==> a[i].request == b[i].request && a[i].opacity == b[i].opacity
  }

  lemma {:induction false} SameShapeSameAlloc(a: seq<Win>, b: seq<Win>, k: nat, scr: Screen)
    requires SameShape(a, b, k)
    ensures Blocking(a, k, scr) == Blocking(b, k, scr)
    ensures k < |a| && k < |b| && a[k].request == b[k].request ==> AllocAt(a, k, scr) == AllocAt(b, k, scr)
  {
    if k > 0 {
      SameShapeSameAlloc(a, b, k - 1, scr);
    }
  }

  /** After one walk over a stack of any length every visible area is the simple definition. */
  lemma WalkMakesAreasExact(stack: seq<Win>, scr: Screen)
    requires ValidScreen(scr)
    ensures AreasExact(Walked(stack, scr), scr)
  {
    var s := Walked(stack, scr);
    forall k, p | 0 <= k < |s| ensures InArea(s[k].visible, p) <==> Shows(s, k, scr, p) {
      BlockingArea(stack, k, scr, p);
      AllocArea(stack[k].request, Blocking(stack, k, scr), scr, p);
      assert forall j :: 0 <= j < |s| ==> s[j].request == stack[j].request && s[j].opacity == stack[j].opacity;
      assert Hidden(s, k, p) <==> Hidden(stack, k, p);
    }
  }

  /** With every window opaque the visible areas partition what is requested on screen. */
  lemma OpaqueAreasPartition(stack: seq<Win>, scr: Screen, p: Point)
    requires AreasExact(stack, scr)
    requires forall i :: 0 <= i < |stack| ==> Opaque(stack[i])
    ensures forall i, j :: 0 <= i < j < |stack| ==> !(InArea(stack[i].visible, p) && InArea(stack[j].visible, p))
    ensures (exists i :: 0 <= i < |stack| && InArea(stack[i].visible, p))
       <==> (OnScreen(scr, p) && exists i :: 0 <= i < |stack| && InArea(stack[i].request, p))
  {
    assert forall i :: 0 <= i < |stack| ==> (InArea(stack[i].visible, p) <==> Shows(stack, i, scr, p));
    if OnScreen(scr, p) && exists i :: 0 <= i < |stack| && InArea(stack[i].request, p) {
      var i :| 0 <= i < |stack| && InArea(stack[i].request, p);
      var top := Topmost(stack, i, p);
      assert Shows(stack, top, scr, p);
    }
  }

  lemma {:induction false} Topmost(stack: seq<Win>, i: nat, p: Point) returns (top: nat)
    requires i < |stack| && InArea(stack[i].request, p)
    ensures top < |stack| && InArea(stack[top].request, p) && !Hidden(stack, top, p)
    decreases i
  {
    if Hidden(stack, i, p) {
      var j :| 0 <= j < i && Opaque(stack[j]) && InArea(stack[j].request, p);
      top := Topmost(stack, j, p);
    } else {
      top := i;
    }
  }

  // ---------- events ----------

  function CountEvents(out: seq<Output>, id: int): nat {
    if out == [] then 0
    else CountEvents(out[..|out| - 1], id) + (if out[|out| - 1].id == id then 1 else 0)
  }

  lemma CountOfAppend(out: seq<Output>, o: Output, id: int)
    ensures CountEvents(out + [o], id) == CountEvents(out, id) + (if o.id == id then 1 else 0)
  {
    assert (out + [o])[..|out|] == out;
  }

  lemma {:induction false} EventsBefore(stack: seq<Win>, allocs: seq<seq<Rect>>, k: nat, requester: Option<int>,
                                        id: int)
    requires k <= |stack| == |allocs|
    requires forall i :: 0 <= i < k ==> stack[i].id != id
    ensures CountEvents(Events(stack, allocs, k, requester), id) == 0
  {
    if k > 0 {
      EventsBefore(stack, allocs, k - 1, requester, id);
      EventsStep(stack, allocs, k, requester, id);
    }
  }

  lemma EventsStep(stack: seq<Win>, allocs: seq<seq<Rect>>, k: nat, requester: Option<int>, id: int)
    requires 0 < k <= |stack| == |allocs|
    ensures CountEvents(Events(stack, allocs, k, requester), id) ==
            CountEvents(Events(stack, allocs, k - 1, requester), id) +
            (if Emits(stack[k - 1], allocs[k - 1], requester) && stack[k - 1].id == id then 1 else 0)
  {
    var before := Events(stack, allocs, k - 1, requester);
    assert before + [] == before;
    CountOfAppend(before, RegionEvent(stack[k - 1].id, allocs[k - 1]), id);
  }

  lemma {:induction false} EventsOfOne(stack: seq<Win>, allocs: seq<seq<Rect>>, k: nat, i: nat, requester: Option<int>)
    requires i < k <= |stack| == |allocs| && DistinctIds(stack)
    ensures CountEvents(Events(stack, allocs, k, requester), stack[i].id) ==
            if Emits(stack[i], allocs[i], requester) then 1 else 0
  {
    EventsStep(stack, allocs, k, requester, stack[i].id);
    if k == i + 1 {
      EventsBefore(stack, allocs, i, requester, stack[i].id);
    } else {
      EventsOfOne(stack, allocs, k - 1, i, requester);
    }
  }

  /** One event for the requester, one for each other window whose allocation changed, and none
      for anything else. */
  lemma EventsAreExact(stack: seq<Win>, requester: Option<int>, scr: Screen, id: int)
    requires DistinctIds(stack)
    ensures CountEvents(AllEvents(stack, requester, scr), id) ==
            if Has(stack, id) &&
              (requester == Some(id) || AllocAt(stack, IndexOf(stack, id), scr) != stack[IndexOf(stack, id)].visible)
            then 1 else 0
  {
    if Has(stack, id) {
      EventsOfOne(stack, Allocs(stack, scr), |stack|, IndexOf(stack, id), requester);
    } else {
      EventsBefore(stack, Allocs(stack, scr), |stack|, requester, id);
    }
  }

  lemma WalkedTwice(stack: seq<Win>, scr: Screen)
    ensures Walked(Walked(stack, scr), scr) == Walked(stack, scr)
    ensures forall k :: 0 <= k < |stack| ==> AllocAt(Walked(stack, scr), k, scr) == AllocAt(stack, k, scr)
  {
    var s := Walked(stack, scr);
    forall k | 0 <= k < |s| ensures AllocAt(s, k, scr) == AllocAt(stack, k, scr) {
      SameShapeSameAlloc(s, stack, k, scr);
    }
  }

  /** Every window already shows what a walk would give it. */
  ghost predicate UpToDate(stack: seq<Win>, scr: Screen) {
    forall k :: 0 <= k < |stack| ==> stack[k].visible == AllocAt(stack, k, scr)
  }

  lemma {:induction false} NoEventsWhenUnchanged(stack: seq<Win>, allocs: seq<seq<Rect>>, k: nat)
    requires k <= |stack| == |allocs|
    requires forall i :: 0 <= i < |stack| ==> stack[i].visible == allocs[i]
    ensures Events(stack, allocs, k, None) == []
  {
    if k > 0 {
      NoEventsWhenUnchanged(stack, allocs, k - 1);
    }
  }

  lemma SecondWalkIsSilent(stack: seq<Win>, scr: Screen)
    ensures UpToDate(Walked(stack, scr), scr)
    ensures AllEvents(Walked(stack, scr), None, scr) == []
  {
    WalkedTwice(stack, scr);
    var s := Walked(stack, scr);
    NoEventsWhenUnchanged(s, Allocs(s, scr), |stack|);
  }

  lemma UpToDateIsExact(stack: seq<Win>, scr: Screen)
    requires ValidScreen(scr) && UpToDate(stack, scr)
    ensures AreasExact(stack, scr)
  {
    assert Walked(stack, scr) == stack;
    WalkMakesAreasExact(stack, scr);
  }

  // ---------- opacity ----------

  ghost predicate HiddenBut(stack: seq<Win>, k: nat, i: nat, p: Point)
    requires k <= |stack|
  {
    exists j :: 0 <= j < k && j != i && Opaque(stack[j]) && InArea(stack[j].request, p)
  }

  /** Some point on screen is requested by window i and by a window below it, and no other opaque
      window above that one requests it. */
  ghost predicate DecidesSomePoint(stack: seq<Win>, i: nat, scr: Screen) {
    exists k, p :: i < k < |stack| && InArea(stack[k].request, p) && InArea(stack[i].request, p) &&
                   OnScreen(scr, p) && !HiddenBut(stack, k, i, p)
  }

  lemma HiddenSplits(stack: seq<Win>, k: nat, i: nat, p: Point)
    requires k <= |stack| && i < |stack|
    ensures Hidden(stack, k, p)
       <==> HiddenBut(stack, k, i, p) || (i < k && Opaque(stack[i]) && InArea(stack[i].request, p))
  {
  }

  /** Changing an opacity does not run the walk. The areas survive it exactly when the window stays
      on its side of 255 or decides no point of a window below. */
  lemma SetOpacityKeepsAreasIff(stack: seq<Win>, i: nat, o: Opacity, scr: Screen)
    requires i < |stack| && AreasExact(stack, scr)
    ensures AreasExact(stack[i := stack[i].(opacity := o)], scr)
       <==> Opaque(stack[i]) == (o == 255) || !DecidesSomePoint(stack, i, scr)
  {
    var s := stack[i := stack[i].(opacity := o)];
    forall k, p | 0 <= k < |stack|
      ensures Hidden(s, k, p) <==> HiddenBut(stack, k, i, p) || (i < k && o == 255 && InArea(stack[i].request, p))
      ensures Hidden(stack, k, p)
         <==> HiddenBut(stack, k, i, p) || (i < k && Opaque(stack[i]) && InArea(stack[i].request, p))
    {
      HiddenSplits(stack, k, i, p);
      HiddenSplits(s, k, i, p);
      assert forall j :: 0 <= j < |s| && j != i ==> s[j] == stack[j];
    }
    if Opaque(stack[i]) != (o == 255) && DecidesSomePoint(stack, i, scr) {
      var k, p :| i < k < |stack| && InArea(stack[k].request, p) && InArea(stack[i].request, p) &&
                  OnScreen(scr, p) && !HiddenBut(stack, k, i, p);
      assert Hidden(s, k, p) != Hidden(stack, k, p);
      assert Shows(s, k, scr, p) != Shows(stack, k, scr, p);
      assert s[k].visible == stack[k].visible;
      assert !AreasExact(s, scr);
    } else {
      forall k, p | 0 <= k < |s| ensures InArea(s[k].visible, p) <==> Shows(s, k, scr, p) {
        assert s[k].visible == stack[k].visible && s[k].request == stack[k].request;
      }
    }
  }

  // ---------- what the client heard last ----------

  /** The rect list of the last region event for an id, empty if there was none. */
  function LastHeard(out: seq<Output>, id: int): seq<Rect> {
    if out == [] then []
    else if out[|out| - 1].id == id then out[|out| - 1].rects
    else LastHeard(out[..|out| - 1], id)
  }

  /** What the client heard last about every window is what the server shows. */
  ghost predicate ClientInformed(stack: seq<Win>, out: seq<Output>) {
    forall k :: 0 <= k < |stack| ==> LastHeard(out, stack[k].id) == stack[k].visible
  }

  /** The same for every window but possibly one. */
  ghost predicate InformedBut(stack: seq<Win>, out: seq<Output>, except: Option<int>) {
    forall k :: 0 <= k < |stack| && except != Some(stack[k].id) ==> LastHeard(out, stack[k].id) == stack[k].visible
  }

  lemma LastHeardOfAppend(out: seq<Output>, o: Output, id: int)
    ensures LastHeard(out + [o], id) == if o.id == id then o.rects else LastHeard(out, id)
  {
    assert (out + [o])[..|out|] == out;
  }

  lemma LastHeardStep(stack: seq<Win>, allocs: seq<seq<Rect>>, k: nat, requester: Option<int>, out: seq<Output>,
                      id: int)
    requires 0 < k <= |stack| == |allocs|
    ensures LastHeard(out + Events(stack, allocs, k, requester), id) ==
            if Emits(stack[k - 1], allocs[k - 1], requester) && stack[k - 1].id == id then allocs[k - 1]
            else LastHeard(out + Events(stack, allocs, k - 1, requester), id)
  {
    var before := Events(stack, allocs, k - 1, requester);
    var e := RegionEvent(stack[k - 1].id, allocs[k - 1]);
    assert before + [] == before;
    assert out + (before + [e]) == (out + before) + [e];
    LastHeardOfAppend(out + before, e, id);
  }

  lemma {:induction false} LastHeardAfterEvents(stack: seq<Win>, allocs: seq<seq<Rect>>, k: nat, i: nat,
                                                requester: Option<int>, out: seq<Output>)
    requires k <= |stack| == |allocs| && i < |stack| && DistinctIds(stack)
    ensures LastHeard(out + Events(stack, allocs, k, requester), stack[i].id) ==
            if i < k && Emits(stack[i], allocs[i], requester) then allocs[i] else LastHeard(out, stack[i].id)
  {
    if k == 0 {
      assert out + [] == out;
    } else {
      LastHeardAfterEvents(stack, allocs, k - 1, i, requester, out);
      LastHeardStep(stack, allocs, k, requester, out, stack[i].id);
    }
  }

  /** A walk keeps the client informed, and informs it about a requesting window whatever it
      believed before: the forced event makes up for rects that were dropped silently. */
  lemma WalkInforms(stack: seq<Win>, requester: Option<int>, scr: Screen, out: seq<Output>)
    requires DistinctIds(stack)
    requires InformedBut(stack, out, requester)
    ensures ClientInformed(Walked(stack, scr), out + AllEvents(stack, requester, scr))
  {
    forall k | 0 <= k < |stack|
      ensures LastHeard(out + AllEvents(stack, requester, scr), stack[k].id) == AllocAt(stack, k, scr)
    {
      LastHeardAfterEvents(stack, Allocs(stack, scr), |stack|, k, requester, out);
    }
  }

  // ---------- on-top windows are not disturbed ----------

  /** Inserting a normal window behind the on-top zone, or moving one there, gives the on-top
      windows the allocation they already had: the next walk is silent for them. */
  lemma RestackingNormalWindowSparesOnTop(stack: seq<Win>, stack': seq<Win>, k: nat, requester: Option<int>,
                                          scr: Screen)
    requires UpToDate(stack, scr) && k < |stack| && k < |stack'|
    requires stack[..k + 1] == stack'[..k + 1]
    requires requester != Some(stack[k].id) && DistinctIds(stack')
    ensures AllocAt(stack', k, scr) == stack[k].visible
    ensures CountEvents(AllEvents(stack', requester, scr), stack[k].id) == 0
  {
    forall i | 0 <= i < k + 1 ensures stack[i] == stack'[i] {
      assert stack[i] == stack[..k + 1][i];
    }
    SameShapeSameAlloc(stack, stack', k, scr);
    EventsOfOne(stack', Allocs(stack', scr), |stack'|, k, requester);
  }

  lemma PushSparesOnTop(stack: seq<Win>, w: Win, k: nat, requester: Option<int>, scr: Screen)
    requires UpToDate(stack, scr) && DistinctIds(stack) && Zones(stack)
    requires !w.onTop && !Has(stack, w.id)
    requires k < |stack| && stack[k].onTop && requester != Some(stack[k].id)
    ensures k < Boundary(stack) && Push(stack, w)[k] == stack[k]
    ensures AllocAt(Push(stack, w), k, scr) == stack[k].visible
    ensures CountEvents(AllEvents(Push(stack, w), requester, scr), stack[k].id) == 0
  {
    OnTopBeforeBoundary(stack, k);
    InsertKeeps(stack, Boundary(stack), w);
    assert Push(stack, w)[..k + 1] == stack[..k + 1];
    RestackingNormalWindowSparesOnTop(stack, Push(stack, w), k, requester, scr);
  }

  lemma OnTopBeforeBoundary(stack: seq<Win>, k: nat)
    requires Zones(stack) && k < |stack| && stack[k].onTop
    ensures k < Boundary(stack)
  {
    var none: set<int> := {};
    assert stack[k].id !in none;
  }

  lemma RaiseSparesOnTop(stack: seq<Win>, id: int, k: nat, requester: Option<int>, scr: Screen)
    requires UpToDate(stack, scr) && DistinctIds(stack) && Zones(stack)
    requires Has(stack, id) && !stack[IndexOf(stack, id)].onTop
    requires k < |stack| && stack[k].onTop && requester != Some(stack[k].id)
    ensures k < |RaiseWindow(stack, id)| && RaiseWindow(stack, id)[k] == stack[k]
    ensures AllocAt(RaiseWindow(stack, id), k, scr) == stack[k].visible
    ensures CountEvents(AllEvents(RaiseWindow(stack, id), requester, scr), stack[k].id) == 0
  {
    RaiseKeepsOnTop(stack, id, k);
    RestackKeepsIds(stack, id, false);
    RestackingNormalWindowSparesOnTop(stack, RaiseWindow(stack, id), k, requester, scr);
  }

  lemma RaiseKeepsOnTop(stack: seq<Win>, id: int, k: nat)
    requires Zones(stack) && Has(stack, id) && !stack[IndexOf(stack, id)].onTop
    requires k < |stack| && stack[k].onTop
    ensures k < |RaiseWindow(stack, id)| && RaiseWindow(stack, id)[k] == stack[k]
    ensures stack[..k + 1] == RaiseWindow(stack, id)[..k + 1]
  {
    OnTopBeforeBoundary(stack, k);
    RaiseKeepsOnTopPrefix(stack, id);
    SameShorterPrefix(stack, RaiseWindow(stack, id), Boundary(stack), k + 1);
    assert stack[k] == stack[..k + 1][k] && RaiseWindow(stack, id)[k] == RaiseWindow(stack, id)[..k + 1][k];
  }

  lemma RaiseKeepsOnTopPrefix(stack: seq<Win>, id: int)
    requires Has(stack, id) && !stack[IndexOf(stack, id)].onTop
    ensures Boundary(stack) < |RaiseWindow(stack, id)|
    ensures RaiseWindow(stack, id)[..Boundary(stack)] == stack[..Boundary(stack)]
  {
    var rest, k, b := Without(stack, id), IndexOf(stack, id), Boundary(stack);
    assert RaiseWindow(stack, id) == InsertAt(rest, Boundary(rest), stack[k]);
    DroppedBehind(stack, k, b);
    PrefixBoundary(stack, rest, b);
    InsertedBehind(rest, Boundary(rest), stack[k], b);
  }

  lemma DroppedBehind(stack: seq<Win>, k: nat, b: nat)
    requires b <= k < |stack|
    ensures (stack[..k] + stack[k + 1..])[..b] == stack[..b]
  {
  }

  lemma InsertedBehind(rest: seq<Win>, at: nat, w: Win, b: nat)
    requires b <= at <= |rest|
    ensures InsertAt(rest, at, w)[..b] == rest[..b]
  {
  }

  lemma PrefixBoundary(stack: seq<Win>, rest: seq<Win>, b: nat)
    requires b <= |stack| && b <= |rest| && stack[..b] == rest[..b]
    requires forall i :: 0 <= i < b ==> stack[i].onTop
    ensures b <= Boundary(rest)
  {
    forall i | 0 <= i < b ensures rest[i].onTop {
      assert rest[i] == rest[..b][i] == stack[..b][i];
    }
  }
}
