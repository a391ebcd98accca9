/**
 The window server's objects for one client and the command dispatcher that edits them in place
 (proxy/client.c, proxy/window.c, proxy/proxy.c). Every method is proved against the value model
 in Session.dfy, so what is proved there of every run holds of these objects.
 */
module Dispatcher {
  import opened Blit
  import opened QwsLock
  import opened Rects
  import opened Regions
  import opened Session
  import opened WindowStack
  import opened Wrappers

  class Window {
    const id: int
    var onTop: bool
    var opacity: Opacity
    var x: int
    var y: int
    var width: int
    var height: int
    var request: seq<Rect>
    var visible: seq<Rect>

    constructor (id: int)
      ensures this.id == id && Value() == NewWindow(id)
    {
      this.id := id;
      onTop, opacity := false, 255;
      x, y, width, height := 0, 0, 0, 0;
      request, visible := [], [];
    }

    ghost function Value(): Win
      reads this
    {
      Win(id, onTop, opacity, request, visible)
    }

    /** The geometry fields are the bounding box of the request, corners counted in. */
    ghost predicate Framed()
      reads this
    {
      IsBoundingBox(Rect(x, y, x + width - 1, y + height - 1), request)
    }

    /** What a framed window copies of its own request: all of it. */
    lemma FramedIsCopiedWhole(r: Rect)
      requires Framed() && r in request && Normalised(r)
      ensures CopyBox(r, x, y, width, height) == BoxOf(TranslateRect(r, -x, -y))
    {
      OwnRequestIsWhole(request, Rect(x, y, x + width - 1, y + height - 1), r);
    }

    method UpdateGeometry(rects: seq<Rect>)
      requires rects != []
      modifies this
      ensures Value() == old(Value()).(request := rects) && Framed()
    {
      var box := BoundingBox(rects);
      x := box.x1;
      y := box.y1;
      width := box.x2 - box.x1 + 1;
      height := box.y2 - box.y1 + 1;
      request := rects;
    }

    /** Translate the requested rects; without a region there is nothing to move. */
    method MoveBy(dx: int, dy: int) returns (moved: bool)
      modifies this
      ensures moved <==> old(request) != []
      ensures moved ==> Value() == old(Value()).(request := Translated(old(request), dx, dy)) && Framed()
      ensures !moved ==> Value() == old(Value())
    {
      if request == [] {
        return false;
      }
      var rects := new Rect[|request|](i requires 0 <= i < |request| reads this => request[i]);
      assert rects[..] == request;
      Translate(rects, dx, dy);
      UpdateGeometry(rects[..]);
      return true;
    }

    method Hide()
      modifies this
      ensures Value() == old(Value()).(request := [], visible := [])
    {
      x, y := 0, 0;
      height, width := -1, -1;
      request := [];
      visible := [];
    }
  }

  // ---------- lists of window objects ----------

  predicate Distinct(ws: seq<Window>) {
    forall i, j :: 0 <= i < j < |ws| ==> ws[i] != ws[j]
  }

  function Inserted(ws: seq<Window>, k: nat, w: Window): seq<Window>
    requires k <= |ws|
  {
    ws[..k] + [w] + ws[k..]
  }

  function Erased(ws: seq<Window>, k: nat): seq<Window>
    requires k < |ws|
  {
    ws[..k] + ws[k + 1..]
  }

  lemma InsertedMembers(ws: seq<Window>, k: nat, w: Window)
    requires k <= |ws| && Distinct(ws) && w !in ws
    ensures Distinct(Inserted(ws, k, w))
    ensures forall v :: v in Inserted(ws, k, w) <==> v == w || v in ws
  {
    var s := Inserted(ws, k, w);
    assert forall i :: 0 <= i < |s| ==> s[i] == if i < k then ws[i] else if i == k then w else ws[i - 1];
    assert ws == ws[..k] + ws[k..];
  }

  lemma ErasedMembers(ws: seq<Window>, k: nat)
    requires k < |ws| && Distinct(ws)
    ensures Distinct(Erased(ws, k)) && ws[k] !in Erased(ws, k)
    ensures forall v :: v in Erased(ws, k) <==> v in ws && v != ws[k]
  {
    var s := Erased(ws, k);
    assert forall i :: 0 <= i < |s| ==> s[i] == ws[if i < k then i else i + 1];
    forall v | v in ws && v != ws[k] ensures v in s {
      var i :| 0 <= i < |ws| && ws[i] == v;
      assert s[if i < k then i else i - 1] == v;
    }
  }

  /** vs are the values of the objects ws, in order. */
  ghost predicate Mirrors(vs: seq<Win>, ws: seq<Window>)
    reads ws
  {
    |vs| == |ws| && forall i :: 0 <= i < |ws| ==> vs[i] == ws[i].Value()
  }

  /** Map and list hold the same windows, each once and under its own id. */
  ghost predicate CoherentWith(m: map<int, Window>, ws: seq<Window>) {
    && Distinct(ws)
    && (forall w :: w in ws ==> w.id in m && m[w.id] == w)
    && (forall id :: id in m ==> m[id].id == id && m[id] in ws)
  }

  lemma CoherentIndex(m: map<int, Window>, ws: seq<Window>, vs: seq<Win>, i: nat)
    requires CoherentWith(m, ws) && Mirrors(vs, ws) && i < |ws|
    ensures Has(vs, ws[i].id) && IndexOf(vs, ws[i].id) == i
  {
    assert vs[i].id == ws[i].id;
    forall j | 0 <= j < i ensures vs[j].id != ws[i].id {
      assert ws[j] in ws && ws[i] in ws;
    }
  }

  lemma CoherentIds(m: map<int, Window>, ws: seq<Window>, vs: seq<Win>)
    requires CoherentWith(m, ws) && Mirrors(vs, ws)
    ensures DistinctIds(vs)
    ensures forall id :: Has(vs, id) <==> id in m
  {
    forall j, k | 0 <= j < k < |vs| ensures vs[j].id != vs[k].id {
      assert ws[j] in ws && ws[k] in ws;
    }
    forall id ensures Has(vs, id) <==> id in m {
      if Has(vs, id) {
        var i :| 0 <= i < |vs| && vs[i].id == id;
        assert ws[i] in ws;
      }
      if id in m {
        var i :| 0 <= i < |ws| && ws[i] == m[id];
        assert vs[i].id == id;
      }
    }
  }

  lemma MovedMembers(m: map<int, Window>, ws: seq<Window>, at: nat, k: nat)
    requires CoherentWith(m, ws) && at < |ws| && k < |ws|
    ensures CoherentWith(m, Inserted(Erased(ws, at), k, ws[at]))
    ensures forall w :: w in Inserted(Erased(ws, at), k, ws[at]) <==> w in ws
  {
    ErasedMembers(ws, at);
    InsertedMembers(Erased(ws, at), k, ws[at]);
  }

  lemma AllocatedMembers(m: map<int, Window>, ws: seq<Window>, k: nat, w: Window)
    requires CoherentWith(m, ws) && k <= |ws| && w.id !in m
    ensures CoherentWith(m[w.id := w], Inserted(ws, k, w))
    ensures forall v :: v in Inserted(ws, k, w) <==> v == w || v in ws
  {
    InsertedMembers(ws, k, w);
  }

  lemma BoundaryIs(s: seq<Win>, i: nat)
    requires i <= |s|
    requires forall k :: 0 <= k < i ==> s[k].onTop
    requires i < |s| ==> !s[i].onTop
    ensures Boundary(s) == i
  {
  }

  lemma SubtractEachGrows(request: seq<Rect>, i: nat, blocking: seq<Rect>)
    requires i < |request|
    ensures SubtractEach(request[..i + 1], blocking) ==
            SubtractEach(request[..i], blocking) + Subtract([request[i]], blocking)
  {
    assert request[..i + 1][..i] == request[..i];
  }

  /** The loop over a window's rects: each minus the blocking list. */
  method SubtractBlocking(request: seq<Rect>, blocking: seq<Rect>) returns (left: seq<Rect>)
    ensures left == SubtractEach(request, blocking)
  {
    left := [];
    for i := 0 to |request|
      invariant left == SubtractEach(request[..i], blocking)
    {
      var sub := Subtract([request[i]], blocking);
      SubtractEachGrows(request, i, blocking);
      if |sub| > 0 {
        left := left + sub;
      }
    }
    assert request[..|request|] == request;
  }

  method ClipToScreen(left: seq<Rect>, scr: Screen) returns (clipped: seq<Rect>)
    requires ValidScreen(scr)
    ensures clipped == Clipped(left, scr.width - 1, scr.height - 1)
  {
    var buffer := new Rect[|left|](i requires 0 <= i < |left| => left[i]);
    assert buffer[..] == left;
    Clip(buffer, scr.width - 1, scr.height - 1);
    clipped := buffer[..];
  }

  /** What one window is left with: its rects minus the blocking list, clipped to the screen. */
  method Allocate(request: seq<Rect>, blocking: seq<Rect>, scr: Screen) returns (alloc: seq<Rect>)
    requires ValidScreen(scr)
    ensures alloc == Alloc(request, blocking, scr)
  {
    var left := SubtractBlocking(request, blocking);
    alloc := ClipToScreen(left, scr);
  }

  function IdOf(win: Window?): Option<int> {
    if win == null then None else Some(win.id)
  }

  class Client {
    var windowMap: map<int, Window>
    var windowStack: seq<Window>
    var output: seq<Output>
    const lock: Lock
    /** The values of the windows on the stack. */
    ghost var values: seq<Win>

    ghost predicate Coherent()
      reads this, windowStack
    {
      CoherentWith(windowMap, windowStack) && Mirrors(values, windowStack)
    }

    ghost predicate Valid()
      reads this, windowStack, lock, lock.lockCount
    {
      Coherent() && lock.Valid()
    }

    ghost function Snapshot(): State
      reads this, lock
    {
      State(values, output, lock.value)
    }

    constructor (lock: Lock)
      requires lock.Valid() && lock.value == Handle([0, 0, 0], [])
      ensures this.lock == lock && Valid() && Snapshot() == Start
    {
      this.lock := lock;
      windowMap, windowStack, output, values := map[], [], [], [];
    }

    // ---------- the stack ----------

    method PushFront(win: Window)
      requires Mirrors(values, windowStack)
      modifies this`windowStack, this`values
      ensures Mirrors(values, windowStack)
      ensures windowStack == Inserted(old(windowStack), 0, win)
      ensures values == [win.Value()] + old(values)
    {
      windowStack := [win] + windowStack;
      values := [win.Value()] + values;
      assert windowStack == Inserted(old(windowStack), 0, win);
    }

    method PushBack(win: Window)
      requires Mirrors(values, windowStack)
      modifies this`windowStack, this`values
      ensures Mirrors(values, windowStack)
      ensures windowStack == Inserted(old(windowStack), |old(windowStack)|, win)
      ensures values == old(values) + [win.Value()]
    {
      windowStack := windowStack + [win];
      values := values + [win.Value()];
      assert windowStack == Inserted(old(windowStack), |old(windowStack)|, win);
    }

    /** Insert before the first window that is not on_top. */
    method PushWindow(win: Window)
      requires Mirrors(values, windowStack)
      modifies this`windowStack, this`values
      ensures Mirrors(values, windowStack)
      ensures windowStack == Inserted(old(windowStack), Boundary(old(values)), win)
      ensures values == Push(old(values), win.Value())
    {
      var i := 0;
      while i < |windowStack|
        invariant 0 <= i <= |windowStack| && windowStack == old(windowStack) && values == old(values)
        invariant forall k :: 0 <= k < i ==> windowStack[k].onTop
      {
        if !windowStack[i].onTop {
          BoundaryIs(values, i);
          windowStack := windowStack[..i] + [win] + windowStack[i..];
          values := values[..i] + [win.Value()] + values[i..];
          return;
        }
        i := i + 1;
      }
      BoundaryIs(values, i);
      PushBack(win);
      assert values == InsertAt(old(values), i, win.Value());
    }

    /** Take a window out of the list, wherever it is. */
    method EraseFromStack(win: Window) returns (ghost at: nat)
      requires Coherent() && win in windowStack
      modifies this`windowStack, this`values
      ensures Mirrors(values, windowStack)
      ensures at < |old(windowStack)| && old(windowStack)[at] == win
      ensures windowStack == Erased(old(windowStack), at)
      ensures Has(old(values), win.id) && IndexOf(old(values), win.id) == at
      ensures values == Without(old(values), win.id)
    {
      var i := 0;
      while windowStack[i] != win
        invariant 0 <= i < |windowStack| && windowStack == old(windowStack) && values == old(values)
        invariant win !in windowStack[..i]
        decreases |windowStack| - i
      {
        i := i + 1;
      }
      at := i;
      CoherentIndex(windowMap, windowStack, values, i);
      windowStack := windowStack[..i] + windowStack[i + 1..];
      values := values[..i] + values[i + 1..];
    }

    method FindOrAllocateWindow(id: int) returns (win: Window)
      requires Valid() && id > 0
      modifies this`windowMap, this`windowStack, this`values
      ensures Valid() && win in windowStack && win.id == id
      ensures Snapshot() == Found(old(Snapshot()), id)
      ensures forall w :: w in windowStack ==> w in old(windowStack) || fresh(w)
    {
      CoherentIds(windowMap, windowStack, values);
      if id in windowMap {
        return windowMap[id];
      }
      win := new Window(id);
      AllocatedMembers(windowMap, windowStack, Boundary(values), win);
      windowMap := windowMap[id := win];
      PushWindow(win);
    }

    method RemoveWindow(id: int)
      requires Coherent()
      modifies this`windowMap, this`windowStack, this`values
      ensures Coherent() && id !in windowMap
      ensures values == Without(old(values), id)
      ensures forall w :: w in windowStack ==> w in old(windowStack)
    {
      CoherentIds(windowMap, windowStack, values);
      if id !in windowMap {
        return;
      }
      var win := windowMap[id];
      var at := EraseFromStack(win);
      ErasedMembers(old(windowStack), at);
      windowMap := windowMap - {id};
    }

    method RaiseInStack(win: Window)
      requires Coherent() && win in windowStack
      modifies this`windowStack, this`values
      ensures Coherent() && (forall w :: w in windowStack <==> w in old(windowStack))
      ensures Has(old(values), win.id) && values == RaiseWindow(old(values), win.id)
    {
      var at := EraseFromStack(win);
      MovedMembers(windowMap, old(windowStack), at, if win.onTop then 0 else Boundary(values));
      if win.onTop {
        PushFront(win);
        return;
      }
      PushWindow(win);
    }

    method LowerInStack(win: Window)
      requires Coherent() && win in windowStack
      modifies this`windowStack, this`values
      ensures Coherent() && (forall w :: w in windowStack <==> w in old(windowStack))
      ensures Has(old(values), win.id) && values == LowerWindow(old(values), win.id)
    {
      var at := EraseFromStack(win);
      MovedMembers(windowMap, old(windowStack), at, |windowStack|);
      PushBack(win);
    }

    // ---------- the region walk ----------

    method SendRegionEvent(win: Window, rects: seq<Rect>)
      requires lock.Valid()
      modifies this`output, lock, lock.lockCount
      ensures lock.Valid()
      ensures output == old(output) + [RegionEvent(win.id, rects)]
      ensures lock.value == Unlocked(old(lock.value), REGIONEVENT)
    {
      output := output + [RegionEvent(win.id, rects)];
      var _ := lock.Release(REGIONEVENT);
    }

    /** One round of the walk, for the window at position i. */
    method VisitWindow(i: nat, blocking: seq<Rect>, requester: Window?, scr: Screen) returns (blocking': seq<Rect>)
      requires Valid() && ValidScreen(scr) && i < |windowStack|
      requires requester == null || requester in windowStack
      modifies this`output, this`values, windowStack[i], lock, lock.lockCount
      ensures Valid()
      ensures Snapshot() == Visited(old(Snapshot()), i, blocking, IdOf(requester), scr)
      ensures blocking' == Blocked(old(Snapshot()), i, blocking, scr)
    {
      var win := windowStack[i];
      assert IdOf(requester) == Some(win.id) <==> win == requester;
      var alloc := Allocate(win.request, blocking, scr);
      var force := win == requester;
      var changed := |alloc| != |win.visible| || (|alloc| > 0 && alloc != win.visible);
      if force || changed {
        win.visible := alloc;
        values := values[i := win.Value()];
        SendRegionEvent(win, alloc);
      }
      blocking' := blocking;
      if win.opacity == 255 && |alloc| > 0 {
        blocking' := blocking + win.visible;
      }
    }

    /** The same round, as a move of the walk from one position to the next. */
    method VisitNext(i: nat, blocking: seq<Rect>, requester: Window?, scr: Screen, ghost start: State)
        returns (blocking': seq<Rect>)
      requires Valid() && ValidScreen(scr) && i < |windowStack| == |start.stack|
      requires requester == null || requester in windowStack
      requires Stands(Snapshot(), blocking, start, i, IdOf(requester), scr)
      modifies this`output, this`values, windowStack[i], lock, lock.lockCount
      ensures Valid() && Stands(Snapshot(), blocking', start, i + 1, IdOf(requester), scr)
    {
      WalkMovesOn(Snapshot(), blocking, start, i, IdOf(requester), scr);
      blocking' := VisitWindow(i, blocking, requester, scr);
    }

    /** Is the requester among the first n windows? */
    ghost predicate Reached(ws: seq<Window>, n: nat, requester: Window?)
      requires n <= |ws|
    {
      exists k :: 0 <= k < n && ws[k] == requester
    }

    /** The loop over the whole stack; the flag is set once it has passed the requester. */
    method VisitAll(requester: Window?, scr: Screen, sentBefore: bool)
        returns (eventForRequesterSent: bool, ghost blocked: seq<Rect>)
      requires Valid() && ValidScreen(scr)
      requires requester == null || requester in windowStack
      modifies this`output, this`values, windowStack, lock, lock.lockCount
      ensures Valid() && windowStack == old(windowStack)
      ensures Stands(Snapshot(), blocked, old(Snapshot()), |windowStack|, IdOf(requester), scr)
      ensures Reached(windowStack, |windowStack|, requester) ==> eventForRequesterSent
    {
      var blocking: seq<Rect> := [];
      eventForRequesterSent := sentBefore;
      ghost var first, windows := Snapshot(), windowStack;
      WalkStarts(first, IdOf(requester), scr);
      var i := 0;
      while i < |windowStack|
        invariant 0 <= i <= |windowStack| == |first.stack| && Mirrors(values, windowStack) && lock.Valid()
        invariant Stands(Snapshot(), blocking, first, i, IdOf(requester), scr)
        invariant windowStack == windows && (Reached(windows, i, requester) ==> eventForRequesterSent)
      {
        if windowStack[i] == requester {
          eventForRequesterSent := true;
        }
        blocking := VisitNext(i, blocking, requester, scr, first);
        i := i + 1;
      }
      blocked := blocking;
    }

    method UpdateRegions(requester: Window?, scr: Screen)
      requires Valid() && ValidScreen(scr)
      requires requester == null || requester in windowStack
      modifies this`output, this`values, windowStack, lock, lock.lockCount
      ensures Valid() && windowStack == old(windowStack)
      ensures Snapshot() == Walk(old(Snapshot()), IdOf(requester), scr)
    {
      // Never initialised in the source: any value will do.
      var eventForRequesterSent: bool := *;
      ghost var blocked;
      eventForRequesterSent, blocked := VisitAll(requester, scr, eventForRequesterSent);
      WalkEnds(Snapshot(), blocked, old(Snapshot()), IdOf(requester), scr);
      assert requester != null ==> Reached(windowStack, |windowStack|, requester);
      if requester != null && !eventForRequesterSent {
        // The source would send the requester its rects here; map and stack agree, so it never does.
        assert false;
      }
    }

    // ---------- commands ----------

    /** After the window at `at` was edited, bring the mirror up to date. */
    ghost method Resync(win: Window, at: nat, was: seq<Win>)
      requires CoherentWith(windowMap, windowStack) && at < |windowStack| && windowStack[at] == win
      requires values == was && |was| == |windowStack|
      requires forall i :: 0 <= i < |was| && i != at ==> was[i] == windowStack[i].Value()
      requires Has(was, win.id) && IndexOf(was, win.id) == at
      modifies this`values
      ensures Coherent()
      ensures values == Update(was, win.id, win.Value())
    {
      values := was[at := win.Value()];
    }

    ghost method Locate(win: Window) returns (at: nat)
      requires Coherent() && win in windowStack
      ensures at < |windowStack| && windowStack[at] == win
      ensures Has(values, win.id) && IndexOf(values, win.id) == at && Find(values, win.id) == win.Value()
      ensures forall i :: 0 <= i < |windowStack| && i != at ==> windowStack[i] != win
    {
      at :| 0 <= at < |windowStack| && windowStack[at] == win;
      CoherentIndex(windowMap, windowStack, values, at);
    }

    /** The part of the surface update that reaches the lock: the backing store around a blit. */
    method UpdateSurface(paints: bool)
      requires Valid()
      modifies lock, lock.lockCount
      ensures Valid() && lock.value == Painted(old(lock.value), paints)
    {
      if !paints {
        return;
      }
      var _ := lock.Acquire(BACKINGSTORE);
      var _ := lock.Release(BACKINGSTORE);
    }

    method EditRegion(win: Window, c: Command)
      requires Valid() && c.Region? && win in windowStack && win.id == c.window
      requires Has(values, c.window) && Walks(Snapshot(), c)
      ensures Valid() && Snapshot() == Edited(old(Snapshot()), c)
      modifies this`values, win, lock, lock.lockCount
      ensures win in windowStack
    {
      ghost var at := Locate(win);
      ghost var was := values;
      if |c.rects| > 0 {
        win.UpdateGeometry(c.rects);
        Resync(win, at, was);
        UpdateSurface(c.paints);
      } else {
        win.Hide();
        Resync(win, at, was);
      }
    }

    method HandleRegion(c: Command, scr: Screen)
      requires Valid() && ValidScreen(scr) && c.Region? && c.window > 0
      modifies this`windowMap, this`windowStack, this`output, this`values, windowStack, lock, lock.lockCount
      ensures Valid() && Snapshot() == var f := Found(old(Snapshot()), c.window);
                                       if Walks(f, c) then Walk(Edited(f, c), Some(c.window), scr) else f
    {
      var win := FindOrAllocateWindow(c.window);
      if |c.rects| > 0 && !c.keyOk {
        return;
      }
      EditRegion(win, c);
      UpdateRegions(win, scr);
    }

    method HandleRepaint(c: Command, scr: Screen)
      requires Valid() && ValidScreen(scr) && c.Repaint? && c.window > 0
      modifies this`windowMap, this`windowStack, this`output, this`values, windowStack, lock, lock.lockCount
      ensures Valid() && Snapshot() == var w := Walk(Found(old(Snapshot()), c.window), None, scr);
                                       w.(lock := Painted(w.lock, c.paints))
    {
      var win := FindOrAllocateWindow(c.window);
      UpdateRegions(null, scr);
      ghost var w := Snapshot();
      UpdateSurface(c.paints);
      assert Snapshot() == w.(lock := Painted(w.lock, c.paints));
    }

    method MoveWindow(win: Window, dx: int, dy: int) returns (moved: bool)
      requires Coherent() && win in windowStack
      modifies this`values, win
      ensures Coherent() && Has(old(values), win.id)
      ensures var w := Find(old(values), win.id);
              && (moved <==> w.request != [])
              && values == if moved then Update(old(values), win.id, w.(request := Translated(w.request, dx, dy)))
                           else old(values)
    {
      ghost var at := Locate(win);
      ghost var was := values;
      moved := win.MoveBy(dx, dy);
      if moved {
        Resync(win, at, was);
      }
    }

    /** The move and, for a window that has a region, the surface update. */
    method MoveAndPaint(win: Window, dx: int, dy: int, paints: bool) returns (moved: bool)
      requires Coherent() && lock.Valid() && win in windowStack
      modifies this`values, win, lock, lock.lockCount
      ensures Coherent() && lock.Valid() && Has(old(values), win.id)
      ensures var w := Find(old(values), win.id);
              && (moved <==> w.request != [])
              && values == if moved then Update(old(values), win.id, w.(request := Translated(w.request, dx, dy)))
                           else old(values)
      ensures lock.value == if moved then Painted(old(lock.value), paints) else old(lock.value)
    {
      moved := MoveWindow(win, dx, dy);
      if moved {
        UpdateSurface(paints);
      }
    }

    method EditMove(win: Window, c: Command) returns (moved: bool)
      requires Valid() && c.Move? && win in windowStack && win.id == c.window
      requires Has(values, c.window)
      modifies this`values, win, lock, lock.lockCount
      ensures Valid() && Snapshot() == Edited(old(Snapshot()), c)
      ensures moved <==> Walks(old(Snapshot()), c)
    {
      moved := MoveAndPaint(win, c.dx, c.dy, c.paints);
    }

    method HandleMove(c: Command, scr: Screen)
      requires Valid() && ValidScreen(scr) && c.Move? && c.window > 0
      modifies this`windowMap, this`windowStack, this`output, this`values, windowStack, lock, lock.lockCount
      ensures Valid() && Snapshot() == var f := Found(old(Snapshot()), c.window);
                                       if Walks(f, c) then Walk(Edited(f, c), None, scr) else f
    {
      var win := FindOrAllocateWindow(c.window);
      var moved := EditMove(win, c);
      if moved {
        UpdateRegions(null, scr);
      }
    }

    method EditDestroy(win: Window, c: Command)
      requires Valid() && c.Destroy? && win in windowStack && win.id == c.window
      requires Has(values, c.window)
      modifies this`windowMap, this`windowStack, this`values
      ensures Valid() && Snapshot() == Edited(old(Snapshot()), c)
      ensures forall w :: w in windowStack ==> w in old(windowStack)
    {
      RemoveWindow(win.id);
    }

    method HandleDestroy(c: Command, scr: Screen)
      requires Valid() && ValidScreen(scr) && c.Destroy? && c.window > 0
      modifies this`windowMap, this`windowStack, this`output, this`values, windowStack, lock, lock.lockCount
      ensures Valid() && Snapshot() == Walk(Edited(Found(old(Snapshot()), c.window), c), None, scr)
    {
      var win := FindOrAllocateWindow(c.window);
      EditDestroy(win, c);
      UpdateRegions(null, scr);
    }

    method EditAltitude(win: Window, c: Command)
      requires Valid() && c.ChangeAltitude? && win in windowStack && win.id == c.window
      requires Has(values, c.window) && Walks(Snapshot(), c)
      ensures Valid() && Snapshot() == Edited(old(Snapshot()), c)
      modifies this`windowStack, this`values, win
      ensures forall w :: w in windowStack <==> w in old(windowStack)
    {
      ghost var at := Locate(win);
      ghost var was := values;
      if c.fixed && c.altitude == 1 {
        win.onTop := true;
        Resync(win, at, was);
      }
      ghost var marked := values;
      UpdateKeepsIds(was, win.id, Find(was, win.id).(onTop := true));
      assert marked == if c.fixed && AltitudeOf(c.altitude).StaysOnTop?
                       then Update(was, win.id, Find(was, win.id).(onTop := true)) else was;
      if c.altitude == -1 {
        LowerInStack(win);
      } else {
        RaiseInStack(win);
      }
    }

    method HandleChangeAltitude(c: Command, scr: Screen)
      requires Valid() && ValidScreen(scr) && c.ChangeAltitude? && c.window > 0
      modifies this`windowMap, this`windowStack, this`output, this`values, windowStack, lock, lock.lockCount
      ensures Valid() && Snapshot() == var f := Found(old(Snapshot()), c.window);
                                       if Walks(f, c) then Walk(Edited(f, c), Some(c.window), scr) else f
    {
      var win := FindOrAllocateWindow(c.window);
      if c.altitude < -1 || c.altitude > 1 {
        return;
      }
      EditAltitude(win, c);
      UpdateRegions(win, scr);
    }

    method EditOpacity(win: Window, opacity: Opacity)
      requires Valid() && win in windowStack
      modifies this`values, win
      ensures Valid() && Has(old(values), win.id)
      ensures values == Update(old(values), win.id, Find(old(values), win.id).(opacity := opacity))
    {
      ghost var at := Locate(win);
      ghost var was := values;
      if win.opacity == opacity {
        assert Update(was, win.id, win.Value()) == was;
        return;
      }
      win.opacity := opacity;
      Resync(win, at, was);
    }

    method HandleSetOpacity(c: Command)
      requires Valid() && c.SetOpacity? && c.window > 0
      modifies this`windowMap, this`windowStack, this`output, this`values, windowStack
      ensures Valid() && Snapshot() == Edited(Found(old(Snapshot()), c.window), c)
    {
      var win := FindOrAllocateWindow(c.window);
      EditOpacity(win, c.opacity);
    }

    method HandleCommand(c: Command, scr: Screen)
      requires Valid() && ValidScreen(scr)
      requires NeedsWindow(c) ==> c.window > 0
      modifies this`windowMap, this`windowStack, this`output, this`values, windowStack, lock, lock.lockCount
      ensures Valid() && Snapshot() == Handled(old(Snapshot()), c, scr)
    {
      match c {
        case Region(_, _, _, _) => HandleRegion(c, scr);
        case Repaint(_, _) => HandleRepaint(c, scr);
        case Move(_, _, _, _) => HandleMove(c, scr);
        case Destroy(_) => HandleDestroy(c, scr);
        case ChangeAltitude(_, _, _) => HandleChangeAltitude(c, scr);
        case SetOpacity(_, _) => HandleSetOpacity(c);
        case RegionName(id) => var _ := FindOrAllocateWindow(id);
        case RequestFocus(id) => var _ := FindOrAllocateWindow(id);
        case Other =>
      }
    }

    /** One command, acknowledged on COMMUNICATION when it is synchronous. */
    method Dispatch(c: Command, scr: Screen)
      requires Valid() && ValidScreen(scr)
      requires NeedsWindow(c) ==> c.window > 0
      modifies this`windowMap, this`windowStack, this`output, this`values, windowStack, lock, lock.lockCount
      ensures Valid() && Snapshot() == Dispatched(old(Snapshot()), c, scr)
    {
      HandleCommand(c, scr);
      if Synchronous(c) {
        var _ := lock.Release(COMMUNICATION);
      }
    }
  }
}
