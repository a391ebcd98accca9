/**
 What one dispatched command does to a session, in the terms of the wire (proxy/proxy.c,
 qwswl_dispatch_command): to each window, to the order, in events and on the lock. Stated about
 Session.Dispatched from outside, with the numbers the client sends.
 */
module CommandEffects {
  import opened Wrappers
  import opened Rects
  import opened WindowStack
  import opened Regions
  import opened QwsLock
  import opened Session
  import opened SessionRuns

  // ---------- looking a window up ----------

  lemma FindUnique(stack: seq<Win>, w: Win)
    requires DistinctIds(stack) && w in stack
    ensures Has(stack, w.id) && Find(stack, w.id) == w
  {
    var i :| 0 <= i < |stack| && stack[i] == w;
    assert stack[i].id == w.id;
  }

  lemma FindUpdated(stack: seq<Win>, id: int, w: Win, other: int)
    requires w.id == id && Has(stack, id) && Has(stack, other) && DistinctIds(stack)
    ensures Has(Update(stack, id, w), other)
    ensures Find(Update(stack, id, w), other) == if other == id then w else Find(stack, other)
  {
    UpdateKeepsIds(stack, id, w);
    var s := Update(stack, id, w);
    FindUnique(s, s[IndexOf(stack, other)]);
  }

  lemma FindWithout(stack: seq<Win>, id: int, other: int)
    requires DistinctIds(stack) && Has(stack, other) && other != id
    ensures Has(Without(stack, id), other) && Find(Without(stack, id), other) == Find(stack, other)
  {
    WithoutIsClean(stack, id);
    var k, i := IndexOf(stack, id), IndexOf(stack, other);
    assert Without(stack, id)[if i < k then i else i - 1] == stack[i];
    FindUnique(Without(stack, id), stack[i]);
  }

  lemma FindRestacked(stack: seq<Win>, id: int, lower: bool, other: int)
    requires DistinctIds(stack) && Has(stack, id) && Has(stack, other)
    ensures Has(Restacked(stack, id, lower), other) && Find(Restacked(stack, id, lower), other) == Find(stack, other)
  {
    RestackMovesOnlyIts(stack, id, lower);
    RestackKeepsIds(stack, id, lower);
    assert Find(stack, other) in multiset(stack);
    FindUnique(Restacked(stack, id, lower), Find(stack, other));
  }

  lemma FindPrepared(s: State, id: int, other: int)
    requires DistinctIds(s.stack)
    ensures Has(Found(s, id).stack, other) <==> Has(s.stack, other) || other == id
    ensures Has(Found(s, id).stack, other) ==> Find(Found(s, id).stack, other) == Before(s, other)
  {
    if !Has(s.stack, id) {
      var k, w := Boundary(s.stack), NewWindow(id);
      InsertKeeps(s.stack, k, w);
      if other == id {
        PushedAtBoundary(s.stack, w);
        FindUnique(Push(s.stack, w), w);
      } else if Has(s.stack, other) {
        PushedAt(s.stack, w, IndexOf(s.stack, other));
        FindUnique(Push(s.stack, w), Find(s.stack, other));
      }
    }
  }

  lemma SameIdsSameIndex(a: seq<Win>, b: seq<Win>, id: int)
    requires |a| == |b| && forall i :: 0 <= i < |a| ==> a[i].id == b[i].id
    ensures IndexOf(a, id) == IndexOf(b, id) && (Has(a, id) <==> Has(b, id))
  {
    assert IndexOf(a, id) < |a| ==> b[IndexOf(a, id)].id == id;
    assert IndexOf(b, id) < |b| ==> a[IndexOf(b, id)].id == id;
  }

  // ---------- each window ----------

  /** The window a command finds: as listed, or new with the values of a fresh allocation. */
  function Before(s: State, id: int): Win {
    if Has(s.stack, id) then Find(s.stack, id) else Win(id, false, 255, [], [])
  }

  /** What a command makes of its own window before any walk. */
  function Edit(w: Win, c: Command): Win {
    match c
    case Region(_, rects, keyOk, _) =>
      if rects == [] then w.(request := [], visible := []) else if keyOk then w.(request := rects) else w
    case Move(_, dx, dy, _) =>
      w.(request := seq(|w.request|, i requires 0 <= i < |w.request| =>
           Rect(w.request[i].x1 + dx, w.request[i].y1 + dy, w.request[i].x2 + dx, w.request[i].y2 + dy)))
    case ChangeAltitude(_, altitude, fixed) => w.(onTop := w.onTop || (fixed && altitude == 1))
    case SetOpacity(_, opacity) => w.(opacity := opacity)
    case _ => w
  }

  function EditOf(c: Command, w: Win): Win {
    if !c.Other? && w.id == c.window then Edit(w, c) else w
  }

  lemma EditedAltitude(stack: seq<Win>, id: int, altitude: Altitude, fixed: bool, other: int)
    requires Has(stack, id) && DistinctIds(stack)
    ensures var t := WindowStack.ChangeAltitude(stack, id, altitude, fixed);
            && (Has(t, other) <==> Has(stack, other))
            && (Has(t, other) ==>
                  var w := Find(stack, other);
                  Find(t, other) == if other == id then w.(onTop := w.onTop || (fixed && altitude.StaysOnTop?)) else w)
  {
    var w := Find(stack, id).(onTop := true);
    UpdateKeepsIds(stack, id, w);
    var marked := if fixed && altitude.StaysOnTop? then Update(stack, id, w) else stack;
    RestackKeepsIds(marked, id, altitude.Lower?);
    if Has(stack, other) {
      FindUpdated(stack, id, w, other);
      FindRestacked(marked, id, altitude.Lower?, other);
    }
  }

  lemma EditedMove(w: Win, c: Command)
    requires c.Move?
    ensures Edit(w, c) == w.(request := Translated(w.request, c.dx, c.dy))
  {
  }

  lemma EditedInPlace(f: State, c: Command, id: int)
    requires (c.Region? || c.Move? || c.SetOpacity?) && Has(f.stack, c.window) && DistinctIds(f.stack)
    ensures Has(Edited(f, c).stack, id) <==> Has(f.stack, id)
    ensures Has(f.stack, id) ==> Find(Edited(f, c).stack, id) == EditOf(c, Find(f.stack, id))
  {
    var w := Edit(Find(f.stack, c.window), c);
    if c.Move? {
      EditedMove(Find(f.stack, c.window), c);
    }
    assert Edited(f, c).stack == Update(f.stack, c.window, w) || Edited(f, c).stack == f.stack;
    UpdateKeepsIds(f.stack, c.window, w);
    if Has(f.stack, id) {
      FindUpdated(f.stack, c.window, w, id);
    }
  }

  lemma EditedWindow(f: State, c: Command, id: int)
    requires NeedsWindow(c) ==> Has(f.stack, c.window)
    requires DistinctIds(f.stack)
    ensures Has(Edited(f, c).stack, id) <==> Has(f.stack, id) && !(c.Destroy? && id == c.window)
    ensures Has(Edited(f, c).stack, id) ==> Find(Edited(f, c).stack, id) == EditOf(c, Find(f.stack, id))
  {
    if c.ChangeAltitude? {
      if LegalAltitude(c.altitude) {
        EditedAltitude(f.stack, c.window, AltitudeOf(c.altitude), c.fixed, id);
      }
    } else if c.Destroy? {
      WithoutIsClean(f.stack, c.window);
      if Has(f.stack, id) && id != c.window {
        FindWithout(f.stack, c.window, id);
      }
    } else if c.Region? || c.Move? || c.SetOpacity? {
      EditedInPlace(f, c, id);
    }
  }

  lemma WalkedWindow(stack: seq<Win>, scr: Screen, id: int)
    ensures Has(Walked(stack, scr), id) <==> Has(stack, id)
    ensures IndexOf(Walked(stack, scr), id) == IndexOf(stack, id)
    ensures Has(stack, id) ==>
              Find(Walked(stack, scr), id) == Find(stack, id).(visible := AllocAt(stack, IndexOf(stack, id), scr))
  {
    SameIdsSameIndex(Walked(stack, scr), stack, id);
  }

  lemma EditedAfter(s: State, c: Command, id: int)
    requires DistinctIds(s.stack)
    ensures var e := Edited(Prepared(s, c), c).stack;
            && (Has(e, id) <==>
                  (Has(s.stack, id) || (!c.Other? && id == c.window)) && !(c.Destroy? && id == c.window))
            && (Has(e, id) ==> Find(e, id) == EditOf(c, Before(s, id)))
  {
    if NeedsWindow(c) {
      FoundKeepsIds(s, c.window);
      FindPrepared(s, c.window, id);
    }
    EditedWindow(Prepared(s, c), c, id);
  }

  lemma DispatchedStack(s: State, c: Command, scr: Screen)
    ensures var e := Edited(Prepared(s, c), c).stack;
            Dispatched(s, c, scr).stack == if Walks(Prepared(s, c), c) then Walked(e, scr) else e
  {
  }

  /** A window is listed after a command exactly when it was or the command named it, and the command did
      not destroy it. What is listed is what was, edited if the command named it, but for what of it is
      visible. */
  lemma WindowAfter(s: State, c: Command, scr: Screen, id: int)
    requires DistinctIds(s.stack)
    ensures var t := Dispatched(s, c, scr).stack;
            && (Has(t, id) <==>
                  (Has(s.stack, id) || (!c.Other? && id == c.window)) && !(c.Destroy? && id == c.window))
            && (Has(t, id) ==> Find(t, id).(visible := []) == EditOf(c, Before(s, id)).(visible := []))
  {
    EditedAfter(s, c, id);
    DispatchedStack(s, c, scr);
    WalkedWindow(Edited(Prepared(s, c), c).stack, scr, id);
  }

  lemma EditFields(b: Win, c: Command, p: Point)
    ensures var w := EditOf(c, b);
            && (w.onTop <==> b.onTop || c == ChangeAltitude(b.id, 1, true))
            && w.opacity == (if c.SetOpacity? && c.window == b.id then c.opacity else b.opacity)
            && (c.Region? && c.window == b.id && (c.rects == [] || c.keyOk) ==> w.request == c.rects)
            && (c.Move? && c.window == b.id ==>
                  (InArea(w.request, p) <==> InArea(b.request, Point(p.x - c.dx, p.y - c.dy))))
            && (!(c.Move? && c.window == b.id) && !(c.Region? && c.window == b.id && (c.rects == [] || c.keyOk)) ==>
                  w.request == b.request)
  {
    if c.Move? && c.window == b.id {
      EditedMove(b, c);
      TranslatedArea(b.request, c.dx, c.dy, p);
    }
  }

  /** Field by field: a window comes to be on top by the fixed altitude 1 and nothing else, its opacity is
      the last set, a region replaces its request and a move shifts it. */
  lemma FieldsAfter(s: State, c: Command, scr: Screen, id: int, p: Point)
    requires DistinctIds(s.stack) && Has(Dispatched(s, c, scr).stack, id)
    ensures var w, b := Find(Dispatched(s, c, scr).stack, id), Before(s, id);
            && (w.onTop <==> b.onTop || c == ChangeAltitude(id, 1, true))
            && w.opacity == (if c.SetOpacity? && c.window == id then c.opacity else b.opacity)
            && (c.Region? && c.window == id && (c.rects == [] || c.keyOk) ==> w.request == c.rects)
            && (c.Move? && c.window == id ==>
                  (InArea(w.request, p) <==> InArea(b.request, Point(p.x - c.dx, p.y - c.dy))))
            && (!(c.Move? && c.window == id) && !(c.Region? && c.window == id && (c.rects == [] || c.keyOk)) ==>
                  w.request == b.request)
  {
    WindowAfter(s, c, scr, id);
    EditFields(Before(s, id), c, p);
  }

  // ---------- the order ----------

  /** A normal window in front of every other normal one, with nothing but on-top windows before it. */
  predicate FirstNormal(stack: seq<Win>, id: int) {
    var k := IndexOf(stack, id);
    && k < |stack| && !stack[k].onTop
    && (forall j :: 0 <= j < k ==> stack[j].onTop)
    && (k + 1 < |stack| ==> !stack[k + 1].onTop)
  }

  predicate SameOrder(a: seq<Win>, b: seq<Win>, x: int, y: int) {
    IndexOf(a, x) < IndexOf(a, y) <==> IndexOf(b, x) < IndexOf(b, y)
  }

  lemma IndexWithout(stack: seq<Win>, id: int, x: int)
    requires DistinctIds(stack) && Has(stack, x) && x != id
    ensures IndexOf(Without(stack, id), x) ==
            IndexOf(stack, x) - (if IndexOf(stack, id) < IndexOf(stack, x) then 1 else 0)
  {
    FindWithout(stack, id, x);
    WithoutIsClean(stack, id);
    var k, i := IndexOf(stack, id), IndexOf(stack, x);
    assert Without(stack, id)[if k < i then i - 1 else i] == stack[i];
  }

  lemma WithoutKeepsOrder(stack: seq<Win>, id: int, x: int, y: int)
    requires DistinctIds(stack) && Has(stack, x) && Has(stack, y) && x != id && y != id
    ensures SameOrder(stack, Without(stack, id), x, y)
  {
    IndexWithout(stack, id, x);
    IndexWithout(stack, id, y);
  }

  lemma FoundKeepsOrder(s: State, id: int, x: int, y: int)
    requires DistinctIds(s.stack) && Has(s.stack, x) && Has(s.stack, y)
    ensures SameOrder(s.stack, Found(s, id).stack, x, y)
  {
    if !Has(s.stack, id) {
      FoundKeepsIds(s, id);
      InsertHas(s.stack, Boundary(s.stack), NewWindow(id));
      IndexOfInserted(s.stack, Boundary(s.stack), NewWindow(id));
      WithoutKeepsOrder(Found(s, id).stack, id, x, y);
    }
  }

  lemma AltitudeKeepsOrder(stack: seq<Win>, id: int, altitude: Altitude, fixed: bool, x: int, y: int)
    requires DistinctIds(stack) && Has(stack, id) && Has(stack, x) && Has(stack, y) && x != id && y != id
    ensures SameOrder(stack, WindowStack.ChangeAltitude(stack, id, altitude, fixed), x, y)
  {
    var w := Find(stack, id).(onTop := true);
    UpdateKeepsIds(stack, id, w);
    var marked := if fixed && altitude.StaysOnTop? then Update(stack, id, w) else stack;
    SameIdsSameIndex(stack, marked, x);
    SameIdsSameIndex(stack, marked, y);
    RestackMovesOnlyIts(marked, id, altitude.Lower?);
    RestackKeepsIds(marked, id, altitude.Lower?);
    WithoutKeepsOrder(marked, id, x, y);
    WithoutKeepsOrder(Restacked(marked, id, altitude.Lower?), id, x, y);
  }

  lemma EditKeepsOrder(f: State, c: Command, x: int, y: int)
    requires NeedsWindow(c) ==> Has(f.stack, c.window) && x != c.window && y != c.window
    requires DistinctIds(f.stack) && Has(f.stack, x) && Has(f.stack, y)
    ensures SameOrder(f.stack, Edited(f, c).stack, x, y)
  {
    if c.Destroy? {
      WithoutKeepsOrder(f.stack, c.window, x, y);
    } else if c.ChangeAltitude? {
      if LegalAltitude(c.altitude) {
        AltitudeKeepsOrder(f.stack, c.window, AltitudeOf(c.altitude), c.fixed, x, y);
      }
    } else {
      SameIdsSameIndex(f.stack, Edited(f, c).stack, x);
      SameIdsSameIndex(f.stack, Edited(f, c).stack, y);
    }
  }

  lemma PreparedKeepsOrder(s: State, c: Command, x: int, y: int)
    requires DistinctIds(s.stack) && Has(s.stack, x) && Has(s.stack, y)
    ensures DistinctIds(Prepared(s, c).stack) && Has(Prepared(s, c).stack, x) && Has(Prepared(s, c).stack, y)
    ensures SameOrder(s.stack, Prepared(s, c).stack, x, y)
  {
    if NeedsWindow(c) {
      FoundKeepsIds(s, c.window);
      FindPrepared(s, c.window, x);
      FindPrepared(s, c.window, y);
      FoundKeepsOrder(s, c.window, x, y);
    }
  }

  /** A walk moves and marks nothing. */
  lemma DispatchedLooks(s: State, c: Command, scr: Screen)
    ensures var t, e := Dispatched(s, c, scr).stack, Edited(Prepared(s, c), c).stack;
            |t| == |e| && forall i :: 0 <= i < |t| ==> t[i].id == e[i].id && t[i].onTop == e[i].onTop
  {
  }

  /** Every command leaves all windows but its own in their order. */
  lemma OthersKeepOrder(s: State, c: Command, scr: Screen, x: int, y: int)
    requires DistinctIds(s.stack) && Has(s.stack, x) && Has(s.stack, y)
    requires !c.Other? ==> x != c.window && y != c.window
    ensures SameOrder(s.stack, Dispatched(s, c, scr).stack, x, y)
  {
    PreparedKeepsOrder(s, c, x, y);
    EditKeepsOrder(Prepared(s, c), c, x, y);
    DispatchedLooks(s, c, scr);
    SameIdsSameIndex(Dispatched(s, c, scr).stack, Edited(Prepared(s, c), c).stack, x);
    SameIdsSameIndex(Dispatched(s, c, scr).stack, Edited(Prepared(s, c), c).stack, y);
  }

  lemma PushedFirst(stack: seq<Win>, w: Win)
    requires !w.onTop && !Has(stack, w.id)
    ensures FirstNormal(Push(stack, w), w.id)
  {
    var b := Boundary(stack);
    InsertAtIs(stack, b, w);
    IndexOfInserted(stack, b, w);
    var t := Push(stack, w);
    forall j | 0 <= j < b ensures t[j].onTop {
      assert t[j] == Origin(stack, b, w, j);
    }
    if b + 1 < |t| {
      assert t[b + 1] == Origin(stack, b, w, b + 1);
    }
  }

  lemma AltitudePlaces(stack: seq<Win>, id: int, altitude: Altitude, fixed: bool)
    requires Has(stack, id) && DistinctIds(stack)
    ensures var t := WindowStack.ChangeAltitude(stack, id, altitude, fixed);
            && t != [] && Has(t, id)
            && (altitude.Lower? ==> t[|t| - 1].id == id)
            && (!altitude.Lower? ==> if Find(t, id).onTop then t[0].id == id else FirstNormal(t, id))
  {
    var w := Find(stack, id).(onTop := true);
    UpdateKeepsIds(stack, id, w);
    var marked := if fixed && altitude.StaysOnTop? then Update(stack, id, w) else stack;
    RestackKeepsIds(marked, id, altitude.Lower?);
    FindRestacked(marked, id, altitude.Lower?, id);
    if !altitude.Lower? && !Find(marked, id).onTop {
      WithoutIsClean(marked, id);
      PushedFirst(Without(marked, id), Find(marked, id));
    }
  }

  lemma SameLooksSamePlace(a: seq<Win>, b: seq<Win>, id: int)
    requires |a| == |b| && forall i :: 0 <= i < |a| ==> a[i].id == b[i].id && a[i].onTop == b[i].onTop
    ensures FirstNormal(a, id) ==> FirstNormal(b, id)
    ensures Has(a, id) ==> Has(b, id) && Find(a, id).onTop == Find(b, id).onTop
  {
    SameIdsSameIndex(a, b, id);
  }

  /** Altitude -1 puts the window last. Altitude 0 or 1 puts it first if it is on top, and otherwise in front
      of every other normal window. */
  lemma AltitudeAfter(s: State, c: Command, scr: Screen)
    requires DistinctIds(s.stack) && c.ChangeAltitude?
    ensures var t := Dispatched(s, c, scr).stack;
            && t != [] && Has(t, c.window)
            && (c.altitude == -1 ==> t[|t| - 1].id == c.window)
            && (c.altitude == 0 || c.altitude == 1 ==>
                  if Find(t, c.window).onTop then t[0].id == c.window else FirstNormal(t, c.window))
  {
    var f := Found(s, c.window);
    FoundKeepsIds(s, c.window);
    if LegalAltitude(c.altitude) {
      AltitudePlaces(f.stack, c.window, AltitudeOf(c.altitude), c.fixed);
    }
    DispatchedLooks(s, c, scr);
    SameLooksSamePlace(Edited(f, c).stack, Dispatched(s, c, scr).stack, c.window);
  }

  /** Every command but a destroy or a legal altitude leaves a listed window where it is, and puts a new one
      in front of every other normal window. */
  lemma PlaceAfter(s: State, c: Command, scr: Screen)
    requires !c.Destroy? && !(c.ChangeAltitude? && -1 <= c.altitude <= 1)
    ensures var t := Dispatched(s, c, scr).stack;
            if c.Other? || Has(s.stack, c.window)
            then |t| == |s.stack| && forall i :: 0 <= i < |t| ==> t[i].id == s.stack[i].id
            else FirstNormal(t, c.window)
  {
    var f := Prepared(s, c);
    DispatchedLooks(s, c, scr);
    EditKeepsLooks(f, c);
    if !c.Other? && !Has(s.stack, c.window) {
      PushedFirst(s.stack, NewWindow(c.window));
      SameLooksSamePlace(f.stack, Dispatched(s, c, scr).stack, c.window);
    }
  }

  // ---------- events ----------

  /** The commands that run the walk; a move only when there is something to move. */
  lemma WalksIff(s: State, c: Command)
    requires DistinctIds(s.stack)
    ensures Walks(Prepared(s, c), c) <==>
            match c
            case Region(_, rects, keyOk, _) => rects == [] || keyOk
            case RegionName(_) => false
            case Repaint(_, _) => true
            case Move(window, _, _, _) => Before(s, window).request != []
            case Destroy(_) => true
            case ChangeAltitude(_, altitude, _) => altitude == -1 || altitude == 0 || altitude == 1
            case RequestFocus(_) => false
            case SetOpacity(_, _) => false
            case Other => false
  {
    if NeedsWindow(c) {
      FindPrepared(s, c.window, c.window);
    }
  }

  /** The events of windows before position n, in the order of the stack, each with its window's allocation. */
  ghost predicate FrontToBack(out: seq<Output>, stack: seq<Win>, allocs: seq<seq<Rect>>, n: nat)
    requires |allocs| == |stack|
  {
    && (forall i :: 0 <= i < |out| ==> IndexOf(stack, out[i].id) < n && IndexOf(stack, out[i].id) < |stack|
                                       && out[i].rects == allocs[IndexOf(stack, out[i].id)])
    && (forall i, j :: 0 <= i < j < |out| ==> IndexOf(stack, out[i].id) < IndexOf(stack, out[j].id))
  }

  lemma IndexIsPlace(stack: seq<Win>, k: nat)
    requires DistinctIds(stack) && k < |stack|
    ensures IndexOf(stack, stack[k].id) == k
  {
  }

  lemma OneMoreToBack(out: seq<Output>, stack: seq<Win>, allocs: seq<seq<Rect>>, k: nat)
    requires k < |stack| == |allocs| && DistinctIds(stack) && FrontToBack(out, stack, allocs, k)
    ensures FrontToBack(out, stack, allocs, k + 1)
    ensures FrontToBack(out + [RegionEvent(stack[k].id, allocs[k])], stack, allocs, k + 1)
  {
    IndexIsPlace(stack, k);
  }

  lemma {:induction false} EventsFrontToBack(stack: seq<Win>, allocs: seq<seq<Rect>>, k: nat, requester: Option<int>)
    requires k <= |stack| == |allocs| && DistinctIds(stack)
    ensures FrontToBack(Events(stack, allocs, k, requester), stack, allocs, k)
  {
    if k > 0 {
      EventsFrontToBack(stack, allocs, k - 1, requester);
      OneMoreToBack(Events(stack, allocs, k - 1, requester), stack, allocs, k - 1);
      EventsGrow(stack, allocs, k - 1, requester);
    }
  }

  /** In the order of the stack, each with its window's visible list. */
  ghost predicate InStackOrder(out: seq<Output>, stack: seq<Win>) {
    && (forall i :: 0 <= i < |out| ==> Has(stack, out[i].id) && out[i].rects == Find(stack, out[i].id).visible)
    && (forall i, j :: 0 <= i < j < |out| ==> IndexOf(stack, out[i].id) < IndexOf(stack, out[j].id))
  }

  lemma WalkEvents(stack: seq<Win>, requester: Option<int>, scr: Screen)
    requires DistinctIds(stack)
    ensures InStackOrder(AllEvents(stack, requester, scr), Walked(stack, scr))
  {
    var events, t := AllEvents(stack, requester, scr), Walked(stack, scr);
    EventsFrontToBack(stack, Allocs(stack, scr), |stack|, requester);
    forall i | 0 <= i < |events|
      ensures IndexOf(t, events[i].id) == IndexOf(stack, events[i].id) < |stack|
      ensures Has(t, events[i].id) && events[i].rects == Find(t, events[i].id).visible
    {
      WalkedWindow(stack, scr, events[i].id);
    }
  }

  lemma WalkCounts(stack: seq<Win>, requester: Option<int>, scr: Screen, id: int)
    requires DistinctIds(stack)
    ensures Has(Walked(stack, scr), id) <==> Has(stack, id)
    ensures CountEvents(AllEvents(stack, requester, scr), id) == if Has(Walked(stack, scr), id) &&
              (requester == Some(id) || Find(Walked(stack, scr), id).visible != Find(stack, id).visible) then 1 else 0
  {
    WalkedWindow(stack, scr, id);
    EventsAreExact(stack, requester, scr, id);
  }

  /** What a command sends, as a value. */
  function Sent(s: State, c: Command, scr: Screen): seq<Output> {
    var f := Prepared(s, c);
    if Walks(f, c) then AllEvents(Edited(f, c).stack, Requester(c), scr) else []
  }

  lemma OutAfter(s: State, c: Command, scr: Screen)
    ensures Dispatched(s, c, scr).out == s.out + Sent(s, c, scr)
  {
  }

  /** Before the walk, only the window of a region command may show something else. */
  lemma EditKeepsVisible(f: State, c: Command, id: int)
    requires NeedsWindow(c) ==> Has(f.stack, c.window)
    requires DistinctIds(f.stack) && Has(Edited(f, c).stack, id) && !(c.Region? && c.window == id)
    ensures Has(f.stack, id) && Find(Edited(f, c).stack, id).visible == Find(f.stack, id).visible
  {
    EditedWindow(f, c, id);
  }

  lemma PreparedWindow(s: State, c: Command, id: int)
    requires DistinctIds(s.stack)
    ensures DistinctIds(Prepared(s, c).stack)
    ensures Has(Prepared(s, c).stack, id) ==> Find(Prepared(s, c).stack, id) == Before(s, id)
  {
    if NeedsWindow(c) {
      FoundKeepsIds(s, c.window);
      FindPrepared(s, c.window, id);
    }
  }

  /** One event for the window of a region or altitude command, one for each other window whose visible list
      is another than before, none from a command that does not walk. */
  lemma SentCounts(s: State, c: Command, scr: Screen, id: int)
    requires DistinctIds(s.stack)
    ensures var t := Dispatched(s, c, scr).stack;
            CountEvents(Sent(s, c, scr), id) ==
              if Walks(Prepared(s, c), c) && Has(t, id) &&
                 (((c.Region? || c.ChangeAltitude?) && c.window == id) || Find(t, id).visible != Before(s, id).visible)
              then 1 else 0
  {
    var f := Prepared(s, c);
    PreparedWindow(s, c, id);
    EditKeepsIds(f, c);
    if Walks(f, c) {
      DispatchedStack(s, c, scr);
      WalkCounts(Edited(f, c).stack, Requester(c), scr, id);
      if Has(Edited(f, c).stack, id) && !(c.Region? && c.window == id) {
        EditKeepsVisible(f, c, id);
      }
    }
  }

  /** The events a command adds, in the order and with the visible lists of the stack it leaves. */
  lemma EventsAfter(s: State, c: Command, scr: Screen, id: int)
    requires DistinctIds(s.stack)
    ensures var t := Dispatched(s, c, scr);
            && s.out <= t.out && InStackOrder(t.out[|s.out|..], t.stack)
            && CountEvents(t.out[|s.out|..], id) == (if Walks(Prepared(s, c), c) && Has(t.stack, id) &&
                 (((c.Region? || c.ChangeAltitude?) && c.window == id)
                  || Find(t.stack, id).visible != Before(s, id).visible) then 1 else 0)
  {
    OutAfter(s, c, scr);
    assert Dispatched(s, c, scr).out[|s.out|..] == Sent(s, c, scr);
    SentCounts(s, c, scr, id);
    SentInOrder(s, c, scr);
  }

  lemma SentInOrder(s: State, c: Command, scr: Screen)
    requires DistinctIds(s.stack)
    ensures InStackOrder(Sent(s, c, scr), Dispatched(s, c, scr).stack)
  {
    var f := Prepared(s, c);
    PreparedWindow(s, c, 0);
    EditKeepsIds(f, c);
    if Walks(f, c) {
      DispatchedStack(s, c, scr);
      WalkEvents(Edited(f, c).stack, Requester(c), scr);
    }
  }

  // ---------- the lock ----------

  lemma {:induction false} PostedRegionsIs(lock: Handle, n: nat)
    ensures PostedRegions(lock, n).count == lock.count
    ensures PostedRegions(lock, n).ops == lock.ops + seq(n, _ => SemOp(2, 1))
  {
    if n > 0 {
      PostedRegionsIs(lock, n - 1);
    }
  }

  /** The semaphore operations around a blit. */
  function Blit(paints: bool): seq<SemOp> {
    if paints then [SemOp(0, -1), SemOp(0, 1)] else []
  }

  lemma PaintedIs(lock: Handle, paints: bool)
    requires lock.count[0] == 0
    ensures Painted(lock, paints).count == lock.count && Painted(lock, paints).ops == lock.ops + Blit(paints)
  {
  }

  lemma EditOps(s: State, c: Command)
    requires DistinctIds(s.stack) && s.lock.count[0] == 0
    ensures var e := Edited(Prepared(s, c), c);
            && e.out == s.out && e.lock.count == s.lock.count
            && e.lock.ops == s.lock.ops + Blit((c.Region? && c.rects != [] && c.keyOk && c.paints) ||
                                               (c.Move? && Before(s, c.window).request != [] && c.paints))
  {
    PreparedWindow(s, c, if c.Move? then c.window else 0);
    PaintedIs(s.lock, (c.Region? || c.Move?) && c.paints);
  }

  lemma WalkOps(e: State, requester: Option<int>, scr: Screen)
    ensures var w := Walk(e, requester, scr);
            && e.out <= w.out && w.lock.count == e.lock.count
            && w.lock.ops == e.lock.ops + seq(|w.out| - |e.out|, _ => SemOp(2, 1))
  {
    PostedRegionsIs(e.lock, |AllEvents(e.stack, requester, scr)|);
  }

  /** What follows the walk: the repaint and the acknowledgement. */
  function Acknowledgement(c: Command): seq<SemOp> {
    Blit(c.Repaint? && c.paints)
    + (if c.Region? || c.Repaint? || c.Move? || c.ChangeAltitude? then [SemOp(1, 1)] else [])
  }

  lemma AckOps(s: State, c: Command, scr: Screen)
    requires Edited(Prepared(s, c), c).lock.count[0] == 0 && Edited(Prepared(s, c), c).lock.count[1] == 0
    ensures var e := Edited(Prepared(s, c), c);
            var w := if Walks(Prepared(s, c), c) then Walk(e, Requester(c), scr) else e;
            && Dispatched(s, c, scr).out == w.out && Dispatched(s, c, scr).lock.count == w.lock.count
            && Dispatched(s, c, scr).lock.ops == w.lock.ops + Acknowledgement(c)
  {
    var e := Edited(Prepared(s, c), c);
    var w := if Walks(Prepared(s, c), c) then Walk(e, Requester(c), scr) else e;
    WalkOps(e, Requester(c), scr);
    PaintedIs(w.lock, c.Repaint? && c.paints);
  }

  /** Every semaphore operation of a command, in order: one wait and one post of the backing store around a
      blit, which a region with rects and a decoded key and a move of something do before the walk and a
      repaint after it, one region-event post for each event, one communication post for a synchronous
      command. */
  lemma OpsAfter(s: State, c: Command, scr: Screen)
    requires DistinctIds(s.stack) && Unnested(s.lock)
    ensures s.out <= Dispatched(s, c, scr).out && Dispatched(s, c, scr).lock.count == s.lock.count
    ensures Dispatched(s, c, scr).lock.ops ==
            s.lock.ops
            + Blit((c.Region? && c.rects != [] && c.keyOk && c.paints) ||
                   (c.Move? && Before(s, c.window).request != [] && c.paints))
            + seq(|Dispatched(s, c, scr).out| - |s.out|, _ => SemOp(2, 1))
            + Acknowledgement(c)
  {
    EditOps(s, c);
    AckOps(s, c, scr);
    WalkOps(Edited(Prepared(s, c), c), Requester(c), scr);
  }
}
