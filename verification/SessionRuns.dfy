/** What every run of a session keeps. */
module SessionRuns {
  import opened Wrappers
  import opened Rects
  import opened WindowStack
  import opened Regions
  import opened QwsLock
  import opened Session

  // ---------- a new window is invisible ----------

  function Shift(k: nat, at: nat): nat { if k < at then k else k + 1 }

  lemma PushedAt(stack: seq<Win>, w: Win, k: nat)
    requires k < |stack|
    ensures |Push(stack, w)| == |stack| + 1
    ensures Push(stack, w)[Shift(k, Boundary(stack))] == stack[k]
    ensures Push(stack, w)[Boundary(stack)] == w
  {
  }

  /** A window without a request blocks nothing. */
  lemma {:induction false} PushEmptyBlocking(stack: seq<Win>, w: Win, k: nat, scr: Screen)
    requires k <= |stack| && w.request == []
    ensures Shift(k, Boundary(stack)) <= |Push(stack, w)|
    ensures Blocking(Push(stack, w), Shift(k, Boundary(stack)), scr) == Blocking(stack, k, scr)
    ensures k <= Boundary(stack) ==> Blocking(Push(stack, w), k, scr) == Blocking(stack, k, scr)
  {
    var s := Push(stack, w);
    var b := Boundary(stack);
    if k <= b {
      SameShapeSameAlloc(s, stack, k, scr);
    }
    if k == b {
      PushedAtBoundary(stack, w);
      EmptyBlocksNothing(s, b, scr);
    }
    if k > b {
      PushEmptyBlocking(stack, w, k - 1, scr);
      PushedAt(stack, w, k - 1);
      BlockingStep(stack, k - 1, s, k, scr);
    }
  }

  lemma PushedAtBoundary(stack: seq<Win>, w: Win)
    ensures |Push(stack, w)| == |stack| + 1 && Push(stack, w)[Boundary(stack)] == w
  {
  }

  lemma BlockingStep(a: seq<Win>, i: nat, b: seq<Win>, j: nat, scr: Screen)
    requires i < |a| && j < |b| && a[i] == b[j] && Blocking(a, i, scr) == Blocking(b, j, scr)
    ensures Blocking(a, i + 1, scr) == Blocking(b, j + 1, scr)
  {
  }

  lemma EmptyBlocksNothing(stack: seq<Win>, k: nat, scr: Screen)
    requires k < |stack| && stack[k].request == []
    ensures Blocking(stack, k + 1, scr) == Blocking(stack, k, scr)
  {
    assert AllocAt(stack, k, scr) == [];
  }

  lemma PushEmptyAlloc(stack: seq<Win>, w: Win, i: nat, scr: Screen)
    requires i < |stack| && w.request == []
    ensures Shift(i, Boundary(stack)) < |Push(stack, w)|
    ensures Push(stack, w)[Shift(i, Boundary(stack))] == stack[i]
    ensures AllocAt(Push(stack, w), Shift(i, Boundary(stack)), scr) == AllocAt(stack, i, scr)
  {
    PushedAt(stack, w, i);
    PushEmptyBlocking(stack, w, i, scr);
  }

  lemma PushEmptyKeepsUpToDate(stack: seq<Win>, w: Win, scr: Screen)
    requires UpToDate(stack, scr) && w.request == [] && w.visible == []
    ensures UpToDate(Push(stack, w), scr)
  {
    forall k | 0 <= k < |Push(stack, w)| ensures Push(stack, w)[k].visible == AllocAt(Push(stack, w), k, scr) {
      PushEmptyShowsExactly(stack, w, k, scr);
    }
  }

  lemma PushEmptyShowsExactly(stack: seq<Win>, w: Win, k: nat, scr: Screen)
    requires UpToDate(stack, scr) && w.request == [] && w.visible == [] && k < |Push(stack, w)|
    ensures Push(stack, w)[k].visible == AllocAt(Push(stack, w), k, scr)
  {
    var b := Boundary(stack);
    if k == b {
      PushedAtBoundary(stack, w);
    } else {
      PushEmptyAlloc(stack, w, if k < b then k else k - 1, scr);
    }
  }

  lemma PushEmptyHides(stack: seq<Win>, w: Win, k: nat, p: Point)
    requires k < |stack| && w.request == []
    ensures Hidden(Push(stack, w), Shift(k, Boundary(stack)), p) <==> Hidden(stack, k, p)
  {
    var s := Push(stack, w);
    var b := Boundary(stack);
    PushedAt(stack, w, k);
    if Hidden(stack, k, p) {
      var j :| 0 <= j < k && Opaque(stack[j]) && InArea(stack[j].request, p);
      PushedAt(stack, w, j);
      assert Opaque(s[Shift(j, b)]);
    }
    if Hidden(s, Shift(k, b), p) {
      var j :| 0 <= j < Shift(k, b) && Opaque(s[j]) && InArea(s[j].request, p);
      var i := if j < b then j else j - 1;
      assert j != b;
      PushedAt(stack, w, i);
      assert Opaque(stack[i]);
    }
  }

  lemma PushEmptyKeepsAreas(stack: seq<Win>, w: Win, scr: Screen)
    requires AreasExact(stack, scr) && w.request == [] && w.visible == []
    ensures AreasExact(Push(stack, w), scr)
  {
    var s := Push(stack, w);
    var b := Boundary(stack);
    forall k, p | 0 <= k < |s| ensures InArea(s[k].visible, p) <==> Shows(s, k, scr, p) {
      if k == b {
        assert s[k] == w;
      } else {
        var i := if k < b then k else k - 1;
        PushedAt(stack, w, i);
        PushEmptyHides(stack, w, i, p);
      }
    }
  }

  lemma FoundKeeps(s: State, id: int, scr: Screen)
    ensures UpToDate(s.stack, scr) ==> UpToDate(Found(s, id).stack, scr)
    ensures AreasExact(s.stack, scr) ==> AreasExact(Found(s, id).stack, scr)
  {
    if UpToDate(s.stack, scr) { PushEmptyKeepsUpToDate(s.stack, NewWindow(id), scr); }
    if AreasExact(s.stack, scr) { PushEmptyKeepsAreas(s.stack, NewWindow(id), scr); }
  }

  // ---------- visible areas ----------

  /** Every command that walks makes every area exact, whatever was stale before; every other
      command but SetOpacity keeps exact areas exact. */
  lemma DispatchKeepsAreas(s: State, c: Command, scr: Screen)
    requires ValidScreen(scr)
    ensures Walks(Prepared(s, c), c) || (AreasExact(s.stack, scr) && !c.SetOpacity?) ==>
              AreasExact(Dispatched(s, c, scr).stack, scr)
    ensures UpToDate(s.stack, scr) && !c.SetOpacity? ==> UpToDate(Dispatched(s, c, scr).stack, scr)
  {
    var f := Prepared(s, c);
    if NeedsWindow(c) {
      FoundKeeps(s, c.window, scr);
    }
    if Walks(f, c) {
      WalkMakesAreasExact(Edited(f, c).stack, scr);
      SecondWalkIsSilent(Edited(f, c).stack, scr);
    } else if !c.SetOpacity? {
      assert Dispatched(s, c, scr).stack == f.stack;
    }
  }

  /** SetOpacity is the one command that can leave areas stale, and this is exactly when. */
  lemma SetOpacityLeavesExactIff(s: State, c: Command, scr: Screen)
    requires c.SetOpacity? && AreasExact(s.stack, scr)
    ensures AreasExact(Dispatched(s, c, scr).stack, scr)
       <==> (Opaque(Find(Prepared(s, c).stack, c.window)) == (c.opacity == 255)
             || !DecidesSomePoint(Prepared(s, c).stack, IndexOf(Prepared(s, c).stack, c.window), scr))
  {
    var f := Found(s, c.window);
    FoundKeeps(s, c.window, scr);
    SetOpacityKeepsAreasIff(f.stack, IndexOf(f.stack, c.window), c.opacity, scr);
  }

  /** An opaque normal window with this id and request, whatever of it is visible. */
  predicate Looks(w: Win, id: int, request: seq<Rect>) {
    w.id == id && w.request == request && w.opacity == 255 && !w.onTop
  }

  lemma RegionWalks(s: State, id: int, r: seq<Rect>, scr: Screen)
    requires r != []
    ensures var c := Region(id, r, true, false);
            && Walks(Prepared(s, c), c)
            && Dispatched(s, c, scr).stack == Walked(Edited(Prepared(s, c), c).stack, scr)
  {
  }

  lemma RegionEditsNewWindow(s: State, id: int, rects: seq<Rect>)
    requires !Has(s.stack, id) && rects != [] && Boundary(s.stack) == 0
    ensures var c := Region(id, rects, true, false);
            Edited(Prepared(s, c), c).stack == [NewWindow(id).(request := rects)] + s.stack
  {
    var f := Found(s, id);
    assert f.stack == [NewWindow(id)] + s.stack;
    assert IndexOf(f.stack, id) == 0;
  }

  lemma WalkedLooksTheSame(stack: seq<Win>, k: nat, scr: Screen)
    requires k < |stack|
    ensures Walked(stack, scr)[k].(visible := []) == stack[k].(visible := [])
  {
  }

  lemma NewWindowInFront(stack: seq<Win>, id: int, rects: seq<Rect>, scr: Screen)
    ensures var t := Walked([NewWindow(id).(request := rects)] + stack, scr);
            && |t| == |stack| + 1
            && Looks(t[0], id, rects)
            && forall i :: 0 <= i < |stack| ==> t[i + 1].(visible := []) == stack[i].(visible := [])
  {
    var e := [NewWindow(id).(request := rects)] + stack;
    WalkedLooksTheSame(e, 0, scr);
    forall i | 0 <= i < |stack| ensures Walked(e, scr)[i + 1].(visible := []) == stack[i].(visible := []) {
      WalkedLooksTheSame(e, i + 1, scr);
      assert e[i + 1] == stack[i];
    }
  }

  lemma FadingUncovers(s: State, scr: Screen)
    requires 2 <= scr.width && 2 <= scr.height && AreasExact(s.stack, scr)
    requires |s.stack| == 2 && Looks(s.stack[0], 2, [Rect(0, 0, 1, 1)]) && Looks(s.stack[1], 1, [Rect(0, 0, 1, 1)])
    ensures !AreasExact(Dispatched(s, SetOpacity(2, 100), scr).stack, scr)
  {
    var p := Point(0, 0);
    AreaOfOne(Rect(0, 0, 1, 1), p);
    assert IndexOf(s.stack, 2) == 0 && Found(s, 2) == s;
    assert !HiddenBut(s.stack, 1, 0, p);
    assert DecidesSomePoint(s.stack, 0, scr);
    SetOpacityLeavesExactIff(s, SetOpacity(2, 100), scr);
  }

  /** A run that does leave them stale: after it an opaque window over another turns translucent. */
  lemma SetOpacityCanGoStale(scr: Screen) returns (s: State)
    requires 2 <= scr.width && 2 <= scr.height
    ensures var r := [Rect(0, 0, 1, 1)]; s == Run(Start, [Region(1, r, true, false), Region(2, r, true, false)], scr)
    ensures AreasExact(s.stack, scr) && !AreasExact(Dispatched(s, SetOpacity(2, 100), scr).stack, scr)
  {
    s := TwoWindows([Rect(0, 0, 1, 1)], scr);
    FadingUncovers(s, scr);
  }

  lemma RunMore(s: State, cmds: seq<Command>, c: Command, scr: Screen)
    ensures Run(s, cmds + [c], scr) == Dispatched(Run(s, cmds, scr), c, scr)
  {
    assert (cmds + [c])[..|cmds|] == cmds;
  }

  lemma OneWindow(r: seq<Rect>, scr: Screen) returns (s: State)
    requires r != []
    ensures s == Run(Start, [Region(1, r, true, false)], scr)
    ensures |s.stack| == 1 && Looks(s.stack[0], 1, r)
  {
    s := Run(Start, [Region(1, r, true, false)], scr);
    RunMore(Start, [], Region(1, r, true, false), scr);
    RegionWalks(Start, 1, r, scr);
    RegionEditsNewWindow(Start, 1, r);
    NewWindowInFront(Start.stack, 1, r, scr);
  }

  lemma TwoWindows(r: seq<Rect>, scr: Screen) returns (s: State)
    requires r != [] && ValidScreen(scr)
    ensures s == Run(Start, [Region(1, r, true, false), Region(2, r, true, false)], scr)
    ensures |s.stack| == 2 && Looks(s.stack[0], 2, r) && Looks(s.stack[1], 1, r) && AreasExact(s.stack, scr)
  {
    var s1 := OneWindow(r, scr);
    s := Dispatched(s1, Region(2, r, true, false), scr);
    RunMore(Start, [Region(1, r, true, false)], Region(2, r, true, false), scr);
    RegionWalks(s1, 2, r, scr);
    RegionEditsNewWindow(s1, 2, r);
    NewWindowInFront(s1.stack, 2, r, scr);
    DispatchKeepsAreas(s1, Region(2, r, true, false), scr);
  }

  // ---------- zones ----------

  /** A command's change to the set of lowered windows. */
  function LoweredNow(before: set<int>, c: Command): set<int> {
    match c
    case ChangeAltitude(id, altitude, _) =>
      if altitude == -1 then before + {id} else if altitude == 0 || altitude == 1 then before - {id} else before
    case Destroy(id) => before - {id}
    case _ => before
  }

  /** The windows whose last altitude command was Lower. */
  function LoweredBy(cmds: seq<Command>): set<int> {
    if cmds == [] then {} else LoweredNow(LoweredBy(cmds[..|cmds| - 1]), cmds[|cmds| - 1])
  }

  lemma SameFlagsSameZones(a: seq<Win>, b: seq<Win>, lowered: set<int>)
    requires |a| == |b| && ZonesExcept(a, lowered)
    requires forall i :: 0 <= i < |a| ==> a[i].id == b[i].id && a[i].onTop == b[i].onTop
    ensures ZonesExcept(b, lowered)
  {
  }

  lemma EditKeepsLooks(f: State, c: Command)
    requires NeedsWindow(c) ==> Has(f.stack, c.window)
    requires !c.Destroy? && !(c.ChangeAltitude? && LegalAltitude(c.altitude))
    ensures var e := Edited(f, c).stack;
            |e| == |f.stack| && forall i :: 0 <= i < |e| ==> e[i].id == f.stack[i].id && e[i].onTop == f.stack[i].onTop
  {
  }

  lemma AltitudeLowers(lowered: set<int>, c: Command)
    requires c.ChangeAltitude? && LegalAltitude(c.altitude)
    ensures LoweredAfter(lowered, c.window, AltitudeOf(c.altitude)) == LoweredNow(lowered, c)
  {
  }

  lemma EditZones(f: State, c: Command, lowered: set<int>)
    requires NeedsWindow(c) ==> Has(f.stack, c.window)
    requires DistinctIds(f.stack) && ZonesExcept(f.stack, lowered)
    ensures ZonesExcept(Edited(f, c).stack, LoweredNow(lowered, c))
  {
    if c.ChangeAltitude? && LegalAltitude(c.altitude) {
      ChangeAltitudeZones(f.stack, c.window, AltitudeOf(c.altitude), c.fixed, lowered);
      AltitudeLowers(lowered, c);
    } else if c.Destroy? {
      WithoutZones(f.stack, c.window, lowered);
    } else {
      EditKeepsLooks(f, c);
      SameFlagsSameZones(f.stack, Edited(f, c).stack, lowered);
    }
  }

  lemma FoundZones(s: State, id: int, lowered: set<int>)
    requires ZonesExcept(s.stack, lowered)
    ensures ZonesExcept(Found(s, id).stack, lowered)
  {
    PushZones(s.stack, NewWindow(id), lowered);
  }

  lemma DispatchZones(s: State, c: Command, scr: Screen, lowered: set<int>)
    requires DistinctIds(s.stack) && ZonesExcept(s.stack, lowered)
    ensures ZonesExcept(Dispatched(s, c, scr).stack, LoweredNow(lowered, c))
  {
    var f := Prepared(s, c);
    if NeedsWindow(c) {
      FoundKeepsIds(s, c.window);
      FoundZones(s, c.window, lowered);
    }
    EditZones(f, c, lowered);
    SameFlagsSameZones(Edited(f, c).stack, Dispatched(s, c, scr).stack, LoweredNow(lowered, c));
  }

  lemma {:induction false} RunKeepsZones(cmds: seq<Command>, scr: Screen)
    ensures DistinctIds(Run(Start, cmds, scr).stack)
    ensures ZonesExcept(Run(Start, cmds, scr).stack, LoweredBy(cmds))
  {
    if cmds != [] {
      var before, c := cmds[..|cmds| - 1], cmds[|cmds| - 1];
      RunKeepsZones(before, scr);
      DispatchKeepsIds(Run(Start, before, scr), c, scr);
      DispatchZones(Run(Start, before, scr), c, scr, LoweredBy(before));
    }
  }

  // ---------- whole runs ----------

  /** Over every run without SetOpacity every visible area is exact after each command, and one more
      walk would change and say nothing. */
  lemma {:induction false} RunKeepsAreas(cmds: seq<Command>, scr: Screen)
    requires ValidScreen(scr)
    requires forall i :: 0 <= i < |cmds| ==> !cmds[i].SetOpacity?
    ensures AreasExact(Run(Start, cmds, scr).stack, scr)
    ensures UpToDate(Run(Start, cmds, scr).stack, scr)
    ensures AllEvents(Run(Start, cmds, scr).stack, None, scr) == []
  {
    if cmds != [] {
      RunKeepsAreas(cmds[..|cmds| - 1], scr);
      DispatchKeepsAreas(Run(Start, cmds[..|cmds| - 1], scr), cmds[|cmds| - 1], scr);
    }
    var s := Run(Start, cmds, scr);
    NoEventsWhenUnchanged(s.stack, Allocs(s.stack, scr), |s.stack|);
  }

  // ---------- acknowledgements ----------

  function SynchronousCount(cmds: seq<Command>): nat {
    if cmds == [] then 0
    else
      var before := SynchronousCount(cmds[..|cmds| - 1]);
      match cmds[|cmds| - 1]
      case Region(_, _, _, _) => before + 1
      case Repaint(_, _) => before + 1
      case Move(_, _, _, _) => before + 1
      case ChangeAltitude(_, _, _) => before + 1
      case _ => before
  }

  lemma {:induction false} PostsOfRegions(lock: Handle, n: nat, which: int)
    ensures Posts(PostedRegions(lock, n).ops, which) == Posts(lock.ops, which) + (if which == REGIONEVENT then n else 0)
    ensures PostedRegions(lock, n).count == lock.count
  {
    if n > 0 {
      PostsOfRegions(lock, n - 1, which);
      PostsOfAppend(PostedRegions(lock, n - 1).ops, SemOp(REGIONEVENT, 1), which);
    }
  }

  lemma PostsOfPainted(lock: Handle, paints: bool, which: int)
    requires which != BACKINGSTORE && lock.count[BACKINGSTORE] == 0
    ensures Posts(Painted(lock, paints).ops, which) == Posts(lock.ops, which)
    ensures Painted(lock, paints).count == lock.count
  {
    var l := Locked(lock, BACKINGSTORE);
    PostsOfAppend(lock.ops, SemOp(BACKINGSTORE, -1), which);
    PostsOfAppend(l.ops, SemOp(BACKINGSTORE, 1), which);
  }

  /** The server never holds what it posts, so no unlock is absorbed. */
  predicate Unnested(lock: Handle) {
    lock.count[0] == 0 && lock.count[1] == 0
  }

  predicate Acknowledged(s: State, synchronous: nat) {
    && Unnested(s.lock)
    && Posts(s.lock.ops, 2) == |s.out|
    && Posts(s.lock.ops, 1) == synchronous
  }

  lemma EditAcks(f: State, c: Command, n: nat)
    requires NeedsWindow(c) ==> Has(f.stack, c.window)
    requires Acknowledged(f, n)
    ensures Acknowledged(Edited(f, c), n)
  {
    if c.Region? || c.Move? {
      PostsOfPainted(f.lock, c.paints, REGIONEVENT);
      PostsOfPainted(f.lock, c.paints, COMMUNICATION);
    }
  }

  lemma WalkAcks(e: State, requester: Option<int>, scr: Screen, n: nat)
    requires Acknowledged(e, n)
    ensures Acknowledged(Walk(e, requester, scr), n)
  {
    var events := AllEvents(e.stack, requester, scr);
    PostsOfRegions(e.lock, |events|, REGIONEVENT);
    PostsOfRegions(e.lock, |events|, COMMUNICATION);
  }

  lemma DispatchAcks(s: State, c: Command, scr: Screen, n: nat)
    requires Acknowledged(s, n)
    ensures Acknowledged(Dispatched(s, c, scr), n + if Synchronous(c) then 1 else 0)
  {
    var f := Prepared(s, c);
    var e := Edited(f, c);
    EditAcks(f, c, n);
    WalkAcks(e, Requester(c), scr, n);
    var w := if Walks(f, c) then Walk(e, Requester(c), scr) else e;
    if c.Repaint? {
      PostsOfPainted(w.lock, c.paints, REGIONEVENT);
      PostsOfPainted(w.lock, c.paints, COMMUNICATION);
    }
    var h := Handled(s, c, scr);
    UnlockPosts(h.lock, COMMUNICATION, COMMUNICATION);
    UnlockPosts(h.lock, COMMUNICATION, REGIONEVENT);
  }

  /** Over every run: one REGIONEVENT post (semaphore 2) per region event sent, one COMMUNICATION post
      (semaphore 1) per synchronous command, those that break out early included. */
  lemma {:induction false} RunAcknowledges(cmds: seq<Command>, scr: Screen)
    ensures Acknowledged(Run(Start, cmds, scr), SynchronousCount(cmds))
  {
    if cmds != [] {
      RunAcknowledges(cmds[..|cmds| - 1], scr);
      DispatchAcks(Run(Start, cmds[..|cmds| - 1], scr), cmds[|cmds| - 1], scr, SynchronousCount(cmds[..|cmds| - 1]));
    }
  }
}
