/**
 One client's session with the server as a value (proxy/proxy.c, qwswl_dispatch_command): the window
 stack, what was written so far, and the server's handle on the client's lock. A command edits the
 stack, may run the region walk, and is acknowledged if it is synchronous. Dispatcher.dfy does
 the same in place on objects and is proved against Dispatched.
 */
module Session {
  import opened Wrappers
  import opened Rects
  import opened WindowStack
  import opened Regions
  import opened Sequences
  import opened QwsLock

  /** keyOk: the surface key decodes. paints: the surface update gets past its early returns, so the
      backing store is locked for a blit. Other: a command that touches neither windows nor lock. */
  datatype Command =
    | Region(window: int, rects: seq<Rect>, keyOk: bool, paints: bool)
    | RegionName(window: int)
    | Repaint(window: int, paints: bool)
    | Move(window: int, dx: int, dy: int, paints: bool)
    | Destroy(window: int)
    | ChangeAltitude(window: int, altitude: int, fixed: bool)
    | RequestFocus(window: int)
    | SetOpacity(window: int, opacity: Opacity)
    | Other

  datatype State = State(stack: seq<Win>, out: seq<Output>, lock: Handle)

  const Start := State([], [], Handle([0, 0, 0], []))

  function NewWindow(id: int): Win { Win(id, false, 255, [], []) }

  predicate Synchronous(c: Command) {
    c.ChangeAltitude? || c.Region? || c.Repaint? || c.Move?
  }

  function AltitudeOf(altitude: int): Altitude
    requires -1 <= altitude <= 1
  {
    if altitude == -1 then Lower else if altitude == 0 then Raise else StaysOnTop
  }

  function Find(stack: seq<Win>, id: int): (w: Win)
    requires Has(stack, id)
    ensures w.id == id
  {
    stack[IndexOf(stack, id)]
  }

  /** Find a window, allocating it behind the on-top zone when the id is new. */
  function Found(s: State, id: int): (f: State)
    ensures Has(f.stack, id)
  {
    if Has(s.stack, id) then s
    else
      var stack := Push(s.stack, NewWindow(id));
      assert stack[Boundary(s.stack)].id == id;
      s.(stack := stack)
  }

  /** The state in which a command finds its window. */
  function Prepared(s: State, c: Command): (f: State)
    ensures NeedsWindow(c) ==> Has(f.stack, c.window)
  {
    if NeedsWindow(c) then Found(s, c.window) else s
  }

  /** The lock handle around a blit. */
  function Painted(lock: Handle, paints: bool): Handle {
    if paints then Unlocked(Locked(lock, BACKINGSTORE), BACKINGSTORE) else lock
  }

  /** n region events posted. */
  function PostedRegions(lock: Handle, n: nat): Handle {
    if n == 0 then lock else Unlocked(PostedRegions(lock, n - 1), REGIONEVENT)
  }

  function Walk(s: State, requester: Option<int>, scr: Screen): State {
    var events := AllEvents(s.stack, requester, scr);
    State(Walked(s.stack, scr), s.out + events, PostedRegions(s.lock, |events|))
  }

  /** The walk's effect on the window at position i, given the blocking list there. */
  function Visited(s: State, i: nat, blocking: seq<Rect>, requester: Option<int>, scr: Screen): State
    requires i < |s.stack|
  {
    var w := s.stack[i];
    var alloc := Alloc(w.request, blocking, scr);
    var stack := s.stack[i := w.(visible := alloc)];
    if Emits(w, alloc, requester) then State(stack, s.out + [RegionEvent(w.id, alloc)], Unlocked(s.lock, REGIONEVENT))
    else s.(stack := stack)
  }

  /** The blocking list after that visit. */
  function Blocked(s: State, i: nat, blocking: seq<Rect>, scr: Screen): seq<Rect>
    requires i < |s.stack|
  {
    blocking + (if Opaque(s.stack[i]) then Alloc(s.stack[i].request, blocking, scr) else [])
  }

  /** The state when the walk reaches position i. */
  function WalkTo(s: State, i: nat, requester: Option<int>, scr: Screen): State
    requires i <= |s.stack|
  {
    var events := Events(s.stack, Allocs(s.stack, scr), i, requester);
    State(Walked(s.stack, scr)[..i] + s.stack[i..], s.out + events, PostedRegions(s.lock, |events|))
  }

  lemma EventsGrow(stack: seq<Win>, allocs: seq<seq<Rect>>, i: nat, requester: Option<int>)
    requires i < |stack| == |allocs|
    ensures var before, after := Events(stack, allocs, i, requester), Events(stack, allocs, i + 1, requester);
            var e := RegionEvent(stack[i].id, allocs[i]);
            after == if Emits(stack[i], allocs[i], requester) then before + [e] else before
  {
    var before := Events(stack, allocs, i, requester);
    assert before + [] == before;
  }

  lemma PostedOneMore(lock: Handle, before: seq<Output>, e: Output)
    ensures PostedRegions(lock, |before + [e]|) == Unlocked(PostedRegions(lock, |before|), REGIONEVENT)
  {
  }

  /** The events and posts of one more window. */
  lemma EventsMoveOn(s: State, i: nat, requester: Option<int>, scr: Screen)
    requires i < |s.stack|
    ensures var allocs := Allocs(s.stack, scr);
            var before, after := Events(s.stack, allocs, i, requester), Events(s.stack, allocs, i + 1, requester);
            if Emits(s.stack[i], allocs[i], requester) then
              && s.out + after == (s.out + before) + [RegionEvent(s.stack[i].id, allocs[i])]
              && PostedRegions(s.lock, |after|) == Unlocked(PostedRegions(s.lock, |before|), REGIONEVENT)
            else after == before
  {
    var allocs := Allocs(s.stack, scr);
    var before, e := Events(s.stack, allocs, i, requester), RegionEvent(s.stack[i].id, allocs[i]);
    EventsGrow(s.stack, allocs, i, requester);
    Regrouped(s.out, before, [e]);
    PostedOneMore(s.lock, before, e);
  }

  lemma VisitIsOneStep(s: State, i: nat, requester: Option<int>, scr: Screen)
    requires i < |s.stack|
    ensures |WalkTo(s, i, requester, scr).stack| == |s.stack| && WalkTo(s, i, requester, scr).stack[i] == s.stack[i]
    ensures WalkTo(s, i + 1, requester, scr) ==
            Visited(WalkTo(s, i, requester, scr), i, Blocking(s.stack, i, scr), requester, scr)
  {
    assert Allocs(s.stack, scr)[i] == AllocAt(s.stack, i, scr);
    OneMoreNew(Walked(s.stack, scr), s.stack, i);
    EventsMoveOn(s, i, requester, scr);
  }

  lemma WalkToTheEnd(s: State, requester: Option<int>, scr: Screen)
    ensures WalkTo(s, 0, requester, scr) == s
    ensures WalkTo(s, |s.stack|, requester, scr) == Walk(s, requester, scr)
  {
    assert Walked(s.stack, scr)[..|s.stack|] + s.stack[|s.stack|..] == Walked(s.stack, scr);
    assert Walked(s.stack, scr)[..0] + s.stack[0..] == s.stack;
  }

  /** t and the blocking list are where the walk from s stands at position i. The quantifier only keeps
      proofs that merely pass it on from unfolding WalkTo and Blocking. */
  ghost predicate Stands(t: State, blocking: seq<Rect>, s: State, i: nat, requester: Option<int>, scr: Screen) {
    && i <= |s.stack|
    && forall n: nat :: n == i ==> t == WalkTo(s, n, requester, scr) && blocking == Blocking(s.stack, n, scr)
  }

  /** The walk is a chain of visits: it starts in s with nothing blocked, each visit takes it one position
      on, and at the end it has made the whole walk. */
  lemma WalkStarts(s: State, requester: Option<int>, scr: Screen)
    ensures Stands(s, [], s, 0, requester, scr)
  {
    WalkToTheEnd(s, requester, scr);
  }

  lemma WalkMovesOn(t: State, blocking: seq<Rect>, s: State, i: nat, requester: Option<int>, scr: Screen)
    requires i < |s.stack| && Stands(t, blocking, s, i, requester, scr)
    ensures |t.stack| == |s.stack|
    ensures Stands(Visited(t, i, blocking, requester, scr), Blocked(t, i, blocking, scr), s, i + 1, requester, scr)
  {
    assert t == WalkTo(s, i, requester, scr) && blocking == Blocking(s.stack, i, scr);
    VisitIsOneStep(s, i, requester, scr);
  }

  lemma WalkEnds(t: State, blocking: seq<Rect>, s: State, requester: Option<int>, scr: Screen)
    requires Stands(t, blocking, s, |s.stack|, requester, scr)
    ensures t == Walk(s, requester, scr)
  {
    assert t == WalkTo(s, |s.stack|, requester, scr);
    WalkToTheEnd(s, requester, scr);
  }

  predicate NeedsWindow(c: Command) { !c.Other? }

  predicate LegalAltitude(altitude: int) { -1 <= altitude <= 1 }

  function Requester(c: Command): Option<int> {
    if c.Region? || c.ChangeAltitude? then Some(c.window) else None
  }

  /** Does the command run the walk? f is the state with the window found. */
  predicate Walks(f: State, c: Command)
    requires NeedsWindow(c) ==> Has(f.stack, c.window)
  {
    match c
    case Region(_, rects, keyOk, _) => rects == [] || keyOk
    case Move(id, _, _, _) => Find(f.stack, id).request != []
    case ChangeAltitude(_, altitude, _) => LegalAltitude(altitude)
    case Repaint(_, _) => true
    case Destroy(_) => true
    case _ => false
  }

  /** What the command does to the stack before any walk. */
  function Edited(f: State, c: Command): State
    requires NeedsWindow(c) ==> Has(f.stack, c.window)
  {
    match c
    case Region(id, rects, keyOk, paints) =>
      var w := Find(f.stack, id);
      if rects == [] then f.(stack := Update(f.stack, id, w.(request := [], visible := [])))
      else if keyOk then
        f.(stack := Update(f.stack, id, w.(request := rects)), lock := Painted(f.lock, paints))
      else f
    case Move(id, dx, dy, paints) =>
      var w := Find(f.stack, id);
      if w.request == [] then f
      else
        f.(stack := Update(f.stack, id, w.(request := Translated(w.request, dx, dy))), lock := Painted(f.lock, paints))
    case Destroy(id) => f.(stack := Without(f.stack, id))
    case ChangeAltitude(id, altitude, fixed) =>
      if LegalAltitude(altitude) then
        f.(stack := WindowStack.ChangeAltitude(f.stack, id, AltitudeOf(altitude), fixed))
      else f
    case SetOpacity(id, opacity) => f.(stack := Update(f.stack, id, Find(f.stack, id).(opacity := opacity)))
    case _ => f
  }

  function Handled(s: State, c: Command, scr: Screen): State {
    var f := Prepared(s, c);
    var e := Edited(f, c);
    var w := if Walks(f, c) then Walk(e, Requester(c), scr) else e;
    if c.Repaint? then w.(lock := Painted(w.lock, c.paints)) else w
  }

  function Dispatched(s: State, c: Command, scr: Screen): State {
    var h := Handled(s, c, scr);
    if Synchronous(c) then h.(lock := Unlocked(h.lock, COMMUNICATION)) else h
  }

  function Run(s: State, cmds: seq<Command>, scr: Screen): State {
    if cmds == [] then s else Dispatched(Run(s, cmds[..|cmds| - 1], scr), cmds[|cmds| - 1], scr)
  }

  // ---------- ids ----------

  lemma FoundKeepsIds(s: State, id: int)
    requires DistinctIds(s.stack)
    ensures DistinctIds(Found(s, id).stack)
  {
    if !Has(s.stack, id) {
      InsertKeeps(s.stack, Boundary(s.stack), NewWindow(id));
    }
  }

  lemma ChangeAltitudeKeepsIds(stack: seq<Win>, id: int, altitude: Altitude, fixed: bool)
    requires Has(stack, id) && DistinctIds(stack)
    ensures DistinctIds(WindowStack.ChangeAltitude(stack, id, altitude, fixed))
  {
    var w := Find(stack, id).(onTop := true);
    UpdateKeepsIds(stack, id, w);
    RestackKeepsIds(stack, id, altitude.Lower?);
    RestackKeepsIds(Update(stack, id, w), id, altitude.Lower?);
  }

  lemma EditKeepsIds(f: State, c: Command)
    requires NeedsWindow(c) ==> Has(f.stack, c.window)
    requires DistinctIds(f.stack)
    ensures DistinctIds(Edited(f, c).stack)
  {
    match c
    case Region(id, rects, _, _) =>
      UpdateKeepsIds(f.stack, id, Find(f.stack, id).(request := rects));
      UpdateKeepsIds(f.stack, id, Find(f.stack, id).(request := [], visible := []));
    case Move(id, dx, dy, _) =>
      UpdateKeepsIds(f.stack, id, Find(f.stack, id).(request := Translated(Find(f.stack, id).request, dx, dy)));
    case Destroy(id) => WithoutIsClean(f.stack, id);
    case ChangeAltitude(id, altitude, fixed) =>
      if LegalAltitude(altitude) { ChangeAltitudeKeepsIds(f.stack, id, AltitudeOf(altitude), fixed); }
    case SetOpacity(id, opacity) => UpdateKeepsIds(f.stack, id, Find(f.stack, id).(opacity := opacity));
    case _ =>
  }

  lemma DispatchKeepsIds(s: State, c: Command, scr: Screen)
    requires DistinctIds(s.stack)
    ensures DistinctIds(Dispatched(s, c, scr).stack)
  {
    var f := Prepared(s, c);
    if NeedsWindow(c) { FoundKeepsIds(s, c.window); }
    EditKeepsIds(f, c);
  }
}
