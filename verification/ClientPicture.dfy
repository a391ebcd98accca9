/**
 Whether the client knows what the server shows (proxy/proxy.c, proxy/client.c): for each window the
 rect list the client heard last against visible_rects. The server remembers nothing of a destroyed
 window, the client may use its id again, and a walk says nothing about a window whose list is empty
 before and after; these are the runs in which the two come apart.
 */
module ClientPicture {
  import opened Wrappers
  import opened Rects
  import opened WindowStack
  import opened Regions
  import opened Session
  import opened SessionRuns

  ghost predicate Informed(s: State) {
    ClientInformed(s.stack, s.out)
  }

  /** A window allocated now, for an id the client still has rects for, is the one thing unknown. */
  lemma FoundInforms(s: State, id: int)
    requires Informed(s)
    ensures InformedBut(Found(s, id).stack, s.out,
              if Has(s.stack, id) || LastHeard(s.out, id) == [] then None else Some(id))
  {
    if !Has(s.stack, id) {
      var f, b := Found(s, id), Boundary(s.stack);
      PushedAtBoundary(s.stack, NewWindow(id));
      forall k | 0 <= k < |f.stack|
        ensures f.stack[k].visible == if f.stack[k].id == id then [] else LastHeard(s.out, f.stack[k].id)
      {
        if k != b {
          PushedAt(s.stack, NewWindow(id), if k < b then k else k - 1);
        }
      }
    }
  }

  // ---------- windows carried over ----------

  ghost predicate ShowsAsIn(w: Win, from: seq<Win>) {
    exists i :: 0 <= i < |from| && from[i].id == w.id && from[i].visible == w.visible
  }

  /** Windows carried over from another stack with what they show. */
  ghost predicate Carried(stack: seq<Win>, from: seq<Win>) {
    forall k :: 0 <= k < |stack| ==> ShowsAsIn(stack[k], from)
  }

  lemma CarriedWithout(stack: seq<Win>, id: int)
    ensures Carried(Without(stack, id), stack)
  {
    var s := Without(stack, id);
    forall k | 0 <= k < |s| ensures ShowsAsIn(s[k], stack) {
      assert s[k] == stack[if IndexOf(stack, id) < |stack| && IndexOf(stack, id) <= k then k + 1 else k];
    }
  }

  lemma CarriedByPermutation(stack: seq<Win>, marked: seq<Win>, from: seq<Win>)
    requires multiset(stack) == multiset(marked) && |marked| == |from|
    requires forall i :: 0 <= i < |marked| ==> from[i].id == marked[i].id && from[i].visible == marked[i].visible
    ensures Carried(stack, from)
  {
    forall k | 0 <= k < |stack| ensures ShowsAsIn(stack[k], from) {
      assert stack[k] in multiset(marked);
      var i :| 0 <= i < |marked| && marked[i] == stack[k];
      assert from[i].id == stack[k].id;
    }
  }

  lemma MarkKeepsShown(stack: seq<Win>, id: int, mark: bool) returns (marked: seq<Win>)
    requires Has(stack, id) && DistinctIds(stack)
    ensures marked == if mark then Update(stack, id, Find(stack, id).(onTop := true)) else stack
    ensures Has(marked, id) && DistinctIds(marked) && |marked| == |stack|
    ensures forall i :: 0 <= i < |marked| ==> stack[i].id == marked[i].id && stack[i].visible == marked[i].visible
  {
    var w := Find(stack, id).(onTop := true);
    UpdateKeepsIds(stack, id, w);
    marked := if mark then Update(stack, id, w) else stack;
  }

  lemma CarriedAltitude(stack: seq<Win>, id: int, altitude: Altitude, fixed: bool)
    requires Has(stack, id) && DistinctIds(stack)
    ensures Carried(WindowStack.ChangeAltitude(stack, id, altitude, fixed), stack)
  {
    var marked := MarkKeepsShown(stack, id, fixed && altitude.StaysOnTop?);
    RestackMovesOnlyIts(marked, id, altitude.Lower?);
    CarriedByPermutation(Restacked(marked, id, altitude.Lower?), marked, stack);
  }

  lemma CarriedInforms(stack: seq<Win>, from: seq<Win>, out: seq<Output>, except: Option<int>)
    requires Carried(stack, from) && InformedBut(from, out, except)
    ensures InformedBut(stack, out, except)
  {
    forall k | 0 <= k < |stack| && except != Some(stack[k].id)
      ensures LastHeard(out, stack[k].id) == stack[k].visible
    {
      assert ShowsAsIn(stack[k], from);
    }
  }

  // ---------- one command ----------

  /** The window of a command is the only one that may be unknown after the edit: it is if the walk will
      report it anyway, or if it was before and is not destroyed. */
  lemma EditInforms(f: State, c: Command, except: Option<int>)
    requires NeedsWindow(c) ==> Has(f.stack, c.window)
    requires except.Some? ==> NeedsWindow(c) && except == Some(c.window)
    requires DistinctIds(f.stack) && InformedBut(f.stack, f.out, except)
    ensures Edited(f, c).out == f.out
    ensures InformedBut(Edited(f, c).stack, f.out,
              if Walks(f, c) && Requester(c).Some? then Requester(c) else if c.Destroy? then None else except)
  {
    match c
    case Destroy(id) =>
      CarriedWithout(f.stack, id);
      CarriedInforms(Without(f.stack, id), f.stack, f.out, except);
      WithoutIsClean(f.stack, id);
      assert forall k :: 0 <= k < |Without(f.stack, id)| ==> Without(f.stack, id)[k].id != id;
    case ChangeAltitude(id, altitude, fixed) =>
      if LegalAltitude(altitude) {
        CarriedAltitude(f.stack, id, AltitudeOf(altitude), fixed);
        CarriedInforms(Edited(f, c).stack, f.stack, f.out, except);
      }
    case _ =>
  }

  /** When a command leaves the client informed: its window was on the stack already, or the client has
      no rects for the id, or the window goes, or the walk reports it by force. */
  predicate StaysInformed(s: State, c: Command) {
    || !NeedsWindow(c)
    || Has(s.stack, c.window)
    || LastHeard(s.out, c.window) == []
    || c.Destroy?
    || (c.Region? && (c.rects == [] || c.keyOk))
    || (c.ChangeAltitude? && -1 <= c.altitude <= 1)
  }

  lemma DispatchInforms(s: State, c: Command, scr: Screen)
    requires DistinctIds(s.stack) && Informed(s) && StaysInformed(s, c)
    ensures Informed(Dispatched(s, c, scr))
  {
    var f := Prepared(s, c);
    var except: Option<int> := None;
    if NeedsWindow(c) {
      FoundKeepsIds(s, c.window);
      FoundInforms(s, c.window);
      except := if Has(s.stack, c.window) || LastHeard(s.out, c.window) == [] then None else Some(c.window);
    }
    EditInforms(f, c, except);
    EditKeepsIds(f, c);
    if Walks(f, c) {
      WalkInforms(Edited(f, c).stack, Requester(c), scr, f.out);
    }
  }

  /** Otherwise the new window shows nothing, no event says so, and the client keeps its old rects. */
  lemma DispatchLeavesStale(s: State, c: Command, scr: Screen)
    requires DistinctIds(s.stack) && Informed(s) && !StaysInformed(s, c)
    ensures !Informed(Dispatched(s, c, scr))
  {
    var f := Found(s, c.window);
    var t := Dispatched(s, c, scr);
    var e := Edited(f, c);
    var i := IndexOf(f.stack, c.window);
    NewIsEmpty(s, c.window);
    FoundKeepsIds(s, c.window);
    EditKeepsNewEmpty(f, c, i);
    if c.Repaint? {
      EmptyAllocation(e.stack, i, scr);
      LastHeardAfterEvents(e.stack, Allocs(e.stack, scr), |e.stack|, i, None, e.out);
    }
    assert t.stack[i].id == c.window && t.stack[i].visible == [];
    assert LastHeard(t.out, c.window) == LastHeard(s.out, c.window);
  }

  lemma NewIsEmpty(s: State, id: int)
    requires !Has(s.stack, id)
    ensures var f := Found(s, id).stack; f[IndexOf(f, id)] == NewWindow(id)
  {
    PushedAtBoundary(s.stack, NewWindow(id));
    var f := Found(s, id).stack;
    var k, b := IndexOf(f, id), Boundary(s.stack);
    if k < b {
      PushedAt(s.stack, NewWindow(id), k);
    }
  }

  lemma EmptyAllocation(stack: seq<Win>, i: nat, scr: Screen)
    requires i < |stack| && stack[i].request == []
    ensures AllocAt(stack, i, scr) == []
  {
  }

  /** A command that neither destroys its new window nor walks for it leaves the window empty. */
  lemma EditKeepsNewEmpty(f: State, c: Command, i: nat)
    requires NeedsWindow(c) && Has(f.stack, c.window) && DistinctIds(f.stack)
    requires i == IndexOf(f.stack, c.window) && f.stack[i] == NewWindow(c.window)
    requires !c.Destroy? && !(Walks(f, c) && Requester(c).Some?)
    ensures var e := Edited(f, c);
            && |e.stack| == |f.stack| && e.out == f.out && DistinctIds(e.stack)
            && e.stack[i].id == c.window && e.stack[i].request == [] && e.stack[i].visible == []
    ensures Walks(f, c) ==> c.Repaint?
  {
    EditKeepsIds(f, c);
  }

  /** From an informed state, and exactly then. */
  lemma DispatchKeepsInformedIff(s: State, c: Command, scr: Screen)
    requires DistinctIds(s.stack) && Informed(s)
    ensures Informed(Dispatched(s, c, scr)) <==> StaysInformed(s, c)
  {
    if StaysInformed(s, c) {
      DispatchInforms(s, c, scr);
    } else {
      DispatchLeavesStale(s, c, scr);
    }
  }

  // ---------- whole runs ----------

  ghost predicate AlwaysInformed(cmds: seq<Command>, scr: Screen) {
    forall n :: 0 <= n <= |cmds| ==> Informed(Run(Start, cmds[..n], scr))
  }

  /** Every command of the run meets the condition in the state it finds. */
  ghost predicate NoneStale(cmds: seq<Command>, scr: Screen) {
    forall n :: 0 <= n < |cmds| ==> StaysInformed(Run(Start, cmds[..n], scr), cmds[n])
  }

  lemma RunStep(cmds: seq<Command>, n: nat, scr: Screen)
    requires n < |cmds|
    ensures Run(Start, cmds[..n + 1], scr) == Dispatched(Run(Start, cmds[..n], scr), cmds[n], scr)
    ensures DistinctIds(Run(Start, cmds[..n], scr).stack)
  {
    assert cmds[..n + 1][..n] == cmds[..n];
    RunKeepsZones(cmds[..n], scr);
  }

  lemma {:induction false} InformedSoFar(cmds: seq<Command>, n: nat, scr: Screen)
    requires n <= |cmds| && NoneStale(cmds, scr)
    ensures Informed(Run(Start, cmds[..n], scr))
  {
    if n > 0 {
      InformedSoFar(cmds, n - 1, scr);
      RunStep(cmds, n - 1, scr);
      DispatchKeepsInformedIff(Run(Start, cmds[..n - 1], scr), cmds[n - 1], scr);
    }
  }

  /** Over every run, opacity changes and hiding included: the client is informed after every command
      exactly when every command meets the condition. */
  lemma RunKeepsInformedIff(cmds: seq<Command>, scr: Screen)
    ensures AlwaysInformed(cmds, scr) <==> NoneStale(cmds, scr)
  {
    if NoneStale(cmds, scr) {
      forall n | 0 <= n <= |cmds| ensures Informed(Run(Start, cmds[..n], scr)) {
        InformedSoFar(cmds, n, scr);
      }
    } else {
      var n :| 0 <= n < |cmds| && !StaysInformed(Run(Start, cmds[..n], scr), cmds[n]);
      RunStep(cmds, n, scr);
      if Informed(Run(Start, cmds[..n], scr)) {
        DispatchKeepsInformedIff(Run(Start, cmds[..n], scr), cmds[n], scr);
        assert !Informed(Run(Start, cmds[..n + 1], scr));
      }
    }
  }

  // ---------- a run that goes stale ----------

  lemma OneRectStaysOne(r: Rect, scr: Screen)
    ensures |Alloc([r], [], scr)| == 1
  {
    assert [r][..0] == [] && [[r][0]] == [r];
    assert SubtractEach([r], []) == SubtractEach([], []) + Subtract([r], []);
  }

  lemma FirstRegionIsHeard(r: Rect, scr: Screen) returns (s: State)
    ensures s == Run(Start, [Region(1, [r], true, false)], scr)
    ensures |s.stack| == 1 && s.stack[0].id == 1 && LastHeard(s.out, 1) != []
  {
    var c := Region(1, [r], true, false);
    s := OneWindow([r], scr);
    RunMore(Start, [], c, scr);
    RegionWalks(Start, 1, [r], scr);
    DispatchInforms(Start, c, scr);
    var e := Edited(Prepared(Start, c), c).stack;
    RegionEditsNewWindow(Start, 1, [r]);
    assert s.stack[0].visible == AllocAt(e, 0, scr);
    assert e[0].request == [r] && Blocking(e, 0, scr) == [];
    OneRectStaysOne(r, scr);
  }

  /** An id used again after its window was destroyed: the name command allocates the window, sends
      nothing, and the client still holds the rects of the old one. */
  lemma ReusedIdGoesStale(r: Rect, scr: Screen)
    ensures var cmds := [Region(1, [r], true, false), Destroy(1), RegionName(1)];
            && Informed(Run(Start, cmds[..2], scr))
            && !Informed(Run(Start, cmds, scr))
  {
    var s1 := FirstRegionIsHeard(r, scr);
    var s2 := Dispatched(s1, Destroy(1), scr);
    var cmds := [Region(1, [r], true, false), Destroy(1), RegionName(1)];
    RunMore(Start, [Region(1, [r], true, false)], Destroy(1), scr);
    RunMore(Start, [Region(1, [r], true, false), Destroy(1)], RegionName(1), scr);
    assert cmds[..2] == [Region(1, [r], true, false), Destroy(1)];
    OnlyWindowDestroyed(s1, scr);
    DispatchLeavesStale(s2, RegionName(1), scr);
  }

  lemma OnlyWindowDestroyed(s: State, scr: Screen)
    requires |s.stack| == 1 && s.stack[0].id == 1
    ensures Dispatched(s, Destroy(1), scr).stack == [] && Dispatched(s, Destroy(1), scr).out == s.out
  {
    assert IndexOf(s.stack, 1) == 0 && Found(s, 1) == s;
    assert Without(s.stack, 1) == [];
    assert s.out + [] == s.out;
  }

  // ---------- ids used once ----------

  lemma {:induction false} EventsOfOthers(stack: seq<Win>, allocs: seq<seq<Rect>>, k: nat, requester: Option<int>,
                                          out: seq<Output>, id: int)
    requires k <= |stack| == |allocs| && !Has(stack, id)
    ensures LastHeard(out + Events(stack, allocs, k, requester), id) == LastHeard(out, id)
  {
    if k == 0 {
      assert out + [] == out;
    } else {
      EventsOfOthers(stack, allocs, k - 1, requester, out, id);
      LastHeardStep(stack, allocs, k, requester, out, id);
    }
  }

  lemma EditKeepsWindow(f: State, c: Command, id: int)
    requires NeedsWindow(c) ==> Has(f.stack, c.window)
    requires DistinctIds(f.stack) && Has(f.stack, id) && c != Destroy(id)
    ensures Has(Edited(f, c).stack, id)
  {
    match c
    case Destroy(other) => WithoutIsClean(f.stack, other);
    case ChangeAltitude(w, altitude, fixed) =>
      if LegalAltitude(altitude) {
        var marked := MarkKeepsShown(f.stack, w, fixed && AltitudeOf(altitude).StaysOnTop?);
        assert Has(marked, id) by {
          var i :| 0 <= i < |f.stack| && f.stack[i].id == id;
          assert marked[i].id == id;
        }
        RestackKeepsIds(marked, w, AltitudeOf(altitude).Lower?);
      }
    case Region(w, rects, _, _) =>
      var e := Edited(f, c).stack;
      var i :| 0 <= i < |f.stack| && f.stack[i].id == id;
      assert e[i].id == id;
    case _ =>
      var e := Edited(f, c).stack;
      var i :| 0 <= i < |f.stack| && f.stack[i].id == id;
      assert e[i].id == id;
  }

  lemma FoundKeepsWindow(s: State, id: int, other: int)
    requires Has(s.stack, other)
    ensures Has(Found(s, id).stack, other)
  {
    if !Has(s.stack, id) {
      var i :| 0 <= i < |s.stack| && s.stack[i].id == other;
      PushedAt(s.stack, NewWindow(id), i);
    }
  }

  /** The client keeps rects for an id that is not listed only from a destroyed window. */
  lemma HeardThenGone(s: State, c: Command, scr: Screen, id: int)
    requires DistinctIds(s.stack) && c != Destroy(id)
    requires LastHeard(s.out, id) == [] || Has(s.stack, id)
    ensures var t := Dispatched(s, c, scr); LastHeard(t.out, id) == [] || Has(t.stack, id)
  {
    var f, t := Prepared(s, c), Dispatched(s, c, scr);
    if NeedsWindow(c) {
      FoundKeepsIds(s, c.window);
    }
    var e := Edited(f, c);
    if Has(e.stack, id) {
      var i :| 0 <= i < |e.stack| && e.stack[i].id == id;
      assert t.stack[i].id == id;
    } else {
      if Has(f.stack, id) {
        EditKeepsWindow(f, c, id);
      }
      if Has(s.stack, id) && NeedsWindow(c) {
        FoundKeepsWindow(s, c.window, id);
      }
      EventsOfOthers(e.stack, Allocs(e.stack, scr), |e.stack|, Requester(c), e.out, id);
    }
  }

  /** No command names a window after the command that destroyed it. */
  predicate IdsUsedOnce(cmds: seq<Command>) {
    forall i, j :: 0 <= i < j < |cmds| && cmds[i].Destroy? && NeedsWindow(cmds[j]) ==> cmds[j].window != cmds[i].window
  }

  lemma {:induction false} UnlistedIsUnheard(cmds: seq<Command>, scr: Screen, id: int)
    requires forall i :: 0 <= i < |cmds| ==> cmds[i] != Destroy(id)
    ensures var s := Run(Start, cmds, scr); LastHeard(s.out, id) == [] || Has(s.stack, id)
  {
    if cmds != [] {
      var before := cmds[..|cmds| - 1];
      UnlistedIsUnheard(before, scr, id);
      RunKeepsZones(before, scr);
      HeardThenGone(Run(Start, before, scr), cmds[|cmds| - 1], scr, id);
    }
  }

  /** A client that never uses an id again is informed after every command of every run. */
  lemma IdsUsedOnceStayInformed(cmds: seq<Command>, scr: Screen)
    requires IdsUsedOnce(cmds)
    ensures AlwaysInformed(cmds, scr)
  {
    forall n | 0 <= n < |cmds| ensures StaysInformed(Run(Start, cmds[..n], scr), cmds[n]) {
      if NeedsWindow(cmds[n]) {
        UnlistedIsUnheard(cmds[..n], scr, cmds[n].window);
      }
    }
    RunKeepsInformedIff(cmds, scr);
  }
}
