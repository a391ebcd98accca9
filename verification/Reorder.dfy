/**
 The loops that force the compositor's order to match the logical stack (proxy/client.c,
 qwswl_reorder_subsurfaces and qwswl_reorder_toplevels).

 The compositor is an order of surfaces, bottom first. A place_above request takes effect at once
 here; the protocol applies it at the parent's next commit.
 */
module Reorder {
  import opened Sequences
  import opened Wrappers

  type Surface = int

  const WINDOW_MAX_CHILDREN := 128

  /** What the loops read of a window on the stack: the window itself, its surface, its parent, and
      whether it is a subsurface or has a Qt shell surface. */
  datatype Entry = Entry(window: int, surface: Surface, parent: Option<int>, subsurface: bool, shell: bool)

  // ---------- orders ----------

  predicate Distinct(s: seq<Surface>) {
    forall i, j :: 0 <= i < j < |s| ==> s[i] != s[j]
  }

  function Without(order: seq<Surface>, gone: set<Surface>): seq<Surface> {
    if order == [] then []
    else (if order[0] in gone then [] else [order[0]]) + Without(order[1..], gone)
  }

  function Reversed(s: seq<Surface>): seq<Surface> {
    if s == [] then [] else Reversed(s[1..]) + [s[0]]
  }

  function Members(s: seq<Surface>): set<Surface> {
    set x | x in s
  }

  function PlaceOf(order: seq<Surface>, s: Surface): (k: nat)
    requires s in order
    ensures k < |order| && order[k] == s && s !in order[..k]
  {
    if order[0] == s then 0 else
      var k := PlaceOf(order[1..], s);
      assert order[..k + 1] == [order[0]] + order[1..][..k];
      k + 1
  }

  /** wl_subsurface.place_above: sub leaves its place and comes to lie just above sibling. */
  function PlacedAbove(order: seq<Surface>, sub: Surface, sibling: Surface): seq<Surface>
    requires sibling in Without(order, {sub})
  {
    var rest := Without(order, {sub});
    var k := PlaceOf(rest, sibling);
    rest[..k + 1] + [sub] + rest[k + 1..]
  }

  /** zqt_shell_surface_v1.raise: s comes to lie on top of everything. */
  function RaisedToTop(order: seq<Surface>, s: Surface): seq<Surface> {
    Without(order, {s}) + [s]
  }

  lemma {:induction false} WithoutConcat(a: seq<Surface>, b: seq<Surface>, gone: set<Surface>)
    ensures Without(a + b, gone) == Without(a, gone) + Without(b, gone)
  {
    if a == [] {
      assert a + b == b;
    } else {
      assert (a + b)[1..] == a[1..] + b;
      WithoutConcat(a[1..], b, gone);
    }
  }

  lemma WithoutParts(a: seq<Surface>, b: seq<Surface>, c: seq<Surface>, gone: set<Surface>)
    ensures Without(a + b + c, gone) == Without(a, gone) + Without(b, gone) + Without(c, gone)
  {
    WithoutConcat(a + b, c, gone);
    WithoutConcat(a, b, gone);
  }

  lemma {:induction false} WithoutTwice(order: seq<Surface>, a: set<Surface>, b: set<Surface>)
    ensures Without(Without(order, a), b) == Without(order, a + b)
  {
    if order != [] {
      WithoutConcat(if order[0] in a then [] else [order[0]], Without(order[1..], a), b);
      WithoutTwice(order[1..], a, b);
    }
  }

  lemma {:induction false} WithoutMembers(order: seq<Surface>, gone: set<Surface>, x: Surface)
    ensures x in Without(order, gone) <==> x in order && x !in gone
  {
    if order != [] {
      WithoutMembers(order[1..], gone, x);
      assert order == [order[0]] + order[1..];
    }
  }

  lemma {:induction false} WithoutNothing(order: seq<Surface>, gone: set<Surface>)
    requires forall x :: x in order ==> x !in gone
    ensures Without(order, gone) == order
  {
    if order != [] {
      var first := order[0];
      assert first in order && first !in gone;
      WithoutNothing(order[1..], gone);
      assert Without(order, gone) == [order[0]] + order[1..];
    }
  }

  lemma {:induction false} ReversedMembers(s: seq<Surface>, x: Surface)
    ensures x in Reversed(s) <==> x in s
  {
    if s != [] {
      ReversedMembers(s[1..], x);
      assert s == [s[0]] + s[1..];
    }
  }

  lemma {:induction false} PlaceIsUnique(left: seq<Surface>, s: Surface, right: seq<Surface>)
    requires s !in left
    ensures s in left + [s] + right
    ensures PlaceOf(left + [s] + right, s) == |left|
  {
    var all := left + [s] + right;
    assert all[|left|] == s;
    if left != [] {
      assert all[0] == left[0] && all[1..] == left[1..] + [s] + right;
      PlaceIsUnique(left[1..], s, right);
    }
  }

  lemma PlacedBetween(order: seq<Surface>, sub: Surface, left: seq<Surface>, sibling: Surface, right: seq<Surface>)
    requires Without(order, {sub}) == left + [sibling] + right && sibling !in left
    ensures sibling in Without(order, {sub})
    ensures PlacedAbove(order, sub, sibling) == left + [sibling] + [sub] + right
  {
    PlaceIsUnique(left, sibling, right);
    var rest := left + [sibling] + right;
    assert rest[..|left| + 1] == left + [sibling] && rest[|left| + 1..] == right;
  }

  // ---------- what the loops collect ----------

  predicate IsChild(e: Entry, parent: int) {
    e.parent == Some(parent) && e.subsurface
  }

  /** The children's surfaces in stack order, topmost first. */
  function Children(stack: seq<Entry>, parent: int): seq<Surface> {
    if stack == [] then []
    else
      var e := stack[|stack| - 1];
      Children(stack[..|stack| - 1], parent) + (if IsChild(e, parent) then [e.surface] else [])
  }

  function Toplevels(stack: seq<Entry>): seq<Surface> {
    if stack == [] then []
    else
      var e := stack[|stack| - 1];
      Toplevels(stack[..|stack| - 1]) + (if e.shell then [e.surface] else [])
  }

  /** The surfaces of the entries at these positions of the stack, topmost first. */
  predicate Lists(stack: seq<Entry>, at: seq<nat>, surfaces: seq<Surface>) {
    && |at| == |surfaces|
    && (forall k :: 0 <= k < |at| ==> at[k] < |stack| && surfaces[k] == stack[at[k]].surface)
    && (forall k, l :: 0 <= k < l < |at| ==> at[k] < at[l])
  }

  /** The same, for exactly the wanted entries among the first n. */
  ghost predicate Collects(stack: seq<Entry>, wanted: Entry -> bool, n: nat, at: seq<nat>, surfaces: seq<Surface>) {
    && n <= |stack| && Lists(stack, at, surfaces)
    && (forall k :: 0 <= k < |at| ==> at[k] < n)
    && (forall j :: 0 <= j < n ==> (j in at <==> wanted(stack[j])))
  }

  lemma CollectsMore(stack: seq<Entry>, wanted: Entry -> bool, n: nat, at: seq<nat>, surfaces: seq<Surface>)
    requires Collects(stack, wanted, n, at, surfaces) && n < |stack|
    ensures if wanted(stack[n]) then Collects(stack, wanted, n + 1, at + [n], surfaces + [stack[n].surface])
            else Collects(stack, wanted, n + 1, at, surfaces)
  {
  }

  // ---------- what a replay comes to ----------

  predicate Precedes(order: seq<Surface>, x: Surface, y: Surface) {
    exists i, j :: 0 <= i < j < |order| && order[i] == x && order[j] == y
  }

  /** The surfaces lie just above position base, the first of them topmost, and nowhere else. */
  predicate LieAbove(order: seq<Surface>, base: int, surfaces: seq<Surface>) {
    && -1 <= base && base + |surfaces| < |order|
    && (forall i :: 0 <= i < |surfaces| ==> order[base + |surfaces| - i] == surfaces[i])
    && (forall q :: 0 <= q < |order| && order[q] in surfaces ==> base < q <= base + |surfaces|)
  }

  /** All others are still there, in their order. */
  ghost predicate OthersKept(before: seq<Surface>, after: seq<Surface>, surfaces: seq<Surface>) {
    && (forall x :: x in after <==> x in before || x in surfaces)
    && (forall x, y :: x !in surfaces && y !in surfaces ==> (Precedes(before, x, y) <==> Precedes(after, x, y)))
  }

  lemma {:induction false} ReversedAt(s: seq<Surface>, i: nat)
    requires i < |s|
    ensures |Reversed(s)| == |s| && Reversed(s)[|s| - 1 - i] == s[i]
  {
    if i > 0 {
      ReversedAt(s[1..], i - 1);
    } else if |s| > 1 {
      ReversedAt(s[1..], 0);
    }
  }

  lemma PrecedesCons(x0: Surface, rest: seq<Surface>, x: Surface, y: Surface)
    ensures Precedes([x0] + rest, x, y) <==> (x0 == x && y in rest) || Precedes(rest, x, y)
  {
    var order := [x0] + rest;
    if Precedes(order, x, y) {
      var i, j :| 0 <= i < j < |order| && order[i] == x && order[j] == y;
      assert rest[j - 1] == y;
      assert i > 0 ==> rest[i - 1] == x;
    }
    if x0 == x && y in rest {
      var j :| 0 <= j < |rest| && rest[j] == y;
      assert order[0] == x && order[j + 1] == y;
    }
    if Precedes(rest, x, y) {
      var i, j :| 0 <= i < j < |rest| && rest[i] == x && rest[j] == y;
      assert order[i + 1] == x && order[j + 1] == y;
    }
  }

  lemma {:induction false} PrecedesWithout(order: seq<Surface>, gone: set<Surface>, x: Surface, y: Surface)
    requires x !in gone && y !in gone
    ensures Precedes(Without(order, gone), x, y) <==> Precedes(order, x, y)
  {
    if order != [] {
      var rest := Without(order[1..], gone);
      PrecedesWithout(order[1..], gone, x, y);
      PrecedesCons(order[0], order[1..], x, y);
      PrecedesCons(order[0], rest, x, y);
      WithoutMembers(order[1..], gone, y);
      assert order == [order[0]] + order[1..];
      assert order[0] in gone ==> Without(order, gone) == rest;
    }
  }

  lemma {:induction false} WithoutAll(order: seq<Surface>, gone: set<Surface>)
    requires forall x :: x in order ==> x in gone
    ensures Without(order, gone) == []
  {
    if order != [] {
      var first := order[0];
      assert first in order && first in gone;
      WithoutAll(order[1..], gone);
    }
  }

  lemma InMiddle(left: seq<Surface>, middle: seq<Surface>, right: seq<Surface>, x: Surface)
    ensures x in left + middle + right <==> x in left || x in middle || x in right
  {
  }

  lemma GapLiesAbove(left: seq<Surface>, listed: seq<Surface>, right: seq<Surface>)
    requires forall x :: x in left || x in right ==> x !in listed
    ensures LieAbove(left + Reversed(listed) + right, |left| - 1, listed)
  {
    var after := left + Reversed(listed) + right;
    ReversedLength(listed);
    forall i | 0 <= i < |listed| ensures after[|left| - 1 + |listed| - i] == listed[i] {
      ReversedAt(listed, i);
    }
    assert forall q :: 0 <= q < |left| ==> after[q] in left;
    assert forall q :: |left| + |listed| <= q < |after| ==> after[q] in right;
  }

  /** What is left of an order with the listed surfaces put reversed into a gap of it. */
  lemma ReplayMeans(before: seq<Surface>, listed: seq<Surface>, left: seq<Surface>, right: seq<Surface>)
    requires Without(before, Members(listed)) == left + right
    ensures LieAbove(left + Reversed(listed) + right, |left| - 1, listed)
    ensures OthersKept(before, left + Reversed(listed) + right, listed)
  {
    var after, gone := left + Reversed(listed) + right, Members(listed);
    forall x
      ensures (x in left || x in right) <==> (x in before && x !in gone)
      ensures x in after <==> x in before || x in listed
    {
      WithoutMembers(before, gone, x);
      InMiddle(left, [], right, x);
      assert left + [] + right == left + right;
      ReversedMembers(listed, x);
      InMiddle(left, Reversed(listed), right, x);
    }
    GapLiesAbove(left, listed, right);
    RestWithout(left, listed, right);
    forall x, y | x !in listed && y !in listed ensures Precedes(before, x, y) <==> Precedes(after, x, y) {
      PrecedesWithout(before, gone, x, y);
      PrecedesWithout(after, gone, x, y);
    }
  }

  lemma {:induction false} ReversedLength(s: seq<Surface>)
    ensures |Reversed(s)| == |s|
  {
    if s != [] {
      ReversedLength(s[1..]);
    }
  }

  lemma RestWithout(left: seq<Surface>, listed: seq<Surface>, right: seq<Surface>)
    requires forall x :: x in left || x in right ==> x !in Members(listed)
    ensures Without(left + Reversed(listed) + right, Members(listed)) == left + right
  {
    var gone := Members(listed);
    forall x | x in Reversed(listed) ensures x in gone {
      ReversedMembers(listed, x);
    }
    MiddleGone(left, Reversed(listed), right, gone);
  }

  lemma MiddleGone(left: seq<Surface>, middle: seq<Surface>, right: seq<Surface>, gone: set<Surface>)
    requires forall x :: x in left || x in right ==> x !in gone
    requires forall x :: x in middle ==> x in gone
    ensures Without(left + middle + right, gone) == left + right
  {
    WithoutParts(left, middle, right, gone);
    WithoutNothing(left, gone);
    WithoutNothing(right, gone);
    WithoutAll(middle, gone);
    assert left + [] + right == left + right;
  }

  // ---------- one request of each replay ----------

  /** The order while the children in `placed` already lie reversed on the parent. */
  function Stacked(below: seq<Surface>, parent: Surface, above: seq<Surface>, placed: seq<Surface>): seq<Surface> {
    Without(below, Members(placed)) + [parent] + Reversed(placed) + Without(above, Members(placed))
  }

  lemma NothingStacked(below: seq<Surface>, parent: Surface, above: seq<Surface>)
    ensures Stacked(below, parent, above, []) == below + [parent] + above
  {
    WithoutNothing(below, Members([]));
    WithoutNothing(above, Members([]));
  }

  lemma MembersOfMore(placed: seq<Surface>, c: Surface)
    requires Distinct([c] + placed)
    ensures Members([c] + placed) == Members(placed) + {c}
    ensures Distinct(placed) && c !in placed
    ensures Reversed([c] + placed) == Reversed(placed) + [c]
  {
    var more := [c] + placed;
    assert more[1..] == placed;
    forall i | 0 <= i < |placed| ensures placed[i] == more[i + 1] && placed[i] != c {
      assert more[0] == c;
    }
    forall i, j | 0 <= i < j < |placed| ensures placed[i] != placed[j] {
      assert more[i + 1] != more[j + 1];
    }
  }

  lemma TakenOut(below: seq<Surface>, parent: Surface, above: seq<Surface>, placed: seq<Surface>, c: Surface)
    requires c != parent && c !in placed
    ensures Without(Stacked(below, parent, above, placed), {c}) ==
            Without(below, Members(placed) + {c}) + [parent] + Reversed(placed) + Without(above, Members(placed) + {c})
  {
    var b, a := Without(below, Members(placed)), Without(above, Members(placed));
    forall x | x in Reversed(placed) ensures x !in {c} {
      ReversedMembers(placed, x);
    }
    WithoutNothing(Reversed(placed), {c});
    WithoutNothing([parent], {c});
    WithoutTwice(below, Members(placed), {c});
    WithoutTwice(above, Members(placed), {c});
    WithoutConcat(b + [parent] + Reversed(placed), a, {c});
    WithoutConcat(b + [parent], Reversed(placed), {c});
    WithoutConcat(b, [parent], {c});
  }

  lemma OutsideWithout(order: seq<Surface>, gone: set<Surface>, x: Surface)
    requires x !in order || x in gone
    ensures x !in Without(order, gone)
  {
    WithoutMembers(order, gone, x);
  }

  lemma FirstLeft(below: seq<Surface>, parent: Surface, above: seq<Surface>, gone: set<Surface>)
    requires parent !in gone
    ensures Without(below + [parent] + above, gone) == Without(below, gone) + [parent] + Without(above, gone)
  {
    WithoutParts(below, [parent], above, gone);
    WithoutNothing([parent], gone);
  }

  lemma OneStacked(below: seq<Surface>, parent: Surface, above: seq<Surface>, c: Surface)
    ensures Stacked(below, parent, above, [c]) == Without(below, {c}) + [parent] + [c] + Without(above, {c})
  {
    assert Members([c]) == {c} && Reversed([c]) == [c];
  }

  /** The first child is placed on its parent, every later one on the child before it. */
  lemma PlaceFirst(below: seq<Surface>, parent: Surface, above: seq<Surface>, c: Surface)
    requires c != parent && parent !in below
    ensures parent in Without(Stacked(below, parent, above, []), {c})
    ensures PlacedAbove(Stacked(below, parent, above, []), c, parent) == Stacked(below, parent, above, [c])
  {
    NothingStacked(below, parent, above);
    FirstLeft(below, parent, above, {c});
    OutsideWithout(below, {c}, parent);
    PlacedBetween(below + [parent] + above, c, Without(below, {c}), parent, Without(above, {c}));
    OneStacked(below, parent, above, c);
  }

  lemma PlaceNext(below: seq<Surface>, parent: Surface, above: seq<Surface>, placed: seq<Surface>, c: Surface)
    requires Distinct([c] + placed) && c != parent && parent !in placed && placed != []
    ensures placed[0] in Without(Stacked(below, parent, above, placed), {c})
    ensures PlacedAbove(Stacked(below, parent, above, placed), c, placed[0]) ==
            Stacked(below, parent, above, [c] + placed)
  {
    var order, last, gone := Stacked(below, parent, above, placed), placed[0], Members(placed) + {c};
    var b, a := Without(below, gone), Without(above, gone);
    var left := b + [parent] + Reversed(placed[1..]);
    MembersOfMore(placed, c);
    TakenOut(below, parent, above, placed, c);
    assert left + [last] == b + [parent] + Reversed(placed);
    OutsideWithout(below, gone, last);
    ReversedMembers(placed[1..], last);
    PlacedBetween(order, c, left, last, a);
    MoreStacked(below, parent, above, placed, c);
  }

  lemma MoreStacked(below: seq<Surface>, parent: Surface, above: seq<Surface>, placed: seq<Surface>, c: Surface)
    requires Distinct([c] + placed)
    ensures var gone := Members(placed) + {c};
            Stacked(below, parent, above, [c] + placed) ==
              Without(below, gone) + [parent] + Reversed(placed) + [c] + Without(above, gone)
  {
    MembersOfMore(placed, c);
    Regrouped(Without(below, Members(placed) + {c}) + [parent], Reversed(placed), [c]);
  }

  /** One round of the replay, with the children from i + 1 on in place. */
  lemma PlaceRound(below: seq<Surface>, parent: Surface, above: seq<Surface>, all: seq<Surface>, i: nat, under: Surface)
    requires i < |all| && Distinct(all) && parent !in below && parent !in all
    requires under == if i == |all| - 1 then parent else all[i + 1]
    ensures under in Without(Stacked(below, parent, above, all[i + 1..]), {all[i]})
    ensures PlacedAbove(Stacked(below, parent, above, all[i + 1..]), all[i], under) ==
            Stacked(below, parent, above, all[i..])
  {
    assert all[i..] == [all[i]] + all[i + 1..];
    if i == |all| - 1 {
      assert all[i + 1..] == [] && all[i..] == [all[i]];
      PlaceFirst(below, parent, above, all[i]);
    } else {
      PlaceNext(below, parent, above, all[i + 1..], all[i]);
    }
  }

  /** The order once the toplevels in `raised` lie reversed on top. */
  function Raised(order: seq<Surface>, raised: seq<Surface>): seq<Surface> {
    Without(order, Members(raised)) + Reversed(raised)
  }

  lemma RaiseNext(order: seq<Surface>, raised: seq<Surface>, t: Surface)
    requires Distinct([t] + raised)
    ensures RaisedToTop(Raised(order, raised), t) == Raised(order, [t] + raised)
  {
    MembersOfMore(raised, t);
    forall x | x in Reversed(raised) ensures x !in {t} {
      ReversedMembers(raised, x);
    }
    WithoutNothing(Reversed(raised), {t});
    WithoutTwice(order, Members(raised), {t});
    WithoutConcat(Without(order, Members(raised)), Reversed(raised), {t});
  }

  lemma NothingRaised(start: seq<Surface>, all: seq<Surface>)
    ensures Raised(start, all[|all|..]) == start
    ensures all[0..] == all
  {
    assert all[|all|..] == [];
    WithoutNothing(start, Members([]));
  }

  /** One round of the replay, with the toplevels from i + 1 on on top. */
  lemma RaiseRound(start: seq<Surface>, all: seq<Surface>, i: nat)
    requires i < |all| && Distinct(all)
    ensures RaisedToTop(Raised(start, all[i + 1..]), all[i]) == Raised(start, all[i..])
  {
    assert all[i..] == [all[i]] + all[i + 1..];
    RaiseNext(start, all[i + 1..], all[i]);
  }

  // ---------- the compositor and the replays ----------

  class Compositor {
    /** A parent surface with its subsurfaces, or the toplevels, bottom first. */
    var order: seq<Surface>

    constructor (order: seq<Surface>)
      ensures this.order == order
    {
      this.order := order;
    }

    method PlaceAbove(sub: Surface, sibling: Surface)
      requires sibling in Without(order, {sub})
      modifies this
      ensures order == PlacedAbove(old(order), sub, sibling)
    {
      order := PlacedAbove(order, sub, sibling);
    }

    method Raise(s: Surface)
      modifies this
      ensures order == RaisedToTop(old(order), s)
    {
      order := RaisedToTop(order, s);
    }
  }

  /** The children's surfaces in stack order: those of exactly the entries that are subsurfaces of this
      parent, which lie at these positions. */
  method CollectChildren(stack: seq<Entry>, parent: int) returns (children: array<Surface>, n: int, ghost at: seq<nat>)
    requires forall j :: 0 <= j < |stack| ==> |Children(stack[..j], parent)| < WINDOW_MAX_CHILDREN
    ensures 0 <= n <= children.Length && children[..n] == Children(stack, parent) && fresh(children)
    ensures Lists(stack, at, children[..n])
    ensures forall j :: 0 <= j < |stack| ==> (j in at <==> stack[j].parent == Some(parent) && stack[j].subsurface)
  {
    children := new Surface[WINDOW_MAX_CHILDREN];
    n, at := 0, [];
    ghost var wanted := (e: Entry) => e.parent == Some(parent) && e.subsurface;
    for j := 0 to |stack|
      invariant 0 <= n <= WINDOW_MAX_CHILDREN
      invariant children[..n] == Children(stack[..j], parent) && Collects(stack, wanted, j, at, children[..n])
    {
      assert stack[..j + 1][..j] == stack[..j];
      assert n < WINDOW_MAX_CHILDREN;
      CollectsMore(stack, wanted, j, at, children[..n]);
      if IsChild(stack[j], parent) {
        children[n] := stack[j].surface;
        n, at := n + 1, at + [j];
      }
    }
    assert stack[..|stack|] == stack;
  }

  /** The placing loop, from the lowest child to the topmost. */
  method PlaceAll(children: array<Surface>, n: nat, parentSurface: Surface, wl: Compositor, ghost all: seq<Surface>,
                  ghost below: seq<Surface>, ghost above: seq<Surface>)
    requires n <= children.Length && all == children[..n] && Distinct(all)
    requires wl.order == below + [parentSurface] + above && parentSurface !in below && parentSurface !in all
    modifies wl
    ensures wl.order == Stacked(below, parentSurface, above, all)
  {
    NothingStacked(below, parentSurface, above);
    assert all[n..] == [] && all[0..] == all;
    var under := parentSurface;
    var i := n - 1;
    while i >= 0
      invariant -1 <= i < n && children[..n] == all
      invariant under == if i == n - 1 then parentSurface else all[i + 1]
      invariant wl.order == Stacked(below, parentSurface, above, all[i + 1..])
    {
      PlaceRound(below, parentSurface, above, all, i, under);
      wl.PlaceAbove(children[i], under);
      under := children[i];
      i := i - 1;
    }
  }

  /** From any starting order, the parent's children, which are the entries at these positions, end up
      contiguous just above it in reverse stack order, and everything else keeps its order. */
  method ReorderSubsurfaces(stack: seq<Entry>, parent: int, parentSurface: Option<Surface>, wl: Compositor,
                            ghost below: seq<Surface>, ghost above: seq<Surface>)
      returns (ghost at: seq<nat>, ghost all: seq<Surface>, ghost base: int)
    requires forall j :: 0 <= j < |stack| ==> |Children(stack[..j], parent)| < WINDOW_MAX_CHILDREN
    requires Distinct(Children(stack, parent))
    requires parentSurface.Some? ==>
               && wl.order == below + [parentSurface.value] + above
               && parentSurface.value !in below
               && parentSurface.value !in Children(stack, parent)
    modifies wl
    ensures parentSurface.None? ==> wl.order == old(wl.order)
    ensures parentSurface.Some? ==>
              && wl.order == Without(below, Members(Children(stack, parent))) + [parentSurface.value]
                             + Reversed(Children(stack, parent)) + Without(above, Members(Children(stack, parent)))
              && Lists(stack, at, all)
              && (forall j :: 0 <= j < |stack| ==>
                    (j in at <==> stack[j].parent == Some(parent) && stack[j].subsurface))
              && LieAbove(wl.order, base, all) && base >= 0 && wl.order[base] == parentSurface.value
              && OthersKept(old(wl.order), wl.order, all)
  {
    if parentSurface.None? {
      at, all, base := [], [], 0;
      return;
    }
    var children, n;
    children, n, at := CollectChildren(stack, parent);
    all := Children(stack, parent);
    PlaceAll(children, n, parentSurface.value, wl, all, below, above);
    base := StackedMeans(below, parentSurface.value, above, all, wl.order);
  }

  lemma StackedMeans(below: seq<Surface>, parent: Surface, above: seq<Surface>, all: seq<Surface>, order: seq<Surface>)
      returns (base: nat)
    requires parent !in all && order == Stacked(below, parent, above, all)
    ensures LieAbove(order, base, all) && order[base] == parent
    ensures OthersKept(below + [parent] + above, order, all)
  {
    var gone := Members(all);
    FirstLeft(below, parent, above, gone);
    ReplayMeans(below + [parent] + above, all, Without(below, gone) + [parent], Without(above, gone));
    base := |Without(below, gone)|;
  }

  /** The toplevels' surfaces in stack order: those of exactly the entries with a shell surface. */
  method CollectToplevels(stack: seq<Entry>) returns (toplevels: array<Surface>, n: int, ghost at: seq<nat>)
    requires |Toplevels(stack)| <= WINDOW_MAX_CHILDREN
    ensures 0 <= n <= toplevels.Length && toplevels[..n] == Toplevels(stack) && fresh(toplevels)
    ensures Lists(stack, at, toplevels[..n])
    ensures forall j :: 0 <= j < |stack| ==> (j in at <==> stack[j].shell)
  {
    toplevels := new Surface[WINDOW_MAX_CHILDREN];
    n, at := 0, [];
    ghost var wanted := (e: Entry) => e.shell;
    for j := 0 to |stack|
      invariant 0 <= n <= WINDOW_MAX_CHILDREN
      invariant toplevels[..n] == Toplevels(stack[..j]) && Collects(stack, wanted, j, at, toplevels[..n])
    {
      assert stack[..j + 1][..j] == stack[..j];
      CollectsMore(stack, wanted, j, at, toplevels[..n]);
      if stack[j].shell {
        ToplevelsGrow(stack, j);
        toplevels[n] := stack[j].surface;
        n, at := n + 1, at + [j];
      }
    }
    assert stack[..|stack|] == stack;
  }

  /** The raising loop, from the lowest of the toplevels to the topmost. */
  method RaiseAll(toplevels: array<Surface>, n: nat, wl: Compositor, ghost all: seq<Surface>)
    requires n <= toplevels.Length && all == toplevels[..n] && Distinct(all)
    modifies wl
    ensures wl.order == Raised(old(wl.order), all)
  {
    ghost var start := wl.order;
    NothingRaised(start, all);
    var i := n - 1;
    while i >= 0
      invariant -1 <= i < n && toplevels[..n] == all
      invariant wl.order == Raised(start, all[i + 1..])
    {
      RaiseRound(start, all, i);
      wl.Raise(toplevels[i]);
      i := i - 1;
    }
  }

  /** From any starting order, the client's toplevels, which are the entries at these positions, end up on
      top of everything in stack order, and all other surfaces keep their order. */
  method ReorderToplevels(stack: seq<Entry>, wl: Compositor) returns (ghost at: seq<nat>, ghost all: seq<Surface>)
    requires |Toplevels(stack)| <= WINDOW_MAX_CHILDREN
    requires Distinct(Toplevels(stack))
    modifies wl
    ensures wl.order == Without(old(wl.order), Members(Toplevels(stack))) + Reversed(Toplevels(stack))
    ensures Lists(stack, at, all) && forall j :: 0 <= j < |stack| ==> (j in at <==> stack[j].shell)
    ensures LieAbove(wl.order, |wl.order| - |all| - 1, all) && OthersKept(old(wl.order), wl.order, all)
  {
    var toplevels, n;
    toplevels, n, at := CollectToplevels(stack);
    all := Toplevels(stack);
    RaiseAll(toplevels, n, wl, all);
    RaisedMeans(old(wl.order), all, wl.order);
  }

  lemma RaisedMeans(start: seq<Surface>, all: seq<Surface>, order: seq<Surface>)
    requires order == Raised(start, all)
    ensures LieAbove(order, |order| - |all| - 1, all) && OthersKept(start, order, all)
  {
    var left := Without(start, Members(all));
    assert left + [] == left && left + Reversed(all) + [] == left + Reversed(all);
    ReplayMeans(start, all, left, []);
    ReversedLength(all);
  }

  lemma {:induction false} ToplevelsGrow(stack: seq<Entry>, j: nat)
    requires j < |stack| && stack[j].shell
    ensures |Toplevels(stack[..j])| < |Toplevels(stack)|
  {
    var n := |stack| - 1;
    if j < n {
      assert stack[..n][..j] == stack[..j];
      ToplevelsGrow(stack[..n], j);
    }
  }
}
