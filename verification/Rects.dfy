/**
 Rectangle lists as point sets (libqwsproto/qws_rect.c).

 A rectangle is read half-open: it holds the points with x1 <= x < x2 and y1 <= y < y2.
 Coordinates are unbounded integers; int32 overflow is not modelled.
 */
module Rects {
  datatype Point = Point(x: int, y: int)

  datatype Rect = Rect(x1: int, y1: int, x2: int, y2: int)

  // ---------- point sets ----------

  predicate Covers(r: Rect, p: Point) {
    r.x1 <= p.x < r.x2 && r.y1 <= p.y < r.y2
  }

  predicate InArea(rs: seq<Rect>, p: Point) {
    exists i :: 0 <= i < |rs| && Covers(rs[i], p)
  }

  predicate Empty(r: Rect) {
    r.x2 <= r.x1 || r.y2 <= r.y1
  }

  lemma AreaOfConcat(a: seq<Rect>, b: seq<Rect>, p: Point)
    ensures InArea(a + b, p) <==> InArea(a, p) || InArea(b, p)
  {
    var ab := a + b;
    if InArea(a, p) {
      var i :| 0 <= i < |a| && Covers(a[i], p);
      assert ab[i] == a[i];
    }
    if InArea(b, p) {
      var i :| 0 <= i < |b| && Covers(b[i], p);
      assert ab[|a| + i] == b[i];
    }
  }

  lemma AreaOfOne(r: Rect, p: Point)
    ensures InArea([r], p) <==> Covers(r, p)
  {
    assert [r][0] == r;
  }

  // ---------- subtraction ----------

  function Max(a: int, b: int): int { if a < b then b else a }

  function Min(a: int, b: int): int { if a < b then a else b }

  predicate Overlap(a: Rect, h: Rect) {
    Max(a.x1, h.x1) < Min(a.x2, h.x2) && Max(a.y1, h.y1) < Min(a.y2, h.y2)
  }

  function IfNonempty(r: Rect): seq<Rect> {
    if Empty(r) then [] else [r]
  }

  /** What is left of one rectangle when another is punched out: up to four pieces. */
  function Cut(a: Rect, h: Rect): seq<Rect> {
    if !Overlap(a, h) then IfNonempty(a)
    else
      var top, bottom := Max(a.y1, h.y1), Min(a.y2, h.y2);
      IfNonempty(Rect(a.x1, a.y1, a.x2, top)) +
      IfNonempty(Rect(a.x1, top, h.x1, bottom)) +
      IfNonempty(Rect(h.x2, top, a.x2, bottom)) +
      IfNonempty(Rect(a.x1, bottom, a.x2, a.y2))
  }

  function CutEach(pieces: seq<Rect>, h: Rect): seq<Rect> {
    if pieces == [] then [] else Cut(pieces[0], h) + CutEach(pieces[1..], h)
  }

  function CutByAll(pieces: seq<Rect>, holes: seq<Rect>): seq<Rect>
    decreases holes
  {
    if holes == [] then pieces else CutByAll(CutEach(pieces, holes[0]), holes[1..])
  }

  /** The order of a YX-sorted rectangle list. */
  predicate YxLeq(r: Rect, s: Rect) {
    r.y1 < s.y1 || (r.y1 == s.y1 && r.x1 <= s.x1)
  }

  predicate YxSorted(rs: seq<Rect>) {
    forall i, j :: 0 <= i < j < |rs| ==> YxLeq(rs[i], rs[j])
  }

  function InsertYx(r: Rect, rs: seq<Rect>): seq<Rect> {
    if rs == [] || YxLeq(r, rs[0]) then [r] + rs else [rs[0]] + InsertYx(r, rs[1..])
  }

  function SortYx(rs: seq<Rect>): seq<Rect> {
    if rs == [] then [] else InsertYx(rs[0], SortYx(rs[1..]))
  }

  /** A minus B. An empty B returns A as it is, the early exit of the source. */
  function Subtract(a: seq<Rect>, b: seq<Rect>): seq<Rect> {
    if a == [] then []
    else if b == [] then a
    else SortYx(CutByAll(a, b))
  }

  lemma CutArea(a: Rect, h: Rect, p: Point)
    ensures InArea(Cut(a, h), p) <==> Covers(a, p) && !Covers(h, p)
  {
    if Overlap(a, h) {
      var top, bottom := Max(a.y1, h.y1), Min(a.y2, h.y2);
      var n, w := Rect(a.x1, a.y1, a.x2, top), Rect(a.x1, top, h.x1, bottom);
      var e, s := Rect(h.x2, top, a.x2, bottom), Rect(a.x1, bottom, a.x2, a.y2);
      var nw := IfNonempty(n) + IfNonempty(w);
      AreaOfConcat(IfNonempty(n), IfNonempty(w), p);
      AreaOfConcat(nw, IfNonempty(e), p);
      AreaOfConcat(nw + IfNonempty(e), IfNonempty(s), p);
      AreaIfNonempty(n, p); AreaIfNonempty(w, p); AreaIfNonempty(e, p); AreaIfNonempty(s, p);
    } else {
      AreaIfNonempty(a, p);
    }
  }

  lemma AreaIfNonempty(r: Rect, p: Point)
    ensures InArea(IfNonempty(r), p) <==> Covers(r, p)
  {
    if !Empty(r) {
      AreaOfOne(r, p);
    }
  }

  lemma {:induction false} CutEachArea(pieces: seq<Rect>, h: Rect, p: Point)
    ensures InArea(CutEach(pieces, h), p) <==> InArea(pieces, p) && !Covers(h, p)
  {
    if pieces != [] {
      assert pieces == [pieces[0]] + pieces[1..];
      AreaOfConcat([pieces[0]], pieces[1..], p);
      AreaOfOne(pieces[0], p);
      AreaOfConcat(Cut(pieces[0], h), CutEach(pieces[1..], h), p);
      CutArea(pieces[0], h, p);
      CutEachArea(pieces[1..], h, p);
    }
  }

  lemma {:induction false} CutByAllArea(pieces: seq<Rect>, holes: seq<Rect>, p: Point)
    ensures InArea(CutByAll(pieces, holes), p) <==> InArea(pieces, p) && !InArea(holes, p)
    decreases holes
  {
    if holes != [] {
      assert holes == [holes[0]] + holes[1..];
      AreaOfConcat([holes[0]], holes[1..], p);
      AreaOfOne(holes[0], p);
      CutEachArea(pieces, holes[0], p);
      CutByAllArea(CutEach(pieces, holes[0]), holes[1..], p);
    }
  }

  lemma {:induction false} InsertYxSameRects(r: Rect, rs: seq<Rect>)
    ensures multiset(InsertYx(r, rs)) == multiset{r} + multiset(rs)
  {
    if rs != [] && !YxLeq(r, rs[0]) {
      InsertYxSameRects(r, rs[1..]);
      assert rs == [rs[0]] + rs[1..];
    }
  }

  lemma {:induction false} InsertYxSorted(r: Rect, rs: seq<Rect>)
    requires YxSorted(rs)
    ensures YxSorted(InsertYx(r, rs))
  {
    if rs != [] && !YxLeq(r, rs[0]) {
      var rest := InsertYx(r, rs[1..]);
      InsertYxSorted(r, rs[1..]);
      InsertYxSameRects(r, rs[1..]);
      forall j | 0 <= j < |rest| ensures YxLeq(rs[0], rest[j]) {
        assert rest[j] in multiset(rest);
        assert rest[j] == r || rest[j] in rs[1..];
      }
    }
  }

  lemma {:induction false} SortYxKeeps(rs: seq<Rect>)
    ensures YxSorted(SortYx(rs)) && multiset(SortYx(rs)) == multiset(rs)
  {
    if rs != [] {
      SortYxKeeps(rs[1..]);
      InsertYxSorted(rs[0], SortYx(rs[1..]));
      InsertYxSameRects(rs[0], SortYx(rs[1..]));
      assert rs == [rs[0]] + rs[1..];
    }
  }

  lemma SameRectsSameArea(a: seq<Rect>, b: seq<Rect>, p: Point)
    requires multiset(a) == multiset(b)
    ensures InArea(a, p) <==> InArea(b, p)
  {
    if InArea(a, p) {
      var i :| 0 <= i < |a| && Covers(a[i], p);
      assert a[i] in multiset(b);
    }
    if InArea(b, p) {
      var i :| 0 <= i < |b| && Covers(b[i], p);
      assert b[i] in multiset(a);
    }
  }

  /** The header's promise for the area: covered by A and not by B. */
  lemma SubtractArea(a: seq<Rect>, b: seq<Rect>, p: Point)
    ensures InArea(Subtract(a, b), p) <==> InArea(a, p) && !InArea(b, p)
  {
    if a != [] && b != [] {
      CutByAllArea(a, b, p);
      SortYxKeeps(CutByAll(a, b));
      SameRectsSameArea(SortYx(CutByAll(a, b)), CutByAll(a, b), p);
    }
  }

  lemma {:induction false} CutEachNonempty(pieces: seq<Rect>, h: Rect, i: nat)
    requires i < |CutEach(pieces, h)|
    ensures !Empty(CutEach(pieces, h)[i])
  {
    var k := |Cut(pieces[0], h)|;
    if k <= i {
      CutEachNonempty(pieces[1..], h, i - k);
    }
  }

  lemma {:induction false} CutByAllNonempty(pieces: seq<Rect>, holes: seq<Rect>)
    requires holes != []
    ensures forall r :: r in CutByAll(pieces, holes) ==> !Empty(r)
    decreases holes
  {
    var cut := CutEach(pieces, holes[0]);
    if |holes| == 1 {
      forall r | r in cut ensures !Empty(r) {
        var i :| 0 <= i < |cut| && cut[i] == r;
        CutEachNonempty(pieces, holes[0], i);
      }
    } else {
      CutByAllNonempty(cut, holes[1..]);
    }
  }

  ghost predicate Within(a: seq<Rect>, b: seq<Rect>) {
    forall p :: InArea(a, p) ==> InArea(b, p)
  }

  lemma RealSubtraction(a: seq<Rect>, b: seq<Rect>)
    requires b != []
    ensures YxSorted(Subtract(a, b))
    ensures forall r :: r in Subtract(a, b) ==> !Empty(r)
    ensures Subtract(a, b) == [] <==> Within(a, b)
  {
    var d := Subtract(a, b);
    if a != [] {
      var c := CutByAll(a, b);
      SortYxKeeps(c);
      CutByAllNonempty(a, b);
      forall r | r in d ensures !Empty(r) {
        assert r in multiset(c);
      }
    }
    forall p ensures InArea(d, p) <==> InArea(a, p) && !InArea(b, p) {
      SubtractArea(a, b, p);
    }
    if d != [] {
      var p := Point(d[0].x1, d[0].y1);
      assert d[0] in d && Covers(d[0], p);
      assert InArea(d, p);
    }
  }

  lemma SolidHasArea(rs: seq<Rect>)
    ensures Within(rs, []) <==> forall r :: r in rs ==> Empty(r)
  {
    forall r | r in rs && !Empty(r)
      ensures InArea(rs, Point(r.x1, r.y1))
    {
      assert Covers(r, Point(r.x1, r.y1));
    }
  }

  /** The header's other promises: the list is YX-sorted, holds no empty rectangle, and is empty when no
      point of A escapes B. An empty B gives A back as it is, so each promise holds exactly when B is not
      empty or A itself meets it. */
  lemma SubtractIsCanonicalIff(a: seq<Rect>, b: seq<Rect>)
    ensures YxSorted(Subtract(a, b)) <==> b != [] || YxSorted(a)
    ensures (forall r :: r in Subtract(a, b) ==> !Empty(r)) <==> b != [] || forall r :: r in a ==> !Empty(r)
    ensures (Subtract(a, b) == [] <==> Within(a, b)) <==> b != [] || a == [] || exists r :: r in a && !Empty(r)
  {
    if b != [] {
      RealSubtraction(a, b);
    } else {
      SolidHasArea(a);
    }
  }

  // ---------- translation, clipping, bounding box ----------

  function TranslateRect(r: Rect, dx: int, dy: int): Rect {
    Rect(r.x1 + dx, r.y1 + dy, r.x2 + dx, r.y2 + dy)
  }

  function Translated(rs: seq<Rect>, dx: int, dy: int): seq<Rect> {
    seq(|rs|, i requires 0 <= i < |rs| => TranslateRect(rs[i], dx, dy))
  }

  function Clamp(v: int, max: int): int {
    if v < 0 then 0 else if v > max then max else v
  }

  function ClipRect(r: Rect, maxX: int, maxY: int): Rect {
    Rect(Clamp(r.x1, maxX), Clamp(r.y1, maxY), Clamp(r.x2, maxX), Clamp(r.y2, maxY))
  }

  function Clipped(rs: seq<Rect>, maxX: int, maxY: int): seq<Rect> {
    seq(|rs|, i requires 0 <= i < |rs| => ClipRect(rs[i], maxX, maxY))
  }

  lemma TranslatedArea(rs: seq<Rect>, dx: int, dy: int, p: Point)
    ensures InArea(Translated(rs, dx, dy), p) <==> InArea(rs, Point(p.x - dx, p.y - dy))
  {
    var q := Point(p.x - dx, p.y - dy);
    if InArea(Translated(rs, dx, dy), p) {
      var i :| 0 <= i < |rs| && Covers(Translated(rs, dx, dy)[i], p);
      assert Covers(rs[i], q);
    }
    if InArea(rs, q) {
      var i :| 0 <= i < |rs| && Covers(rs[i], q);
      assert Covers(Translated(rs, dx, dy)[i], p);
    }
  }

  /** Half-open, clipping to (maxX, maxY) is intersection with [0, maxX) x [0, maxY). */
  lemma ClippedArea(rs: seq<Rect>, maxX: int, maxY: int, p: Point)
    requires 0 <= maxX && 0 <= maxY
    ensures InArea(Clipped(rs, maxX, maxY), p) <==> InArea(rs, p) && Covers(Rect(0, 0, maxX, maxY), p)
  {
    if InArea(Clipped(rs, maxX, maxY), p) {
      var i :| 0 <= i < |rs| && Covers(Clipped(rs, maxX, maxY)[i], p);
      assert Covers(rs[i], p);
    }
    if InArea(rs, p) && Covers(Rect(0, 0, maxX, maxY), p) {
      var i :| 0 <= i < |rs| && Covers(rs[i], p);
      assert Covers(Clipped(rs, maxX, maxY)[i], p);
    }
  }

  method Translate(rects: array<Rect>, dx: int, dy: int)
    modifies rects
    ensures rects[..] == Translated(old(rects[..]), dx, dy)
  {
    for i := 0 to rects.Length
      invariant forall k :: 0 <= k < i ==> rects[k] == TranslateRect(old(rects[k]), dx, dy)
      invariant forall k :: i <= k < rects.Length ==> rects[k] == old(rects[k])
    {
      rects[i] := rects[i].(x1 := rects[i].x1 + dx);
      rects[i] := rects[i].(y1 := rects[i].y1 + dy);
      rects[i] := rects[i].(x2 := rects[i].x2 + dx);
      rects[i] := rects[i].(y2 := rects[i].y2 + dy);
    }
  }

  method Clip(rects: array<Rect>, maxX: int, maxY: int)
    requires 0 <= maxX && 0 <= maxY
    modifies rects
    ensures rects[..] == Clipped(old(rects[..]), maxX, maxY)
  {
    for i := 0 to rects.Length
      invariant forall k :: 0 <= k < i ==> rects[k] == ClipRect(old(rects[k]), maxX, maxY)
      invariant forall k :: i <= k < rects.Length ==> rects[k] == old(rects[k])
    {
      if rects[i].x1 < 0 { rects[i] := rects[i].(x1 := 0); }
      if rects[i].y1 < 0 { rects[i] := rects[i].(y1 := 0); }
      if rects[i].x1 > maxX { rects[i] := rects[i].(x1 := maxX); }
      if rects[i].y1 >= maxY { rects[i] := rects[i].(y1 := maxY); }
      if rects[i].x2 < 0 { rects[i] := rects[i].(x2 := 0); }
      if rects[i].y2 < 0 { rects[i] := rects[i].(y2 := 0); }
      if rects[i].x2 >= maxX { rects[i] := rects[i].(x2 := maxX); }
      if rects[i].y2 >= maxY { rects[i] := rects[i].(y2 := maxY); }
    }
  }

  predicate Encloses(box: Rect, r: Rect) {
    box.x1 <= r.x1 && box.y1 <= r.y1 && r.x2 <= box.x2 && r.y2 <= box.y2
  }

  /** Every side of box is the side of some listed rectangle, so no smaller box encloses them. */
  ghost predicate IsBoundingBox(box: Rect, rs: seq<Rect>) {
    && (forall i :: 0 <= i < |rs| ==> Encloses(box, rs[i]))
    && (exists i :: 0 <= i < |rs| && rs[i].x1 == box.x1)
    && (exists i :: 0 <= i < |rs| && rs[i].y1 == box.y1)
    && (exists i :: 0 <= i < |rs| && rs[i].x2 == box.x2)
    && (exists i :: 0 <= i < |rs| && rs[i].y2 == box.y2)
  }

  /** One round of the bounding-box loop. */
  lemma GrowBoundingBox(box: Rect, rs: seq<Rect>, r: Rect)
    requires IsBoundingBox(box, rs)
    ensures IsBoundingBox(Rect(Min(box.x1, r.x1), Min(box.y1, r.y1), Max(box.x2, r.x2), Max(box.y2, r.y2)), rs + [r])
  {
    var all := rs + [r];
    var a :| 0 <= a < |rs| && rs[a].x1 == box.x1;
    var b :| 0 <= b < |rs| && rs[b].y1 == box.y1;
    var c :| 0 <= c < |rs| && rs[c].x2 == box.x2;
    var d :| 0 <= d < |rs| && rs[d].y2 == box.y2;
    assert all[a] == rs[a] && all[b] == rs[b] && all[c] == rs[c] && all[d] == rs[d] && all[|rs|] == r;
  }

  method BoundingBox(rects: seq<Rect>) returns (box: Rect)
    requires rects != []
    ensures IsBoundingBox(box, rects)
  {
    box := rects[0];
    for i := 1 to |rects|
      invariant IsBoundingBox(box, rects[..i])
    {
      ghost var before := rects[..i];
      assert rects[..i + 1] == before + [rects[i]];
      ghost var was := box;
      if rects[i].x1 < box.x1 { box := box.(x1 := rects[i].x1); }
      if rects[i].y1 < box.y1 { box := box.(y1 := rects[i].y1); }
      if rects[i].x2 > box.x2 { box := box.(x2 := rects[i].x2); }
      if rects[i].y2 > box.y2 { box := box.(y2 := rects[i].y2); }
      GrowBoundingBox(was, before, rects[i]);
    }
    assert rects[..|rects|] == rects;
  }
}
