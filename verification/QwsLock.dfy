/**
 The nestable three-semaphore lock (libqwsproto/qws_lock.c, qwslock_lock and qwslock_unlock).

 Semaphore operations are the lock's outputs. A wait that would block is a step that is not
 enabled; operations that fail in the kernel are not modelled.
 */
module QwsLock {
  const BACKINGSTORE := 0
  const COMMUNICATION := 1
  const REGIONEVENT := 2
  const LOCK_NUM_SEMS := 3

  datatype SemOp = SemOp(sem: int, delta: int)

  /** A handle as a value: its nesting counts and the semaphore operations it has issued. */
  datatype HandleState = Handle(count: seq<int>, ops: seq<SemOp>)

  predicate ValidHandle(h: HandleState) {
    |h.count| == 3 && h.count[0] >= 0 && h.count[1] >= 0 && h.count[2] >= 0
  }

  type Handle = h: HandleState | ValidHandle(h) witness Handle([0, 0, 0], [])

  predicate InRange(which: int) { 0 <= which < LOCK_NUM_SEMS }

  predicate Nests(which: int) { which < 2 }

  function Locked(h: Handle, which: int): Handle
    requires InRange(which)
  {
    if Nests(which) && h.count[which] > 0 then h.(count := h.count[which := h.count[which] + 1])
    else Handle(if Nests(which) then h.count[which := 1] else h.count, h.ops + [SemOp(which, -1)])
  }

  function Unlocked(h: Handle, which: int): Handle
    requires InRange(which)
  {
    if Nests(which) && h.count[which] > 0 then
      Handle(h.count[which := h.count[which] - 1], if h.count[which] > 1 then h.ops else h.ops + [SemOp(which, 1)])
    else h.(ops := h.ops + [SemOp(which, 1)])
  }

  class Lock {
    const lockCount: array<int>
    var ops: seq<SemOp>
    /** The handle as a value. */
    ghost var value: Handle

    ghost predicate Valid()
      reads this, lockCount
    {
      lockCount.Length == LOCK_NUM_SEMS && value.count == lockCount[..] && value.ops == ops
    }

    constructor Open()
      ensures Valid() && value == Handle([0, 0, 0], [])
      ensures fresh(lockCount)
    {
      lockCount := new int[3](_ => 0);
      ops := [];
      value := Handle([0, 0, 0], []);
    }

    method Acquire(which: int) returns (ret: int)
      requires Valid()
      modifies this, lockCount
      ensures Valid()
      ensures !InRange(which) ==> ret == -1 && value == old(value)
      ensures InRange(which) ==> ret == 0 && value == Locked(old(value), which)
    {
      if which < 0 || which >= LOCK_NUM_SEMS {
        return -1;
      }
      value := Locked(value, which);
      if which < 2 {
        if lockCount[which] > 0 {
          lockCount[which] := lockCount[which] + 1;
          return 0;
        }
      }
      ops := ops + [SemOp(which, -1)];
      if which < 2 {
        lockCount[which] := 1;
      }
      return 0;
    }

    method Release(which: int) returns (ret: int)
      requires Valid()
      modifies this, lockCount
      ensures Valid()
      ensures !InRange(which) ==> ret == -1 && value == old(value)
      ensures InRange(which) ==> ret == 0 && value == Unlocked(old(value), which)
    {
      if which < 0 || which >= LOCK_NUM_SEMS {
        return -1;
      }
      value := Unlocked(value, which);
      if which < 2 {
        if lockCount[which] > 0 {
          lockCount[which] := lockCount[which] - 1;
          if lockCount[which] > 0 {
            return 0;
          }
        }
      }
      ops := ops + [SemOp(which, 1)];
      return 0;
    }
  }

  // ---------- counting posts ----------

  function Posts(ops: seq<SemOp>, which: int): nat {
    if ops == [] then 0
    else Posts(ops[..|ops| - 1], which) + (if ops[|ops| - 1] == SemOp(which, 1) then 1 else 0)
  }

  lemma PostsOfAppend(ops: seq<SemOp>, op: SemOp, which: int)
    ensures Posts(ops + [op], which) == Posts(ops, which) + (if op == SemOp(which, 1) then 1 else 0)
  {
    assert (ops + [op])[..|ops|] == ops;
  }

  /** An unlock is absorbed by the nesting count exactly when the handle holds it more than once. */
  lemma UnlockPosts(h: Handle, which: int, other: int)
    requires InRange(which)
    ensures Posts(Unlocked(h, which).ops, other) ==
            Posts(h.ops, other) + (if other == which && (which == 2 || h.count[which] <= 1) then 1 else 0)
  {
    PostsOfAppend(h.ops, SemOp(which, 1), other);
  }

  // ---------- nesting of one handle ----------

  /** The handle after a list of calls: true locks, false unlocks. */
  function Calls(h: Handle, calls: seq<bool>, which: int): Handle
    requires InRange(which)
  {
    if calls == [] then h
    else
      var g := Calls(h, calls[..|calls| - 1], which);
      if calls[|calls| - 1] then Locked(g, which) else Unlocked(g, which)
  }

  /** How deep the calls nest, counted without looking at the lock. */
  function Depth(calls: seq<bool>): int {
    if calls == [] then 0 else Depth(calls[..|calls| - 1]) + (if calls[|calls| - 1] then 1 else -1)
  }

  /** Between an outermost lock and its unlock nothing reaches the semaphore. */
  lemma {:induction false} OnlyOutermostTouches(h: Handle, calls: seq<bool>, which: int)
    requires which == 0 || which == 1
    requires h.count[which] == 0
    requires calls != []
    requires forall n :: 0 < n < |calls| ==> Depth(calls[..n]) > 0
    requires Depth(calls) >= 0
    ensures Calls(h, calls, which).count[which] == Depth(calls)
    ensures Calls(h, calls, which).ops ==
            h.ops + [SemOp(which, -1)] + (if Depth(calls) == 0 then [SemOp(which, 1)] else [])
  {
    var n := |calls| - 1;
    var before := calls[..n];
    if n == 0 {
      assert calls[..0] == [];
      assert Depth(calls) == if calls[0] then 1 else -1;
    } else {
      forall m | 0 < m < n ensures Depth(before[..m]) > 0 {
        assert before[..m] == calls[..m];
      }
      assert Depth(calls[..n]) > 0;
      OnlyOutermostTouches(h, before, which);
    }
  }

  /** The region-event semaphore does not nest: every call reaches it and nothing is counted. */
  lemma {:induction false} RegionEventsNeverNest(h: Handle, calls: seq<bool>)
    ensures Calls(h, calls, 2).count == h.count
    ensures Calls(h, calls, 2).ops ==
            h.ops + seq(|calls|, i requires 0 <= i < |calls| => SemOp(2, if calls[i] then -1 else 1))
  {
    if calls != [] {
      RegionEventsNeverNest(h, calls[..|calls| - 1]);
    }
  }
}
