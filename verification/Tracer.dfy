/**
 The threads of the trace proxy as a step system (trace_proxy/trace_proxy.c): the main thread that starts
 and stops sessions, the two direction threads of a session, and the tracer that drains the queue. Every
 interleaving is a run. The queue is the sequence TraceQueue.Queue is proved to be, and a read yields the
 items TraceProxy.FeedAndEnqueue is proved to enqueue, one at a time.
 */
module Tracer {
  import opened Wrappers
  import opened Codec
  import opened Sequences
  import opened Streams
  import opened TraceQueue

  const SENTINEL := Item(None, 0, Commands, false)

  /** What the threads are started with: the drop mask and the length tables of the two directions. */
  datatype Config = Config(mask: bv64, commands: Lengths, events: Lengths)

  /** A direction thread: absent before its creation and after its join; running, with the items of its
      last read still to be enqueued and the bytes its reader keeps. */
  datatype Thread = Absent | Running(pending: seq<Item>, kept: seq<Byte>) | Exited

  datatype Main =
    | Accepting
    | JoiningClient(last: bool)
    | JoiningServer(last: bool)
    | Connecting
    | StartingClient
    | StartingServer
    | SendingSentinel
    | JoiningTracer
    | Finished

  datatype Drain = Waiting | Logging(item: Item) | Drained

  /** The bytes one read of one session and direction returned. */
  datatype Chunk = Chunk(clientId: int, dir: Direction, bytes: seq<Byte>)

  /** input, enqueued and logged are histories, in the order things were read, enqueued and logged. */
  datatype Sys =
    Sys(main: Main, session: bool, clientId: int, cmd: Thread, evt: Thread, queue: seq<Item>, tracer: Drain,
        input: seq<Chunk>, enqueued: seq<Item>, logged: seq<Item>)

  datatype Action =
    | Accept(ok: bool)
    | JoinClient
    | JoinServer
    | Connect(ok: bool)
    | StartClient
    | StartServer
    | Read(dir: Direction, bytes: seq<Byte>)
    | Enqueue(dir: Direction)
    | Exit(dir: Direction)
    | SendSentinel
    | Dequeue
    | Log
    | JoinTracer

  function ThreadOf(s: Sys, dir: Direction): Thread {
    if dir.Commands? then s.cmd else s.evt
  }

  function LengthsIn(cfg: Config, dir: Direction): Lengths {
    if dir.Commands? then cfg.commands else cfg.events
  }

  function WithThread(s: Sys, dir: Direction, t: Thread): Sys {
    if dir.Commands? then s.(cmd := t) else s.(evt := t)
  }

  const INIT := Sys(Accepting, false, 0, Absent, Absent, [], Waiting, [], [], [])

  predicate Enabled(s: Sys, a: Action) {
    match a
    case Accept(_) => s.main == Accepting
    case JoinClient => s.main.JoiningClient? && s.cmd == Exited
    case JoinServer => s.main.JoiningServer? && s.evt == Exited
    case Connect(_) => s.main == Connecting
    case StartClient => s.main == StartingClient
    case StartServer => s.main == StartingServer
    case Read(dir, _) => ThreadOf(s, dir).Running? && ThreadOf(s, dir).pending == []
    case Enqueue(dir) => ThreadOf(s, dir).Running? && ThreadOf(s, dir).pending != []
    case Exit(dir) => ThreadOf(s, dir).Running? && ThreadOf(s, dir).pending == []
    case SendSentinel => s.main == SendingSentinel
    case Dequeue => s.tracer == Waiting && s.queue != []
    case Log => s.tracer.Logging?
    case JoinTracer => s.main == JoiningTracer && s.tracer == Drained
  }

  function Put(s: Sys, item: Item): Sys {
    s.(queue := s.queue + [item], enqueued := s.enqueued + [item])
  }

  /** The thread after a read. */
  function Fed(cfg: Config, s: Sys, dir: Direction, bytes: seq<Byte>): Thread
    requires ThreadOf(s, dir).Running?
  {
    var (ps, rest) := Split(LengthsIn(cfg, dir), ThreadOf(s, dir).kept + bytes);
    Running(Traced(cfg.mask, dir, s.clientId, ps), rest)
  }

  function Next(cfg: Config, s: Sys, a: Action): Sys
    requires Enabled(s, a)
  {
    match a
    case Accept(ok) =>
      s.(main := if s.session then JoiningClient(!ok) else if ok then Connecting else SendingSentinel)
    case JoinClient => s.(main := JoiningServer(s.main.last), cmd := Absent)
    case JoinServer => s.(main := if s.main.last then SendingSentinel else Connecting, evt := Absent, session := false)
    case Connect(ok) => s.(main := if ok then StartingClient else Accepting, clientId := s.clientId + 1, session := ok)
    case StartClient => s.(main := StartingServer, cmd := Running([], []))
    case StartServer => s.(main := Accepting, evt := Running([], []))
    case Read(dir, bytes) =>
      WithThread(s, dir, Fed(cfg, s, dir, bytes)).(input := s.input + [Chunk(s.clientId, dir, bytes)])
    case Enqueue(dir) =>
      var t := ThreadOf(s, dir);
      WithThread(Put(s, t.pending[0]), dir, t.(pending := t.pending[1..]))
    case Exit(dir) => WithThread(s, dir, Exited)
    case SendSentinel => Put(s, SENTINEL).(main := JoiningTracer)
    case Dequeue =>
      s.(queue := s.queue[1..], tracer := if s.queue[0].pkt.Some? then Logging(s.queue[0]) else Drained)
    case Log => s.(tracer := Waiting, logged := s.logged + [s.tracer.item])
    case JoinTracer => s.(main := Finished)
  }

  // ---------- what every step keeps ----------

  /** Which threads exist at each point of the main thread. */
  predicate ThreadsFollowMain(s: Sys) {
    match s.main
    case Accepting => if s.session then s.cmd != Absent && s.evt != Absent else s.cmd == Absent && s.evt == Absent
    case JoiningClient(_) => s.session && s.cmd != Absent && s.evt != Absent
    case JoiningServer(_) => s.session && s.cmd == Absent && s.evt != Absent
    case StartingClient => s.session && s.cmd == Absent && s.evt == Absent
    case StartingServer => s.session && s.cmd != Absent && s.evt == Absent
    case _ => !s.session && s.cmd == Absent && s.evt == Absent
  }

  /** A thread has nothing to enqueue but packets of its own session and direction. */
  predicate HoldsOwn(s: Sys) {
    Owns(s.cmd, s.clientId, Commands) && Owns(s.evt, s.clientId, Events)
  }

  predicate Owns(t: Thread, id: int, dir: Direction) {
    t.Running? ==>
      forall i :: 0 <= i < |t.pending| ==>
        t.pending[i].pkt.Some? && t.pending[i].clientId == id && t.pending[i].dir == dir
  }

  /** Nothing was read under an id before its session starts, nor in a direction before its thread does. */
  predicate ReadsFollowMain(s: Sys) {
    forall i :: 0 <= i < |s.input| ==>
      && s.input[i].clientId <= s.clientId
      && (s.main == StartingClient ==> s.input[i].clientId < s.clientId)
      && (s.main == StartingServer && s.input[i].dir.Events? ==> s.input[i].clientId < s.clientId)
  }

  /** What the tracer took out and has not logged. */
  function Taken(t: Drain): seq<Item> {
    match t
    case Waiting => []
    case Logging(item) => [item]
    case Drained => [SENTINEL]
  }

  predicate AllPackets(items: seq<Item>) {
    forall i :: 0 <= i < |items| ==> items[i].pkt.Some?
  }

  predicate Fifo(s: Sys) {
    s.logged + Taken(s.tracer) + s.queue == s.enqueued
  }

  /** The sentinel is enqueued once, last, when both direction threads of the last session are gone. */
  predicate SentinelIsLast(s: Sys) {
    if s.main == JoiningTracer || s.main == Finished then
      s.enqueued != [] && s.enqueued[|s.enqueued| - 1] == SENTINEL && AllPackets(s.enqueued[..|s.enqueued| - 1])
    else AllPackets(s.enqueued)
  }

  predicate LogsPackets(s: Sys) {
    AllPackets(s.logged) && (s.tracer.Logging? ==> s.tracer.item.pkt.Some?)
  }

  /** The packets of one session and direction among some items, in their order. */
  function From(items: seq<Item>, id: int, dir: Direction): seq<Item> {
    if items == [] then []
    else
      var last := items[|items| - 1];
      From(items[..|items| - 1], id, dir) +
      (if last.pkt.Some? && last.clientId == id && last.dir == dir then [last] else [])
  }

  /** Everything read in one session and direction. */
  function BytesOf(input: seq<Chunk>, id: int, dir: Direction): seq<Byte> {
    if input == [] then []
    else
      var last := input[|input| - 1];
      BytesOf(input[..|input| - 1], id, dir) + (if last.clientId == id && last.dir == dir then last.bytes else [])
  }

  /** The log some bytes should give: an item for each packet in them. */
  function ItemsOf(cfg: Config, id: int, dir: Direction, bytes: seq<Byte>): seq<Item> {
    Traced(cfg.mask, dir, id, Split(LengthsIn(cfg, dir), bytes).0)
  }

  function Expected(cfg: Config, s: Sys, id: int, dir: Direction): seq<Item> {
    ItemsOf(cfg, id, dir, BytesOf(s.input, id, dir))
  }

  function PendingOf(s: Sys, id: int, dir: Direction): seq<Item> {
    if id == s.clientId && ThreadOf(s, dir).Running? then ThreadOf(s, dir).pending else []
  }

  /** What was enqueued and what is about to be are the items of what was read, in order. */
  ghost predicate OrderIn(cfg: Config, s: Sys, id: int, dir: Direction) {
    AreItemsOf(cfg, id, dir, BytesOf(s.input, id, dir), From(s.enqueued, id, dir) + PendingOf(s, id, dir))
  }

  /** The quantifier only keeps proofs that merely pass it on from unfolding ItemsOf. */
  ghost predicate AreItemsOf(cfg: Config, id: int, dir: Direction, bytes: seq<Byte>, items: seq<Item>) {
    forall b :: b == bytes ==> items == ItemsOf(cfg, id, dir, b)
  }

  ghost predicate KeepsOrder(cfg: Config, s: Sys) {
    forall id, dir :: OrderIn(cfg, s, id, dir)
  }

  /** The reader keeps the bytes of the packet it is inside of. */
  predicate KeptIn(cfg: Config, s: Sys, dir: Direction) {
    ThreadOf(s, dir).Running? ==>
      ThreadOf(s, dir).kept == Split(LengthsIn(cfg, dir), BytesOf(s.input, s.clientId, dir)).1
  }

  ghost predicate Inv(cfg: Config, s: Sys) {
    && ThreadsFollowMain(s) && HoldsOwn(s) && ReadsFollowMain(s)
    && Fifo(s) && SentinelIsLast(s) && LogsPackets(s)
    && KeepsOrder(cfg, s) && KeptIn(cfg, s, Commands) && KeptIn(cfg, s, Events)
  }

  // ---------- one more item, one more read ----------

  lemma FromOneMore(items: seq<Item>, item: Item, id: int, dir: Direction)
    ensures From(items + [item], id, dir) ==
            From(items, id, dir) + (if item.pkt.Some? && item.clientId == id && item.dir == dir then [item] else [])
  {
    assert (items + [item])[..|items|] == items;
  }

  lemma {:induction false} FromConcat(a: seq<Item>, b: seq<Item>, id: int, dir: Direction)
    ensures From(a + b, id, dir) == From(a, id, dir) + From(b, id, dir)
    decreases |b|
  {
    if b == [] {
      assert a + b == a;
    } else {
      var front, last := b[..|b| - 1], b[|b| - 1];
      FromConcat(a, front, id, dir);
      FromOneMore(a + front, last, id, dir);
      assert a + b == (a + front) + [last];
    }
  }

  lemma BytesOneMore(input: seq<Chunk>, c: Chunk, id: int, dir: Direction)
    ensures BytesOf(input + [c], id, dir) ==
            BytesOf(input, id, dir) + (if c.clientId == id && c.dir == dir then c.bytes else [])
  {
    assert (input + [c])[..|input|] == input;
  }

  lemma {:induction false} NothingRead(input: seq<Chunk>, id: int, dir: Direction)
    requires forall i :: 0 <= i < |input| ==> !(input[i].clientId == id && input[i].dir == dir)
    ensures BytesOf(input, id, dir) == []
  {
    if input != [] {
      NothingRead(input[..|input| - 1], id, dir);
    }
  }

  // ---------- the order of each direction ----------

  lemma ItemsFurther(cfg: Config, id: int, dir: Direction, before: seq<Byte>, kept: seq<Byte>, bytes: seq<Byte>,
                     items: seq<Item>)
    requires AreItemsOf(cfg, id, dir, before, items) && kept == Split(LengthsIn(cfg, dir), before).1
    ensures AreItemsOf(cfg, id, dir, before + bytes, items + ItemsOf(cfg, id, dir, kept + bytes))
  {
    assert items == ItemsOf(cfg, id, dir, before);
    TracedFurther(LengthsIn(cfg, dir), cfg.mask, dir, id, before, kept, bytes);
  }

  lemma ReadGrowsOwn(cfg: Config, s: Sys, dir: Direction, bytes: seq<Byte>)
    requires Enabled(s, Read(dir, bytes)) && OrderIn(cfg, s, s.clientId, dir) && KeptIn(cfg, s, dir)
    ensures OrderIn(cfg, Next(cfg, s, Read(dir, bytes)), s.clientId, dir)
  {
    var id := s.clientId;
    BytesOneMore(s.input, Chunk(id, dir, bytes), id, dir);
    assert From(s.enqueued, id, dir) + [] == From(s.enqueued, id, dir);
    ItemsFurther(cfg, id, dir, BytesOf(s.input, id, dir), ThreadOf(s, dir).kept, bytes, From(s.enqueued, id, dir));
  }

  lemma ReadSparesOthers(cfg: Config, s: Sys, dir: Direction, bytes: seq<Byte>, id: int, d: Direction)
    requires Enabled(s, Read(dir, bytes)) && (id != s.clientId || d != dir)
    ensures var t := Next(cfg, s, Read(dir, bytes));
            BytesOf(t.input, id, d) == BytesOf(s.input, id, d) && PendingOf(t, id, d) == PendingOf(s, id, d)
  {
    BytesOneMore(s.input, Chunk(s.clientId, dir, bytes), id, d);
  }

  lemma ReadKeepsOrder(cfg: Config, s: Sys, dir: Direction, bytes: seq<Byte>, id: int, d: Direction)
    requires Enabled(s, Read(dir, bytes)) && OrderIn(cfg, s, id, d) && KeptIn(cfg, s, dir)
    ensures OrderIn(cfg, Next(cfg, s, Read(dir, bytes)), id, d)
  {
    if id == s.clientId && d == dir {
      ReadGrowsOwn(cfg, s, dir, bytes);
    } else {
      ReadSparesOthers(cfg, s, dir, bytes, id, d);
    }
  }

  lemma ReadKeepsKept(cfg: Config, s: Sys, dir: Direction, bytes: seq<Byte>, d: Direction)
    requires Enabled(s, Read(dir, bytes)) && KeptIn(cfg, s, dir) && KeptIn(cfg, s, d)
    ensures KeptIn(cfg, Next(cfg, s, Read(dir, bytes)), d)
  {
    BytesOneMore(s.input, Chunk(s.clientId, dir, bytes), s.clientId, d);
    if d == dir {
      SplitConcat(LengthsIn(cfg, dir), BytesOf(s.input, s.clientId, dir), bytes);
    } else {
      assert BytesOf(s.input, s.clientId, d) + [] == BytesOf(s.input, s.clientId, d);
    }
  }

  lemma EnqueueMovesOne(cfg: Config, s: Sys, dir: Direction, id: int, d: Direction)
    requires Enabled(s, Enqueue(dir)) && HoldsOwn(s)
    ensures var t := Next(cfg, s, Enqueue(dir));
            From(t.enqueued, id, d) + PendingOf(t, id, d) == From(s.enqueued, id, d) + PendingOf(s, id, d)
  {
    var pending := ThreadOf(s, dir).pending;
    FromOneMore(s.enqueued, pending[0], id, d);
    if id == s.clientId && d == dir {
      assert pending == [pending[0]] + pending[1..];
      Regrouped(From(s.enqueued, id, d), [pending[0]], pending[1..]);
    } else {
      assert From(s.enqueued, id, d) + [] == From(s.enqueued, id, d);
    }
  }

  lemma EnqueueKeepsOrder(cfg: Config, s: Sys, dir: Direction, id: int, d: Direction)
    requires Enabled(s, Enqueue(dir)) && OrderIn(cfg, s, id, d) && HoldsOwn(s)
    ensures OrderIn(cfg, Next(cfg, s, Enqueue(dir)), id, d)
  {
    EnqueueMovesOne(cfg, s, dir, id, d);
  }

  lemma OthersEnqueueNothing(cfg: Config, s: Sys, a: Action, id: int, d: Direction)
    requires Enabled(s, a) && !a.Read? && !a.Enqueue?
    ensures Next(cfg, s, a).input == s.input
    ensures From(Next(cfg, s, a).enqueued, id, d) == From(s.enqueued, id, d)
  {
    if a.SendSentinel? {
      FromOneMore(s.enqueued, SENTINEL, id, d);
    }
  }

  lemma OthersLeavePending(cfg: Config, s: Sys, a: Action, id: int, d: Direction)
    requires ThreadsFollowMain(s) && Enabled(s, a) && !a.Read? && !a.Enqueue?
    ensures PendingOf(Next(cfg, s, a), id, d) == PendingOf(s, id, d)
  {
  }

  lemma OthersKeepOrder(cfg: Config, s: Sys, a: Action, id: int, d: Direction)
    requires ThreadsFollowMain(s) && Enabled(s, a) && OrderIn(cfg, s, id, d) && !a.Read? && !a.Enqueue?
    ensures OrderIn(cfg, Next(cfg, s, a), id, d)
  {
    OthersEnqueueNothing(cfg, s, a, id, d);
    OthersLeavePending(cfg, s, a, id, d);
  }

  lemma OrderKept(cfg: Config, s: Sys, a: Action, id: int, d: Direction)
    requires Inv(cfg, s) && Enabled(s, a)
    ensures OrderIn(cfg, Next(cfg, s, a), id, d)
  {
    assert OrderIn(cfg, s, id, d);
    match a
    case Read(dir, bytes) => ReadKeepsOrder(cfg, s, dir, bytes, id, d);
    case Enqueue(dir) => EnqueueKeepsOrder(cfg, s, dir, id, d);
    case _ => OthersKeepOrder(cfg, s, a, id, d);
  }

  lemma KeptKept(cfg: Config, s: Sys, a: Action, d: Direction)
    requires Inv(cfg, s) && Enabled(s, a)
    ensures KeptIn(cfg, Next(cfg, s, a), d)
  {
    match a
    case Read(dir, bytes) => ReadKeepsKept(cfg, s, dir, bytes, d);
    case StartClient => NothingRead(s.input, s.clientId, Commands);
    case StartServer => NothingRead(s.input, s.clientId, Events);
    case _ =>
  }

  // ---------- the queue and the sentinel ----------

  lemma FifoKept(cfg: Config, s: Sys, a: Action)
    requires Fifo(s) && SentinelIsLast(s) && Enabled(s, a)
    ensures Fifo(Next(cfg, s, a))
  {
    match a
    case Dequeue =>
      assert s.queue == [s.queue[0]] + s.queue[1..];
      QueuedItem(s, 0);
    case _ =>
  }

  lemma QueuedItem(s: Sys, i: nat)
    requires Fifo(s) && SentinelIsLast(s) && i < |s.queue|
    ensures s.queue[i].pkt.None? ==> s.queue[i] == SENTINEL && i == |s.queue| - 1
  {
    assert s.enqueued[|s.enqueued| - |s.queue| + i] == s.queue[i];
  }

  lemma SentinelKept(cfg: Config, s: Sys, a: Action)
    requires ThreadsFollowMain(s) && HoldsOwn(s) && SentinelIsLast(s) && Enabled(s, a)
    ensures SentinelIsLast(Next(cfg, s, a))
  {
    match a
    case Enqueue(dir) => assert ThreadOf(s, dir).pending[0].pkt.Some?;
    case SendSentinel => assert Next(cfg, s, a).enqueued[..|s.enqueued|] == s.enqueued;
    case _ =>
  }

  lemma OwnKept(cfg: Config, s: Sys, a: Action)
    requires ThreadsFollowMain(s) && HoldsOwn(s) && Enabled(s, a)
    ensures HoldsOwn(Next(cfg, s, a))
  {
  }

  lemma ReadsKept(cfg: Config, s: Sys, a: Action)
    requires ThreadsFollowMain(s) && ReadsFollowMain(s) && Enabled(s, a)
    ensures ReadsFollowMain(Next(cfg, s, a))
  {
  }

  lemma StepKeepsInv(cfg: Config, s: Sys, a: Action)
    requires Inv(cfg, s) && Enabled(s, a)
    ensures Inv(cfg, Next(cfg, s, a))
  {
    OwnKept(cfg, s, a);
    ReadsKept(cfg, s, a);
    forall id, d ensures OrderIn(cfg, Next(cfg, s, a), id, d) {
      OrderKept(cfg, s, a, id, d);
    }
    KeptKept(cfg, s, a, Commands);
    KeptKept(cfg, s, a, Events);
    FifoKept(cfg, s, a);
    SentinelKept(cfg, s, a);
  }

  // ---------- runs ----------

  predicate IsRun(cfg: Config, s: Sys, run: seq<Action>)
    decreases |run|
  {
    run == [] || (Enabled(s, run[0]) && IsRun(cfg, Next(cfg, s, run[0]), run[1..]))
  }

  function After(cfg: Config, s: Sys, run: seq<Action>): Sys
    requires IsRun(cfg, s, run)
    decreases |run|
  {
    if run == [] then s else After(cfg, Next(cfg, s, run[0]), run[1..])
  }

  lemma {:induction false} RunKeepsInv(cfg: Config, s: Sys, run: seq<Action>)
    requires Inv(cfg, s) && IsRun(cfg, s, run)
    ensures Inv(cfg, After(cfg, s, run))
    decreases |run|
  {
    if run != [] {
      StepKeepsInv(cfg, s, run[0]);
      RunKeepsInv(cfg, Next(cfg, s, run[0]), run[1..]);
    }
  }

  lemma InitHasInv(cfg: Config)
    ensures Inv(cfg, INIT)
  {
  }

  /** In every interleaving: what was logged and what is on its way are everything enqueued, in order, and
      the log of each session and direction is a prefix of the items of the bytes read in it. */
  lemma TracingIsFifo(cfg: Config, run: seq<Action>)
    requires IsRun(cfg, INIT, run)
    ensures var s := After(cfg, INIT, run);
            && s.logged + Taken(s.tracer) + s.queue == s.enqueued
            && AllPackets(s.logged)
            && forall id, dir :: From(s.logged, id, dir) <= Expected(cfg, s, id, dir)
  {
    InitHasInv(cfg);
    RunKeepsInv(cfg, INIT, run);
    var s := After(cfg, INIT, run);
    forall id, dir
      ensures From(s.logged, id, dir) <= Expected(cfg, s, id, dir)
    {
      assert OrderIn(cfg, s, id, dir);
      LogIsPrefix(cfg, s, id, dir);
    }
  }

  lemma LogIsPrefix(cfg: Config, s: Sys, id: int, dir: Direction)
    requires Fifo(s) && OrderIn(cfg, s, id, dir)
    ensures From(s.logged, id, dir) <= Expected(cfg, s, id, dir)
  {
    Regrouped(s.logged, Taken(s.tracer), s.queue);
    FromConcat(s.logged, Taken(s.tracer) + s.queue, id, dir);
    PrefixOfPrefix(From(s.logged, id, dir), From(s.enqueued, id, dir), Expected(cfg, s, id, dir));
  }

  lemma OnlyTheLastIsSentinel(s: Sys, i: nat)
    requires SentinelIsLast(s) && i < |s.enqueued|
    ensures s.enqueued[i].pkt.None? ==> i == |s.enqueued| - 1 && (s.main == JoiningTracer || s.main == Finished)
  {
    if (s.main == JoiningTracer || s.main == Finished) && i < |s.enqueued| - 1 {
      assert s.enqueued[..|s.enqueued| - 1][i] == s.enqueued[i];
    }
  }

  /** The sentinel is the last thing the tracer takes out, and nothing is behind it. */
  lemma DrainedMeansEmpty(s: Sys)
    requires Fifo(s) && SentinelIsLast(s) && s.tracer == Drained
    ensures s.queue == [] && s.enqueued == s.logged + [SENTINEL]
    ensures s.main == JoiningTracer || s.main == Finished
  {
    assert s.enqueued[|s.logged|] == SENTINEL;
    OnlyTheLastIsSentinel(s, |s.logged|);
  }

  lemma LoggedArePackets(s: Sys, i: nat)
    requires Fifo(s) && LogsPackets(s) && i < |s.enqueued|
    ensures i < |s.logged| ==> s.enqueued[i].pkt.Some?
  {
    if i < |s.logged| {
      assert s.logged[i] == s.enqueued[i];
    }
  }

  lemma WaitingMeansBacklog(s: Sys)
    requires Fifo(s) && SentinelIsLast(s) && LogsPackets(s) && s.main == JoiningTracer && s.tracer == Waiting
    ensures s.queue != []
  {
    LoggedArePackets(s, |s.enqueued| - 1);
  }

  /** When the tracer exits the queue is empty, everything enqueued but the sentinel has been logged, and
      the log of each session and direction is exactly the items of the bytes read in it: every packet
      they complete, in order, with its dropped flag. */
  lemma NothingIsLostAtExit(cfg: Config, run: seq<Action>)
    requires IsRun(cfg, INIT, run) && After(cfg, INIT, run).tracer == Drained
    ensures var s := After(cfg, INIT, run);
            && s.queue == [] && s.enqueued == s.logged + [SENTINEL]
            && s.cmd == Absent && s.evt == Absent
            && forall id, dir :: From(s.logged, id, dir) == Expected(cfg, s, id, dir)
  {
    InitHasInv(cfg);
    RunKeepsInv(cfg, INIT, run);
    var s := After(cfg, INIT, run);
    DrainedMeansEmpty(s);
    forall id, dir
      ensures From(s.logged, id, dir) == Expected(cfg, s, id, dir)
    {
      assert OrderIn(cfg, s, id, dir);
      FromOneMore(s.logged, SENTINEL, id, dir);
    }
  }

  /** Items still to be handled by the tracer. */
  function Backlog(s: Sys): nat {
    2 * |s.queue| + (if s.tracer.Logging? then 1 else 0)
  }

  /** Once main waits for the tracer, only the tracer can move, each move shrinks its backlog, and it
      exits exactly when there is none left: the join comes. */
  lemma JoinComes(cfg: Config, s: Sys, a: Action)
    requires Inv(cfg, s) && s.main == JoiningTracer
    ensures Backlog(s) == 0 <==> s.tracer == Drained
    ensures s.tracer != Drained ==> Enabled(s, Dequeue) || Enabled(s, Log)
    ensures Enabled(s, a) ==> a == Dequeue || a == Log || a == JoinTracer
    ensures Enabled(s, a) && a != JoinTracer ==> Backlog(Next(cfg, s, a)) < Backlog(s)
  {
    if s.tracer == Drained {
      DrainedMeansEmpty(s);
    } else if s.tracer == Waiting {
      WaitingMeansBacklog(s);
    }
  }
}
