/**
 The main thread of the trace proxy (qwstrace_run in trace_proxy/trace_proxy.c), read off the runs of Tracer:
 in every interleaving it goes through its loop as written, and shuts down as written.
 */
module TracerMain {
  import opened Codec
  import opened Streams
  import opened Tracer

  /** The steps of the main thread. */
  predicate IsMain(a: Action) {
    a.Accept? || a.JoinClient? || a.JoinServer? || a.Connect? || a.StartClient? || a.StartServer? || a.SendSentinel?
    || a.JoinTracer?
  }

  /** What the main thread did in a run since it last accepted. */
  function SinceAccept(cfg: Config, s: Sys, run: seq<Action>, before: seq<Action>): seq<Action>
    requires IsRun(cfg, s, run)
    decreases |run|
  {
    if run == [] then before
    else SinceAccept(cfg, Next(cfg, s, run[0]), run[1..], OneMore(before, run[0]))
  }

  function OneMore(before: seq<Action>, a: Action): seq<Action> {
    if !IsMain(a) then before else if a.Accept? then [a] else before + [a]
  }

  /** The accept, and the old session joined if there is one. */
  function Front(accepted: bool, session: bool): seq<Action> {
    if session then [Accept(accepted), JoinClient, JoinServer] else [Accept(accepted)]
  }

  /** The new session, if the server can be reached; or, when the accept failed, the end. */
  function Back(accepted: bool, connected: bool): seq<Action> {
    if !accepted then [SendSentinel, JoinTracer]
    else if connected then [Connect(true), StartClient, StartServer] else [Connect(false)]
  }

  /** One turn of the loop. */
  function Turn(accepted: bool, session: bool, connected: bool): seq<Action> {
    Front(accepted, session) + Back(accepted, connected)
  }

  /** How far the turn has come says where the main thread is. */
  predicate Tells(h: seq<Action>, s: Sys) {
    var had := |h| > 1 && h[1] == JoinClient;
    match s.main
    case Accepting => (h == [] && !s.session) || h == Turn(true, had, s.session)
    case JoiningClient(last) => h == [Accept(!last)] && s.session
    case JoiningServer(last) => h == [Accept(!last), JoinClient] && s.session
    case Connecting => h == Front(true, had) && !s.session
    case StartingClient => h == Front(true, had) + [Connect(true)] && s.session
    case StartingServer => h == Front(true, had) + [Connect(true), StartClient] && s.session
    case SendingSentinel => h == Front(false, had) && !s.session
    case JoiningTracer => h == Front(false, had) + [SendSentinel] && !s.session
    case Finished => h == Turn(false, had, true) && !s.session
  }

  lemma SameTells(h: seq<Action>, s: Sys, t: Sys)
    requires Tells(h, s) && t.main == s.main && t.session == s.session
    ensures Tells(h, t)
  {
  }

  lemma MainTells(cfg: Config, s: Sys, a: Action, h: seq<Action>)
    requires Enabled(s, a) && Tells(h, s) && IsMain(a)
    ensures Tells(if a.Accept? then [a] else h + [a], Next(cfg, s, a))
  {
  }

  lemma StepTells(cfg: Config, s: Sys, a: Action, h: seq<Action>)
    requires Enabled(s, a) && Tells(h, s)
    ensures Tells(OneMore(h, a), Next(cfg, s, a))
  {
    if IsMain(a) {
      MainTells(cfg, s, a, h);
    } else {
      SameTells(h, s, Next(cfg, s, a));
    }
  }

  lemma {:induction false} RunTells(cfg: Config, s: Sys, run: seq<Action>, h: seq<Action>)
    requires IsRun(cfg, s, run) && Tells(h, s)
    ensures Tells(SinceAccept(cfg, s, run, h), After(cfg, s, run))
    decreases |run|
  {
    if run != [] {
      StepTells(cfg, s, run[0], h);
      RunTells(cfg, Next(cfg, s, run[0]), run[1..], OneMore(h, run[0]));
    }
  }

  lemma TellsBeginning(h: seq<Action>, s: Sys)
    requires Tells(h, s)
    ensures exists accepted, session, connected :: h <= Turn(accepted, session, connected)
  {
    var had := |h| > 1 && h[1] == JoinClient;
    var session := s.main.JoiningClient? || s.main.JoiningServer? || had;
    var connected := s.main != Accepting || s.session;
    assert h <= Turn(true, session, connected) || h <= Turn(false, session, true);
  }

  lemma TellsTheSource(h: seq<Action>, s: Sys)
    requires Tells(h, s)
    ensures exists accepted, session, connected :: h <= Turn(accepted, session, connected)
    ensures s.main == Accepting <==> h == [] || exists session, connected :: h == Turn(true, session, connected)
    ensures s.main == Finished <==> exists session, connected :: h == Turn(false, session, connected)
    ensures s.main == Accepting ==> (s.session <==> h != [] && h[|h| - 1] == StartServer)
  {
    TellsBeginning(h, s);
    forall accepted, session, connected | h == Turn(accepted, session, connected)
      ensures s.main == if accepted then Accepting else Finished
    {
      TurnEnds(h, accepted, session, connected);
    }
  }

  lemma TurnEnds(h: seq<Action>, accepted: bool, session: bool, connected: bool)
    requires h == Turn(accepted, session, connected)
    ensures h != [] && h[0] == Accept(accepted)
    ensures h[|h| - 1] == if !accepted then JoinTracer else if connected then StartServer else Connect(false)
  {
  }

  /** In every interleaving the main thread's steps since its last accept are a beginning of one turn of the
      loop as the source writes it, it is back at the accept exactly when a turn for a client is complete,
      with a session exactly when both its threads were started, and it has finished exactly when the turn of a
      failed accept is complete: an old session joined, the sentinel sent, the tracer joined. */
  lemma MainFollowsTheSource(cfg: Config, run: seq<Action>)
    requires IsRun(cfg, INIT, run)
    ensures var h, s := SinceAccept(cfg, INIT, run, []), After(cfg, INIT, run);
            && (exists accepted, session, connected :: h <= Turn(accepted, session, connected))
            && (s.main == Accepting <==> h == [] || exists session, connected :: h == Turn(true, session, connected))
            && (s.main == Finished <==> exists session, connected :: h == Turn(false, session, connected))
            && (s.main == Accepting ==> (s.session <==> h != [] && h[|h| - 1] == StartServer))
  {
    RunTells(cfg, INIT, run, []);
    TellsTheSource(SinceAccept(cfg, INIT, run, []), After(cfg, INIT, run));
  }

  /** The main thread is held up only by a thread it joins that has not exited; the accept and the connection
      always come back, with success or failure. */
  lemma OnlyJoinsBlock(s: Sys)
    ensures (exists a :: IsMain(a) && Enabled(s, a)) <==>
            && s.main != Finished
            && (s.main.JoiningClient? ==> s.cmd == Exited)
            && (s.main.JoiningServer? ==> s.evt == Exited)
            && (s.main == JoiningTracer ==> s.tracer == Drained)
  {
    var a := match s.main
             case Accepting => Accept(true)
             case JoiningClient(_) => JoinClient
             case JoiningServer(_) => JoinServer
             case Connecting => Connect(true)
             case StartingClient => StartClient
             case StartingServer => StartServer
             case SendingSentinel => SendSentinel
             case _ => JoinTracer;
    assert IsMain(a);
    assert Enabled(s, a) || !exists b :: IsMain(b) && Enabled(s, b);
  }

  function Connects(run: seq<Action>): nat {
    if run == [] then 0 else (if run[0].Connect? then 1 else 0) + Connects(run[1..])
  }

  /** Sessions are numbered by the attempts to connect, failed ones included. */
  lemma {:induction false} AttemptsAreNumbered(cfg: Config, s: Sys, run: seq<Action>)
    requires IsRun(cfg, s, run)
    ensures After(cfg, s, run).clientId == s.clientId + Connects(run)
    decreases |run|
  {
    if run != [] {
      AttemptsAreNumbered(cfg, Next(cfg, s, run[0]), run[1..]);
    }
  }

  /** While the second thread is still to be started only commands are read, and after the join of the first
      only events. */
  lemma ThreadsReadTheirDirection(cfg: Config, run: seq<Action>, dir: Direction, bytes: seq<Byte>)
    requires IsRun(cfg, INIT, run) && Enabled(After(cfg, INIT, run), Read(dir, bytes))
    ensures var s := After(cfg, INIT, run);
            && s.session
            && (s.main == StartingServer ==> dir == Commands)
            && (s.main.JoiningServer? ==> dir == Events)
  {
    InitHasInv(cfg);
    RunKeepsInv(cfg, INIT, run);
  }

  /** With the tables of the protocol: at the tracer's exit the log of a session and direction is the items of
      the packets its bytes are split into by the lengths of that direction. */
  lemma ProtocolIsLogged(mask: bv64, run: seq<Action>, id: int, dir: Direction)
    requires var cfg := Config(mask, LengthsOf(Commands), LengthsOf(Events));
             IsRun(cfg, INIT, run) && After(cfg, INIT, run).tracer == Drained
    ensures var s := After(Config(mask, LengthsOf(Commands), LengthsOf(Events)), INIT, run);
            From(s.logged, id, dir) == Traced(mask, dir, id, Split(LengthsOf(dir), BytesOf(s.input, id, dir)).0)
  {
    NothingIsLostAtExit(Config(mask, LengthsOf(Commands), LengthsOf(Events)), run);
  }
}
