/**
 Property commands and notifications between clients (proxy/proxy.c, proxy/client.c): every client keeps a
 set of packed keys it asked for, and a broadcast visits all clients.
 */
module PropertyBroadcast {
  import opened Wrappers
  import opened Codec
  import opened PropertyStore

  const TEXT_CLIPBOARD := Pair(0, 424242)

  datatype Notice = Notify(at: Pair, deleted: bool) | Reply(at: Pair, value: Option<seq<Byte>>)

  /** client is the sender's place among the connected clients. */
  datatype Command =
    | AddProperty(client: nat, at: Pair)
    | RemoveProperty(client: nat, at: Pair)
    | SetProperty(client: nat, at: Pair, mode: int, value: seq<Byte>)
    | GetProperty(client: nat, at: Pair)

  datatype Listener = Listener(interests: set<Pair>, inbox: seq<Notice>)

  datatype State = State(store: Contents, clients: seq<Listener>)

  // ---------- what a command does ----------

  function Told(l: Listener, note: Notice): Listener {
    l.(inbox := l.inbox + [note])
  }

  /** Everyone who asked for the pair is told. */
  function Broadcast(clients: seq<Listener>, note: Notice): (told: seq<Listener>)
    ensures |told| == |clients|
  {
    seq(|clients|, i requires 0 <= i < |clients| =>
      if note.at in clients[i].interests then Told(clients[i], note) else clients[i])
  }

  /** The clipboard goes its own way. */
  predicate Ordinary(c: Command) {
    c.SetProperty? || c.GetProperty? ==> c.at != TEXT_CLIPBOARD
  }

  predicate Acceptable(s: State, c: Command) {
    c.client < |s.clients| && Ordinary(c)
  }

  function WithInterests(clients: seq<Listener>, i: nat, interests: set<Pair>): seq<Listener>
    requires i < |clients|
  {
    clients[i := clients[i].(interests := interests)]
  }

  function Handled(s: State, c: Command): (t: State)
    requires Acceptable(s, c)
    ensures |t.clients| == |s.clients|
  {
    var mine := s.clients[c.client];
    match c
    case AddProperty(i, at) =>
      State(Added(s.store, at), WithInterests(s.clients, i, mine.interests + {at}))
    case RemoveProperty(i, at) =>
      var left := WithInterests(s.clients, i, mine.interests - {at});
      State(Removed(s.store, at), if at in s.store then Broadcast(left, Notify(at, true)) else left)
    case SetProperty(i, at, mode, value) =>
      State(Changed(s.store, at, mode, value), Broadcast(s.clients, Notify(at, false)))
    case GetProperty(i, at) =>
      s.(clients := s.clients[i := Told(mine, Reply(at, if at in s.store then Some(s.store[at]) else None))])
  }

  // ---------- over every run ----------

  function Connected(n: nat): State {
    State(map[], seq(n, _ => Listener({}, [])))
  }

  predicate AllAcceptable(n: nat, cmds: seq<Command>) {
    forall k :: 0 <= k < |cmds| ==> cmds[k].client < n && Ordinary(cmds[k])
  }

  function Run(n: nat, cmds: seq<Command>): (s: State)
    requires AllAcceptable(n, cmds)
    ensures |s.clients| == n
    decreases |cmds|
  {
    if cmds == [] then Connected(n) else Handled(Run(n, cmds[..|cmds| - 1]), cmds[|cmds| - 1])
  }

  /** The bytes of a property after a command: empty when it is new, set in one of the three ways by a
      SetProperty on it, and otherwise what they were. */
  lemma BytesAfter(s: State, c: Command, at: Pair)
    requires Acceptable(s, c)
    ensures var m, t := s.store, Handled(s, c).store;
            && (at in t <==> (at in m || (c.AddProperty? && c.at == at)) && !(c.RemoveProperty? && c.at == at))
            && (at in t && at !in m ==> t[at] == [])
            && (at in t && at in m && !(c.SetProperty? && c.at == at && 0 <= c.mode <= 2) ==> t[at] == m[at])
            && (at in m && c.SetProperty? && c.at == at ==>
                  && (c.mode == 0 ==> t[at] == c.value)
                  && (c.mode == 1 ==> t[at] == c.value + m[at])
                  && (c.mode == 2 ==> t[at] == m[at] + c.value))
  {
    match c
    case AddProperty(_, added) => AddedBytes(s.store, added, at);
    case SetProperty(_, changed, mode, value) =>
      ChangedBytes(s.store, changed, mode, value, at);
      if at == changed && at in s.store && (mode == 1 || mode == 2) {
        var w := Handled(s, c).store[at];
        var cut := if mode == 1 then |value| else |s.store[at]|;
        assert w == w[..cut] + w[cut..];
      }
    case _ =>
  }

  /** A property keeps its bytes through every run of commands that neither sets nor removes it; adding it
      again is one of them. */
  lemma {:induction false} BytesSurvive(n: nat, before: seq<Command>, more: seq<Command>, at: Pair)
    requires AllAcceptable(n, before + more) && AllAcceptable(n, before) && at in Run(n, before).store
    requires forall k :: 0 <= k < |more| ==> !((more[k].SetProperty? || more[k].RemoveProperty?) && more[k].at == at)
    ensures at in Run(n, before + more).store && Run(n, before + more).store[at] == Run(n, before).store[at]
  {
    if more == [] {
      assert before + more == before;
    } else {
      var front, c := more[..|more| - 1], more[|more| - 1];
      var all := before + more;
      assert all[..|all| - 1] == before + front && all[|all| - 1] == c;
      assert forall k :: 0 <= k < |front| ==> front[k] == more[k];
      BytesSurvive(n, before, front, at);
      BytesAfter(Run(n, before + front), c, at);
    }
  }

  /** The sender's last word on the pair was AddProperty. */
  predicate LastAdded(cmds: seq<Command>, client: nat, at: Pair)
    decreases |cmds|
  {
    if cmds == [] then false
    else
      var c := cmds[|cmds| - 1];
      if c.client == client && c.at == at && (c.AddProperty? || c.RemoveProperty?) then c.AddProperty?
      else LastAdded(cmds[..|cmds| - 1], client, at)
  }

  /** Anyone's last word on the pair was AddProperty. */
  predicate LastAddedByAny(cmds: seq<Command>, at: Pair)
    decreases |cmds|
  {
    if cmds == [] then false
    else
      var c := cmds[|cmds| - 1];
      if c.at == at && (c.AddProperty? || c.RemoveProperty?) then c.AddProperty?
      else LastAddedByAny(cmds[..|cmds| - 1], at)
  }

  lemma HandledInterests(s: State, c: Command, i: nat, at: Pair)
    requires Acceptable(s, c) && i < |s.clients|
    ensures at in Handled(s, c).clients[i].interests <==>
              if c.client == i && c.at == at && (c.AddProperty? || c.RemoveProperty?) then c.AddProperty?
              else at in s.clients[i].interests
  {
  }

  /** In every run a client is subscribed to exactly the pairs it added last, and a property exists
      exactly while the last add or remove by anyone was an add. */
  lemma {:induction false} SubscriptionsFollowHistory(n: nat, cmds: seq<Command>, i: nat, at: Pair)
    requires AllAcceptable(n, cmds) && i < n
    ensures at in Run(n, cmds).clients[i].interests <==> LastAdded(cmds, i, at)
    ensures at in Run(n, cmds).store <==> LastAddedByAny(cmds, at)
    decreases |cmds|
  {
    if cmds != [] {
      var front, c := cmds[..|cmds| - 1], cmds[|cmds| - 1];
      SubscriptionsFollowHistory(n, front, i, at);
      HandledInterests(Run(n, front), c, i, at);
    }
  }

  /** What a command adds to a client's inbox, read off the history alone. */
  function Expected(history: seq<Command>, c: Command, i: nat, value: Option<seq<Byte>>): seq<Notice> {
    match c
    case AddProperty(_, _) => []
    case RemoveProperty(j, at) =>
      if LastAddedByAny(history, at) && LastAdded(history, i, at) && i != j then [Notify(at, true)] else []
    case SetProperty(_, at, _, _) => if LastAdded(history, i, at) then [Notify(at, false)] else []
    case GetProperty(j, at) => if i == j then [Reply(at, value)] else []
  }

  /** After any run, the next command's broadcast reaches exactly the clients subscribed by then: on a
      removal not the remover, and nobody when there was nothing to remove; on a change everybody who
      asked, whether or not the property exists. */
  lemma BroadcastReachesSubscribers(n: nat, history: seq<Command>, c: Command, i: nat)
    requires AllAcceptable(n, history) && AllAcceptable(n, history + [c]) && i < n
    ensures var was := Run(n, history);
            Run(n, history + [c]).clients[i].inbox ==
              was.clients[i].inbox + Expected(history, c, i, if c.at in was.store then Some(was.store[c.at]) else None)
  {
    assert (history + [c])[..|history|] == history && (history + [c])[|history|] == c;
    SubscriptionsFollowHistory(n, history, i, c.at);
    var was := Run(n, history);
    assert Run(n, history + [c]) == Handled(was, c);
    assert was.clients[i].inbox + [] == was.clients[i].inbox;
  }

  // ---------- the proxy's clients and dispatcher ----------

  class Client {
    var subscriptions: set<int>
    var inbox: seq<Notice>
    ghost var interests: set<Pair>

    ghost predicate Valid()
      reads this
    {
      forall at: Pair :: at in interests <==> PropKey(at) in subscriptions
    }

    constructor ()
      ensures Valid() && interests == {} && inbox == []
    {
      subscriptions, inbox, interests := {}, [], {};
    }

    method Subscribe(at: Pair)
      requires Valid()
      modifies `subscriptions, `interests
      ensures Valid() && interests == old(interests) + {at}
    {
      forall other: Pair ensures PropKey(other) == PropKey(at) ==> other == at {
        PropKeyIsInjective(other, at);
      }
      subscriptions, interests := subscriptions + {PropKey(at)}, interests + {at};
    }

    method Unsubscribe(at: Pair)
      requires Valid()
      modifies `subscriptions, `interests
      ensures Valid() && interests == old(interests) - {at}
    {
      forall other: Pair ensures PropKey(other) == PropKey(at) ==> other == at {
        PropKeyIsInjective(other, at);
      }
      subscriptions, interests := subscriptions - {PropKey(at)}, interests - {at};
    }

    method IsSubscribed(at: Pair) returns (r: bool)
      requires Valid()
      ensures r <==> at in interests
    {
      r := PropKey(at) in subscriptions;
    }

    method Send(note: Notice)
      modifies `inbox
      ensures inbox == old(inbox) + [note]
    {
      inbox := inbox + [note];
    }
  }

  class Proxy {
    const store: Store
    const clients: seq<Client>
    ghost var model: State

    constructor (clients: seq<Client>)
      requires forall i, j :: 0 <= i < j < |clients| ==> clients[i] != clients[j]
      requires forall i :: 0 <= i < |clients| ==>
                 clients[i].Valid() && clients[i].interests == {} && clients[i].inbox == []
      ensures Valid() && model == Connected(|clients|) && this.clients == clients && fresh(store)
    {
      store := new Store();
      this.clients := clients;
      model := Connected(|clients|);
    }

    ghost predicate Valid()
      reads this, store, clients
    {
      && store.Valid() && store.contents == model.store
      && |clients| == |model.clients|
      && (forall i, j :: 0 <= i < j < |clients| ==> clients[i] != clients[j])
      && (forall i :: 0 <= i < |clients| ==> Mirrors(clients[i], model.clients[i]))
    }

    ghost predicate Mirrors(client: Client, l: Listener)
      reads client
    {
      client.Valid() && client.interests == l.interests && client.inbox == l.inbox
    }

    method BroadcastNotice(note: Notice)
      requires Valid()
      modifies `model, clients`inbox
      ensures Valid() && model == old(model).(clients := Broadcast(old(model).clients, note))
    {
      ghost var told := Broadcast(model.clients, note);
      for i := 0 to |clients|
        invariant model == old(model) && store.Valid() && store.contents == model.store
        invariant forall k :: 0 <= k < |clients| ==>
                    clients[k].Valid() && clients[k].interests == model.clients[k].interests
        invariant forall k :: 0 <= k < i ==> clients[k].inbox == told[k].inbox
        invariant forall k :: i <= k < |clients| ==> clients[k].inbox == model.clients[k].inbox
      {
        assert Mirrors(clients[i], model.clients[i]);
        var subscribed := clients[i].IsSubscribed(note.at);
        if subscribed {
          clients[i].Send(note);
        }
      }
      model := model.(clients := told);
    }

    method HandleAdd(i: nat, at: Pair)
      requires Valid() && i < |model.clients|
      modifies `model, store, clients
      ensures Valid() && model == Handled(old(model), AddProperty(i, at))
    {
      store.Add(at);
      clients[i].Subscribe(at);
      model := State(Added(model.store, at), WithInterests(model.clients, i, model.clients[i].interests + {at}));
    }

    method HandleRemove(i: nat, at: Pair)
      requires Valid() && i < |model.clients|
      modifies `model, store, clients
      ensures Valid() && model == Handled(old(model), RemoveProperty(i, at))
    {
      var removed := store.Remove(at);
      clients[i].Unsubscribe(at);
      model := State(Removed(model.store, at), WithInterests(model.clients, i, model.clients[i].interests - {at}));
      if removed {
        BroadcastNotice(Notify(at, true));
      }
    }

    method HandleSet(i: nat, at: Pair, mode: int, value: seq<Byte>)
      requires Valid() && i < |model.clients| && at != TEXT_CLIPBOARD
      requires |value| < 0x8000_0000 && (at in model.store ==> |model.store[at]| + |value| < 0x8000_0000)
      modifies `model, store, clients
      ensures Valid() && model == Handled(old(model), SetProperty(i, at, mode, value))
    {
      var ok := store.Set(at, mode, value, |value|);
      assert value[..|value|] == value;
      model := model.(store := Changed(model.store, at, mode, value));
      BroadcastNotice(Notify(at, false));
    }

    method HandleGet(i: nat, at: Pair)
      requires Valid() && i < |model.clients| && at != TEXT_CLIPBOARD
      modifies `model, clients
      ensures Valid() && model == Handled(old(model), GetProperty(i, at))
    {
      var found, data, len := store.Get(at);
      var value := if len < 0 then None else if data.Some? then data else Some([]);
      clients[i].Send(Reply(at, value));
      model := Handled(model, GetProperty(i, at));
    }

    method Dispatch(c: Command)
      requires Valid() && Acceptable(model, c)
      requires c.SetProperty? ==> |c.value| < 0x8000_0000
      requires c.SetProperty? && c.at in model.store ==> |model.store[c.at]| + |c.value| < 0x8000_0000
      modifies `model, store, clients
      ensures Valid() && model == Handled(old(model), c)
    {
      match c
      case AddProperty(i, at) => HandleAdd(i, at);
      case RemoveProperty(i, at) => HandleRemove(i, at);
      case SetProperty(i, at, mode, value) => HandleSet(i, at, mode, value);
      case GetProperty(i, at) => HandleGet(i, at);
    }
  }
}
