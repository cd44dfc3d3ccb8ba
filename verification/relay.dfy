/** The relay as a whole: the registry, every connected client's nickname,
    and the text queued so far for each client, advanced one atomic step at
    a time.

    A step is a connection being accepted, one line read from a client, or a
    client's connection ending. A line's effects are carried out in order,
    and each request it submits is served by the control loop at the moment
    it is submitted. Queued text is what `SendMessage` put on the client's
    `send` channel; writing it to the connection is left to the write side.
 */
module Relay {
  import opened GoStrings
  import opened Nickname
  import opened Router
  import opened Commands

  type Outbox = map<ClientId, seq<string>>

  datatype World = World(clients: Registry, nicknames: map<ClientId, string>, outbox: Outbox)

  /** Every registry key is a valid nickname and the current nickname of the
      client it maps to; every client with a nickname is found under it; and
      every connected client has a queue. */
  predicate Invariant(w: World) {
    && w.nicknames.Keys == w.outbox.Keys
    && (forall k | k in w.clients ::
          IsValidNickname(k) && w.clients[k] in w.nicknames && w.nicknames[w.clients[k]] == k)
    && (forall id | id in w.nicknames && w.nicknames[id] != "" ::
          w.nicknames[id] in w.clients && w.clients[w.nicknames[id]] == id)
  }

  /** `NewServer`: nobody registered and nobody connected, which meets the
      invariant every later step preserves. */
  function Init(): (w: World)
    ensures Invariant(w)
    ensures |w.clients| == 0 && |w.nicknames| == 0 && |w.outbox| == 0
  {
    World(map[], map[], map[])
  }

  /** One order in which a `range` over the registry may visit its keys. */
  ghost function Enumeration(keys: set<string>): (order: seq<string>)
    ensures IsEnumeration(order, keys)
    decreases |keys|
  {
    if keys == {} then []
    else
      var k :| k in keys;
      var rest := Enumeration(keys - {k});
      assert multiset(keys) == multiset{k} + multiset(keys - {k}) by {
        assert keys == {k} + (keys - {k});
      }
      [k] + rest
  }

  /** Queues `text` for client `id`; a client that is gone receives nothing. */
  function Append(outbox: Outbox, id: ClientId, text: string): (r: Outbox)
    ensures r.Keys == outbox.Keys
    ensures id in outbox ==> r[id] == outbox[id] + [text]
    ensures forall k | k in outbox && k != id :: r[k] == outbox[k]
  {
    if id in outbox then outbox[id := outbox[id] + [text]] else outbox
  }

  /** Queues each delivery for its recipient, in order. */
  function Deliver(outbox: Outbox, ds: seq<Delivery>): (r: Outbox)
    ensures r.Keys == outbox.Keys
  {
    if ds == [] then outbox
    else Deliver(Append(outbox, ds[0].recipient, ds[0].text), ds[1..])
  }

  /** The texts among `ds` addressed to client `id`, in order. */
  function TextsFor(ds: seq<Delivery>, id: ClientId): seq<string> {
    if ds == [] then []
    else (if ds[0].recipient == id then [ds[0].text] else []) + TextsFor(ds[1..], id)
  }

  /** Carrying out one effect for client `id`: a reply is queued for the
      client, a request is served by the control loop. */
  ghost function Apply(w: World, id: ClientId, e: Effect): (r: World)
    ensures r.nicknames == w.nicknames && r.outbox.Keys == w.outbox.Keys
  {
    match e
    case Reply(text) => w.(outbox := Append(w.outbox, id, text))
    case Submit(req) =>
      var o := Serve(w.clients, req, Enumeration(w.clients.Keys));
      w.(clients := o.clients, outbox := Deliver(w.outbox, o.deliveries))
  }

  /** Carrying out a line's effects in order. */
  ghost function Perform(w: World, id: ClientId, effects: seq<Effect>): (r: World)
    ensures r.nicknames == w.nicknames && r.outbox.Keys == w.outbox.Keys
    decreases |effects|
  {
    if effects == [] then w else Perform(Apply(w, id, effects[0]), id, effects[1..])
  }

  /** `NewClient`: a new connection, without a nickname and with nothing
      queued. */
  function Connect(w: World, id: ClientId): (r: World)
    requires id !in w.nicknames
    ensures r.clients == w.clients
    ensures r.nicknames.Keys == w.nicknames.Keys + {id} && r.nicknames[id] == ""
    ensures r.outbox.Keys == w.outbox.Keys + {id} && r.outbox[id] == []
  {
    World(w.clients, w.nicknames[id := ""], w.outbox[id := []])
  }

  /** Client `id`'s handler having computed step `s`: its registry and
      nickname are installed, then its effects are carried out. */
  ghost function Install(w: World, id: ClientId, s: Step): (r: World)
    requires id in w.nicknames
    ensures r.nicknames == w.nicknames[id := s.nickname] && r.outbox.Keys == w.outbox.Keys
  {
    Perform(World(s.clients, w.nicknames[id := s.nickname], w.outbox), id, s.effects)
  }

  /** One line read by `Handle` from client `id`. Only that client's
      nickname can change, and only to a valid one; nobody connects or
      disconnects. */
  ghost function Input(w: World, id: ClientId, line: string): (r: World)
    requires id in w.nicknames
    ensures id in r.nicknames && r.nicknames == w.nicknames[id := r.nicknames[id]]
    ensures r.nicknames[id] == w.nicknames[id] || IsValidNickname(r.nicknames[id])
    ensures r.outbox.Keys == w.outbox.Keys
  {
    var c := Client(id, w.nicknames[id]);
    var s := ProcessInput(c, w.clients, line, Enumeration(w.clients.Keys));
    assert s.nickname == c.nickname || IsValidNickname(s.nickname);
    var r := Install(w, id, s);
    assert r.nicknames == w.nicknames[id := s.nickname];
    r
  }

  /** The end of `Handle`: the client is unregistered under its current
      nickname and its connection is gone. Under the invariant exactly the
      keys of that client leave the registry, and every other client keeps
      its entry. */
  function Disconnect(w: World, id: ClientId): (r: World)
    requires Invariant(w) && id in w.nicknames
    ensures forall k :: k in r.clients <==> k in w.clients && w.clients[k] != id
    ensures forall k | k in r.clients :: r.clients[k] == w.clients[k]
    ensures id !in r.nicknames && id !in r.outbox
  {
    World(RemoveClient(w.clients, Client(id, w.nicknames[id])), w.nicknames - {id}, w.outbox - {id})
  }

  lemma ConnectPreservesInvariant(w: World, id: ClientId)
    requires Invariant(w) && id !in w.nicknames
    ensures Invariant(Connect(w, id))
  {
  }

  lemma DisconnectPreservesInvariant(w: World, id: ClientId)
    requires Invariant(w) && id in w.nicknames
    ensures Invariant(Disconnect(w, id))
  {
  }

  /** A registration that repeats an entry the registry already holds
      changes nothing. */
  lemma RegisterAgain(clients: Registry, c: Client)
    requires c.nickname in clients && clients[c.nickname] == c.id
    ensures AddClient(clients, c) == clients
  {
  }

  /** Effects whose only registrations repeat what the registry already says
      about client `id` leave the registry and the nicknames as they were. */
  lemma {:induction false} PerformKeepsRegistry(w: World, id: ClientId, effects: seq<Effect>)
    requires forall e | e in effects && e.Submit? ::
      || e.request.Route?
      || (e.request.Register? && e.request.client.id == id
          && e.request.client.nickname in w.clients && w.clients[e.request.client.nickname] == id)
    ensures Perform(w, id, effects).clients == w.clients
    decreases |effects|
  {
    if effects != [] {
      var e := effects[0];
      assert e in effects;
      if e.Submit? && e.request.Register? {
        RegisterAgain(w.clients, e.request.client);
      }
      assert forall x | x in effects[1..] :: x in effects;
      PerformKeepsRegistry(Apply(w, id, e), id, effects[1..]);
    }
  }

  /** The invariant speaks only of the registry, the nicknames and which
      clients have a queue. */
  lemma InvariantOfShape(w: World, v: World)
    requires Invariant(w)
    requires v.clients == w.clients && v.nicknames == w.nicknames && v.outbox.Keys == w.outbox.Keys
    ensures Invariant(v)
  {
  }

  /** Client `id` taking the fresh valid nickname `nick` keeps the invariant. */
  lemma RenamePreservesInvariant(w: World, id: ClientId, nick: string, after: Registry)
    requires Invariant(w) && id in w.nicknames
    requires IsValidNickname(nick) && nick !in w.clients
    requires IsRename(Client(id, w.nicknames[id]), w.clients, nick, after)
    ensures Invariant(World(after, w.nicknames[id := nick], w.outbox))
  {
    RenameKeepsEntries(w, id, nick, after);
    RenameKeepsNicknames(w, id, nick, after);
  }

  /** After the rename every registry entry still names its client. */
  lemma RenameKeepsEntries(w: World, id: ClientId, nick: string, after: Registry)
    requires Invariant(w) && id in w.nicknames
    requires IsValidNickname(nick) && nick !in w.clients
    requires IsRename(Client(id, w.nicknames[id]), w.clients, nick, after)
    ensures forall k | k in after ::
      IsValidNickname(k) && after[k] in w.nicknames && w.nicknames[id := nick][after[k]] == k
  {
    var prev := w.nicknames[id];
    var n := w.nicknames[id := nick];
    forall k | k in after
      ensures IsValidNickname(k) && after[k] in n && n[after[k]] == k
    {
      if k != nick {
        assert k in w.clients && k != prev;
        assert w.clients[k] != id;
      }
    }
  }

  /** After the rename every client with a nickname is still found under it. */
  lemma RenameKeepsNicknames(w: World, id: ClientId, nick: string, after: Registry)
    requires Invariant(w) && id in w.nicknames
    requires IsValidNickname(nick) && nick !in w.clients
    requires IsRename(Client(id, w.nicknames[id]), w.clients, nick, after)
    ensures forall j | j in w.nicknames && w.nicknames[id := nick][j] != "" ::
      w.nicknames[id := nick][j] in after && after[w.nicknames[id := nick][j]] == j
  {
    var prev := w.nicknames[id];
    var n := w.nicknames[id := nick];
    forall j | j in n && n[j] != ""
      ensures n[j] in after && after[n[j]] == j
    {
      if j != id {
        assert w.nicknames[j] in w.clients;
        assert w.nicknames[j] != prev || prev == "";
      }
    }
  }

  /** Either shape a step's registry and nickname can take keeps the
      invariant. */
  lemma InstallPreservesInvariant(w: World, id: ClientId, nick: string, after: Registry)
    requires Invariant(w) && id in w.nicknames
    requires || (after == w.clients && nick == w.nicknames[id])
             || (IsValidNickname(nick) && nick !in w.clients && IsRename(Client(id, w.nicknames[id]), w.clients, nick, after))
    ensures Invariant(World(after, w.nicknames[id := nick], w.outbox))
  {
    if after == w.clients && nick == w.nicknames[id] {
      assert World(after, w.nicknames[id := nick], w.outbox) == w;
    } else {
      RenamePreservesInvariant(w, id, nick, after);
    }
  }

  /** Installing a disciplined step's registry and nickname and carrying out
      its effects keeps the invariant. */
  lemma DisciplinedPreservesInvariant(w: World, id: ClientId, s: Step)
    requires Invariant(w) && id in w.nicknames
    requires Disciplined(Client(id, w.nicknames[id]), w.clients, s)
    ensures Invariant(Install(w, id, s))
  {
    var w1 := World(s.clients, w.nicknames[id := s.nickname], w.outbox);
    InstallPreservesInvariant(w, id, s.nickname, s.clients);
    forall e | e in s.effects && e.Submit?
      ensures || e.request.Route?
              || (e.request.Register? && e.request.client.id == id
                  && e.request.client.nickname in w1.clients && w1.clients[e.request.client.nickname] == id)
    {
    }
    PerformKeepsRegistry(w1, id, s.effects);
    InvariantOfShape(w1, Perform(w1, id, s.effects));
  }

  /** Every line read keeps the invariant. */
  lemma InputPreservesInvariant(w: World, id: ClientId, line: string)
    requires Invariant(w) && id in w.nicknames
    ensures Invariant(Input(w, id, line))
  {
    DisciplinedPreservesInvariant(w, id,
      ProcessInput(Client(id, w.nicknames[id]), w.clients, line, Enumeration(w.clients.Keys)));
  }

  /** Delivering appends to each queue exactly the texts addressed to it, in
      order. */
  lemma {:induction false} DeliverAppends(outbox: Outbox, ds: seq<Delivery>, id: ClientId)
    requires id in outbox
    ensures Deliver(outbox, ds)[id] == outbox[id] + TextsFor(ds, id)
    decreases |ds|
  {
    if ds != [] {
      DeliverAppends(Append(outbox, ds[0].recipient, ds[0].text), ds[1..], id);
    }
  }

  /** `n` copies of `text`. */
  function Copies(text: string, n: nat): (r: seq<string>)
    ensures |r| == n && forall i | 0 <= i < n :: r[i] == text
  {
    seq(n, _ => text)
  }

  /** When every delivery carries `text` and goes to `id` exactly when its
      key is `key`, client `id` receives `text` as often as `key` occurs. */
  lemma {:induction false} TextsForUniform(ds: seq<Delivery>, id: ClientId, key: string, text: string)
    requires forall d | d in ds :: d.text == text && (d.recipient == id <==> d.nickname == key)
    ensures TextsFor(ds, id) == Copies(text, multiset(Nicknames(ds))[key])
    decreases |ds|
  {
    if ds != [] {
      assert ds[0] in ds;
      assert forall d | d in ds[1..] :: d in ds;
      TextsForUniform(ds[1..], id, key, text);
      var n := multiset(Nicknames(ds[1..]))[key];
      CountCons(ds, key);
      if ds[0].nickname == key {
        CopiesSucc(text, n);
      }
    }
  }

  lemma CountCons(ds: seq<Delivery>, key: string)
    requires ds != []
    ensures multiset(Nicknames(ds))[key] == (if ds[0].nickname == key then 1 else 0) + multiset(Nicknames(ds[1..]))[key]
  {
    assert ds == [ds[0]] + ds[1..];
    NicknamesCons(ds[0], ds[1..]);
  }

  lemma CopiesSucc(text: string, n: nat)
    ensures Copies(text, n + 1) == [text] + Copies(text, n)
  {
  }

  /** Under the invariant a registry entry and a client's nickname name each
      other. */
  lemma EntryNamesClient(w: World, k: string, id: ClientId)
    requires Invariant(w) && k in w.clients && id in w.nicknames
    ensures w.clients[k] == id <==> w.nicknames[id] == k
  {
  }

  /** The deliveries of a broadcast to client `id`: all of them carry the
      formatted message, and they go to `id` exactly when their key is its
      nickname. */
  lemma BroadcastAddressing(w: World, m: Message, id: ClientId)
    requires Invariant(w) && m.to == "" && id in w.nicknames
    ensures forall d | d in RouteMessage(w.clients, m, Enumeration(w.clients.Keys)) ::
      d.text == FormatMessage(m.from, m.content) && (d.recipient == id <==> d.nickname == w.nicknames[id])
  {
    forall d | d in RouteMessage(w.clients, m, Enumeration(w.clients.Keys))
      ensures d.text == FormatMessage(m.from, m.content) && (d.recipient == id <==> d.nickname == w.nicknames[id])
    {
      EntryNamesClient(w, d.nickname, id);
    }
  }

  /** A broadcast from `m.from`: every connected client with a nickname other
      than the sender gets the formatted message exactly once; every other
      queue stays as it was. */
  lemma BroadcastQueues(w: World, m: Message, id: ClientId)
    requires Invariant(w) && m.to == "" && id in w.outbox
    ensures var after := Deliver(w.outbox, RouteMessage(w.clients, m, Enumeration(w.clients.Keys)));
      after[id] == if w.nicknames[id] != "" && w.nicknames[id] != m.from
                   then w.outbox[id] + [FormatMessage(m.from, m.content)]
                   else w.outbox[id]
  {
    var ds := RouteMessage(w.clients, m, Enumeration(w.clients.Keys));
    var key := w.nicknames[id];
    BroadcastAddressing(w, m, id);
    TextsForUniform(ds, id, key, FormatMessage(m.from, m.content));
    DeliverAppends(w.outbox, ds, id);
    var n := multiset(Nicknames(ds))[key];
    assert n == multiset(w.clients.Keys - {m.from})[key];
    if key != "" && key != m.from {
      assert key in w.clients - {m.from};
      assert Copies(FormatMessage(m.from, m.content), n) == [FormatMessage(m.from, m.content)];
    } else {
      assert !IsValidNickname(key) || key == m.from;
      assert key !in w.clients - {m.from};
    }
  }

  /** The queues once `text` has gone to every client with a nickname
      other than `sender`. */
  function Spread(outbox: Outbox, nicknames: map<ClientId, string>, sender: ClientId, text: string): Outbox {
    map j | j in outbox ::
      if j != sender && j in nicknames && nicknames[j] != "" then outbox[j] + [text] else outbox[j]
  }

  /** Client `id` broadcasting under its own nickname reaches every other
      client with a nickname once, and nobody else; the registry stays. */
  lemma ApplyBroadcast(w: World, id: ClientId, content: string)
    requires Invariant(w) && id in w.nicknames && w.nicknames[id] != ""
    ensures Apply(w, id, Submit(Route(Message(w.nicknames[id], "", content)))) ==
      w.(outbox := Spread(w.outbox, w.nicknames, id, FormatMessage(w.nicknames[id], content)))
  {
    var nick := w.nicknames[id];
    var m := Message(nick, "", content);
    var ds := RouteMessage(w.clients, m, Enumeration(w.clients.Keys));
    var after := Apply(w, id, Submit(Route(m)));
    assert after == w.(outbox := Deliver(w.outbox, ds));
    var spread := Spread(w.outbox, w.nicknames, id, FormatMessage(nick, content));
    forall j | j in w.outbox
      ensures after.outbox[j] == spread[j]
    {
      BroadcastQueues(w, m, j);
      if j != id && w.nicknames[j] != "" {
        EntryNamesClient(w, nick, j);
      }
    }
    assert after.outbox == spread;
  }

  /** A chat line from a client with a nickname: every other client with a
      nickname gets it once, prefixed with the sender's nickname; the sender
      and clients without a nickname get nothing; the registry and the
      nicknames stay as they were. */
  lemma ChatReachesOthers(w: World, id: ClientId, line: string)
    requires Invariant(w) && id in w.nicknames && w.nicknames[id] != ""
    requires !AllSpace(line) && TrimSpace(line)[0] != '/'
    ensures Input(w, id, line) ==
      w.(outbox := Spread(w.outbox, w.nicknames, id, FormatMessage(w.nicknames[id], TrimSpace(line))))
  {
    var nick := w.nicknames[id];
    var s := ProcessInput(Client(id, nick), w.clients, line, Enumeration(w.clients.Keys));
    assert s == Step([Submit(Route(Message(nick, "", TrimSpace(line))))], w.clients, nick);
    InstallChat(w, id, TrimSpace(line));
  }

  lemma InstallChat(w: World, id: ClientId, content: string)
    requires Invariant(w) && id in w.nicknames && w.nicknames[id] != ""
    ensures Install(w, id, Step([Submit(Route(Message(w.nicknames[id], "", content)))], w.clients, w.nicknames[id])) ==
      w.(outbox := Spread(w.outbox, w.nicknames, id, FormatMessage(w.nicknames[id], content)))
  {
    assert w.nicknames[id := w.nicknames[id]] == w.nicknames;
    PerformOne(w, id, Submit(Route(Message(w.nicknames[id], "", content))));
    ApplyBroadcast(w, id, content);
  }

  lemma PerformOne(w: World, id: ClientId, e: Effect)
    ensures Perform(w, id, [e]) == Apply(w, id, e)
  {
    assert [e][1..] == [];
  }

  lemma PerformTwo(w: World, id: ClientId, e1: Effect, e2: Effect)
    ensures Perform(w, id, [e1, e2]) == Apply(Apply(w, id, e1), id, e2)
  {
    assert [e1, e2][1..] == [e2];
    PerformOne(Apply(w, id, e1), id, e2);
  }

  /** A step that only answers the client queues the answer for it and
      changes nothing else. */
  lemma InstallAnswer(w: World, id: ClientId, text: string)
    requires Invariant(w) && id in w.nicknames
    ensures Install(w, id, Step([Reply(text)], w.clients, w.nicknames[id])) ==
      w.(outbox := w.outbox[id := w.outbox[id] + [text]])
  {
    assert w.nicknames[id := w.nicknames[id]] == w.nicknames;
    PerformOne(w, id, Reply(text));
  }

  /** A step that takes the nickname `n` for client `id`: the registry entry
      repeated by its registration changes nothing more, and the client is
      told. */
  lemma InstallRename(w: World, id: ClientId, n: string, s: Step)
    requires Invariant(w) && id in w.nicknames
    requires s.nickname == n && IsRename(Client(id, w.nicknames[id]), w.clients, n, s.clients)
    requires s.effects == [Submit(Register(Client(id, n))), Reply(NickSet(n))]
    ensures Install(w, id, s) == World(s.clients, w.nicknames[id := n], w.outbox[id := w.outbox[id] + [NickSet(n)]])
  {
    var w1 := World(s.clients, w.nicknames[id := n], w.outbox);
    RegisterAgain(s.clients, Client(id, n));
    assert Apply(w1, id, s.effects[0]) == w1;
    PerformTwo(w1, id, s.effects[0], s.effects[1]);
  }

  /** `/NICK n` with a valid nickname nobody holds: the client now holds
      `n` alone, its previous nickname is released, and it is told so. */
  lemma NickTaken(w: World, id: ClientId, word: string, n: string)
    requires Invariant(w) && id in w.nicknames && IsNickWord(word)
    requires IsValidNickname(n) && n !in w.clients
    ensures var after := Input(w, id, word + " " + n);
      && after.nicknames == w.nicknames[id := n]
      && n in after.clients && after.clients[n] == id
      && (w.nicknames[id] != "" ==> w.nicknames[id] !in after.clients)
      && after.outbox == w.outbox[id := w.outbox[id] + [NickSet(n)]]
  {
    var c := Client(id, w.nicknames[id]);
    var s := ProcessInput(c, w.clients, word + " " + n, Enumeration(w.clients.Keys));
    NickLine(c, w.clients, word, n, Enumeration(w.clients.Keys));
    assert s.nickname == n && IsRename(c, w.clients, n, s.clients);
    RenameReleases(w, id, n, s.clients);
    InstallRename(w, id, n, s);
  }

  /** Taking a nickname nobody holds releases the client's previous one. */
  lemma RenameReleases(w: World, id: ClientId, n: string, after: Registry)
    requires Invariant(w) && id in w.nicknames && n !in w.clients
    requires IsRename(Client(id, w.nicknames[id]), w.clients, n, after)
    ensures w.nicknames[id] != "" ==> w.nicknames[id] !in after
  {
    if w.nicknames[id] != "" {
      assert w.nicknames[id] in w.clients;
      assert w.nicknames[id] != n;
    }
  }

  /** `/NICK n` for a nickname already held: the client is told it is in use
      and nothing else changes. */
  lemma NickRefusedInUse(w: World, id: ClientId, word: string, n: string)
    requires Invariant(w) && id in w.nicknames && IsNickWord(word)
    requires IsValidNickname(n) && n in w.clients
    ensures Input(w, id, word + " " + n) == w.(outbox := w.outbox[id := w.outbox[id] + [NickInUse]])
  {
    var c := Client(id, w.nicknames[id]);
    NickLine(c, w.clients, word, n, Enumeration(w.clients.Keys));
    InstallAnswer(w, id, NickInUse);
  }

  /** Nicknames are exclusive: once one client has taken `n`, another
      client's `/NICK n` is refused and leaves it without `n`. */
  lemma NickIsExclusive(w: World, a: ClientId, b: ClientId, word: string, n: string)
    requires Invariant(w) && a in w.nicknames && b in w.nicknames && a != b
    requires IsNickWord(word) && IsValidNickname(n) && n !in w.clients
    ensures var w1 := Input(w, a, word + " " + n);
      var w2 := Input(w1, b, word + " " + n);
      && w2.clients == w1.clients && w2.nicknames == w1.nicknames
      && n in w2.clients && w2.clients[n] == a
      && b in w2.nicknames && w2.nicknames[b] != n
      && b in w1.outbox && b in w2.outbox && w2.outbox[b] == w1.outbox[b] + [NickInUse]
  {
    var line := word + " " + n;
    NickTaken(w, a, word, n);
    InputPreservesInvariant(w, a, line);
    var w1 := Input(w, a, line);
    assert b in w1.nicknames && w1.nicknames[b] != n by {
      assert w1.nicknames == w.nicknames[a := n];
      assert w.nicknames[b] == n ==> n in w.clients;
    }
    NickRefusedInUse(w1, b, word, n);
    var w2 := Input(w1, b, line);
    assert w2 == w1.(outbox := w1.outbox[b := w1.outbox[b] + [NickInUse]]);
  }

  /** Client `id` sending `content` to the nickname `to`: the client holding
      `to` gets the formatted message with its extra newline; when nobody
      holds it, the sender gets the error instead. */
  lemma ApplyDirected(w: World, id: ClientId, to: string, content: string)
    requires Invariant(w) && id in w.nicknames && w.nicknames[id] != "" && to != ""
    ensures Apply(w, id, Submit(Route(Message(w.nicknames[id], to, content)))) ==
      w.(outbox := if to in w.clients
                   then Append(w.outbox, w.clients[to], FormatMessage(w.nicknames[id], content + "\n"))
                   else Append(w.outbox, id, NotRegistered(to)))
  {
    var m := Message(w.nicknames[id], to, content);
    var ds := RouteMessage(w.clients, m, Enumeration(w.clients.Keys));
    assert m.from in w.clients && w.clients[m.from] == id;
    assert |ds| == 1 && ds[1..] == [];
    assert Deliver(w.outbox, ds) == Append(w.outbox, ds[0].recipient, ds[0].text);
  }

  /** The steps of a `/SEND` to one recipient: the message, then the
      confirmation. */
  lemma InstallSendOne(w: World, id: ClientId, to: string, content: string)
    requires Invariant(w) && id in w.nicknames && w.nicknames[id] != "" && to != ""
    ensures var nick := w.nicknames[id];
      Install(w, id, Step([Submit(Route(Message(nick, to, content))), Reply(SentTo(to))], w.clients, nick)) ==
      w.(outbox := Append(if to in w.clients
                          then Append(w.outbox, w.clients[to], FormatMessage(nick, content + "\n"))
                          else Append(w.outbox, id, NotRegistered(to)),
                          id, SentTo(to)))
  {
    var nick := w.nicknames[id];
    assert w.nicknames[id := nick] == w.nicknames;
    PerformTwo(w, id, Submit(Route(Message(nick, to, content))), Reply(SentTo(to)));
    ApplyDirected(w, id, to, content);
  }

  /** `/SEND r w1 … wm` from a client with a nickname: the client holding
      `r` receives `[sender]: w1 … wm` and two newlines; if nobody holds `r`
      the sender is told so; either way the sender is then told the message
      was sent, and nothing else changes. */
  lemma SendToOne(w: World, id: ClientId, word: string, r: string, ws: seq<string>)
    requires Invariant(w) && id in w.nicknames && w.nicknames[id] != ""
    requires IsCommandWord(word) && ParseCommand(word) == Send
    requires IsRecipientName(r)
    requires IsWordList(ws)
    ensures var nick := w.nicknames[id];
      var content := Join(ws, " ");
      Input(w, id, word + " " + (r + " " + content)) ==
      w.(outbox := Append(if r in w.clients
                          then Append(w.outbox, w.clients[r], FormatMessage(nick, content + "\n"))
                          else Append(w.outbox, id, NotRegistered(r)),
                          id, SentTo(r)))
  {
    SendOneLine(Client(id, w.nicknames[id]), w.clients, word, r, ws, Enumeration(w.clients.Keys));
    InstallSendOne(w, id, r, Join(ws, " "));
  }

  /** The steps of an accepted `/BCAST`: the message to everyone, then the
      confirmation. */
  lemma InstallBcast(w: World, id: ClientId, content: string)
    requires Invariant(w) && id in w.nicknames && w.nicknames[id] != ""
    ensures var nick := w.nicknames[id];
      Install(w, id, Step([Submit(Route(Message(nick, "", content))), Reply(BcastSent)], w.clients, nick)) ==
      w.(outbox := Append(Spread(w.outbox, w.nicknames, id, FormatMessage(nick, content)), id, BcastSent))
  {
    var nick := w.nicknames[id];
    assert w.nicknames[id := nick] == w.nicknames;
    PerformTwo(w, id, Submit(Route(Message(nick, "", content))), Reply(BcastSent));
    ApplyBroadcast(w, id, content);
  }

  /** `/BCAST text` from a client with a nickname: every other client with a
      nickname receives the text once, prefixed with the sender's nickname,
      and the sender receives only the confirmation. */
  lemma BcastReachesOthers(w: World, id: ClientId, word: string, text: string)
    requires Invariant(w) && id in w.nicknames && w.nicknames[id] != ""
    requires IsCommandWord(word) && ParseCommand(word) == Bcast
    requires text != "" && !IsSpace(text[0]) && !IsSpace(text[|text| - 1])
    ensures Input(w, id, word + " " + text) ==
      w.(outbox := Append(Spread(w.outbox, w.nicknames, id, FormatMessage(w.nicknames[id], text)), id, BcastSent))
  {
    var c := Client(id, w.nicknames[id]);
    CommandWithArgument(c, w.clients, word, text, Enumeration(w.clients.Keys));
    TrimSpaceOfTrimmed(text);
    InstallBcast(w, id, text);
  }
}
