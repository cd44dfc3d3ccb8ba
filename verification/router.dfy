/** The server's control loop: the registry from nickname to client and the
    three kinds of request its `select` serves one at a time.

    A client is identified by a `ClientId` standing for the `*Client` pointer
    the registry stores. Sending text to a client is a `Delivery`; the loop
    hands out deliveries and the client's write side (not modelled) puts them
    on the wire. Go's map iteration order is not fixed, so every operation
    that walks the registry takes the order as a parameter: any sequence
    holding each key exactly once (`IsEnumeration`).
 */
module Router {
  import opened GoStrings

  type ClientId = nat

  /** `Server.clients`: nickname to client. */
  type Registry = map<string, ClientId>

  /** The part of a `Client` the loop reads: which client, under which nickname
      (empty while it has none). */
  datatype Client = Client(id: ClientId, nickname: string)

  /** `Message`: an empty `to` means every registered client but the sender. */
  datatype Message = Message(from: string, to: string, content: string)

  /** What arrives on the `register`, `unregister` and `broadcast` channels. */
  datatype Request = Register(client: Client) | Unregister(client: Client) | Route(msg: Message)

  /** One `SendMessage` call made by the loop: the registry key it looked up,
      the client found under it, and the text queued for that client. */
  datatype Delivery = Delivery(nickname: string, recipient: ClientId, text: string)

  /** The registry after one request, and what that request sent, in order. */
  datatype Outcome = Outcome(clients: Registry, deliveries: seq<Delivery>)

  datatype Option<T> = None | Some(value: T)

  /** `order` lists every key of the map exactly once, as a `range` over it
      would. */
  predicate IsEnumeration(order: seq<string>, keys: set<string>) {
    multiset(order) == multiset(keys)
  }

  lemma EnumerationMembers(order: seq<string>, keys: set<string>)
    requires IsEnumeration(order, keys)
    ensures forall k | k in order :: k in keys
  {
    forall k | k in order
      ensures k in keys
    {
      assert multiset(order)[k] > 0;
    }
  }

  /** The registry keys that a sequence of deliveries was addressed to. */
  function Nicknames(ds: seq<Delivery>): (ns: seq<string>)
    ensures |ns| == |ds| && forall i | 0 <= i < |ds| :: ns[i] == ds[i].nickname
  {
    seq(|ds|, i requires 0 <= i < |ds| => ds[i].nickname)
  }

  /** `formatMessage`: the line a recipient sees for a chat message. */
  function FormatMessage(from: string, content: string): string {
    "[" + from + "]: " + content + "\n"
  }

  /** The reply to a sender whose directed message named an unknown nickname. */
  function NotRegistered(to: string): string {
    "Error: " + to + " is not registered.\n"
  }

  /** Reads a line produced by `FormatMessage` back into sender and content:
      the sender runs up to the first `]`. */
  function ParseMessage(line: string): Option<(string, string)> {
    if line == [] || line[0] != '[' || line[|line| - 1] != '\n' then None
    else
      var k := IndexOf(line, ']');
      if k == -1 || k + 3 > |line| - 1 || line[k + 1..k + 3] != ": " then None
      else Some((line[1..k], line[k + 3..|line| - 1]))
  }

  /** A formatted line gives back its sender and content, provided the
      sender's name holds no `]`. */
  lemma ParseFormatted(from: string, content: string)
    requires ']' !in from
    ensures ParseMessage(FormatMessage(from, content)) == Some((from, content))
  {
    var line := FormatMessage(from, content);
    var k := 1 + |from|;
    assert line[1..k] == from;
    assert line[k] == ']';
    assert line[..k] == "[" + from;
    assert ']' !in line[..k];
    assert IndexOf(line, ']') == k;
    assert line[k + 1..k + 3] == ": ";
    assert line[k + 3..|line| - 1] == content;
  }

  /** Whatever `ParseMessage` accepts is exactly the formatting of what it
      returns. */
  lemma FormatParsed(line: string)
    requires ParseMessage(line).Some?
    ensures FormatMessage(ParseMessage(line).value.0, ParseMessage(line).value.1) == line
  {
    var k := IndexOf(line, ']');
    assert line == [line[0]] + line[1..k] + [line[k]] + line[k + 1..k + 3] + line[k + 3..|line| - 1] + [line[|line| - 1]];
  }

  /** The `register` arm: the client's nickname now maps to it, and no other
      entry changes. */
  function AddClient(clients: Registry, c: Client): (r: Registry)
    ensures c.nickname in r && r[c.nickname] == c.id
    ensures r.Keys == clients.Keys + {c.nickname}
    ensures forall k | k in clients && k != c.nickname :: r[k] == clients[k]
  {
    clients[c.nickname := c.id]
  }

  /** The `unregister` arm: a client without a nickname changes nothing;
      otherwise exactly the key equal to its nickname goes, whichever client
      that key maps to, and the remaining entries are untouched. */
  function RemoveClient(clients: Registry, c: Client): (r: Registry)
    ensures c.nickname == "" ==> r == clients
    ensures c.nickname != "" ==> r.Keys == clients.Keys - {c.nickname}
    ensures forall k | k in r :: k in clients && r[k] == clients[k]
  {
    if c.nickname != "" then clients - {c.nickname} else clients
  }

  /** A delivery the broadcast of `m` can make: to a registered client other
      than the sender, of the formatted message. */
  predicate IsBroadcastDelivery(clients: Registry, m: Message, d: Delivery) {
    && d.nickname in clients
    && d.nickname != m.from
    && d.recipient == clients[d.nickname]
    && d.text == FormatMessage(m.from, m.content)
  }

  /** The broadcast loop over the keys in `order`: one delivery per key other
      than the sender, in that order. */
  function Fanout(clients: Registry, m: Message, order: seq<string>): (ds: seq<Delivery>)
    requires forall k | k in order :: k in clients
    ensures forall d | d in ds :: IsBroadcastDelivery(clients, m, d)
    ensures multiset(Nicknames(ds)) == multiset(order)[m.from := 0]
  {
    if order == [] then []
    else
      assert order[0] in order;
      assert forall k | k in order[1..] :: k in order;
      var rest := Fanout(clients, m, order[1..]);
      DropFromCons(order, m.from);
      if order[0] != m.from then
        var d := Delivery(order[0], clients[order[0]], FormatMessage(m.from, m.content));
        NicknamesCons(d, rest);
        [d] + rest
      else
        rest
  }

  lemma NicknamesCons(d: Delivery, rest: seq<Delivery>)
    ensures multiset(Nicknames([d] + rest)) == multiset{d.nickname} + multiset(Nicknames(rest))
  {
    assert Nicknames([d] + rest) == [d.nickname] + Nicknames(rest);
  }

  /** Dropping every occurrence of `f` from a sequence, counted as a
      multiset, one element at a time. */
  lemma DropFromCons(order: seq<string>, f: string)
    requires order != []
    ensures order[0] != f ==> multiset(order)[f := 0] == multiset{order[0]} + multiset(order[1..])[f := 0]
    ensures order[0] == f ==> multiset(order)[f := 0] == multiset(order[1..])[f := 0]
  {
    assert order == [order[0]] + order[1..];
    assert multiset(order) == multiset{order[0]} + multiset(order[1..]);
  }

  /** The `broadcast` arm. A broadcast reaches every registered client except
      the sender exactly once; a directed message reaches its recipient alone,
      with an extra newline at the end of the content; a directed message to
      an unknown nickname produces only an error to the sender, and nothing at
      all once the sender is gone too. */
  function RouteMessage(clients: Registry, m: Message, order: seq<string>): (ds: seq<Delivery>)
    requires IsEnumeration(order, clients.Keys)
    ensures m.to == "" ==> forall d | d in ds :: IsBroadcastDelivery(clients, m, d)
    ensures m.to == "" ==> multiset(Nicknames(ds)) == multiset(clients.Keys - {m.from})
    ensures m.to != "" ==> |ds| <= 1
    ensures m.to != "" && m.to in clients ==>
      ds == [Delivery(m.to, clients[m.to], FormatMessage(m.from, m.content + "\n"))]
    ensures m.to != "" && m.to !in clients ==>
      ds == if m.from in clients then [Delivery(m.from, clients[m.from], NotRegistered(m.to))] else []
  {
    if m.to == "" then
      EnumerationMembers(order, clients.Keys);
      assert multiset(order)[m.from := 0] == multiset(clients.Keys - {m.from});
      Fanout(clients, m, order)
    else if m.to in clients then
      [Delivery(m.to, clients[m.to], FormatMessage(m.from, m.content + "\n"))]
    else if m.from in clients then
      [Delivery(m.from, clients[m.from], NotRegistered(m.to))]
    else
      []
  }

  /** One turn of the `select` in `Run`. Routing never changes the registry;
      registering and unregistering never send anything. */
  function Serve(clients: Registry, req: Request, order: seq<string>): (o: Outcome)
    requires IsEnumeration(order, clients.Keys)
    ensures req.Route? ==> o.clients == clients
    ensures !req.Route? ==> o.deliveries == []
    ensures req.Register? ==> o.clients.Keys == clients.Keys + {req.client.nickname}
    ensures req.Unregister? ==> o.clients.Keys <= clients.Keys
  {
    match req
    case Register(c) => Outcome(AddClient(clients, c), [])
    case Unregister(c) => Outcome(RemoveClient(clients, c), [])
    case Route(m) => Outcome(clients, RouteMessage(clients, m, order))
  }

  /** How many times `Fanout` makes a given delivery: as often as its key
      occurs in `order`, if it is a delivery the broadcast can make at all. */
  lemma {:induction false} FanoutCount(clients: Registry, m: Message, order: seq<string>, d: Delivery)
    requires forall k | k in order :: k in clients
    ensures multiset(Fanout(clients, m, order))[d] ==
      if IsBroadcastDelivery(clients, m, d) then multiset(order)[d.nickname] else 0
  {
    if order != [] {
      FanoutCount(clients, m, order[1..], d);
      assert order == [order[0]] + order[1..];
    }
  }

  /** The deliveries of a route do not depend on the order in which the map
      is walked: any two enumerations give the same deliveries up to
      permutation. */
  lemma RouteOrderIrrelevant(clients: Registry, m: Message, o1: seq<string>, o2: seq<string>)
    requires IsEnumeration(o1, clients.Keys) && IsEnumeration(o2, clients.Keys)
    ensures multiset(RouteMessage(clients, m, o1)) == multiset(RouteMessage(clients, m, o2))
  {
    if m.to == "" {
      EnumerationMembers(o1, clients.Keys);
      EnumerationMembers(o2, clients.Keys);
      forall d
        ensures multiset(RouteMessage(clients, m, o1))[d] == multiset(RouteMessage(clients, m, o2))[d]
      {
        FanoutCount(clients, m, o1, d);
        FanoutCount(clients, m, o2, d);
      }
    }
  }

  /** A directed message to a registered client reaches it as
      `[from]: content` followed by two newlines: the recipient reads back the
      sender and the content with one newline added. */
  lemma DirectedDeliveryText(clients: Registry, m: Message, order: seq<string>)
    requires IsEnumeration(order, clients.Keys)
    requires m.to != "" && m.to in clients
    requires ']' !in m.from
    ensures |RouteMessage(clients, m, order)| == 1
    ensures ParseMessage(RouteMessage(clients, m, order)[0].text) == Some((m.from, m.content + "\n"))
    ensures RouteMessage(clients, m, order)[0].text == "[" + m.from + "]: " + m.content + "\n\n"
  {
    ParseFormatted(m.from, m.content + "\n");
  }

  /** Broadcasting never sends back to the sender. */
  lemma BroadcastSkipsSender(clients: Registry, m: Message, order: seq<string>)
    requires IsEnumeration(order, clients.Keys)
    requires m.to == ""
    ensures forall d | d in RouteMessage(clients, m, order) :: d.nickname != m.from
    ensures forall k | k in clients && k != m.from :: k in Nicknames(RouteMessage(clients, m, order))
  {
    var ns := Nicknames(RouteMessage(clients, m, order));
    forall k | k in clients && k != m.from
      ensures k in ns
    {
      assert multiset(ns)[k] == 1;
    }
  }
}
