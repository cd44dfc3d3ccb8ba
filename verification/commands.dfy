/** A client's read side after the line has been read: `processInput`,
    `handleCommand` and the four command handlers.

    Each handler is a pure function of the client's state (its id and current
    nickname), the registry and the line. What the Go code does one call at a
    time becomes an ordered list of effects: `Reply` is a `SendMessage` to the
    client itself, `Submit` is a request handed to the server's control loop.
    `setNickname` writes the registry directly under the server's lock; that
    write is the new registry of the returned `Step`.
 */
module Commands {
  import opened GoStrings
  import opened Nickname
  import opened Router

  datatype Effect = Reply(text: string) | Submit(request: Request)

  /** The effects of one line, in order, with the registry and the client's
      nickname afterwards. */
  datatype Step = Step(effects: seq<Effect>, clients: Registry, nickname: string)

  datatype Command = Nick | Send | Bcast | List | Unknown

  const NoCommand := "Error: A command must be specified\n"
  const InvalidCommand :=
    "ERROR: Invalid command. Valid commands are:\n" +
    "/NICK or /N <name>\n" +
    "/LIST or /L\n" +
    "/BCAST or /B <message>\n" +
    "/SEND or /S <nickname(s)> <message>\n"
  const NickUsage := "Usage: /NICK <name>\n"
  const InvalidNick :=
    "Invalid nickname. Must start with a letter and contain only letters, numbers, or underscores. Max 10 characters.\n"
  const NickInUse := "Error: Nickname is already in use!\n"
  const SendNeedsNick := "You must set a nickname before using /SEND.\n"
  const SendUsage := "Invalid format. Usage: /SEND <nickname(s)> <message>\n"
  const BcastNeedsNick := "You must set a nickname before using /BCAST.\n"
  const BcastUsage := "Usage: /BCAST <message>\n"
  const BcastSent := "Broadcast message sent.\n"
  const NoUsers := "No users currently connected.\n"
  const UsersPrefix := "Connected users: "

  function NickSet(nick: string): string {
    "Nickname successfully set to " + nick + "\n"
  }

  function SentTo(recipient: string): string {
    "Message sent to " + recipient + "\n"
  }

  /** The texts sent back to the client itself, in order. */
  function Replies(effects: seq<Effect>): seq<string> {
    if effects == [] then []
    else (if effects[0].Reply? then [effects[0].text] else []) + Replies(effects[1..])
  }

  /** The requests handed to the control loop, in order. */
  function Submitted(effects: seq<Effect>): seq<Request> {
    if effects == [] then []
    else (if effects[0].Submit? then [effects[0].request] else []) + Submitted(effects[1..])
  }

  /** The client's only effect is one reply; nothing else changes. */
  function Answer(c: Client, clients: Registry, text: string): (r: Step)
    ensures Disciplined(c, clients, r)
  {
    Step([Reply(text)], clients, c.nickname)
  }

  /** The registry after client `c` takes `nick`: its old key (if it had a
      nickname) is gone, `nick` maps to it, and every other entry stays. */
  predicate IsRename(c: Client, clients: Registry, nick: string, after: Registry) {
    && nick in after && after[nick] == c.id
    && after.Keys == (if c.nickname != "" then clients.Keys - {c.nickname} else clients.Keys) + {nick}
    && forall k | k in clients && k != c.nickname && k != nick :: after[k] == clients[k]
  }

  /** The two shapes a line's outcome can take: nothing changes, or the
      client took a fresh, valid nickname. A registration it submits only
      repeats an entry the step has already made for this client, and every
      message it submits carries the client's nickname as sender. */
  predicate Disciplined(c: Client, clients: Registry, r: Step) {
    && ((r.clients == clients && r.nickname == c.nickname) ||
        (IsValidNickname(r.nickname) && r.nickname !in clients && IsRename(c, clients, r.nickname, r.clients)))
    && forall e | e in r.effects && e.Submit? ::
         || (e.request.Register? && e.request.client == Client(c.id, r.nickname)
             && r.nickname in r.clients && r.clients[r.nickname] == c.id)
         || (e.request.Route? && e.request.msg.from == c.nickname && c.nickname != "")
  }

  /** The command a line's first word names, ignoring ASCII case. */
  function ParseCommand(word: string): (cmd: Command)
    ensures cmd != Unknown ==> 2 <= |word| <= 6 && word[0] == '/'
  {
    var w := ToUpper(word);
    if w == "/NICK" || w == "/N" then Nick
    else if w == "/SEND" || w == "/S" then Send
    else if w == "/BCAST" || w == "/B" then Bcast
    else if w == "/LIST" || w == "/L" then List
    else Unknown
  }

  /** The candidate nickname of a `/NICK`: the first white-space separated
      word of the argument, or nothing when the argument is blank. */
  function NickArgument(args: string): (nick: string)
    ensures nick == "" <==> AllSpace(args)
    ensures NoSpace(nick)
  {
    var t := TrimSpace(args);
    if t == "" then "" else Fields(t)[0]
  }

  /** `w` is the first word of `s`: it starts at a position `i` with only
      white space before it, and right after it comes white space or the end
      of `s`. */
  ghost predicate IsFirstWord(s: string, w: string) {
    exists i | 0 <= i <= |s| - |w| ::
      AllSpace(s[..i]) && s[i..i + |w|] == w && (i + |w| == |s| || IsSpace(s[i + |w|]))
  }

  /** Only the first word of the argument is considered: the candidate is
      its first word. */
  lemma NickArgumentIsFirstWord(args: string)
    ensures !AllSpace(args) ==> IsFirstWord(args, NickArgument(args))
  {
    if !AllSpace(args) {
      var t := TrimSpace(args);
      FirstFieldIsWord(t);
      FirstWordOfTrimmed(args);
    }
  }

  /** The leading word of the trimmed argument is the first word of it. */
  lemma FirstWordOfTrimmed(args: string)
    ensures IsFirstWord(args, Word(TrimSpace(args)))
  {
    var l := TrimLeft(args);
    var t := TrimRight(l);
    assert t == TrimSpace(args);
    FirstWordOfSlices(args, l, t, Word(t));
  }

  /** A prefix `w` of a prefix `t` of a suffix `l` of `s`, located in `s`. */
  lemma PrefixOfPrefixOfSuffix(s: string, l: string, t: string, w: string)
    requires |l| <= |s| && l == s[|s| - |l|..]
    requires |t| <= |l| && t == l[..|t|]
    requires |w| <= |t| && w == t[..|w|]
    ensures s[|s| - |l|..|s| - |l| + |w|] == w
  {
    var i := |s| - |l|;
    forall j | 0 <= j < |w|
      ensures s[i..i + |w|][j] == w[j]
    {
      assert s[i + j] == l[j] && l[j] == t[j] && t[j] == w[j];
    }
  }

  /** A leading word `w` of the part `t` of `s` that `TrimLeft` and then
      `TrimRight` leave is the first word of `s`. */
  lemma FirstWordOfSlices(s: string, l: string, t: string, w: string)
    requires |l| <= |s| && l == s[|s| - |l|..] && AllSpace(s[..|s| - |l|])
    requires |t| <= |l| && t == l[..|t|] && AllSpace(l[|t|..])
    requires |w| <= |t| && w == t[..|w|] && (|w| < |t| ==> IsSpace(t[|w|]))
    ensures IsFirstWord(s, w)
  {
    var i := |s| - |l|;
    PrefixOfPrefixOfSuffix(s, l, t, w);
    if |w| < |t| {
      assert s[i + |w|] == t[|w|];
    } else if |t| < |l| {
      assert s[i + |w|] == l[|t|] == l[|t|..][0];
    }
    assert AllSpace(s[..i]) && s[i..i + |w|] == w && (i + |w| == |s| || IsSpace(s[i + |w|]));
  }

  /** `setNickname`. A blank argument, an invalid nickname or one already a
      registry key is refused with its own reply, and nothing changes. Taking
      one's own current nickname is refused the same way, since it is a key.
      Otherwise the client's old key is dropped, the new nickname maps to the
      client, the client is registered again with the control loop and told so. */
  function SetNickname(c: Client, clients: Registry, args: string): (r: Step)
    ensures AllSpace(args) ==> r == Answer(c, clients, NickUsage)
    ensures !AllSpace(args) && !IsValidNickname(NickArgument(args)) ==> r == Answer(c, clients, InvalidNick)
    ensures !AllSpace(args) && IsValidNickname(NickArgument(args)) && NickArgument(args) in clients ==>
      r == Answer(c, clients, NickInUse)
    ensures !AllSpace(args) && IsValidNickname(NickArgument(args)) && NickArgument(args) !in clients ==>
      && r.nickname == NickArgument(args)
      && IsRename(c, clients, r.nickname, r.clients)
      && r.effects == [Submit(Register(Client(c.id, r.nickname))), Reply(NickSet(r.nickname))]
    ensures Disciplined(c, clients, r)
  {
    var trimmed := TrimSpace(args);
    assert trimmed == "" <==> AllSpace(args);
    if trimmed == "" then
      Answer(c, clients, NickUsage)
    else
      var nick := Fields(trimmed)[0];
      assert nick == NickArgument(args);
      if !IsValidNickname(nick) then
        Answer(c, clients, InvalidNick)
      else if nick in clients then
        Answer(c, clients, NickInUse)
      else
        TakeNickname(c, clients, nick)
  }

  /** The accepted branch of `setNickname`, under the registry lock: drop the
      old key, map the new one to the client, register, confirm. */
  function TakeNickname(c: Client, clients: Registry, nick: string): (r: Step)
    requires IsValidNickname(nick) && nick !in clients
    ensures r.nickname == nick && IsRename(c, clients, nick, r.clients)
    ensures r.effects == [Submit(Register(Client(c.id, nick))), Reply(NickSet(nick))]
    ensures Disciplined(c, clients, r)
  {
    var dropped := if c.nickname != "" then clients - {c.nickname} else clients;
    Step([Submit(Register(Client(c.id, nick))), Reply(NickSet(nick))], dropped[nick := c.id], nick)
  }

  /** The recipients of a `/SEND`: each `;`-separated piece trimmed, blank
      ones skipped, in list order. */
  function Recipients(pieces: seq<string>): (rs: seq<string>)
    ensures forall r | r in rs :: r != ""
    ensures |rs| <= |pieces|
  {
    if pieces == [] then [] else RecipientOf(pieces[0]) + Recipients(pieces[1..])
  }

  /** What one piece contributes: its trim, unless that is empty. */
  function RecipientOf(piece: string): (rs: seq<string>)
    ensures |rs| <= 1 && forall r | r in rs :: r != ""
  {
    var r := TrimSpace(piece);
    if r == "" then [] else [r]
  }

  /** One piece gives its trim as a recipient, or nothing when it is blank. */
  lemma RecipientsOne(x: string)
    ensures Recipients([x]) == RecipientOf(x)
    ensures Recipients([x]) == if TrimSpace(x) == "" then [] else [TrimSpace(x)]
  {
    assert [x][1..] == [];
  }

  /** Pieces are read one at a time: the recipients of two runs of pieces are
      those of the first run followed by those of the second. */
  lemma {:induction false} RecipientsAppend(p: seq<string>, q: seq<string>)
    ensures Recipients(p + q) == Recipients(p) + Recipients(q)
    decreases |p|
  {
    if p == [] {
      assert p + q == q;
    } else {
      assert (p + q)[0] == p[0] && (p + q)[1..] == p[1..] + q;
      RecipientsAppend(p[1..], q);
    }
  }

  /** A blank piece between two names, as in `bob;;carol` or `bob; ;carol`,
      is skipped. */
  lemma RecipientsSkipBlank(a: string, gap: string, b: string)
    requires a != "" && NoSpace(a) && b != "" && NoSpace(b) && AllSpace(gap)
    ensures Recipients([a] + [gap] + [b]) == [a, b]
  {
    RecipientsAppend([a] + [gap], [b]);
    RecipientsAppend([a], [gap]);
    RecipientsOne(a);
    RecipientsOne(gap);
    RecipientsOne(b);
    RecipientOfName(a);
    RecipientOfBlank(gap);
    RecipientOfName(b);
    PairDisplay(a, b);
  }

  lemma RecipientOfName(x: string)
    requires x != "" && NoSpace(x)
    ensures RecipientOf(x) == [x]
  {
    TrimSpaceOfNoSpace(x);
  }

  lemma RecipientOfBlank(x: string)
    requires AllSpace(x)
    ensures RecipientOf(x) == []
  {
  }

  /** The loop of `sendDirectMessage`: for each recipient in order, a message
      to it, immediately followed by the confirmation naming it. */
  function SendEach(from: string, recipients: seq<string>, content: string): (effects: seq<Effect>)
    ensures |effects| == 2 * |recipients|
  {
    if recipients == [] then []
    else
      [Submit(Route(Message(from, recipients[0], content))), Reply(SentTo(recipients[0]))] +
      SendEach(from, recipients[1..], content)
  }

  /** The effects of `SendEach` for the recipient at position `i`: the
      message to it at `2 * i`, its confirmation right after. */
  lemma {:induction false} SendEachAt(from: string, recipients: seq<string>, content: string, i: nat)
    requires i < |recipients|
    ensures SendEach(from, recipients, content)[2 * i] == Submit(Route(Message(from, recipients[i], content)))
    ensures SendEach(from, recipients, content)[2 * i + 1] == Reply(SentTo(recipients[i]))
    decreases i
  {
    if i > 0 {
      SendEachAt(from, recipients[1..], content, i - 1);
    }
  }

  /** Everything `SendEach` submits is a message from `from`. */
  lemma {:induction false} SendEachFrom(from: string, recipients: seq<string>, content: string)
    ensures forall e | e in SendEach(from, recipients, content) ::
      e.Reply? || (e.request.Route? && e.request.msg.from == from)
  {
    if recipients != [] {
      SendEachFrom(from, recipients[1..], content);
      var effects := SendEach(from, recipients, content);
      assert effects == effects[..2] + SendEach(from, recipients[1..], content);
    }
  }

  /** `sendDirectMessage`. Refused without a nickname or with fewer than two
      words; otherwise one message per recipient, each with the words after
      the recipient list joined by single spaces. The registry and the
      nickname never change. */
  function SendDirectMessage(c: Client, clients: Registry, args: string): (r: Step)
    ensures r.clients == clients && r.nickname == c.nickname
    ensures c.nickname == "" ==> r.effects == [Reply(SendNeedsNick)]
    ensures c.nickname != "" && |Fields(args)| < 2 ==> r.effects == [Reply(SendUsage)]
    ensures c.nickname != "" && |Fields(args)| >= 2 ==>
      r.effects == SendEach(c.nickname, Recipients(Split(Fields(args)[0], ';')), Join(Fields(args)[1..], " "))
    ensures Disciplined(c, clients, r)
  {
    if c.nickname == "" then
      Answer(c, clients, SendNeedsNick)
    else
      var fields := Fields(args);
      if |fields| < 2 then
        Answer(c, clients, SendUsage)
      else
        var recipients := Recipients(Split(fields[0], ';'));
        var content := Join(fields[1..], " ");
        SendEachFrom(c.nickname, recipients, content);
        Step(SendEach(c.nickname, recipients, content), clients, c.nickname)
  }

  /** `broadcastMessage`. Refused without a nickname or with a blank
      argument; otherwise one message to everyone, holding the argument
      trimmed, then a confirmation. */
  function BroadcastMessage(c: Client, clients: Registry, args: string): (r: Step)
    ensures r.clients == clients && r.nickname == c.nickname
    ensures c.nickname == "" ==> r.effects == [Reply(BcastNeedsNick)]
    ensures c.nickname != "" && AllSpace(args) ==> r.effects == [Reply(BcastUsage)]
    ensures c.nickname != "" && !AllSpace(args) ==>
      r.effects == [Submit(Route(Message(c.nickname, "", TrimSpace(args)))), Reply(BcastSent)]
    ensures Disciplined(c, clients, r)
  {
    if c.nickname == "" then
      Answer(c, clients, BcastNeedsNick)
    else
      var message := TrimSpace(args);
      assert message == "" <==> AllSpace(args);
      if message == "" then
        Answer(c, clients, BcastUsage)
      else
        Step([Submit(Route(Message(c.nickname, "", message))), Reply(BcastSent)], clients, c.nickname)
  }

  /** `listUsers`: with `order` the registry's keys in iteration order, the
      one reply says there is nobody exactly when the registry is empty, and
      otherwise names every key once, separated by commas. */
  function ListUsers(c: Client, clients: Registry, order: seq<string>): (r: Step)
    requires IsEnumeration(order, clients.Keys)
    ensures r.clients == clients && r.nickname == c.nickname && |r.effects| == 1
    ensures r.effects == [Reply(NoUsers)] <==> |clients| == 0
    ensures |clients| > 0 ==> r.effects == [Reply(UsersPrefix + Join(order, ", ") + "\n")]
    ensures Disciplined(c, clients, r)
  {
    if |clients| == 0 then
      Answer(c, clients, NoUsers)
    else
      var text := UsersPrefix + Join(order, ", ") + "\n";
      assert text[0] != NoUsers[0];
      Answer(c, clients, text)
  }

  /** `handleCommand`: the line is cut at its first space, the part before
      it selects the command regardless of ASCII case, and the rest (possibly
      empty) is the command's argument. An unknown command only earns the
      usage reply. */
  function HandleCommand(c: Client, clients: Registry, input: string, order: seq<string>): (r: Step)
    requires IsEnumeration(order, clients.Keys)
    ensures ParseCommand(SplitN2(input, ' ')[0]) == Unknown ==> r == Answer(c, clients, InvalidCommand)
    ensures ParseCommand(SplitN2(input, ' ')[0]) != Nick ==> r.clients == clients && r.nickname == c.nickname
    ensures Disciplined(c, clients, r)
  {
    var parts := SplitN2(input, ' ');
    var args := if |parts| > 1 then parts[1] else "";
    Dispatch(c, clients, ParseCommand(parts[0]), args, order)
  }

  /** The `switch` of `handleCommand`: the handler a command selects. */
  function Dispatch(c: Client, clients: Registry, cmd: Command, args: string, order: seq<string>): (r: Step)
    requires IsEnumeration(order, clients.Keys)
    ensures cmd == Unknown ==> r == Answer(c, clients, InvalidCommand)
    ensures cmd != Nick ==> r.clients == clients && r.nickname == c.nickname
    ensures Disciplined(c, clients, r)
  {
    match cmd
    case Nick => SetNickname(c, clients, args)
    case Send => SendDirectMessage(c, clients, args)
    case Bcast => BroadcastMessage(c, clients, args)
    case List => ListUsers(c, clients, order)
    case Unknown => Answer(c, clients, InvalidCommand)
  }

  /** `processInput`: the line is trimmed; a blank line does nothing, a line
      starting with `/` is a command, and any other line is chat, refused
      before the client has a nickname and otherwise submitted as one
      broadcast message holding the trimmed line. */
  function ProcessInput(c: Client, clients: Registry, line: string, order: seq<string>): (r: Step)
    requires IsEnumeration(order, clients.Keys)
    ensures AllSpace(line) ==> r == Step([], clients, c.nickname)
    ensures !AllSpace(line) && TrimSpace(line)[0] != '/' && c.nickname == "" ==>
      r == Answer(c, clients, NoCommand)
    ensures !AllSpace(line) && TrimSpace(line)[0] != '/' && c.nickname != "" ==>
      r == Step([Submit(Route(Message(c.nickname, "", TrimSpace(line))))], clients, c.nickname)
    ensures !AllSpace(line) && TrimSpace(line)[0] == '/' ==> r == HandleCommand(c, clients, TrimSpace(line), order)
    ensures Disciplined(c, clients, r)
  {
    var input := TrimSpace(line);
    if input == "" then
      Step([], clients, c.nickname)
    else if HasPrefix(input, "/") then
      assert input[0] == input[..1][0] == '/';
      HandleCommand(c, clients, input, order)
    else
      Chat(c, clients, input)
  }

  /** A line that is not a command: refused before the client has a
      nickname, otherwise one message to everyone. */
  function Chat(c: Client, clients: Registry, input: string): (r: Step)
    ensures c.nickname == "" ==> r == Answer(c, clients, NoCommand)
    ensures c.nickname != "" ==> r == Step([Submit(Route(Message(c.nickname, "", input)))], clients, c.nickname)
    ensures Disciplined(c, clients, r)
  {
    if c.nickname == "" then
      Answer(c, clients, NoCommand)
    else
      Step([Submit(Route(Message(c.nickname, "", input)))], clients, c.nickname)
  }

  /** A word that can open a command line: it starts with `/` and holds no
      space, so the line's first space ends it. */
  predicate IsCommandWord(word: string) {
    word != "" && word[0] == '/' && ' ' !in word
  }

  /** A word that selects `/NICK` and can start a line of its own. */
  predicate IsNickWord(word: string) {
    IsCommandWord(word) && ParseCommand(word) == Nick
  }

  /** Words as `Fields` yields them: at least one, none empty, none holding
      white space. */
  predicate IsWordList(ws: seq<string>) {
    |ws| >= 1 && forall x | x in ws :: x != "" && NoSpace(x)
  }

  /** A name `/SEND` reads as one recipient: non-empty, without white space
      or `;`. */
  predicate IsRecipientName(r: string) {
    r != "" && NoSpace(r) && ';' !in r
  }

  /** A valid nickname is a single word: no white space, no `;`, no `,`. */
  lemma ValidNicknameIsWord(nick: string)
    requires IsValidNickname(nick)
    ensures nick != "" && NoSpace(nick) && ';' !in nick && ',' !in nick && ']' !in nick
  {
    forall i | 0 <= i < |nick|
      ensures !IsSpace(nick[i]) && nick[i] != ';' && nick[i] != ',' && nick[i] != ']'
    {
      assert IsWordChar(nick[i]);
    }
  }

  lemma UpperAsciiIdempotent(x: char)
    ensures UpperAscii(UpperAscii(x)) == UpperAscii(x)
    ensures UpperAscii(x) == ' ' <==> x == ' '
  {
  }

  lemma ToUpperIdempotent(w: string)
    ensures ToUpper(ToUpper(w)) == ToUpper(w)
    ensures ' ' in ToUpper(w) <==> ' ' in w
  {
    var u := ToUpper(w);
    forall i | 0 <= i < |w|
      ensures ToUpper(u)[i] == u[i]
      ensures u[i] == ' ' <==> w[i] == ' '
    {
      UpperAsciiIdempotent(w[i]);
    }
  }

  /** Cutting at the first separator finds the separator right after a first
      part that holds none. */
  lemma SplitN2At(w: string, rest: string, sep: char)
    requires sep !in w
    ensures SplitN2(w + [sep] + rest, sep) == [w, rest]
  {
    var s := w + [sep] + rest;
    assert s[|w|] == sep;
    assert forall i | 0 <= i < |w| :: s[i] == w[i];
    var r := SplitN2(s, sep);
    assert |r| == 2;
    assert s == r[0] + [sep] + r[1];
    assert forall i | 0 <= i < |r[0]| :: s[i] == r[0][i];
    assert s[|r[0]|] == sep;
    assert |r[0]| == |w|;
    assert r[0] == s[..|w|] == w;
    assert r[1] == s[|w| + 1..] == rest;
  }

  /** A command holding no space: the whole of it is the command word and
      the argument is empty. */
  lemma HandleWord(c: Client, clients: Registry, w: string, order: seq<string>)
    requires IsEnumeration(order, clients.Keys)
    requires ' ' !in w
    ensures HandleCommand(c, clients, w, order) == Dispatch(c, clients, ParseCommand(w), "", order)
  {
    var parts := SplitN2(w, ' ');
    assert |parts| == 1 && parts[0] == w;
  }

  /** A command word, one space and an argument: the word selects the
      handler and the argument is everything after that first space. */
  lemma HandleWordAndArgument(c: Client, clients: Registry, w: string, args: string, order: seq<string>)
    requires IsEnumeration(order, clients.Keys)
    requires ' ' !in w
    ensures HandleCommand(c, clients, w + " " + args, order) == Dispatch(c, clients, ParseCommand(w), args, order)
  {
    SplitN2At(w, args, ' ');
    var parts := SplitN2(w + " " + args, ' ');
    assert |parts| == 2 && parts[0] == w && parts[1] == args;
  }

  /** Upper-casing a word changes neither the command it selects nor where
      its spaces are. */
  lemma ParseCommandOfUpper(w: string)
    ensures ParseCommand(ToUpper(w)) == ParseCommand(w)
    ensures ' ' in ToUpper(w) <==> ' ' in w
  {
    ToUpperIdempotent(w);
  }

  /** The command word is matched without regard to ASCII case: a word and
      its upper-cased form select the same command with the same argument. */
  lemma CommandWordCaseInsensitive(c: Client, clients: Registry, w: string, args: string, order: seq<string>)
    requires IsEnumeration(order, clients.Keys)
    requires ' ' !in w
    ensures HandleCommand(c, clients, w + " " + args, order) == HandleCommand(c, clients, ToUpper(w) + " " + args, order)
  {
    ParseCommandOfUpper(w);
    HandleWordAndArgument(c, clients, w, args, order);
    HandleWordAndArgument(c, clients, ToUpper(w), args, order);
  }

  /** No command's name holds a tab, so a word holding one selects none. */
  lemma TabbedWordIsUnknown(word: string, rest: string)
    ensures ParseCommand(word + "\t" + rest) == Unknown
  {
    var u := ToUpper(word + "\t" + rest);
    assert u[|word|] == '\t';
  }

  /** Only a single space ends the command word: a command word followed by a
      tab and more text, with no space anywhere, is one unknown command word,
      whatever the word was. */
  lemma TabIsNotASeparator(c: Client, clients: Registry, word: string, rest: string, order: seq<string>)
    requires IsEnumeration(order, clients.Keys)
    requires IsCommandWord(word) && ' ' !in rest
    ensures HandleCommand(c, clients, word + "\t" + rest, order) == Answer(c, clients, InvalidCommand)
  {
    var w := word + "\t" + rest;
    assert ' ' !in w by {
      assert forall i | 0 <= i < |w| :: w[i] == if i < |word| then word[i] else if i == |word| then '\t' else rest[i - |word| - 1];
    }
    TabbedWordIsUnknown(word, rest);
    HandleWord(c, clients, w, order);
  }

  /** A command word is recognised in any case, in full or by its letter. */
  lemma CommandWords()
    ensures ParseCommand("/nick") == Nick
    ensures ParseCommand("/s") == Send
    ensures ParseCommand("/Bcast") == Bcast
    ensures ParseCommand("/L") == List
  {
    assert ToUpper("/nick") == "/NICK";
    assert ToUpper("/s") == "/S";
    assert ToUpper("/Bcast") == "/BCAST";
    assert ToUpper("/L") == "/L";
  }

  /** A word that is no command, however close, is not recognised. */
  lemma UnknownWords()
    ensures ParseCommand("/who") == Unknown
    ensures ParseCommand("/nickname") == Unknown
    ensures ParseCommand("nick") == Unknown
  {
    assert ToUpper("/who") == "/WHO";
  }

  lemma {:induction false} RecipientsOfWords(rs: seq<string>)
    requires forall r | r in rs :: r != "" && NoSpace(r)
    ensures Recipients(rs) == rs
  {
    if rs != [] {
      assert rs[0] in rs;
      TrimSpaceOfNoSpace(rs[0]);
      assert forall r | r in rs[1..] :: r in rs;
      RecipientsOfWords(rs[1..]);
      assert rs == [rs[0]] + rs[1..];
    }
  }

  /** One message from `from` per recipient, in order. */
  function Messages(from: string, rs: seq<string>, content: string): seq<Request> {
    seq(|rs|, i requires 0 <= i < |rs| => Route(Message(from, rs[i], content)))
  }

  /** One confirmation per recipient, in order. */
  function Confirmations(rs: seq<string>): seq<string> {
    seq(|rs|, i requires 0 <= i < |rs| => SentTo(rs[i]))
  }

  lemma MessagesCons(from: string, rs: seq<string>, content: string)
    requires rs != []
    ensures Messages(from, rs, content) == [Route(Message(from, rs[0], content))] + Messages(from, rs[1..], content)
  {
  }

  lemma ConfirmationsCons(rs: seq<string>)
    requires rs != []
    ensures Confirmations(rs) == [SentTo(rs[0])] + Confirmations(rs[1..])
  {
  }

  /** The submissions and replies of one recipient's pair of effects come
      first, then those of the rest. */
  lemma SendEachCons(from: string, rs: seq<string>, content: string)
    requires rs != []
    ensures Submitted(SendEach(from, rs, content)) ==
      [Route(Message(from, rs[0], content))] + Submitted(SendEach(from, rs[1..], content))
    ensures Replies(SendEach(from, rs, content)) == [SentTo(rs[0])] + Replies(SendEach(from, rs[1..], content))
  {
    var e := SendEach(from, rs, content);
    var tail := SendEach(from, rs[1..], content);
    assert e[1..] == [e[1]] + tail && e[1..][1..] == tail;
  }

  /** What `SendEach` submits and replies, each on its own: one message per
      recipient, and one confirmation per recipient, both in list order. */
  lemma {:induction false} SendEachProjections(from: string, rs: seq<string>, content: string)
    ensures Submitted(SendEach(from, rs, content)) == Messages(from, rs, content)
    ensures Replies(SendEach(from, rs, content)) == Confirmations(rs)
  {
    if rs != [] {
      SendEachProjections(from, rs[1..], content);
      SendEachCons(from, rs, content);
      MessagesCons(from, rs, content);
      ConfirmationsCons(rs);
    }
  }

  /** A line that starts with `/` and ends in a non-space character is
      handled as a command, as it stands. */
  lemma CommandLine(c: Client, clients: Registry, line: string, order: seq<string>)
    requires IsEnumeration(order, clients.Keys)
    requires line != "" && line[0] == '/' && !IsSpace(line[|line| - 1])
    ensures ProcessInput(c, clients, line, order) == HandleCommand(c, clients, line, order)
  {
    TrimSpaceOfTrimmed(line);
    assert HasPrefix(line, "/") by {
      assert line[..1] == [line[0]];
    }
  }

  /** A command word followed by one space and an argument that ends in a
      non-space character: the word selects the handler, which gets the
      argument as it stands. */
  lemma CommandWithArgument(c: Client, clients: Registry, word: string, args: string, order: seq<string>)
    requires IsEnumeration(order, clients.Keys)
    requires IsCommandWord(word)
    requires args != "" && !IsSpace(args[|args| - 1])
    ensures ProcessInput(c, clients, word + " " + args, order) == Dispatch(c, clients, ParseCommand(word), args, order)
  {
    var line := word + " " + args;
    assert line[|line| - 1] == args[|args| - 1];
    CommandLine(c, clients, line, order);
    HandleWordAndArgument(c, clients, word, args, order);
  }

  /** White space around a command line changes nothing: the word still
      selects the handler, which gets the argument as it stands. */
  lemma PaddedCommand(c: Client, clients: Registry, pre: string, word: string, args: string, post: string, order: seq<string>)
    requires IsEnumeration(order, clients.Keys)
    requires AllSpace(pre) && AllSpace(post)
    requires IsCommandWord(word)
    requires args != "" && !IsSpace(args[|args| - 1])
    ensures ProcessInput(c, clients, pre + (word + " " + args) + post, order) ==
      Dispatch(c, clients, ParseCommand(word), args, order)
  {
    var t := word + " " + args;
    assert t[0] == '/' && t[|t| - 1] == args[|args| - 1];
    TrimSpaceOfPadded(pre, t, post);
    HandleWordAndArgument(c, clients, word, args, order);
  }

  /** A command word alone on its line, with no argument: the word selects
      the handler, which gets the empty argument. */
  lemma BareCommand(c: Client, clients: Registry, word: string, order: seq<string>)
    requires IsEnumeration(order, clients.Keys)
    requires word != "" && word[0] == '/' && NoSpace(word)
    ensures ProcessInput(c, clients, word, order) == Dispatch(c, clients, ParseCommand(word), "", order)
  {
    assert ' ' !in word by {
      forall i | 0 <= i < |word| ensures word[i] != ' ' {
        assert !IsSpace(word[i]);
      }
    }
    CommandLine(c, clients, word, order);
    HandleWord(c, clients, word, order);
  }

  /** What each command answers when given no argument: `/NICK`, `/SEND` and
      `/BCAST` reply with their usage (or, before a nickname is set, with the
      request to set one), `/LIST` lists the users, and nothing changes. */
  lemma BareCommandAnswers(c: Client, clients: Registry, word: string, order: seq<string>)
    requires IsEnumeration(order, clients.Keys)
    requires word != "" && word[0] == '/' && NoSpace(word)
    ensures var r := ProcessInput(c, clients, word, order);
      && r.clients == clients && r.nickname == c.nickname
      && (ParseCommand(word) == Nick ==> r == Answer(c, clients, NickUsage))
      && (ParseCommand(word) == Send ==> r == Answer(c, clients, if c.nickname == "" then SendNeedsNick else SendUsage))
      && (ParseCommand(word) == Bcast ==> r == Answer(c, clients, if c.nickname == "" then BcastNeedsNick else BcastUsage))
      && (ParseCommand(word) == List ==> r == ListUsers(c, clients, order))
      && (ParseCommand(word) == Unknown ==> r == Answer(c, clients, InvalidCommand))
  {
    BareCommand(c, clients, word, order);
    DispatchWithoutArgument(c, clients, ParseCommand(word), order);
  }

  /** Each handler given the empty argument. */
  lemma DispatchWithoutArgument(c: Client, clients: Registry, cmd: Command, order: seq<string>)
    requires IsEnumeration(order, clients.Keys)
    ensures var r := Dispatch(c, clients, cmd, "", order);
      && r.clients == clients && r.nickname == c.nickname
      && (cmd == Nick ==> r == Answer(c, clients, NickUsage))
      && (cmd == Send ==> r == Answer(c, clients, if c.nickname == "" then SendNeedsNick else SendUsage))
      && (cmd == Bcast ==> r == Answer(c, clients, if c.nickname == "" then BcastNeedsNick else BcastUsage))
      && (cmd == List ==> r == ListUsers(c, clients, order))
      && (cmd == Unknown ==> r == Answer(c, clients, InvalidCommand))
  {
    match cmd
    case Nick => NickWithoutArgument(c, clients);
    case Send => SendWithoutArgument(c, clients);
    case Bcast => BcastWithoutArgument(c, clients);
    case List =>
    case Unknown =>
  }

  lemma NickWithoutArgument(c: Client, clients: Registry)
    ensures SetNickname(c, clients, "") == Answer(c, clients, NickUsage)
  {
    assert AllSpace("");
  }

  lemma SendWithoutArgument(c: Client, clients: Registry)
    ensures SendDirectMessage(c, clients, "") ==
      Answer(c, clients, if c.nickname == "" then SendNeedsNick else SendUsage)
  {
    assert AllSpace("");
    assert Fields("") == [];
  }

  lemma BcastWithoutArgument(c: Client, clients: Registry)
    ensures BroadcastMessage(c, clients, "") ==
      Answer(c, clients, if c.nickname == "" then BcastNeedsNick else BcastUsage)
  {
    assert AllSpace("");
  }

  /** The line `word n`, with `word` one of the spellings of `/NICK` and `n`
      a valid nickname: refused as in use when `n` is a registry key, and
      otherwise taken, registered and confirmed. */
  lemma NickLine(c: Client, clients: Registry, word: string, n: string, order: seq<string>)
    requires IsEnumeration(order, clients.Keys)
    requires IsNickWord(word) && IsValidNickname(n)
    ensures var r := ProcessInput(c, clients, word + " " + n, order);
      && (n in clients ==> r == Answer(c, clients, NickInUse))
      && (n !in clients ==>
            && r.nickname == n && IsRename(c, clients, n, r.clients)
            && r.effects == [Submit(Register(Client(c.id, n))), Reply(NickSet(n))])
  {
    ValidNicknameIsWord(n);
    CommandWithArgument(c, clients, word, n, order);
    assert ProcessInput(c, clients, word + " " + n, order) == SetNickname(c, clients, n);
    TrimSpaceOfNoSpace(n);
    FieldsOfJoin([n]);
    assert Join([n], " ") == n;
    assert !AllSpace(n) by { assert !IsSpace(n[0]); }
    assert NickArgument(n) == n;
  }

  /** `/SEND r1;…;rn w1 … wm` from a client with a nickname: one message per
      recipient, in list order, each holding the words joined by single
      spaces and each followed at once by its confirmation. */
  lemma SendToListed(c: Client, clients: Registry, rs: seq<string>, ws: seq<string>)
    requires c.nickname != ""
    requires |rs| >= 1 && forall r | r in rs :: IsRecipientName(r)
    requires IsWordList(ws)
    ensures var r := SendDirectMessage(c, clients, Join(rs, ";") + " " + Join(ws, " "));
      && r.effects == SendEach(c.nickname, rs, Join(ws, " "))
      && Submitted(r.effects) == Messages(c.nickname, rs, Join(ws, " "))
      && Replies(r.effects) == Confirmations(rs)
  {
    SendArguments(c, clients, rs, ws);
    SendEachProjections(c.nickname, rs, Join(ws, " "));
  }

  /** The argument `r1;…;rn w1 … wm` names the recipients `r1 … rn` and the
      content `w1 … wm`. */
  lemma SendArguments(c: Client, clients: Registry, rs: seq<string>, ws: seq<string>)
    requires c.nickname != ""
    requires |rs| >= 1 && forall r | r in rs :: IsRecipientName(r)
    requires IsWordList(ws)
    ensures SendDirectMessage(c, clients, Join(rs, ";") + " " + Join(ws, " ")).effects ==
      SendEach(c.nickname, rs, Join(ws, " "))
  {
    var list := Join(rs, ";");
    assert rs[0] in rs;
    assert |list| >= |rs[0]| by {
      if |rs| > 1 { assert list == rs[0] + ";" + Join(rs[1..], ";"); }
    }
    SendPieces(c, clients, rs, ws);
    RecipientsOfWords(rs);
  }

  /** The argument `p1;…;pn w1 … wm`, where pieces may be blank: the
      recipients are those the pieces give, and the content is `w1 … wm`. */
  lemma SendPieces(c: Client, clients: Registry, ps: seq<string>, ws: seq<string>)
    requires c.nickname != ""
    requires |ps| >= 1 && forall p | p in ps :: NoSpace(p) && ';' !in p
    requires Join(ps, ";") != ""
    requires IsWordList(ws)
    ensures SendDirectMessage(c, clients, Join(ps, ";") + " " + Join(ws, " ")).effects ==
      SendEach(c.nickname, Recipients(ps), Join(ws, " "))
  {
    var list := Join(ps, ";");
    JoinNoSpace(ps, ";");
    JoinCons(list, ws, " ");
    FieldsOfJoin([list] + ws);
    var fields := Fields(list + " " + Join(ws, " "));
    assert fields == [list] + ws;
    assert fields[0] == list && fields[1..] == ws;
    SplitOfJoin(ps, ';');
  }

  /** `/SEND a;;b w1 … wm`: the empty name between the two `;` is skipped,
      and `a` and `b` each get the message and a confirmation. */
  lemma SendSkipsBlankRecipient(c: Client, clients: Registry, a: string, b: string, ws: seq<string>)
    requires c.nickname != ""
    requires IsRecipientName(a) && IsRecipientName(b)
    requires IsWordList(ws)
    ensures SendDirectMessage(c, clients, a + ";;" + b + " " + Join(ws, " ")).effects ==
      SendEach(c.nickname, [a, b], Join(ws, " "))
  {
    BlankPairPieces(a, b);
    BlankPairJoin(a, b);
    RecipientsSkipBlank(a, "", b);
    SendPieces(c, clients, [a] + [""] + [b], ws);
  }

  /** The pieces of `a;;b`: free of white space and `;`, and joined back
      into `a;;b`. */
  lemma BlankPairPieces(a: string, b: string)
    requires IsRecipientName(a) && IsRecipientName(b)
    ensures forall p | p in [a] + [""] + [b] :: NoSpace(p) && ';' !in p
  {
    assert forall p | p in [a] + [""] + [b] :: p == a || p == "" || p == b;
  }

  lemma BlankPairJoin(a: string, b: string)
    ensures Join([a] + [""] + [b], ";") == a + ";;" + b
  {
    var ps := [a] + [""] + [b];
    assert ps[0] == a && ps[1..] == ["", b];
    assert ["", b][1..] == [b];
    assert Join(["", b], ";") == "" + ";" + b == ";" + b;
    assert Join(ps, ";") == a + ";" + (";" + b);
  }

  /** However much white space separates and surrounds the words of a
      `/SEND` argument, the first word lists the recipients and the other
      words, joined by single spaces, are the content. */
  lemma SendLayout(c: Client, clients: Registry, list: string, ws: seq<string>, gaps: seq<string>)
    requires c.nickname != ""
    requires list != "" && NoSpace(list)
    requires IsWordList(ws) && IsGaps(gaps, |ws| + 1)
    ensures SendDirectMessage(c, clients, Layout([list] + ws, gaps)).effects ==
      SendEach(c.nickname, Recipients(Split(list, ';')), Join(ws, " "))
  {
    assert forall w | w in [list] + ws :: w == list || w in ws;
    FieldsOfLayout([list] + ws, gaps);
    var fields := Fields(Layout([list] + ws, gaps));
    assert fields[0] == list && fields[1..] == ws;
  }

  /** A line made of a spelling of `/SEND`, one space and an argument that
      ends in a non-space character is `sendDirectMessage` of that argument. */
  lemma SendCommand(c: Client, clients: Registry, word: string, args: string, order: seq<string>)
    requires IsEnumeration(order, clients.Keys)
    requires IsCommandWord(word) && ParseCommand(word) == Send
    requires args != "" && !IsSpace(args[|args| - 1])
    ensures ProcessInput(c, clients, word + " " + args, order) == SendDirectMessage(c, clients, args)
  {
    CommandWithArgument(c, clients, word, args, order);
  }

  lemma LastOfWords(r: string, ws: seq<string>)
    requires IsWordList(ws)
    ensures var args := r + " " + Join(ws, " "); args != "" && !IsSpace(args[|args| - 1])
  {
    var args := r + " " + Join(ws, " ");
    var last := ws[|ws| - 1];
    assert last in ws;
    JoinEndsWithLast(ws, " ");
    assert args[|args| - 1] == last[|last| - 1];
  }

  lemma SendOne(c: Client, clients: Registry, r: string, ws: seq<string>)
    requires c.nickname != ""
    requires IsRecipientName(r)
    requires IsWordList(ws)
    ensures var args := r + " " + Join(ws, " "); args != "" && !IsSpace(args[|args| - 1])
    ensures SendDirectMessage(c, clients, r + " " + Join(ws, " ")) ==
      Step([Submit(Route(Message(c.nickname, r, Join(ws, " ")))), Reply(SentTo(r))], clients, c.nickname)
  {
    LastOfWords(r, ws);
    assert Join([r], ";") == r;
    SendArguments(c, clients, [r], ws);
    var st := SendDirectMessage(c, clients, r + " " + Join(ws, " "));
    assert st.clients == clients && st.nickname == c.nickname;
    assert st.effects == SendEach(c.nickname, [r], Join(ws, " "));
    assert SendEach(c.nickname, [r], Join(ws, " ")) ==
      [Submit(Route(Message(c.nickname, r, Join(ws, " ")))), Reply(SentTo(r))] + SendEach(c.nickname, [], Join(ws, " "));
  }

  /** The line `word r w1 … wm`, with `word` a spelling of `/SEND`, from a
      client with a nickname: the message to `r`, then its confirmation. */
  lemma SendOneLine(c: Client, clients: Registry, word: string, r: string, ws: seq<string>, order: seq<string>)
    requires IsEnumeration(order, clients.Keys)
    requires c.nickname != ""
    requires IsCommandWord(word) && ParseCommand(word) == Send
    requires IsRecipientName(r)
    requires IsWordList(ws)
    ensures ProcessInput(c, clients, word + " " + (r + " " + Join(ws, " ")), order) ==
      Step([Submit(Route(Message(c.nickname, r, Join(ws, " ")))), Reply(SentTo(r))], clients, c.nickname)
  {
    SendOne(c, clients, r, ws);
    SendCommand(c, clients, word, r + " " + Join(ws, " "), order);
  }

  /** `/NICK` with the client's own current nickname is refused as already in
      use, since that nickname is a registry key. */
  lemma OwnNicknameInUse(c: Client, clients: Registry)
    requires IsValidNickname(c.nickname) && c.nickname in clients
    ensures SetNickname(c, clients, c.nickname) == Answer(c, clients, NickInUse)
  {
    ValidNicknameIsWord(c.nickname);
    TrimSpaceOfNoSpace(c.nickname);
    FieldsOfJoin([c.nickname]);
  }

  /** Each of the three refusals of `/NICK` leaves the registry and the
      nickname as they were, and answers with one reply. */
  lemma NickRefusalsChangeNothing(c: Client, clients: Registry, args: string)
    requires AllSpace(args) || !IsValidNickname(NickArgument(args)) || NickArgument(args) in clients
    ensures var r := SetNickname(c, clients, args);
      r.clients == clients && r.nickname == c.nickname && Submitted(r.effects) == [] && |Replies(r.effects)| == 1
  {
  }

  /** The user list read back out of a `/LIST` reply: the comma-separated
      names between the prefix and the final newline, trimmed. */
  function UserList(text: string): seq<string> {
    if |text| > |UsersPrefix| && text[..|UsersPrefix|] == UsersPrefix && text[|text| - 1] == '\n' then
      TrimAll(Split(text[|UsersPrefix|..|text| - 1], ','))
    else
      []
  }

  /** `order` with a space put before every name but the first. */
  function Spaced(order: seq<string>): (r: seq<string>)
    requires |order| >= 1
    ensures |r| == |order| && r[0] == order[0]
    ensures forall i | 1 <= i < |order| :: r[i] == " " + order[i]
  {
    [order[0]] + seq(|order| - 1, i requires 0 <= i < |order| - 1 => " " + order[i + 1])
  }

  lemma {:induction false} JoinSpaced(order: seq<string>)
    requires |order| >= 1
    ensures Join(order, ", ") == Join(Spaced(order), ",")
    decreases |order|
  {
    if |order| > 1 {
      var tail := Spaced(order[1..]);
      JoinSpaced(order[1..]);
      SpacedTail(order);
      JoinConsChar(' ', tail, ",");
      assert Join(order, ", ") == order[0] + ", " + Join(order[1..], ", ");
      assert Join(Spaced(order), ",") == Spaced(order)[0] + "," + Join(Spaced(order)[1..], ",");
    }
  }

  lemma SpacedTail(order: seq<string>)
    requires |order| > 1
    ensures Spaced(order)[1..] == [[' '] + Spaced(order[1..])[0]] + Spaced(order[1..])[1..]
  {
  }

  function TrimAll(ps: seq<string>): (r: seq<string>)
    ensures |r| == |ps| && forall i | 0 <= i < |ps| :: r[i] == TrimSpace(ps[i])
  {
    seq(|ps|, i requires 0 <= i < |ps| => TrimSpace(ps[i]))
  }

  lemma SpacedElement(order: seq<string>, i: nat)
    requires i < |order| && IsValidNickname(order[i])
    ensures ',' !in Spaced(order)[i] && TrimSpace(Spaced(order)[i]) == order[i]
  {
    ValidNicknameIsWord(order[i]);
    if i == 0 {
      TrimSpaceOfNoSpace(order[i]);
    } else {
      TrimSpaceOfSpaced(order[i]);
    }
  }

  lemma TrimAllSpaced(order: seq<string>)
    requires |order| >= 1
    requires forall k | k in order :: IsValidNickname(k)
    ensures forall p | p in Spaced(order) :: ',' !in p
    ensures TrimAll(Spaced(order)) == order
  {
    var spaced := Spaced(order);
    forall i | 0 <= i < |order|
      ensures ',' !in spaced[i] && TrimSpace(spaced[i]) == order[i]
    {
      assert order[i] in order;
      SpacedElement(order, i);
    }
    forall p | p in spaced
      ensures ',' !in p
    {
      var i :| 0 <= i < |spaced| && spaced[i] == p;
    }
  }

  /** A list of valid nicknames, joined as `/LIST` joins them, reads back as
      the same list. */
  lemma UserListOfJoin(order: seq<string>)
    requires |order| >= 1
    requires forall k | k in order :: IsValidNickname(k)
    ensures UserList(UsersPrefix + Join(order, ", ") + "\n") == order
  {
    UserListOf(Join(order, ", "));
    JoinSpaced(order);
    TrimAllSpaced(order);
    SplitOfJoin(Spaced(order), ',');
  }

  lemma UserListOf(names: string)
    ensures UserList(UsersPrefix + names + "\n") == TrimAll(Split(names, ','))
  {
    var text := UsersPrefix + names + "\n";
    assert text[..|UsersPrefix|] == UsersPrefix;
    assert text[|UsersPrefix|..|text| - 1] == names;
  }

  /** With every registered nickname valid, the `/LIST` reply names each
      registered nickname exactly once, and nothing else. */
  lemma ListUsersNamesEveryKeyOnce(c: Client, clients: Registry, order: seq<string>)
    requires IsEnumeration(order, clients.Keys)
    requires forall k | k in clients :: IsValidNickname(k)
    ensures multiset(UserList(ListUsers(c, clients, order).effects[0].text)) == multiset(clients.Keys)
  {
    if |clients| == 0 {
      assert NoUsers[0] != UsersPrefix[0];
    } else {
      assert |multiset(order)| == |order| && |multiset(clients.Keys)| == |clients.Keys|;
      EnumerationMembers(order, clients.Keys);
      UserListOfJoin(order);
    }
  }
}
