# A model of the GoChatSystem relay

The relay is a line-oriented TCP chat server. Every connection gets a
`Client`, a goroutine that reads lines and a goroutine that writes queued
text. One control loop, `Server.Run`, owns the registry from nickname to
client. It serves three channels: `register`, `unregister` and
`broadcast`. A line that starts with `/` is a command: `/NICK` (or `/N`),
`/SEND` (or `/S`), `/BCAST` (or `/B`) or `/LIST` (or `/L`). Any other
line is chat for everyone.

The model has five modules:

- `GoStrings` (`gostrings.dfy`) is the part of Go's `strings` package the
  relay uses: `TrimSpace`, `HasPrefix`, `Fields`, `Split`,
  `SplitN(_, " ", 2)`, `Join` and `ToUpper`. It is stated over Unicode white
  space as `unicode.IsSpace` defines it.
- `Nickname` (`nickname.dfy`) is `isValidNickname`. It is a length check
  followed by a matcher for the anchored pattern, proved equal to the
  documented position-by-position rule.
- `Router` (`router.dfy`) is the server. It holds the registry, `Message`,
  `formatMessage`, and one turn of `Run`'s `select`: register, unregister,
  and a broadcast or directed message. Go's map iteration order is not
  fixed, so each walk over the registry takes the order as a parameter.
  That parameter is any sequence holding each key once.
- `Commands` (`commands.dfy`) is a client's read side: `processInput`,
  `handleCommand` and the four handlers. Each is a pure function of the
  client's nickname, the registry and the line. It returns the ordered
  effects: replies to the client itself, and requests handed to the
  control loop. It also returns the registry and nickname afterwards.
- `Relay` (`relay.dfy`) is the whole system as a state machine over atomic
  steps: a connection accepted, one line read, a connection closed. The
  state is the registry, each connected client's nickname, and the text
  queued for each client. The module proves an invariant that every step
  keeps: registry keys are valid nicknames, and the registry and the
  clients' nicknames name each other. It also proves end-to-end behaviour
  of chat, `/NICK`, `/SEND` and `/BCAST`.

Where the code and its documentation differ, the model follows the code:

- A directed message reaches its recipient as `[from]: content` followed
  by two newlines, because `Run` appends `"\n"` to the content before
  formatting it (server.go:66).
- The command word ends at the first single space only (client.go:91). A
  tab after it is part of the word, so the command is unknown.
- A client asking for its own current nickname is told that it is in use
  (client.go:135-138).

## Model

| member | source | states |
|---|---|---|
| `Nickname.IsValidNickname` | utils.go:6-12 | An accepted nickname has 1 to 10 characters, an ASCII letter first and only letters, digits and `_` after it. The empty string and anything over 10 characters are refused. |
| `Nickname.ValidIffWellFormed` | utils.go:10 | The length check plus the pattern `^[A-Za-z][A-Za-z0-9_]{0,9}$` accept exactly the nicknames that are well formed by the documented rule (both directions). |
| `Nickname.Examples` | utils.go:6-12 | `A`, `a1` and a 10-character nickname are accepted. A leading digit, the empty string, 11 characters and a hyphen are refused. |
| `GoStrings.IsSpace` | client.go:68 | No contract of its own. It is `unicode.IsSpace`: tab through carriage return, space, U+0085, U+00A0 and the Unicode white space above Latin-1. It decides where `TrimSpace` and `Fields` cut, and `GoStrings.TrimSpaceOfPadded` and `GoStrings.FieldsOfLayout` state the cuts in its terms. |
| `GoStrings.TrimSpace` | client.go:68 | The result is empty exactly when the line is all white space. Otherwise it starts and ends with a non-space character. |
| `GoStrings.TrimSpaceIsSlice` | client.go:68 | The trimmed line is the original with only white space removed at each end. |
| `GoStrings.TrimSpaceOfPadded` | client.go:68 | Trimming a text that starts and ends with a non-space character, surrounded by any white space, gives back that text. |
| `GoStrings.Fields` | client.go:160 | Every field is non-empty and free of white space. There are no fields exactly when the text is all white space. `GoStrings.FieldsOfLayout` states which fields a text has. |
| `GoStrings.FieldsOfJoin` | client.go:160-167 | Splitting a space-joined list of words into fields gives back the words. |
| `GoStrings.FieldsOfLayout` | client.go:160 | Words separated by non-empty runs of white space of any kind and length, with any white space or none at either end, split into exactly those words, in order. |
| `GoStrings.Split` | client.go:169 | No piece contains the separator, and joining the pieces with it gives back the text. |
| `GoStrings.SplitOfJoin` | client.go:169 | Splitting a separator-joined list of separator-free pieces gives back the pieces. |
| `GoStrings.SplitN2` | client.go:91 | The first part holds no separator. There is one part exactly when the text holds no separator, and otherwise the text is first part, separator, rest. |
| `GoStrings.Join` | client.go:167 | No contract of its own. `GoStrings.SplitOfJoin` and `GoStrings.FieldsOfJoin` show that `Split` and `Fields` undo it. |
| `GoStrings.ToUpper` | client.go:92 | The result has the same length, with each ASCII lower-case letter replaced by its upper-case letter and every other character kept. |
| `Router.AddClient` | server.go:40-44 | After a register, the client's nickname maps to it, no other key appears, and no other entry changes. |
| `Router.RemoveClient` | server.go:45-51 | A client without a nickname changes nothing. Otherwise exactly the key equal to its nickname leaves, and every remaining entry is unchanged. |
| `Router.RouteMessage` | server.go:52-74 | A broadcast reaches every registered key except the sender exactly once, with the formatted message. A directed message reaches its registered recipient alone, with one newline added to the content. A message to an unknown nickname sends the error to the sender if the sender is registered, and otherwise sends nothing. |
| `Router.Fanout` | server.go:56-60 | The broadcast loop makes one formatted delivery per key in the walk order, skipping the sender's key, to the client that key maps to. |
| `Router.Serve` | server.go:39-75 | Routing never changes the registry. Register and unregister never send anything. Register adds exactly the client's key, and unregister only removes keys. |
| `Router.RouteOrderIrrelevant` | server.go:56 | Any two walk orders of the registry give the same deliveries up to permutation. |
| `Router.BroadcastSkipsSender` | server.go:57 | No broadcast delivery goes to the sender's key, and every other registered key gets one. |
| `Router.ParseFormatted` | server.go:80-82 | A formatted line reads back as its sender and content whenever the sender holds no `]`. |
| `Router.FormatParsed` | server.go:80-82 | Every line the reader accepts is exactly the formatting of the sender and content it returns. |
| `Router.FormatMessage` | server.go:80-82 | No contract of its own. `Router.ParseFormatted` and `Router.FormatParsed` show that the line can be read back into sender and content. |
| `Router.DirectedDeliveryText` | server.go:65-66 | A directed message to a registered recipient is `[from]: content` and two newlines, and reads back with the content plus one newline. |
| `Commands.ProcessInput` | client.go:67-86 | A blank line does nothing. A non-command line before a nickname is set gets the "command must be specified" error. Otherwise it submits one broadcast of the trimmed line under the client's nickname. A line whose trimmed form starts with `/` is handled as that trimmed command line. Every outcome is disciplined: the registry is unchanged or changed only by a rename to a fresh valid nickname, and every submitted message carries the client's own nickname. |
| `Commands.Chat` | client.go:76-84 | A chat line before a nickname is set gets only the "command must be specified" error. Afterwards it submits one message to everyone, from the client's nickname, with the line as content, and changes nothing else. |
| `Commands.PaddedCommand` | client.go:68-74 | White space before and after a command line is ignored: the word still selects its handler, which gets the argument as it stands. |
| `Commands.HandleCommand` | client.go:89-114 | An unknown command word gets only the invalid-command reply. Only `/NICK` can change the registry or the nickname. |
| `Commands.ParseCommand` | client.go:92-106 | Only a word that starts with `/` and has 2 to 6 characters can name a command. |
| `Commands.CommandWords` | client.go:98-105 | `/nick`, `/s`, `/Bcast` and `/L` select `/NICK`, `/SEND`, `/BCAST` and `/LIST`: case does not matter, and each command has a full and a one-letter form. |
| `Commands.UnknownWords` | client.go:107-112 | `/who`, `/nickname` (a command word with more after it) and `nick` (no `/`) select no command. |
| `Commands.Dispatch` | client.go:98-113 | An unknown command answers with the usage list and changes nothing. Every command but `/NICK` leaves the registry and the nickname as they were, and every outcome is disciplined. |
| `Commands.BareCommand` | client.go:91-96 | A command word alone on its line is dispatched with the empty argument. |
| `Commands.BareCommandAnswers` | client.go:98-113 | With no argument, `/NICK` answers with its usage, and `/SEND` and `/BCAST` answer with their usage or with the need for a nickname. `/LIST` lists, an unknown word gets the usage list, and the registry and nickname never change. |
| `Commands.DispatchWithoutArgument` | client.go:98-113 | Each handler's answer to the empty argument: usage for `/NICK`, usage or the need for a nickname for `/SEND` and `/BCAST`, the list for `/LIST`, the usage list otherwise, with the registry and nickname unchanged. |
| `Commands.CommandWordCaseInsensitive` | client.go:91-92 | A command word and its upper-cased form select the same handler with the same argument. |
| `Commands.TabIsNotASeparator` | client.go:91 | A command word followed by a tab (and no space) is one unknown word, answered with the usage list. |
| `Commands.CommandWithArgument` | client.go:73-74 | A command word, one space and an argument without trailing white space dispatch that word's handler on that argument. |
| `Commands.NickArgument` | client.go:118-125 | The candidate nickname is empty exactly when the argument is blank, and it never holds white space. `Commands.NickArgumentIsFirstWord` states which word it is. |
| `Commands.NickArgumentIsFirstWord` | client.go:124-125 | For a non-blank argument the candidate is its first word: only white space comes before it, and white space or the end of the argument comes right after it. |
| `Commands.SetNickname` | client.go:117-150 | A blank argument, an invalid nickname or one already registered each get their own reply and change nothing. Otherwise the old key is dropped, the new nickname maps to the client, the client is registered again and told so. |
| `Commands.TakeNickname` | client.go:140-149 | The accepted branch renames the client's registry entry and emits the registration followed by the confirmation. |
| `Commands.OwnNicknameInUse` | client.go:135-138 | `/NICK` with one's own registered nickname is refused as in use. |
| `Commands.NickRefusalsChangeNothing` | client.go:118-138 | Each refusal leaves the registry and nickname as they were, submits nothing and sends exactly one reply. |
| `Commands.NickLine` | client.go:117-150 | The line `/NICK n` with a valid `n` is refused as in use when `n` is registered. Otherwise it takes `n`, registers and confirms. |
| `Commands.SendDirectMessage` | client.go:153-186 | It is refused without a nickname or with fewer than two words. Otherwise there is one message per recipient holding the remaining words joined by single spaces, and the registry never changes. |
| `Commands.Recipients` | client.go:172-176 | There are never more recipients than pieces, and none is empty. `Commands.RecipientsOne` and `Commands.RecipientsAppend` determine the result for every list of pieces. |
| `Commands.RecipientsOne` | client.go:172-176 | One piece gives its trimmed form as a recipient, or nothing when it is blank. |
| `Commands.RecipientsAppend` | client.go:172 | Pieces are handled one after another: the recipients of two runs of pieces are those of the first run followed by those of the second. |
| `Commands.RecipientsSkipBlank` | client.go:174-176 | A blank piece between two names, as in `a;;b`, is skipped, and both names are recipients. |
| `Commands.RecipientsOfWords` | client.go:172-176 | Pieces that are non-empty and free of white space are the recipients exactly as listed. |
| `Commands.SendEach` | client.go:172-185 | The loop over the recipients makes two effects per recipient. `Commands.SendEachAt` and `Commands.SendEachProjections` state which effects they are and in what order. |
| `Commands.SendEachAt` | client.go:172-185 | The message to the i-th recipient is immediately followed by its confirmation. |
| `Commands.SendEachProjections` | client.go:172-185 | The submitted messages are exactly one per recipient in list order, and the replies are exactly one confirmation per recipient in list order. |
| `Commands.SendToListed` | client.go:160-185 | `r1;…;rn w1 … wm` sends `w1 … wm` to each `ri` in order, each followed by its confirmation. |
| `Commands.SendPieces` | client.go:166-185 | With a `;`-joined list of pieces, blank ones allowed, and words after it, there is one message and confirmation for each recipient the pieces give, in order, with the words joined by single spaces. |
| `Commands.SendSkipsBlankRecipient` | client.go:169-185 | `/SEND a;;b w1 … wm` sends the message to `a` and then to `b`, each followed by its confirmation. |
| `Commands.SendLayout` | client.go:160-167 | However much white space separates and surrounds the words of the argument, the first word lists the recipients and the rest, joined by single spaces, is the content. |
| `Commands.SendOneLine` | client.go:153-186 | The line `/SEND r w1 … wm` submits the message to `r`, then replies with the confirmation, and changes nothing else. |
| `Commands.BroadcastMessage` | client.go:189-207 | It is refused without a nickname or with a blank argument. Otherwise it submits one message to everyone holding the trimmed argument, then confirms. |
| `Commands.ListUsers` | client.go:210-226 | The reply says nobody is connected exactly when the registry is empty. Otherwise it names the keys in walk order, separated by `, `. |
| `Commands.ListUsersNamesEveryKeyOnce` | client.go:220-225 | Read back, the `/LIST` reply holds every registered nickname exactly once and nothing else. |
| `Relay.Init` | server.go:26-33 | The new server has nobody registered or connected, and this meets the invariant. |
| `Relay.Connect` | client.go:21-27 | A new connection has no nickname and an empty queue, and the registry is unchanged. |
| `Relay.Append` | client.go:62-64 | Queuing text for a connected client adds it at the end of that client's queue and leaves every other queue as it was. No queue appears or disappears. `Relay.DeliverAppends` extends this to a sequence of deliveries. |
| `Relay.Apply` | server.go:39-75 | Carrying out one effect never changes a nickname or which queues exist. A request handed to the control loop is served at once. `Relay.ApplyBroadcast` and `Relay.ApplyDirected` state what a broadcast and a directed message queue. |
| `Relay.Perform` | client.go:178-184 | A handler's effects are carried out in the order it made them, and none changes a nickname or which queues exist. |
| `Relay.Disconnect` | server.go:45-51 | Exactly the registry keys of the leaving client are removed, every other entry stays, and its queue is gone. |
| `Relay.Install` | client.go:145-148 | Carrying out a client's step sets that client's nickname to the step's and no other, and no queue appears or disappears. |
| `Relay.Input` | client.go:37-40 | A line read from a client changes at most that client's nickname, and only to a valid one. Nobody connects or disconnects. |
| `Relay.ConnectPreservesInvariant` | client.go:21-27 | A new connection keeps the invariant. |
| `Relay.DisconnectPreservesInvariant` | client.go:42-43 | Unregistering on disconnect keeps the invariant. |
| `Relay.InputPreservesInvariant` | client.go:37-40 | Every line read keeps the invariant: keys are valid nicknames, each key maps to the client holding that nickname, and each client with a nickname is found under it. |
| `Relay.ChatReachesOthers` | client.go:80-84 | A chat line from a client with a nickname is queued once, formatted with the sender's nickname, for every other client with a nickname. Nobody else gets anything, and the registry stays. |
| `Relay.BroadcastQueues` | server.go:53-61 | A broadcast adds the formatted message once to the queue of every client with a nickname other than the sender. Every other queue stays. |
| `Relay.NickTaken` | client.go:140-149 | `/NICK n` with a free valid `n` gives the client `n` alone, releases its old nickname and queues the confirmation. |
| `Relay.NickRefusedInUse` | client.go:135-138 | `/NICK n` for a held nickname only queues the in-use error. |
| `Relay.NickIsExclusive` | client.go:132-147 | Once one client has taken `n`, another client's `/NICK n` is refused and leaves `n` with the first. |
| `Relay.SendToOne` | server.go:62-73 | `/SEND r …` queues the message with its extra newline for the holder of `r`, or the not-registered error for the sender, then the confirmation for the sender. |
| `Relay.BcastReachesOthers` | client.go:189-207 | `/BCAST text` reaches every other client with a nickname once and gives the sender only the confirmation. |

## Left out

- Networking and goroutines are not modelled: `main.go`, the listener, `Handle`'s scanner loop, and the `connect/` client. A line arrives as a parameter, and each connection, line or disconnect is one atomic step.
- Queued text is the end of the model. `writePump` writing to the socket, and the write error that stops it, are not modelled.
- Channels are assumed never to block and have no backpressure. A `SendMessage` or a request to the control loop takes effect at once, so a slow or dead client never stalls anyone.
- Logging (`log.Printf`) has no effect in the model.
- Go strings are byte strings, and here a string is a sequence of Unicode scalar values. A line that is not valid UTF-8 cannot be represented. `len(nick)` at utils.go:7 counts bytes where the model counts characters. The two agree for every nickname the pattern can accept, because those are ASCII.
- GoStrings.ToUpper, Commands.ParseCommand: `strings.ToUpper` (client.go:92) is modelled on ASCII letters only. Go also maps some non-ASCII letters onto ASCII, such as U+017F to `S` and U+0131 to `I`. So `/ſend a b` selects `/SEND` in the source but is an unknown command in the model.
- Relay.SendToOne: fixes one interleaving, where the control loop serves each request before the submitting client's next effect. For a recipient nobody holds, the model queues "is not registered" before "Message sent to". In the source, the loop's `sender.SendMessage` (server.go:70) and the client's own `SendMessage` (client.go:184) race for the same channel, and either may come first.
- Relay.InstallSendOne: rests on the same fixed interleaving as `Relay.SendToOne`.
- Relay.Input, Relay.Apply, Relay.Perform: the same fixed interleaving applies to every line. `Apply` serves each request the moment it is handed over, and `Perform` carries out one line's effects back to back. Requests another client submits in between are not interleaved.
- Relay.Disconnect: the unregister request is served with the client's nickname at the moment of disconnect. A stale unregister is not modelled. That would be a request whose key another client has meanwhile taken, in which case `Run` deletes that other client's entry (server.go:47-48).
- The lock discipline (`clientsLock`) is not modelled, and neither is the deadlock it allows. `setNickname` sends on the unbuffered `register` channel while holding the write lock (client.go:132-148), and `Run` may at that moment be waiting for the same lock.
- Map iteration order is a parameter. `Relay` picks one enumeration of the registry, and `Router.RouteOrderIrrelevant` shows that deliveries do not depend on the choice up to permutation.
