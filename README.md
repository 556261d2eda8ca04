# Replicated chat: wire codec, server store and client, in Dafny

This project models the core of a small replicated chat service. A client
splits a typed line into a command and writes the same encoded frame to every
server replica. Each replica keeps a table of users. Each user has a backlog
list and an optional live connection. Each replica answers `create`,
`connect`, `delete` and `list` commands as they arrive. It puts `send`
commands on a queue. A worker delivers a queued message once its timestamp is
`STABLE_THRESHOLD` (2) seconds old. The client prints each response frame as
one line.

The modules follow the program's files:

- `Results` (results.dfy): `Option` and `Result`.
- `Codec` (codec.dfy, from action.py): the length-prefixed frame format, as
  pure functions on byte sequences. A frame is a 10-byte big-endian body length
  and then three segments: the action with a 5-byte length, the timestamp text
  with a 5-byte length, and the data items joined by `,` with a 10-byte length.
  Decoding reads the three segments with Python's slice clamping and splits the
  data on `,`.
- `Server` (server.dfy, from server.py): the classes `User`, `Backlog` (a
  Python list object, which several users may share), `ChatStore` and
  `Outbox`, with methods that change them in place. `Outbox` logs every socket
  write as (connection, kind, args). `Reply` reads frames off a received byte
  stream, and `Dispatch` applies one decoded frame. The stabilization queue is
  specified by functions of the queue (`NextStep`, `QueueAfter`, `Run`), and
  `ChatStore.ProcessStep` is proved against them.
- `Client` (client.dfy, from client.py): word splitting and argument folding
  of `reader`, its loop that sends to every socket, and the rendering done by
  `listener`.

Text is modelled as its UTF-8 bytes. Sockets are numbered (`ConnId`,
`SockId`). Clocks are parameters: `now` in whole seconds for the worker,
`parseStamp` for reading a frame's timestamp text, and `clock(i)` for the
client's i-th timestamp text. The timestamp text has whole seconds. So
"`now - timestamp` is at least 2 seconds" holds exactly when it holds for
`now` rounded down to a whole second, and whole-second integers lose nothing.

Some behaviour of the code that the model keeps:

- `create`, `connect`, `delete` and `list` take effect as soon as `reply`
  reads their frame (server.py:155-172). Only `send` goes through the
  stabilization queue (server.py:173-175). The worker applies it as
  `send_message`.
- `reply` writes no receipt acknowledgment for `send`; it writes only the
  `resp` of the other commands (server.py:179-180).
- `reply` does not close a connection after one command. It reads frames
  until the stream ends or a command raises (server.py:150, 182-186).
- `delete` of an absent user raises `KeyError` (server.py:104). This ends the
  connection's loop and disconnects its user.
- `create` of an existing name replaces its `User` but does not give it an
  empty backlog. Every user created by a `create` command gets the same
  shared default list `msgs=[]`, with whatever it already holds
  (server.py:99-100, 43-45).

## Model

| member | source | states |
|---|---|---|
| Codec.ToBytes | action.py:18 | `int.to_bytes(size, 'big')` gives exactly `size` bytes for a value that fits |
| Codec.FromBytes | action.py:34 | the big-endian value of k bytes is below 256^k |
| Codec.FromToBytes | action.py:18 | reading back the big-endian bytes of n gives n |
| Codec.ToFromBytes | action.py:34 | writing back the value read from k bytes gives the same k bytes |
| Codec.Slice | action.py:34-49 | Python slicing: the exact slice when in range, the rest of the data when the range runs past the end, and empty when it starts past the end or the range is empty |
| Codec.JoinWith | client.py:28 | `sep.join(parts)`; `Client.WordsOfJoined` shows that words joined by single spaces split back into the same words |
| Codec.Join | action.py:25 | `','.join(data_list)`; `Codec.SplitJoin` shows that splitting it gives back any non-empty comma-free list |
| Codec.Split | action.py:49 | `split(',')` gives one piece more than there are commas, no piece holds a comma, and joining the pieces with ',' gives the input back |
| Codec.SplitJoin | action.py:49 | splitting the ','-join of a non-empty list of comma-free items gives that list back |
| Codec.LengthPrefixed | action.py:18-19 | a big-endian length header followed by the data: the header reads back as the data's length, and the data follows it unchanged |
| Codec.EncodeSegment | action.py:16-19 | succeeds exactly when the length fits in `size` bytes; then it is the `size`-byte length of the data followed by the data |
| Codec.EncodeMessage | action.py:22-28 | succeeds exactly when all four lengths fit; the 10-byte header holds the body length, and the body is the three encoded segments in order |
| Codec.ReadSegment | action.py:34-38 | reading a segment moves the cursor past its header and its stated length, and returns at most that many bytes |
| Codec.DecodeMessage | action.py:31-51 | any body decodes to a frame with at least one data item, and no item holds a comma |
| Codec.DecodeEncoded | action.py:31-51 | an encoded body followed by any bytes decodes to its action, its timestamp and the re-split data, and decoding ends where the body ends |
| Codec.RoundTrip | action.py:22-51 | decoding an encoded message gives back the action, the timestamp and the data list, for a non-empty list of comma-free items |
| Codec.EmptyArgsDecodeAsEmptyString | action.py:49 | a message with no data items decodes with the one item `''` |
| Codec.NextFrame | server.py:150-151 | taking one length-prefixed frame off a non-empty stream leaves a shorter stream |
| Codec.NextFrameOfEncoded | server.py:150-151 | an encoded message at the head of a stream is read as exactly its body, and the rest of the stream is left as it was |
| Server.CommandKindsDistinct | server.py:155-177 | the five command names differ, so each frame takes exactly one branch |
| Server.Outbox.Send | server.py:180 | a write appends one (connection, kind, args) entry to the log |
| Server.Backlog.Append | server.py:70 | `append` adds the text at the end of the list |
| Server.User.constructor | server.py:43-46 | a new user has its name and the given list, and is offline |
| Server.User.Status | server.py:62-63 | a user is online exactly while a connection is attached; `User.Connect` ends with it true and `User.Disconnect` with it false |
| Server.User.SendMessage | server.py:66-70 | an online user gets one STRING write of the text on its connection and its list is unchanged; an offline user gets the text appended and nothing is written |
| Server.User.Connect | server.py:49-54 | the user is online on the socket, every backlog text is written to it as a STRING frame in order, and the backlog is left as it was |
| Server.User.Disconnect | server.py:57-58 | the user is offline |
| Server.Without | server.py:104 | `del` takes exactly that name out of the keys and keeps them distinct |
| Server.WithoutAppend | server.py:104 | removing a name from the key order works piece by piece, so the other names keep their relative order |
| Server.WithoutSplits | server.py:104 | removing a name that occurs once takes out exactly its entry: the names before it and after it stay, in order |
| Server.WithoutAbsent | server.py:104 | removing a name that is not in the key order leaves it unchanged |
| Server.MatchingNames | server.py:108 | the `filter` over the keys is never longer than the table; `MatchingNamesMembers`, `MatchingNamesDistinct` and `MatchingNamesAppend` pin it to the matching names, once each, in table order |
| Server.MatchingNamesMembers | server.py:108 | the filter keeps exactly the names that match |
| Server.MatchingNamesDistinct | server.py:108 | filtering a table without repeated names gives no repeated names |
| Server.MatchingNamesAppend | server.py:108 | filtering keeps table order: it distributes over concatenation |
| Server.EmptyPatternMatchesAll | server.py:108 | the empty pattern lists every name in table order |
| Server.NextStep | server.py:133-140 | the worker takes the head: it is dropped exactly when its recipient is not registered, delivered exactly when registered and at least STABLE_THRESHOLD seconds old, requeued exactly when registered and younger, and on an empty queue nothing happens |
| Server.QueueAfter | server.py:133-140 | a worker pass takes the head off the queue; the other entries stay at the front in order; a requeued head goes back at the tail, so no entry is lost or duplicated |
| Server.Run | server.py:132-142 | successive worker passes at the given clock readings, with the registered names held fixed: the deliveries made, each at its pass's time, and the queue left; at most one delivery per pass, and the deliveries plus the queue left never outnumber the queue it started from; the Run* lemmas state its other properties |
| Server.RunDeliversOnlyStable | server.py:135-138 | over any number of passes, an entry is delivered only to a registered name and only once it is `STABLE_THRESHOLD` seconds old |
| Server.RunConserves | server.py:131-142 | the entries delivered plus those still queued are contained in the queue's contents, as a multiset |
| Server.FirstPassDelivers | server.py:135-138 | on a stable queue addressed to registered names, the first pass delivers the head, and the rest stays stable for the next pass |
| Server.RunDeliversStableInOrder | server.py:131-142 | once every entry is stable and addressed to a registered name, the passes deliver them all, in arrival order, and empty the queue |
| Server.ChatStore.constructor | server.py:87-91 | a store with no users, an empty queue and an empty default list |
| Server.ChatStore.CreateUser | server.py:99-100 | the name maps to a new offline user holding the given list; any earlier user of that name is replaced; the table keeps its order |
| Server.ChatStore.DeleteUser | server.py:103-104 | exactly that name is removed; an absent name raises (returns false) and changes nothing |
| Server.ChatStore.ListUsers | server.py:107-108 | exactly the registered names that match the pattern, each once |
| Server.ChatStore.Connect | server.py:111-116 | true exactly for a registered name; then that user is online on the socket and its backlog is written to it in order; otherwise nothing is written |
| Server.ChatStore.Disconnect | server.py:119-124 | true exactly for a registered name; then that user is offline |
| Server.ChatStore.CreateMessage | server.py:127-128 | the entry is put at the tail of the queue |
| Server.ChatStore.ProcessStep | server.py:131-142 | one worker pass changes the queue as `NextStep`/`QueueAfter` say; a delivered entry goes to its user's `send_message`; no other list changes |
| Server.HandleCreate | server.py:155-158 | `create` makes an offline user holding the shared default list and answers OK; a new name goes to the end of the key order, and a replaced name keeps its place |
| Server.HandleConnect | server.py:159-162 | `connect` answers OK after writing the backlog when the name is registered, and NOTOK otherwise |
| Server.HandleDelete | server.py:163-168 | `delete` removes the user and its name from the key order, clears the tracked name if it was that user, and answers OK; an absent name raises and nothing is written or changed |
| Server.HandleSend | server.py:173-175 | `send` queues (recipient, frame timestamp, text); data that is not exactly two fields raises |
| Server.Dispatch | server.py:154-180 | for each command kind, the table, its key order, the queue, the tracked name and the writes on this connection, as the branches of `reply` give them; only `create` and `delete` change the key order; an unknown kind answers NOTOK; only the connect target's connection changes |
| Server.Reply | server.py:146-186 | every write goes to the connection being served, and the name it tracked is left offline when the stream ends or a command raises |
| Server.TwoDefaultUsers | server.py:99-100 | two users made by `create_user(name)` hold the same list object, which starts empty |
| Server.KeptWhileOffline | server.py:66-70 | a stable message to an offline user lands in its backlog, and nothing is written |
| Server.SharedDefaultBacklog | server.py:99-100 | a message to offline `alice` is written to `bob` when bob connects, because both hold the one default list |
| Server.RedeliveredOnReconnect | server.py:49-54 | a kept message is written again on every later connection of its user |
| Server.HeldUntilStable | server.py:131-142 | a message to an online user is not written while younger than `STABLE_THRESHOLD` seconds, and is then written once, on the user's connection |
| Client.Words | client.py:32 | `split()` gives non-empty, whitespace-free words, and no words exactly for a blank line |
| Client.WordsOfWord | client.py:32 | a word followed by nothing or by whitespace is read as that one word, then the words of what follows |
| Client.WordsSplitAtSpace | client.py:32 | the words of two pieces joined by a whitespace byte are the words of the first piece followed by those of the second |
| Client.WordsSplitBefore | client.py:32 | the words of a piece followed by a tail that starts with whitespace are the piece's words, then the words of the rest of the tail |
| Client.WordEndPrefix | client.py:32 | a whitespace byte inside a piece ends its first word, whatever follows the piece |
| Client.WordsOfJoined | client.py:37 | words joined by single spaces split back into the same words |
| Client.ParseCommand | client.py:32-37 | a blank line raises IndexError; otherwise the first word is the action and at most two arguments follow, with the third word onward joined by spaces |
| Client.FoldingKeepsWords | client.py:36-37 | the folded arguments, joined by spaces and split again, are every word after the action |
| Client.Broadcast | client.py:40-41 | every socket in order is written the command, encoded with that send's timestamp, and each write decodes to the same action and re-split arguments; an encoding overflow stops at that socket |
| Client.Reader | client.py:31-41 | a blank line raises before anything is written; otherwise the parsed command is broadcast as above |
| Client.Render | client.py:21-28 | the line printed for a response; `Client.RenderClassifies` states the four-way choice in both directions |
| Client.RenderClassifies | client.py:21-28 | "Action succeeded" exactly for ok, "Action failed" exactly for notok, "Server error" exactly for error, and "Server: " with the data joined by ", " for every other kind |
| Client.Listen | client.py:18-28 | `listener`: read one frame, decode it and render it; `Client.ListenToEncoded`, `Client.ListenToList` and `Client.ListenToOk` state what it prints for responses the server encoded |
| Client.ListenToEncoded | client.py:18-28 | a response the server encoded is printed from its kind and its decoded data |
| Client.ListenToList | client.py:18-28 | a `list` response of comma-free names prints "Server: " and the names joined by ", ", even when there are none |
| Client.ListenToOk | client.py:18-22 | the empty `ok` response prints "Action succeeded" |

## Left out

- Sockets, asyncio and concurrency. `reply` and the queue worker run one step at a time here, with no interleaving. This includes the awaited writes inside `User.connect`'s loop, where another task could run.
- Server start-up and shutdown: `listen`, `main`, pickle load and save, and `atexit`. The store is built empty. `ChatStore.__init__` with saved data is not modelled.
- `connection.close()` in `reply` and the debug `print` calls.
- The client's `main`: connecting to the replicas, `select`, and reading standard input.
- `strftime` and `strptime`. The timestamp travels as opaque text. `parseStamp` reads it as whole seconds, and the worker's clock is the `now` parameter.
- Server.Dispatch: a timestamp text that `strptime` rejects, and bytes that are not valid UTF-8, raise in server.py and end the loop. Here every body decodes and `parseStamp` is total.
- Client.Listen: on the client too, `decode_message` raises when the timestamp text is not one `strptime` accepts, for example on the empty read at the end of a stream. Here such a frame is rendered like any other, so an empty frame prints "Server: ".
- `re.search`. A pattern is matched as a literal substring (`Server.Contains`). Regex syntax, and the `re.error` that the default pattern `'*'` raises, are not modelled. The branch that passes `None` as the pattern is unreachable, because decoding always gives at least one data item.
- Encoding overflow of a server response. The outbox records the kind and arguments of each write, not the bytes `encode_message` would produce.
- Client.IsSpace: only ASCII whitespace. The Unicode whitespace that `str.split()` also splits on is not modelled.
- Server.Reply: it states only where writes go and that the tracked user ends offline. The effect of each frame is stated by `Server.Dispatch`.
- Server.ChatStore.Disconnect: it states the disconnected user's connection. Its `modifies` clause names only that user, so nothing else can change.
- Server.Run, Server.RunDeliversOnlyStable, Server.RunConserves and Server.RunDeliversStableInOrder: they hold the set of registered names fixed across passes. Commands that change the table between passes are covered one step at a time by `Server.ChatStore.ProcessStep`.
