/**
 * The chat server's state and command handling (server.py).
 *
 * Network writes are recorded in an `Outbox` log as (connection, kind, args)
 * instead of being sent; connections are numbered; time is whole seconds.
 */
module Server {
  import opened Results
  import opened Codec

  type ConnId = nat

  /** Seconds a pending message must age before it is delivered. */
  const STABLE_THRESHOLD: int := 2

  const CREATE: Bytes := Ascii("create")
  const CONNECT: Bytes := Ascii("connect")
  const DELETE: Bytes := Ascii("delete")
  const SEND: Bytes := Ascii("send")
  /** The `list` command has the same name as the LIST response kind. */
  const LIST_COMMAND: Bytes := Ascii("list")

  /** The five command names differ from each other. */
  lemma CommandKindsDistinct()
    ensures CREATE != CONNECT && CREATE != DELETE && CREATE != LIST_COMMAND && CREATE != SEND
    ensures CONNECT != DELETE && CONNECT != LIST_COMMAND && CONNECT != SEND
    ensures DELETE != LIST_COMMAND && DELETE != SEND
    ensures LIST_COMMAND != SEND
  {
    assert |CREATE| == 6 && |CONNECT| == 7 && |DELETE| == 6 && |LIST_COMMAND| == 4 && |SEND| == 4;
    assert CREATE[0] != DELETE[0];
    assert LIST_COMMAND[0] != SEND[0];
  }

  /** One `sock_sendall` of `encode_message(kind, args)` on a connection. */
  datatype Write = Write(conn: ConnId, kind: Bytes, args: seq<Bytes>)

  /** A queued `send` command: recipient, timestamp in seconds, text. */
  datatype Pending = Pending(name: Bytes, stamp: int, text: Bytes)

  /** The writes that deliver each text to conn as a STRING frame, in order. */
  function Flush(conn: ConnId, texts: seq<Bytes>): seq<Write>
  {
    seq(|texts|, i requires 0 <= i < |texts| => Write(conn, STRING, [texts[i]]))
  }

  /** The log of everything the server has written to its sockets. */
  class Outbox {
    var log: seq<Write>

    constructor ()
      ensures log == []
    {
      log := [];
    }

    method Send(conn: ConnId, kind: Bytes, args: seq<Bytes>)
      modifies this
      ensures log == old(log) + [Write(conn, kind, args)]
    {
      log := log + [Write(conn, kind, args)];
    }
  }

  /**
   * A Python list of texts. Being an object, one list may be shared: every user
   * made by `create_user(name)` holds the same default list.
   */
  class Backlog {
    var items: seq<Bytes>

    constructor ()
      ensures items == []
    {
      items := [];
    }

    method Append(text: Bytes)
      modifies this
      ensures items == old(items) + [text]
    {
      items := items + [text];
    }
  }

  /** A user: a name, a backlog list, and the connection it is reached on, if any. */
  class User {
    const name: Bytes
    const messages: Backlog
    var connection: Option<ConnId>

    constructor (name: Bytes, msgs: Backlog)
      ensures this.name == name && messages == msgs && connection == None
    {
      this.name := name;
      messages := msgs;
      connection := None;
    }

    /** `status`: the user is online. */
    predicate Status()
      reads this
    {
      connection != None
    }

    /** The backlog, which only a message to an offline user can change. */
    ghost function OfflineFrame(): set<object>
      reads this
    {
      if connection == None then {messages} else {}
    }

    /**
     * `send_message`: an online user is written one STRING frame holding the text;
     * for an offline user the text is appended to its backlog and nothing is written.
     */
    method SendMessage(text: Bytes, net: Outbox)
      modifies net, OfflineFrame()
      ensures Status() ==>
        net.log == old(net.log) + [Write(connection.value, STRING, [text])] &&
        messages.items == old(messages.items)
      ensures !Status() ==>
        messages.items == old(messages.items) + [text] && net.log == old(net.log)
    {
      if Status() {
        net.Send(connection.value, STRING, [text]);
      } else {
        messages.Append(text);
      }
    }

    /**
     * `connect`: attach the socket, then write every backlog text to it in order.
     * The backlog is left as it was, so a later connect writes it again.
     */
    method Connect(sock: ConnId, net: Outbox)
      modifies this, net
      ensures connection == Some(sock) && Status()
      ensures messages.items == old(messages.items)
      ensures net.log == old(net.log) + Flush(sock, old(messages.items))
    {
      connection := Some(sock);
      var i := 0;
      while i < |messages.items|
        invariant 0 <= i <= |messages.items|
        invariant connection == Some(sock)
        invariant messages.items == old(messages.items)
        invariant net.log == old(net.log) + Flush(sock, messages.items[..i])
      {
        SendMessage(messages.items[i], net);
        assert Flush(sock, messages.items[..i + 1]) == Flush(sock, messages.items[..i]) + [Write(sock, STRING, [messages.items[i]])];
        i := i + 1;
      }
      assert messages.items[..i] == messages.items;
    }

    /** `disconnect`: detach the connection and nothing else. */
    method Disconnect()
      modifies this
      ensures connection == None && !Status()
    {
      connection := None;
    }
  }

  // ---------------------------------------------------------------------------
  // The table of users: insertion order, name matching
  // ---------------------------------------------------------------------------

  /** No name occurs twice. */
  predicate Distinct(s: seq<Bytes>)
  {
    forall i, j :: 0 <= i < j < |s| ==> s[i] != s[j]
  }

  /** `s` with `x` taken out, the others in their order (a dict's keys after `del`). */
  function Without(s: seq<Bytes>, x: Bytes): (r: seq<Bytes>)
    ensures forall y :: y in r <==> y in s && y != x
    ensures Distinct(s) ==> Distinct(r)
  {
    if s == [] then []
    else
      var tail := Without(s[1..], x);
      assert Distinct(s) ==> s[0] !in s[1..];
      if s[0] == x then tail else [s[0]] + tail
  }

  /**
   * Removing a name works piece by piece: the names before and after a split
   * point keep their relative order, so deleting a user never reorders the rest
   * of the table.
   */
  lemma {:induction false} WithoutAppend(s: seq<Bytes>, t: seq<Bytes>, x: Bytes)
    ensures Without(s + t, x) == Without(s, x) + Without(t, x)
  {
    if s == [] {
      assert s + t == t;
    } else {
      assert (s + t)[0] == s[0];
      assert (s + t)[1..] == s[1..] + t;
      WithoutAppend(s[1..], t, x);
    }
  }

  /** Removing a name that occurs once takes out exactly that entry. */
  lemma {:induction false} WithoutSplits(s: seq<Bytes>, t: seq<Bytes>, x: Bytes)
    requires x !in s && x !in t
    ensures Without(s + [x] + t, x) == s + t
  {
    WithoutAppend(s + [x], t, x);
    WithoutAppend(s, [x], x);
    assert Without([x], x) == [] by {
      assert [x][0] == x && [x][1..] == [];
    }
    WithoutAbsent(s, x);
    WithoutAbsent(t, x);
    assert Without(s + [x], x) == s;
  }

  /** Removing an absent name leaves the table as it was. */
  lemma {:induction false} WithoutAbsent(s: seq<Bytes>, x: Bytes)
    requires x !in s
    ensures Without(s, x) == s
  {
    if s != [] {
      WithoutAbsent(s[1..], x);
      assert s == [s[0]] + s[1..];
    }
  }

  /**
   * The name matches the pattern. server.py calls `re.search`; here a pattern
   * is matched as a literal substring.
   */
  predicate Contains(name: Bytes, pattern: Bytes)
    decreases |name|
  {
    pattern <= name || (name != [] && Contains(name[1..], pattern))
  }

  /** The names that match, in table order. */
  function MatchingNames(s: seq<Bytes>, pattern: Bytes): (r: seq<Bytes>)
    ensures |r| <= |s|
  {
    if s == [] then []
    else
      var tail := MatchingNames(s[1..], pattern);
      if Contains(s[0], pattern) then [s[0]] + tail else tail
  }

  /** The filter keeps exactly the names that match. */
  lemma {:induction false} MatchingNamesMembers(s: seq<Bytes>, pattern: Bytes)
    ensures forall n :: n in MatchingNames(s, pattern) <==> n in s && Contains(n, pattern)
  {
    if s != [] {
      MatchingNamesMembers(s[1..], pattern);
      assert forall n :: n in s <==> n == s[0] || n in s[1..];
    }
  }

  /** The filter of a table without repeats has no repeats. */
  lemma {:induction false} MatchingNamesDistinct(s: seq<Bytes>, pattern: Bytes)
    requires Distinct(s)
    ensures Distinct(MatchingNames(s, pattern))
  {
    if s != [] {
      var tail := MatchingNames(s[1..], pattern);
      assert Distinct(s[1..]);
      MatchingNamesDistinct(s[1..], pattern);
      MatchingNamesMembers(s[1..], pattern);
      assert s[0] !in s[1..];
      assert s[0] !in tail;
    }
  }

  /** Filtering keeps table order: it distributes over concatenation. */
  lemma {:induction false} MatchingNamesAppend(s: seq<Bytes>, t: seq<Bytes>, pattern: Bytes)
    ensures MatchingNames(s + t, pattern) == MatchingNames(s, pattern) + MatchingNames(t, pattern)
  {
    if s != [] {
      var head := if Contains(s[0], pattern) then [s[0]] else [];
      assert (s + t)[0] == s[0] && (s + t)[1..] == s[1..] + t;
      assert MatchingNames(s + t, pattern) == head + MatchingNames(s[1..] + t, pattern);
      assert MatchingNames(s, pattern) == head + MatchingNames(s[1..], pattern);
      MatchingNamesAppend(s[1..], t, pattern);
    } else {
      assert s + t == t;
    }
  }

  /** The empty pattern matches every name, so it lists the whole table in order. */
  lemma {:induction false} EmptyPatternMatchesAll(s: seq<Bytes>)
    ensures MatchingNames(s, []) == s
  {
    if s != [] {
      EmptyPatternMatchesAll(s[1..]);
    }
  }

  // ---------------------------------------------------------------------------
  // The stability queue, as functions of the queue
  // ---------------------------------------------------------------------------

  /** What one pass of `process_messages` does with the head of the queue. */
  datatype Step = Idle | Dropped(entry: Pending) | Delivered(entry: Pending) | Requeued(entry: Pending)

  /**
   * The head is dropped when its recipient is not a registered name, delivered
   * once it is STABLE_THRESHOLD seconds old, and otherwise put back at the tail.
   * On an empty queue the worker waits.
   */
  function NextStep(queue: seq<Pending>, known: set<Bytes>, now: int): (r: Step)
    ensures r.Idle? <==> queue == []
    ensures !r.Idle? ==> r.entry == queue[0]
    ensures r.Dropped? <==> queue != [] && queue[0].name !in known
    ensures r.Delivered? <==> queue != [] && queue[0].name in known && now - queue[0].stamp >= STABLE_THRESHOLD
    ensures r.Requeued? <==> queue != [] && queue[0].name in known && now - queue[0].stamp < STABLE_THRESHOLD
  {
    if queue == [] then Idle
    else if queue[0].name !in known then Dropped(queue[0])
    else if now - queue[0].stamp >= STABLE_THRESHOLD then Delivered(queue[0])
    else Requeued(queue[0])
  }

  /**
   * The queue after a step. It never grows, the entries behind the head keep
   * their order at the front, and no entry is duplicated.
   */
  function QueueAfter(queue: seq<Pending>, step: Step): (r: seq<Pending>)
    requires step == Idle <==> queue == []
    requires !step.Idle? ==> step.entry == queue[0]
    ensures |r| <= |queue|
    ensures queue != [] ==> |r| >= |queue| - 1 && r[..|queue| - 1] == queue[1..]
    ensures step.Requeued? ==> multiset(r) == multiset(queue)
    ensures !step.Requeued? && queue != [] ==> multiset(r) + multiset{queue[0]} == multiset(queue)
  {
    match step
    case Idle => queue
    case Requeued(e) =>
      assert queue == [e] + queue[1..];
      queue[1..] + [e]
    case _ =>
      assert queue == [queue[0]] + queue[1..];
      queue[1..]
  }

  /** A delivery made by the worker: when, and which entry. */
  datatype Delivery = Delivery(at: int, entry: Pending)

  function Entries(ds: seq<Delivery>): (r: seq<Pending>)
    ensures |r| == |ds|
    ensures forall k :: 0 <= k < |ds| ==> r[k] == ds[k].entry
  {
    seq(|ds|, k requires 0 <= k < |ds| => ds[k].entry)
  }

  /** The delivery a step makes at time `at`, if any. */
  function DeliveryOf(step: Step, at: int): seq<Delivery>
  {
    if step.Delivered? then [Delivery(at, step.entry)] else []
  }

  /**
   * Successive passes of the worker at the given clock readings, while the set
   * of registered names stays fixed: the deliveries made and the queue left.
   * A pass makes at most one delivery, and every delivered entry leaves the
   * queue, so the queue never grows.
   */
  function Run(queue: seq<Pending>, known: set<Bytes>, clock: seq<int>): (r: (seq<Delivery>, seq<Pending>))
    ensures |r.0| <= |clock|
    ensures |r.0| + |r.1| <= |queue|
    decreases |clock|
  {
    if clock == [] then ([], queue)
    else
      var step := NextStep(queue, known, clock[0]);
      var later := Run(QueueAfter(queue, step), known, clock[1..]);
      (DeliveryOf(step, clock[0]) + later.0, later.1)
  }

  /** No entry is ever delivered before it is STABLE_THRESHOLD seconds old, nor to an unknown name. */
  lemma {:induction false} RunDeliversOnlyStable(queue: seq<Pending>, known: set<Bytes>, clock: seq<int>)
    ensures forall k :: 0 <= k < |Run(queue, known, clock).0| ==>
      var d := Run(queue, known, clock).0[k];
      d.at - d.entry.stamp >= STABLE_THRESHOLD && d.entry.name in known
    decreases |clock|
  {
    if clock != [] {
      var step := NextStep(queue, known, clock[0]);
      RunDeliversOnlyStable(QueueAfter(queue, step), known, clock[1..]);
    }
  }

  /** One step hands out at most its head entry and keeps the rest. */
  lemma StepConserves(queue: seq<Pending>, known: set<Bytes>, now: int)
    ensures var step := NextStep(queue, known, now);
      multiset(Entries(DeliveryOf(step, now))) + multiset(QueueAfter(queue, step)) <= multiset(queue)
  {
    var step := NextStep(queue, known, now);
    if step.Delivered? {
      assert Entries(DeliveryOf(step, now)) == [queue[0]];
    } else {
      assert Entries(DeliveryOf(step, now)) == [];
    }
  }

  lemma EntriesAppend(a: seq<Delivery>, b: seq<Delivery>)
    ensures Entries(a + b) == Entries(a) + Entries(b)
  {
  }

  /**
   * The worker never invents or duplicates an entry: what it delivered and what
   * is left are together contained in what was queued.
   */
  lemma {:induction false} RunConserves(queue: seq<Pending>, known: set<Bytes>, clock: seq<int>)
    ensures multiset(Entries(Run(queue, known, clock).0)) + multiset(Run(queue, known, clock).1) <= multiset(queue)
    decreases |clock|
  {
    if clock != [] {
      var step := NextStep(queue, known, clock[0]);
      var next := QueueAfter(queue, step);
      var later := Run(next, known, clock[1..]);
      var first := DeliveryOf(step, clock[0]);
      RunConserves(next, known, clock[1..]);
      StepConserves(queue, known, clock[0]);
      EntriesAppend(first, later.0);
      assert multiset(Entries(first + later.0)) + multiset(later.1)
          == multiset(Entries(first)) + (multiset(Entries(later.0)) + multiset(later.1));
    }
  }

  /** The clock readings never go backwards. */
  predicate Monotone(clock: seq<int>)
  {
    forall i, j :: 0 <= i < j < |clock| ==> clock[i] <= clock[j]
  }

  /** Every entry is at least STABLE_THRESHOLD seconds old at time t. */
  predicate StableAt(queue: seq<Pending>, t: int)
  {
    forall k :: 0 <= k < |queue| ==> t - queue[k].stamp >= STABLE_THRESHOLD
  }

  /** Every entry is addressed to a registered name. */
  predicate AddressedTo(queue: seq<Pending>, known: set<Bytes>)
  {
    forall k :: 0 <= k < |queue| ==> queue[k].name in known
  }

  /**
   * Once every queued entry is stable and addressed to a registered name, the
   * worker delivers them all, one per pass, in arrival order, and empties the queue.
   */
  lemma {:induction false} RunDeliversStableInOrder(queue: seq<Pending>, known: set<Bytes>, clock: seq<int>)
    requires |clock| == |queue| && Monotone(clock) && AddressedTo(queue, known)
    requires clock != [] ==> StableAt(queue, clock[0])
    ensures Entries(Run(queue, known, clock).0) == queue
    ensures Run(queue, known, clock).1 == []
    decreases |clock|
  {
    if clock != [] {
      var first := [Delivery(clock[0], queue[0])];
      FirstPassDelivers(queue, known, clock);
      var later := Run(queue[1..], known, clock[1..]);
      RunDeliversStableInOrder(queue[1..], known, clock[1..]);
      EntriesAppend(first, later.0);
      assert Entries(first) == [queue[0]];
      assert Entries(first + later.0) == [queue[0]] + queue[1..];
      assert [queue[0]] + queue[1..] == queue;
    }
  }

  /**
   * The first pass over a stable, registered queue delivers its head, and what
   * remains is again stable and registered at the next clock reading.
   */
  lemma FirstPassDelivers(queue: seq<Pending>, known: set<Bytes>, clock: seq<int>)
    requires |clock| == |queue| && clock != []
    requires Monotone(clock) && AddressedTo(queue, known) && StableAt(queue, clock[0])
    ensures var later := Run(queue[1..], known, clock[1..]);
      Run(queue, known, clock) == ([Delivery(clock[0], queue[0])] + later.0, later.1)
    ensures Monotone(clock[1..]) && AddressedTo(queue[1..], known)
    ensures clock[1..] != [] ==> StableAt(queue[1..], clock[1..][0])
  {
    var step := NextStep(queue, known, clock[0]);
    assert step == Delivered(queue[0]) by {
      assert queue[0].name in known && clock[0] - queue[0].stamp >= STABLE_THRESHOLD;
    }
    assert QueueAfter(queue, step) == queue[1..];
    if |clock| > 1 {
      assert clock[0] <= clock[1];
      assert forall k :: 0 <= k < |queue| - 1 ==> queue[1..][k] == queue[k + 1];
    }
  }

  // ---------------------------------------------------------------------------
  // ChatStore
  // ---------------------------------------------------------------------------

  /**
   * The users, keyed by name (`names` keeps the dictionary's insertion order),
   * the queue of pending `send` commands, and the list object that
   * `create_user`'s default argument holds.
   */
  class ChatStore {
    var users: map<Bytes, User>
    var names: seq<Bytes>
    var pending: seq<Pending>
    const defaultBacklog: Backlog

    ghost predicate Valid()
      reads this
    {
      && Distinct(names)
      && (forall n :: n in users <==> n in names)
      && (forall n :: n in users ==> users[n].name == n)
    }

    /** The backlog list of the head entry's recipient: the only list one worker pass can change. */
    ghost function HeadFrame(): set<object>
      reads this
    {
      if pending != [] && pending[0].name in users then {users[pending[0].name].messages} else {}
    }

    /** The objects of the user with this name, if there is one. */
    ghost function UserFrame(name: Bytes): set<object>
      reads this
    {
      if name in users then {users[name]} else {}
    }

    /** `ChatStore([])`: no users, an empty queue, an empty default list. */
    constructor ()
      ensures Valid() && users == map[] && names == [] && pending == []
      ensures fresh(defaultBacklog) && defaultBacklog.items == []
    {
      users, names, pending := map[], [], [];
      defaultBacklog := new Backlog();
    }

    /**
     * `create_user(name, msgs)`: map the name to a new offline user holding msgs,
     * replacing any earlier user of that name; the table keeps its order.
     */
    method CreateUser(name: Bytes, msgs: Backlog)
      requires Valid()
      modifies this
      ensures Valid()
      ensures name in users && fresh(users[name])
      ensures users[name].messages == msgs && !users[name].Status()
      ensures users == old(users)[name := users[name]]
      ensures names == if name in old(users) then old(names) else old(names) + [name]
      ensures pending == old(pending)
    {
      var u := new User(name, msgs);
      if name !in users {
        names := names + [name];
      }
      users := users[name := u];
    }

    /** `delete_user`: remove exactly that name; an absent name raises KeyError (found is false). */
    method DeleteUser(name: Bytes) returns (found: bool)
      requires Valid()
      modifies this
      ensures Valid()
      ensures found == (name in old(users))
      ensures users == old(users) - {name}
      ensures names == if found then Without(old(names), name) else old(names)
      ensures pending == old(pending)
    {
      found := name in users;
      if found {
        users := users - {name};
        names := Without(names, name);
      }
    }

    /** `list_users(pattern)`: exactly the registered names that match, in table order. */
    function ListUsers(pattern: Bytes): (r: seq<Bytes>)
      requires Valid()
      reads this
      ensures forall n :: n in r <==> n in users && Contains(n, pattern)
      ensures Distinct(r)
    {
      MatchingNamesMembers(names, pattern);
      MatchingNamesDistinct(names, pattern);
      MatchingNames(names, pattern)
    }

    /** `connect`: true iff the name is registered; then that user is connected and its backlog written to sock. */
    method Connect(name: Bytes, sock: ConnId, net: Outbox) returns (found: bool)
      requires Valid()
      modifies net, UserFrame(name)
      ensures found == (name in users)
      ensures found ==>
        users[name].connection == Some(sock) &&
        users[name].messages.items == old(users[name].messages.items) &&
        net.log == old(net.log) + Flush(sock, old(users[name].messages.items))
      ensures !found ==> net.log == old(net.log)
    {
      found := name in users;
      if found {
        users[name].Connect(sock, net);
      }
    }

    /** `disconnect`: true iff the name is registered; then that user is offline. */
    method Disconnect(name: Bytes) returns (found: bool)
      requires Valid()
      modifies UserFrame(name)
      ensures found == (name in users)
      ensures found ==> users[name].connection == None
    {
      found := name in users;
      if found {
        users[name].Disconnect();
      }
    }

    /** `create_message`: append the entry at the tail of the queue. */
    method CreateMessage(name: Bytes, stamp: int, text: Bytes)
      requires Valid()
      modifies this
      ensures Valid() && users == old(users) && names == old(names)
      ensures pending == old(pending) + [Pending(name, stamp, text)]
    {
      pending := pending + [Pending(name, stamp, text)];
    }

    /**
     * One pass of `process_messages` at time now: the queue changes as NextStep
     * and QueueAfter say, and a delivered entry is handed to its user's
     * `send_message`. No other list can change.
     */
    method ProcessStep(now: int, net: Outbox) returns (step: Step)
      requires Valid()
      modifies this, net, HeadFrame()
      ensures Valid() && users == old(users) && names == old(names)
      ensures step == NextStep(old(pending), old(users).Keys, now)
      ensures pending == QueueAfter(old(pending), step)
      ensures step.Delivered? ==>
        var u := users[step.entry.name];
        && (u.Status() ==>
              net.log == old(net.log) + [Write(u.connection.value, STRING, [step.entry.text])] &&
              u.messages.items == old(u.messages.items))
        && (!u.Status() ==>
              u.messages.items == old(u.messages.items) + [step.entry.text] &&
              net.log == old(net.log))
      ensures !step.Delivered? ==>
        net.log == old(net.log) &&
        (step.Requeued? ==> users[step.entry.name].messages.items == old(users[step.entry.name].messages.items))
    {
      if pending == [] {
        return Idle;
      }
      var head := pending[0];
      pending := pending[1..];
      if head.name in users {
        if now - head.stamp >= STABLE_THRESHOLD {
          var u := users[head.name];
          u.SendMessage(head.text, net);
          step := Delivered(head);
        } else {
          pending := pending + [head];
          step := Requeued(head);
        }
      } else {
        step := Dropped(head);
      }
    }
  }

  // ---------------------------------------------------------------------------
  // reply: handling the frames of one connection
  // ---------------------------------------------------------------------------

  /** The writes appended since `before` all go to conn. */
  predicate WritesOnlyTo(before: seq<Write>, after: seq<Write>, conn: ConnId)
  {
    before <= after && forall k :: |before| <= k < |after| ==> after[k].conn == conn
  }

  /** `create`: a new offline user holding the shared default list, answered OK. */
  method HandleCreate(store: ChatStore, conn: ConnId, user: Bytes, net: Outbox)
    requires store.Valid()
    modifies store, net
    ensures store.Valid()
    ensures user in store.users && fresh(store.users[user])
    ensures store.users[user].messages == store.defaultBacklog && !store.users[user].Status()
    ensures store.users == old(store.users)[user := store.users[user]]
    ensures store.names == if user in old(store.users) then old(store.names) else old(store.names) + [user]
    ensures store.pending == old(store.pending)
    ensures net.log == old(net.log) + [Write(conn, OK, [])]
  {
    store.CreateUser(user, store.defaultBacklog);
    net.Send(conn, OK, []);
  }

  /** `connect`: OK when the name is registered (after its backlog is written), NOTOK otherwise. */
  method HandleConnect(store: ChatStore, conn: ConnId, user: Bytes, net: Outbox)
    requires store.Valid()
    modifies net, store.UserFrame(user)
    ensures user in store.users ==>
      store.users[user].connection == Some(conn) &&
      net.log == old(net.log) + Flush(conn, store.users[user].messages.items) + [Write(conn, OK, [])]
    ensures user !in store.users ==> net.log == old(net.log) + [Write(conn, NOTOK, [])]
  {
    var found := store.Connect(user, conn, net);
    net.Send(conn, if found then OK else NOTOK, []);
  }

  /** `delete`: remove the user and answer OK, or raise KeyError for an absent name. */
  method HandleDelete(store: ChatStore, conn: ConnId, name: Bytes, user: Bytes, net: Outbox)
    returns (name': Bytes, raised: bool)
    requires store.Valid()
    modifies store, net
    ensures store.Valid()
    ensures raised == (user !in old(store.users))
    ensures store.users == old(store.users) - {user} && store.pending == old(store.pending)
    ensures store.names == if raised then old(store.names) else Without(old(store.names), user)
    ensures raised ==> name' == name && net.log == old(net.log)
    ensures !raised ==>
      name' == (if user == name then [] else name) && net.log == old(net.log) + [Write(conn, OK, [])]
  {
    name' := name;
    var found := store.DeleteUser(user);
    raised := !found;
    if raised {
      return;
    }
    if user == name {
      name' := [];
    }
    net.Send(conn, OK, []);
  }

  /** `send`: queue (recipient, frame timestamp, text), or raise ValueError unless there are exactly two fields. */
  method HandleSend(store: ChatStore, data: seq<Bytes>, stamp: int) returns (raised: bool)
    requires store.Valid()
    modifies store
    ensures store.Valid() && store.users == old(store.users) && store.names == old(store.names)
    ensures raised == (|data| != 2)
    ensures store.pending == old(store.pending) + (if raised then [] else [Pending(data[0], stamp, data[1])])
  {
    raised := |data| != 2;
    if !raised {
      store.CreateMessage(data[0], stamp, data[1]);
    }
  }

  /**
   * One pass of `reply`'s loop on a decoded frame. `name` is the user the
   * connection has connected as ('' when none); parseStamp reads the frame's
   * timestamp text as whole seconds. Returns the new tracked name, and whether
   * the command raised (a `delete` of an absent name, or a `send` whose data is
   * not exactly two fields), in which case nothing is written.
   */
  method Dispatch(store: ChatStore, conn: ConnId, name: Bytes, f: Frame, parseStamp: Bytes -> int, net: Outbox)
    returns (name': Bytes, raised: bool)
    requires store.Valid()
    requires f.args != []
    modifies store, net, store.users.Values
    ensures store.Valid()
    ensures forall u :: u in store.users.Values ==> u in old(store.users.Values) || fresh(u)
    ensures WritesOnlyTo(old(net.log), net.log, conn)
    ensures f.kind == CREATE ==>
        && !raised && name' == name
        && f.args[0] in store.users && fresh(store.users[f.args[0]])
        && store.users[f.args[0]].messages == store.defaultBacklog
        && !store.users[f.args[0]].Status()
        && store.users == old(store.users)[f.args[0] := store.users[f.args[0]]]
        && store.names ==
             (if f.args[0] in old(store.users) then old(store.names) else old(store.names) + [f.args[0]])
        && store.pending == old(store.pending)
        && net.log == old(net.log) + [Write(conn, OK, [])]
    ensures f.kind == CONNECT ==>
        && !raised && name' == f.args[0]
        && store.users == old(store.users) && store.names == old(store.names)
        && store.pending == old(store.pending)
        && (f.args[0] in store.users ==>
              store.users[f.args[0]].connection == Some(conn) &&
              net.log == old(net.log) + Flush(conn, store.users[f.args[0]].messages.items) + [Write(conn, OK, [])])
        && (f.args[0] !in store.users ==> net.log == old(net.log) + [Write(conn, NOTOK, [])])
    ensures f.kind == DELETE ==>
        && raised == (f.args[0] !in old(store.users))
        && store.users == old(store.users) - {f.args[0]}
        && store.names == (if raised then old(store.names) else Without(old(store.names), f.args[0]))
        && store.pending == old(store.pending)
        && (raised ==> name' == name && net.log == old(net.log))
        && (!raised ==>
              name' == (if f.args[0] == name then [] else name) &&
              net.log == old(net.log) + [Write(conn, OK, [])])
    ensures f.kind == LIST_COMMAND ==>
        && !raised && name' == name
        && store.users == old(store.users) && store.names == old(store.names)
        && store.pending == old(store.pending)
        && net.log == old(net.log) + [Write(conn, LIST, store.ListUsers(f.args[0]))]
    ensures f.kind == SEND ==>
        && raised == (|f.args| != 2) && name' == name
        && store.users == old(store.users) && store.names == old(store.names)
        && net.log == old(net.log)
        && store.pending == old(store.pending) +
             (if raised then [] else [Pending(f.args[0], parseStamp(f.timestamp), f.args[1])])
    ensures f.kind !in {CREATE, CONNECT, DELETE, LIST_COMMAND, SEND} ==>
        && !raised && name' == name
        && store.users == old(store.users) && store.names == old(store.names)
        && store.pending == old(store.pending)
        && net.log == old(net.log) + [Write(conn, NOTOK, [])]
    ensures forall n :: n in old(store.users) && !(f.kind == CONNECT && n == f.args[0]) ==>
        old(store.users)[n].connection == old(store.users[n].connection)
  {
    CommandKindsDistinct();
    name', raised := name, false;
    if f.kind == CREATE {
      HandleCreate(store, conn, f.args[0], net);
    } else if f.kind == CONNECT {
      name' := f.args[0];
      HandleConnect(store, conn, name', net);
    } else if f.kind == DELETE {
      name', raised := HandleDelete(store, conn, name, f.args[0], net);
    } else if f.kind == LIST_COMMAND {
      // Decoded data is never empty, so `data[0]` is always the pattern.
      net.Send(conn, LIST, store.ListUsers(f.args[0]));
    } else if f.kind == SEND {
      raised := HandleSend(store, f.args, parseStamp(f.timestamp));
    } else {
      net.Send(conn, NOTOK, []);
    }
  }

  /**
   * `reply`: read and dispatch frames from the connection's byte stream until it
   * ends or a command raises, then disconnect the tracked name. Every write it
   * makes is on its own connection, and it returns the name it disconnected.
   */
  method Reply(store: ChatStore, conn: ConnId, stream: Bytes, parseStamp: Bytes -> int, net: Outbox)
    returns (name: Bytes)
    requires store.Valid()
    modifies store, net, store.users.Values
    ensures store.Valid()
    ensures WritesOnlyTo(old(net.log), net.log, conn)
    ensures name in store.users ==> !store.users[name].Status()
  {
    name := [];
    var rest := stream;
    while rest != []
      invariant store.Valid()
      invariant forall u :: u in store.users.Values ==> u in old(store.users.Values) || fresh(u)
      invariant WritesOnlyTo(old(net.log), net.log, conn)
      decreases |rest|
    {
      var frame := NextFrame(rest);
      var raised;
      name, raised := Dispatch(store, conn, name, DecodeMessage(frame.0), parseStamp, net);
      if raised {
        break;
      }
      rest := frame.1;
    }
    var _ := store.Disconnect(name);
  }

  // ---------------------------------------------------------------------------
  // Whole runs of the store
  // ---------------------------------------------------------------------------

  /** A new store holding two offline users made by `create_user(name)`: both hold the default list. */
  method TwoDefaultUsers(alice: Bytes, bob: Bytes) returns (store: ChatStore, net: Outbox)
    requires alice != bob
    ensures store.Valid() && store.users.Keys == {alice, bob} && store.pending == [] && net.log == []
    ensures fresh(store) && fresh(net) && fresh(store.defaultBacklog)
    ensures fresh(store.users[alice]) && fresh(store.users[bob])
    ensures store.users[alice].messages == store.defaultBacklog && !store.users[alice].Status()
    ensures store.users[bob].messages == store.defaultBacklog && !store.users[bob].Status()
    ensures store.defaultBacklog.items == []
  {
    store := new ChatStore();
    net := new Outbox();
    store.CreateUser(alice, store.defaultBacklog);
    store.CreateUser(bob, store.defaultBacklog);
  }

  /**
   * Users made by `create_user(name)` share one backlog list: a message that
   * reaches offline `alice` is written to `bob` when bob connects.
   */
  method SharedDefaultBacklog(alice: Bytes, bob: Bytes, text: Bytes, stamp: int, now: int, sock: ConnId)
    returns (log: seq<Write>)
    requires alice != bob
    requires now - stamp >= STABLE_THRESHOLD
    ensures log == [Write(sock, STRING, [text])]
  {
    var store, net := TwoDefaultUsers(alice, bob);
    store.CreateMessage(alice, stamp, text);
    var step := store.ProcessStep(now, net);
    assert step == Delivered(Pending(alice, stamp, text));
    var found := store.Connect(bob, sock, net);
    assert Flush(sock, [text]) == [Write(sock, STRING, [text])];
    log := net.log;
  }

  /** A new store holding one offline user made by `create_user(name)`. */
  method OneDefaultUser(name: Bytes) returns (store: ChatStore, net: Outbox)
    ensures store.Valid() && store.users.Keys == {name} && store.pending == [] && net.log == []
    ensures fresh(store) && fresh(net) && fresh(store.defaultBacklog) && fresh(store.users[name])
    ensures store.users[name].messages == store.defaultBacklog && !store.users[name].Status()
    ensures store.defaultBacklog.items == []
  {
    store := new ChatStore();
    net := new Outbox();
    store.CreateUser(name, store.defaultBacklog);
  }

  /** A stable message to an offline user is kept in its backlog, and nothing is written. */
  method KeptWhileOffline(name: Bytes, text: Bytes, stamp: int, now: int) returns (store: ChatStore, net: Outbox)
    requires now - stamp >= STABLE_THRESHOLD
    ensures store.Valid() && store.users.Keys == {name} && net.log == []
    ensures fresh(store) && fresh(net) && fresh(store.defaultBacklog) && fresh(store.users[name])
    ensures store.users[name].messages == store.defaultBacklog && !store.users[name].Status()
    ensures store.defaultBacklog.items == [text]
  {
    store, net := OneDefaultUser(name);
    store.CreateMessage(name, stamp, text);
    var step := store.ProcessStep(now, net);
    assert step == Delivered(Pending(name, stamp, text));
  }

  /**
   * Connecting does not empty the backlog: a message kept for an offline user is
   * written on every later connection the user makes.
   */
  method RedeliveredOnReconnect(name: Bytes, text: Bytes, stamp: int, now: int, first: ConnId, second: ConnId)
    returns (log: seq<Write>)
    requires now - stamp >= STABLE_THRESHOLD
    ensures log == [Write(first, STRING, [text]), Write(second, STRING, [text])]
  {
    var store, net := KeptWhileOffline(name, text, stamp, now);
    var found := store.Connect(name, first, net);
    assert net.log == [Write(first, STRING, [text])];
    found := store.Disconnect(name);
    found := store.Connect(name, second, net);
    log := net.log;
  }

  /** An online user with one message in the queue, and nothing written yet. */
  method OnlineWithPending(name: Bytes, text: Bytes, stamp: int, sock: ConnId) returns (store: ChatStore, net: Outbox)
    ensures store.Valid() && store.users.Keys == {name} && net.log == []
    ensures fresh(store) && fresh(net) && fresh(store.defaultBacklog) && fresh(store.users[name])
    ensures store.users[name].connection == Some(sock) && store.users[name].messages == store.defaultBacklog
    ensures store.pending == [Pending(name, stamp, text)]
  {
    store, net := OneDefaultUser(name);
    var found := store.Connect(name, sock, net);
    store.CreateMessage(name, stamp, text);
  }

  /**
   * A message to an online user waits in the queue until it is STABLE_THRESHOLD
   * seconds old, and is then written on the user's connection.
   */
  method HeldUntilStable(name: Bytes, text: Bytes, stamp: int, sock: ConnId) returns (early: seq<Write>, log: seq<Write>)
    ensures early == []
    ensures log == [Write(sock, STRING, [text])]
  {
    var store, net := OnlineWithPending(name, text, stamp, sock);
    var step := store.ProcessStep(stamp + STABLE_THRESHOLD - 1, net);
    assert step == Requeued(Pending(name, stamp, text));
    early := net.log;
    step := store.ProcessStep(stamp + STABLE_THRESHOLD, net);
    assert step == Delivered(Pending(name, stamp, text));
    log := net.log;
  }
}
