/**
 * The chat client's command parsing, broadcast and response rendering (client.py).
 *
 * A line is split into words, the first word names the action and the rest are
 * folded into at most two arguments; the encoded command is written to every
 * server socket. A response frame is rendered as one line of text.
 */
module Client {
  import opened Results
  import opened Codec

  type SockId = nat

  const SPACE: Bytes := Ascii(" ")
  const SUCCEEDED: Bytes := Ascii("Action succeeded")
  const FAILED: Bytes := Ascii("Action failed")
  const SERVER_ERROR: Bytes := Ascii("Server error")
  const SERVER_PREFIX: Bytes := Ascii("Server: ")
  const COMMA_SPACE: Bytes := Ascii(", ")

  /** ASCII whitespace as `str.split()` treats it: space, \t \n \v \f \r and \x1c-\x1f. */
  predicate IsSpace(b: Byte)
  {
    b == 32 || 9 <= b <= 13 || 28 <= b <= 31
  }

  /** A non-empty run of non-whitespace bytes. */
  predicate IsWord(w: Bytes)
  {
    w != [] && forall j :: 0 <= j < |w| ==> !IsSpace(w[j])
  }

  /** The index of the first whitespace byte, or |s|. */
  function WordEnd(s: Bytes): (k: nat)
    ensures k <= |s|
    ensures k < |s| ==> IsSpace(s[k])
    ensures forall j :: 0 <= j < k ==> !IsSpace(s[j])
  {
    if s == [] || IsSpace(s[0]) then 0 else 1 + WordEnd(s[1..])
  }

  /**
   * `line.split()`: the maximal runs of non-whitespace bytes, in order. Every
   * piece is a word, and there are none exactly when the line is blank.
   */
  function Words(s: Bytes): (r: seq<Bytes>)
    ensures forall k :: 0 <= k < |r| ==> IsWord(r[k])
    ensures r == [] <==> forall j :: 0 <= j < |s| ==> IsSpace(s[j])
    decreases |s|
  {
    if s == [] then []
    else if IsSpace(s[0]) then
      assert forall j :: 1 <= j < |s| ==> s[j] == s[1..][j - 1];
      Words(s[1..])
    else
      var k := WordEnd(s);
      [s[..k]] + Words(s[k..])
  }

  /** Words joined by single spaces split back into the same words. */
  lemma {:induction false} WordsOfJoined(ws: seq<Bytes>)
    requires forall k :: 0 <= k < |ws| ==> IsWord(ws[k])
    ensures Words(JoinWith(SPACE, ws)) == ws
  {
    if |ws| == 1 {
      WordsOfWord(ws[0], []);
      assert ws[0] + [] == ws[0];
    } else if |ws| > 1 {
      WordsOfJoined(ws[1..]);
      WordsOfJoinedStep(ws);
    }
  }

  /** The step of `WordsOfJoined`: the first word, a space, then the rest joined. */
  lemma WordsOfJoinedStep(ws: seq<Bytes>)
    requires |ws| > 1 && IsWord(ws[0])
    requires Words(JoinWith(SPACE, ws[1..])) == ws[1..]
    ensures Words(JoinWith(SPACE, ws)) == ws
  {
    var rest := JoinWith(SPACE, ws[1..]);
    assert SPACE == [32];
    assert JoinWith(SPACE, ws) == ws[0] + ([32] + rest);
    WordsOfWord(ws[0], [32] + rest);
    assert ([32] + rest)[1..] == rest;
    assert ws == [ws[0]] + ws[1..];
  }

  /** A word followed by nothing or by whitespace is read as that word. */
  lemma WordsOfWord(w: Bytes, rest: Bytes)
    requires IsWord(w)
    requires rest == [] || IsSpace(rest[0])
    ensures Words(w + rest) == [w] + Words(rest)
  {
    var s := w + rest;
    WordEndOfWord(w, rest);
    assert s[..|w|] == w && s[|w|..] == rest;
  }

  /** A word followed by nothing or by whitespace ends where the word ends. */
  lemma {:induction false} WordEndOfWord(w: Bytes, rest: Bytes)
    requires IsWord(w)
    requires rest == [] || IsSpace(rest[0])
    ensures WordEnd(w + rest) == |w|
    decreases |w|
  {
    var s := w + rest;
    assert s[0] == w[0];
    if |w| > 1 {
      assert s[1..] == w[1..] + rest;
      assert forall j :: 0 <= j < |w| - 1 ==> w[1..][j] == w[j + 1];
      WordEndOfWord(w[1..], rest);
    } else {
      assert s[1..] == rest;
    }
  }

  /**
   * Whitespace separates: the words of two pieces joined by one whitespace byte
   * are the words of the first piece followed by those of the second. With
   * `WordsOfWord`, this pins `Words` to the maximal non-whitespace runs in order.
   */
  lemma WordsSplitAtSpace(a: Bytes, b: Bytes, c: Byte)
    requires IsSpace(c)
    ensures Words(a + [c] + b) == Words(a) + Words(b)
  {
    WordsSplitBefore(a, [c] + b);
    assert a + [c] + b == a + ([c] + b) && ([c] + b)[1..] == b;
  }

  /** The words of a piece followed by a tail that starts with whitespace. */
  lemma {:induction false} WordsSplitBefore(a: Bytes, t: Bytes)
    requires t != [] && IsSpace(t[0])
    ensures Words(a + t) == Words(a) + Words(t[1..])
    decreases |a|
  {
    if a == [] {
      assert a + t == t;
    } else if IsSpace(a[0]) {
      WordsSplitBefore(a[1..], t);
      WordsAfterSpace(a, t, Words(t[1..]));
    } else if WordEnd(a) == |a| {
      assert IsWord(a);
      WordsOfWord(a, t);
      WordsOfWord(a, []);
      assert a + [] == a;
    } else {
      WordsSplitBefore(a[WordEnd(a)..], t);
      WordsAfterWord(a, t, Words(t[1..]));
    }
  }

  /** Leading whitespace is skipped, whatever follows the piece. */
  lemma WordsAfterSpace(a: Bytes, t: Bytes, tail: seq<Bytes>)
    requires a != [] && IsSpace(a[0])
    requires Words(a[1..] + t) == Words(a[1..]) + tail
    ensures Words(a + t) == Words(a) + tail
  {
    assert (a + t)[0] == a[0] && (a + t)[1..] == a[1..] + t;
  }

  /** A first word that ends inside the piece comes first, whatever follows the piece. */
  lemma WordsAfterWord(a: Bytes, t: Bytes, tail: seq<Bytes>)
    requires a != [] && !IsSpace(a[0]) && WordEnd(a) < |a|
    requires Words(a[WordEnd(a)..] + t) == Words(a[WordEnd(a)..]) + tail
    ensures Words(a + t) == Words(a) + tail
  {
    var k := WordEnd(a);
    FirstWordOfPrefix(a, t);
    WordsOfFirstWord(a);
    PrependWord(Words(a + t), Words(a), a[..k], Words(a[k..] + t), Words(a[k..]), tail);
  }

  /** The words of a piece that starts with a word: that word, then the words after it. */
  lemma WordsOfFirstWord(a: Bytes)
    requires a != [] && !IsSpace(a[0])
    ensures Words(a) == [a[..WordEnd(a)]] + Words(a[WordEnd(a)..])
  {
  }

  /** Putting a word in front of a list commutes with appending a tail to it. */
  lemma PrependWord(whole: seq<Bytes>, piece: seq<Bytes>, first: Bytes, rest: seq<Bytes>, later: seq<Bytes>, tail: seq<Bytes>)
    requires whole == [first] + rest && rest == later + tail && piece == [first] + later
    ensures whole == piece + tail
  {
  }

  /** A piece whose first word ends inside it contributes that word first, whatever follows. */
  lemma FirstWordOfPrefix(a: Bytes, t: Bytes)
    requires a != [] && !IsSpace(a[0]) && WordEnd(a) < |a|
    ensures Words(a + t) == [a[..WordEnd(a)]] + Words(a[WordEnd(a)..] + t)
  {
    var s := a + t;
    var k := WordEnd(a);
    WordEndPrefix(a, t);
    assert s[0] == a[0];
    assert s[..k] == a[..k] && s[k..] == a[k..] + t;
  }

  /** A whitespace byte inside a piece ends its first word, whatever follows. */
  lemma {:induction false} WordEndPrefix(a: Bytes, t: Bytes)
    requires WordEnd(a) < |a|
    ensures WordEnd(a + t) == WordEnd(a)
    decreases |a|
  {
    assert (a + t)[0] == a[0];
    if !IsSpace(a[0]) {
      assert (a + t)[1..] == a[1..] + t;
      WordEndPrefix(a[1..], t);
    }
  }

  /** A parsed command line: the action and its (folded) arguments. */
  datatype Command = Command(action: Bytes, args: seq<Bytes>)

  /** `command[0]` of a blank line raises IndexError. */
  datatype ParseError = IndexError

  /**
   * The argument handling of `reader`: the first word is the action; with two or
   * more further words the first is kept and the rest are joined by single spaces.
   */
  function ParseCommand(line: Bytes): (r: Result<Command, ParseError>)
    ensures r.Err? <==> forall j :: 0 <= j < |line| ==> IsSpace(line[j])
    ensures r.Ok? ==> |r.value.args| <= 2 && r.value.action == Words(line)[0]
    ensures r.Ok? && |Words(line)| <= 2 ==> r.value.args == Words(line)[1..]
    ensures r.Ok? && |Words(line)| > 2 ==>
      |r.value.args| == 2 && r.value.args[0] == Words(line)[1] && r.value.args[1] == JoinWith(SPACE, Words(line)[2..])
  {
    var command := Words(line);
    if command == [] then Err(IndexError)
    else
      var args := command[1..];
      Ok(Command(command[0], if |args| > 1 then [args[0], JoinWith(SPACE, args[1..])] else args))
  }

  /**
   * Folding the arguments loses no word: splitting the folded arguments joined by
   * spaces gives back every word of the line after the action.
   */
  lemma FoldingKeepsWords(line: Bytes)
    requires ParseCommand(line).Ok?
    ensures Words(JoinWith(SPACE, ParseCommand(line).value.args)) == Words(line)[1..]
  {
    var words := Words(line)[1..];
    assert forall k :: 0 <= k < |words| ==> IsWord(words[k]);
    if |words| > 1 {
      assert JoinWith(SPACE, ParseCommand(line).value.args) == JoinWith(SPACE, words);
    }
    WordsOfJoined(words);
  }

  /** One `sendall` of an encoded command on a server socket. */
  datatype Sent = Sent(sock: SockId, frame: Bytes)

  /**
   * The write to `sock` carries the command encoded with `stamp`, and the server
   * decodes it back to the action, the stamp and the re-split arguments.
   */
  predicate CarriesCommand(s: Sent, sock: SockId, cmd: Command, stamp: Bytes)
  {
    && s.sock == sock
    && EncodeMessage(cmd.action, stamp, cmd.args) == Ok(s.frame)
    && |s.frame| >= BODY_SIZE
    && DecodeMessage(s.frame[BODY_SIZE..]) == Frame(cmd.action, stamp, Split(Join(cmd.args)))
  }

  /** Appending the next socket's write keeps every write carrying the command. */
  lemma ExtendCarries(sent: seq<Sent>, socks: seq<SockId>, cmd: Command, clock: nat -> Bytes, out: Sent)
    requires |sent| < |socks|
    requires forall j :: 0 <= j < |sent| ==> CarriesCommand(sent[j], socks[j], cmd, clock(j))
    requires CarriesCommand(out, socks[|sent|], cmd, clock(|sent|))
    ensures forall j :: 0 <= j < |sent| + 1 ==> CarriesCommand((sent + [out])[j], socks[j], cmd, clock(j))
  {
  }

  /**
   * The sending loop of `reader`: write `encode_message(action, args)` to every
   * socket in order. The timestamp is read from the clock afresh for each socket
   * (clock(i) is the text of the i-th reading), so the frames differ only in it.
   * An encoding overflow raises and stops the loop at the socket it happens on.
   */
  method Broadcast(socks: seq<SockId>, cmd: Command, clock: nat -> Bytes) returns (sent: seq<Sent>, raised: bool)
    ensures |sent| <= |socks|
    ensures raised <==> |sent| < |socks|
    ensures raised ==> EncodeMessage(cmd.action, clock(|sent|), cmd.args).Err?
    ensures forall i :: 0 <= i < |sent| ==> CarriesCommand(sent[i], socks[i], cmd, clock(i))
  {
    sent, raised := [], false;
    var i := 0;
    while i < |socks|
      invariant i <= |socks| && |sent| == i
      invariant forall j :: 0 <= j < i ==> CarriesCommand(sent[j], socks[j], cmd, clock(j))
    {
      var encoded := EncodeMessage(cmd.action, clock(i), cmd.args);
      if encoded.Err? {
        raised := true;
        return;
      }
      DecodeEncoded(cmd.action, clock(i), cmd.args, []);
      assert encoded.value[BODY_SIZE..] + [] == encoded.value[BODY_SIZE..];
      ExtendCarries(sent, socks, cmd, clock, Sent(socks[i], encoded.value));
      sent := sent + [Sent(socks[i], encoded.value)];
      i := i + 1;
    }
  }

  /**
   * `reader`: a blank line raises IndexError before anything is written;
   * otherwise the parsed command is broadcast.
   */
  method Reader(socks: seq<SockId>, line: Bytes, clock: nat -> Bytes) returns (sent: seq<Sent>, raised: bool)
    ensures ParseCommand(line).Err? ==> raised && sent == []
    ensures ParseCommand(line).Ok? ==>
      var cmd := ParseCommand(line).value;
      && |sent| <= |socks|
      && (raised <==> |sent| < |socks|)
      && (raised ==> EncodeMessage(cmd.action, clock(|sent|), cmd.args).Err?)
      && (forall i :: 0 <= i < |sent| ==> CarriesCommand(sent[i], socks[i], cmd, clock(i)))
  {
    var parsed := ParseCommand(line);
    if parsed.Err? {
      return [], true;
    }
    sent, raised := Broadcast(socks, parsed.value, clock);
  }

  /** The line `listener` prints for a response of this kind and data. */
  function Render(kind: Bytes, data: seq<Bytes>): Bytes
  {
    if kind == OK then SUCCEEDED
    else if kind == NOTOK then FAILED
    else if kind == ERROR then SERVER_ERROR
    else SERVER_PREFIX + JoinWith(COMMA_SPACE, data)
  }

  /**
   * The printed line tells the kinds apart: "Action succeeded" exactly for ok,
   * "Action failed" exactly for notok, "Server error" exactly for error, and the
   * "Server: " line with the data joined by ", " exactly for every other kind.
   */
  lemma RenderClassifies(kind: Bytes, data: seq<Bytes>)
    ensures Render(kind, data) == SUCCEEDED <==> kind == OK
    ensures Render(kind, data) == FAILED <==> kind == NOTOK
    ensures Render(kind, data) == SERVER_ERROR <==> kind == ERROR
    ensures Render(kind, data) == SERVER_PREFIX + JoinWith(COMMA_SPACE, data) <==> kind != OK && kind != NOTOK && kind != ERROR
  {
    assert |SUCCEEDED| == 16 && |FAILED| == 13 && |SERVER_ERROR| == 12 && |SERVER_PREFIX| == 8;
    assert OK != NOTOK && OK != ERROR by {
      assert |OK| == 2 && |NOTOK| == 5 && |ERROR| == 5;
    }
    assert NOTOK[0] != ERROR[0];
    var line := SERVER_PREFIX + JoinWith(COMMA_SPACE, data);
    assert line[0] == SERVER_PREFIX[0] && line[6] == SERVER_PREFIX[6];
    assert line[0] != SUCCEEDED[0] && line[0] != FAILED[0] && line[6] != SERVER_ERROR[6];
  }

  /** `listener` on the bytes a socket delivers: read one frame, decode it and render it. */
  function Listen(received: Bytes): Bytes
  {
    var f := DecodeMessage(NextFrame(received).0);
    Render(f.kind, f.args)
  }

  /** A response the server encoded is printed from its kind and decoded data. */
  lemma ListenToEncoded(kind: Bytes, timestamp: Bytes, data: seq<Bytes>, rest: Bytes)
    requires EncodeMessage(kind, timestamp, data).Ok?
    ensures Listen(EncodeMessage(kind, timestamp, data).value + rest) == Render(kind, Split(Join(data)))
  {
    var m := EncodeMessage(kind, timestamp, data).value;
    NextFrameOfEncoded(m, rest, kind, timestamp, data);
    DecodeEncoded(kind, timestamp, data, []);
    assert m[BODY_SIZE..] + [] == m[BODY_SIZE..];
  }

  /** A `list` response of names without ',' prints "Server: " and the names joined by ", ", even when there are none. */
  lemma ListenToList(timestamp: Bytes, names: seq<Bytes>, rest: Bytes)
    requires EncodeMessage(LIST, timestamp, names).Ok?
    requires forall k :: 0 <= k < |names| ==> DELIMITER !in names[k]
    ensures Listen(EncodeMessage(LIST, timestamp, names).value + rest) == SERVER_PREFIX + JoinWith(COMMA_SPACE, names)
  {
    ListenToEncoded(LIST, timestamp, names, rest);
    RenderClassifies(LIST, Split(Join(names)));
    assert LIST != OK && LIST != NOTOK && LIST != ERROR by {
      assert |LIST| == 4 && |OK| == 2 && |NOTOK| == 5 && |ERROR| == 5;
    }
    if names != [] {
      SplitJoin(names);
    }
  }

  /** The empty-argument `ok` response a successful command gets prints "Action succeeded". */
  lemma ListenToOk(timestamp: Bytes, rest: Bytes)
    requires EncodeMessage(OK, timestamp, []).Ok?
    ensures Listen(EncodeMessage(OK, timestamp, []).value + rest) == SUCCEEDED
  {
    ListenToEncoded(OK, timestamp, [], rest);
  }
}
