/**
 * The wire format of the chat protocol (action.py).
 *
 * A message is a 10-byte big-endian length followed by a body; the body is three
 * segments, each a big-endian length header (5, 5 and 10 bytes) followed by that
 * many bytes: the action name, the timestamp text and the arguments joined with ','.
 * Text is modelled as the bytes of its UTF-8 encoding, so encoding and decoding
 * text is the identity.
 */
module Codec {
  import opened Results

  type Byte = b: int | 0 <= b < 256
  type Bytes = seq<Byte>

  const BODY_SIZE: nat := 10
  const ACTION_ID_SIZE: nat := 5
  const TIMESTAMP_ID_SIZE: nat := 5
  const DATA_ID_SIZE: nat := 10
  /** The byte of ',' */
  const DELIMITER: Byte := 44

  /** `int.to_bytes` raises OverflowError when the length does not fit its header. */
  datatype EncodeError = Overflow

  /** The decoded parts of a message body: action name, timestamp text, argument list. */
  datatype Frame = Frame(kind: Bytes, timestamp: Bytes, args: seq<Bytes>)

  /** The bytes of an ASCII literal. */
  function Ascii(s: string): (r: Bytes)
    requires forall i :: 0 <= i < |s| ==> s[i] as int < 256
    ensures |r| == |s|
    ensures forall i :: 0 <= i < |s| ==> r[i] == s[i] as int
  {
    seq(|s|, i requires 0 <= i < |s| => s[i] as int)
  }

  const OK: Bytes := Ascii("ok")
  const NOTOK: Bytes := Ascii("notok")
  const STRING: Bytes := Ascii("string")
  const LIST: Bytes := Ascii("list")
  const ERROR: Bytes := Ascii("error")

  /** 256 to the power k: the first length that does not fit a k-byte header. */
  function Pow256(k: nat): (r: nat)
    ensures r >= 1
  {
    if k == 0 then 1 else 256 * Pow256(k - 1)
  }

  // ---------------------------------------------------------------------------
  // Big-endian integers: int.to_bytes(size, 'big') and int.from_bytes(_, 'big')
  // ---------------------------------------------------------------------------

  /** `n.to_bytes(k, byteorder='big')`, defined where it does not overflow. */
  function ToBytes(n: nat, k: nat): (r: Bytes)
    requires n < Pow256(k)
    ensures |r| == k
  {
    if k == 0 then []
    else
      assert n / 256 < Pow256(k - 1);
      ToBytes(n / 256, k - 1) + [n % 256]
  }

  /** `int.from_bytes(s, byteorder='big')`; the empty slice reads as 0. */
  function FromBytes(s: Bytes): (r: nat)
    ensures r < Pow256(|s|)
  {
    if s == [] then 0
    else
      var high := FromBytes(s[..|s| - 1]);
      assert (high + 1) * 256 <= Pow256(|s| - 1) * 256;
      high * 256 + s[|s| - 1]
  }

  /** Reading back k big-endian bytes of n gives n. */
  lemma {:induction false} FromToBytes(n: nat, k: nat)
    requires n < Pow256(k)
    ensures FromBytes(ToBytes(n, k)) == n
  {
    if k > 0 {
      var s := ToBytes(n, k);
      assert s[..k - 1] == ToBytes(n / 256, k - 1);
      FromToBytes(n / 256, k - 1);
    }
  }

  /** Every k-byte string is the big-endian form of the number it denotes. */
  lemma {:induction false} ToFromBytes(s: Bytes)
    ensures ToBytes(FromBytes(s), |s|) == s
  {
    if s != [] {
      var init := s[..|s| - 1];
      var n := FromBytes(s);
      assert n / 256 == FromBytes(init) && n % 256 == s[|s| - 1];
      ToFromBytes(init);
      assert s == init + [s[|s| - 1]];
    }
  }

  // ---------------------------------------------------------------------------
  // Python slicing, joining and splitting
  // ---------------------------------------------------------------------------

  /**
   * `s[lo:hi]` with Python's clamping: positions past the end read nothing, so a
   * slice that runs off the end keeps what is there, and an empty range is empty.
   */
  function Slice(s: Bytes, lo: nat, hi: nat): (r: Bytes)
    ensures lo <= hi <= |s| ==> r == s[lo..hi]
    ensures lo <= |s| <= hi ==> r == s[lo..]
    ensures |s| <= lo ==> r == []
    ensures hi <= lo ==> r == []
  {
    var end := if hi < |s| then hi else |s|;
    var start := if lo < end then lo else end;
    s[start..end]
  }

  /** `sep.join(parts)`. */
  function JoinWith(sep: Bytes, parts: seq<Bytes>): Bytes
  {
    if parts == [] then []
    else if |parts| == 1 then parts[0]
    else parts[0] + sep + JoinWith(sep, parts[1..])
  }

  /** `DELIMITER.join(parts)`: the data segment of a message. */
  function Join(parts: seq<Bytes>): Bytes
  {
    JoinWith([DELIMITER], parts)
  }

  /** The number of occurrences of b in s. */
  function Count(s: Bytes, b: Byte): nat
  {
    if s == [] then 0 else (if s[0] == b then 1 else 0) + Count(s[1..], b)
  }

  /** The index of the first b in s, or |s| when there is none. */
  function IndexOf(s: Bytes, b: Byte): (i: nat)
    ensures i <= |s|
    ensures i < |s| ==> s[i] == b
    ensures forall j :: 0 <= j < i ==> s[j] != b
  {
    if s == [] then 0 else if s[0] == b then 0 else 1 + IndexOf(s[1..], b)
  }

  lemma {:induction false} CountAbsent(s: Bytes, b: Byte)
    requires b !in s
    ensures Count(s, b) == 0
  {
    if s != [] {
      CountAbsent(s[1..], b);
    }
  }

  lemma {:induction false} CountConcat(s: Bytes, t: Bytes, b: Byte)
    ensures Count(s + t, b) == Count(s, b) + Count(t, b)
  {
    if s != [] {
      assert (s + t)[0] == s[0];
      assert (s + t)[1..] == s[1..] + t;
      CountConcat(s[1..], t, b);
    } else {
      assert s + t == t;
    }
  }

  /**
   * `s.split(DELIMITER)`: the pieces between the delimiters. The result is never
   * empty, no piece holds the delimiter, there is one more piece than there are
   * delimiters, and joining the pieces gives s back.
   */
  function Split(s: Bytes): (r: seq<Bytes>)
    ensures |r| == Count(s, DELIMITER) + 1
    ensures forall k :: 0 <= k < |r| ==> DELIMITER !in r[k]
    ensures Join(r) == s
    decreases |s|
  {
    var i := IndexOf(s, DELIMITER);
    if i == |s| then
      CountAbsent(s, DELIMITER);
      [s]
    else
      var pieces := Split(s[i + 1..]);
      SplitAt(s, i, pieces);
      [s[..i]] + pieces
  }

  /** The first piece up to the first delimiter, followed by the pieces of the rest, splits s. */
  lemma SplitAt(s: Bytes, i: nat, pieces: seq<Bytes>)
    requires i < |s| && s[i] == DELIMITER
    requires forall j :: 0 <= j < i ==> s[j] != DELIMITER
    requires |pieces| == Count(s[i + 1..], DELIMITER) + 1
    requires Join(pieces) == s[i + 1..]
    ensures |[s[..i]] + pieces| == Count(s, DELIMITER) + 1
    ensures Join([s[..i]] + pieces) == s
  {
    var head, tail := s[..i], s[i + 1..];
    assert s == head + ([DELIMITER] + tail);
    CountAbsent(head, DELIMITER);
    CountConcat(head, [DELIMITER] + tail, DELIMITER);
    assert Count([DELIMITER] + tail, DELIMITER) == 1 + Count(tail, DELIMITER) by {
      assert ([DELIMITER] + tail)[1..] == tail;
    }
    assert ([head] + pieces)[1..] == pieces;
  }

  /** Splitting a non-empty, delimiter-free list after joining it gives the list back. */
  lemma {:induction false} SplitJoin(parts: seq<Bytes>)
    requires parts != []
    requires forall k :: 0 <= k < |parts| ==> DELIMITER !in parts[k]
    ensures Split(Join(parts)) == parts
  {
    if |parts| > 1 {
      var s := Join(parts);
      var rest := Join(parts[1..]);
      assert s == parts[0] + [DELIMITER] + rest;
      assert IndexOf(s, DELIMITER) == |parts[0]| by {
        assert s[|parts[0]|] == DELIMITER;
        assert forall j :: 0 <= j < |parts[0]| ==> s[j] == parts[0][j];
      }
      assert s[..|parts[0]|] == parts[0];
      assert s[|parts[0]| + 1..] == rest;
      SplitJoin(parts[1..]);
    } else {
      assert IndexOf(parts[0], DELIMITER) == |parts[0]|;
    }
  }

  // ---------------------------------------------------------------------------
  // encode_segment, encode_message
  // ---------------------------------------------------------------------------

  /** A size-byte big-endian length followed by the data: the length reads back and the data follows it. */
  lemma LengthPrefixed(data: Bytes, size: nat)
    requires |data| < Pow256(size)
    ensures var m := ToBytes(|data|, size) + data;
      |m| == size + |data| && FromBytes(m[..size]) == |data| && m[size..] == data
  {
    FromToBytes(|data|, size);
    var header := ToBytes(|data|, size);
    assert (header + data)[..size] == header;
  }

  /**
   * `encode_segment(data, size)`: a size-byte big-endian header holding |data|,
   * then data. Fails exactly when |data| does not fit in size bytes.
   */
  function EncodeSegment(data: Bytes, size: nat): (r: Result<Bytes, EncodeError>)
    ensures r.Ok? <==> |data| < Pow256(size)
    ensures r.Ok? ==> |r.value| == size + |data|
    ensures r.Ok? ==> FromBytes(r.value[..size]) == |data| && r.value[size..] == data
  {
    if |data| < Pow256(size) then
      LengthPrefixed(data, size);
      Ok(ToBytes(|data|, size) + data)
    else
      Err(Overflow)
  }

  /** The length a body of these three segments has. */
  function BodyLength(action: Bytes, timestamp: Bytes, data: Bytes): nat
  {
    ACTION_ID_SIZE + |action| + TIMESTAMP_ID_SIZE + |timestamp| + DATA_ID_SIZE + |data|
  }

  /**
   * `encode_message(action, data_list)`, with the timestamp text that action.py
   * reads from the clock passed in as a parameter. The result is the 10-byte length of the body,
   * then the action, timestamp and data segments in that order. Encoding fails
   * exactly when a segment or the body overflows its length field.
   */
  function EncodeMessage(action: Bytes, timestamp: Bytes, dataList: seq<Bytes>): (r: Result<Bytes, EncodeError>)
    ensures r.Ok? <==>
      |action| < Pow256(ACTION_ID_SIZE) && |timestamp| < Pow256(TIMESTAMP_ID_SIZE) &&
      |Join(dataList)| < Pow256(DATA_ID_SIZE) &&
      BodyLength(action, timestamp, Join(dataList)) < Pow256(BODY_SIZE)
    ensures r.Ok? ==>
      |r.value| == BODY_SIZE + BodyLength(action, timestamp, Join(dataList)) &&
      FromBytes(r.value[..BODY_SIZE]) == |r.value| - BODY_SIZE &&
      r.value[BODY_SIZE..] ==
        EncodeSegment(action, ACTION_ID_SIZE).value +
        EncodeSegment(timestamp, TIMESTAMP_ID_SIZE).value +
        EncodeSegment(Join(dataList), DATA_ID_SIZE).value
  {
    var a := EncodeSegment(action, ACTION_ID_SIZE);
    var t := EncodeSegment(timestamp, TIMESTAMP_ID_SIZE);
    var c := EncodeSegment(Join(dataList), DATA_ID_SIZE);
    if a.Err? || t.Err? || c.Err? then Err(Overflow)
    else
      var body := a.value + t.value + c.value;
      if |body| < Pow256(BODY_SIZE) then
        LengthPrefixed(body, BODY_SIZE);
        Ok(ToBytes(|body|, BODY_SIZE) + body)
      else
        Err(Overflow)
  }

  // ---------------------------------------------------------------------------
  // decode_message
  // ---------------------------------------------------------------------------

  /**
   * One step of `decode_message`'s cursor: read a size-byte length at pos, then
   * that many bytes. Returns the segment and the advanced cursor; reads past the
   * end are clamped, as Python slicing does.
   */
  function ReadSegment(data: Bytes, pos: nat, size: nat): (r: (Bytes, nat))
    ensures r.1 == pos + size + FromBytes(Slice(data, pos, pos + size))
    ensures |r.0| <= r.1 - pos - size
  {
    var length := FromBytes(Slice(data, pos, pos + size));
    (Slice(data, pos + size, pos + size + length), pos + size + length)
  }

  /** A declared length that fits the data is read exactly, with no clamping. */
  lemma ReadWholeSegment(data: Bytes, pos: nat, size: nat, length: nat)
    requires pos + size + length <= |data|
    requires FromBytes(data[pos..pos + size]) == length
    ensures ReadSegment(data, pos, size) == (data[pos + size..pos + size + length], pos + size + length)
  {
    assert Slice(data, pos, pos + size) == data[pos..pos + size];
  }

  /** A segment written by `EncodeSegment` is read back whole, wherever it stands. */
  lemma ReadEncodedSegment(prefix: Bytes, x: Bytes, size: nat, rest: Bytes)
    requires |x| < Pow256(size)
    ensures ReadSegment(prefix + EncodeSegment(x, size).value + rest, |prefix|, size)
            == (x, |prefix| + size + |x|)
  {
    var seg := EncodeSegment(x, size).value;
    var data := prefix + seg + rest;
    assert data[|prefix|..|prefix| + |seg|] == seg;
    ReadSegmentAt(data, |prefix|, seg, x, size);
  }

  lemma ReadSegmentAt(data: Bytes, pos: nat, seg: Bytes, x: Bytes, size: nat)
    requires pos + |seg| <= |data| && data[pos..pos + |seg|] == seg
    requires |seg| == size + |x| && FromBytes(seg[..size]) == |x| && seg[size..] == x
    ensures ReadSegment(data, pos, size) == (x, pos + size + |x|)
  {
    assert data[pos..pos + size] == seg[..size];
    assert data[pos + size..pos + size + |x|] == seg[size..];
    ReadWholeSegment(data, pos, size, |x|);
  }

  /**
   * `decode_message(body)`: the body with the outer length already removed.
   * The argument list is never empty and no argument holds the delimiter.
   */
  function DecodeMessage(body: Bytes): (f: Frame)
    ensures f.args != []
    ensures forall k :: 0 <= k < |f.args| ==> DELIMITER !in f.args[k]
  {
    var (action, p1) := ReadSegment(body, 0, ACTION_ID_SIZE);
    var (timestamp, p2) := ReadSegment(body, p1, TIMESTAMP_ID_SIZE);
    var (data, _) := ReadSegment(body, p2, DATA_ID_SIZE);
    Frame(action, timestamp, Split(data))
  }

  /** Where `decode_message`'s cursor ends: just past the data segment it declared. */
  function BodyEnd(body: Bytes): nat
  {
    var (_, p1) := ReadSegment(body, 0, ACTION_ID_SIZE);
    var (_, p2) := ReadSegment(body, p1, TIMESTAMP_ID_SIZE);
    ReadSegment(body, p2, DATA_ID_SIZE).1
  }

  /**
   * Decoding the body of an encoded message gives back the action, the timestamp
   * and the split form of the joined arguments, consumes exactly the body, and
   * ignores whatever follows it.
   */
  lemma {:induction false} DecodeEncoded(action: Bytes, timestamp: Bytes, dataList: seq<Bytes>, rest: Bytes)
    requires EncodeMessage(action, timestamp, dataList).Ok?
    ensures var m := EncodeMessage(action, timestamp, dataList).value;
      DecodeMessage(m[BODY_SIZE..] + rest) == Frame(action, timestamp, Split(Join(dataList))) &&
      BodyEnd(m[BODY_SIZE..] + rest) == |m| - BODY_SIZE
  {
    var m := EncodeMessage(action, timestamp, dataList).value;
    var a := EncodeSegment(action, ACTION_ID_SIZE).value;
    var t := EncodeSegment(timestamp, TIMESTAMP_ID_SIZE).value;
    var c := EncodeSegment(Join(dataList), DATA_ID_SIZE).value;
    assert m[BODY_SIZE..] + rest == a + t + c + rest;
    DecodeThreeSegments(a, t, c, action, timestamp, Join(dataList), rest);
  }

  /** A body of three well-formed segments decodes to their contents, whatever follows it. */
  lemma DecodeThreeSegments(a: Bytes, t: Bytes, c: Bytes, action: Bytes, timestamp: Bytes, data: Bytes, rest: Bytes)
    requires |a| == ACTION_ID_SIZE + |action| && FromBytes(a[..ACTION_ID_SIZE]) == |action| && a[ACTION_ID_SIZE..] == action
    requires |t| == TIMESTAMP_ID_SIZE + |timestamp| && FromBytes(t[..TIMESTAMP_ID_SIZE]) == |timestamp| && t[TIMESTAMP_ID_SIZE..] == timestamp
    requires |c| == DATA_ID_SIZE + |data| && FromBytes(c[..DATA_ID_SIZE]) == |data| && c[DATA_ID_SIZE..] == data
    ensures DecodeMessage(a + t + c + rest) == Frame(action, timestamp, Split(data))
    ensures BodyEnd(a + t + c + rest) == |a| + |t| + |c|
  {
    DecodeSegments(a, t, c, action, timestamp, data, rest);
    DecodeFromReads(a + t + c + rest, (action, |a|), (timestamp, |a| + |t|), (data, |a| + |t| + |c|));
  }

  /** Reading three well-formed segments in a row, whatever follows them. */
  lemma DecodeSegments(a: Bytes, t: Bytes, c: Bytes, action: Bytes, timestamp: Bytes, data: Bytes, rest: Bytes)
    requires |a| == ACTION_ID_SIZE + |action| && FromBytes(a[..ACTION_ID_SIZE]) == |action| && a[ACTION_ID_SIZE..] == action
    requires |t| == TIMESTAMP_ID_SIZE + |timestamp| && FromBytes(t[..TIMESTAMP_ID_SIZE]) == |timestamp| && t[TIMESTAMP_ID_SIZE..] == timestamp
    requires |c| == DATA_ID_SIZE + |data| && FromBytes(c[..DATA_ID_SIZE]) == |data| && c[DATA_ID_SIZE..] == data
    ensures var body := a + t + c + rest;
      && ReadSegment(body, 0, ACTION_ID_SIZE) == (action, |a|)
      && ReadSegment(body, |a|, TIMESTAMP_ID_SIZE) == (timestamp, |a| + |t|)
      && ReadSegment(body, |a| + |t|, DATA_ID_SIZE) == (data, |a| + |t| + |c|)
  {
    var body := a + t + c + rest;
    ConcatSlices(a, t, c, rest);
    ReadSegmentAt(body, 0, a, action, ACTION_ID_SIZE);
    ReadSegmentAt(body, |a|, t, timestamp, TIMESTAMP_ID_SIZE);
    ReadSegmentAt(body, |a| + |t|, c, data, DATA_ID_SIZE);
  }

  /** Where each part of a + t + c + rest sits. */
  lemma ConcatSlices(a: Bytes, t: Bytes, c: Bytes, rest: Bytes)
    ensures var body := a + t + c + rest;
      && body[0..|a|] == a
      && body[|a|..|a| + |t|] == t
      && body[|a| + |t|..|a| + |t| + |c|] == c
  {
  }

  /** `decode_message` is the three segment reads, in order. */
  lemma DecodeFromReads(body: Bytes, r1: (Bytes, nat), r2: (Bytes, nat), r3: (Bytes, nat))
    requires r1 == ReadSegment(body, 0, ACTION_ID_SIZE)
    requires r2 == ReadSegment(body, r1.1, TIMESTAMP_ID_SIZE)
    requires r3 == ReadSegment(body, r2.1, DATA_ID_SIZE)
    ensures DecodeMessage(body) == Frame(r1.0, r2.0, Split(r3.0))
    ensures BodyEnd(body) == r3.1
  {
  }

  /**
   * The round trip: a non-empty argument list none of whose elements holds ','
   * comes back unchanged, together with the action and the timestamp text.
   */
  lemma RoundTrip(action: Bytes, timestamp: Bytes, dataList: seq<Bytes>)
    requires EncodeMessage(action, timestamp, dataList).Ok?
    requires dataList != []
    requires forall k :: 0 <= k < |dataList| ==> DELIMITER !in dataList[k]
    ensures DecodeMessage(EncodeMessage(action, timestamp, dataList).value[BODY_SIZE..])
            == Frame(action, timestamp, dataList)
  {
    var m := EncodeMessage(action, timestamp, dataList).value;
    DecodeEncoded(action, timestamp, dataList, []);
    assert m[BODY_SIZE..] + [] == m[BODY_SIZE..];
    SplitJoin(dataList);
  }

  /** An empty argument list does not round-trip: it decodes as one empty argument. */
  lemma EmptyArgsDecodeAsEmptyString(action: Bytes, timestamp: Bytes)
    requires EncodeMessage(action, timestamp, []).Ok?
    ensures DecodeMessage(EncodeMessage(action, timestamp, []).value[BODY_SIZE..]).args == [[]]
  {
    var m := EncodeMessage(action, timestamp, []).value;
    DecodeEncoded(action, timestamp, [], []);
    assert m[BODY_SIZE..] + [] == m[BODY_SIZE..];
  }

  // ---------------------------------------------------------------------------
  // Outer framing, as the server and the client read it from a socket
  // ---------------------------------------------------------------------------

  /**
   * Read one message from a stream: a BODY_SIZE-byte length, then that many bytes
   * (reads are taken to be full). Returns the body and what follows it; a
   * non-empty stream always shrinks.
   */
  function NextFrame(stream: Bytes): (r: (Bytes, Bytes))
    ensures stream != [] ==> |r.1| < |stream|
  {
    var length := FromBytes(Slice(stream, 0, BODY_SIZE));
    var end := if BODY_SIZE + length < |stream| then BODY_SIZE + length else |stream|;
    (Slice(stream, BODY_SIZE, BODY_SIZE + length), stream[end..])
  }

  /** An encoded message at the head of a stream is read as exactly its body. */
  lemma NextFrameOfEncoded(m: Bytes, rest: Bytes, action: Bytes, timestamp: Bytes, dataList: seq<Bytes>)
    requires EncodeMessage(action, timestamp, dataList) == Ok(m)
    ensures NextFrame(m + rest) == (m[BODY_SIZE..], rest)
  {
    var s := m + rest;
    assert Slice(s, 0, BODY_SIZE) == m[..BODY_SIZE];
    assert Slice(s, BODY_SIZE, |m|) == m[BODY_SIZE..];
    assert s[|m|..] == rest;
  }
}
