/** The framed byte stream between bus client and bus server (decnet/bus/protocol.py). */
module WireFrames {
  import opened Text

  type Byte = b: int | 0 <= b < 256
  type Bytes = seq<Byte>

  const MAX_HEADER_BYTES := 4096
  const MAX_BODY_BYTES := 1048576
  const NEWLINE: Byte := 10
  const CARRIAGE_RETURN: Byte := 13

  datatype EncodeError = UnknownVerb | NewlineInArgs | BodyTooLarge | NotEncodable | HeaderTooLarge
  datatype Encoded = Ok(bytes: Bytes) | Err(error: EncodeError)

  /** What a caller hands to `encode`: the body is already serialised. */
  datatype Message = Message(verb: string, args: string, body: Bytes)

  datatype Frame = Frame(verb: string, args: string, body: Bytes)

  /** `MidHeader` to `BodyTooLong` are the reader's protocol errors; the other two are the
      decoding error and the incomplete-read error that escape it. */
  datatype ReadError =
    | MidHeader | HeaderTooLong | EmptyHeader | BadVerb | BodyTooLong
    | NotDecodable | Incomplete
  datatype ReadResult = Eof | Got(frame: Frame, rest: Bytes) | Bad(error: ReadError)

  // ---------- text ----------

  function RStrip(s: string): string {
    if s != [] && IsSpace(s[|s| - 1]) then RStrip(s[..|s| - 1]) else s
  }

  function LStrip(s: string): string {
    if s != [] && IsSpace(s[0]) then LStrip(s[1..]) else s
  }

  function Strip(s: string): string {
    LStrip(RStrip(s))
  }

  predicate IsAscii(s: string) {
    forall c | c in s :: c as int < 128
  }

  predicate IsAsciiBytes(b: Bytes) {
    forall x | x in b :: x < 128
  }

  function CharByte(c: char): Byte
    requires c as int < 128
  {
    c as int
  }

  function ToBytes(s: string): (b: Bytes)
    requires IsAscii(s)
    ensures |b| == |s|
  {
    seq(|s|, i requires 0 <= i < |s| => (assert s[i] in s; CharByte(s[i])))
  }

  function ToText(b: Bytes): (s: string)
    requires IsAsciiBytes(b)
    ensures |s| == |b|
  {
    seq(|b|, i requires 0 <= i < |b| => (assert b[i] in b; b[i] as char))
  }

  /** Position of the first occurrence of `x`, or the length. */
  function IndexOf<T(==)>(s: seq<T>, x: T): (i: nat)
    ensures i <= |s|
    ensures i < |s| ==> s[i] == x
    ensures forall j | 0 <= j < i :: s[j] != x
  {
    if s == [] || s[0] == x then 0 else 1 + IndexOf(s[1..], x)
  }

  /** `text.partition(" ")`, without the separator. */
  function Partition(text: string): (string, string) {
    var k := IndexOf(text, ' ');
    (text[..k], if k < |text| then text[k + 1..] else "")
  }

  predicate IsVerb(s: string) {
    s == "HELLO" || s == "PUB" || s == "SUB" || s == "UNSUB" || s == "EVT" || s == "BYE"
  }

  /** `bytes.rstrip(b"\r\n")`. */
  function RStripLineEnd(b: Bytes): (r: Bytes)
    ensures r <= b
  {
    if b != [] && b[|b| - 1] in {NEWLINE, CARRIAGE_RETURN} then RStripLineEnd(b[..|b| - 1]) else b
  }

  // ---------- numbers ----------

  function BigEndian(n: nat): (b: Bytes)
    requires n < 0x1_0000_0000
    ensures |b| == 4
  {
    [n / 0x100_0000, n / 0x1_0000 % 256, n / 256 % 256, n % 256]
  }

  function FromBigEndian(b: Bytes): nat
    requires |b| == 4
  {
    b[0] as int * 0x100_0000 + b[1] as int * 0x1_0000 + b[2] as int * 256 + b[3] as int
  }

  lemma BigEndianRoundTrip(n: nat)
    requires n < 0x1_0000_0000
    ensures FromBigEndian(BigEndian(n)) == n
  {
    assert n / 0x1_0000 == n / 256 / 256;
    assert n / 0x100_0000 == n / 0x1_0000 / 256;
  }

  // ---------- encode ----------

  function HeaderText(verb: string, args: string): string {
    RStrip(verb + " " + args)
  }

  function Encode(m: Message): (r: Encoded)
  {
    if !IsVerb(m.verb) then Err(UnknownVerb)
    else if '\n' in m.args || '\r' in m.args then Err(NewlineInArgs)
    else if |m.body| > MAX_BODY_BYTES then Err(BodyTooLarge)
    else
      var header := HeaderText(m.verb, m.args) + "\n";
      if !IsAscii(header) then Err(NotEncodable)
      else if |header| > MAX_HEADER_BYTES then Err(HeaderTooLarge)
      else Ok(ToBytes(header) + BigEndian(|m.body|) + m.body)
  }

  predicate Encodable(m: Message) {
    Encode(m).Ok?
  }

  /** The bytes of a message that can be encoded. */
  function Wire(m: Message): Bytes
    requires Encodable(m)
  {
    Encode(m).bytes
  }

  /** What the other side should see of a message. */
  function Received(m: Message): Frame {
    Frame(m.verb, Strip(m.args), m.body)
  }

  // ---------- read ----------

  /** `read_frame` on a stream whose remaining bytes are `s`. */
  function ReadOne(s: Bytes): (r: ReadResult)
    ensures r.Got? ==> |r.rest| < |s|
  {
    var i := IndexOf(s, NEWLINE);
    if i == |s| then
      if s == [] then Eof else Bad(MidHeader)
    else if i + 1 > MAX_HEADER_BYTES then Bad(HeaderTooLong)
    else
      ReadBody(RStripLineEnd(s[..i + 1]), s[i + 1..])
  }

  /** The part of `read_frame` after the header line was taken off the stream. */
  function ReadBody(line: Bytes, s: Bytes): (r: ReadResult)
    ensures r.Got? ==> |r.rest| <= |s|
    ensures !r.Eof?
  {
    if !IsAsciiBytes(line) then Bad(NotDecodable)
    else if line == [] then Bad(EmptyHeader)
    else
      var (verb, args) := Partition(ToText(line));
      if !IsVerb(verb) then Bad(BadVerb) else ReadSized(verb, Strip(args), s)
  }

  /** The length and the body. */
  function ReadSized(verb: string, args: string, s: Bytes): (r: ReadResult)
    ensures r.Got? ==> |r.rest| <= |s|
    ensures !r.Eof?
  {
    if |s| < 4 then Bad(Incomplete)
    else
      var n := FromBigEndian(s[..4]);
      if n > MAX_BODY_BYTES then Bad(BodyTooLong)
      else if |s| < 4 + n then Bad(Incomplete)
      else Got(Frame(verb, args, s[4..4 + n]), s[4 + n..])
  }

  /** The frames a reader loop sees, and the result that stopped it. */
  function ReadAll(s: Bytes): (r: (seq<Frame>, ReadResult))
    ensures !r.1.Got?
    decreases |s|
  {
    match ReadOne(s)
    case Got(f, rest) =>
      var more := ReadAll(rest);
      ([f] + more.0, more.1)
    case end => ([], end)
  }

  // ---------- the reader, step by step ----------

  /** The part of asyncio's stream reader that `read_frame` uses, at end of input. */
  class StreamReader {
    var data: Bytes

    constructor (bytes: Bytes)
      ensures data == bytes
    {
      data := bytes;
    }

    /** Takes everything up to and including the first newline. */
    method ReadUntilNewline() returns (found: bool, taken: Bytes)
      modifies this
      ensures found <==> NEWLINE in old(data)
      ensures found ==> taken == old(data)[..IndexOf(old(data), NEWLINE) + 1]
      ensures !found ==> taken == old(data)
      ensures old(data) == taken + data
    {
      var i := 0;
      while i < |data| && data[i] != NEWLINE
        invariant i <= |data| && data == old(data)
        invariant forall j | 0 <= j < i :: data[j] != NEWLINE
      {
        i := i + 1;
      }
      found := i < |data|;
      if found { i := i + 1; }
      taken, data := data[..i], data[i..];
    }

    /** Takes exactly `n` bytes, or everything when fewer are left. */
    method ReadExactly(n: nat) returns (ok: bool, taken: Bytes)
      modifies this
      ensures ok <==> n <= |old(data)|
      ensures ok ==> |taken| == n
      ensures old(data) == taken + data
      ensures !ok ==> data == []
    {
      ok := n <= |data|;
      var k := if ok then n else |data|;
      taken, data := data[..k], data[k..];
    }
  }

  method ReadFrame(reader: StreamReader) returns (r: ReadResult)
    modifies reader
    ensures r == ReadOne(old(reader.data))
    ensures r.Got? ==> reader.data == r.rest
  {
    var found, header := reader.ReadUntilNewline();
    if !found {
      return if header == [] then Eof else Bad(MidHeader);
    }
    if |header| > MAX_HEADER_BYTES { return Bad(HeaderTooLong); }
    assert reader.data == old(reader.data)[|header|..];
    r := ReadFrameBody(reader, RStripLineEnd(header));
  }

  /** `read_frame` from the decoded header line on. */
  method ReadFrameBody(reader: StreamReader, line: Bytes) returns (r: ReadResult)
    modifies reader
    ensures r == ReadBody(line, old(reader.data))
    ensures r.Got? ==> reader.data == r.rest
  {
    if !IsAsciiBytes(line) { return Bad(NotDecodable); }
    if line == [] { return Bad(EmptyHeader); }
    var (verb, args) := Partition(ToText(line));
    if !IsVerb(verb) { return Bad(BadVerb); }
    var ok, lengthBytes := reader.ReadExactly(4);
    if !ok { return Bad(Incomplete); }
    assert lengthBytes == old(reader.data)[..4];
    var n := FromBigEndian(lengthBytes);
    if n > MAX_BODY_BYTES { return Bad(BodyTooLong); }
    var whole, body := reader.ReadExactly(n);
    if !whole { return Bad(Incomplete); }
    assert body == old(reader.data)[4..4 + n] && reader.data == old(reader.data)[4 + n..];
    return Got(Frame(verb, Strip(args), body), reader.data);
  }

  // ---------- one frame ----------

  lemma {:induction false} RStripConcat(x: string, y: string)
    ensures RStrip(x + y) == if RStrip(y) == "" then RStrip(x) else x + RStrip(y)
    decreases |y|
  {
    if y == [] {
      assert x + y == x;
    } else if IsSpace(y[|y| - 1]) {
      assert (x + y)[..|x + y| - 1] == x + y[..|y| - 1];
      RStripConcat(x, y[..|y| - 1]);
    }
  }

  lemma {:induction false} RStripPrefix(s: string)
    ensures RStrip(s) <= s
    ensures RStrip(RStrip(s)) == RStrip(s)
  {
    if s != [] && IsSpace(s[|s| - 1]) { RStripPrefix(s[..|s| - 1]); }
  }

  lemma ToTextToBytes(s: string)
    requires IsAscii(s)
    ensures IsAsciiBytes(ToBytes(s)) && ToText(ToBytes(s)) == s
  {
    forall x | x in ToBytes(s) ensures x < 128 {
      var i :| 0 <= i < |s| && ToBytes(s)[i] == x;
      assert s[i] in s;
    }
  }

  lemma VerbIsPlain(verb: string)
    requires IsVerb(verb)
    ensures verb != "" && IsAscii(verb) && RStrip(verb) == verb
    ensures ' ' !in verb && '\n' !in verb && '\r' !in verb
  {
    assert verb != "" && forall i | 0 <= i < |verb| :: 'A' <= verb[i] <= 'Z';
  }

  /** The header is the verb alone, or the verb, a space and the args without trailing space. */
  lemma HeaderShape(verb: string, args: string)
    requires IsVerb(verb)
    requires '\n' !in args && '\r' !in args
    ensures HeaderText(verb, args) ==
            if RStrip(args) == "" then verb else verb + " " + RStrip(args)
    ensures '\n' !in HeaderText(verb, args) && '\r' !in HeaderText(verb, args)
  {
    VerbIsPlain(verb);
    RStripConcat(verb + " ", args);
    assert (verb + " ")[..|verb|] == verb;
    RStripPrefix(args);
  }

  lemma PartitionAtSpace(verb: string, rest: string)
    requires ' ' !in verb
    ensures Partition(verb) == (verb, "")
    ensures Partition(verb + " " + rest) == (verb, rest)
  {
    var h := verb + " " + rest;
    assert forall j | 0 <= j < |verb| :: h[j] == verb[j];
    assert h[|verb|] == ' ';
    assert IndexOf(h, ' ') == |verb| && IndexOf(verb, ' ') == |verb|;
    assert h[..|verb|] == verb && h[|verb| + 1..] == rest && verb[..|verb|] == verb;
  }

  /** Splitting the header at its first space gives back verb and trimmed args. */
  lemma HeaderSplits(verb: string, args: string)
    requires IsVerb(verb)
    requires '\n' !in args && '\r' !in args
    ensures Partition(HeaderText(verb, args)).0 == verb
    ensures Strip(Partition(HeaderText(verb, args)).1) == Strip(args)
  {
    VerbIsPlain(verb);
    HeaderShape(verb, args);
    RStripPrefix(args);
    PartitionAtSpace(verb, RStrip(args));
  }

  /** An ASCII text without line ends, as the header of a stream. */
  predicate PlainLine(h: string) {
    h != "" && IsAscii(h) && '\n' !in h && '\r' !in h && |h| < MAX_HEADER_BYTES
  }

  lemma ToBytesPlain(h: string)
    requires PlainLine(h)
    ensures NEWLINE !in ToBytes(h) && CARRIAGE_RETURN !in ToBytes(h)
  {
    forall x | x in ToBytes(h) ensures x != NEWLINE && x != CARRIAGE_RETURN {
      var i :| 0 <= i < |h| && ToBytes(h)[i] == x;
      assert h[i] in h;
    }
  }

  lemma FirstNewline(b: Bytes, tail: Bytes)
    requires NEWLINE !in b
    ensures IndexOf(b + [NEWLINE] + tail, NEWLINE) == |b|
  {
    var s := b + [NEWLINE] + tail;
    assert forall j | 0 <= j < |b| :: s[j] == b[j];
    assert s[|b|] == NEWLINE;
  }

  /** Reading a stream whose first line is known. */
  lemma ReadPlainLine(h: string, tail: Bytes)
    requires PlainLine(h)
    ensures ReadOne(ToBytes(h) + [NEWLINE] + tail) == ReadBody(ToBytes(h), tail)
  {
    var b := ToBytes(h);
    var s := b + [NEWLINE] + tail;
    ToBytesPlain(h);
    FirstNewline(b, tail);
    assert s[..|b| + 1] == b + [NEWLINE] && s[|b| + 1..] == tail;
    assert (b + [NEWLINE])[..|b|] == b && b[|b| - 1] in b;
    assert RStripLineEnd(b + [NEWLINE]) == b;
  }

  lemma WireShape(m: Message)
    requires Encodable(m)
    ensures PlainLine(HeaderText(m.verb, m.args))
    ensures Wire(m) == ToBytes(HeaderText(m.verb, m.args)) + [NEWLINE] + (BigEndian(|m.body|) + m.body)
  {
    HeaderShape(m.verb, m.args);
    VerbIsPlain(m.verb);
    var h := HeaderText(m.verb, m.args);
    assert IsAscii(h) by { assert forall c | c in h :: c in h + "\n"; }
    assert ToBytes(h + "\n") == ToBytes(h) + [NEWLINE];
  }

  lemma ReadSizedOf(verb: string, args: string, body: Bytes, tail: Bytes)
    requires |body| <= MAX_BODY_BYTES
    ensures var sized := BigEndian(|body|) + body;
            var r := ReadSized(verb, args, tail);
            && (tail < sized ==> r == Bad(Incomplete))
            && (sized <= tail ==> r == Got(Frame(verb, args, body), tail[|sized|..]))
  {
    BigEndianRoundTrip(|body|);
    var sized := BigEndian(|body|) + body;
    if sized <= tail || (tail < sized && |tail| >= 4) {
      assert tail[..4] == sized[..4] == BigEndian(|body|);
      if sized <= tail { assert tail[4..|sized|] == sized[4..] == body; }
    }
  }

  /** After the header line of an encoded message, verb and trimmed args are known. */
  lemma ReadBodyOf(m: Message, tail: Bytes)
    requires Encodable(m) && PlainLine(HeaderText(m.verb, m.args))
    ensures ReadBody(ToBytes(HeaderText(m.verb, m.args)), tail) == ReadSized(m.verb, Strip(m.args), tail)
  {
    HeaderSplits(m.verb, m.args);
    ToTextToBytes(HeaderText(m.verb, m.args));
  }

  /** Reading an encoded message gives it back and leaves the rest of the stream. */
  lemma ReadEncoded(m: Message, rest: Bytes)
    requires Encodable(m)
    ensures ReadOne(Wire(m) + rest) == Got(Received(m), rest)
  {
    WireShape(m);
    var h := HeaderText(m.verb, m.args);
    var sized := BigEndian(|m.body|) + m.body;
    assert Wire(m) + rest == ToBytes(h) + [NEWLINE] + (sized + rest);
    ReadPlainLine(h, sized + rest);
    ReadBodyOf(m, sized + rest);
    ReadSizedOf(m.verb, Strip(m.args), m.body, sized + rest);
    assert (sized + rest)[|sized|..] == rest;
  }

  /** A message cut anywhere strictly inside is an error, never a frame and never a clean end. */
  lemma ReadTruncated(m: Message, k: nat)
    requires Encodable(m)
    requires 0 < k < |Wire(m)|
    ensures ReadOne(Wire(m)[..k]).Bad?
  {
    WireShape(m);
    var h := HeaderText(m.verb, m.args);
    var sized := BigEndian(|m.body|) + m.body;
    var s := Wire(m)[..k];
    if k <= |h| {
      ToBytesPlain(h);
      assert s == ToBytes(h)[..k];
      assert NEWLINE !in s;
    } else {
      var tail := sized[..k - |h| - 1];
      assert s == ToBytes(h) + [NEWLINE] + tail;
      ReadPlainLine(h, tail);
      ReadBodyOf(m, tail);
      ReadSizedOf(m.verb, Strip(m.args), m.body, tail);
    }
  }

  // ---------- whole streams ----------

  function Flatten(chunks: seq<Bytes>): Bytes {
    if chunks == [] then [] else chunks[0] + Flatten(chunks[1..])
  }

  /** `b` reads as `f` whatever follows, and as an error when cut strictly inside. */
  ghost predicate Delimits(b: Bytes, f: Frame) {
    && b != []
    && (forall rest {:trigger ReadOne(b + rest)} :: ReadOne(b + rest) == Got(f, rest))
    && (forall k | 0 < k < |b| :: ReadOne(b[..k]).Bad?)
  }

  ghost predicate AllDelimit(chunks: seq<Bytes>, frames: seq<Frame>) {
    |chunks| == |frames| && forall i | 0 <= i < |chunks| :: Delimits(chunks[i], frames[i])
  }

  lemma EncodedDelimits(m: Message)
    requires Encodable(m)
    ensures Delimits(Wire(m), Received(m))
  {
    forall rest ensures ReadOne(Wire(m) + rest) == Got(Received(m), rest) {
      ReadEncoded(m, rest);
    }
    forall k | 0 < k < |Wire(m)| ensures ReadOne(Wire(m)[..k]).Bad? {
      ReadTruncated(m, k);
    }
    WireShape(m);
  }

  lemma ReadAllStep(s: Bytes, f: Frame, rest: Bytes)
    requires ReadOne(s) == Got(f, rest)
    ensures ReadAll(s) == ([f] + ReadAll(rest).0, ReadAll(rest).1)
  {
  }

  /** How many chunks lie wholly within the first `k` bytes. */
  function Whole(chunks: seq<Bytes>, k: nat): (j: nat)
    ensures j <= |chunks|
  {
    if chunks == [] || k < |chunks[0]| then 0
    else 1 + Whole(chunks[1..], k - |chunks[0]|)
  }

  /** What reading the first `k` bytes should give. */
  ghost predicate CutShape(chunks: seq<Bytes>, frames: seq<Frame>, k: nat, r: (seq<Frame>, ReadResult))
    requires |chunks| == |frames|
  {
    var j := Whole(chunks, k);
    r.0 == frames[..j] && (r.1.Eof? <==> k == |Flatten(chunks[..j])|)
  }

  lemma CutInFirst(chunks: seq<Bytes>, frames: seq<Frame>, s: Bytes)
    requires AllDelimit(chunks, frames) && chunks != [] && s < chunks[0]
    ensures CutShape(chunks, frames, |s|, ReadAll(s))
  {
    assert Delimits(chunks[0], frames[0]);
    assert s == chunks[0][..|s|];
    if s != [] { assert ReadOne(s).Bad?; }
  }

  lemma CutShapeLater(chunks: seq<Bytes>, frames: seq<Frame>, k: nat, r: (seq<Frame>, ReadResult))
    requires |chunks| == |frames| && chunks != [] && |chunks[0]| <= k
    requires CutShape(chunks[1..], frames[1..], k - |chunks[0]|, r)
    ensures CutShape(chunks, frames, k, ([frames[0]] + r.0, r.1))
  {
    var j := Whole(chunks[1..], k - |chunks[0]|);
    assert chunks[..j + 1][1..] == chunks[1..][..j];
    assert [frames[0]] + frames[1..][..j] == frames[..j + 1];
  }

  /** The first chunk reads as the first frame and leaves the rest. */
  lemma FirstReads(chunks: seq<Bytes>, frames: seq<Frame>, s: Bytes, rest: Bytes)
    requires AllDelimit(chunks, frames) && chunks != [] && s == chunks[0] + rest
    ensures ReadOne(s) == Got(frames[0], rest)
  {
    assert Delimits(chunks[0], frames[0]);
  }

  /** A stream cut anywhere yields exactly the frames that arrived whole; the end is
      clean precisely when the cut falls between two frames. */
  lemma {:induction false} CutChunks(chunks: seq<Bytes>, frames: seq<Frame>, s: Bytes)
    requires AllDelimit(chunks, frames)
    requires s <= Flatten(chunks)
    ensures CutShape(chunks, frames, |s|, ReadAll(s))
    decreases |chunks|
  {
    if chunks == [] {
    } else if |s| < |chunks[0]| {
      CutInFirst(chunks, frames, s);
    } else {
      var rest := s[|chunks[0]|..];
      assert s == chunks[0] + rest && rest <= Flatten(chunks[1..]);
      CutChunks(chunks[1..], frames[1..], rest);
      FirstReads(chunks, frames, s, rest);
      ReadAllStep(s, frames[0], rest);
      CutShapeLater(chunks, frames, |s|, ReadAll(rest));
    }
  }

  lemma {:induction false} WholeOfAll(chunks: seq<Bytes>)
    requires forall i | 0 <= i < |chunks| :: chunks[i] != []
    ensures Whole(chunks, |Flatten(chunks)|) == |chunks|
  {
    if chunks != [] { WholeOfAll(chunks[1..]); }
  }

  /** `chunks` are the encodings of `ms`, one each. */
  ghost predicate AreEncodings(ms: seq<Message>, chunks: seq<Bytes>) {
    |ms| == |chunks| && forall i | 0 <= i < |ms| :: Encode(ms[i]) == Ok(chunks[i])
  }

  ghost predicate AreReceived(ms: seq<Message>, frames: seq<Frame>) {
    |ms| == |frames| && forall i | 0 <= i < |ms| :: frames[i] == Received(ms[i])
  }

  lemma EncodingsDelimit(ms: seq<Message>, chunks: seq<Bytes>, frames: seq<Frame>)
    requires AreEncodings(ms, chunks) && AreReceived(ms, frames)
    ensures AllDelimit(chunks, frames)
  {
    forall i | 0 <= i < |chunks| ensures Delimits(chunks[i], frames[i]) {
      EncodedDelimits(ms[i]);
    }
  }

  /** Reading a concatenation of encodings gives every message in order, then a clean end. */
  lemma StreamRoundTrip(ms: seq<Message>, chunks: seq<Bytes>, frames: seq<Frame>)
    requires AreEncodings(ms, chunks) && AreReceived(ms, frames)
    ensures ReadAll(Flatten(chunks)) == (frames, Eof)
  {
    var s := Flatten(chunks);
    CutStream(ms, chunks, frames, s);
    EncodingsDelimit(ms, chunks, frames);
    WholeOfAll(chunks);
    assert chunks[..|chunks|] == chunks && frames[..|frames|] == frames;
    assert ReadAll(s).1.Eof?;
  }

  /** The same stream cut after any number of bytes: never a frame that was not sent, and a
      clean end exactly at the message boundaries. */
  lemma CutStream(ms: seq<Message>, chunks: seq<Bytes>, frames: seq<Frame>, s: Bytes)
    requires AreEncodings(ms, chunks) && AreReceived(ms, frames)
    requires s <= Flatten(chunks)
    ensures CutShape(chunks, frames, |s|, ReadAll(s))
  {
    EncodingsDelimit(ms, chunks, frames);
    CutChunks(chunks, frames, s);
  }

  lemma NewlineExtends(s: Bytes, more: Bytes)
    requires IndexOf(s, NEWLINE) < |s|
    ensures IndexOf(s + more, NEWLINE) == IndexOf(s, NEWLINE)
  {
    var i, all := IndexOf(s, NEWLINE), s + more;
    assert forall j | 0 <= j <= i :: all[j] == s[j];
  }

  lemma ReadSizedExtends(verb: string, args: string, t: Bytes, more: Bytes)
    requires ReadSized(verb, args, t).Got?
    ensures var r := ReadSized(verb, args, t);
            ReadSized(verb, args, t + more) == Got(r.frame, r.rest + more)
  {
    var all := t + more;
    assert all[..4] == t[..4];
    var n := FromBigEndian(t[..4]);
    assert all[4..4 + n] == t[4..4 + n];
    assert all[4 + n..] == t[4 + n..] + more;
  }

  lemma ReadBodyExtends(line: Bytes, t: Bytes, more: Bytes)
    requires ReadBody(line, t).Got?
    ensures ReadBody(line, t + more) == Got(ReadBody(line, t).frame, ReadBody(line, t).rest + more)
  {
    var (verb, args) := Partition(ToText(line));
    ReadSizedExtends(verb, Strip(args), t, more);
  }

  /** Reading a stream whose header line `header` ends at its first newline. */
  lemma ReadOneJoin(header: Bytes, t: Bytes)
    requires 0 < |header| <= MAX_HEADER_BYTES && IndexOf(header, NEWLINE) == |header| - 1
    ensures ReadOne(header + t) == ReadBody(RStripLineEnd(header), t)
  {
    NewlineExtends(header, t);
    assert (header + t)[..|header|] == header && (header + t)[|header|..] == t;
  }

  lemma Regroup(a: Bytes, b: Bytes, c: Bytes)
    ensures (a + b) + c == a + (b + c)
  {
  }

  /** A stream with a newline in it, taken apart at the first. */
  lemma FirstLine(s: Bytes) returns (line: Bytes, tail: Bytes)
    requires IndexOf(s, NEWLINE) < |s|
    ensures s == line + [NEWLINE] + tail && NEWLINE !in line && |line| == IndexOf(s, NEWLINE)
    ensures s[..|line| + 1] == line + [NEWLINE] && s[|line| + 1..] == tail
  {
    var i := IndexOf(s, NEWLINE);
    line, tail := s[..i], s[i + 1..];
  }

  lemma ReadOneHeader(s: Bytes) returns (header: Bytes, t: Bytes)
    requires ReadOne(s).Got?
    ensures s == header + t
    ensures 0 < |header| <= MAX_HEADER_BYTES && IndexOf(header, NEWLINE) == |header| - 1
  {
    var line;
    line, t := FirstLine(s);
    header := line + [NEWLINE];
    FirstNewline(line, []);
    assert header + [] == header;
  }

  /** More bytes never change a frame that was already read. */
  lemma ReadOneExtends(s: Bytes, more: Bytes)
    requires ReadOne(s).Got?
    ensures ReadOne(s + more) == Got(ReadOne(s).frame, ReadOne(s).rest + more)
  {
    var header, t := ReadOneHeader(s);
    var line := RStripLineEnd(header);
    assert ReadOne(s) == ReadBody(line, t) by { ReadOneJoin(header, t); }
    assert ReadOne(s + more) == ReadBody(line, t + more) by {
      Regroup(header, t, more);
      ReadOneJoin(header, t + more);
    }
    assert ReadBody(line, t + more) == Got(ReadBody(line, t).frame, ReadBody(line, t).rest + more) by {
      ReadBodyExtends(line, t, more);
    }
  }

  /** On arbitrary bytes, valid or not: what a prefix yields is a prefix of what the whole yields. */
  lemma {:induction false} PrefixYieldsPrefix(s: Bytes, more: Bytes)
    ensures ReadAll(s).0 <= ReadAll(s + more).0
    decreases |s|
  {
    if ReadOne(s).Got? {
      ReadOneExtends(s, more);
      PrefixYieldsPrefix(ReadOne(s).rest, more);
    }
  }

  // ---------- subscription patterns on the wire ----------

  /** A pattern that survives the trip unchanged and that the server accepts. */
  predicate Carries(verb: string, pattern: string) {
    pattern != "" && Strip(pattern) == pattern && Encodable(Message(verb, pattern, []))
  }

  /** Exactly the carried patterns arrive as the non-empty text that was sent. */
  lemma CarriedUnchanged(verb: string, pattern: string, rest: Bytes)
    requires Encodable(Message(verb, pattern, []))
    ensures ReadOne(Wire(Message(verb, pattern, [])) + rest) == Got(Frame(verb, pattern, []), rest)
            && pattern != ""
            <==> Carries(verb, pattern)
  {
    ReadEncoded(Message(verb, pattern, []), rest);
  }

  // ---------- what exactly can be sent, and how it looks ----------

  lemma {:induction false} RStripMeans(s: string) returns (k: nat)
    ensures k <= |s| && RStrip(s) == s[..k]
    ensures k > 0 ==> !IsSpace(s[k - 1])
    ensures forall i | k <= i < |s| :: IsSpace(s[i])
  {
    if s != [] && IsSpace(s[|s| - 1]) {
      k := RStripMeans(s[..|s| - 1]);
    } else {
      k := |s|;
    }
  }

  lemma {:induction false} LStripMeans(s: string) returns (k: nat)
    ensures k <= |s| && LStrip(s) == s[k..]
    ensures k < |s| ==> !IsSpace(s[k])
    ensures forall i | 0 <= i < k :: IsSpace(s[i])
  {
    if s != [] && IsSpace(s[0]) {
      k := LStripMeans(s[1..]);
      k := k + 1;
    } else {
      k := 0;
    }
  }

  /** `str.strip`: the part between the first and the last character that is no space. */
  lemma StripMeans(s: string) returns (i: nat, j: nat)
    ensures i <= j <= |s| && Strip(s) == s[i..j]
    ensures i < j ==> !IsSpace(s[i]) && !IsSpace(s[j - 1])
    ensures forall k | 0 <= k < i || j <= k < |s| :: IsSpace(s[k])
  {
    j := RStripMeans(s);
    i := LStripMeans(s[..j]);
  }

  /** Which ASCII characters are spaces. */
  lemma AsciiSpaces(c: char)
    requires c as int < 128
    ensures IsSpace(c) <==> c == ' ' || 9 <= c as int <= 13 || 28 <= c as int <= 31
  {
  }

  /** The header line, without its newline. */
  function Line(verb: string, args: string): string {
    if RStrip(args) == "" then verb else verb + " " + RStrip(args)
  }

  lemma AsciiJoin(a: string, b: string)
    ensures IsAscii(a + b) <==> IsAscii(a) && IsAscii(b)
  {
    assert forall c | c in a :: c in a + b;
    assert forall c | c in b :: c in a + b;
  }

  lemma LineAscii(verb: string, args: string)
    requires IsVerb(verb)
    ensures IsAscii(Line(verb, args) + "\n") <==> IsAscii(RStrip(args))
  {
    var line, text, space, end := Line(verb, args), RStrip(args), " ", "\n";
    VerbIsPlain(verb);
    assert IsAscii(space) && IsAscii(end) by {
      assert forall c | c in space :: c == ' ';
      assert forall c | c in end :: c == '\n';
    }
    AsciiJoin(line, end);
    if text != "" {
      AsciiJoin(verb + space, text);
      AsciiJoin(verb, space);
    }
  }

  /** Exactly these messages can be encoded. */
  lemma EncodableIff(m: Message)
    ensures Encodable(m) <==>
              && m.verb in {"HELLO", "PUB", "SUB", "UNSUB", "EVT", "BYE"}
              && '\n' !in m.args && '\r' !in m.args
              && |m.body| <= 1048576
              && (forall c | c in RStrip(m.args) :: c as int < 128)
              && |Line(m.verb, m.args)| + 1 <= 4096
  {
    if IsVerb(m.verb) && '\n' !in m.args && '\r' !in m.args {
      HeaderShape(m.verb, m.args);
      LineAscii(m.verb, m.args);
    }
  }

  /** And this is what they look like: the line, a newline, the length of the body, most
      significant byte first, and the body. */
  lemma WireLooks(m: Message)
    requires Encodable(m)
    ensures var line, n, w := Line(m.verb, m.args), |m.body|, Wire(m);
            && |w| == |line| + 5 + n
            && (forall i | 0 <= i < |line| :: w[i] == line[i] as int)
            && w[|line|] == 10
            && w[|line| + 1..|line| + 5] == LengthField(n)
            && w[|line| + 5..] == m.body
  {
    WireShape(m);
    HeaderShape(m.verb, m.args);
    var line, w := Line(m.verb, m.args), Wire(m);
    assert forall i | 0 <= i < |line| :: w[i] == ToBytes(line)[i];
    assert w[|line| + 1..|line| + 5] == BigEndian(|m.body|);
    assert w[|line| + 5..] == m.body;
  }

  /** Visible ASCII. */
  predicate Printable(p: string) {
    forall c | c in p :: 33 <= c as int <= 126
  }

  lemma PrintableStrips(p: string)
    requires Printable(p)
    ensures RStrip(p) == p && Strip(p) == p
  {
    if p != [] { assert p[0] in p && p[|p| - 1] in p; }
  }

  /** Every non-empty visible text can be sent behind every verb, up to the length that fits. */
  lemma PrintableCarriedIff(verb: string, p: string)
    requires Printable(p) && p != ""
    ensures Carries(verb, p) <==>
              verb in {"HELLO", "PUB", "SUB", "UNSUB", "EVT", "BYE"} && |verb| + |p| <= 4094
  {
    PrintableStrips(p);
    EncodableIff(Message(verb, p, []));
  }

  /** The four bytes of a length. */
  function LengthField(n: int): seq<int> {
    [n / 16777216, n / 65536 % 256, n / 256 % 256, n % 256]
  }

  lemma LengthBytes(b: Bytes)
    requires |b| == 4
    ensures b == LengthField(FromBigEndian(b))
  {
    var b0: int, b1: int, b2: int, b3: int := b[0], b[1], b[2], b[3];
    var n := FromBigEndian(b);
    var top := b0 * 256 + b1;
    var high := top * 256 + b2;
    assert n == high * 256 + b3 && n / 256 == high && n % 256 == b3;
    assert high / 256 == top && high % 256 == b2 && top / 256 == b0 && top % 256 == b1;
    assert n / 65536 == n / 256 / 256 && n / 16777216 == n / 65536 / 256;
  }

  lemma SizedMeans(verb: string, args: string, tail: Bytes, f: Frame, rest: Bytes)
    requires ReadSized(verb, args, tail) == Got(f, rest)
    ensures f.verb == verb && f.args == args && |f.body| <= 1048576
    ensures tail == LengthField(|f.body|) + f.body + rest
  {
    LengthBytes(tail[..4]);
    assert tail == tail[..4] + tail[4..];
  }

  lemma LineEndStripped(line: Bytes)
    ensures RStripLineEnd(line + [NEWLINE]) == RStripLineEnd(line)
  {
    assert (line + [NEWLINE])[..|line|] == line;
  }

  /** The text of a header line: a known verb, alone or with a space and the args. */
  ghost predicate HeaderSays(text: string, verb: string, args: string) {
    && verb in {"HELLO", "PUB", "SUB", "UNSUB", "EVT", "BYE"}
    && (|| (text == verb && args == "")
        || exists raw :: text == verb + " " + raw && args == Strip(raw))
  }

  lemma HeaderMeans(text: string)
    requires IsVerb(Partition(text).0)
    ensures HeaderSays(text, Partition(text).0, Strip(Partition(text).1))
  {
    var k := IndexOf(text, ' ');
    var (verb, raw) := Partition(text);
    if k < |text| {
      assert text == verb + " " + raw;
    } else {
      assert text == verb && Strip("") == "";
    }
  }

  lemma BodyMeans(line: Bytes, tail: Bytes, f: Frame, rest: Bytes)
    requires ReadBody(line, tail) == Got(f, rest)
    ensures IsAsciiBytes(line) && HeaderSays(ToText(line), f.verb, f.args) && |f.body| <= 1048576
    ensures tail == LengthField(|f.body|) + f.body + rest
  {
    var text := ToText(line);
    HeaderMeans(text);
    SizedMeans(Partition(text).0, Strip(Partition(text).1), tail, f, rest);
  }

  /** What makes a frame out of bytes: a line of a known verb and its args, four bytes of length,
      most significant first, as many of body, and nothing beyond them. */
  lemma GotMeans(s: Bytes, f: Frame, rest: Bytes) returns (line: Bytes)
    requires ReadOne(s) == Got(f, rest)
    ensures s == line + [10] + (LengthField(|f.body|) + f.body + rest)
    ensures 10 !in line && |line| + 1 <= 4096 && |f.body| <= 1048576
    ensures IsAsciiBytes(RStripLineEnd(line)) && HeaderSays(ToText(RStripLineEnd(line)), f.verb, f.args)
  {
    var tail;
    line, tail := FirstLine(s);
    LineEndStripped(line);
    BodyMeans(RStripLineEnd(line), tail, f, rest);
  }

  lemma HeaderReads(text: string, verb: string, args: string)
    requires HeaderSays(text, verb, args)
    ensures Partition(text).0 == verb && Strip(Partition(text).1) == args && text != ""
  {
    VerbIsPlain(verb);
    if text == verb && args == "" {
      PartitionAtSpace(verb, "");
    } else {
      var raw :| text == verb + " " + raw && args == Strip(raw);
      PartitionAtSpace(verb, raw);
    }
  }

  lemma SizedReads(verb: string, args: string, body: Bytes, rest: Bytes)
    requires |body| <= 1048576
    ensures ReadSized(verb, args, BigEndian(|body|) + body + rest) == Got(Frame(verb, args, body), rest)
  {
    var sized := BigEndian(|body|) + body;
    ReadSizedOf(verb, args, body, sized + rest);
    assert (sized + rest)[|sized|..] == rest;
  }

  lemma LineReads(line: Bytes, tail: Bytes)
    requires 10 !in line && |line| + 1 <= 4096
    ensures ReadOne(line + [10] + tail) == ReadBody(RStripLineEnd(line), tail)
  {
    var s := line + [10] + tail;
    FirstNewline(line, tail);
    LineEndStripped(line);
    assert s[..|line| + 1] == line + [NEWLINE] && s[|line| + 1..] == tail;
  }

  lemma BodyReads(line: Bytes, verb: string, args: string, tail: Bytes)
    requires IsAsciiBytes(line) && HeaderSays(ToText(line), verb, args)
    ensures ReadBody(line, tail) == ReadSized(verb, args, tail)
  {
    HeaderReads(ToText(line), verb, args);
  }

  /** And everything made like that is read as the frame, also where `encode` would write the line
      differently, such as with a carriage return at its end. */
  lemma MadeLikeThatReads(line: Bytes, f: Frame, rest: Bytes)
    requires 10 !in line && |line| + 1 <= 4096 && |f.body| <= 1048576
    requires IsAsciiBytes(RStripLineEnd(line)) && HeaderSays(ToText(RStripLineEnd(line)), f.verb, f.args)
    ensures LengthField(|f.body|) == BigEndian(|f.body|)
    ensures ReadOne(line + [10] + (BigEndian(|f.body|) + f.body + rest)) == Got(f, rest)
  {
    var tail := BigEndian(|f.body|) + f.body + rest;
    LineReads(line, tail);
    BodyReads(RStripLineEnd(line), f.verb, f.args, tail);
    SizedReads(f.verb, f.args, f.body, rest);
  }
}
