/** The bytes on the two sockets of a connection, against the frames and events of `BusSystem`
    (decnet/bus/unix_client.py, decnet/bus/unix_server.py, decnet/bus/protocol.py). */
module BusChannel {
  import opened Common
  import opened WireFrames
  import opened BusSystem
  import opened BusDelivery

  // ---------- frames as messages ----------

  function MessageOf(f: ClientFrame): Message {
    match f
    case Hello(name) => Message("HELLO", name, [])
    case Sub(pattern) => Message("SUB", pattern, [])
    case Unsub(pattern) => Message("UNSUB", pattern, [])
    case Pub(topic, payload) => Message("PUB", topic, payload)
  }

  /** Which bodies `decode_body` takes for a JSON object; nothing is assumed about it. */
  type Decoder = Bytes -> bool

  /** What the broker's `_dispatch` takes a frame for; `None` for BYE and for what it refuses. */
  function Meaning(decodes: Decoder, frame: Frame): Option<ClientFrame> {
    if frame.verb == "HELLO" then Some(Hello(frame.args))
    else if frame.verb == "SUB" && frame.args != "" then Some(Sub(frame.args))
    else if frame.verb == "UNSUB" then Some(Unsub(frame.args))
    else if frame.verb == "PUB" && frame.args != "" && (frame.body == [] || decodes(frame.body)) then
      Some(Pub(frame.args, frame.body))
    else None
  }

  predicate FrameTravels(f: ClientFrame) {
    match f
    case Hello(name) => name == "" || Carries("HELLO", name)
    case Sub(pattern) => Carries("SUB", pattern)
    case Unsub(pattern) => Carries("UNSUB", pattern)
    case Pub(topic, payload) => Travels("PUB", topic, payload)
  }

  /** The broker can decode the body. */
  predicate Readable(decodes: Decoder, f: ClientFrame) {
    f.Pub? ==> f.payload == [] || decodes(f.payload)
  }

  lemma TravelsMeansEncodable(verb: string, topic: string, payload: Payload)
    requires Travels(verb, topic, payload)
    ensures Encodable(Message(verb, topic, payload))
    ensures Received(Message(verb, topic, payload)) == Frame(verb, topic, payload)
  {
  }

  lemma BareHello()
    ensures Encodable(Message("HELLO", "", [])) && Received(Message("HELLO", "", [])) == Frame("HELLO", "", [])
  {
    HeaderShape("HELLO", "");
    VerbIsPlain("HELLO");
  }

  /** Everything the client side can have sent reads back as what it is. */
  lemma MeaningOfReceived(decodes: Decoder, f: ClientFrame)
    requires FrameTravels(f) && Readable(decodes, f)
    ensures Encodable(MessageOf(f)) && Meaning(decodes, Received(MessageOf(f))) == Some(f)
  {
    match f {
      case Hello(name) => if name == "" { BareHello(); }
      case Pub(topic, payload) => TravelsMeansEncodable("PUB", topic, payload);
      case _ =>
    }
  }

  // ---------- everything in flight travels ----------

  predicate PatternTravels(p: string) {
    Carries("SUB", p) && Carries("UNSUB", p)
  }

  ghost predicate InFlightOk(conn: Conn) {
    && (forall f | f in conn.toServer :: FrameTravels(f))
    && (forall p | p in conn.deferred :: PatternTravels(p))
    && (forall i | 0 <= i < |conn.subs| :: PatternTravels(conn.subs[i].pattern))
  }

  lemma LocalInFlight(s: State, step: Step)
    requires Enabled(s, step) && IsLocal(step) && InFlightOk(s.conns[step.c])
    ensures InFlightOk(ApplyLocal(s, step))
  {
    var conn, conn' := s.conns[step.c], ApplyLocal(s, step);
    match step {
      case RunDeferred(_, task) => assert conn.deferred[task] in conn.deferred;
      case _ =>
    }
  }

  lemma StepInFlight(s: State, step: Step, c: ConnId)
    requires Enabled(s, step) && c in s.conns && InFlightOk(s.conns[c])
    ensures c in Apply(s, step).conns && InFlightOk(Apply(s, step).conns[c])
  {
    match step {
      case ServerRead(d) => ServerReadEffect(s, d, c);
      case ServerPublish(_, _) =>
      case Connect(_, _) =>
      case _ => if step.c == c { LocalInFlight(s, step); }
    }
  }

  lemma {:induction false} InFlightTravels(steps: seq<Step>, c: ConnId)
    requires Has(steps, c)
    ensures InFlightOk(ConnAfter(steps, c))
  {
    var before, step := steps[..|steps| - 1], steps[|steps| - 1];
    if Has(before, c) {
      InFlightTravels(before, c);
      StepInFlight(Run(before).value, step, c);
    }
  }

  // ---------- the socket to the broker ----------

  /** The frames the broker acts on: up to the first BYE or the first it refuses. */
  function Understood(decodes: Decoder, frames: seq<Frame>): seq<ClientFrame> {
    if frames == [] || Meaning(decodes, frames[0]).None? then []
    else [Meaning(decodes, frames[0]).value] + Understood(decodes, frames[1..])
  }

  /** What the broker makes of the bytes it received. */
  function Pending(decodes: Decoder, received: Bytes): seq<ClientFrame> {
    Understood(decodes, ReadAll(received).0)
  }

  lemma PendingStep(decodes: Decoder, received: Bytes)
    ensures var r := ReadOne(received);
            Pending(decodes, received) ==
              if r.Got? && Meaning(decodes, r.frame).Some?
              then [Meaning(decodes, r.frame).value] + Pending(decodes, r.rest) else []
  {
    var r := ReadOne(received);
    if r.Got? {
      ReadAllStep(received, r.frame, r.rest);
      assert ([r.frame] + ReadAll(r.rest).0)[1..] == ReadAll(r.rest).0;
    }
  }

  /** `chunks` are the bytes of the frames, one chunk each. */
  ghost predicate AreBytesOf(fs: seq<ClientFrame>, chunks: seq<Bytes>) {
    |fs| == |chunks| && forall i | 0 <= i < |fs| :: Encode(MessageOf(fs[i])) == Ok(chunks[i])
  }

  lemma {:induction false} UnderstoodPrefix(decodes: Decoder, frames: seq<Frame>, fs: seq<ClientFrame>)
    requires |frames| == |fs| && forall i | 0 <= i < |fs| :: Meaning(decodes, frames[i]) == Some(fs[i])
    ensures Understood(decodes, frames) == fs
  {
    if frames != [] {
      UnderstoodPrefix(decodes, frames[1..], fs[1..]);
      assert fs == [fs[0]] + fs[1..];
    }
  }

  lemma BytesRead(decodes: Decoder, fs: seq<ClientFrame>, chunks: seq<Bytes>, received: Bytes)
    requires forall f | f in fs :: FrameTravels(f) && Readable(decodes, f)
    requires AreBytesOf(fs, chunks) && received <= Flatten(chunks)
    ensures Pending(decodes, received) == fs[..Whole(chunks, |received|)]
    ensures ReadAll(received).1.Eof? <==> |received| == |Flatten(chunks[..Whole(chunks, |received|)])|
  {
    var ms := seq(|fs|, i requires 0 <= i < |fs| => MessageOf(fs[i]));
    var frames := seq(|fs|, i requires 0 <= i < |fs| => Received(MessageOf(fs[i])));
    CutStream(ms, chunks, frames, received);
    var j := Whole(chunks, |received|);
    forall i | 0 <= i < j ensures Meaning(decodes, frames[..j][i]) == Some(fs[..j][i]) {
      assert fs[i] in fs;
      MeaningOfReceived(decodes, fs[i]);
    }
    UnderstoodPrefix(decodes, frames[..j], fs[..j]);
  }

  /** The abstract channel is what is on the wire: whatever part of the bytes has arrived at the
      broker, its reader sees exactly the frames of `toServer` that are complete, in order, and
      a clean end exactly between two frames. */
  lemma ChannelIsBytes(decodes: Decoder, steps: seq<Step>, c: ConnId, chunks: seq<Bytes>, received: Bytes)
    requires Has(steps, c) && forall f | f in ConnAfter(steps, c).toServer :: Readable(decodes, f)
    requires AreBytesOf(ConnAfter(steps, c).toServer, chunks) && received <= Flatten(chunks)
    ensures var j := Whole(chunks, |received|);
            && Pending(decodes, received) == ConnAfter(steps, c).toServer[..j]
            && (ReadAll(received).1.Eof? <==> |received| == |Flatten(chunks[..j])|)
  {
    InFlightTravels(steps, c);
    BytesRead(decodes, ConnAfter(steps, c).toServer, chunks, received);
  }

  // ---------- reading bytes is taking steps ----------

  /** The broker's `_dispatch` of a list of frames from `c`, in order. */
  function DispatchAll(s: State, c: ConnId, fs: seq<ClientFrame>): (r: State)
    requires c in s.conns
    ensures c in r.conns && r.conns[c].toServer == s.conns[c].toServer
  {
    if fs == [] then s else Dispatched(DispatchAll(s, c, fs[..|fs| - 1]), c, fs[|fs| - 1])
  }

  lemma {:induction false} DispatchFirst(s: State, c: ConnId, f: ClientFrame, rest: seq<ClientFrame>)
    requires c in s.conns
    ensures DispatchAll(s, c, [f] + rest) == DispatchAll(Dispatched(s, c, f), c, rest)
  {
    var all := [f] + rest;
    if rest == [] {
      assert all[..0] == [] && all == [f];
    } else {
      var m := |rest| - 1;
      assert all[..|all| - 1] == [f] + rest[..m];
      DispatchFirst(s, c, f, rest[..m]);
    }
  }

  /** The first `j` frames of `c` taken off the channel. */
  function Popped(s: State, c: ConnId, j: nat): State
    requires c in s.conns && j <= |s.conns[c].toServer|
  {
    s.(conns := s.conns[c := s.conns[c].(toServer := s.conns[c].toServer[j..])])
  }

  lemma DispatchIgnoresChannel(s: State, c: ConnId, f: ClientFrame, j: nat)
    requires c in s.conns && j <= |s.conns[c].toServer|
    ensures Dispatched(Popped(s, c, j), c, f) == Popped(Dispatched(s, c, f), c, j)
  {
    assert Dispatched(Popped(s, c, j), c, f).conns == Popped(Dispatched(s, c, f), c, j).conns;
  }

  lemma PopNext(s: State, c: ConnId, j: nat)
    requires c in s.conns && j < |s.conns[c].toServer|
    ensures DoServerRead(Popped(s, c, j), c) == Dispatched(Popped(s, c, j + 1), c, s.conns[c].toServer[j])
  {
    var one := Popped(s, c, j);
    var fs := s.conns[c].toServer;
    assert one.conns[c].toServer[0] == fs[j] && one.conns[c].toServer[1..] == fs[j + 1..];
    assert Popped(one, c, 1) == Popped(s, c, j + 1);
  }

  function Reads(c: ConnId, j: nat): (r: seq<Step>)
    ensures |r| == j
  {
    seq(j, _ => ServerRead(c))
  }

  /** One more frame, on the state that reading `j` frames gives. */
  lemma ReadNext(s: State, c: ConnId, j: nat)
    requires c in s.conns && j < |s.conns[c].toServer|
    ensures c in AfterReads(s, c, j).conns && AfterReads(s, c, j).conns[c].toServer != []
    ensures DoServerRead(AfterReads(s, c, j), c) == AfterReads(s, c, j + 1)
  {
    var fs := s.conns[c].toServer;
    assert fs[..j + 1][..j] == fs[..j];
    var done := DispatchAll(s, c, fs[..j]);
    PopNext(done, c, j);
    DispatchIgnoresChannel(done, c, fs[j], j + 1);
  }

  lemma RunMore(steps: seq<Step>, c: ConnId, s: State, s': State)
    requires Run(steps) == Some(s) && c in s.conns && s.conns[c].toServer != [] && s' == DoServerRead(s, c)
    ensures Run(steps + [ServerRead(c)]) == Some(s')
  {
    assert (steps + [ServerRead(c)])[..|steps|] == steps;
  }

  /** The state after the first `j` frames of `c` were read. */
  function AfterReads(s: State, c: ConnId, j: nat): State
    requires c in s.conns && j <= |s.conns[c].toServer|
  {
    Popped(DispatchAll(s, c, s.conns[c].toServer[..j]), c, j)
  }

  lemma {:induction false} ReadsAreDispatches(steps: seq<Step>, c: ConnId, s: State, j: nat)
    requires Run(steps) == Some(s) && c in s.conns && j <= |s.conns[c].toServer|
    ensures Run(steps + Reads(c, j)) == Some(AfterReads(s, c, j))
  {
    if j == 0 {
      assert steps + Reads(c, 0) == steps;
      assert Popped(s, c, 0) == s;
    } else {
      var m := j - 1;
      ReadsAreDispatches(steps, c, s, m);
      ReadNext(s, c, m);
      RunMore(steps + Reads(c, m), c, AfterReads(s, c, m), AfterReads(s, c, j));
      assert steps + Reads(c, j) == steps + Reads(c, m) + [ServerRead(c)];
    }
  }

  /** The broker's reader loop on the bytes that arrived: dispatching every frame it understands
      is a run of the system, with one `ServerRead` for each complete frame. */
  lemma BytesAreServerReads(decodes: Decoder, steps: seq<Step>, c: ConnId, chunks: seq<Bytes>, received: Bytes)
    requires Has(steps, c) && forall f | f in ConnAfter(steps, c).toServer :: Readable(decodes, f)
    requires AreBytesOf(ConnAfter(steps, c).toServer, chunks) && received <= Flatten(chunks)
    ensures var j := Whole(chunks, |received|);
            Run(steps + Reads(c, j)) ==
              Some(Popped(DispatchAll(Run(steps).value, c, Pending(decodes, received)), c, j))
  {
    ChannelIsBytes(decodes, steps, c, chunks, received);
    ReadsAreDispatches(steps, c, Run(steps).value, Whole(chunks, |received|));
  }

  // ---------- the socket to the client ----------

  /** The body that the broker gives the EVT frame of each event: topic, payload, type, id and time
      wrapped up as JSON. Nothing is assumed about it. */
  type Envelopes = nat -> Bytes

  function EventMessage(envelope: Envelopes, accepted: seq<Accepted>, e: nat): Message
    requires e < |accepted|
  {
    Message("EVT", accepted[e].topic, envelope(e))
  }

  /** PUB and EVT are equally long, so what fits behind one fits behind the other. */
  lemma PubTravelsAsEvt(topic: string, payload: Payload)
    requires Travels("PUB", topic, payload)
    ensures Travels("EVT", topic, payload)
  {
    HeaderShape("PUB", topic);
    HeaderShape("EVT", topic);
    VerbIsPlain("EVT");
    var tail := if RStrip(topic) == "" then "\n" else " " + RStrip(topic) + "\n";
    assert HeaderText("PUB", topic) + "\n" == "PUB" + tail && HeaderText("EVT", topic) + "\n" == "EVT" + tail;
    AsciiJoin("PUB", tail);
    AsciiJoin("EVT", tail);
  }

  lemma {:induction false} AcceptedTravel(steps: seq<Step>)
    requires Run(steps).Some?
    ensures forall ev | ev in Run(steps).value.accepted :: Travels("EVT", ev.topic, ev.payload)
  {
    if steps != [] {
      var before, step := steps[..|steps| - 1], steps[|steps| - 1];
      var s := Run(before).value;
      AcceptedTravel(before);
      if step.ServerRead? && s.conns[step.c].toServer[0].Pub? {
        InFlightTravels(before, step.c);
        var frame := s.conns[step.c].toServer[0];
        assert frame in s.conns[step.c].toServer;
        PubTravelsAsEvt(frame.topic, frame.payload);
      }
    }
  }

  /** `chunks` are the EVT frames of the events on the socket to the client. */
  ghost predicate AreEventBytes(envelope: Envelopes, events: seq<nat>, accepted: seq<Accepted>, chunks: seq<Bytes>) {
    && |events| == |chunks| && (forall i | 0 <= i < |events| :: events[i] < |accepted|)
    && forall i | 0 <= i < |events| :: Encode(EventMessage(envelope, accepted, events[i])) == Ok(chunks[i])
  }

  function EventFrame(envelope: Envelopes, accepted: seq<Accepted>, e: nat): Frame
    requires e < |accepted|
  {
    Frame("EVT", accepted[e].topic, envelope(e))
  }

  /** Whatever part of the bytes has arrived at the client, its reader sees exactly the complete
      events of `toClient`, in order, each with the topic that the broker accepted and the body
      that it gave the event. */
  lemma EventsAreBytes(envelope: Envelopes, steps: seq<Step>, c: ConnId, chunks: seq<Bytes>, received: Bytes)
    requires Has(steps, c) && AreEventBytes(envelope, ConnAfter(steps, c).toClient, Run(steps).value.accepted, chunks)
    requires received <= Flatten(chunks)
    ensures var j := Whole(chunks, |received|);
            var accepted, events := Run(steps).value.accepted, ConnAfter(steps, c).toClient;
            && |ReadAll(received).0| == j
            && (forall i | 0 <= i < j :: ReadAll(received).0[i] == EventFrame(envelope, accepted, events[i]))
            && (ReadAll(received).1.Eof? <==> |received| == |Flatten(chunks[..j])|)
  {
    var accepted, events := Run(steps).value.accepted, ConnAfter(steps, c).toClient;
    var ms := seq(|events|, i requires 0 <= i < |events| => EventMessage(envelope, accepted, events[i]));
    var frames := seq(|events|, i requires 0 <= i < |events| => EventFrame(envelope, accepted, events[i]));
    AcceptedTravel(steps);
    forall i | 0 <= i < |events| ensures frames[i] == Received(ms[i]) {
      assert accepted[events[i]] in accepted;
    }
    CutStream(ms, chunks, frames, received);
  }
}
