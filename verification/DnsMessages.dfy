/** Queries and responses of the canary name server (decnet/canary/dns_server.py;
    sections 4.1.1 and 4.1.2 of RFC 1035). */
module DnsMessages {
  import opened Text
  import opened WireFrames
  import opened DnsNames

  type Word = w: int | 0 <= w < 0x1_0000

  /** The four-bit response code of the header. */
  type Rcode = r: int | 0 <= r < 16

  datatype Query = Query(txid: Word, qname: string, qtype: Word, qclass: Word, flags: Word)

  /** The octets of `answer_ip`; `NoAnswer` when none was given. */
  datatype AnswerIp = NoAnswer | AnswerIp(octets: Bytes)

  const HEADER_SIZE := 12

  function WordAt(buf: Bytes, i: nat): Word
    requires i + 2 <= |buf|
  {
    buf[i] as int * 256 + buf[i + 1] as int
  }

  function WordBytes(w: Word): (b: Bytes)
    ensures |b| == 2
  {
    [w as int / 256, w as int % 256]
  }

  function ParseQuery(packet: Bytes): Result<Query> {
    if |packet| < HEADER_SIZE then Fail(PacketTooShort)
    else if WordAt(packet, 4) != 1 then Fail(QuestionCount)
    else
      match Decoded(packet, HEADER_SIZE)
      case Fail(e) => Fail(e)
      case Good((qname, consumed)) =>
        var pos := HEADER_SIZE + consumed;
        if pos + 4 > |packet| then Fail(TruncatedQuestion)
        else Good(Query(WordAt(packet, 0), qname, WordAt(packet, pos), WordAt(packet, pos + 2), WordAt(packet, 2)))
  }

  /** Response and authoritative bits, with the response code: no bit is in both. */
  function ResponseFlags(rcode: Rcode): Word {
    0x8400 + rcode
  }

  predicate Answers(q: Query, rcode: Rcode, answer: AnswerIp) {
    answer.AnswerIp? && q.qtype == 1 && rcode == 0
  }

  function Header(q: Query, rcode: Rcode, answer: AnswerIp): (b: Bytes)
    ensures |b| == HEADER_SIZE
  {
    WordBytes(q.txid) + WordBytes(ResponseFlags(rcode)) + [0, 1]
    + WordBytes(if Answers(q, rcode, answer) then 1 else 0) + [0, 0, 0, 0]
  }

  function Question(q: Query, name: Bytes): Bytes {
    name + WordBytes(q.qtype) + WordBytes(q.qclass)
  }

  /** A pointer to the question's name, type A, class IN, a TTL of 60 and the address. */
  function AnswerRecord(q: Query, rcode: Rcode, answer: AnswerIp): Bytes {
    if Answers(q, rcode, answer) then [0xC0, 12] + RecordTail(answer.octets) else []
  }

  function RecordTail(octets: Bytes): Bytes {
    [0, 1, 0, 1, 0, 0, 0, 60, 0, 4] + octets
  }

  function BuildResponse(q: Query, rcode: Rcode, answer: AnswerIp): Result<Bytes> {
    match EncodedName(q.qname)
    case Fail(e) => Fail(e)
    case Good(name) => Good(Header(q, rcode, answer) + Question(q, name) + AnswerRecord(q, rcode, answer))
  }

  lemma WordRoundTrip(buf: Bytes, i: nat, w: Word)
    requires StandsAt(buf, i, WordBytes(w))
    ensures WordAt(buf, i) == w
  {
    assert buf[i] == buf[i..i + 2][0] && buf[i + 1] == buf[i..i + 2][1];
  }

  /** Where the pieces of a response stand. */
  lemma ResponseLayout(q: Query, rcode: Rcode, answer: AnswerIp, name: Bytes, packet: Bytes)
    requires packet == Header(q, rcode, answer) + Question(q, name) + AnswerRecord(q, rcode, answer)
    ensures |packet| >= HEADER_SIZE + |name| + 4
    ensures StandsAt(packet, 0, WordBytes(q.txid)) && StandsAt(packet, 2, WordBytes(ResponseFlags(rcode)))
    ensures StandsAt(packet, 4, WordBytes(1)) && StandsAt(packet, HEADER_SIZE, name)
    ensures StandsAt(packet, HEADER_SIZE + |name|, WordBytes(q.qtype))
    ensures StandsAt(packet, HEADER_SIZE + |name| + 2, WordBytes(q.qclass))
    ensures StandsAt(packet, HEADER_SIZE + |name| + 4, AnswerRecord(q, rcode, answer))
  {
    var n := HEADER_SIZE + |name|;
    assert packet[0..2] == WordBytes(q.txid) && packet[2..4] == WordBytes(ResponseFlags(rcode));
    assert packet[4..6] == [0, 1] == WordBytes(1);
    assert packet[HEADER_SIZE..n] == name;
    assert packet[n..n + 2] == WordBytes(q.qtype) && packet[n + 2..n + 4] == WordBytes(q.qclass);
    assert packet[n + 4..] == AnswerRecord(q, rcode, answer);
    assert packet[n + 4..n + 4 + |AnswerRecord(q, rcode, answer)|] == packet[n + 4..];
  }

  /** The packet of a response, word by word. */
  lemma ResponseWords(q: Query, rcode: Rcode, answer: AnswerIp, name: Bytes, packet: Bytes)
    requires packet == Header(q, rcode, answer) + Question(q, name) + AnswerRecord(q, rcode, answer)
    ensures |packet| >= HEADER_SIZE + |name| + 4 && StandsAt(packet, HEADER_SIZE, name)
    ensures WordAt(packet, 0) == q.txid && WordAt(packet, 2) == ResponseFlags(rcode) && WordAt(packet, 4) == 1
    ensures WordAt(packet, HEADER_SIZE + |name|) == q.qtype
    ensures WordAt(packet, HEADER_SIZE + |name| + 2) == q.qclass
  {
    ResponseLayout(q, rcode, answer, name, packet);
    WordRoundTrip(packet, 0, q.txid);
    WordRoundTrip(packet, 2, ResponseFlags(rcode));
    WordRoundTrip(packet, 4, 1);
    WordRoundTrip(packet, HEADER_SIZE + |name|, q.qtype);
    WordRoundTrip(packet, HEADER_SIZE + |name| + 2, q.qclass);
  }

  /** Parsing a built response recovers the query, up to the normal form of its name. */
  lemma ResponseParses(q: Query, rcode: Rcode, answer: AnswerIp)
    requires ShortLabels(q.qname)
    ensures BuildResponse(q, rcode, answer).Good?
    ensures ParseQuery(BuildResponse(q, rcode, answer).value) ==
            Good(Query(q.txid, Normalize(q.qname), q.qtype, q.qclass, 0x8400 + rcode))
  {
    NameRoundTrip([], 0, q.qname);
    var name := EncodedName(q.qname).value;
    var packet := BuildResponse(q, rcode, answer).value;
    ResponseWords(q, rcode, answer, name, packet);
    NameRoundTrip(packet, HEADER_SIZE, q.qname);
  }

  /** A name that is a pointer to any position below 2^14 decodes as the name there, in two bytes. */
  lemma PointerDecodes(buf: Bytes, pos: nat, target: nat, labels: seq<Bytes>)
    requires target < 16384 && StandsAt(buf, pos, [192 + target / 256, target % 256])
    requires Walk(buf, target, 1) == Good(labels)
    ensures Decoded(buf, pos) == Good((Render(labels), 2))
  {
    assert buf[pos] == buf[pos..pos + 2][0] && buf[pos + 1] == buf[pos..pos + 2][1];
  }

  /** The question's labels are read from the header's end on, also after one jump. */
  lemma QuestionLabels(buf: Bytes, name: string)
    requires ShortLabels(name)
    ensures EncodedName(name).Good?
    ensures StandsAt(buf, HEADER_SIZE, EncodedName(name).value) ==>
              Walk(buf, HEADER_SIZE, 1) == Good(Written(Split(name)))
  {
    NameRoundTrip([], 0, name);
    WrittenNonEmpty(Split(name));
    if StandsAt(buf, HEADER_SIZE, EncodedName(name).value) { WalkEncoded(buf, HEADER_SIZE, Written(Split(name)), 1); }
  }

  /** The answer's name is a two-byte pointer that decodes to the question's name. */
  lemma AnswerNameDecodes(q: Query, rcode: Rcode, answer: AnswerIp)
    requires ShortLabels(q.qname) && answer.AnswerIp? && q.qtype == 1 && rcode == 0
    ensures BuildResponse(q, rcode, answer).Good? && EncodedName(q.qname).Good?
    ensures var packet := BuildResponse(q, rcode, answer).value;
            var at := HEADER_SIZE + |EncodedName(q.qname).value| + 4;
            Decoded(packet, at) == Good((Normalize(q.qname), 2))
  {
    QuestionLabels([], q.qname);
    var name := EncodedName(q.qname).value;
    var packet := BuildResponse(q, rcode, answer).value;
    ResponseLayout(q, rcode, answer, name, packet);
    QuestionLabels(packet, q.qname);
    var at, pointer: Bytes := HEADER_SIZE + |name| + 4, [192 + 12 / 256, 12 % 256];
    assert pointer == [0xC0, 12];
    StandsAtParts(packet, at, pointer, RecordTail(answer.octets));
    PointerDecodes(packet, at, 12, Written(Split(q.qname)));
  }

  /** A resource record at `at` whose name takes two bytes (section 4.1.3 of RFC 1035). */
  datatype Record = Record(rtype: Word, rclass: Word, ttl: nat, rdlength: Word, rdata: Bytes)

  function ReadRecord(packet: Bytes, at: nat): Result<Record> {
    if at + 12 > |packet| then Fail(PacketTooShort)
    else
      Good(Record(WordAt(packet, at + 2), WordAt(packet, at + 4),
                  WordAt(packet, at + 6) as int * 0x1_0000 + WordAt(packet, at + 8) as int,
                  WordAt(packet, at + 10), packet[at + 12..]))
  }

  lemma RecordReads(packet: Bytes, at: nat, octets: Bytes)
    requires at + 12 + |octets| == |packet| && StandsAt(packet, at, [0xC0, 12] + RecordTail(octets))
    ensures ReadRecord(packet, at) == Good(Record(1, 1, 60, 4, octets))
  {
    var record := [0xC0, 12] + RecordTail(octets);
    assert packet[at..at + |record|] == record;
    var tail := packet[at..];
    assert tail == record;
    assert forall i | 0 <= i < |record| :: tail[i] == record[i];
    assert packet[at + 2] == tail[2] && packet[at + 3] == tail[3] && packet[at + 4] == tail[4];
    assert packet[at + 5] == tail[5] && packet[at + 6] == tail[6] && packet[at + 7] == tail[7];
    assert packet[at + 8] == tail[8] && packet[at + 9] == tail[9];
    assert packet[at + 10] == tail[10] && packet[at + 11] == tail[11];
    assert packet[at + 12..] == record[12..] == octets;
  }

  lemma AnswerCount(q: Query, rcode: Rcode, answer: AnswerIp, rest: Bytes)
    ensures WordAt(Header(q, rcode, answer) + rest, 6) == if Answers(q, rcode, answer) then 1 else 0
  {
    var count: Word := if Answers(q, rcode, answer) then 1 else 0;
    var packet := Header(q, rcode, answer) + rest;
    assert packet[6..8] == WordBytes(count);
    WordRoundTrip(packet, 6, count);
  }

  /** The answer count says whether a record follows; the record is an address record in the
      Internet class that lives sixty seconds, with a length field of four and the given octets. */
  lemma AnswerRecordReads(q: Query, rcode: Rcode, answer: AnswerIp)
    requires ShortLabels(q.qname)
    ensures BuildResponse(q, rcode, answer).Good? && EncodedName(q.qname).Good?
    ensures var packet := BuildResponse(q, rcode, answer).value;
            var at := HEADER_SIZE + |EncodedName(q.qname).value| + 4;
            && WordAt(packet, 6) == (if answer.AnswerIp? && q.qtype == 1 && rcode == 0 then 1 else 0)
            && if answer.AnswerIp? && q.qtype == 1 && rcode == 0
               then ReadRecord(packet, at) == Good(Record(1, 1, 60, 4, answer.octets))
               else at == |packet|
  {
    NameRoundTrip([], 0, q.qname);
    var name := EncodedName(q.qname).value;
    var question, record := Question(q, name), AnswerRecord(q, rcode, answer);
    var packet := BuildResponse(q, rcode, answer).value;
    ResponseLayout(q, rcode, answer, name, packet);
    Regroup(Header(q, rcode, answer), question, record);
    AnswerCount(q, rcode, answer, question + record);
    if Answers(q, rcode, answer) { RecordReads(packet, HEADER_SIZE + |name| + 4, answer.octets); }
  }

  /** For a plain name both come back as they went in. */
  lemma PlainQueryRoundTrip(q: Query, rcode: Rcode, answer: AnswerIp)
    requires ShortLabels(q.qname) && PlainName(q.qname)
    ensures BuildResponse(q, rcode, answer).Good?
    ensures ParseQuery(BuildResponse(q, rcode, answer).value) == Good(q.(flags := 0x8400 + rcode))
  {
    PlainIsNormal(q.qname);
    ResponseParses(q, rcode, answer);
  }

  /** Every query the server receives: its response can be built and parses back to the query with
      its name in normal form, and to the same query exactly when that name is plain. */
  lemma ReceivedQueryAnswered(packet: Bytes, rcode: Rcode, answer: AnswerIp)
    requires ParseQuery(packet).Good?
    ensures var q := ParseQuery(packet).value;
            && BuildResponse(q, rcode, answer).Good?
            && var back := ParseQuery(BuildResponse(q, rcode, answer).value);
            && back == Good(q.(qname := Normalize(q.qname), flags := 0x8400 + rcode))
            && (back == Good(q.(flags := 0x8400 + rcode)) <==> PlainName(q.qname))
  {
    var q := ParseQuery(packet).value;
    DecodedNameIsShort(packet, HEADER_SIZE);
    ResponseParses(q, rcode, answer);
    NormalIffPlain(q.qname);
  }

  // ---------- the bytes ----------

  /** A query as a resolver writes it: identifier, any flags, one question and any other counts,
      most significant byte first. */
  function QueryBytes(id: Word, flags: Word, an: Word, ns: Word, ar: Word, name: Bytes, qtype: Word, qclass: Word):
    (b: Bytes)
    ensures |b| == 16 + |name|
  {
    [id / 256, id % 256, flags / 256, flags % 256, 0, 1, an / 256, an % 256, ns / 256, ns % 256, ar / 256, ar % 256]
    + name + [qtype / 256, qtype % 256, qclass / 256, qclass % 256]
  }

  /** Where its pieces stand. */
  lemma QueryLayout(id: Word, flags: Word, an: Word, ns: Word, ar: Word, name: Bytes, qtype: Word, qclass: Word,
                    rest: Bytes, packet: Bytes)
    requires packet == QueryBytes(id, flags, an, ns, ar, name, qtype, qclass) + rest
    ensures |packet| >= HEADER_SIZE + |name| + 4
    ensures StandsAt(packet, 0, WordBytes(id)) && StandsAt(packet, 2, WordBytes(flags))
    ensures StandsAt(packet, 4, WordBytes(1)) && StandsAt(packet, HEADER_SIZE, name)
    ensures StandsAt(packet, HEADER_SIZE + |name|, WordBytes(qtype))
    ensures StandsAt(packet, HEADER_SIZE + |name| + 2, WordBytes(qclass))
  {
    var n := HEADER_SIZE + |name|;
    assert packet[0..2] == WordBytes(id) && packet[2..4] == WordBytes(flags) && packet[4..6] == WordBytes(1);
    assert packet[HEADER_SIZE..n] == name;
    assert packet[n..n + 2] == WordBytes(qtype) && packet[n + 2..n + 4] == WordBytes(qclass);
  }

  /** Every query is parsed, whatever its flags and counts are and whatever follows it. */
  lemma QueryParses(id: Word, flags: Word, an: Word, ns: Word, ar: Word, name: string, qtype: Word, qclass: Word,
                    rest: Bytes)
    requires ShortLabels(name)
    ensures EncodedName(name).Good?
    ensures ParseQuery(QueryBytes(id, flags, an, ns, ar, EncodedName(name).value, qtype, qclass) + rest) ==
              Good(Query(id, Normalize(name), qtype, qclass, flags))
  {
    NameRoundTrip([], 0, name);
    var bytes := EncodedName(name).value;
    var packet := QueryBytes(id, flags, an, ns, ar, bytes, qtype, qclass) + rest;
    QueryLayout(id, flags, an, ns, ar, bytes, qtype, qclass, rest, packet);
    NameRoundTrip(packet, HEADER_SIZE, name);
    WordRoundTrip(packet, 0, id);
    WordRoundTrip(packet, 2, flags);
    WordRoundTrip(packet, 4, 1);
    WordRoundTrip(packet, HEADER_SIZE + |bytes|, qtype);
    WordRoundTrip(packet, HEADER_SIZE + |bytes| + 2, qclass);
  }

  ghost predicate HasName(packet: Bytes, offset: nat) {
    exists labels, jumps: nat :: Spells(packet, offset, labels, jumps)
  }

  /** The text is one that the labels from `offset` on spell. */
  ghost predicate Reads(packet: Bytes, offset: nat, name: string) {
    exists labels, jumps: nat :: Spells(packet, offset, labels, jumps) && name == Render(labels)
  }

  lemma DecodedIff(packet: Bytes, offset: nat)
    ensures Decoded(packet, offset).Good? <==> HasName(packet, offset)
    ensures Decoded(packet, offset).Good? ==>
              Reads(packet, offset, Decoded(packet, offset).value.0)
              && Decoded(packet, offset).value.1 == Span(packet, offset)
  {
    if Walk(packet, offset, 0).Good? {
      var labels := Walk(packet, offset, 0).value;
      DecodesExactlyExpansions(packet, offset, labels);
      var jumps: nat :| Spells(packet, offset, labels, jumps);
    } else if labels, jumps: nat :| Spells(packet, offset, labels, jumps) {
      DecodesExactlyExpansions(packet, offset, labels);
    }
  }

  /** On arbitrary bytes: parsing succeeds exactly when there is a header that announces one
      question, a name after it, and four bytes after the name. */
  lemma ParsesIff(packet: Bytes)
    ensures ParseQuery(packet).Good? <==>
              && |packet| >= 12 && packet[4] == 0 && packet[5] == 1
              && HasName(packet, 12) && 12 + Span(packet, 12) + 4 <= |packet|
  {
    DecodedIff(packet, 12);
  }

  /** And the query is then what the bytes say. */
  lemma ParsedIs(packet: Bytes)
    requires ParseQuery(packet).Good?
    ensures 12 + Span(packet, 12) + 4 <= |packet| && Reads(packet, 12, ParseQuery(packet).value.qname)
    ensures var q, at := ParseQuery(packet).value, 12 + Span(packet, 12);
            && q.txid == WordOf(packet[0], packet[1]) && q.flags == WordOf(packet[2], packet[3])
            && q.qtype == WordOf(packet[at], packet[at + 1]) && q.qclass == WordOf(packet[at + 2], packet[at + 3])
  {
    DecodedIff(packet, 12);
  }

  /** Two bytes as a number, most significant first. */
  function WordOf(high: Byte, low: Byte): int {
    256 * (high as int) + low as int
  }

  /** The header of a response: the query's identifier, response and authoritative bits, the code,
      one question, and one answer exactly for an address query that has one. */
  lemma ResponseHeaderBytes(q: Query, rcode: Rcode, answer: AnswerIp)
    requires BuildResponse(q, rcode, answer).Good?
    ensures var packet := BuildResponse(q, rcode, answer).value;
            && |packet| >= 12 && WordOf(packet[0], packet[1]) == q.txid
            && packet[2] == 0x84 && packet[3] == rcode && packet[4] == 0 && packet[5] == 1 && packet[6] == 0
            && packet[7] == (if answer.AnswerIp? && q.qtype == 1 && rcode == 0 then 1 else 0)
            && packet[8..12] == [0, 0, 0, 0]
  {
    var packet, header := BuildResponse(q, rcode, answer).value, Header(q, rcode, answer);
    assert forall i | 0 <= i < 12 :: packet[i] == header[i];
    assert header[0] == WordBytes(q.txid)[0] && header[1] == WordBytes(q.txid)[1];
    assert header[2] == WordBytes(ResponseFlags(rcode))[0] && header[3] == WordBytes(ResponseFlags(rcode))[1];
  }
}
