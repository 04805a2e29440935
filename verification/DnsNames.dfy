/** Domain names on the wire, with compression pointers (decnet/canary/dns_server.py;
    section 4.1.4 of RFC 1035). */
module DnsNames {
  import opened Text
  import opened WireFrames

  const MAX_HOPS := 10

  datatype DnsError =
    | TruncatedName | TruncatedPointer | PointerLoop | TruncatedLabel | LabelTooLong
    | PacketTooShort | QuestionCount | TruncatedQuestion
  datatype Result<+T> = Good(value: T) | Fail(error: DnsError)

  predicate IsPointer(length: Byte) {
    length >= 0xC0
  }

  /** The 14 low bits of a pointer. */
  function Target(high: Byte, low: Byte): nat
    requires IsPointer(high)
  {
    (high - 0xC0) * 256 + low
  }

  // ---------- text of labels ----------

  /** `decode("ascii", "replace")` for one byte. */
  function DecodeByte(b: Byte): char {
    if b < 128 then b as char else '\U{FFFD}'
  }

  function DecodeLabel(bytes: Bytes): (s: string)
    ensures |s| == |bytes|
  {
    seq(|bytes|, i requires 0 <= i < |bytes| => DecodeByte(bytes[i]))
  }

  function LowerChar(c: char): char {
    if 'A' <= c <= 'Z' then (c as int + 32) as char else c
  }

  /** `str.lower` on the characters that decoding can give. */
  function Lower(s: string): (r: string)
    ensures |r| == |s|
  {
    seq(|s|, i requires 0 <= i < |s| => LowerChar(s[i]))
  }

  function DecodeLabels(labels: seq<Bytes>): (r: seq<string>)
    ensures |r| == |labels|
  {
    if labels == [] then [] else [DecodeLabel(labels[0])] + DecodeLabels(labels[1..])
  }

  /** The name that the labels spell. */
  function Render(labels: seq<Bytes>): string {
    Lower(Join(DecodeLabels(labels)))
  }

  // ---------- decoding ----------

  /** What stands at a position: the end of a name, a pointer, a label, or nothing complete. */
  datatype Item = End | Pointer(target: nat) | Label(text: Bytes) | Broken(error: DnsError)

  function Look(buf: Bytes, pos: nat): (item: Item)
    ensures item.Label? ==> 1 <= |item.text| && pos + 1 + |item.text| <= |buf|
  {
    if pos >= |buf| then Broken(TruncatedName)
    else
      var length := buf[pos];
      if length == 0 then End
      else if IsPointer(length) then
        if pos + 1 >= |buf| then Broken(TruncatedPointer) else Pointer(Target(length, buf[pos + 1]))
      else if pos + 1 + length > |buf| then Broken(TruncatedLabel)
      else Label(buf[pos + 1..pos + 1 + length])
  }

  /** What a walk adds to the labels already met. */
  function Prepend(labels: seq<Bytes>, r: Result<seq<Bytes>>): Result<seq<Bytes>> {
    match r
    case Fail(e) => Fail(e)
    case Good(rest) => Good(labels + rest)
  }

  /** The labels met from `pos` on when `hops` pointers were followed already. */
  function Walk(buf: Bytes, pos: nat, hops: nat): (r: Result<seq<Bytes>>)
    requires hops <= MAX_HOPS
    decreases MAX_HOPS - hops, if pos < |buf| then |buf| - pos else 0
  {
    match Look(buf, pos)
    case Broken(e) => Fail(e)
    case End => Good([])
    case Pointer(target) => if hops + 1 > MAX_HOPS then Fail(PointerLoop) else Walk(buf, target, hops + 1)
    case Label(text) => Prepend([text], Walk(buf, pos + 1 + |text|, hops))
  }

  /** Bytes that a name occupies where it stands: up to its end or its first pointer. */
  function Span(buf: Bytes, pos: nat): nat
    decreases if pos < |buf| then |buf| - pos else 0
  {
    match Look(buf, pos)
    case Broken(_) => 0
    case End => 1
    case Pointer(_) => 2
    case Label(text) => 1 + |text| + Span(buf, pos + 1 + |text|)
  }

  function Decoded(buf: Bytes, offset: nat): Result<(string, nat)> {
    match Walk(buf, offset, 0)
    case Fail(e) => Fail(e)
    case Good(labels) => Good((Render(labels), Span(buf, offset)))
  }

  lemma PrependTwice(a: seq<Bytes>, b: seq<Bytes>, r: Result<seq<Bytes>>)
    ensures Prepend(a, Prepend(b, r)) == Prepend(a + b, r)
  {
    if r.Good? { assert a + (b + r.value) == (a + b) + r.value; }
  }

  lemma PrependNothing(r: Result<seq<Bytes>>)
    ensures Prepend([], r) == r
  {
    if r.Good? { assert [] + r.value == r.value; }
  }

  /** `_decode_name`. */
  method DecodeName(buf: Bytes, offset: nat) returns (r: Result<(string, nat)>)
    ensures r == Decoded(buf, offset)
  {
    var labels, consumed := WalkName(buf, offset);
    match labels {
      case Fail(e) => return Fail(e);
      case Good(ls) => return Good((Render(ls), consumed));
    }
  }

  /** The loop of `_decode_name`, before the labels are joined. */
  method WalkName(buf: Bytes, offset: nat) returns (r: Result<seq<Bytes>>, consumed: nat)
    ensures r == Walk(buf, offset, 0)
    ensures r.Good? ==> consumed == Span(buf, offset)
  {
    PrependNothing(Walk(buf, offset, 0));
    var labels: seq<Bytes> := [];
    consumed := 0;
    var pos, jumped, hops := offset, false, 0;
    while true
      invariant 0 <= hops <= MAX_HOPS && 0 <= pos
      invariant Walk(buf, offset, 0) == Prepend(labels, Walk(buf, pos, hops))
      invariant jumped ==> consumed == Span(buf, offset)
      invariant !jumped ==> offset <= pos && Span(buf, offset) == pos - offset + Span(buf, pos)
      decreases MAX_HOPS - hops, |buf| - pos
    {
      match Look(buf, pos) {
        case Broken(e) => return Fail(e), consumed;
        case End =>
          if !jumped { consumed := pos + 1 - offset; }
          assert labels + [] == labels;
          return Good(labels), consumed;
        case Pointer(target) =>
          if !jumped { consumed := pos + 2 - offset; }
          pos, jumped, hops := target, true, hops + 1;
          if hops > MAX_HOPS { return Fail(PointerLoop), consumed; }
        case Label(text) =>
          PrependTwice(labels, [text], Walk(buf, pos + 1 + |text|, hops));
          labels := labels + [text];
          pos := pos + 1 + |text|;
      }
    }
  }

  // ---------- the expansion relation of RFC 1035 ----------

  /** From `pos`, following exactly `jumps` pointers, the name spells `labels`. A length byte with
      the top bits 01 or 10 is read as a plain length. */
  ghost predicate Expands(buf: Bytes, pos: nat, labels: seq<Bytes>, jumps: nat)
    decreases jumps, |labels|
  {
    && pos < |buf|
    && var length := buf[pos];
    if length == 0 then labels == [] && jumps == 0
    else if IsPointer(length) then
      && pos + 1 < |buf| && jumps > 0
      && Expands(buf, Target(length, buf[pos + 1]), labels, jumps - 1)
    else
      && pos + 1 + length <= |buf| && labels != []
      && labels[0] == buf[pos + 1..pos + 1 + length]
      && Expands(buf, pos + 1 + length, labels[1..], jumps)
  }

  ghost predicate Spells(buf: Bytes, pos: nat, labels: seq<Bytes>, jumps: nat) {
    jumps <= 10 && Expands(buf, pos, labels, jumps)
  }

  /** The same as section 4.1.4 has it: the reserved top bits are refused, and a pointer refers to
      something that came before it. */
  ghost predicate StrictlyExpands(buf: Bytes, pos: nat, labels: seq<Bytes>, jumps: nat)
    decreases jumps, |labels|
  {
    && pos < |buf|
    && var length := buf[pos];
    if length == 0 then labels == [] && jumps == 0
    else if IsPointer(length) then
      && pos + 1 < |buf| && jumps > 0 && Target(length, buf[pos + 1]) < pos
      && StrictlyExpands(buf, Target(length, buf[pos + 1]), labels, jumps - 1)
    else
      && length < 64
      && pos + 1 + length <= |buf| && labels != []
      && labels[0] == buf[pos + 1..pos + 1 + length]
      && StrictlyExpands(buf, pos + 1 + length, labels[1..], jumps)
  }

  lemma {:induction false} WalkComplete(buf: Bytes, pos: nat, hops: nat, labels: seq<Bytes>, jumps: nat)
    requires hops + jumps <= MAX_HOPS && Expands(buf, pos, labels, jumps)
    ensures Walk(buf, pos, hops) == Good(labels)
    decreases jumps, |labels|
  {
    var length := buf[pos];
    if length == 0 {
    } else if IsPointer(length) {
      WalkComplete(buf, Target(length, buf[pos + 1]), hops + 1, labels, jumps - 1);
    } else {
      WalkComplete(buf, pos + 1 + length, hops, labels[1..], jumps);
      assert labels == [labels[0]] + labels[1..];
    }
  }

  lemma {:induction false} WalkSound(buf: Bytes, pos: nat, hops: nat) returns (jumps: nat)
    requires hops <= MAX_HOPS && Walk(buf, pos, hops).Good?
    ensures hops + jumps <= MAX_HOPS && Expands(buf, pos, Walk(buf, pos, hops).value, jumps)
    decreases MAX_HOPS - hops, if pos < |buf| then |buf| - pos else 0
  {
    var length := buf[pos];
    if length == 0 {
      jumps := 0;
    } else if IsPointer(length) {
      jumps := WalkSound(buf, Target(length, buf[pos + 1]), hops + 1);
      jumps := jumps + 1;
    } else {
      jumps := WalkSound(buf, pos + 1 + length, hops);
      assert Walk(buf, pos, hops).value[1..] == Walk(buf, pos + 1 + length, hops).value;
    }
  }

  /** Decoding succeeds exactly on the names that expand within ten jumps, with that expansion. */
  lemma DecodesExactlyExpansions(buf: Bytes, offset: nat, labels: seq<Bytes>)
    ensures Walk(buf, offset, 0) == Good(labels) <==>
              exists jumps: nat :: Spells(buf, offset, labels, jumps)
  {
    if Walk(buf, offset, 0) == Good(labels) {
      var jumps := WalkSound(buf, offset, 0);
      assert Spells(buf, offset, labels, jumps);
    } else {
      forall jumps: nat ensures !Spells(buf, offset, labels, jumps) {
        if Spells(buf, offset, labels, jumps) { WalkComplete(buf, offset, 0, labels, jumps); }
      }
    }
  }

  /** A length byte with reserved top bits, 64 to 191, stands on the walk from `pos`. */
  predicate MeetsReserved(buf: Bytes, pos: nat, hops: nat)
    requires hops <= MAX_HOPS
    decreases MAX_HOPS - hops, if pos < |buf| then |buf| - pos else 0
  {
    || (pos < |buf| && 64 <= buf[pos] < 192)
    || match Look(buf, pos)
       case Pointer(target) => hops < MAX_HOPS && MeetsReserved(buf, target, hops + 1)
       case Label(text) => MeetsReserved(buf, pos + 1 + |text|, hops)
       case _ => false
  }

  /** A pointer to its own position or beyond stands on the walk from `pos`. */
  predicate MeetsForward(buf: Bytes, pos: nat, hops: nat)
    requires hops <= MAX_HOPS
    decreases MAX_HOPS - hops, if pos < |buf| then |buf| - pos else 0
  {
    match Look(buf, pos)
    case Pointer(target) => target >= pos || (hops < MAX_HOPS && MeetsForward(buf, target, hops + 1))
    case Label(text) => MeetsForward(buf, pos + 1 + |text|, hops)
    case _ => false
  }

  lemma {:induction false} StrictWalks(buf: Bytes, pos: nat, hops: nat, labels: seq<Bytes>, jumps: nat)
    requires hops + jumps <= MAX_HOPS && StrictlyExpands(buf, pos, labels, jumps)
    ensures Walk(buf, pos, hops) == Good(labels) && !MeetsReserved(buf, pos, hops) && !MeetsForward(buf, pos, hops)
    decreases jumps, |labels|
  {
    var length := buf[pos];
    if length == 0 {
    } else if IsPointer(length) {
      StrictWalks(buf, Target(length, buf[pos + 1]), hops + 1, labels, jumps - 1);
    } else {
      StrictWalks(buf, pos + 1 + length, hops, labels[1..], jumps);
      assert labels == [labels[0]] + labels[1..];
    }
  }

  lemma {:induction false} AllowedWalkIsStrict(buf: Bytes, pos: nat, hops: nat) returns (jumps: nat)
    requires hops <= MAX_HOPS && Walk(buf, pos, hops).Good?
    requires !MeetsReserved(buf, pos, hops) && !MeetsForward(buf, pos, hops)
    ensures hops + jumps <= MAX_HOPS && StrictlyExpands(buf, pos, Walk(buf, pos, hops).value, jumps)
    decreases MAX_HOPS - hops, if pos < |buf| then |buf| - pos else 0
  {
    var length := buf[pos];
    if length == 0 {
      jumps := 0;
    } else if IsPointer(length) {
      jumps := AllowedWalkIsStrict(buf, Target(length, buf[pos + 1]), hops + 1);
      jumps := jumps + 1;
    } else {
      jumps := AllowedWalkIsStrict(buf, pos + 1 + length, hops);
      assert Walk(buf, pos, hops).value[1..] == Walk(buf, pos + 1 + length, hops).value;
    }
  }

  ghost predicate StrictlySpells(buf: Bytes, pos: nat, labels: seq<Bytes>, jumps: nat) {
    jumps <= 10 && StrictlyExpands(buf, pos, labels, jumps)
  }

  /** On the packet: there is a name that section 4.1.4 allows, within ten jumps, exactly when the
      decoder accepts and neither a reserved length nor a pointer that does not point back stands
      on its walk; the labels are then the same. */
  lemma StrictIffAllowedWalk(buf: Bytes, offset: nat, labels: seq<Bytes>)
    ensures (exists jumps: nat :: StrictlySpells(buf, offset, labels, jumps)) <==>
              && Walk(buf, offset, 0) == Good(labels)
              && !MeetsReserved(buf, offset, 0) && !MeetsForward(buf, offset, 0)
  {
    if Walk(buf, offset, 0) == Good(labels) && !MeetsReserved(buf, offset, 0) && !MeetsForward(buf, offset, 0) {
      var jumps := AllowedWalkIsStrict(buf, offset, 0);
      assert StrictlySpells(buf, offset, labels, jumps);
    }
    if jumps: nat :| StrictlySpells(buf, offset, labels, jumps) {
      StrictWalks(buf, offset, 0, labels, jumps);
    }
  }

  ghost predicate NothingStrict(buf: Bytes, offset: nat) {
    forall labels, jumps: nat :: !StrictlySpells(buf, offset, labels, jumps)
  }

  lemma NotAllowedNotStrict(buf: Bytes, offset: nat)
    requires MeetsReserved(buf, offset, 0) || MeetsForward(buf, offset, 0)
    ensures NothingStrict(buf, offset)
  {
    forall labels, jumps: nat ensures !StrictlySpells(buf, offset, labels, jumps) {
      StrictIffAllowedWalk(buf, offset, labels);
    }
  }

  /** A packet that is accepted for its reserved length: one label of 64 bytes. */
  lemma ReservedAccepted(text: Bytes)
    requires |text| == 64
    ensures Walk([64] + text + [0], 0, 0) == Good([text]) && NothingStrict([64] + text + [0], 0)
  {
    var buf: Bytes := [64] + text + [0];
    assert Look(buf, 0) == Label(text) && Look(buf, 65) == End;
    assert Walk(buf, 65, 0) == Good([]);
    assert Walk(buf, 0, 0) == Prepend([text], Walk(buf, 0 + 1 + |text|, 0));
    assert [text] + [] == [text];
    assert MeetsReserved(buf, 0, 0);
    NotAllowedNotStrict(buf, 0);
  }

  /** A packet that is accepted although its pointer points forward, to the name `a`. */
  lemma ForwardAccepted()
    ensures Walk([0xC0, 2, 1, 97, 0], 0, 0) == Good([[97]]) && NothingStrict([0xC0, 2, 1, 97, 0], 0)
  {
    var buf: Bytes := [0xC0, 2, 1, 97, 0];
    assert Look(buf, 0) == Pointer(2) && Look(buf, 2) == Label([97]) && Look(buf, 4) == End;
    assert Walk(buf, 4, 1) == Good([]) && [[97]] + [] == [[97]];
    assert Walk(buf, 2, 1) == Prepend([[97]], Walk(buf, 4, 1));
    assert MeetsForward(buf, 0, 0);
    NotAllowedNotStrict(buf, 0);
  }

  /** A decoded name occupies at least one byte and nothing past the buffer. */
  lemma {:induction false} SpanInBuffer(buf: Bytes, pos: nat, hops: nat)
    requires hops <= MAX_HOPS && Walk(buf, pos, hops).Good?
    ensures 1 <= Span(buf, pos) && pos + Span(buf, pos) <= |buf|
    decreases if pos < |buf| then |buf| - pos else 0
  {
    if pos < |buf| && buf[pos] != 0 && !IsPointer(buf[pos]) {
      SpanInBuffer(buf, pos + 1 + buf[pos], hops);
    }
  }

  // ---------- encoding ----------

  /** `encode("ascii", "replace")` for one character. */
  function EncodeChar(c: char): Byte {
    if c as int < 128 then c as int else '?' as int
  }

  function EncodeLabel(text: string): (b: Bytes)
    ensures |b| == |text|
  {
    seq(|text|, i requires 0 <= i < |text| => EncodeChar(text[i]))
  }

  /** The labels that are written: empty ones are skipped. */
  function Written(tokens: seq<string>): seq<Bytes> {
    if tokens == [] then []
    else (if tokens[0] == "" then [] else [EncodeLabel(tokens[0])]) + Written(tokens[1..])
  }

  function AppendEncoded(done: Bytes, r: Result<Bytes>): Result<Bytes> {
    match r
    case Fail(e) => Fail(e)
    case Good(rest) => Good(done + rest)
  }

  lemma AppendTwice(a: Bytes, b: Bytes, r: Result<Bytes>)
    ensures AppendEncoded(a, AppendEncoded(b, r)) == AppendEncoded(a + b, r)
    ensures AppendEncoded([], r) == r
  {
    if r.Good? { assert a + (b + r.value) == (a + b) + r.value && [] + r.value == r.value; }
  }

  /** Length-prefixed labels and the final zero; a length that is no byte is an error. */
  function EncodeLabels(labels: seq<Bytes>): Result<Bytes> {
    if labels == [] then Good([0])
    else if |labels[0]| > 255 then Fail(LabelTooLong)
    else
      AppendEncoded([|labels[0]|] + labels[0], EncodeLabels(labels[1..]))
  }

  function EncodedName(name: string): Result<Bytes> {
    EncodeLabels(Written(Split(name)))
  }

  /** `_encode_name`. */
  method EncodeName(name: string) returns (r: Result<Bytes>)
    ensures r == EncodedName(name)
  {
    var tokens := Split(name);
    var out: Bytes := [];
    assert tokens[0..] == tokens;
    AppendTwice([], [], EncodedName(name));
    for i := 0 to |tokens|
      invariant EncodedName(name) == AppendEncoded(out, EncodeLabels(Written(tokens[i..])))
    {
      assert tokens[i..][1..] == tokens[i + 1..];
      if tokens[i] == "" {
        assert Written(tokens[i..]) == Written(tokens[i + 1..]);
        continue;
      }
      var b := EncodeLabel(tokens[i]);
      assert Written(tokens[i..])[1..] == Written(tokens[i + 1..]);
      if |b| > 255 { return Fail(LabelTooLong); }
      AppendTwice(out, [|b|] + b, EncodeLabels(Written(tokens[i + 1..])));
      out := out + ([|b|] + b);
    }
    return Good(out + [0]);
  }

  // ---------- printing then parsing ----------

  /** What survives of a name: no empty labels, ASCII only, lower case. */
  function Normalize(name: string): string {
    Render(Written(Split(name)))
  }

  /** `bytes` stands in `buf` at `pos`. */
  predicate StandsAt(buf: Bytes, pos: nat, bytes: Bytes) {
    pos + |bytes| <= |buf| && buf[pos..pos + |bytes|] == bytes
  }

  lemma StandsAtParts(buf: Bytes, pos: nat, a: Bytes, b: Bytes)
    requires StandsAt(buf, pos, a + b)
    ensures StandsAt(buf, pos, a) && StandsAt(buf, pos + |a|, b)
  {
    assert (a + b)[..|a|] == a && (a + b)[|a|..] == b;
    assert buf[pos..pos + |a|] == buf[pos..pos + |a + b|][..|a|];
    assert buf[pos + |a|..pos + |a| + |b|] == buf[pos..pos + |a + b|][|a|..];
  }

  /** One step over a label that stands at `pos`. */
  lemma WalkLabel(buf: Bytes, pos: nat, l: Bytes, hops: nat)
    requires hops <= MAX_HOPS && 1 <= |l| < 0xC0 && StandsAt(buf, pos, [|l|] + l)
    ensures Walk(buf, pos, hops) == Prepend([l], Walk(buf, pos + 1 + |l|, hops))
    ensures Span(buf, pos) == 1 + |l| + Span(buf, pos + 1 + |l|)
  {
    StandsAtParts(buf, pos, [|l|], l);
    assert buf[pos] == buf[pos..pos + 1][0] == |l|;
  }

  /** A label in front of labels that are read back. */
  lemma WalkLonger(buf: Bytes, pos: nat, l: Bytes, more: seq<Bytes>, tail: Bytes, hops: nat)
    requires hops <= MAX_HOPS && 1 <= |l| < 0xC0 && StandsAt(buf, pos, [|l|] + l)
    requires Walk(buf, pos + 1 + |l|, hops) == Good(more) && Span(buf, pos + 1 + |l|) == |tail|
    ensures Walk(buf, pos, hops) == Good([l] + more)
    ensures Span(buf, pos) == |[|l|] + l + tail|
  {
    WalkLabel(buf, pos, l, hops);
  }

  /** Labels of one to 191 bytes are read back wherever they were written. */
  lemma {:induction false} WalkEncoded(buf: Bytes, pos: nat, labels: seq<Bytes>, hops: nat)
    requires hops <= MAX_HOPS
    requires forall l | l in labels :: 1 <= |l| < 0xC0
    requires EncodeLabels(labels).Good? && StandsAt(buf, pos, EncodeLabels(labels).value)
    ensures Walk(buf, pos, hops) == Good(labels)
    ensures Span(buf, pos) == |EncodeLabels(labels).value|
    decreases |labels|
  {
    if labels == [] {
      assert buf[pos] == buf[pos..pos + 1][0] == 0;
    } else {
      var l, more := labels[0], labels[1..];
      assert l in labels && labels == [l] + more;
      var tail := EncodeLabels(more).value;
      StandsAtParts(buf, pos, [|l|] + l, tail);
      WalkEncoded(buf, pos + 1 + |l|, more, hops);
      WalkLonger(buf, pos, l, more, tail, hops);
    }
  }

  lemma {:induction false} WrittenNonEmpty(tokens: seq<string>)
    ensures forall l | l in Written(tokens) :: 1 <= |l|
    ensures (forall t | t in tokens :: |t| < 0xC0) ==> forall l | l in Written(tokens) :: |l| < 0xC0
  {
    if tokens != [] {
      WrittenNonEmpty(tokens[1..]);
      assert tokens[0] in tokens && forall t | t in tokens[1..] :: t in tokens;
    }
  }

  lemma {:induction false} ShortLabelsEncode(labels: seq<Bytes>)
    requires forall l | l in labels :: |l| < 0xC0
    ensures EncodeLabels(labels).Good?
  {
    if labels != [] {
      assert labels[0] in labels && forall l | l in labels[1..] :: l in labels;
      ShortLabelsEncode(labels[1..]);
    }
  }

  /** Every label is short enough not to look like a pointer. */
  predicate ShortLabels(name: string) {
    forall t | t in Split(name) :: |t| < 0xC0
  }

  /** A name written at `pos` decodes to its normal form, consuming exactly what was written. */
  lemma NameRoundTrip(buf: Bytes, pos: nat, name: string)
    requires ShortLabels(name)
    ensures EncodedName(name).Good?
    ensures StandsAt(buf, pos, EncodedName(name).value) ==>
              Decoded(buf, pos) == Good((Normalize(name), |EncodedName(name).value|))
  {
    WrittenNonEmpty(Split(name));
    ShortLabelsEncode(Written(Split(name)));
    if StandsAt(buf, pos, EncodedName(name).value) {
      WalkEncoded(buf, pos, Written(Split(name)), 0);
    }
  }

  // ---------- names that are their own normal form ----------

  predicate PlainChar(c: char) {
    c as int < 128 && !('A' <= c <= 'Z')
  }

  /** The root, or dot-separated non-empty labels of lower-case ASCII. */
  predicate PlainName(name: string) {
    name == "" || forall t | t in Split(name) :: t != "" && forall c | c in t :: PlainChar(c)
  }

  // ---------- names that were received ----------

  /** Lower case moves no dot. */
  lemma {:induction false} SplitLower(s: string)
    ensures |Split(Lower(s))| == |Split(s)|
    ensures forall i | 0 <= i < |Split(s)| :: |Split(Lower(s))[i]| == |Split(s)[i]|
  {
    if s != [] {
      SplitLower(s[1..]);
      assert Lower(s)[1..] == Lower(s[1..]);
      assert s[0] == '.' <==> Lower(s)[0] == '.';
    }
  }

  lemma {:induction false} JoinedTokensShort(tokens: seq<string>)
    requires forall t | t in tokens :: |t| < 0xC0
    ensures ShortLabels(Join(tokens))
  {
    if tokens != [] {
      var first, rest := tokens[0], tokens[1..];
      TokensInside(first);
      assert first in tokens && forall t | t in rest :: t in tokens;
      if |tokens| > 1 {
        JoinedTokensShort(rest);
        SplitConcat(first, Join(rest));
      }
    }
  }

  lemma {:induction false} WalkLabelsShort(buf: Bytes, pos: nat, hops: nat)
    requires hops <= MAX_HOPS && Walk(buf, pos, hops).Good?
    ensures forall l | l in Walk(buf, pos, hops).value :: 1 <= |l| < 0xC0
    decreases MAX_HOPS - hops, if pos < |buf| then |buf| - pos else 0
  {
    match Look(buf, pos) {
      case Pointer(target) => WalkLabelsShort(buf, target, hops + 1);
      case Label(text) =>
        WalkLabelsShort(buf, pos + 1 + |text|, hops);
        var rest := Walk(buf, pos + 1 + |text|, hops).value;
        assert forall l | l in [text] + rest :: l == text || l in rest;
      case End =>
    }
  }

  lemma {:induction false} DecodedLengths(labels: seq<Bytes>)
    requires forall l | l in labels :: |l| < 0xC0
    ensures forall t | t in DecodeLabels(labels) :: |t| < 0xC0
  {
    if labels != [] {
      assert labels[0] in labels && forall l | l in labels[1..] :: l in labels;
      DecodedLengths(labels[1..]);
    }
  }

  /** A name that was decoded can be encoded again, also when its labels contain dots. */
  lemma DecodedNameIsShort(buf: Bytes, offset: nat)
    requires Decoded(buf, offset).Good?
    ensures ShortLabels(Decoded(buf, offset).value.0)
  {
    var labels := Walk(buf, offset, 0).value;
    var text := Join(DecodeLabels(labels));
    WalkLabelsShort(buf, offset, 0);
    DecodedLengths(labels);
    JoinedTokensShort(DecodeLabels(labels));
    SplitLower(text);
    forall t | t in Split(Lower(text)) ensures |t| < 0xC0 {
      var i :| 0 <= i < |Split(Lower(text))| && Split(Lower(text))[i] == t;
      assert Split(text)[i] in Split(text);
    }
  }

  /** What the written labels decode to: neither dots nor empty texts, and ASCII only. */
  lemma {:induction false} WrittenDecodes(tokens: seq<string>)
    requires forall t | t in tokens :: DotFree(t)
    ensures forall t | t in DecodeLabels(Written(tokens)) :: t != "" && DotFree(t) && IsAscii(t)
  {
    if tokens != [] {
      var t := tokens[0];
      assert t in tokens && forall u | u in tokens[1..] :: u in tokens;
      WrittenDecodes(tokens[1..]);
      if t == "" {
        assert Written(tokens) == Written(tokens[1..]);
      } else {
        assert Written(tokens)[1..] == Written(tokens[1..]);
        assert DecodeLabels(Written(tokens)) == [DecodeLabel(EncodeLabel(t))] + DecodeLabels(Written(tokens[1..]));
      }
    }
  }

  lemma {:induction false} JoinAscii(tokens: seq<string>)
    requires forall t | t in tokens :: IsAscii(t)
    ensures IsAscii(Join(tokens))
  {
    if tokens != [] {
      assert tokens[0] in tokens && forall u | u in tokens[1..] :: u in tokens;
      JoinAscii(tokens[1..]);
    }
  }

  // ---------- characters of normal forms ----------

  /** What becomes of one character of a name: a capital its small letter, anything that is not
      ASCII a question mark. */
  function NormalChar(c: char): char {
    if c == 'A' then 'a' else if c == 'B' then 'b' else if c == 'C' then 'c' else if c == 'D' then 'd'
    else if c == 'E' then 'e' else if c == 'F' then 'f' else if c == 'G' then 'g' else if c == 'H' then 'h'
    else if c == 'I' then 'i' else if c == 'J' then 'j' else if c == 'K' then 'k' else if c == 'L' then 'l'
    else if c == 'M' then 'm' else if c == 'N' then 'n' else if c == 'O' then 'o' else if c == 'P' then 'p'
    else if c == 'Q' then 'q' else if c == 'R' then 'r' else if c == 'S' then 's' else if c == 'T' then 't'
    else if c == 'U' then 'u' else if c == 'V' then 'v' else if c == 'W' then 'w' else if c == 'X' then 'x'
    else if c == 'Y' then 'y' else if c == 'Z' then 'z'
    else if c as int < 128 then c else '?'
  }

  lemma NormalCharIs(c: char)
    ensures LowerChar(DecodeByte(EncodeChar(c))) == NormalChar(c)
  {
  }

  function MapChars(s: string): (r: string)
    ensures |r| == |s|
  {
    seq(|s|, i requires 0 <= i < |s| => DecodeByte(EncodeChar(s[i])))
  }

  lemma MappedCons(t: string, rest: seq<string>)
    requires t != ""
    ensures Written([t] + rest) != []
    ensures DecodeLabels(Written([t] + rest)) == [MapChars(t)] + DecodeLabels(Written(rest))
  {
    var all := [t] + rest;
    assert all[1..] == rest && DecodeLabel(EncodeLabel(t)) == MapChars(t);
    assert Written(all) == [EncodeLabel(t)] + Written(rest);
    assert Written(all)[1..] == Written(rest);
  }

  lemma MapConcat(a: string, b: string)
    ensures MapChars(a + "." + b) == MapChars(a) + "." + MapChars(b)
  {
  }

  /** Joining commutes with a map that keeps the dots. */
  lemma {:induction false} JoinMapped(tokens: seq<string>)
    requires forall t | t in tokens :: t != ""
    ensures Join(DecodeLabels(Written(tokens))) == MapChars(Join(tokens))
  {
    if tokens != [] {
      var t, rest := tokens[0], tokens[1..];
      assert tokens == [t] + rest && t in tokens && forall u | u in rest :: u in tokens;
      JoinMapped(rest);
      MappedCons(t, rest);
      if rest != [] {
        assert rest[0] in rest && rest == [rest[0]] + rest[1..];
        MappedCons(rest[0], rest[1..]);
        MapConcat(t, Join(rest));
      }
    }
  }

  /** A name without empty labels keeps its length, and every character becomes its normal one. */
  lemma NormalizeMeans(name: string)
    requires forall t | t in Split(name) :: t != ""
    ensures |Normalize(name)| == |name|
    ensures forall i | 0 <= i < |name| :: Normalize(name)[i] == NormalChar(name[i])
  {
    JoinMapped(Split(name));
    forall i | 0 <= i < |name| ensures Normalize(name)[i] == NormalChar(name[i]) { NormalCharIs(name[i]); }
  }

  /** The text of a label as it is decoded: ASCII in small letters, anything else replaced. */
  lemma LabelText(l: Bytes, i: nat)
    requires i < |l|
    ensures |Render([l])| == |l|
    ensures Render([l])[i] == if l[i] < 128 then NormalChar(l[i] as char) else '\U{FFFD}'
  {
    assert DecodeLabels([l]) == [DecodeLabel(l)];
    if l[i] < 128 { NormalCharIs(l[i] as char); }
  }

  lemma {:induction false} LabelsEncodeIff(tokens: seq<string>)
    ensures EncodeLabels(Written(tokens)).Good? <==> forall t | t in tokens :: |t| <= 255
  {
    if tokens != [] {
      var t, rest := tokens[0], tokens[1..];
      LabelsEncodeIff(rest);
      assert t in tokens && (forall u | u in rest :: u in tokens) && forall u | u in tokens :: u == t || u in rest;
      if t == "" {
        assert Written(tokens) == Written(rest);
      } else {
        assert Written(tokens) == [EncodeLabel(t)] + Written(rest);
        assert Written(tokens)[1..] == Written(rest);
      }
    }
  }

  /** A name can be encoded exactly when none of its labels is longer than a byte can say. */
  lemma EncodesIff(name: string)
    ensures EncodedName(name).Good? <==> forall t | t in Split(name) :: |t| <= 255
  {
    LabelsEncodeIff(Split(name));
  }

  lemma PlainIsNormal(name: string)
    requires PlainName(name)
    ensures Normalize(name) == name
  {
    if name == "" {
      assert Split(name) == [""];
      assert Written([""]) == [];
    } else {
      NormalizeMeans(name);
      forall i | 0 <= i < |name| ensures PlainChar(name[i]) {
        PlainEverywhere(Split(name), i);
      }
    }
  }

  /** Every character of joined plain tokens is a dot or stands in one of them. */
  lemma {:induction false} PlainEverywhere(tokens: seq<string>, i: nat)
    requires i < |Join(tokens)| && forall t | t in tokens :: forall c | c in t :: PlainChar(c)
    ensures PlainChar(Join(tokens)[i])
  {
    var t := tokens[0];
    assert t in tokens && forall u | u in tokens[1..] :: u in tokens;
    if i > |t| { PlainEverywhere(tokens[1..], i - |t| - 1); }
  }

  /** A name is its own normal form exactly when it is plain. */
  lemma NormalIffPlain(name: string)
    ensures Normalize(name) == name <==> PlainName(name)
  {
    if PlainName(name) { PlainIsNormal(name); }
    if Normalize(name) == name && name != "" {
      var ds := DecodeLabels(Written(Split(name)));
      WrittenDecodes(Split(name));
      JoinAscii(ds);
      SplitJoin(ds);
      SplitLower(Join(ds));
      TokensInside(name);
      forall c | c in name ensures PlainChar(c) {
        var i :| 0 <= i < |name| && name[i] == c;
        assert c == LowerChar(Join(ds)[i]) && Join(ds)[i] in Join(ds);
      }
      forall t | t in Split(name) ensures t != "" {
        var i :| 0 <= i < |Split(name)| && Split(name)[i] == t;
        assert ds[i] in ds;
      }
    }
  }
}
