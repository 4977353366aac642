/** Agent events, their identifiers and batches: `agent/v1/events.go`. */
module Events {
  import opened Text
  import opened Regex
  import opened Patterns
  import opened Timestamps
  import opened JsonText
  import opened Encoding
  import opened Messages
  import opened Words

  const API_VERSION := "relayward.agent/v1"
  const ZERO_TIME := 0
  const MAXIMUM_PAYLOAD := 0x4_0000
  const MAXIMUM_EVENTS := 500
  const MAXIMUM_EXPANDED := 0x40_0000

  /** What an event's ID covers. */
  datatype Content = Content(sequence: Word, kind: string, observedAt: Time, payload: string)

  datatype Event = Event(id: string, content: Content)

  datatype EventBatch = EventBatch(apiVersion: string, nodeId: string, streamId: string,
                                   firstSequence: Word, lastSequence: Word, events: seq<Event>)

  // ----- the hashed encoding -----

  /** `binary.BigEndian`, in `width` bytes. */
  function BigEndian(n: nat, width: nat): (s: string)
    ensures |s| == width
  {
    if width == 0 then "" else BigEndian(n / 256, width - 1) + [(n % 256) as char]
  }

  function Pow256(width: nat): (power: nat)
    ensures power > 0
  {
    if width == 0 then 1 else 256 * Pow256(width - 1)
  }

  lemma {:induction false} BigEndianInjective(a: nat, b: nat, width: nat)
    requires a < Pow256(width) && b < Pow256(width) && BigEndian(a, width) == BigEndian(b, width)
    ensures a == b
  {
    if width > 0 {
      var s := BigEndian(a, width);
      assert s[width - 1] == (a % 256) as char && s[width - 1] == (b % 256) as char;
      assert s[..width - 1] == BigEndian(a / 256, width - 1) && s[..width - 1] == BigEndian(b / 256, width - 1);
      assert a / 256 < Pow256(width - 1) && b / 256 < Pow256(width - 1);
      BigEndianInjective(a / 256, b / 256, width - 1);
    }
  }

  lemma {:induction false} LessAtEnd(a: string, x: char, b: string, y: char)
    requires |a| == |b|
    ensures Less(a + [x], b + [y]) <==> Less(a, b) || (a == b && x < y)
  {
    if a != "" {
      assert (a + [x])[1..] == a[1..] + [x] && (b + [y])[1..] == b[1..] + [y];
      LessAtEnd(a[1..], x, b[1..], y);
      assert a == [a[0]] + a[1..] && b == [b[0]] + b[1..];
    }
  }

  /** The most significant byte comes first: the encodings order as the numbers do. */
  lemma {:induction false} BigEndianOrder(a: nat, b: nat, width: nat)
    requires a < Pow256(width) && b < Pow256(width)
    ensures Less(BigEndian(a, width), BigEndian(b, width)) <==> a < b
  {
    if width > 0 {
      assert a / 256 < Pow256(width - 1) && b / 256 < Pow256(width - 1);
      LessAtEnd(BigEndian(a / 256, width - 1), (a % 256) as char, BigEndian(b / 256, width - 1), (b % 256) as char);
      BigEndianOrder(a / 256, b / 256, width - 1);
      if a / 256 != b / 256 && BigEndian(a / 256, width - 1) == BigEndian(b / 256, width - 1) {
        BigEndianInjective(a / 256, b / 256, width - 1);
      }
    }
  }

  lemma WordBytes()
    ensures Pow256(8) == WORD
  {
    assert Pow256(2) == 0x1_0000 && Pow256(4) == 0x1_0000_0000 && Pow256(6) == 0x1_0000_0000_0000;
  }

  /** `writeDigestField`: the length in eight bytes, then the bytes. */
  function Field(value: string): string {
    BigEndian(|value|, 8) + value
  }

  /** What the event ID hashes. */
  function Preimage(nodeId: string, streamId: string, content: Content): string {
    Field(API_VERSION) + (Field(nodeId) + (Field(streamId) + (BigEndian(content.sequence, 8)
      + (Field(content.kind) + (Field(FormatUtc(content.observedAt.Instant())) + Field(Compact(content.payload)))))))
  }

  /** A field is told apart from what follows it. */
  lemma FieldInjective(a: string, x: string, b: string, y: string)
    requires |a| < WORD && |b| < WORD && Field(a) + x == Field(b) + y
    ensures a == b && x == y
  {
    var s := Field(a) + x;
    assert s[..8] == BigEndian(|a|, 8) && s[..8] == BigEndian(|b|, 8);
    WordBytes();
    BigEndianInjective(|a|, |b|, 8);
    assert s[8..8 + |a|] == a && s[8..8 + |b|] == b;
    assert s[8 + |a|..] == x && s[8 + |b|..] == y;
  }

  lemma NumberInjective(a: Word, x: string, b: Word, y: string)
    requires BigEndian(a, 8) + x == BigEndian(b, 8) + y
    ensures a == b && x == y
  {
    var s := BigEndian(a, 8) + x;
    assert s[..8] == BigEndian(a, 8) && s[..8] == BigEndian(b, 8);
    WordBytes();
    BigEndianInjective(a, b, 8);
    assert s[8..] == x && s[8..] == y;
  }

  // ----- single events -----

  predicate ValidKind(kind: string) {
    Matches(DottedName(), kind) && |kind| <= 128
  }

  predicate ValidPayload(codec: Codec, payload: string) {
    0 < |payload| <= MAXIMUM_PAYLOAD && codec.valid(payload)
  }

  /** `validateEventContent`. */
  predicate ValidContent(codec: Codec, content: Content) {
    && 0 < content.sequence <= MAXIMUM_INT64
    && ValidKind(content.kind)
    && content.observedAt.Instant() != ZERO_TIME
    && ValidPayload(codec, content.payload)
  }

  predicate ValidStream(nodeId: string, streamId: string) {
    Matches(Uuid(), nodeId) && LowerHex(streamId, 32)
  }

  function EventIdOf(codec: Codec, nodeId: string, streamId: string, content: Content): Option<string> {
    if ValidStream(nodeId, streamId) && ValidContent(codec, content)
    then Some(codec.HexDigest(Preimage(nodeId, streamId, content))) else None
  }

  /** The running SHA-256 state: the bytes written so far. */
  class DigestWriter {
    var written: string

    constructor ()
      ensures written == ""
    {
      written := "";
    }

    method Write(bytes: string)
      modifies this
      ensures written == old(written) + bytes
    {
      written := written + bytes;
    }

    /** `writeDigestField`. */
    method WriteField(value: string)
      modifies this
      ensures written == old(written) + Field(value)
    {
      Write(BigEndian(|value|, 8));
      Write(value);
    }
  }

  /** `EventID`. */
  method EventId(codec: Codec, nodeId: string, streamId: string, content: Content) returns (id: Option<string>)
    ensures id == EventIdOf(codec, nodeId, streamId, content)
  {
    if !ValidStream(nodeId, streamId) || !ValidContent(codec, content) {
      return None;
    }
    var digest := new DigestWriter();
    digest.WriteField(API_VERSION);
    digest.WriteField(nodeId);
    digest.WriteField(streamId);
    digest.Write(BigEndian(content.sequence, 8));
    digest.WriteField(content.kind);
    digest.WriteField(FormatUtc(content.observedAt.Instant()));
    digest.WriteField(Compact(content.payload));
    Nest(Field(API_VERSION), Field(nodeId), Field(streamId), BigEndian(content.sequence, 8),
         Field(content.kind), Field(FormatUtc(content.observedAt.Instant())), Field(Compact(content.payload)));
    id := Some(codec.HexDigest(digest.written));
  }

  lemma Nest(a: string, b: string, c: string, d: string, e: string, f: string, g: string)
    ensures "" + a + b + c + d + e + f + g == a + (b + (c + (d + (e + (f + g)))))
  {
    assert f + g + "" == f + g;
    assert e + f + g == e + (f + g);
    assert d + e + f + g == d + (e + (f + g));
    assert c + d + e + f + g == c + (d + (e + (f + g)));
  }

  // ----- what is hashed, as a reader takes it apart -----

  /** Bytes as a number, the most significant first. */
  function Number(bytes: string): nat {
    if bytes == "" then 0 else Number(bytes[..|bytes| - 1]) * 256 + bytes[|bytes| - 1] as int
  }

  /** Eight bytes of length, that many bytes, and what follows. */
  function TakeField(text: string): Option<(string, string)> {
    if |text| < 8 then None
    else
      var length := Number(text[..8]);
      if |text| < 8 + length then None else Some((text[8..8 + length], text[8 + length..]))
  }

  /** The eight bytes of a number, and what follows. */
  function TakeNumber(text: string): Option<(nat, string)> {
    if |text| < 8 then None else Some((Number(text[..8]), text[8..]))
  }

  datatype Hashed = Hashed(version: string, node: string, stream: string, sequence: nat, kind: string, time: string, payload: string)

  /** The seven parts of a hashed text, in order, with nothing left over. */
  function TakeApart(text: string): Option<Hashed> {
    var version := TakeField(text);
    var node := if version == None then None else TakeField(version.value.1);
    var stream := if node == None then None else TakeField(node.value.1);
    var sequence := if stream == None then None else TakeNumber(stream.value.1);
    var kind := if sequence == None then None else TakeField(sequence.value.1);
    var time := if kind == None then None else TakeField(kind.value.1);
    var payload := if time == None then None else TakeField(time.value.1);
    if payload == None || payload.value.1 != "" then None
    else Some(Hashed(version.value.0, node.value.0, stream.value.0, sequence.value.0, kind.value.0, time.value.0, payload.value.0))
  }

  lemma {:induction false} NumberRead(n: nat, width: nat)
    requires n < Pow256(width)
    ensures Number(BigEndian(n, width)) == n
  {
    if width > 0 {
      assert n / 256 < Pow256(width - 1);
      NumberRead(n / 256, width - 1);
      assert BigEndian(n, width)[..width - 1] == BigEndian(n / 256, width - 1);
    }
  }

  lemma FieldTaken(value: string, rest: string)
    requires |value| < WORD
    ensures TakeField(Field(value) + rest) == Some((value, rest))
  {
    var text := Field(value) + rest;
    WordBytes();
    NumberRead(|value|, 8);
    hide Number, BigEndian, Pow256;
    assert text[..8] == BigEndian(|value|, 8) && text[8..8 + |value|] == value && text[8 + |value|..] == rest;
  }

  lemma NumberTaken(n: Word, rest: string)
    ensures TakeNumber(BigEndian(n, 8) + rest) == Some((n, rest))
  {
    var text := BigEndian(n, 8) + rest;
    WordBytes();
    NumberRead(n, 8);
    hide Number, BigEndian, Pow256;
    assert text[..8] == BigEndian(n, 8) && text[8..] == rest;
  }

  lemma PartsTaken(n: string, s: string, q: Word, k: string, t: string, p: string)
    requires |n| < WORD && |s| < WORD && |k| < WORD && |t| < WORD && |p| < WORD
    ensures TakeApart(Field(API_VERSION) + (Field(n) + (Field(s) + (BigEndian(q, 8) + (Field(k) + (Field(t) + Field(p)))))))
         == Some(Hashed("relayward.agent/v1", n, s, q, k, t, p))
  {
    hide Field, BigEndian, TakeField, TakeNumber;
    var tail6 := Field(t) + Field(p);
    var tail5 := Field(k) + tail6;
    var tail4 := BigEndian(q, 8) + tail5;
    var tail3 := Field(s) + tail4;
    var tail2 := Field(n) + tail3;
    FieldTaken(API_VERSION, tail2);
    FieldTaken(n, tail3);
    FieldTaken(s, tail4);
    NumberTaken(q, tail5);
    FieldTaken(k, tail6);
    FieldTaken(t, Field(p));
    FieldTaken(p, "");
    assert Field(p) + "" == Field(p);
  }

  /**
   Every event ID there is hashes the API version, the node, the stream, the sequence, the kind, the UTC
   timestamp and the compacted payload, in this order, each but the sequence behind its length.
   */
  lemma EventIdText(codec: Codec, nodeId: string, streamId: string, content: Content) returns (text: string)
    requires EventIdOf(codec, nodeId, streamId, content).Some? && Go64(content.observedAt.Instant())
    ensures EventIdOf(codec, nodeId, streamId, content) == Some(codec.HexDigest(text))
    ensures var utc := Time(content.observedAt.Instant(), 0);
            && TakeApart(text) == Some(Hashed("relayward.agent/v1", nodeId, streamId, content.sequence, content.kind,
                                              Format(utc), Compact(content.payload)))
            && (FourDigitYear(utc.wall) ==> Parse(Format(utc)) == Some(utc))
  {
    hide TakeApart, Format, FormatUtc, Field, BigEndian, Matches, Parse, Scan, FourDigitYear, Go64;
    text := Preimage(nodeId, streamId, content);
    var instant := content.observedAt.Instant();
    UtcReads(instant);
    PartsFit(codec, nodeId, streamId, content);
    PartsTaken(nodeId, streamId, content.sequence, content.kind, FormatUtc(instant), Compact(content.payload));
  }

  lemma PartsFit(codec: Codec, nodeId: string, streamId: string, content: Content)
    requires EventIdOf(codec, nodeId, streamId, content).Some? && Go64(content.observedAt.Instant())
    ensures |nodeId| < WORD && |streamId| < WORD && |content.kind| < WORD
    ensures |FormatUtc(content.observedAt.Instant())| < WORD && |Compact(content.payload)| < WORD
  {
    hide Matches, Scan, FormatUtc;
    UuidLength(nodeId);
    CompactNotLonger(content.payload, Outside);
    NearbyRepresentable(content.observedAt);
    FormatUtcLength(content.observedAt.Instant());
  }

  /** Content that has an ID, at an instant Go can hold: every field's length then fits its eight bytes. */
  ghost predicate Encodable(codec: Codec, nodeId: string, streamId: string, content: Content) {
    ValidStream(nodeId, streamId) && ValidContent(codec, content) && codec.Sound(content.payload)
    && Representable(content.observedAt.Instant())
  }

  lemma FieldsFit(codec: Codec, nodeId: string, streamId: string, content: Content)
    requires Encodable(codec, nodeId, streamId, content)
    ensures |nodeId| < WORD && |streamId| < WORD && |content.kind| < WORD
    ensures |FormatUtc(content.observedAt.Instant())| < WORD && |Compact(content.payload)| < WORD
  {
    UuidLength(nodeId);
    FormatUtcLength(content.observedAt.Instant());
    ScanLexical(content.payload, Outside, false);
  }

  /** The hashed bytes determine the node, the stream and everything the ID is documented to cover. */
  lemma PreimageInjective(codec: Codec, node: string, stream: string, content: Content, node': string, stream': string, content': Content)
    requires Encodable(codec, node, stream, content) && Encodable(codec, node', stream', content')
    requires Preimage(node, stream, content) == Preimage(node', stream', content')
    ensures node == node' && stream == stream' && content.sequence == content'.sequence && content.kind == content'.kind
    ensures content.observedAt.Instant() == content'.observedAt.Instant() && Compact(content.payload) == Compact(content'.payload)
  {
    FieldsFit(codec, node, stream, content);
    FieldsFit(codec, node', stream', content');
    FieldsInjective(node, stream, content.sequence, content.kind, FormatUtc(content.observedAt.Instant()), Compact(content.payload),
                    node', stream', content'.sequence, content'.kind, FormatUtc(content'.observedAt.Instant()), Compact(content'.payload));
    FormatUtcInjective(content.observedAt.Instant(), content'.observedAt.Instant());
  }

  lemma FieldsInjective(n: string, s: string, q: Word, k: string, t: string, p: string,
                        n': string, s': string, q': Word, k': string, t': string, p': string)
    requires |n| < WORD && |s| < WORD && |k| < WORD && |t| < WORD && |p| < WORD
    requires |n'| < WORD && |s'| < WORD && |k'| < WORD && |t'| < WORD && |p'| < WORD
    requires Field(API_VERSION) + (Field(n) + (Field(s) + (BigEndian(q, 8) + (Field(k) + (Field(t) + Field(p))))))
          == Field(API_VERSION) + (Field(n') + (Field(s') + (BigEndian(q', 8) + (Field(k') + (Field(t') + Field(p'))))))
    ensures n == n' && s == s' && q == q' && k == k' && t == t' && p == p'
  {
    var tail6, tail6' := Field(t) + Field(p), Field(t') + Field(p');
    var tail5, tail5' := Field(k) + tail6, Field(k') + tail6';
    var tail4, tail4' := BigEndian(q, 8) + tail5, BigEndian(q', 8) + tail5';
    var tail3, tail3' := Field(s) + tail4, Field(s') + tail4';
    FieldInjective(API_VERSION, Field(n) + tail3, API_VERSION, Field(n') + tail3');
    FieldInjective(n, tail3, n', tail3');
    FieldInjective(s, tail4, s', tail4');
    NumberInjective(q, tail5, q', tail5');
    FieldInjective(k, tail6, k', tail6');
    FieldInjective(t, Field(p), t', Field(p'));
    assert Field(p) + "" == Field(p') + "";
    FieldInjective(p, "", p', "");
  }

  /** `ValidateEventForNode`. */
  predicate AcceptedEvent(codec: Codec, nodeId: string, streamId: string, event: Event) {
    LowerHex(event.id, 64) && EventIdOf(codec, nodeId, streamId, event.content) == Some(event.id)
  }

  /** An event accepted under one node and stream is accepted under no other. */
  lemma EventBelongsToOneStream(codec: Codec, node: string, stream: string, node': string, stream': string, event: Event)
    requires codec.Sound(event.content.payload) && Representable(event.content.observedAt.Instant())
    requires codec.NoCollision(Preimage(node, stream, event.content), Preimage(node', stream', event.content))
    requires AcceptedEvent(codec, node, stream, event) && AcceptedEvent(codec, node', stream', event)
    ensures node == node' && stream == stream'
  {
    DigestDetermines(codec, Preimage(node, stream, event.content), Preimage(node', stream', event.content));
    PreimageInjective(codec, node, stream, event.content, node', stream', event.content);
  }

  // ----- transport -----

  /** `NewEvent`, from the text of the payload: `json.Marshal` writes it in its escaped form; the time becomes UTC. */
  method NewEvent(codec: Codec, nodeId: string, streamId: string, sequence: Word, kind: string, observedAt: Time, text: string)
      returns (event: Option<Event>)
    ensures var content := Content(sequence, kind, Time(observedAt.Instant(), 0), Escape(text));
            && (event.Some? <==> EventIdOf(codec, nodeId, streamId, content).Some?)
            && (event.Some? ==> event.value.content == content && AcceptedEvent(codec, nodeId, streamId, event.value))
  {
    var content := Content(sequence, kind, Time(observedAt.Instant(), 0), Escape(text));
    var id := EventId(codec, nodeId, streamId, content);
    if id == None {
      return None;
    }
    event := Some(Event(id.value, content));
  }

  function MembersText(sequence: Word, id: string, kind: string, observed: string, payload: string): string {
    NumberMember('{', "sequence", sequence,
    TextMember(',', "event_id", id,
    TextMember(',', "kind", kind,
    TextMember(',', "observed_at", observed, LastMember("payload", payload)))))
  }

  /** `json.Marshal` of an event whose time it can write. */
  function EventText(event: Event): string
    requires Writable(event.content.observedAt)
  {
    MembersText(event.content.sequence, event.id, event.content.kind, Format(event.content.observedAt), event.content.payload)
  }

  /** An encoded event: these members in this order, with nothing in between. */
  lemma EventTextIs(event: Event)
    requires Writable(event.content.observedAt)
    ensures EventText(event)
         == "{\"sequence\":" + (Decimal(event.content.sequence) + (",\"event_id\":\"" + (event.id + ("\",\"kind\":\""
            + (event.content.kind + ("\",\"observed_at\":\"" + (Format(event.content.observedAt) + ("\",\"payload\":"
            + (Escape(event.content.payload) + "}")))))))))
  {
    hide Scan, TextMember, NumberMember, Member, Format, Decimal;
    var content := event.content;
    var last := LastMember("payload", content.payload);
    var observed := TextMember(',', "observed_at", Format(content.observedAt), last);
    var kind := TextMember(',', "kind", content.kind, observed);
    RawThen("\",\"payload\":", ',', "payload", Escape(content.payload), ['}']);
    TextThen("\",\"observed_at\":\"", ',', "observed_at", Format(content.observedAt), last);
    TextThen("\",\"kind\":\"", ',', "kind", content.kind, observed);
    TextMemberIs(",\"event_id\":\"", ',', "event_id", event.id, kind);
    NumberMemberIs("{\"sequence\":", '{', "sequence", content.sequence, TextMember(',', "event_id", event.id, kind));
  }

  /** The members of an encoded event, read in the order the encoder writes them. */
  function ReadMembers(text: string): Option<(Word, string, string, string, string)> {
    var sequence := ReadNumber(text, '{', "sequence");
    var id := if sequence == None then None else ReadText(sequence.value.1, ',', "event_id");
    var kind := if id == None then None else ReadText(id.value.1, ',', "kind");
    var observed := if kind == None then None else ReadText(kind.value.1, ',', "observed_at");
    var payload := if observed == None then None else ReadLast(observed.value.1, "payload");
    if payload == None then None
    else Some((sequence.value.0, id.value.0, kind.value.0, observed.value.0, payload.value))
  }

  function Decode(text: string): Option<Event> {
    var members := ReadMembers(text);
    if members == None then None
    else
      var (sequence, id, kind, observed, payload) := members.value;
      if Parse(observed) == None then None
      else Some(Event(id, Content(sequence, kind, Parse(observed).value, payload)))
  }

  /** The event at the other end: encoded, carried in further documents, and decoded; None where encoding fails. */
  function Delivered(event: Event, times: nat): Option<Event> {
    if Writable(event.content.observedAt) then Decode(Carry(EventText(event), times)) else None
  }

  lemma ReadMembersText(sequence: Word, id: string, kind: string, observed: string, payload: string)
    requires Inert(id) && Inert(kind) && Inert(observed)
    ensures ReadMembers(MembersText(sequence, id, kind, observed, payload)) == Some((sequence, id, kind, observed, Escape(payload)))
  {
    hide Inert;
    var last := LastMember("payload", payload);
    var afterKind := TextMember(',', "observed_at", observed, last);
    var afterId := TextMember(',', "kind", kind, afterKind);
    var afterSequence := TextMember(',', "event_id", id, afterId);
    assert afterSequence[0] == ',';
    hide TextMember, LastMember;
    ReadNumberMember('{', "sequence", sequence, afterSequence);
    ReadTextMember(',', "event_id", id, afterId);
    ReadTextMember(',', "kind", kind, afterKind);
    ReadTextMember(',', "observed_at", observed, last);
    ReadLastMember("payload", payload);
  }

  lemma MembersTextIsFixed(sequence: Word, id: string, kind: string, observed: string, payload: string)
    requires Inert(id) && Inert(kind) && Inert(observed) && Lexical(payload, Outside)
    ensures Fixed(MembersText(sequence, id, kind, observed, payload))
  {
    var last := LastMember("payload", payload);
    var afterKind := TextMember(',', "observed_at", observed, last);
    var afterId := TextMember(',', "kind", kind, afterKind);
    LastMemberIsFixed("payload", payload);
    TextMemberIsFixed(',', "observed_at", observed, last);
    TextMemberIsFixed(',', "kind", kind, afterKind);
    TextMemberIsFixed(',', "event_id", id, afterId);
    NumberMemberIsFixed('{', "sequence", sequence, TextMember(',', "event_id", id, afterId));
  }

  /** What arrives: the offset's whole minutes, and the payload in the encoder's form. */
  function Received(event: Event): Event {
    event.(content := event.content.(observedAt := event.content.observedAt.Shown(), payload := Escape(event.content.payload)))
  }

  lemma DecodeMembers(event: Event, observed: string)
    requires Inert(event.id) && Inert(event.content.kind) && Inert(observed)
    requires Parse(observed) == Some(event.content.observedAt.Shown())
    ensures Decode(MembersText(event.content.sequence, event.id, event.content.kind, observed, event.content.payload))
         == Some(Received(event))
  {
    hide MembersText, ReadMembers, Parse;
    ReadMembersText(event.content.sequence, event.id, event.content.kind, observed, event.content.payload);
  }

  /** However many documents an event is carried in, it arrives, exactly when its time can be written. */
  lemma DeliveredEvent(event: Event, times: nat)
    requires Inert(event.id) && Inert(event.content.kind) && Lexical(event.content.payload, Outside)
    ensures Delivered(event, times) == if Writable(event.content.observedAt) then Some(Received(event)) else None
  {
    if Writable(event.content.observedAt) {
      var content, observed := event.content, Format(event.content.observedAt);
      TimeIsInert(content.observedAt);
      FormatRoundTrip(content.observedAt);
      hide Format, Parse, Lexical, Inert;
      MembersTextIsFixed(content.sequence, event.id, content.kind, observed, content.payload);
      CarryFixed(EventText(event), times);
      DecodeMembers(event, observed);
    }
  }

  lemma AcceptedIsInert(codec: Codec, nodeId: string, streamId: string, event: Event)
    requires AcceptedEvent(codec, nodeId, streamId, event)
    ensures Inert(event.id) && Inert(event.content.kind)
  {
    HexIsInert(event.id, 64);
    KindIsInert(event.content.kind);
  }

  /** An event made by `NewEvent` arrives as it was sent, ID and all, exactly when its year has four digits. */
  lemma NewEventSurvives(codec: Codec, nodeId: string, streamId: string, event: Event, instant: int, text: string, times: nat)
    requires AcceptedEvent(codec, nodeId, streamId, event) && event.content.observedAt == Time(instant, 0)
    requires event.content.payload == Escape(text) && Lexical(text, Outside)
    ensures Delivered(event, times) == if FourDigitYear(instant) then Some(event) else None
  {
    AcceptedIsInert(codec, nodeId, streamId, event);
    ScanTwice(text, Outside, true, true);
    ScanLexical(text, Outside, true);
    hide AcceptedEvent, Delivered, Scan, Lexical, Inert, FourDigitYear;
    DeliveredEvent(event, times);
    assert Received(event) == event;
  }

  lemma ReceivedContent(codec: Codec, content: Content)
    requires ValidContent(codec, content) && codec.Sound(content.payload)
    ensures codec.Sound(Escape(content.payload)) && codec.valid(Escape(content.payload))
    ensures |Compact(content.payload)| <= MAXIMUM_PAYLOAD
    ensures Compact(Escape(content.payload)) == Escape(content.payload)
    ensures Escape(content.payload) == Compact(content.payload) <==> !HasEscapable(content.payload)
  {
    ScanTwice(content.payload, Outside, true, false);
    ScanTwice(content.payload, Outside, true, true);
    ScanLexical(content.payload, Outside, false);
    ScanLexical(content.payload, Outside, true);
    EscapeIsCompact(content.payload, Outside);
  }

  lemma NearbyRepresentable(t: Time)
    requires Go64(t.Instant())
    ensures Representable(t.Instant()) && Representable(t.Shown().Instant())
  {
  }

  /** The received content hashes alike exactly when neither the offset nor the payload lost anything. */
  lemma ReceivedPreimage(codec: Codec, nodeId: string, streamId: string, event: Event)
    requires Encodable(codec, nodeId, streamId, event.content) && Go64(event.content.observedAt.Instant())
    requires ValidContent(codec, Received(event).content)
    ensures Preimage(nodeId, streamId, Received(event).content) == Preimage(nodeId, streamId, event.content)
       <==> event.content.observedAt.offset % 60 == 0 && !HasEscapable(event.content.payload)
  {
    var content, received := event.content, Received(event).content;
    ReceivedContent(codec, content);
    ShownInstant(content.observedAt);
    NearbyRepresentable(content.observedAt);
    hide ValidContent, Minutes, Scan, Codec.Sound, Representable, Go64;
    assert Encodable(codec, nodeId, streamId, received);
    if Preimage(nodeId, streamId, received) == Preimage(nodeId, streamId, content) {
      PreimageInjective(codec, nodeId, streamId, received, nodeId, streamId, content);
    }
  }

  lemma ReceivedIsValid(codec: Codec, event: Event)
    requires ValidContent(codec, event.content) && codec.Sound(event.content.payload)
    requires event.content.observedAt.offset % 60 == 0 && !HasEscapable(event.content.payload)
    ensures ValidContent(codec, Received(event).content)
  {
    hide ValidKind, Codec.Sound, Scan, Minutes, HasEscapable;
    ReceivedContent(codec, event.content);
    ShownInstant(event.content.observedAt);
  }

  lemma ReceivedAccepted(codec: Codec, nodeId: string, streamId: string, event: Event)
    requires AcceptedEvent(codec, nodeId, streamId, event) && codec.Sound(event.content.payload)
    requires Go64(event.content.observedAt.Instant())
    requires codec.NoCollision(Preimage(nodeId, streamId, Received(event).content), Preimage(nodeId, streamId, event.content))
    ensures AcceptedEvent(codec, nodeId, streamId, Received(event))
       <==> event.content.observedAt.offset % 60 == 0 && !HasEscapable(event.content.payload)
  {
    hide ValidContent, Preimage, Received, HasEscapable, LowerHex, ValidStream, Codec.NoCollision, Codec.Sound, Codec.HexDigest, Go64;
    NearbyRepresentable(event.content.observedAt);
    var received := Received(event);
    assert received.id == event.id by { SameId(event); }
    DigestDetermines(codec, Preimage(nodeId, streamId, received.content), Preimage(nodeId, streamId, event.content));
    if event.content.observedAt.offset % 60 == 0 && !HasEscapable(event.content.payload) {
      ReceivedIsValid(codec, event);
    }
    if ValidContent(codec, received.content) {
      ReceivedPreimage(codec, nodeId, streamId, event);
    }
  }

  lemma SameId(event: Event)
    ensures Received(event).id == event.id
  {
  }

  /**
   Any accepted event is still accepted on arrival exactly when its time can be written, its offset has no
   seconds to lose, and its payload holds none of the escaped characters.
   */
  lemma AcceptedEventSurvives(codec: Codec, nodeId: string, streamId: string, event: Event, times: nat)
    requires AcceptedEvent(codec, nodeId, streamId, event) && codec.Sound(event.content.payload)
    requires Go64(event.content.observedAt.Instant())
    requires codec.NoCollision(Preimage(nodeId, streamId, Received(event).content), Preimage(nodeId, streamId, event.content))
    ensures var arrived := Delivered(event, times);
            (arrived.Some? && AcceptedEvent(codec, nodeId, streamId, arrived.value))
            <==> && Writable(event.content.observedAt) && event.content.observedAt.offset % 60 == 0
                 && !HasEscapable(event.content.payload)
  {
    AcceptedIsInert(codec, nodeId, streamId, event);
    assert Lexical(event.content.payload, Outside);
    hide AcceptedEvent, Delivered, Preimage, Received, HasEscapable, Codec.NoCollision, Codec.Sound, Go64, Lexical, Inert, Writable;
    DeliveredEvent(event, times);
    ReceivedAccepted(codec, nodeId, streamId, event);
  }

  // ----- batches -----

  /** The sequences run on from the first one without a gap, in plain arithmetic. */
  predicate Contiguous(events: seq<Event>, first: Word) {
    forall i :: 0 <= i < |events| ==> events[i].content.sequence == first + i
  }

  predicate AllAccepted(codec: Codec, nodeId: string, streamId: string, events: seq<Event>) {
    forall event :: event in events ==> AcceptedEvent(codec, nodeId, streamId, event)
  }

  predicate AllWritable(events: seq<Event>) {
    forall event :: event in events ==> Writable(event.content.observedAt)
  }

  /** The elements of the encoded list, after commas. */
  function EventsText(events: seq<Event>): string
    requires AllWritable(events)
  {
    if events == [] then "" else EventsText(events[..|events| - 1]) + [','] + EventText(events[|events| - 1])
  }

  /** `json.Marshal` of a batch with at least one event, whose identifiers need no escaping. */
  function BatchText(batch: EventBatch): string
    requires batch.events != [] && AllWritable(batch.events)
  {
    TextMember('{', "api_version", batch.apiVersion,
    TextMember(',', "node_id", batch.nodeId,
    TextMember(',', "stream_id", batch.streamId,
    NumberMember(',', "first_sequence", batch.firstSequence,
    NumberMember(',', "last_sequence", batch.lastSequence,
    [','] + Member("events", ['['] + EventsText(batch.events)[1..] + [']'], ['}']))))))
  }

  lemma PartOfWritable(events: seq<Event>, part: seq<Event>)
    requires AllWritable(events) && forall event :: event in part ==> event in events
    ensures AllWritable(part) && (part != [] ==> Writable(part[0].content.observedAt))
  {
    hide Writable;
  }

  lemma LastOfEvents(events: seq<Event>)
    requires events != [] && AllWritable(events)
    ensures var init, last := events[..|events| - 1], events[|events| - 1];
            && AllWritable(init) && Writable(last.content.observedAt)
            && EventsText(events) == EventsText(init) + [','] + EventText(last)
  {
    hide Writable, EventText;
  }

  lemma NoEvents()
    ensures EventsText([]) == ""
  {
  }

  /** The elements in order, from the front, a comma before each. */
  lemma {:induction false} EventsTextIs(events: seq<Event>)
    requires events != [] && AllWritable(events)
    ensures Writable(events[0].content.observedAt) && AllWritable(events[1..])
    ensures EventsText(events) == [','] + EventText(events[0]) + EventsText(events[1..])
    decreases |events|
  {
    hide Writable, AllWritable, EventText, EventsText;
    PartOfWritable(events, events);
    PartOfWritable(events, events[1..]);
    var init, tail := events[..|events| - 1], events[1..];
    LastOfEvents(events);
    NoEvents();
    if init == [] {
      assert tail == [];
    } else {
      EventsTextIs(init);
      LastOfEvents(tail);
      assert tail[..|tail| - 1] == init[1..] && tail[|tail| - 1] == events[|events| - 1];
    }
  }

  lemma BatchNumbers(first: nat, last: nat, list: string)
    ensures ['"'] + NumberMember(',', "first_sequence", first,
                    NumberMember(',', "last_sequence", last, [','] + Member("events", list, ['}'])))
         == "\",\"first_sequence\":" + (Decimal(first) + (",\"last_sequence\":" + (Decimal(last) + (",\"events\":" + (list + "}")))))
  {
    hide NumberMember, Member, Decimal;
    var events := [','] + Member("events", list, ['}']);
    var afterFirst := NumberMember(',', "last_sequence", last, events);
    RawMemberIs(",\"events\":", ',', "events", list, "}");
    NumberMemberIs(",\"last_sequence\":", ',', "last_sequence", last, events);
    NumberThen("\",\"first_sequence\":", ',', "first_sequence", first, afterFirst);
  }

  lemma BatchNames(apiVersion: string, nodeId: string, streamId: string, rest: string)
    ensures TextMember('{', "api_version", apiVersion, TextMember(',', "node_id", nodeId, TextMember(',', "stream_id", streamId, rest)))
         == "{\"api_version\":\"" + (apiVersion + ("\",\"node_id\":\"" + (nodeId + ("\",\"stream_id\":\"" + (streamId + (['"'] + rest))))))
  {
    hide TextMember;
    var stream := TextMember(',', "stream_id", streamId, rest);
    TextThen("\",\"stream_id\":\"", ',', "stream_id", streamId, rest);
    TextThen("\",\"node_id\":\"", ',', "node_id", nodeId, stream);
    TextMemberIs("{\"api_version\":\"", '{', "api_version", apiVersion, TextMember(',', "node_id", nodeId, stream));
  }

  /** An encoded batch: these members in this order, with nothing in between. */
  lemma BatchTextIs(batch: EventBatch)
    requires batch.events != [] && AllWritable(batch.events)
    ensures EventsText(batch.events) != ""
    ensures BatchText(batch)
         == "{\"api_version\":\"" + (batch.apiVersion + ("\",\"node_id\":\"" + (batch.nodeId + ("\",\"stream_id\":\""
            + (batch.streamId + ("\",\"first_sequence\":" + (Decimal(batch.firstSequence) + (",\"last_sequence\":"
            + (Decimal(batch.lastSequence) + (",\"events\":" + (("[" + EventsText(batch.events)[1..] + "]") + "}")))))))))))
  {
    hide TextMember, NumberMember, Member, EventsText, EventText, Decimal, AllWritable, Writable;
    EventsTextIs(batch.events);
    var list := ['['] + EventsText(batch.events)[1..] + [']'];
    BatchNumbers(batch.firstSequence, batch.lastSequence, list);
    BatchNames(batch.apiVersion, batch.nodeId, batch.streamId,
               NumberMember(',', "first_sequence", batch.firstSequence,
               NumberMember(',', "last_sequence", batch.lastSequence, [','] + Member("events", list, ['}']))));
  }

  predicate ValidHeader(batch: EventBatch) {
    && batch.apiVersion == API_VERSION && ValidStream(batch.nodeId, batch.streamId)
    && 1 <= |batch.events| <= MAXIMUM_EVENTS
  }

  /** The batch can be encoded, and is not too long then. */
  predicate FitsEncoded(batch: EventBatch) {
    batch.events != [] && AllWritable(batch.events) && |BatchText(batch)| <= MAXIMUM_EXPANDED
  }

  predicate AcceptedBatch(codec: Codec, batch: EventBatch) {
    && ValidHeader(batch)
    && Contiguous(batch.events, batch.firstSequence) && batch.lastSequence == batch.firstSequence + |batch.events| - 1
    && AllAccepted(codec, batch.nodeId, batch.streamId, batch.events)
    && FitsEncoded(batch)
  }

  /** `ValidateEventForNode`. */
  method ValidateEventForNode(codec: Codec, nodeId: string, streamId: string, event: Event) returns (ok: bool)
    ensures ok <==> AcceptedEvent(codec, nodeId, streamId, event)
    ensures ok ==> 0 < event.content.sequence <= MAXIMUM_INT64
  {
    if !LowerHex(event.id, 64) {
      return false;
    }
    var expected := EventId(codec, nodeId, streamId, event.content);
    ok := expected == Some(event.id);
  }

  /** The loop of `ValidateEventBatch`; `accept` is `ValidateEventForNode` for the batch's node and stream. */
  method ValidateEvents(accept: Event -> bool, events: seq<Event>) returns (ok: bool)
    requires events != []
    requires forall event :: accept(event) ==> event.content.sequence <= MAXIMUM_INT64
    ensures ok <==> (forall event :: event in events ==> accept(event)) && Contiguous(events, events[0].content.sequence)
  {
    for index := 0 to |events|
      invariant forall event :: event in events[..index] ==> accept(event)
      invariant forall i :: 0 <= i < index ==> events[i].content.sequence == events[0].content.sequence + i
    {
      if !accept(events[index]) {
        return false;
      }
      if index > 0 && events[index].content.sequence != Add(events[index - 1].content.sequence, 1) {
        assert accept(events[index - 1]);
        return false;
      }
      assert events[..index + 1] == events[..index] + [events[index]];
    }
    assert events[..|events|] == events;
    ok := true;
  }

  method ValidateEventsFor(codec: Codec, nodeId: string, streamId: string, events: seq<Event>) returns (ok: bool)
    requires events != []
    ensures ok <==> AllAccepted(codec, nodeId, streamId, events) && Contiguous(events, events[0].content.sequence)
  {
    ok := ValidateEvents(event => AcceptedEvent(codec, nodeId, streamId, event), events);
  }

  /** `ValidateEventBatch`. */
  method ValidateEventBatch(codec: Codec, batch: EventBatch) returns (ok: bool)
    ensures ok <==> AcceptedBatch(codec, batch)
  {
    hide ValidStream, AllAccepted, BatchText, AllWritable;
    if !ValidHeader(batch) {
      return false;
    }
    if batch.firstSequence != batch.events[0].content.sequence
      || batch.lastSequence != batch.events[|batch.events| - 1].content.sequence {
      return false;
    }
    var eventsOk := ValidateEventsFor(codec, batch.nodeId, batch.streamId, batch.events);
    if !eventsOk {
      return false;
    }
    ok := FitsEncoded(batch);
  }

  /** No two events of an accepted batch share an ID. */
  lemma BatchIdsDistinct(codec: Codec, batch: EventBatch, i: nat, j: nat)
    requires AcceptedBatch(codec, batch) && i < j < |batch.events|
    requires codec.Sound(batch.events[i].content.payload) && Representable(batch.events[i].content.observedAt.Instant())
    requires codec.Sound(batch.events[j].content.payload) && Representable(batch.events[j].content.observedAt.Instant())
    requires codec.NoCollision(Preimage(batch.nodeId, batch.streamId, batch.events[i].content),
                               Preimage(batch.nodeId, batch.streamId, batch.events[j].content))
    ensures batch.events[i].id != batch.events[j].id
  {
    var first, second := batch.events[i], batch.events[j];
    assert first in batch.events && second in batch.events;
    assert AcceptedEvent(codec, batch.nodeId, batch.streamId, first) && AcceptedEvent(codec, batch.nodeId, batch.streamId, second);
    assert first.content.sequence != second.content.sequence;
    hide AcceptedBatch, Preimage, ValidContent, ValidStream, LowerHex, Representable, Codec.Sound, Codec.NoCollision;
    DigestDetermines(codec, Preimage(batch.nodeId, batch.streamId, first.content), Preimage(batch.nodeId, batch.streamId, second.content));
    if first.id == second.id {
      PreimageInjective(codec, batch.nodeId, batch.streamId, first.content, batch.nodeId, batch.streamId, second.content);
    }
  }
}
