/** Control commands and their digest: `agent/v1/commands.go`, and plugin configurations: `agent/v1/plugins.go`. */
module Commands {
  import opened Text
  import opened Regex
  import opened Patterns
  import opened Timestamps
  import opened Zones
  import opened JsonText
  import opened JsonMeaning
  import opened Encoding
  import opened Messages
  import JsonTokens

  const ZERO_TIME := 0
  const MAXIMUM_PAYLOAD := 0x8_0000
  const MAXIMUM_CONFIGURATION := 0x6_0000

  datatype Command = Command(kind: string, issuedAt: Time, expiresAt: Time, payload: string)

  predicate ValidKind(kind: string) {
    Matches(DottedName(), kind) && |kind| <= 128
  }

  predicate ValidTimes(issuedAt: int, expiresAt: int) {
    issuedAt != ZERO_TIME && expiresAt != ZERO_TIME && expiresAt > issuedAt && expiresAt - issuedAt <= DAY
  }

  predicate ValidPayload(codec: Codec, payload: string) {
    0 < |payload| <= MAXIMUM_PAYLOAD && codec.valid(payload)
  }

  /** `ValidateCommand`. */
  predicate ValidCommand(codec: Codec, command: Command) {
    && ValidKind(command.kind)
    && ValidTimes(command.issuedAt.Instant(), command.expiresAt.Instant())
    && ValidPayload(codec, command.payload)
  }

  /** The members of an encoded command; kind and times need no escaping. */
  function MembersText(kind: string, issued: string, expires: string, payload: string): string {
    TextMember('{', "kind", kind,
    TextMember(',', "issued_at", issued,
    TextMember(',', "expires_at", expires, LastMember("payload", payload))))
  }

  /** `json.Marshal` of a command. */
  function CommandText(command: Command): string
    requires Writable(command.issuedAt) && Writable(command.expiresAt)
  {
    MembersText(command.kind, Format(command.issuedAt), Format(command.expiresAt), command.payload)
  }

  /** `CommandDigest`. */
  function CommandDigest(codec: Codec, command: Command): Option<string> {
    if ValidCommand(codec, command) && Writable(command.issuedAt) && Writable(command.expiresAt)
    then Some(codec.HexDigest(CommandText(command))) else None
  }

  lemma MembersTextIs(kind: string, issued: string, expires: string, payload: string)
    ensures MembersText(kind, issued, expires, payload)
         == "{\"kind\":\"" + (kind + ("\",\"issued_at\":\"" + (issued + ("\",\"expires_at\":\"" + (expires
            + ("\",\"payload\":" + (Escape(payload) + "}")))))))
  {
    hide Scan, TextMember, Member;
    var last := LastMember("payload", payload);
    var afterIssued := TextMember(',', "expires_at", expires, last);
    RawThen("\",\"payload\":", ',', "payload", Escape(payload), ['}']);
    TextThen("\",\"expires_at\":\"", ',', "expires_at", expires, last);
    TextThen("\",\"issued_at\":\"", ',', "issued_at", issued, afterIssued);
    TextMemberIs("{\"kind\":\"", '{', "kind", kind, TextMember(',', "issued_at", issued, afterIssued));
  }

  /** `CommandDigest` hashes the members in this order, under these names, with nothing in between. */
  lemma CommandDigestIs(codec: Codec, command: Command)
    requires CommandDigest(codec, command).Some?
    ensures Writable(command.issuedAt) && Writable(command.expiresAt)
    ensures CommandDigest(codec, command) == Some(codec.HexDigest(
              "{\"kind\":\"" + (command.kind + ("\",\"issued_at\":\"" + (Format(command.issuedAt)
              + ("\",\"expires_at\":\"" + (Format(command.expiresAt) + ("\",\"payload\":" + (Escape(command.payload) + "}")))))))))
  {
    hide ValidCommand, Format, MembersText, Scan;
    MembersTextIs(command.kind, Format(command.issuedAt), Format(command.expiresAt), command.payload);
  }

  // ----- decoding -----

  /** The members of an encoded command, read in the order the encoder writes them. */
  function ReadMembers(text: string): Option<(string, string, string, string)> {
    var kind := ReadText(text, '{', "kind");
    var issued := if kind == None then None else ReadText(kind.value.1, ',', "issued_at");
    var expires := if issued == None then None else ReadText(issued.value.1, ',', "expires_at");
    var payload := if expires == None then None else ReadLast(expires.value.1, "payload");
    if payload == None then None else Some((kind.value.0, issued.value.0, expires.value.0, payload.value))
  }

  function Decode(text: string): Option<Command> {
    var members := ReadMembers(text);
    if members == None then None
    else
      var (kind, issued, expires, payload) := members.value;
      if Parse(issued) == None || Parse(expires) == None then None
      else Some(Command(kind, Parse(issued).value, Parse(expires).value, payload))
  }

  predicate Readable(command: Command) {
    Inert(command.kind) && Writable(command.issuedAt) && Writable(command.expiresAt)
    && Lexical(command.payload, Outside)
  }

  lemma ReadMembersText(kind: string, issued: string, expires: string, payload: string)
    requires Inert(kind) && Inert(issued) && Inert(expires)
    ensures ReadMembers(MembersText(kind, issued, expires, payload)) == Some((kind, issued, expires, Escape(payload)))
  {
    hide Inert;
    var afterIssued := TextMember(',', "expires_at", expires, LastMember("payload", payload));
    ReadTextMember('{', "kind", kind, TextMember(',', "issued_at", issued, afterIssued));
    ReadTextMember(',', "issued_at", issued, afterIssued);
    ReadTextMember(',', "expires_at", expires, LastMember("payload", payload));
    ReadLastMember("payload", payload);
  }

  lemma DecodeMembers(kind: string, issued: string, expires: string, payload: string, issuedAt: Time, expiresAt: Time)
    requires Inert(kind) && Inert(issued) && Inert(expires)
    requires Parse(issued) == Some(issuedAt) && Parse(expires) == Some(expiresAt)
    ensures Decode(MembersText(kind, issued, expires, payload)) == Some(Command(kind, issuedAt, expiresAt, Escape(payload)))
  {
    ReadMembersText(kind, issued, expires, payload);
  }

  /** The command that decoding gives: times to the whole minute of their offset, the payload in the encoder's form. */
  function Received(command: Command): Command {
    Command(command.kind, command.issuedAt.Shown(), command.expiresAt.Shown(), Escape(command.payload))
  }

  /** Decoding what was encoded gives the command back, as far as it was written. */
  lemma DecodeCommandText(command: Command)
    requires Readable(command)
    ensures Decode(CommandText(command)) == Some(Received(command))
  {
    var issued, expires := Format(command.issuedAt), Format(command.expiresAt);
    TimeIsInert(command.issuedAt);
    TimeIsInert(command.expiresAt);
    FormatRoundTrip(command.issuedAt);
    FormatRoundTrip(command.expiresAt);
    hide Format, MembersText, Parse;
    DecodeMembers(command.kind, issued, expires, command.payload, command.issuedAt.Shown(), command.expiresAt.Shown());
  }

  lemma MembersTextIsFixed(kind: string, issued: string, expires: string, payload: string)
    requires Inert(kind) && Inert(issued) && Inert(expires) && Lexical(payload, Outside)
    ensures Fixed(MembersText(kind, issued, expires, payload))
  {
    LastMemberIsFixed("payload", payload);
    var afterIssued := TextMember(',', "expires_at", expires, LastMember("payload", payload));
    TextMemberIsFixed(',', "expires_at", expires, LastMember("payload", payload));
    TextMemberIsFixed(',', "issued_at", issued, afterIssued);
    TextMemberIsFixed('{', "kind", kind, TextMember(',', "issued_at", issued, afterIssued));
  }

  /** An encoded command passes through further documents unchanged. */
  lemma CommandTextIsFixed(command: Command)
    requires Readable(command)
    ensures Fixed(CommandText(command))
  {
    TimeIsInert(command.issuedAt);
    TimeIsInert(command.expiresAt);
    MembersTextIsFixed(command.kind, Format(command.issuedAt), Format(command.expiresAt), command.payload);
  }

  /** However many documents a command is carried in, it arrives the same. */
  lemma CarriedCommand(command: Command, times: nat)
    requires Readable(command)
    ensures Decode(Carry(CommandText(command), times)) == Some(Received(command))
  {
    var text := CommandText(command);
    assert Carry(text, times) == text by {
      CommandTextIsFixed(command);
      CarryFixed(text, times);
    }
    DecodeCommandText(command);
  }

  /** Members written alike have the same times, and the other way around. */
  lemma SameMembers(kind: string, issued: string, expires: string, payload: string, issued': string, expires': string, payload': string)
    requires Inert(kind) && Inert(issued) && Inert(expires) && Inert(issued') && Inert(expires')
    requires Escape(payload') == Escape(payload)
    ensures MembersText(kind, issued', expires', payload') == MembersText(kind, issued, expires, payload)
       <==> issued' == issued && expires' == expires
  {
    hide Inert, ReadMembers, Escape;
    ReadMembersText(kind, issued, expires, payload);
    ReadMembersText(kind, issued', expires', payload');
    assert LastMember("payload", payload') == LastMember("payload", payload);
    hide LastMember, TextMember;
  }

  /** The received command encodes as the sent one did exactly when both times print steadily. */
  lemma ReceivedText(command: Command)
    requires Readable(command)
    ensures Readable(Received(command))
    ensures CommandText(Received(command)) == CommandText(command)
       <==> command.issuedAt.Steady() && command.expiresAt.Steady()
  {
    var received := Received(command);
    hide Format, Inert, MembersText, Lexical, Scan, Time.Steady;
    ScanLexical(command.payload, Outside, true);
    ScanTwice(command.payload, Outside, true, true);
    ShownPrintsSame(command.issuedAt);
    ShownPrintsSame(command.expiresAt);
    TimeIsInert(command.issuedAt);
    TimeIsInert(command.expiresAt);
    TimeIsInert(received.issuedAt);
    TimeIsInert(received.expiresAt);
    SameMembers(command.kind, Format(command.issuedAt), Format(command.expiresAt), command.payload,
                Format(received.issuedAt), Format(received.expiresAt), received.payload);
  }

  /**
   The digest survives encoding, carriage and decoding exactly when the received command is still valid: its
   payload, which escaping may lengthen sixfold, within the limit and its times in order, although what seconds
   their offsets had is lost; and when both times print again as they did. Times whose offsets are whole
   minutes, as in every command the constructors make, leave only the payload's length.
   */
  lemma CommandDigestSurvives(codec: Codec, command: Command, times: nat)
    requires ValidCommand(codec, command) && Writable(command.issuedAt) && Writable(command.expiresAt)
    requires codec.Sound(command.payload)
    requires codec.NoCollision(CommandText(Received(command)), CommandText(command))
    ensures var received := Decode(Carry(CommandText(command), times));
            && received == Some(Received(command))
            && (CommandDigest(codec, received.value) == CommandDigest(codec, command)
                <==> && |Escape(command.payload)| <= MAXIMUM_PAYLOAD
                     && ValidTimes(command.issuedAt.Shown().Instant(), command.expiresAt.Shown().Instant())
                     && command.issuedAt.Steady() && command.expiresAt.Steady())
    ensures command.issuedAt.offset % 60 == 0 && command.expiresAt.offset % 60 == 0 ==>
              (CommandDigest(codec, Received(command)) == CommandDigest(codec, command)
               <==> |Escape(command.payload)| <= MAXIMUM_PAYLOAD)
  {
    KindIsInert(command.kind);
    CarriedCommand(command, times);
    ReceivedText(command);
    ShownInstant(command.issuedAt);
    ShownInstant(command.expiresAt);
    hide CommandText, Matches, Minutes, Scan;
    DigestDetermines(codec, CommandText(Received(command)), CommandText(command));
    assert ValidCommand(codec, Received(command))
      <==> |Escape(command.payload)| <= MAXIMUM_PAYLOAD
           && ValidTimes(command.issuedAt.Shown().Instant(), command.expiresAt.Shown().Instant());
  }

  // ----- plugin configurations -----

  /** `ValidatePluginConfiguration`. */
  predicate ValidConfiguration(codec: Codec, raw: string) {
    0 < |raw| <= MAXIMUM_CONFIGURATION && codec.valid(raw) && IsObjectText(raw)
  }

  /** `PluginConfigurationDigest`. */
  function ConfigurationDigest(codec: Codec, raw: string): Option<string> {
    if ValidConfiguration(codec, raw) then Some(codec.HexDigest(Compact(raw))) else None
  }

  /** Insignificant whitespace does not count: the compacted configuration is valid and has the same digest. */
  lemma DigestIgnoresWhitespace(codec: Codec, raw: string)
    requires ValidConfiguration(codec, raw) && codec.Sound(raw)
    ensures ConfigurationDigest(codec, Compact(raw)) == ConfigurationDigest(codec, raw)
  {
    ScanTwice(raw, Outside, false, false);
    ScanLexical(raw, Outside, false);
    ObjectSurvives(raw, false);
  }

  /** Nor does whitespace added between tokens, as far as both texts are valid configurations. */
  lemma DigestIgnoresAddedSpace(codec: Codec, before: string, space: char, after: string)
    requires IsSpace(space) && After(before, Outside) == Outside
    requires ValidConfiguration(codec, before + after) && ValidConfiguration(codec, before + ([space] + after))
    ensures ConfigurationDigest(codec, before + ([space] + after)) == ConfigurationDigest(codec, before + after)
  {
    WhitespaceIgnored(before, space, after, Outside);
  }

  /**
   A configuration carried in a reconcile command, and that command in further documents, keeps its digest
   exactly when it holds none of the characters the encoder escapes.
   */
  lemma ConfigurationDigestSurvives(codec: Codec, raw: string, times: nat)
    requires ValidConfiguration(codec, raw) && codec.Sound(raw) && times > 0
    requires codec.NoCollision(Escape(raw), Compact(raw))
    ensures ConfigurationDigest(codec, Carry(raw, times)) == ConfigurationDigest(codec, raw) <==> !HasEscapable(raw)
  {
    CarryIsEscape(raw, times);
    EscapeIsCompact(raw, Outside);
    ScanTwice(raw, Outside, true, false);
    ScanLexical(raw, Outside, false);
    ObjectSurvives(raw, true);
    DigestDetermines(codec, Escape(raw), Compact(raw));
  }

  /** `PluginConfigurationDigest` hashes the configuration's tokens, whatever tokens it is read as. */
  lemma ConfigurationDigestIs(codec: Codec, tokens: seq<JsonTokens.Token>)
    requires JsonTokens.Valid(tokens) && ValidConfiguration(codec, JsonTokens.Source(tokens))
    ensures ConfigurationDigest(codec, JsonTokens.Source(tokens)) == Some(codec.HexDigest(JsonTokens.Compacted(tokens)))
  {
    JsonTokens.ScanIsTokens(tokens);
  }

  /** And every configuration it accepts can be read so. */
  lemma ConfigurationHasTokens(codec: Codec, raw: string) returns (tokens: seq<JsonTokens.Token>)
    requires ValidConfiguration(codec, raw) && codec.Sound(raw)
    ensures JsonTokens.Valid(tokens) && raw == JsonTokens.Source(tokens)
    ensures ConfigurationDigest(codec, raw) == Some(codec.HexDigest(JsonTokens.Compacted(tokens)))
  {
    tokens := JsonTokens.TokensOf(raw);
    ConfigurationDigestIs(codec, tokens);
  }
}
