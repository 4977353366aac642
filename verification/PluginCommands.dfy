/** Plugin reconcile commands, from the center's value to the Agent's: `agent/v1/plugins.go`. */
module PluginCommands {
  import opened Text
  import opened Regex
  import opened Patterns
  import opened PatternShapes
  import opened Timestamps
  import opened JsonText
  import opened JsonMeaning
  import opened Encoding
  import opened Messages
  import opened Commands
  import opened Words
  import Versions

  const KIND := "plugin.reconcile"
  const RUNNING := "running"
  const STOPPED := "stopped"
  const ABSENT := "absent"
  const MAXIMUM_ARTIFACT := 0x1000_0000
  const MAXIMUM_URL := 4096

  datatype Artifact = Artifact(url: string, size: Word, sha256: string)

  datatype Reconcile = Reconcile(pluginId: string, generation: Word, state: string, version: string,
                                 artifact: Option<Artifact>, configuration: string)

  // ----- validation -----

  /** `ValidatePluginArtifact`; `https` is the URL parser's verdict. */
  predicate ValidArtifact(https: string -> bool, artifact: Artifact) {
    && 0 < |artifact.url| <= MAXIMUM_URL && https(artifact.url)
    && 1 <= artifact.size <= MAXIMUM_ARTIFACT && LowerHex(artifact.sha256, 64)
  }

  /** `ValidatePluginReconcileCommand`. */
  predicate ValidReconcile(codec: Codec, https: string -> bool, value: Reconcile) {
    && |value.pluginId| <= 128 && Matches(PluginId(), value.pluginId)
    && 1 <= value.generation <= MAXIMUM_INT64
    && (if value.state == ABSENT then value.version == "" && value.artifact == None && value.configuration == ""
        else && (value.state == RUNNING || value.state == STOPPED)
             && Versions.Validates(value.version)
             && value.artifact.Some? && ValidArtifact(https, value.artifact.value)
             && ValidConfiguration(codec, value.configuration))
  }

  // ----- writing -----

  function UrlChar(c: char): string {
    if IsHtml(c) then Unicode(HtmlCode(c)) else [c]
  }

  /** A URL inside a JSON string: `&`, `<` and `>` are escaped. */
  function UrlText(url: string): string {
    if url == "" then "" else UrlChar(url[0]) + UrlText(url[1..])
  }

  function UrlLiteral(url: string): string {
    ['"'] + (UrlText(url) + ['"'])
  }

  function ArtifactText(artifact: Artifact): string {
    ['{'] + Member("download_url", UrlLiteral(artifact.url),
    NumberMember(',', "size", artifact.size,
    TextMember(',', "sha256", artifact.sha256, ['}'])))
  }

  /** `json.Marshal` of the value: an absent plugin has its first three members only. */
  function ReconcileText(value: Reconcile): string {
    TextMember('{', "plugin_id", value.pluginId,
    NumberMember(',', "generation", value.generation,
    TextMember(',', "desired_state", value.state, DesiredText(value))))
  }

  function DesiredText(value: Reconcile): string {
    if value.artifact == None then ['}']
    else TextMember(',', "version", value.version,
         [','] + Member("artifact", ArtifactText(value.artifact.value), LastMember("configuration", value.configuration)))
  }

  /** An encoded artifact: these members in this order, with nothing in between. */
  lemma ArtifactTextIs(artifact: Artifact)
    ensures ArtifactText(artifact)
         == "{\"download_url\":\"" + (UrlText(artifact.url) + ("\",\"size\":" + (Decimal(artifact.size)
            + (",\"sha256\":\"" + (artifact.sha256 + "\"}")))))
  {
    hide TextMember, NumberMember, Member, Decimal, UrlText;
    var sha256 := TextMember(',', "sha256", artifact.sha256, ['}']);
    var size := NumberMember(',', "size", artifact.size, sha256);
    RawMemberIs("{\"download_url\":", '{', "download_url", UrlLiteral(artifact.url), size);
    TextMemberIs(",\"sha256\":\"", ',', "sha256", artifact.sha256, ['}']);
    NumberThen("\",\"size\":", ',', "size", artifact.size, sha256);
    UrlOpens(UrlText(artifact.url), size);
  }

  lemma UrlOpens(text: string, rest: string)
    ensures "{\"download_url\":" + ((['"'] + (text + ['"'])) + rest) == "{\"download_url\":\"" + (text + (['"'] + rest))
  {
  }

  lemma Assoc(a: string, b: string, c: string)
    ensures (a + b) + c == a + (b + c)
  {
  }

  lemma UrlTextStep(url: string)
    requires url != ""
    ensures UrlText(url) == UrlChar(url[0]) + UrlText(url[1..]) && url == [url[0]] + url[1..]
  {
    hide UrlChar;
  }

  lemma UrlTextEmpty(rest: string)
    ensures UrlText("") == "" && UrlText("") + rest == rest
  {
  }

  /** The characters of a URL one by one: three are written as escapes. */
  lemma {:induction false} UrlTextIs(url: string, more: string)
    ensures UrlText(url + more) == UrlText(url) + UrlText(more)
    ensures |url| == 1 ==> UrlText(url) == (if url[0] == '<' then "\\u003c" else if url[0] == '>' then "\\u003e"
                                            else if url[0] == '&' then "\\u0026" else url)
  {
    hide UrlChar, UrlText;
    if url == "" {
      UrlTextEmpty(UrlText(more));
      assert url + more == more;
    } else {
      var all := url + more;
      UrlTextStep(url);
      UrlTextStep(all);
      assert all[0] == url[0] && all[1..] == url[1..] + more;
      UrlTextIs(url[1..], more);
      Assoc(UrlChar(url[0]), UrlText(url[1..]), UrlText(more));
      CharIs(url[0]);
      if |url| == 1 { UrlTextEmpty(""); assert url[1..] == "" && UrlChar(url[0]) + "" == UrlChar(url[0]); }
    }
  }

  lemma CharIs(c: char)
    ensures UrlChar(c) == if c == '<' then "\\u003c" else if c == '>' then "\\u003e" else if c == '&' then "\\u0026" else [c]
  {
  }

  /** An encoded value: these members in this order, with nothing in between. */
  lemma ReconcileTextIs(value: Reconcile)
    ensures ReconcileText(value)
         == "{\"plugin_id\":\"" + (value.pluginId + ("\",\"generation\":" + (Decimal(value.generation)
            + (",\"desired_state\":\"" + (value.state + (['"'] + DesiredText(value)))))))
    ensures value.artifact == None ==> DesiredText(value) == "}"
  {
    var desired := DesiredText(value);
    var state := TextMember(',', "desired_state", value.state, desired);
    hide TextMember, NumberMember, Member, Decimal, DesiredText;
    TextMemberIs("{\"plugin_id\":\"", '{', "plugin_id", value.pluginId, NumberMember(',', "generation", value.generation, state));
    NumberThen("\",\"generation\":", ',', "generation", value.generation, state);
    TextMemberIs(",\"desired_state\":\"", ',', "desired_state", value.state, desired);
    if value.artifact == None { NothingDesired(value); }
  }

  lemma NothingDesired(value: Reconcile)
    requires value.artifact == None
    ensures DesiredText(value) == "}"
  {
  }

  /** And those that follow with an artifact. */
  lemma DesiredTextIs(value: Reconcile)
    requires value.artifact.Some?
    ensures ['"'] + DesiredText(value)
         == "\",\"version\":\"" + (value.version + ("\",\"artifact\":" + (ArtifactText(value.artifact.value)
            + (",\"configuration\":" + (Escape(value.configuration) + "}")))))
  {
    hide TextMember, NumberMember, Member, ArtifactText, Scan;
    var last := LastMember("configuration", value.configuration);
    var artifact := [','] + Member("artifact", ArtifactText(value.artifact.value), last);
    RawMemberIs(",\"configuration\":", ',', "configuration", Escape(value.configuration), ['}']);
    RawThen("\",\"artifact\":", ',', "artifact", ArtifactText(value.artifact.value), last);
    TextThen("\",\"version\":\"", ',', "version", value.version, artifact);
  }

  // ----- reading -----

  /** A string up to its closing quote, with the encoder's escapes decoded. */
  function ReadEscaped(text: string): Option<(string, string)>
    decreases |text|
  {
    if text == "" then None
    else if text[0] == '"' then Some(("", text[1..]))
    else if text[0] == '\\' && Coded(text) == None then None
    else
      var head := if Coded(text).Some? then Coded(text).value else [text[0]];
      var more := ReadEscaped(text[if Coded(text).Some? then 6 else 1..]);
      if more == None then None else Some((head + more.value.0, more.value.1))
  }

  function ReadUrl(text: string, mark: char, name: string): Option<(string, string)> {
    var value := ReadMember(text, mark, name);
    if value == None || value.value == "" || value.value[0] != '"' then None else ReadEscaped(value.value[1..])
  }

  function ReadArtifact(text: string): Option<(Artifact, string)> {
    var url := ReadUrl(text, '{', "download_url");
    var size := if url == None then None else ReadNumber(url.value.1, ',', "size");
    var sha256 := if size == None then None else ReadText(size.value.1, ',', "sha256");
    if sha256 == None || sha256.value.1 == "" || sha256.value.1[0] != '}' then None
    else Some((Artifact(url.value.0, size.value.0, sha256.value.0), sha256.value.1[1..]))
  }

  /** What follows the desired state. */
  function ReadDesired(text: string): Option<(string, Option<Artifact>, string)> {
    if text == ['}'] then Some(("", None, ""))
    else
      var version := ReadText(text, ',', "version");
      var value := if version == None then None else ReadMember(version.value.1, ',', "artifact");
      var artifact := if value == None then None else ReadArtifact(value.value);
      var configuration := if artifact == None then None else ReadLast(artifact.value.1, "configuration");
      if configuration == None then None
      else Some((version.value.0, Some(artifact.value.0), configuration.value))
  }

  function ReadReconcile(text: string): Option<Reconcile> {
    var pluginId := ReadText(text, '{', "plugin_id");
    var generation := if pluginId == None then None else ReadNumber(pluginId.value.1, ',', "generation");
    var state := if generation == None then None else ReadText(generation.value.1, ',', "desired_state");
    var desired := if state == None then None else ReadDesired(state.value.1);
    if desired == None then None
    else Some(Reconcile(pluginId.value.0, generation.value.0, state.value.0, desired.value.0, desired.value.1, desired.value.2))
  }

  // ----- commands -----

  /** `NewPluginReconcileCommand`, at two instants. */
  function NewCommand(codec: Codec, https: string -> bool, value: Reconcile, issuedAt: int, expiresAt: int): Option<Command> {
    var command := Command(KIND, Time(issuedAt, 0), Time(expiresAt, 0), ReconcileText(value));
    if ValidReconcile(codec, https, value) && ValidCommand(codec, command) then Some(command) else None
  }

  /** `DecodePluginReconcileCommand`. */
  function DecodeCommand(codec: Codec, https: string -> bool, command: Command): Option<Reconcile> {
    if !ValidCommand(codec, command) || command.kind != KIND then None
    else
      var value := ReadReconcile(command.payload);
      if value.Some? && ValidReconcile(codec, https, value.value) then value else None
  }

  // ----- what is written is read -----

  /** Printable ASCII without quotes and backslashes, which is what URLs are made of. */
  predicate PlainUrl(url: string) {
    forall i :: 0 <= i < |url| ==> PlainChar(url[i])
  }

  predicate PlainChar(c: char) {
    ' ' <= c <= '~' && c != '"' && c != '\\'
  }

  /** The strings of the value need no escaping, save in the URL. */
  predicate PlainValue(value: Reconcile) {
    && Inert(value.pluginId) && Inert(value.state) && Inert(value.version)
    && (value.artifact.Some? ==> && PlainUrl(value.artifact.value.url) && Inert(value.artifact.value.sha256)
                                 && Lexical(value.configuration, Outside))
    && (value.artifact == None ==> value.version == "" && value.configuration == "")
  }

  lemma CodedUnicode(c: char, rest: string)
    requires IsHtml(c)
    ensures Coded(Unicode(HtmlCode(c)) + rest) == Some([c]) && (Unicode(HtmlCode(c)) + rest)[6..] == rest
  {
    HtmlDecoded(c);
    var text := Unicode(HtmlCode(c)) + rest;
    assert text[2..6] == HtmlCode(c);
  }

  lemma ReadUrlChar(c: char, tail: string)
    requires PlainChar(c)
    ensures var more := ReadEscaped(tail);
            ReadEscaped(UrlChar(c) + tail) == if more == None then None else Some(([c] + more.value.0, more.value.1))
  {
    var text := UrlChar(c) + tail;
    if IsHtml(c) {
      CodedUnicode(c, tail);
      assert text[0] == '\\';
      hide Coded, Unicode, HtmlCode;
    } else {
      assert text[0] == c && text[1..] == tail;
    }
  }

  lemma {:induction false} ReadUrlText(url: string, rest: string)
    requires PlainUrl(url)
    ensures ReadEscaped(UrlText(url) + (['"'] + rest)) == Some((url, rest))
  {
    var mark := ['"'] + rest;
    if url == "" {
      UrlTextEmpty(mark);
      assert mark[1..] == rest;
      hide UrlText;
    } else {
      hide ReadEscaped, UrlChar, UrlText;
      ReadUrlText(url[1..], rest);
      UrlTextStep(url);
      Assoc(UrlChar(url[0]), UrlText(url[1..]), mark);
      ReadUrlChar(url[0], UrlText(url[1..]) + mark);
    }
  }

  lemma ReadUrlMember(url: string, rest: string)
    requires PlainUrl(url)
    ensures ReadUrl(['{'] + Member("download_url", UrlLiteral(url), rest), '{', "download_url") == Some((url, rest))
  {
    ReadMemberText('{', "download_url", UrlLiteral(url), rest);
    ReadUrlText(url, rest);
    assert UrlLiteral(url) + rest == ['"'] + (UrlText(url) + (['"'] + rest));
    assert (UrlLiteral(url) + rest)[1..] == UrlText(url) + (['"'] + rest);
  }

  lemma ReadArtifactText(artifact: Artifact, rest: string)
    requires PlainUrl(artifact.url) && Inert(artifact.sha256)
    ensures ReadArtifact(ArtifactText(artifact) + rest) == Some((artifact, rest))
  {
    var afterSize := TextMember(',', "sha256", artifact.sha256, ['}'] + rest);
    var afterUrl := NumberMember(',', "size", artifact.size, afterSize);
    assert ArtifactText(artifact) + rest == ['{'] + Member("download_url", UrlLiteral(artifact.url), afterUrl) by {
      Reassociate(artifact, rest);
    }
    assert afterSize[0] == ',';
    ReadUrlMember(artifact.url, afterUrl);
    ReadNumberMember(',', "size", artifact.size, afterSize);
    ReadTextMember(',', "sha256", artifact.sha256, ['}'] + rest);
    hide Member, NumberMember, TextMember, UrlLiteral, Inert;
  }

  lemma MemberThen(name: string, value: string, last: string, rest: string)
    ensures Member(name, value, last) + rest == Member(name, value, last + rest)
  {
    assert value + last + rest == value + (last + rest);
  }

  lemma Reassociate(artifact: Artifact, rest: string)
    ensures ArtifactText(artifact) + rest
         == ['{'] + Member("download_url", UrlLiteral(artifact.url),
              NumberMember(',', "size", artifact.size, TextMember(',', "sha256", artifact.sha256, ['}'] + rest)))
  {
    var sha256 := Member("sha256", Quote(artifact.sha256), ['}']);
    var size := Member("size", Decimal(artifact.size), [','] + sha256);
    MemberThen("sha256", Quote(artifact.sha256), ['}'], rest);
    MemberThen("size", Decimal(artifact.size), [','] + sha256, rest);
    MemberThen("download_url", UrlLiteral(artifact.url), [','] + size, rest);
    hide Member, Quote, UrlLiteral;
    assert ([','] + sha256) + rest == [','] + (sha256 + rest);
    assert ([','] + size) + rest == [','] + (size + rest);
    assert (['{'] + Member("download_url", UrlLiteral(artifact.url), [','] + size)) + rest
        == ['{'] + (Member("download_url", UrlLiteral(artifact.url), [','] + size) + rest);
  }

  lemma ReadDesiredText(value: Reconcile)
    requires PlainValue(value)
    ensures ReadDesired(DesiredText(value))
         == Some((value.version, value.artifact, if value.artifact == None then "" else Escape(value.configuration)))
  {
    if value.artifact.Some? {
      var artifact := value.artifact.value;
      var last := LastMember("configuration", value.configuration);
      var afterVersion := [','] + Member("artifact", ArtifactText(artifact), last);
      assert DesiredText(value)[0] == ',';
      ReadTextMember(',', "version", value.version, afterVersion);
      ReadMemberText(',', "artifact", ArtifactText(artifact), last);
      ReadArtifactText(artifact, last);
      ReadLastMember("configuration", value.configuration);
      hide Member, TextMember, LastMember, ArtifactText, ReadArtifact, ReadText, ReadMember, ReadLast;
    }
  }

  /** The value as the encoder's text gives it back: its configuration in the encoder's form. */
  function Received(value: Reconcile): Reconcile {
    if value.artifact == None then value else value.(configuration := Escape(value.configuration))
  }

  lemma ReadReconcileText(value: Reconcile)
    requires PlainValue(value)
    ensures ReadReconcile(ReconcileText(value)) == Some(Received(value))
  {
    var desired := DesiredText(value);
    var afterGeneration := TextMember(',', "desired_state", value.state, desired);
    var afterId := NumberMember(',', "generation", value.generation, afterGeneration);
    assert afterGeneration[0] == ',';
    ReadDesiredText(value);
    hide TextMember, NumberMember, DesiredText, ReadDesired, Inert, Lexical;
    ReadTextMember('{', "plugin_id", value.pluginId, afterId);
    ReadNumberMember(',', "generation", value.generation, afterGeneration);
    ReadTextMember(',', "desired_state", value.state, desired);
  }

  // ----- what is written is left alone -----

  lemma UrlCharScanned(c: char, rest: string)
    requires PlainChar(c)
    ensures Scan(UrlChar(c) + rest, InString, true) == UrlChar(c) + Scan(rest, InString, true)
  {
    hide Scan;
    if IsHtml(c) { ScanUnicode(HtmlCode(c), rest, InString, true); } else { ScanPlain(c, rest, InString, true); }
  }

  lemma {:induction false} UrlTextScanned(url: string, rest: string)
    requires PlainUrl(url)
    ensures Scan(UrlText(url) + rest, InString, true) == UrlText(url) + Scan(rest, InString, true)
  {
    hide Scan, UrlChar, UrlText;
    if url == "" {
      UrlTextEmpty(rest);
      UrlTextEmpty(Scan(rest, InString, true));
    } else {
      var head, tail := UrlChar(url[0]), UrlText(url[1..]);
      UrlTextStep(url);
      UrlTextScanned(url[1..], rest);
      UrlCharScanned(url[0], tail + rest);
      Assoc(head, tail, rest);
      Assoc(head, tail, Scan(rest, InString, true));
    }
  }

  lemma LiteralParts(url: string, rest: string)
    ensures UrlLiteral(url) + rest == ['"'] + (UrlText(url) + (['"'] + rest))
  {
    hide UrlText;
  }

  lemma UrlIsFixed(url: string)
    requires PlainUrl(url)
    ensures Fixed(UrlLiteral(url))
  {
    hide Scan, UrlText, UrlLiteral;
    forall rest
      ensures Scan(UrlLiteral(url) + rest, Outside, true) == UrlLiteral(url) + Scan(rest, Outside, true)
    {
      LiteralParts(url, rest);
      LiteralParts(url, Scan(rest, Outside, true));
      ScanPlain('"', UrlText(url) + (['"'] + rest), Outside, true);
      UrlTextScanned(url, ['"'] + rest);
      ScanPlain('"', rest, InString, true);
    }
  }

  lemma ArtifactIsFixed(artifact: Artifact)
    requires PlainUrl(artifact.url) && Inert(artifact.sha256)
    ensures Fixed(ArtifactText(artifact))
  {
    MarkIsFixed('}');
    MarkIsFixed('{');
    var afterSize := TextMember(',', "sha256", artifact.sha256, ['}']);
    var afterUrl := NumberMember(',', "size", artifact.size, afterSize);
    TextMemberIsFixed(',', "sha256", artifact.sha256, ['}']);
    NumberMemberIsFixed(',', "size", artifact.size, afterSize);
    UrlIsFixed(artifact.url);
    MemberIsFixed("download_url", UrlLiteral(artifact.url), afterUrl);
    FixedConcat(['{'], Member("download_url", UrlLiteral(artifact.url), afterUrl));
  }

  lemma DesiredIsFixed(value: Reconcile)
    requires PlainValue(value)
    ensures Fixed(DesiredText(value))
  {
    MarkIsFixed('}');
    MarkIsFixed(',');
    if value.artifact.Some? {
      var last := LastMember("configuration", value.configuration);
      var artifact := Member("artifact", ArtifactText(value.artifact.value), last);
      LastMemberIsFixed("configuration", value.configuration);
      ArtifactIsFixed(value.artifact.value);
      MemberIsFixed("artifact", ArtifactText(value.artifact.value), last);
      FixedConcat([','], artifact);
      TextMemberIsFixed(',', "version", value.version, [','] + artifact);
    }
  }

  lemma ReconcileIsFixed(value: Reconcile)
    requires PlainValue(value)
    ensures Fixed(ReconcileText(value))
  {
    DesiredIsFixed(value);
    var desired := DesiredText(value);
    var afterGeneration := TextMember(',', "desired_state", value.state, desired);
    TextMemberIsFixed(',', "desired_state", value.state, desired);
    NumberMemberIsFixed(',', "generation", value.generation, afterGeneration);
    TextMemberIsFixed('{', "plugin_id", value.pluginId, NumberMember(',', "generation", value.generation, afterGeneration));
  }

  lemma EscapeOfFixed(text: string)
    requires Fixed(text)
    ensures Escape(text) == text
  {
    assert text + "" == text;
    assert Scan(text + "", Outside, true) == text + Scan("", Outside, true);
  }

  // ----- end to end -----

  lemma ValidIsPlain(codec: Codec, https: string -> bool, value: Reconcile)
    requires ValidReconcile(codec, https, value) && codec.Sound(value.configuration)
    requires value.artifact.Some? ==> PlainUrl(value.artifact.value.url)
    ensures PlainValue(value)
  {
    PluginIdIsInert(value.pluginId);
    if value.artifact.Some? {
      VersionIsInert(value.version);
      HexIsInert(value.artifact.value.sha256, 64);
    }
  }

  lemma PluginIdIsInert(id: string)
    requires Matches(PluginId(), id)
    ensures Inert(id)
  {
    forall i | 0 <= i < |id|
      ensures InertChar(id[i])
    {
      if Foreign(id[i]) { IdentifiersAreClean(id, id[i]); }
    }
  }

  lemma {:induction false} BehindIsInert(parts: seq<string>, mark: char)
    requires InertChar(mark) && forall part :: part in parts ==> Versions.IsIdentifier(part)
    ensures Inert(Versions.Behind(parts, mark))
  {
    if parts != [] {
      assert Versions.IsIdentifier(parts[0]);
      BehindIsInert(parts[1..], mark);
    }
  }

  lemma SuffixIsInert(mark: char, parts: seq<string>)
    requires InertChar(mark) && forall part :: part in parts ==> Versions.IsIdentifier(part)
    ensures Inert(Versions.Suffix(mark, parts))
  {
    if parts != [] {
      assert Versions.IsIdentifier(parts[0]);
      BehindIsInert(parts[1..], '.');
    }
  }

  lemma VersionIsInert(version: string)
    requires Versions.Validates(version)
    ensures Inert(version)
  {
    var v := Versions.ShapeOfMatch(version);
    SuffixIsInert('-', v.preRelease);
    SuffixIsInert('+', v.build);
  }

  /** The encoded configuration is an acceptable one exactly when escaping has not made it too long. */
  lemma EscapedConfiguration(codec: Codec, raw: string)
    requires ValidConfiguration(codec, raw) && codec.Sound(raw)
    ensures ValidConfiguration(codec, Escape(raw)) <==> |Escape(raw)| <= MAXIMUM_CONFIGURATION
  {
    ObjectSurvives(raw, true);
  }

  lemma ReceivedIsValid(codec: Codec, https: string -> bool, value: Reconcile)
    requires ValidReconcile(codec, https, value) && value.artifact.Some? && codec.Sound(value.configuration)
    ensures ValidReconcile(codec, https, Received(value)) <==> |Escape(value.configuration)| <= MAXIMUM_CONFIGURATION
  {
    hide Matches, Versions.Validates, ValidArtifact, ValidConfiguration;
    EscapedConfiguration(codec, value.configuration);
  }

  lemma KindIsValid()
    ensures ValidKind(KIND)
  {
    assert KIND[6] == '.' && forall i :: 0 <= i < |KIND| ==> JoinedByAt({'.', '_', '-'}, KIND, i);
    DottedNameIs(KIND);
  }

  /** A command is made exactly for a valid value and valid times whose encoding is within the payload limit. */
  lemma NewCommandSucceeds(codec: Codec, https: string -> bool, value: Reconcile, issuedAt: int, expiresAt: int)
    requires codec.valid(ReconcileText(value))
    ensures NewCommand(codec, https, value, issuedAt, expiresAt).Some?
       <==> ValidReconcile(codec, https, value) && ValidTimes(issuedAt, expiresAt)
            && 0 < |ReconcileText(value)| <= MAXIMUM_PAYLOAD
  {
    hide ReconcileText, ValidReconcile, Matches;
    KindIsValid();
  }

  /** The command arrives as it was made, through any number of documents. */
  lemma CommandArrives(codec: Codec, https: string -> bool, value: Reconcile, issuedAt: int, expiresAt: int, times: nat)
    requires NewCommand(codec, https, value, issuedAt, expiresAt).Some? && PlainValue(value)
    requires FourDigitYear(issuedAt) && FourDigitYear(expiresAt)
    requires codec.Sound(ReconcileText(value))
    ensures var command := NewCommand(codec, https, value, issuedAt, expiresAt).value;
            Decode(Carry(CommandText(command), times)) == Some(command)
  {
    hide ReconcileText, ValidReconcile, FourDigitYear, Scan, Matches, PlainValue, Fixed, CommandText, Decode;
    var command := NewCommand(codec, https, value, issuedAt, expiresAt).value;
    ReconcileIsFixed(value);
    EscapeOfFixed(ReconcileText(value));
    KindIsInert(KIND);
    CarriedCommand(command, times);
  }

  /**
   End to end, from the center's value to the Agent's: the Agent decodes the value that was sent, with its
   configuration in the encoder's form, exactly when that form is still within the configuration limit; and
   the configuration it decodes has the digest of the one sent exactly when nothing in it was escaped.
   */
  lemma ReconcileSurvives(codec: Codec, https: string -> bool, value: Reconcile, issuedAt: int, expiresAt: int, times: nat)
    requires NewCommand(codec, https, value, issuedAt, expiresAt).Some? && value.artifact.Some?
    requires PlainUrl(value.artifact.value.url) && FourDigitYear(issuedAt) && FourDigitYear(expiresAt)
    requires codec.Sound(value.configuration) && codec.Sound(ReconcileText(value))
    requires codec.NoCollision(Escape(value.configuration), Compact(value.configuration))
    ensures var command := NewCommand(codec, https, value, issuedAt, expiresAt).value;
            var arrived := Decode(Carry(CommandText(command), times));
            && arrived.Some?
            && DecodeCommand(codec, https, arrived.value)
               == (if |Escape(value.configuration)| <= MAXIMUM_CONFIGURATION then Some(Received(value)) else None)
            && (ConfigurationDigest(codec, Received(value).configuration) == ConfigurationDigest(codec, value.configuration)
                <==> !HasEscapable(value.configuration))
  {
    ValidIsPlain(codec, https, value);
    assert ValidReconcile(codec, https, value) && ValidConfiguration(codec, value.configuration);
    hide PlainValue, PlainUrl, ReconcileText, DecodeCommand, ValidReconcile, ValidConfiguration, ConfigurationDigest, HasEscapable,
         Received, Scan, Matches, FourDigitYear, CommandText, Codec.Sound, Codec.NoCollision, Decode, Carry;
    CommandArrives(codec, https, value, issuedAt, expiresAt, times);
    DecodeMade(codec, https, value, NewCommand(codec, https, value, issuedAt, expiresAt).value);
    ReceivedDigest(codec, value);
  }

  lemma ReceivedDigest(codec: Codec, value: Reconcile)
    requires ValidConfiguration(codec, value.configuration) && codec.Sound(value.configuration) && value.artifact.Some?
    requires codec.NoCollision(Escape(value.configuration), Compact(value.configuration))
    ensures ConfigurationDigest(codec, Received(value).configuration) == ConfigurationDigest(codec, value.configuration)
       <==> !HasEscapable(value.configuration)
  {
    hide ConfigurationDigest, HasEscapable, Scan;
    ConfigurationDigestSurvives(codec, value.configuration, 1);
    CarryIsEscape(value.configuration, 1);
  }

  lemma DecodeMade(codec: Codec, https: string -> bool, value: Reconcile, command: Command)
    requires ValidCommand(codec, command) && command.kind == KIND && command.payload == ReconcileText(value)
    requires ValidReconcile(codec, https, value) && value.artifact.Some? && PlainValue(value) && codec.Sound(value.configuration)
    ensures DecodeCommand(codec, https, command)
         == if |Escape(value.configuration)| <= MAXIMUM_CONFIGURATION then Some(Received(value)) else None
  {
    hide PlainValue, ReconcileText, ReadReconcile, ValidReconcile, ValidCommand, Scan, Codec.Sound;
    ReadReconcileText(value);
    ReceivedIsValid(codec, https, value);
  }
}
