/** The connector helpers that reduce a parsed header to text and choose the
    thread identifier of a message from its identification fields (section
    3.6.4 of RFC 5322: Message-ID, In-Reply-To, References), with the
    Exchange `Conversation-Id` as a further fallback. */
module ConnectorUtils {
  import opened Wrappers
  import Json
  import JsStrings
  import Base64
  import IngestionTypes

  type Value = Json.Value

  /** The parsed headers of a message: lower-cased name to parsed value. */
  type Headers = map<string, Value>

  /** `getHeaderValue`: a string is the text itself; an array stands for its
      first element; an object with a `value` property stands for that value;
      anything else has no text. */
  function HeaderValue(h: Value): (r: Option<string>)
    ensures h.Str? ==> r == Some(h.s)
    ensures r.Some? ==> h.Str? || h.Arr? || h.Obj?
  {
    match h
    case Str(s) => Some(s)
    // `header[0]` of an empty array is `undefined`, which has no text
    case Arr(items) => if items == [] then None else HeaderValue(items[0])
    case Obj(fields) =>
      (match Json.Lookup(fields, "value")
       case Some(v) =>
         var i :| 0 <= i < |fields| && fields[i] == ("value", v);
         assert fields[i] in fields;
         HeaderValue(v)
       case None => None)
    case _ => None
  }

  /** The ways a parser wraps header text: as the first element of an array,
      or as the `value` property of an object (other properties first). */
  datatype Wrapping = FirstOf(rest: seq<Value>) | ValueOf(others: Json.Fields)

  /** The header text `s` inside the wrappings `ws`, innermost first. */
  function Wrap(s: string, ws: seq<Wrapping>): Value
    decreases |ws|
  {
    if ws == [] then Json.Str(s)
    else
      var inner := Wrap(s, ws[..|ws| - 1]);
      match ws[|ws| - 1]
      case FirstOf(rest) => Json.Arr([inner] + rest)
      case ValueOf(others) => Json.Obj(others + [("value", inner)])
  }

  /** The text a header holds is recovered through any nesting of arrays and
      `value` objects, as long as no earlier property is also called `value`. */
  lemma {:induction false} HeaderValueUnwraps(s: string, ws: seq<Wrapping>)
    requires forall k :: 0 <= k < |ws| ==> ws[k].ValueOf? ==> "value" !in Json.Keys(ws[k].others)
    ensures HeaderValue(Wrap(s, ws)) == Some(s)
    decreases |ws|
  {
    if ws != [] {
      var inner := Wrap(s, ws[..|ws| - 1]);
      HeaderValueUnwraps(s, ws[..|ws| - 1]);
      match ws[|ws| - 1]
      case FirstOf(rest) =>
        assert ([inner] + rest)[0] == inner;
      case ValueOf(others) =>
        LookupAfter(others, "value", inner);
    }
  }

  lemma {:induction false} LookupAfter(fields: Json.Fields, k: string, v: Value)
    requires k !in Json.Keys(fields)
    ensures Json.Lookup(fields + [(k, v)], k) == Some(v)
    decreases |fields|
  {
    if fields != [] {
      assert (fields + [(k, v)])[1..] == fields[1..] + [(k, v)];
      assert fields[0].0 == Json.Keys(fields)[0];
      assert forall j :: 0 <= j < |fields[1..]| ==> Json.Keys(fields[1..])[j] == Json.Keys(fields)[j + 1];
      LookupAfter(fields[1..], k, v);
    }
  }

  /** The text of a header for `getThreadId`: the header is present and truthy
      and its extracted text is a non-empty string. */
  function HeaderText(headers: Headers, name: string): (r: Option<string>)
    ensures r.Some? ==> name in headers && r.value != "" && HeaderValue(headers[name]) == r
  {
    if name in headers && Json.Truthy(headers[name]) then
      match HeaderValue(headers[name])
      case Some(v) => if v != "" then Some(v) else None
      case None => None
    else None
  }

  /** `getThreadId` */
  function ThreadId(headers: Headers): Option<string> {
    match HeaderText(headers, "references")
    case Some(references) => Some(JsStrings.Trim(JsStrings.Split(references, " ")[0]))
    case None =>
      match HeaderText(headers, "in-reply-to")
      case Some(inReplyTo) => Some(JsStrings.Trim(inReplyTo))
      case None =>
        match HeaderText(headers, "conversation-id")
        case Some(conversationId) => Some(JsStrings.Trim(conversationId))
        case None =>
          match HeaderText(headers, "message-id")
          case Some(messageId) => Some(JsStrings.Trim(messageId))
          case None => None
  }

  /** The headers `getThreadId` consults, highest priority first. */
  const ThreadHeaders: seq<string> := ["references", "in-reply-to", "conversation-id", "message-id"]

  /** The thread identifier a header's text yields: the first space-separated
      token of References, the whole text of the others, trimmed. */
  function TokenOf(name: string, text: string): string {
    if name == "references" then JsStrings.Trim(JsStrings.Split(text, " ")[0]) else JsStrings.Trim(text)
  }

  /** Reference definition of the priority: the first of `names` whose header
      has text decides, and with none the result is absent. */
  function FirstWithText(headers: Headers, names: seq<string>): (r: Option<string>)
    ensures r.None? <==> forall k :: 0 <= k < |names| ==> HeaderText(headers, names[k]).None?
  {
    if names == [] then None
    else
      match HeaderText(headers, names[0])
      case Some(t) => Some(TokenOf(names[0], t))
      case None =>
        assert forall k :: 0 < k < |names| ==> names[k] == names[1..][k - 1];
        FirstWithText(headers, names[1..])
  }

  /** `getThreadId` is the priority rule over References, In-Reply-To,
      Conversation-Id and Message-ID; a header without text falls through. */
  lemma ThreadIdIsPriority(headers: Headers)
    ensures ThreadId(headers) == FirstWithText(headers, ThreadHeaders)
    ensures ThreadId(headers).None? <==>
      forall k :: 0 <= k < |ThreadHeaders| ==> HeaderText(headers, ThreadHeaders[k]).None?
  {
    var ns := ThreadHeaders;
    var n1, n2, n3 := ns[1..], ns[1..][1..], ns[1..][1..][1..];
    assert n1 == ["in-reply-to", "conversation-id", "message-id"];
    assert n2 == ["conversation-id", "message-id"];
    assert n3 == ["message-id"];
    assert n3[1..] == [];
    assert FirstWithText(headers, n3[1..]) == None;
    if HeaderText(headers, "references").None? {
      assert FirstWithText(headers, ns) == FirstWithText(headers, n1);
      if HeaderText(headers, "in-reply-to").None? {
        assert FirstWithText(headers, n1) == FirstWithText(headers, n2);
        if HeaderText(headers, "conversation-id").None? {
          assert FirstWithText(headers, n2) == FirstWithText(headers, n3);
        }
      }
    }
  }

  /** The identifier is trimmed: no whitespace at either end. */
  lemma ThreadIdTrimmed(headers: Headers)
    ensures ThreadId(headers).Some? ==>
      var t := ThreadId(headers).value;
      t == [] || (!JsStrings.IsJsWhitespace(t[0]) && !JsStrings.IsJsWhitespace(t[|t| - 1]))
  {
    var source :=
      if HeaderText(headers, "references").Some? then JsStrings.Split(HeaderText(headers, "references").value, " ")[0]
      else if HeaderText(headers, "in-reply-to").Some? then HeaderText(headers, "in-reply-to").value
      else if HeaderText(headers, "conversation-id").Some? then HeaderText(headers, "conversation-id").value
      else if HeaderText(headers, "message-id").Some? then HeaderText(headers, "message-id").value
      else "";
    JsStrings.TrimSpec(source);
  }

  /** The identifier taken from References is one token: it holds no space. */
  lemma ReferencesTokenHasNoSpace(headers: Headers)
    requires HeaderText(headers, "references").Some?
    ensures ThreadId(headers).Some? && ' ' !in ThreadId(headers).value
  {
    var references := HeaderText(headers, "references").value;
    var first := JsStrings.Split(references, " ")[0];
    assert ThreadId(headers) == Some(JsStrings.Trim(first));
    JsStrings.SplitPiecesAvoidSeparator(references, " ");
    JsStrings.TrimKeepsAbsent(first, ' ');
  }

  /** A References header of blanks still decides: its first token is empty,
      so the identifier is `""` rather than the next header's text. */
  lemma BlankReferencesDecide()
    ensures ThreadId(map["references" := Json.Str("  "), "message-id" := Json.Str("<m@x>")]) == Some("")
  {
    var h := map["references" := Json.Str("  "), "message-id" := Json.Str("<m@x>")];
    assert HeaderText(h, "references") == Some("  ");
    assert JsStrings.OccursAt("  ", " ", 0);
    assert JsStrings.IndexOf("  ", " ") == Some(0);
    assert JsStrings.Split("  ", " ")[0] == "";
  }

  // ---------------------------------------------------------------------------
  // File-based connectors: the synthetic mailbox
  // ---------------------------------------------------------------------------

  /** `${displayName.replace(/ /g, '.').toLowerCase()}<domain>`: the address
      the file importers invent for the one mailbox an upload holds. It ends
      in the domain; a display name without `İ` keeps its length, each space
      turned into a dot and each capital lower-cased. */
  function SyntheticAddress(displayName: string, domain: string): (r: string)
    ensures JsStrings.EndsWith(r, domain) && |r| >= |displayName| + |domain|
    ensures JsStrings.DottedCapitalI !in displayName ==>
      |r| == |displayName| + |domain| &&
      forall i :: 0 <= i < |displayName| ==>
        r[i] == JsStrings.LowerChar(if displayName[i] == ' ' then '.' else displayName[i])
  {
    var local := JsStrings.ReplaceChar(displayName, ' ', '.');
    JsStrings.ReplaceCharMembers(displayName, ' ', '.', JsStrings.DottedCapitalI);
    JsStrings.ToLowerPerChar(local);
    assert (JsStrings.ToLower(local) + domain)[|JsStrings.ToLower(local)|..] == domain;
    JsStrings.ToLower(local) + domain
  }

  /** The local part of a synthetic address, everything in front of the
      domain, holds no space and no ASCII capital. */
  lemma SyntheticAddressShape(displayName: string, domain: string)
    ensures var r := SyntheticAddress(displayName, domain);
      forall i :: 0 <= i < |r| - |domain| ==> r[i] != ' ' && !JsStrings.IsAsciiUpper(r[i])
  {
    var local := JsStrings.ReplaceChar(displayName, ' ', '.');
    JsStrings.ReplaceCharMembers(displayName, ' ', '.', ' ');
    JsStrings.ToLowerProperties(local);
    var r := SyntheticAddress(displayName, domain);
    forall i | 0 <= i < |r| - |domain|
      ensures r[i] != ' ' && !JsStrings.IsAsciiUpper(r[i])
    {
      assert r[i] == JsStrings.ToLower(local)[i];
      assert r[i] in JsStrings.ToLower(local);
    }
  }

  /** A display name that lower-case leaves alone and that is free of spaces
      is kept verbatim in front of the domain. */
  lemma SyntheticAddressKeepsPlainNames(displayName: string, domain: string)
    requires forall i :: 0 <= i < |displayName| ==>
      displayName[i] != ' ' && JsStrings.LowerText(displayName[i]) == [displayName[i]]
    ensures SyntheticAddress(displayName, domain) == displayName + domain
  {
    assert JsStrings.DottedCapitalI !in displayName by {
      forall i | 0 <= i < |displayName| ensures displayName[i] != JsStrings.DottedCapitalI {
        assert |JsStrings.LowerText(displayName[i])| == 1;
      }
    }
    var r := SyntheticAddress(displayName, domain);
    assert r[..|displayName|] == displayName;
    assert r == r[..|displayName|] + r[|displayName|..];
  }

  /** `İ` lower-cases to two characters, so the address of a mailbox named
      `İpek` is one character longer than its name and domain. */
  lemma SyntheticAddressOfDottedI()
    ensures SyntheticAddress([JsStrings.DottedCapitalI] + "pek", "@eml.local")
      == "i" + [0x307 as char] + "pek@eml.local"
  {
    var name := [JsStrings.DottedCapitalI] + "pek";
    assert JsStrings.ReplaceChar(name, ' ', '.') == name;
    JsStrings.DottedCapitalIGrows();
  }

  /** The single mailbox a file importer lists: its id and primary address are
      both the synthetic address, and the display name is kept. */
  function SyntheticMailbox(displayName: string, domain: string): (r: IngestionTypes.MailboxUser)
    ensures r.id == r.primaryEmail == SyntheticAddress(displayName, domain)
    ensures r.displayName == displayName
  {
    IngestionTypes.MailboxUser(SyntheticAddress(displayName, domain), SyntheticAddress(displayName, domain), displayName)
  }

  /** The display name of an archive importer's mailbox: the uploaded file's
      name, or `<prefix><now>` when the upload carries none. */
  function UploadDisplayName(uploadedFileName: string, prefix: string, now: nat): (r: string)
    ensures uploadedFileName != "" ==> r == uploadedFileName
    ensures uploadedFileName == "" ==> r == prefix + JsStrings.NatToString(now)
    ensures prefix != "" ==> r != ""
  {
    if uploadedFileName != "" then uploadedFileName else prefix + JsStrings.NatToString(now)
  }

  /** `testConnection` of the archive importers: fails, in this order, on an
      empty upload path, on a path not mentioning the format's extension and
      on an upload not (yet) in storage; each failure has its own message. */
  function UploadCheck(path: string, extension: string, stored: set<string>,
                       noPath: string, wrongFormat: string, notFinished: string): (r: Outcome)
    ensures r.Pass? <==> path != "" && JsStrings.Contains(path, extension) && path in stored
    ensures path == "" ==> r == Fail(noPath)
    ensures path != "" && !JsStrings.Contains(path, extension) ==> r == Fail(wrongFormat)
    ensures path != "" && JsStrings.Contains(path, extension) && path !in stored ==> r == Fail(notFinished)
  {
    if path == "" then Fail(noPath)
    else if !JsStrings.Contains(path, extension) then Fail(wrongFormat)
    else if path !in stored then Fail(notFinished)
    else Pass
  }

  // ---------------------------------------------------------------------------
  // From a parsed message to an `EmailObject`
  // ---------------------------------------------------------------------------

  /** One address as mailparser reports it; an absent address is `""`. */
  datatype ParsedAddress = ParsedAddress(name: string, address: string)

  /** One attachment as mailparser reports it; an absent file name is `""`. */
  datatype ParsedAttachment = ParsedAttachment(filename: string, contentType: string, size: nat, content: Base64.Bytes)

  /** What `simpleParser` returns, reduced to the fields the connectors read.
      Address groups are already flattened; absent texts are `""`. */
  datatype ParsedMail = ParsedMail(
    messageId: string,
    from: seq<ParsedAddress>,
    to: seq<ParsedAddress>,
    cc: seq<ParsedAddress>,
    bcc: seq<ParsedAddress>,
    subject: string,
    text: string,
    html: string,
    headers: Headers,
    attachments: seq<ParsedAttachment>,
    date: Option<nat>)

  /** `mapAddresses`: the name is kept and single quotes are removed from the address. */
  function MapAddresses(addresses: seq<ParsedAddress>): (r: seq<IngestionTypes.EmailAddress>)
    ensures |r| == |addresses|
    ensures forall i :: 0 <= i < |r| ==>
      r[i].name == addresses[i].name && r[i].address == JsStrings.RemoveChar(addresses[i].address, '\'')
  {
    if addresses == [] then []
    else
      var a := IngestionTypes.EmailAddress(addresses[0].name, JsStrings.RemoveChar(addresses[0].address, '\''));
      [a] + MapAddresses(addresses[1..])
  }

  /** The sender list of a message: the mapped `from` addresses, or the single
      placeholder `No Sender` when there are none. */
  function Senders(from: seq<ParsedAddress>): (r: seq<IngestionTypes.EmailAddress>)
    ensures |r| >= 1
    ensures from == [] ==> r == [IngestionTypes.EmailAddress("No Sender", "No Sender")]
    ensures from != [] ==> r == MapAddresses(from)
  {
    if from == [] then [IngestionTypes.EmailAddress("No Sender", "No Sender")] else MapAddresses(from)
  }

  /** The attachment as handed to ingestion: an unnamed one is called `untitled`. */
  function MapAttachment(a: ParsedAttachment): (r: IngestionTypes.EmailAttachment)
    ensures r.filename != "" && (a.filename != "" ==> r.filename == a.filename)
    ensures r.content == a.content && r.size == a.size && r.contentType == a.contentType
  {
    IngestionTypes.EmailAttachment(if a.filename == "" then "untitled" else a.filename, a.contentType, a.size, a.content)
  }

  function MapAttachments(atts: seq<ParsedAttachment>): (r: seq<IngestionTypes.EmailAttachment>)
    ensures |r| == |atts| && forall i :: 0 <= i < |r| ==> r[i] == MapAttachment(atts[i])
  {
    if atts == [] then [] else [MapAttachment(atts[0])] + MapAttachments(atts[1..])
  }

  /** The `EmailObject` every file importer returns from a parsed message, given
      the identifier it chose, the folder path, the raw message and the current
      tick (`receivedAt` falls back to it when the message has no date). */
  function ToEmailObject(p: ParsedMail, id: string, path: string, eml: Base64.Bytes, now: nat): (r: IngestionTypes.EmailObject)
    ensures r.id == id && r.path == path && r.eml == Some(eml)
    ensures r.threadId == ThreadId(p.headers) && r.headers == p.headers
    ensures r.from == Senders(p.from)
    ensures r.to == MapAddresses(p.to) && r.cc == MapAddresses(p.cc) && r.bcc == MapAddresses(p.bcc)
    ensures r.subject == p.subject && r.body == p.text && r.html == p.html
    ensures r.attachments == MapAttachments(p.attachments)
    ensures r.receivedAt == (if p.date.Some? then p.date.value else now)
  {
    IngestionTypes.EmailObject(
      id, ThreadId(p.headers), Senders(p.from), MapAddresses(p.to), MapAddresses(p.cc), MapAddresses(p.bcc),
      p.subject, p.text, p.html, p.headers, MapAttachments(p.attachments),
      if p.date.Some? then p.date.value else now, Some(eml), path, None)
  }

  /** The identifier the EML and mbox importers give a message: its Message-ID,
      or `generated-<hash of the raw message>` when it has none. */
  function FileMessageId(messageId: string, emlHash: string): (r: string)
    ensures messageId != "" ==> r == messageId
    ensures messageId == "" ==> r == "generated-" + emlHash && JsStrings.StartsWith(r, "generated-")
  {
    if messageId != "" then messageId
    else
      var r := "generated-" + emlHash;
      assert r[..10] == "generated-";
      r
  }
}
