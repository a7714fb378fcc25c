/** The mbox importer's connector: an uploaded mbox file is cut into messages
    at every line starting with `From `, each piece is parsed on its own and
    placed in the folder named by its Gmail label or `X-Folder` header, and
    the upload is removed afterwards. */
module MboxConnector {
  import opened Wrappers
  import Json
  import JsStrings
  import Base64
  import Utf8
  import IngestionTypes
  import ConnectorUtils
  import Storage

  type Bytes = Base64.Bytes

  // ---------------------------------------------------------------------------
  // Upload check and mailbox
  // ---------------------------------------------------------------------------

  /** `testConnection` of the mbox importer. */
  function TestConnection(uploadedFilePath: string, stored: set<string>): (r: Outcome)
    ensures r.Pass? <==> uploadedFilePath != "" && JsStrings.Contains(uploadedFilePath, ".mbox") && uploadedFilePath in stored
    ensures uploadedFilePath == "" ==> r == Fail("Mbox file path not provided.")
    ensures uploadedFilePath != "" && !JsStrings.Contains(uploadedFilePath, ".mbox") ==>
      r == Fail("Provided file is not in the MBOX format.")
    ensures uploadedFilePath != "" && JsStrings.Contains(uploadedFilePath, ".mbox") && uploadedFilePath !in stored ==>
      r == Fail("Mbox file upload not finished yet, please wait.")
  {
    ConnectorUtils.UploadCheck(uploadedFilePath, ".mbox", stored, "Mbox file path not provided.",
      "Provided file is not in the MBOX format.", "Mbox file upload not finished yet, please wait.")
  }

  /** `listAllUsers`: one mailbox named after the uploaded file, or
      `mbox-import-<now>`, addressed `<name>@mbox.local`. */
  function ListAllUsers(uploadedFileName: string, now: nat): (r: seq<IngestionTypes.MailboxUser>)
    ensures |r| == 1
    ensures r[0].displayName == (if uploadedFileName != "" then uploadedFileName else "mbox-import-" + JsStrings.NatToString(now))
    ensures r[0].id == r[0].primaryEmail == ConnectorUtils.SyntheticAddress(r[0].displayName, "@mbox.local")
    ensures JsStrings.EndsWith(r[0].primaryEmail, "@mbox.local")
  {
    [ConnectorUtils.SyntheticMailbox(ConnectorUtils.UploadDisplayName(uploadedFileName, "mbox-import-", now), "@mbox.local")]
  }

  // ---------------------------------------------------------------------------
  // Cutting the file into messages
  // ---------------------------------------------------------------------------

  /** The separator between two messages of an mbox file. */
  const Delimiter := "\nFrom "

  const FromLine := "From "

  /** The pieces the loop visits: the split at every `\nFrom `, without the
      first piece when the file does not start with `From `. */
  function Pieces(content: string): (r: seq<string>)
    ensures JsStrings.StartsWith(content, FromLine) ==> r == JsStrings.Split(content, Delimiter)
    ensures !JsStrings.StartsWith(content, FromLine) ==> r == JsStrings.Split(content, Delimiter)[1..]
  {
    var pieces := JsStrings.Split(content, Delimiter);
    if |pieces| > 0 && !JsStrings.StartsWith(content, FromLine) then pieces[1..] else pieces
  }

  /** The text handed to the parser for a piece: `From ` is put back in front
      when the file starts with `From ` or a message has already been parsed. */
  function PieceText(piece: string, fromStart: bool, count: nat): (r: string)
    ensures fromStart || count > 0 ==> r == FromLine + piece
    ensures !fromStart && count == 0 ==> r == piece
  {
    if count > 0 || fromStart then FromLine + piece else piece
  }

  /** The folder path of a message: the first comma-separated entry of a
      non-empty string `X-Gmail-Labels` header, else a non-empty string
      `X-Folder` header, else `""`. */
  function FolderPath(headers: ConnectorUtils.Headers): (r: string)
    ensures GmailLabels(headers).Some? ==>
      var labels := GmailLabels(headers).value;
      ',' !in r && (r == labels || JsStrings.StartsWith(labels, r + ","))
    ensures GmailLabels(headers).None? && StringHeader(headers, "x-folder").Some? ==>
      r == StringHeader(headers, "x-folder").value
    ensures GmailLabels(headers).None? && StringHeader(headers, "x-folder").None? ==> r == ""
  {
    match GmailLabels(headers)
    case Some(labels) =>
      var first := JsStrings.Split(labels, ",")[0];
      FirstLabel(labels);
      first
    case None =>
      match StringHeader(headers, "x-folder")
      case Some(folder) => folder
      case None => ""
  }

  /** A header whose value is a non-empty string. */
  function StringHeader(headers: ConnectorUtils.Headers, name: string): Option<string> {
    if name in headers && headers[name].Str? && headers[name].s != "" then Some(headers[name].s) else None
  }

  function GmailLabels(headers: ConnectorUtils.Headers): Option<string> {
    StringHeader(headers, "x-gmail-labels")
  }

  /** The first label holds no comma and is either the whole label list or
      the part of it before its first comma. */
  lemma FirstLabel(labels: string)
    ensures ',' !in JsStrings.Split(labels, ",")[0]
    ensures var first := JsStrings.Split(labels, ",")[0];
      first == labels || JsStrings.StartsWith(labels, first + ",")
  {
    JsStrings.SplitPiecesAvoidSeparator(labels, ",");
    var first := JsStrings.Split(labels, ",")[0];
    if ',' in first {
      var j :| 0 <= j < |first| && first[j] == ',';
      assert first[j..j + 1] == ",";
      assert JsStrings.OccursAt(first, ",", j);
      JsStrings.ContainsIff(first, ",");
      assert false;
    }
    JsStrings.SplitHead(labels, ",");
    match JsStrings.IndexOf(labels, ",")
    case None =>
    case Some(i) =>
      assert labels[i..i + 1] == ",";
      assert labels[..i + 1] == labels[..i] + ",";
  }

  /** `parseMessage`: the Message-ID or `generated-<sha256>`, the `No Sender`
      fallback and the folder path read from the headers. */
  function ParseMessage(p: ConnectorUtils.ParsedMail, emlBuffer: Bytes, sha256: Bytes -> string, now: nat)
    : (r: IngestionTypes.EmailObject)
    ensures r.id == ConnectorUtils.FileMessageId(p.messageId, sha256(emlBuffer))
    ensures r.path == FolderPath(p.headers) && r.eml == Some(emlBuffer)
    ensures r.from == ConnectorUtils.Senders(p.from) && |r.from| >= 1
  {
    ConnectorUtils.ToEmailObject(p, ConnectorUtils.FileMessageId(p.messageId, sha256(emlBuffer)), FolderPath(p.headers), emlBuffer, now)
  }

  /** The messages the loop yields for the remaining `pieces`, given whether
      the file starts with `From ` and how many messages parsed so far; a
      piece that fails to parse yields nothing and leaves the count alone. */
  function Run(pieces: seq<string>, fromStart: bool, count: nat, parse: Bytes -> Option<ConnectorUtils.ParsedMail>,
               sha256: Bytes -> string, now: nat): seq<IngestionTypes.EmailObject>
  {
    if pieces == [] then []
    else
      var buffer := Utf8.Encode(PieceText(pieces[0], fromStart, count));
      match parse(buffer)
      case None => Run(pieces[1..], fromStart, count, parse, sha256, now)
      case Some(p) => [ParseMessage(p, buffer, sha256, now)] + Run(pieces[1..], fromStart, count + 1, parse, sha256, now)
  }

  /** The messages of an mbox file. */
  function MboxEmails(content: string, parse: Bytes -> Option<ConnectorUtils.ParsedMail>, sha256: Bytes -> string, now: nat)
    : seq<IngestionTypes.EmailObject>
  {
    Run(Pieces(content), JsStrings.StartsWith(content, FromLine), 0, parse, sha256, now)
  }

  /** Reference: every piece parsed with `From ` put back in front. */
  function AllPrefixed(pieces: seq<string>, parse: Bytes -> Option<ConnectorUtils.ParsedMail>, sha256: Bytes -> string, now: nat)
    : seq<IngestionTypes.EmailObject>
  {
    if pieces == [] then []
    else
      var buffer := Utf8.Encode(FromLine + pieces[0]);
      match parse(buffer)
      case None => AllPrefixed(pieces[1..], parse, sha256, now)
      case Some(p) => [ParseMessage(p, buffer, sha256, now)] + AllPrefixed(pieces[1..], parse, sha256, now)
  }

  /** Once the file starts with `From ` or one message has parsed, every
      further piece is parsed with `From ` in front. */
  lemma {:induction false} RunAfterFirstMessage(pieces: seq<string>, fromStart: bool, count: nat,
                                              parse: Bytes -> Option<ConnectorUtils.ParsedMail>, sha256: Bytes -> string, now: nat)
    requires fromStart || count > 0
    ensures Run(pieces, fromStart, count, parse, sha256, now) == AllPrefixed(pieces, parse, sha256, now)
    decreases |pieces|
  {
    if pieces != [] {
      var buffer := Utf8.Encode(FromLine + pieces[0]);
      assert PieceText(pieces[0], fromStart, count) == FromLine + pieces[0];
      if parse(buffer).Some? {
        RunAfterFirstMessage(pieces[1..], fromStart, count + 1, parse, sha256, now);
      } else {
        RunAfterFirstMessage(pieces[1..], fromStart, count, parse, sha256, now);
      }
    }
  }

  /** Before the first message has parsed in a file not starting with
      `From `, pieces are parsed as they are until one succeeds. */
  lemma {:induction false} RunBeforeFirstMessage(pieces: seq<string>, parse: Bytes -> Option<ConnectorUtils.ParsedMail>,
                                               sha256: Bytes -> string, now: nat)
    requires pieces != []
    ensures var buffer := Utf8.Encode(pieces[0]);
      Run(pieces, false, 0, parse, sha256, now) ==
        match parse(buffer)
        case None => Run(pieces[1..], false, 0, parse, sha256, now)
        case Some(p) => [ParseMessage(p, buffer, sha256, now)] + AllPrefixed(pieces[1..], parse, sha256, now)
  {
    if parse(Utf8.Encode(pieces[0])).Some? {
      RunAfterFirstMessage(pieces[1..], false, 1, parse, sha256, now);
    }
  }

  /** At most one message per piece. */
  lemma {:induction false} RunAtMostOnePerPiece(pieces: seq<string>, fromStart: bool, count: nat,
                                              parse: Bytes -> Option<ConnectorUtils.ParsedMail>, sha256: Bytes -> string, now: nat)
    ensures |Run(pieces, fromStart, count, parse, sha256, now)| <= |pieces|
    decreases |pieces|
  {
    if pieces != [] {
      RunAtMostOnePerPiece(pieces[1..], fromStart, count, parse, sha256, now);
      RunAtMostOnePerPiece(pieces[1..], fromStart, count + 1, parse, sha256, now);
    }
  }

  // ---------------------------------------------------------------------------
  // The fetch
  // ---------------------------------------------------------------------------

  /** One step of `Run` at position `i` of the pieces. */
  lemma RunStep(pieces: seq<string>, i: nat, fromStart: bool, count: nat,
                parse: Bytes -> Option<ConnectorUtils.ParsedMail>, sha256: Bytes -> string, now: nat)
    requires i < |pieces|
    ensures var buffer := Utf8.Encode(PieceText(pieces[i], fromStart, count));
      Run(pieces[i..], fromStart, count, parse, sha256, now) ==
        match parse(buffer)
        case None => Run(pieces[i + 1..], fromStart, count, parse, sha256, now)
        case Some(p) => [ParseMessage(p, buffer, sha256, now)] + Run(pieces[i + 1..], fromStart, count + 1, parse, sha256, now)
  {
    assert pieces[i..][1..] == pieces[i + 1..];
  }

  lemma AppendAssoc<T>(a: seq<T>, b: seq<T>, c: seq<T>)
    ensures a + (b + c) == (a + b) + c
  {
  }

  /** The loop of `fetchEmails` over the pieces: `From ` is put back as
      `PieceText` says, `emailCount` counts the messages that parsed, and a
      piece that fails to parse is skipped. */
  method ParsePieces(emails: seq<string>, fromStart: bool, parse: Bytes -> Option<ConnectorUtils.ParsedMail>,
                     sha256: Bytes -> string, now: nat)
    returns (out: seq<IngestionTypes.EmailObject>)
    ensures out == Run(emails, fromStart, 0, parse, sha256, now)
  {
    var emailCount := 0;
    out := [];
    for i := 0 to |emails|
      invariant emailCount == |out|
      invariant out + Run(emails[i..], fromStart, emailCount, parse, sha256, now) ==
        Run(emails, fromStart, 0, parse, sha256, now)
    {
      RunStep(emails, i, fromStart, emailCount, parse, sha256, now);
      var emailWithDelimiter := if emailCount > 0 || fromStart then FromLine + emails[i] else emails[i];
      var emailBuffer := Utf8.Encode(emailWithDelimiter);
      var parsed := parse(emailBuffer);
      if parsed.Some? {
        var email := ParseMessage(parsed.value, emailBuffer, sha256, now);
        AppendAssoc(out, [email], Run(emails[i + 1..], fromStart, emailCount + 1, parse, sha256, now));
        out := out + [email];
        emailCount := emailCount + 1;
      }
    }
    assert emails[|emails|..] == [];
  }

  /** `fetchEmails`: the upload is read as UTF-8 text (`text` stands for
      `Buffer.toString('utf-8')`), cut into pieces and each piece parsed in
      turn (`parse` stands for mailparser and yields `None` where it throws);
      the upload is deleted whatever happens. A missing upload fails with the
      error `storage.get` throws, whose message is `readError`. */
  method FetchEmails(store: Storage.Store, uploadedFilePath: string, text: Bytes -> string,
                     parse: Bytes -> Option<ConnectorUtils.ParsedMail>, sha256: Bytes -> string, now: nat,
                     readError: string)
    returns (r: Result<seq<IngestionTypes.EmailObject>>)
    modifies store
    ensures store.objects == old(store.objects) - {uploadedFilePath}
    ensures r.Ok? <==> uploadedFilePath in old(store.objects)
    ensures r.Err? ==> r.error == readError
    ensures r.Ok? ==> r.value == MboxEmails(text(old(store.objects)[uploadedFilePath]), parse, sha256, now)
  {
    if uploadedFilePath !in store.objects {
      r := Err(readError);
    } else {
      var mboxContent := text(store.objects[uploadedFilePath]);
      var fromStart := JsStrings.StartsWith(mboxContent, FromLine);
      var emails := JsStrings.Split(mboxContent, Delimiter);
      if |emails| > 0 && !fromStart {
        emails := emails[1..];
      }
      var out := ParsePieces(emails, fromStart, parse, sha256, now);
      r := Ok(out);
    }
    store.Delete(uploadedFilePath);
  }

  // ---------------------------------------------------------------------------
  // The leading `From ` line
  // ---------------------------------------------------------------------------

  /** In a file starting with `From `, the first piece keeps its own `From `
      line, so the text parsed for it starts with `From From `. */
  lemma LeadingFromDoubled(content: string)
    requires JsStrings.StartsWith(content, FromLine)
    ensures JsStrings.StartsWith(Pieces(content)[0], FromLine)
    ensures PieceText(Pieces(content)[0], true, 0) == FromLine + Pieces(content)[0]
    ensures JsStrings.StartsWith(PieceText(Pieces(content)[0], true, 0), "From From ")
  {
    FirstPieceKeepsFromLine(content);
    var first := Pieces(content)[0];
    assert (FromLine + first)[..10] == FromLine + first[..5];
  }

  lemma FirstPieceKeepsFromLine(content: string)
    requires JsStrings.StartsWith(content, FromLine)
    ensures JsStrings.StartsWith(JsStrings.Split(content, Delimiter)[0], FromLine)
  {
    JsStrings.SplitHead(content, Delimiter);
    assert forall j :: 0 <= j < 5 ==> content[j] != '\n' by {
      forall j | 0 <= j < 5 ensures content[j] != '\n' {
        assert content[j] == content[..5][j];
      }
    }
    match JsStrings.IndexOf(content, Delimiter)
    case None =>
    case Some(i) =>
      assert content[i..i + 6] == Delimiter;
      assert content[i] == content[i..i + 6][0] == '\n';
      assert i >= 5;
      assert content[..i][..5] == content[..5];
  }

  /** The messages the file holds: the first piece as it stands when the file
      starts with `From `, and every later piece with its `From ` put back. */
  function IntendedTexts(content: string): (r: seq<string>) {
    var pieces := JsStrings.Split(content, Delimiter);
    if JsStrings.StartsWith(content, FromLine) then [pieces[0]] + Restored(pieces[1..]) else Restored(pieces[1..])
  }

  function Restored(pieces: seq<string>): (r: seq<string>)
    ensures |r| == |pieces| && forall k :: 0 <= k < |r| ==> r[k] == FromLine + pieces[k]
  {
    if pieces == [] then [] else [FromLine + pieces[0]] + Restored(pieces[1..])
  }

  /** The intended cut loses nothing and adds nothing: a file starting with
      `From ` is its messages joined by line breaks, the first message being
      the first piece as it stands. */
  lemma IntendedTextsRejoin(content: string)
    requires JsStrings.StartsWith(content, FromLine)
    ensures JsStrings.Join(IntendedTexts(content), "\n") == content
    ensures IntendedTexts(content)[0] == Pieces(content)[0]
  {
    var pieces := JsStrings.Split(content, Delimiter);
    JsStrings.JoinSplit(content, Delimiter);
    if |pieces| > 1 {
      var rest := pieces[1..];
      assert pieces == [pieces[0]] + rest;
      JsStrings.JoinCons(pieces[0], rest, Delimiter);
      RestoredJoin(rest);
      JsStrings.JoinCons(pieces[0], Restored(rest), "\n");
      DelimiterSplits(pieces[0], JsStrings.Join(rest, Delimiter));
    } else {
      assert IntendedTexts(content) == [pieces[0]];
    }
  }

  /** `\nFrom ` is a line break followed by a `From ` line. */
  lemma DelimiterSplits(a: string, b: string)
    ensures a + "\n" + (FromLine + b) == a + Delimiter + b
  {
    assert Delimiter == "\n" + FromLine;
  }

  lemma {:induction false} RestoredJoin(pieces: seq<string>)
    requires pieces != []
    ensures JsStrings.Join(Restored(pieces), "\n") == FromLine + JsStrings.Join(pieces, Delimiter)
    decreases |pieces|
  {
    if |pieces| > 1 {
      var rest := pieces[1..];
      RestoredJoin(rest);
      assert pieces == [pieces[0]] + rest;
      assert Restored(pieces) == [FromLine + pieces[0]] + Restored(rest);
      JsStrings.JoinCons(FromLine + pieces[0], Restored(rest), "\n");
      JsStrings.JoinCons(pieces[0], rest, Delimiter);
      DelimiterSplits(FromLine + pieces[0], JsStrings.Join(rest, Delimiter));
      assert FromLine + pieces[0] + Delimiter + JsStrings.Join(rest, Delimiter) ==
        FromLine + (pieces[0] + Delimiter + JsStrings.Join(rest, Delimiter));
    }
  }
}
