/** The PST importer: which folders of an Outlook data file are imported, the
    pre-order walk that yields their messages with a folder path, the MIME
    text rebuilt from a PST message (multipart/mixed and multipart/alternative
    bodies of section 5.1 of RFC 2046, base64 attachments of section 6.8 of
    RFC 2045). */
module PstFormat {
  import opened Wrappers
  import JsStrings
  import Base64
  import PstFolderNames

  type Bytes = Base64.Bytes

  // ---------------------------------------------------------------------------
  // The PST file as pst-extractor presents it
  // ---------------------------------------------------------------------------

  /** An attachment; `data` is absent when the attachment has no input stream. */
  datatype PstAttachment = PstAttachment(mimeTag: string, longFilename: string, data: Option<Bytes>)

  /** `clientSubmitTime`: its `toUTCString()` text and its `getTime()` value. */
  datatype SubmitTime = SubmitTime(utc: string, millis: int)

  /** The message properties `constructEml` reads; an absent text is `""`. */
  datatype PstMessage = PstMessage(
    senderName: string,
    senderEmailAddress: string,
    displayTo: string,
    displayCC: string,
    displayBCC: string,
    subject: string,
    clientSubmitTime: Option<SubmitTime>,
    internetMessageId: string,
    inReplyToId: string,
    conversationId: string,
    body: string,
    bodyHTML: string,
    hasAttachments: bool,
    attachments: seq<PstAttachment>)

  /** A folder: `messages` are the children `getNextChild` hands out before it
      returns null or fails; `subfolders` is `getSubFolders()`. */
  datatype Folder = Folder(
    displayName: string,
    contentCount: int,
    messages: seq<PstMessage>,
    hasSubfolders: bool,
    subfolders: seq<Folder>)

  /** A message yielded by the walk together with its folder path. */
  datatype Visit = Visit(message: PstMessage, path: string)

  /** A folder is skipped when its lower-cased display name is on either deny-list. */
  predicate Skipped(displayName: string) {
    PstFolderNames.Denied(JsStrings.ToLower(displayName))
  }

  /** The deny-lists are matched after lower-casing, so a capitalised name is
      skipped too: `SPAM`, ... */
  lemma SkippedCapitalSpam()
    ensures Skipped("SPAM")
  {
    assert JsStrings.ToLower("SPAM") == "spam" by {
      assert JsStrings.ToLower("M") == "m";
      assert JsStrings.ToLower("AM") == "am";
      assert JsStrings.ToLower("PAM") == "pam";
    }
    PstFolderNames.DeniedIff("spam");
  }

  /** ... the Cyrillic `КОРЗИНА`, ... */
  lemma SkippedCapitalKorzina()
    ensures Skipped("\U{041A}\U{041E}\U{0420}\U{0417}\U{0418}\U{041D}\U{0410}")
  {
    var upper := "\U{041A}\U{041E}\U{0420}\U{0417}\U{0418}\U{041D}\U{0410}";
    var lower := "\U{043A}\U{043E}\U{0440}\U{0437}\U{0438}\U{043D}\U{0430}";
    assert JsStrings.ToLower(upper) == lower by {
      JsStrings.ToLowerPerChar(upper);
    }
    PstFolderNames.DeniedIff(lower);
  }

  /** ... and the Czech `KOŠ`. */
  lemma SkippedCapitalKos()
    ensures Skipped("KO\U{0160}")
  {
    assert JsStrings.ToLower("KO\U{0160}") == "ko\U{0161}" by {
      JsStrings.ToLowerPerChar("KO\U{0160}");
    }
    PstFolderNames.DeniedIff("ko\U{0161}");
  }

  /** `currentPath ? currentPath + '/' + name : name` */
  function FolderPath(currentPath: string, name: string): (r: string)
    ensures currentPath == "" ==> r == name
    ensures currentPath != "" ==> r == currentPath + "/" + name
  {
    if currentPath != "" then currentPath + "/" + name else name
  }

  // ---------------------------------------------------------------------------
  // The walk
  // ---------------------------------------------------------------------------

  /** The messages of one folder, each tagged with the folder's path. */
  function Tag(ms: seq<PstMessage>, path: string): (r: seq<Visit>)
    ensures |r| == |ms| && forall i :: 0 <= i < |r| ==> r[i] == Visit(ms[i], path)
  {
    if ms == [] then [] else Tag(ms[..|ms| - 1], path) + [Visit(ms[|ms| - 1], path)]
  }

  /** What `processFolder(folder, currentPath)` yields: nothing for a skipped
      folder; otherwise its own messages (when `contentCount > 0`) followed by
      the walk of each subfolder in order (when `hasSubfolders`). */
  function Traverse(f: Folder, currentPath: string): seq<Visit>
    decreases f, 1
  {
    if Skipped(f.displayName) then []
    else
      var path := FolderPath(currentPath, f.displayName);
      (if f.contentCount > 0 then Tag(f.messages, path) else [])
      + (if f.hasSubfolders then TraverseSubfolders(f, |f.subfolders|, path) else [])
  }

  /** The walks of the first `n` subfolders of `f`, concatenated. */
  function TraverseSubfolders(f: Folder, n: nat, path: string): seq<Visit>
    requires n <= |f.subfolders|
    decreases f, 0, n
  {
    if n == 0 then []
    else
      assert f.subfolders[n - 1] in f.subfolders;
      TraverseSubfolders(f, n - 1, path) + Traverse(f.subfolders[n - 1], path)
  }

  /** The `getNextChild` loop of `processFolder`: the folder's children, in
      the order the cursor hands them out, tagged with the folder path. */
  method ReadChildren(messages: seq<PstMessage>, path: string) returns (out: seq<Visit>)
    ensures out == Tag(messages, path)
  {
    out := [];
    var cursor := 0;
    while cursor < |messages|
      invariant cursor <= |messages|
      invariant out == Tag(messages[..cursor], path)
    {
      assert messages[..cursor + 1][..cursor] == messages[..cursor];
      out := out + [Visit(messages[cursor], path)];
      cursor := cursor + 1;
    }
    assert messages[..cursor] == messages;
  }

  /** `processFolder`: a skipped folder yields nothing; otherwise its children,
      then the recursive walk of each subfolder in order. */
  method ProcessFolder(f: Folder, currentPath: string) returns (out: seq<Visit>)
    ensures out == Traverse(f, currentPath)
    decreases f
  {
    if Skipped(f.displayName) {
      return [];
    }
    var newPath := if currentPath != "" then currentPath + "/" + f.displayName else f.displayName;
    out := [];
    if f.contentCount > 0 {
      out := ReadChildren(f.messages, newPath);
    }
    if f.hasSubfolders {
      var nested := [];
      for i := 0 to |f.subfolders|
        invariant nested == TraverseSubfolders(f, i, newPath)
      {
        assert f.subfolders[i] in f.subfolders;
        var sub := ProcessFolder(f.subfolders[i], newPath);
        assert TraverseSubfolders(f, i + 1, newPath) == nested + sub;
        nested := nested + sub;
      }
      out := out + nested;
    }
  }

  // ---------------------------------------------------------------------------
  // A reference description of the walk: the visible folders in pre-order
  // ---------------------------------------------------------------------------

  /** A folder reached by the walk, with its full path. */
  datatype Stop = Stop(folder: Folder, path: string)

  /** The folders the walk enters, parent before children, children in order;
      a skipped folder hides its whole subtree. */
  function Visible(f: Folder, currentPath: string): seq<Stop>
    decreases f, 1
  {
    if Skipped(f.displayName) then []
    else
      var path := FolderPath(currentPath, f.displayName);
      [Stop(f, path)] + (if f.hasSubfolders then VisibleSubfolders(f, |f.subfolders|, path) else [])
  }

  function VisibleSubfolders(f: Folder, n: nat, path: string): seq<Stop>
    requires n <= |f.subfolders|
    decreases f, 0, n
  {
    if n == 0 then []
    else
      assert f.subfolders[n - 1] in f.subfolders;
      VisibleSubfolders(f, n - 1, path) + Visible(f.subfolders[n - 1], path)
  }

  /** The messages a folder contributes once it is entered. */
  function Contents(s: Stop): seq<Visit> {
    if s.folder.contentCount > 0 then Tag(s.folder.messages, s.path) else []
  }

  function ContentsOf(stops: seq<Stop>): seq<Visit> {
    if stops == [] then [] else Contents(stops[0]) + ContentsOf(stops[1..])
  }

  lemma {:induction false} ContentsOfAppend(a: seq<Stop>, b: seq<Stop>)
    ensures ContentsOf(a + b) == ContentsOf(a) + ContentsOf(b)
    decreases |a|
  {
    if a == [] {
      assert a + b == b;
    } else {
      assert (a + b)[1..] == a[1..] + b;
      ContentsOfAppend(a[1..], b);
    }
  }

  /** The walk yields, folder by folder in pre-order over the folders that are
      not skipped, each folder's messages tagged with that folder's path. */
  lemma {:induction false} TraverseIsPreOrder(f: Folder, currentPath: string)
    ensures Traverse(f, currentPath) == ContentsOf(Visible(f, currentPath))
    decreases f, 1
  {
    if !Skipped(f.displayName) {
      var path := FolderPath(currentPath, f.displayName);
      var subs := if f.hasSubfolders then VisibleSubfolders(f, |f.subfolders|, path) else [];
      ContentsOfAppend([Stop(f, path)], subs);
      assert ContentsOf([Stop(f, path)]) == Contents(Stop(f, path)) by {
        assert [Stop(f, path)][1..] == [];
      }
      if f.hasSubfolders {
        SubfoldersArePreOrder(f, |f.subfolders|, path);
      }
    }
  }

  lemma {:induction false} SubfoldersArePreOrder(f: Folder, n: nat, path: string)
    requires n <= |f.subfolders|
    ensures TraverseSubfolders(f, n, path) == ContentsOf(VisibleSubfolders(f, n, path))
    decreases f, 0, n
  {
    if n > 0 {
      var sub := f.subfolders[n - 1];
      assert sub in f.subfolders;
      SubfoldersArePreOrder(f, n - 1, path);
      TraverseIsPreOrder(sub, path);
      ContentsOfAppend(VisibleSubfolders(f, n - 1, path), Visible(sub, path));
      assert TraverseSubfolders(f, n, path) == TraverseSubfolders(f, n - 1, path) + Traverse(sub, path);
      assert VisibleSubfolders(f, n, path) == VisibleSubfolders(f, n - 1, path) + Visible(sub, path);
    }
  }

  /** No folder the walk enters is on a deny-list, and every path it builds
      ends with that folder's own name. */
  lemma {:induction false} VisibleNeverSkipped(f: Folder, currentPath: string)
    ensures forall k :: 0 <= k < |Visible(f, currentPath)| ==>
      !Skipped(Visible(f, currentPath)[k].folder.displayName) &&
      JsStrings.EndsWith(Visible(f, currentPath)[k].path, Visible(f, currentPath)[k].folder.displayName)
    decreases f, 1
  {
    if !Skipped(f.displayName) {
      var path := FolderPath(currentPath, f.displayName);
      assert JsStrings.EndsWith(path, f.displayName) by {
        if currentPath != "" {
          assert path[|path| - |f.displayName|..] == f.displayName;
        }
      }
      if f.hasSubfolders {
        VisibleSubfoldersNeverSkipped(f, |f.subfolders|, path);
      }
    }
  }

  lemma {:induction false} VisibleSubfoldersNeverSkipped(f: Folder, n: nat, path: string)
    requires n <= |f.subfolders|
    ensures forall k :: 0 <= k < |VisibleSubfolders(f, n, path)| ==>
      !Skipped(VisibleSubfolders(f, n, path)[k].folder.displayName) &&
      JsStrings.EndsWith(VisibleSubfolders(f, n, path)[k].path, VisibleSubfolders(f, n, path)[k].folder.displayName)
    decreases f, 0, n
  {
    if n > 0 {
      assert f.subfolders[n - 1] in f.subfolders;
      VisibleSubfoldersNeverSkipped(f, n - 1, path);
      VisibleNeverSkipped(f.subfolders[n - 1], path);
    }
  }

  // ---------------------------------------------------------------------------
  // `constructEml`
  // ---------------------------------------------------------------------------

  const Boundary := "----boundary-openarchiver"
  const AltBoundary := "----boundary-openarchiver_alt"
  const Quote: string := ['"']

  /** `text` when the condition holds, `""` otherwise. */
  function When(cond: bool, text: string): string {
    if cond then text else ""
  }

  /** The number of header fields `constructEml` may write. */
  const FieldCount := 9

  /** Whether the `k`-th header field is written. */
  predicate FieldPresent(m: PstMessage, k: nat) {
    if k == 0 then m.senderName != "" || m.senderEmailAddress != ""
    else if k == 1 then m.displayTo != ""
    else if k == 2 then m.displayCC != ""
    else if k == 3 then m.displayBCC != ""
    else if k == 4 then m.subject != ""
    else if k == 5 then m.clientSubmitTime.Some?
    else if k == 6 then m.internetMessageId != ""
    else if k == 7 then m.inReplyToId != ""
    else if k == 8 then m.conversationId != ""
    else false
  }

  /** The `k`-th header field, without a line terminator. */
  function FieldLine(m: PstMessage, k: nat): string {
    if k == 0 then "From: " + m.senderName + " <" + m.senderEmailAddress + ">"
    else if k == 1 then "To: " + m.displayTo
    else if k == 2 then "Cc: " + m.displayCC
    else if k == 3 then "Bcc: " + m.displayBCC
    else if k == 4 then "Subject: " + m.subject
    else if k == 5 then "Date: " + (if m.clientSubmitTime.Some? then m.clientSubmitTime.value.utc else "")
    else if k == 6 then "Message-ID: <" + m.internetMessageId + ">"
    else if k == 7 then "In-Reply-To: " + m.inReplyToId
    else "Conversation-Id: " + m.conversationId
  }

  /** The text `constructEml` appends for its `k`-th header field: a present
      field with its line terminator, except that In-Reply-To (7) and
      Conversation-Id (8) get none. */
  function HeaderPiece(m: PstMessage, k: nat): string {
    When(FieldPresent(m, k), if k < 7 then FieldLine(m, k) + "\n" else FieldLine(m, k))
  }

  /** The first `n` header pieces. */
  function HeaderPrefix(m: PstMessage, n: nat): string {
    if n == 0 then "" else HeaderPrefix(m, n - 1) + HeaderPiece(m, n - 1)
  }

  const MimeVersion := "MIME-Version: 1.0"

  /** The header block as `constructEml` writes it: the header pieces, then
      `MIME-Version: 1.0`. */
  function HeaderBlock(m: PstMessage): string {
    HeaderPrefix(m, FieldCount) + MimeVersion + "\n"
  }

  /** The first `n` present header fields, without terminators. */
  function FieldsUpTo(m: PstMessage, n: nat): seq<string> {
    if n == 0 then [] else FieldsUpTo(m, n - 1) + (if FieldPresent(m, n - 1) then [FieldLine(m, n - 1)] else [])
  }

  /** The header fields present on the message, in the order `constructEml`
      writes them. */
  function HeaderFields(m: PstMessage): seq<string> {
    FieldsUpTo(m, FieldCount)
  }

  /** Lines, each followed by a newline. */
  function Lines(ls: seq<string>): string {
    if ls == [] then "" else ls[0] + "\n" + Lines(ls[1..])
  }

  /** The header block with a terminator after every field. */
  function HeaderBlockIntended(m: PstMessage): string {
    Lines(HeaderFields(m) + [MimeVersion])
  }

  /** ASCII case folding, as a case-insensitive regular expression without
      the `u` flag compares the letters of `Content-Type:`. */
  function FoldAscii(s: string): (r: string)
    ensures |r| == |s|
    ensures forall i :: 0 <= i < |s| ==> r[i] == if JsStrings.IsAsciiUpper(s[i]) then JsStrings.AsciiLower(s[i]) else s[i]
  {
    if s == [] then [] else [if JsStrings.IsAsciiUpper(s[0]) then JsStrings.AsciiLower(s[0]) else s[0]] + FoldAscii(s[1..])
  }

  /** `/Content-Type:/i.test(headers)` */
  predicate MentionsContentType(headers: string) {
    JsStrings.Contains(FoldAscii(headers), ContentTypeNeedle)
  }

  const ContentTypeNeedle := "content-type:"

  const MixedContentType := "Content-Type: multipart/mixed; boundary=" + Quote + Boundary + Quote + "\n"
  const AltContentType := "Content-Type: multipart/alternative; boundary=" + Quote + AltBoundary + Quote + "\n"

  /** The header block followed by the multipart declarations: the mixed
      boundary opened for a message with attachments, the alternative one
      declared in either case. */
  function Declared(headers: string, hasAttachments: bool): string {
    if hasAttachments then headers + MixedContentType + AltContentType + "\n" + "--" + Boundary + "\n\n"
    else headers + AltContentType + "\n"
  }

  /** What precedes the body: the declared header block, or nothing at all
      when the header block already mentions `Content-Type:`. */
  function Envelope(headers: string, hasAttachments: bool): string {
    if MentionsContentType(headers) then "" else Declared(headers, hasAttachments)
  }

  /** The declared header block starts with the headers and the first
      multipart declaration. */
  lemma DeclaredStartsWithHeaders(headers: string, hasAttachments: bool)
    ensures JsStrings.StartsWith(Declared(headers, hasAttachments), headers)
    ensures JsStrings.StartsWith(Declared(headers, hasAttachments),
                                 headers + (if hasAttachments then MixedContentType else AltContentType))
  {
    var pre := headers + (if hasAttachments then MixedContentType else AltContentType);
    var d := Declared(headers, hasAttachments);
    if hasAttachments {
      assert d == pre + (AltContentType + "\n" + "--" + Boundary + "\n\n");
    } else {
      assert d == pre + "\n";
    }
    assert d[..|pre|] == pre;
    assert pre[..|headers|] == headers;
    JsStrings.StartsWithTrans(d, pre, headers);
  }

  /** The plain-text part under the alternative boundary. */
  function TextPart(body: string): string {
    "--" + AltBoundary + "\n" + "Content-Type: text/plain; charset=" + Quote + "utf-8" + Quote + "\n\n" + body + "\n\n"
  }

  /** The HTML part under the alternative boundary. */
  function HtmlPart(html: string): string {
    "--" + AltBoundary + "\n" + "Content-Type: text/html; charset=" + Quote + "utf-8" + Quote + "\n\n" + html + "\n\n"
  }

  /** The closing alternative boundary. */
  const AltClose := "--" + AltBoundary + "--\n"

  /** The text part, the HTML part, and the closing alternative boundary when
      either exists. */
  function BodyParts(m: PstMessage): string {
    When(m.body != "", TextPart(m.body))
    + When(m.bodyHTML != "", HtmlPart(m.bodyHTML))
    + When(m.body != "" || m.bodyHTML != "", AltClose)
  }

  /** The MIME headers of an attachment part, up to the blank line. */
  function AttachmentHeader(a: PstAttachment): string {
    "\n--" + Boundary + "\n"
    + "Content-Type: " + a.mimeTag + "; name=" + Quote + a.longFilename + Quote + "\n"
    + "Content-Disposition: attachment; filename=" + Quote + a.longFilename + Quote + "\n"
    + "Content-Transfer-Encoding: base64\n\n"
  }

  /** One attachment part; an attachment without a stream contributes nothing. */
  function AttachmentPart(a: PstAttachment): string {
    match a.data
    case None => ""
    case Some(d) => AttachmentHeader(a) + Base64.Encode(d) + "\n"
  }

  function AttachmentParts(atts: seq<PstAttachment>): string {
    if atts == [] then "" else AttachmentParts(atts[..|atts| - 1]) + AttachmentPart(atts[|atts| - 1])
  }

  /** The closing mixed boundary. */
  const MixedClose := "\n--" + Boundary + "--"

  /** `constructEml` as written: the attachment parts and the closing mixed
      boundary appear only for a message flagged as having attachments. */
  function Eml(m: PstMessage): string {
    Envelope(HeaderBlock(m), m.hasAttachments) + BodyParts(m)
    + When(m.hasAttachments, AttachmentParts(m.attachments))
    + When(m.hasAttachments, MixedClose)
  }

  /** `if (cond) headers += text;` */
  method AppendWhen(headers: string, cond: bool, text: string) returns (out: string)
    ensures out == headers + When(cond, text)
  {
    out := headers;
    if cond {
      out := out + text;
    }
  }

  /** The header lines of `constructEml`, appended one field at a time. */
  method WriteHeaders(m: PstMessage) returns (headers: string)
    ensures headers == HeaderBlock(m)
  {
    headers := "";
    headers := AppendWhen(headers, FieldPresent(m, 0), FieldLine(m, 0) + "\n");
    assert headers == HeaderPrefix(m, 1);
    headers := AppendWhen(headers, FieldPresent(m, 1), FieldLine(m, 1) + "\n");
    assert headers == HeaderPrefix(m, 2);
    headers := AppendWhen(headers, FieldPresent(m, 2), FieldLine(m, 2) + "\n");
    assert headers == HeaderPrefix(m, 3);
    headers := AppendWhen(headers, FieldPresent(m, 3), FieldLine(m, 3) + "\n");
    assert headers == HeaderPrefix(m, 4);
    headers := AppendWhen(headers, FieldPresent(m, 4), FieldLine(m, 4) + "\n");
    assert headers == HeaderPrefix(m, 5);
    headers := AppendWhen(headers, FieldPresent(m, 5), FieldLine(m, 5) + "\n");
    assert headers == HeaderPrefix(m, 6);
    headers := AppendWhen(headers, FieldPresent(m, 6), FieldLine(m, 6) + "\n");
    assert headers == HeaderPrefix(m, 7);
    headers := AppendWhen(headers, FieldPresent(m, 7), FieldLine(m, 7));
    assert headers == HeaderPrefix(m, 8);
    headers := AppendWhen(headers, FieldPresent(m, 8), FieldLine(m, 8));
    assert headers == HeaderPrefix(m, 9);
    headers := headers + MimeVersion + "\n";
  }

  /** The start of `constructEml`: the header block and the multipart
      declarations, unless the header block mentions `Content-Type:`. */
  method WriteEnvelope(headers: string, hasAttachments: bool) returns (eml: string)
    ensures eml == Envelope(headers, hasAttachments)
  {
    if MentionsContentType(headers) {
      eml := "";
    } else if hasAttachments {
      var h := headers;
      h := h + MixedContentType;
      h := h + AltContentType + "\n";
      eml := h;
      eml := eml + "--" + Boundary + "\n\n";
    } else {
      eml := headers;
      eml := eml + AltContentType + "\n";
    }
  }

  /** `constructEml`: the header block, the multipart declarations unless the
      header block mentions `Content-Type:`, the text and HTML parts and, for a
      message with attachments, one base64 part per attachment that has a
      stream and the closing boundary. */
  method ConstructEml(m: PstMessage) returns (eml: string)
    ensures eml == Eml(m)
  {
    var headers := WriteHeaders(m);
    eml := WriteEnvelope(headers, m.hasAttachments);

    var body := "";
    body := AppendWhen(body, m.body != "", TextPart(m.body));
    assert body == When(m.body != "", TextPart(m.body));
    body := AppendWhen(body, m.bodyHTML != "", HtmlPart(m.bodyHTML));
    body := AppendWhen(body, m.body != "" || m.bodyHTML != "", AltClose);
    assert body == BodyParts(m);
    eml := eml + body;
    ghost var front := Envelope(HeaderBlock(m), m.hasAttachments) + BodyParts(m);
    assert eml == front;

    if m.hasAttachments {
      var parts := WriteAttachments(m.attachments);
      eml := eml + parts;
      eml := eml + MixedClose;
    } else {
      assert Eml(m) == front + "" + "";
    }
  }

  /** The attachment loop of `constructEml`: one base64 part per attachment
      that has an input stream, in order. */
  method WriteAttachments(attachments: seq<PstAttachment>) returns (parts: string)
    ensures parts == AttachmentParts(attachments)
  {
    parts := "";
    for i := 0 to |attachments|
      invariant parts == AttachmentParts(attachments[..i])
    {
      var attachment := attachments[i];
      assert attachments[..i + 1][..i] == attachments[..i];
      if attachment.data.Some? {
        parts := parts + (AttachmentHeader(attachment) + Base64.Encode(attachment.data.value) + "\n");
      }
    }
    assert attachments[..|attachments|] == attachments;
  }

  // ---------------------------------------------------------------------------
  // What the rebuilt message promises
  // ---------------------------------------------------------------------------

  /** The alternative boundary is closed exactly when a text or HTML part exists. */
  lemma BodyPartsPresentIff(m: PstMessage)
    ensures BodyParts(m) == "" <==> m.body == "" && m.bodyHTML == ""
    ensures m.body != "" || m.bodyHTML != "" ==>
      JsStrings.EndsWith(BodyParts(m), "--" + AltBoundary + "--\n")
  {
    var closing := "--" + AltBoundary + "--\n";
    var b := BodyParts(m);
    if m.body != "" || m.bodyHTML != "" {
      assert b[|b| - |closing|..] == closing;
    }
  }

  /** Every attachment with a stream is carried in full: its part ends with the
      base64 text that decodes back to the attachment's octets. */
  lemma AttachmentPayloadRoundTrip(a: PstAttachment)
    requires a.data.Some?
    ensures var part := AttachmentPart(a);
      var h := |AttachmentHeader(a)|;
      h < |part| && part[|part| - 1] == '\n' && Base64.Decode(part[h..|part| - 1]) == Some(a.data.value)
  {
    var part := AttachmentPart(a);
    var h := AttachmentHeader(a);
    var payload := Base64.Encode(a.data.value);
    assert part == h + payload + "\n";
    assert part[|h|..|part| - 1] == payload;
    Base64.DecodeEncode(a.data.value);
  }

  /** An attachment part is emitted exactly for the attachments that have a
      stream, in order. */
  lemma {:induction false} AttachmentPartsInOrder(atts: seq<PstAttachment>, extra: PstAttachment)
    ensures AttachmentParts(atts + [extra]) == AttachmentParts(atts) + AttachmentPart(extra)
    ensures extra.data.None? ==> AttachmentParts(atts + [extra]) == AttachmentParts(atts)
  {
    assert (atts + [extra])[..|atts + [extra]| - 1] == atts;
  }

  /** When the generated header block does not mention `Content-Type:`, the
      message starts with it and declares the multipart structure. */
  lemma HeadersKeptWithoutContentTypeText(m: PstMessage)
    requires !MentionsContentType(HeaderBlock(m))
    ensures JsStrings.StartsWith(Eml(m), HeaderBlock(m))
    ensures JsStrings.StartsWith(Eml(m), HeaderBlock(m) + (if m.hasAttachments then MixedContentType else AltContentType))
  {
    DeclaredStartsWithHeaders(HeaderBlock(m), m.hasAttachments);
    BodyKeepsPrefix(Declared(HeaderBlock(m), m.hasAttachments), m, HeaderBlock(m));
    BodyKeepsPrefix(Declared(HeaderBlock(m), m.hasAttachments), m,
                    HeaderBlock(m) + (if m.hasAttachments then MixedContentType else AltContentType));
  }

  /** Whatever starts the envelope starts the whole message. */
  lemma BodyKeepsPrefix(start: string, m: PstMessage, p: string)
    requires JsStrings.StartsWith(start, p)
    ensures JsStrings.StartsWith(start + BodyParts(m) + When(m.hasAttachments, AttachmentParts(m.attachments)) + When(m.hasAttachments, MixedClose), p)
  {
    JsStrings.StartsWithAppend(start, BodyParts(m), p);
    JsStrings.StartsWithAppend(start + BodyParts(m), When(m.hasAttachments, AttachmentParts(m.attachments)), p);
    JsStrings.StartsWithAppend(start + BodyParts(m) + When(m.hasAttachments, AttachmentParts(m.attachments)), When(m.hasAttachments, MixedClose), p);
  }

  // --- Finding: In-Reply-To and Conversation-Id run into the next header ---

  /** Where neither In-Reply-To nor Conversation-Id is present, the header block
      as written is the intended one. */
  lemma HeaderBlockAgreesWithoutThreadFields(m: PstMessage)
    requires m.inReplyToId == "" && m.conversationId == ""
    ensures HeaderBlock(m) == HeaderBlockIntended(m)
  {
    PrefixAsLines(m, 7);
    ThreadFieldsAbsent(m);
    LinesThenMimeVersion(FieldsUpTo(m, 7));
  }

  lemma ThreadFieldsAbsent(m: PstMessage)
    requires m.inReplyToId == "" && m.conversationId == ""
    ensures HeaderPrefix(m, FieldCount) == HeaderPrefix(m, 7)
    ensures HeaderFields(m) == FieldsUpTo(m, 7)
  {
    assert HeaderPrefix(m, 8) == HeaderPrefix(m, 7);
    assert FieldsUpTo(m, 8) == FieldsUpTo(m, 7);
  }

  lemma LinesThenMimeVersion(ls: seq<string>)
    ensures Lines(ls + [MimeVersion]) == Lines(ls) + MimeVersion + "\n"
  {
    LinesAppend(ls, [MimeVersion]);
    assert [MimeVersion][1..] == [];
  }

  /** Up to Message-ID every present field is written with its terminator, so
      the header pieces are the lines of the present fields. */
  lemma {:induction false} PrefixAsLines(m: PstMessage, n: nat)
    requires n <= 7
    ensures HeaderPrefix(m, n) == Lines(FieldsUpTo(m, n))
  {
    if n > 0 {
      PrefixAsLines(m, n - 1);
      var line := if FieldPresent(m, n - 1) then [FieldLine(m, n - 1)] else [];
      LinesAppend(FieldsUpTo(m, n - 1), line);
      if FieldPresent(m, n - 1) {
        assert line[1..] == [];
      }
    }
  }

  lemma {:induction false} LinesAppend(a: seq<string>, b: seq<string>)
    ensures Lines(a + b) == Lines(a) + Lines(b)
    decreases |a|
  {
    if a == [] {
      assert a + b == b;
    } else {
      assert (a + b)[0] == a[0];
      assert (a + b)[1..] == a[1..] + b;
      LinesAppend(a[1..], b);
    }
  }

  /** A message whose only header field is In-Reply-To: the field and
      `MIME-Version` end up on one line, so a parser sees neither header,
      where the intended block has them on two lines. */
  lemma InReplyToRunsIntoMimeVersion(m: PstMessage)
    requires m.senderName == "" && m.senderEmailAddress == "" && m.displayTo == "" && m.displayCC == ""
    requires m.displayBCC == "" && m.subject == "" && m.clientSubmitTime.None? && m.internetMessageId == ""
    requires m.inReplyToId != "" && '\n' !in m.inReplyToId && m.conversationId == ""
    ensures HeaderBlock(m) == "In-Reply-To: " + m.inReplyToId + MimeVersion + "\n"
    ensures JsStrings.Split(HeaderBlock(m), "\n") == ["In-Reply-To: " + m.inReplyToId + MimeVersion, ""]
    ensures JsStrings.Split(HeaderBlockIntended(m), "\n") == ["In-Reply-To: " + m.inReplyToId, MimeVersion, ""]
  {
    var field := "In-Reply-To: " + m.inReplyToId;
    OnlyInReplyTo(m);
    var line := field + MimeVersion;
    JsStrings.NotInAppend("In-Reply-To: ", m.inReplyToId, '\n');
    JsStrings.NotInAppend(field, MimeVersion, '\n');
    assert HeaderBlock(m) == line + ['\n'] + "";
    JsStrings.SplitAtChar(line, '\n', "");
    JsStrings.SplitWithoutChar("", '\n');
    HeaderBlockIntendedLines(m);
  }

  lemma OnlyInReplyTo(m: PstMessage)
    requires m.senderName == "" && m.senderEmailAddress == "" && m.displayTo == "" && m.displayCC == ""
    requires m.displayBCC == "" && m.subject == "" && m.clientSubmitTime.None? && m.internetMessageId == ""
    requires m.inReplyToId != "" && m.conversationId == ""
    ensures HeaderPrefix(m, FieldCount) == "In-Reply-To: " + m.inReplyToId
    ensures HeaderFields(m) == ["In-Reply-To: " + m.inReplyToId]
  {
    NoEarlyFields(m, 7);
    assert HeaderPrefix(m, 8) == "In-Reply-To: " + m.inReplyToId;
    assert FieldsUpTo(m, 8) == ["In-Reply-To: " + m.inReplyToId];
  }

  /** With none of the first `n` fields present, nothing is written for them. */
  lemma {:induction false} NoEarlyFields(m: PstMessage, n: nat)
    requires forall k :: 0 <= k < n ==> !FieldPresent(m, k)
    ensures HeaderPrefix(m, n) == "" && FieldsUpTo(m, n) == []
  {
    if n > 0 {
      NoEarlyFields(m, n - 1);
      assert !FieldPresent(m, n - 1);
    }
  }

  /** With a terminator after every field, a header block whose field values
      hold no line break splits into exactly the present fields, then
      `MIME-Version: 1.0`, then the empty rest. */
  lemma HeaderBlockIntendedLines(m: PstMessage)
    requires forall k :: 0 <= k < |HeaderFields(m)| ==> '\n' !in HeaderFields(m)[k]
    ensures JsStrings.Split(HeaderBlockIntended(m), "\n") == HeaderFields(m) + [MimeVersion, ""]
  {
    SplitLines(HeaderFields(m) + [MimeVersion]);
    assert HeaderFields(m) + [MimeVersion] + [""] == HeaderFields(m) + [MimeVersion, ""];
  }

  lemma {:induction false} SplitLines(ls: seq<string>)
    requires forall k :: 0 <= k < |ls| ==> '\n' !in ls[k]
    ensures JsStrings.Split(Lines(ls), "\n") == ls + [""]
    decreases |ls|
  {
    if ls == [] {
      JsStrings.SplitWithoutChar("", '\n');
    } else {
      var head, tail := ls[0], ls[1..];
      assert '\n' !in head;
      assert forall k :: 0 <= k < |tail| ==> '\n' !in tail[k] by {
        forall k | 0 <= k < |tail| ensures '\n' !in tail[k] {
          assert tail[k] == ls[k + 1];
        }
      }
      SplitLines(tail);
      var rest := Lines(tail);
      assert Lines(ls) == head + ['\n'] + rest;
      JsStrings.SplitAtChar(head, '\n', rest);
      assert ls + [""] == [head] + (tail + [""]);
    }
  }


  // --- Finding: a header value mentioning Content-Type drops every header ---

  /** A message whose only header field is a subject that mentions
      `content-type:` in any capitalisation: the rebuilt message is just the
      body parts, so Subject and MIME-Version are lost. */
  lemma ContentTypeInSubjectDropsHeaders(m: PstMessage)
    requires m.senderName == "" && m.senderEmailAddress == "" && m.displayTo == "" && m.displayCC == ""
    requires m.displayBCC == "" && m.clientSubmitTime.None? && m.internetMessageId == ""
    requires m.inReplyToId == "" && m.conversationId == "" && !m.hasAttachments
    requires JsStrings.Contains(FoldAscii(m.subject), ContentTypeNeedle)
    ensures Eml(m) == BodyParts(m)
  {
    var x := "Subject: ";
    var y := "\n" + MimeVersion + "\n";
    OnlySubject(m);
    assert HeaderBlock(m) == x + m.subject + y;
    FoldAsciiAppend(x + m.subject, y);
    FoldAsciiAppend(x, m.subject);
    JsStrings.ContainsInMiddle(FoldAscii(x), FoldAscii(m.subject), FoldAscii(y), ContentTypeNeedle);
  }

  lemma OnlySubject(m: PstMessage)
    requires m.senderName == "" && m.senderEmailAddress == "" && m.displayTo == "" && m.displayCC == ""
    requires m.displayBCC == "" && m.clientSubmitTime.None? && m.internetMessageId == ""
    requires m.inReplyToId == "" && m.conversationId == "" && m.subject != ""
    ensures HeaderBlock(m) == "Subject: " + m.subject + "\n" + MimeVersion + "\n"
  {
    NoEarlyFields(m, 4);
    assert HeaderPrefix(m, 5) == "Subject: " + m.subject + "\n";
    assert HeaderPrefix(m, 7) == HeaderPrefix(m, 5);
    assert HeaderPrefix(m, FieldCount) == HeaderPrefix(m, 7);
  }

  lemma FoldAsciiAppend(a: string, b: string)
    ensures FoldAscii(a + b) == FoldAscii(a) + FoldAscii(b)
  {
    assert forall i :: 0 <= i < |a + b| ==> (a + b)[i] == if i < |a| then a[i] else b[i - |a|];
  }

  /** The rebuilt message as intended: the terminated header block and the
      multipart declarations always come first. */
  function EmlIntended(m: PstMessage): string {
    Declared(HeaderBlockIntended(m), m.hasAttachments) + BodyParts(m)
    + When(m.hasAttachments, AttachmentParts(m.attachments))
    + When(m.hasAttachments, MixedClose)
  }

  /** The intended message always begins with every present header field,
      each on its own line, and `MIME-Version: 1.0`, whatever the field values
      say. */
  lemma EmlIntendedKeepsHeaders(m: PstMessage)
    ensures JsStrings.StartsWith(EmlIntended(m), Lines(HeaderFields(m) + [MimeVersion]))
    ensures JsStrings.StartsWith(EmlIntended(m), HeaderBlockIntended(m) + (if m.hasAttachments then MixedContentType else AltContentType))
  {
    DeclaredStartsWithHeaders(HeaderBlockIntended(m), m.hasAttachments);
    BodyKeepsPrefix(Declared(HeaderBlockIntended(m), m.hasAttachments), m, HeaderBlockIntended(m));
    BodyKeepsPrefix(Declared(HeaderBlockIntended(m), m.hasAttachments), m,
                    HeaderBlockIntended(m) + (if m.hasAttachments then MixedContentType else AltContentType));
  }
}
