/** The PST importer's connector: the mailbox an uploaded file is presented
    as, the upload check, the identity of each message and the fetch that
    walks the file and removes the upload once it has been read. */
module PstConnector {
  import opened Wrappers
  import JsStrings
  import Base64
  import Utf8
  import IngestionTypes
  import ConnectorUtils
  import Storage
  import opened PstFormat

  type Bytes = Base64.Bytes

  // ---------------------------------------------------------------------------
  // Mailbox, upload check, message identity and the fetch
  // ---------------------------------------------------------------------------

  /** The display name `listAllUsers` chooses: the root folder's name, else the
      PST file name, else the current time in milliseconds. */
  function MailboxName(rootName: string, pstFilename: string, now: nat): (r: string)
    ensures r != ""
    ensures rootName != "" ==> r == rootName
    ensures rootName == "" && pstFilename != "" ==> r == pstFilename
    ensures rootName == "" && pstFilename == "" ==> r == JsStrings.NatToString(now)
  {
    if rootName != "" then rootName else if pstFilename != "" then pstFilename else JsStrings.NatToString(now)
  }

  /** `listAllUsers`: exactly one mailbox, addressed `<name>@pst.local`,
      named after the root folder of the opened file; `root` is what
      `loadPstFile` gives, the root folder or the error it throws, and that
      error is logged and rethrown as it came. */
  function ListAllUsers(root: Result<Folder>, pstFilename: string, now: nat): (r: Result<seq<IngestionTypes.MailboxUser>>)
    ensures r.Err? <==> root.Err?
    ensures r.Err? ==> r.error == root.error
    ensures r.Ok? ==>
      |r.value| == 1 &&
      r.value[0] == ConnectorUtils.SyntheticMailbox(MailboxName(root.value.displayName, pstFilename, now), "@pst.local") &&
      r.value[0].displayName != "" && JsStrings.EndsWith(r.value[0].primaryEmail, "@pst.local")
  {
    match root
    case Err(e) => Err(e)
    case Ok(folder) => Ok([ConnectorUtils.SyntheticMailbox(MailboxName(folder.displayName, pstFilename, now), "@pst.local")])
  }

  /** `testConnection` of the PST importer. */
  function TestConnection(uploadedFilePath: string, stored: set<string>): (r: Outcome)
    ensures r.Pass? <==> uploadedFilePath != "" && JsStrings.Contains(uploadedFilePath, ".pst") && uploadedFilePath in stored
    ensures uploadedFilePath == "" ==> r == Fail("PST file path not provided.")
    ensures uploadedFilePath != "" && !JsStrings.Contains(uploadedFilePath, ".pst") ==>
      r == Fail("Provided file is not in the PST format.")
    ensures uploadedFilePath != "" && JsStrings.Contains(uploadedFilePath, ".pst") && uploadedFilePath !in stored ==>
      r == Fail("PST file upload not finished yet, please wait.")
  {
    ConnectorUtils.UploadCheck(uploadedFilePath, ".pst", stored, "PST file path not provided.",
      "Provided file is not in the PST format.", "PST file upload not finished yet, please wait.")
  }

  /** The identifier of a PST message: its Internet Message-ID, or one made of
      the hash of the rebuilt message (twice, since the rebuilt octets always
      exist) and the submit time. */
  function MessageId(m: PstMessage, emlHash: string): (r: string)
    ensures m.internetMessageId != "" ==> r == m.internetMessageId
    ensures m.internetMessageId == "" ==> JsStrings.StartsWith(r, "generated-" + emlHash + "-" + emlHash + "-")
  {
    if m.internetMessageId != "" then m.internetMessageId
    else
      var prefix := "generated-" + emlHash + "-" + emlHash + "-";
      var r := prefix + (match m.clientSubmitTime case Some(t) => JsStrings.IntToString(t.millis) case None => "undefined");
      assert r[..|prefix|] == prefix;
      r
  }

  /** `parseMessage`: the rebuilt message is parsed and becomes an
      `EmailObject` with the visit's folder path; `None` when the parser
      throws. `parse` stands for mailparser, `sha256` for the hex SHA-256
      digest, `now` for the current time. */
  function ParseMessage(v: Visit, parse: Bytes -> Option<ConnectorUtils.ParsedMail>, sha256: Bytes -> string, now: nat)
    : (r: Option<IngestionTypes.EmailObject>)
    ensures r.None? <==> parse(Utf8.Encode(Eml(v.message))).None?
    ensures r.Some? ==> r.value.path == v.path && r.value.eml == Some(Utf8.Encode(Eml(v.message)))
    ensures r.Some? ==> r.value.id == MessageId(v.message, sha256(Utf8.Encode(Eml(v.message))))
  {
    var emlBuffer := Utf8.Encode(Eml(v.message));
    match parse(emlBuffer)
    case None => None
    case Some(parsed) => Some(ConnectorUtils.ToEmailObject(parsed, MessageId(v.message, sha256(emlBuffer)), v.path, emlBuffer, now))
  }

  /** The values before the first `None`: what a stream yields when the
      first failure ends it (`processFolder` has no catch around
      `parseMessage`); the flag says whether a failure happened. */
  function UntilFailure<T>(xs: seq<Option<T>>): (r: (seq<T>, bool))
    ensures |r.0| <= |xs|
    ensures forall i :: 0 <= i < |r.0| ==> xs[i] == Some(r.0[i])
    ensures r.1 <==> |r.0| < |xs|
    ensures r.1 ==> xs[|r.0|].None?
  {
    if xs == [] then ([], false)
    else
      match xs[0]
      case None => ([], true)
      case Some(x) =>
        var rest := UntilFailure(xs[1..]);
        ([x] + rest.0, rest.1)
  }

  /** `fetchEmails`: the emails of the walk from the root folder, up to the
      first message that fails to parse, which fails the fetch with
      mailparser's error (whose message is `parseError`); a file that cannot
      be opened fails it with `loadPstFile`'s error before anything is
      yielded. Either error is logged and rethrown as it came. On every path
      the upload is deleted. */
  method FetchEmails(store: Storage.Store, uploadedFilePath: string, root: Result<Folder>,
                     parse: Bytes -> Option<ConnectorUtils.ParsedMail>, sha256: Bytes -> string, now: nat,
                     parseError: string)
    returns (yielded: seq<IngestionTypes.EmailObject>, r: Outcome)
    modifies store
    ensures store.objects == old(store.objects) - {uploadedFilePath}
    ensures root.Err? ==> yielded == [] && r == Fail(root.error)
    ensures root.Ok? ==>
      var visits := Traverse(root.value, "");
      |yielded| <= |visits| &&
      (forall i :: 0 <= i < |yielded| ==> ParseMessage(visits[i], parse, sha256, now) == Some(yielded[i])) &&
      (r.Pass? <==> |yielded| == |visits|) &&
      (r.Fail? ==> r.error == parseError && ParseMessage(visits[|yielded|], parse, sha256, now).None?)
  {
    if root.Err? {
      yielded, r := [], Fail(root.error);
    } else {
      var visits := ProcessFolder(root.value, "");
      var parsed := seq(|visits|, k requires 0 <= k < |visits| => ParseMessage(visits[k], parse, sha256, now));
      var walk := UntilFailure(parsed);
      yielded := walk.0;
      r := if walk.1 then Fail(parseError) else Pass;
    }
    store.Delete(uploadedFilePath);
  }
}
