/** The EML importer's connector: an uploaded zip archive of `.eml` files is
    unpacked into a temporary directory, every `.eml` file in it becomes one
    message whose folder path is the file's directory inside the archive, and
    the temporary directory and the upload are removed afterwards. */
module EmlConnector {
  import opened Wrappers
  import JsStrings
  import Base64
  import IngestionTypes
  import ConnectorUtils
  import Storage

  type Bytes = Base64.Bytes

  // ---------------------------------------------------------------------------
  // Upload check and mailbox
  // ---------------------------------------------------------------------------

  /** `testConnection` of the EML importer. */
  function TestConnection(uploadedFilePath: string, stored: set<string>): (r: Outcome)
    ensures r.Pass? <==> uploadedFilePath != "" && JsStrings.Contains(uploadedFilePath, ".zip") && uploadedFilePath in stored
    ensures uploadedFilePath == "" ==> r == Fail("EML file path not provided.")
    ensures uploadedFilePath != "" && !JsStrings.Contains(uploadedFilePath, ".zip") ==>
      r == Fail("Provided file is not in the ZIP format.")
    ensures uploadedFilePath != "" && JsStrings.Contains(uploadedFilePath, ".zip") && uploadedFilePath !in stored ==>
      r == Fail("EML file upload not finished yet, please wait.")
  {
    ConnectorUtils.UploadCheck(uploadedFilePath, ".zip", stored, "EML file path not provided.",
      "Provided file is not in the ZIP format.", "EML file upload not finished yet, please wait.")
  }

  /** `listAllUsers`: one mailbox named after the uploaded file, or
      `eml-import-<now>`, addressed `<name>@eml.local`. */
  function ListAllUsers(uploadedFileName: string, now: nat): (r: seq<IngestionTypes.MailboxUser>)
    ensures |r| == 1
    ensures r[0].displayName == (if uploadedFileName != "" then uploadedFileName else "eml-import-" + JsStrings.NatToString(now))
    ensures r[0].id == r[0].primaryEmail == ConnectorUtils.SyntheticAddress(r[0].displayName, "@eml.local")
    ensures JsStrings.EndsWith(r[0].primaryEmail, "@eml.local")
  {
    [ConnectorUtils.SyntheticMailbox(ConnectorUtils.UploadDisplayName(uploadedFileName, "eml-import-", now), "@eml.local")]
  }

  // ---------------------------------------------------------------------------
  // Unpacking the archive
  // ---------------------------------------------------------------------------

  /** One entry of the zip archive, in archive order. `readable` is false
      when yauzl cannot open a read stream on its data (a corrupt or
      unsupported compressed entry). */
  datatype ZipEntry = ZipEntry(fileName: string, content: Bytes, readable: bool)

  /** The folder macOS adds to archives for its own metadata. */
  const MacMetadataPrefix := "__MACOSX/"

  predicate Ignored(name: string) {
    JsStrings.StartsWith(name, MacMetadataPrefix)
  }

  /** `/\/$/`: the entry names a directory. */
  predicate IsDirectory(name: string) {
    name != "" && name[|name| - 1] == '/'
  }

  /** The entries that leave a file behind: neither metadata nor directories. */
  predicate Extractable(e: ZipEntry) {
    !Ignored(e.fileName) && !IsDirectory(e.fileName)
  }

  /** The files unpacking leaves in the temporary directory, by name; an entry
      overwrites an earlier one of the same name. */
  function ExtractedFiles(entries: seq<ZipEntry>): map<string, Bytes> {
    if entries == [] then map[]
    else
      var last := entries[|entries| - 1];
      var files := ExtractedFiles(entries[..|entries| - 1]);
      if Extractable(last) then files[last.fileName := last.content] else files
  }

  /** The extracted file names in the order their first entry came. */
  function ExtractedNames(entries: seq<ZipEntry>): seq<string> {
    if entries == [] then []
    else
      var last := entries[|entries| - 1];
      var prefix := entries[..|entries| - 1];
      if Extractable(last) && last.fileName !in ExtractedFiles(prefix) then ExtractedNames(prefix) + [last.fileName]
      else ExtractedNames(prefix)
  }

  /** The directories `fs.mkdir(path, { recursive: true })` makes for a
      directory entry: the entry itself and every directory above it. */
  function DirsOf(name: string): set<string> {
    set k | 0 < k < |name| && name[k] == '/' :: name[..k]
  }

  /** The directories the entries have made inside the temporary directory. */
  function CreatedDirs(entries: seq<ZipEntry>): set<string> {
    if entries == [] then {}
    else
      var last := entries[|entries| - 1];
      CreatedDirs(entries[..|entries| - 1]) +
        (if !Ignored(last.fileName) && IsDirectory(last.fileName) then DirsOf(last.fileName) else {})
  }

  /** `createWriteStream` can open the file: it sits at the top of the
      archive, or its directory has been made. */
  predicate Writable(name: string, dirs: set<string>) {
    match LastSlash(name)
    case None => true
    case Some(i) => i == 0 || name[..i] in dirs
  }

  /** How unpacking ends. `Rejected`: a file entry comes before any
      directory entry that makes its directory, the write stream's `error`
      rejects the extraction and no further entry is read. `Crashed`: yauzl
      cannot open a file entry's data; the callback calls `reject` and then
      goes on to call `pipe` on the missing stream, and the `TypeError`
      escapes the callback, which nothing catches, so the process ends. */
  datatype Unpacking = Unpacked | Rejected | Crashed

  /** The outcome of unpacking `entries` in order: the first file entry
      that cannot be read or written decides it. */
  function ExtractStatus(entries: seq<ZipEntry>): Unpacking {
    if entries == [] then Unpacked
    else
      var last := entries[|entries| - 1];
      var prefix := entries[..|entries| - 1];
      var before := ExtractStatus(prefix);
      if before != Unpacked || !Extractable(last) then before
      else if !last.readable then Crashed
      else if !Writable(last.fileName, CreatedDirs(prefix)) then Rejected
      else Unpacked
  }

  /** The number of entries unpacked before the one that decided a failure;
      all of them when unpacking succeeds. */
  function UnpackedPrefix(entries: seq<ZipEntry>): (n: nat)
    ensures n <= |entries| && ExtractStatus(entries[..n]) == Unpacked
  {
    if entries == [] then 0
    else if ExtractStatus(entries) == Unpacked then
      assert entries[..|entries|] == entries;
      |entries|
    else
      var prefix := entries[..|entries| - 1];
      var n := UnpackedPrefix(prefix);
      assert prefix[..n] == entries[..n];
      n
  }

  /** Once unpacking has failed, more entries do not change how it ends. */
  lemma {:induction false} ExtractStatusSticks(entries: seq<ZipEntry>, n: nat)
    requires n <= |entries| && ExtractStatus(entries[..n]) != Unpacked
    ensures ExtractStatus(entries) == ExtractStatus(entries[..n])
    decreases |entries| - n
  {
    if n < |entries| {
      assert entries[..n + 1][..n] == entries[..n];
      ExtractStatusSticks(entries, n + 1);
    } else {
      assert entries[..n] == entries;
    }
  }

  /** When entry `i` decides a failure, exactly the entries before it were
      unpacked. */
  lemma {:induction false} UnpackedPrefixAt(entries: seq<ZipEntry>, i: nat)
    requires i < |entries| && ExtractStatus(entries[..i]) == Unpacked
    requires ExtractStatus(entries[..i + 1]) != Unpacked
    ensures ExtractStatus(entries) == ExtractStatus(entries[..i + 1])
    ensures UnpackedPrefix(entries) == i
    decreases |entries|
  {
    ExtractStatusSticks(entries, i + 1);
    var prefix := entries[..|entries| - 1];
    if i + 1 == |entries| {
      assert entries[..i + 1] == entries && prefix == entries[..i];
      if i > 0 {
        assert prefix[..|prefix|] == prefix;
      }
    } else {
      assert prefix[..i] == entries[..i] && prefix[..i + 1] == entries[..i + 1];
      UnpackedPrefixAt(prefix, i);
    }
  }

  /** An archive holding only `a/b.eml` cannot be unpacked; with the entry
      `a/` before it, it can. */
  lemma NestedFileNeedsDirectoryEntry(content: Bytes)
    ensures ExtractStatus([ZipEntry("a/b.eml", content, true)]) == Rejected
    ensures ExtractStatus([ZipEntry("a/", [], true), ZipEntry("a/b.eml", content, true)]) == Unpacked
  {
    var file := ZipEntry("a/b.eml", content, true);
    assert LastSlash(file.fileName) == Some(1);
    assert !JsStrings.StartsWith(file.fileName, MacMetadataPrefix) by {
      assert file.fileName[0] != MacMetadataPrefix[0];
    }
    assert [file][..0] == [];
    var dirEntry := ZipEntry("a/", [], true);
    assert !JsStrings.StartsWith(dirEntry.fileName, MacMetadataPrefix) by {
      assert dirEntry.fileName[0] != MacMetadataPrefix[0];
    }
    var both := [dirEntry, file];
    assert both[..1] == [dirEntry] && both[..1][..0] == [];
    assert dirEntry.fileName[1] == '/' && dirEntry.fileName[..1] == "a";
    assert "a" in DirsOf(dirEntry.fileName);
    assert CreatedDirs(both[..1]) == DirsOf(dirEntry.fileName);
    assert ExtractStatus(both[..1]) == Unpacked;
    assert file.fileName[..1] == "a";
    assert Writable(file.fileName, CreatedDirs(both[..1]));
  }

  /** An unreadable file entry ends the process even where the same entry,
      readable, could not be written: reading comes first. */
  lemma UnreadableEntryCrashes(name: string, content: Bytes)
    requires !Ignored(name) && !IsDirectory(name)
    ensures ExtractStatus([ZipEntry(name, content, false)]) == Crashed
  {
    assert [ZipEntry(name, content, false)][..0] == [];
  }

  /** `extract`: walks the entries in order, skipping macOS metadata, making
      directories for names ending in `/` and writing every other entry's
      content to `dir`, until a file cannot be read or written. Returns how
      it ended and the written names in first-write order; `dir` holds the
      files of the entries before the one that ended it. */
  method Extract(dir: Storage.Store, entries: seq<ZipEntry>) returns (names: seq<string>, status: Unpacking)
    requires dir.objects == map[]
    modifies dir
    ensures status == ExtractStatus(entries)
    ensures dir.objects == ExtractedFiles(entries[..UnpackedPrefix(entries)])
    ensures names == ExtractedNames(entries[..UnpackedPrefix(entries)])
  {
    names := [];
    var dirs: set<string> := {};
    for i := 0 to |entries|
      invariant ExtractStatus(entries[..i]) == Unpacked && dirs == CreatedDirs(entries[..i])
      invariant dir.objects == ExtractedFiles(entries[..i])
      invariant names == ExtractedNames(entries[..i])
    {
      assert entries[..i + 1][..i] == entries[..i];
      var name := entries[i].fileName;
      if Ignored(name) {
        continue;
      }
      if IsDirectory(name) {
        dirs := dirs + DirsOf(name);
      } else {
        if !entries[i].readable {
          UnpackedPrefixAt(entries, i);
          return names, Crashed;
        }
        if !Writable(name, dirs) {
          UnpackedPrefixAt(entries, i);
          return names, Rejected;
        }
        if name !in dir.objects {
          names := names + [name];
        }
        dir.Put(name, entries[i].content);
      }
    }
    assert entries[..|entries|] == entries;
    status := Unpacked;
  }

  /** The listed names are exactly the extracted files, each listed once. */
  lemma {:induction false} ExtractedNamesMatchFiles(entries: seq<ZipEntry>)
    ensures forall n :: n in ExtractedNames(entries) <==> n in ExtractedFiles(entries)
    ensures forall i, j :: 0 <= i < j < |ExtractedNames(entries)| ==> ExtractedNames(entries)[i] != ExtractedNames(entries)[j]
  {
    if entries != [] {
      ExtractedNamesMatchFiles(entries[..|entries| - 1]);
    }
  }

  /** A file is extracted iff some entry of that name is neither macOS
      metadata nor a directory. */
  lemma {:induction false} ExtractedFilesIff(entries: seq<ZipEntry>, name: string)
    ensures name in ExtractedFiles(entries) <==>
      exists i :: 0 <= i < |entries| && entries[i].fileName == name && Extractable(entries[i])
  {
    if entries != [] {
      var prefix := entries[..|entries| - 1];
      ExtractedFilesIff(prefix, name);
      if name in ExtractedFiles(prefix) {
        var i :| 0 <= i < |prefix| && prefix[i].fileName == name && Extractable(prefix[i]);
        assert entries[i] == prefix[i];
      }
      if exists i :: 0 <= i < |entries| && entries[i].fileName == name && Extractable(entries[i]) {
        var i :| 0 <= i < |entries| && entries[i].fileName == name && Extractable(entries[i]);
        if i < |prefix| {
          assert prefix[i] == entries[i];
        }
      }
    }
  }

  /** The extracted content of a name is that of its last entry. */
  lemma {:induction false} ExtractedContentIsLast(entries: seq<ZipEntry>, i: nat)
    requires i < |entries| && Extractable(entries[i])
    requires forall j :: i < j < |entries| ==> entries[j].fileName != entries[i].fileName
    ensures entries[i].fileName in ExtractedFiles(entries)
    ensures ExtractedFiles(entries)[entries[i].fileName] == entries[i].content
  {
    if i < |entries| - 1 {
      var prefix := entries[..|entries| - 1];
      assert prefix[i] == entries[i];
      ExtractedContentIsLast(prefix, i);
    }
  }

  // ---------------------------------------------------------------------------
  // Folder paths
  // ---------------------------------------------------------------------------

  /** The position of the last `/` of a string. */
  function LastSlash(s: string): (r: Option<nat>)
    ensures r.None? <==> '/' !in s
    ensures r.Some? ==> r.value < |s| && s[r.value] == '/' && '/' !in s[r.value + 1..]
  {
    if s == [] then None
    else if s[|s| - 1] == '/' then Some(|s| - 1)
    else
      var r := LastSlash(s[..|s| - 1]);
      assert s == s[..|s| - 1] + [s[|s| - 1]];
      if r.Some? then
        assert s[r.value + 1..] == s[..|s| - 1][r.value + 1..] + [s[|s| - 1]];
        r
      else r
  }

  /** `path.dirname` of a relative file name: everything before the last
      `/`, `/` for a name directly under the root, and `.` without a `/`. */
  function Dirname(name: string): string {
    match LastSlash(name)
    case None => "."
    case Some(i) => if i == 0 then "/" else name[..i]
  }

  /** The folder path of an extracted file: its directory inside the archive,
      or `""` for a file at the top of the archive. */
  function RelativeDir(name: string): string {
    if Dirname(name) == "." then "" else Dirname(name)
  }

  /** The file's own name, after its last `/`. */
  function Basename(name: string): string {
    match LastSlash(name)
    case None => name
    case Some(i) => name[i + 1..]
  }

  /** A file at the top of the archive has folder path `""`; any other file
      is its folder path, a `/` and a name without `/` (for names that do not
      start at the root or at `./`, the forms `path.join` normalises away). */
  lemma RelativeDirSplitsName(name: string)
    requires name != "" && name[0] != '/' && !JsStrings.StartsWith(name, "./")
    ensures RelativeDir(name) == "" <==> '/' !in name
    ensures '/' !in Basename(name)
    ensures '/' in name ==> name == RelativeDir(name) + "/" + Basename(name)
  {
    match LastSlash(name)
    case None =>
    case Some(i) =>
      assert i != 0;
      assert i == 1 ==> name[..2] == [name[0], '/'];
      assert name == name[..i] + "/" + name[i + 1..];
  }

  // ---------------------------------------------------------------------------
  // From files to messages
  // ---------------------------------------------------------------------------

  /** `parseMessage`: the message's Message-ID or `generated-<sha256>`, the
      `No Sender` fallback and the folder path given. */
  function ParseMessage(p: ConnectorUtils.ParsedMail, emlBuffer: Bytes, path: string,
                        sha256: Bytes -> string, now: nat): (r: IngestionTypes.EmailObject)
    ensures r.id == ConnectorUtils.FileMessageId(p.messageId, sha256(emlBuffer))
    ensures r.path == path && r.eml == Some(emlBuffer)
    ensures r.from == ConnectorUtils.Senders(p.from) && |r.from| >= 1
  {
    ConnectorUtils.ToEmailObject(p, ConnectorUtils.FileMessageId(p.messageId, sha256(emlBuffer)), path, emlBuffer, now)
  }

  /** What one listed file contributes: nothing unless its name ends in
      `.eml` and it parses, else its message. */
  function FileEmails(name: string, content: Bytes, parse: Bytes -> Option<ConnectorUtils.ParsedMail>,
                      sha256: Bytes -> string, now: nat): seq<IngestionTypes.EmailObject> {
    if !JsStrings.EndsWith(name, ".eml") then []
    else
      match parse(content)
      case None => []
      case Some(p) => [ParseMessage(p, content, RelativeDir(name), sha256, now)]
  }

  predicate Listed(names: seq<string>, files: map<string, Bytes>) {
    forall k :: 0 <= k < |names| ==> names[k] in files
  }

  /** The messages of the listed files, in listing order. */
  function Emails(names: seq<string>, files: map<string, Bytes>, parse: Bytes -> Option<ConnectorUtils.ParsedMail>,
                  sha256: Bytes -> string, now: nat): seq<IngestionTypes.EmailObject>
    requires Listed(names, files)
  {
    if names == [] then []
    else
      var last := names[|names| - 1];
      Emails(names[..|names| - 1], files, parse, sha256, now) + FileEmails(last, files[last], parse, sha256, now)
  }

  /** A file that fails to parse removes only its own message: the messages
      of two listings in a row are those of each, one after the other. */
  lemma {:induction false} EmailsAppend(a: seq<string>, b: seq<string>, files: map<string, Bytes>,
                                        parse: Bytes -> Option<ConnectorUtils.ParsedMail>, sha256: Bytes -> string, now: nat)
    requires Listed(a, files) && Listed(b, files)
    ensures Listed(a + b, files)
    ensures Emails(a + b, files, parse, sha256, now) == Emails(a, files, parse, sha256, now) + Emails(b, files, parse, sha256, now)
    decreases |b|
  {
    assert Listed(a + b, files) by {
      forall k | 0 <= k < |a + b| ensures (a + b)[k] in files {
        if k >= |a| { assert (a + b)[k] == b[k - |a|]; }
      }
    }
    if b == [] {
      assert a + b == a;
    } else {
      var b' := b[..|b| - 1];
      assert (a + b)[..|a + b| - 1] == a + b';
      EmailsAppend(a, b', files, parse, sha256, now);
    }
  }

  /** Every message comes from a listed `.eml` file that parses, with that
      file's directory as its folder path and its bytes as the raw message. */
  lemma {:induction false} EmailsFromEmlFiles(names: seq<string>, files: map<string, Bytes>,
                                             parse: Bytes -> Option<ConnectorUtils.ParsedMail>, sha256: Bytes -> string, now: nat, k: nat)
    requires Listed(names, files)
    requires k < |Emails(names, files, parse, sha256, now)|
    ensures exists i :: (0 <= i < |names| && JsStrings.EndsWith(names[i], ".eml") && parse(files[names[i]]).Some? &&
      Emails(names, files, parse, sha256, now)[k] ==
        ParseMessage(parse(files[names[i]]).value, files[names[i]], RelativeDir(names[i]), sha256, now))
  {
    var n := |names|;
    var prefix := names[..n - 1];
    var last := names[n - 1];
    var all := Emails(names, files, parse, sha256, now);
    var front := Emails(prefix, files, parse, sha256, now);
    var tail := FileEmails(last, files[last], parse, sha256, now);
    assert all == front + tail;
    if k < |front| {
      EmailsFromEmlFiles(prefix, files, parse, sha256, now, k);
      var i :| 0 <= i < |prefix| && JsStrings.EndsWith(prefix[i], ".eml") && parse(files[prefix[i]]).Some? &&
        front[k] == ParseMessage(parse(files[prefix[i]]).value, files[prefix[i]], RelativeDir(prefix[i]), sha256, now);
      assert names[i] == prefix[i];
      assert all[k] == front[k];
    } else {
      assert tail != [];
      assert JsStrings.EndsWith(last, ".eml") && parse(files[last]).Some?;
      assert all[k] == tail[0];
    }
  }

  /** Conversely, every listed `.eml` file that parses yields its message. */
  lemma {:induction false} EmlFilesYieldEmails(names: seq<string>, files: map<string, Bytes>,
                                              parse: Bytes -> Option<ConnectorUtils.ParsedMail>, sha256: Bytes -> string, now: nat, i: nat)
    requires Listed(names, files)
    requires i < |names| && JsStrings.EndsWith(names[i], ".eml") && parse(files[names[i]]).Some?
    ensures ParseMessage(parse(files[names[i]]).value, files[names[i]], RelativeDir(names[i]), sha256, now)
      in Emails(names, files, parse, sha256, now)
  {
    var prefix := names[..|names| - 1];
    if i < |names| - 1 {
      assert prefix[i] == names[i];
      EmlFilesYieldEmails(prefix, files, parse, sha256, now, i);
    }
  }

  // ---------------------------------------------------------------------------
  // The fetch
  // ---------------------------------------------------------------------------

  /** How `fetchEmails` ends: it settles with its messages or an error, or
      a `TypeError` thrown inside a yauzl callback ends the process first,
      and its `finally` never runs. */
  datatype Fetch = Settled(result: Result<seq<IngestionTypes.EmailObject>>) | UncaughtTypeError

  /** `fetchEmails`: the upload is read and unpacked into `dir` (`unzip`
      stands for yauzl and yields `None` for an archive it cannot open), the
      extracted `.eml` files are parsed in listing order (`parse` stands for
      mailparser and yields `None` where it throws). A failure is logged and
      the error rethrown as it came: `readError` is the message of the error
      `storage.get` throws for a missing upload, `writeError` that of the
      error `createWriteStream` reports for an entry it cannot create. When yauzl reports an
      error through a callback that goes on to use the missing value, the
      process ends and the upload and unpacked files stay; otherwise the
      temporary directory and the upload are removed on every path past the
      read, and an archive that cannot be unpacked fails the fetch before
      any message. */
  method FetchEmails(store: Storage.Store, dir: Storage.Store, uploadedFilePath: string,
                     unzip: Bytes -> Option<seq<ZipEntry>>, parse: Bytes -> Option<ConnectorUtils.ParsedMail>,
                     sha256: Bytes -> string, now: nat, readError: string, writeError: string)
    returns (r: Fetch)
    requires store != dir
    requires dir.objects == map[]
    modifies store, dir
    ensures uploadedFilePath !in old(store.objects) ==>
      r == Settled(Err(readError)) &&
      store.objects == old(store.objects) && dir.objects == map[]
    ensures uploadedFilePath in old(store.objects) && unzip(old(store.objects)[uploadedFilePath]).None? ==>
      r == UncaughtTypeError && store.objects == old(store.objects) && dir.objects == map[]
    ensures uploadedFilePath in old(store.objects) && unzip(old(store.objects)[uploadedFilePath]).Some? ==>
      var entries := unzip(old(store.objects)[uploadedFilePath]).value;
      (ExtractStatus(entries) == Crashed ==>
        r == UncaughtTypeError && store.objects == old(store.objects) &&
        dir.objects == ExtractedFiles(entries[..UnpackedPrefix(entries)])) &&
      (ExtractStatus(entries) == Rejected ==>
        r == Settled(Err(writeError)) &&
        store.objects == old(store.objects) - {uploadedFilePath} && dir.objects == map[]) &&
      (ExtractStatus(entries) == Unpacked ==>
        Listed(ExtractedNames(entries), ExtractedFiles(entries)) &&
        r == Settled(Ok(Emails(ExtractedNames(entries), ExtractedFiles(entries), parse, sha256, now))) &&
        store.objects == old(store.objects) - {uploadedFilePath} && dir.objects == map[])
  {
    if uploadedFilePath !in store.objects {
      // `storage.get` throws before the temporary directory exists
      return Settled(Err(readError));
    }
    var entries := unzip(store.objects[uploadedFilePath]);
    if entries.None? {
      // `reject(err)`, then `zipfile.on` on an undefined `zipfile`
      return UncaughtTypeError;
    }
    var names, status := Extract(dir, entries.value);
    if status == Crashed {
      return UncaughtTypeError;
    }
    if status == Unpacked {
      assert entries.value[..UnpackedPrefix(entries.value)] == entries.value;
      ExtractedNamesMatchFiles(entries.value);
      var emails := ParseExtracted(dir, names, parse, sha256, now);
      r := Settled(Ok(emails));
    } else {
      r := Settled(Err(writeError));
    }
    dir.Clear();
    store.Delete(uploadedFilePath);
  }

  /** The loop over the extracted names: each `.eml` file is read from `dir`
      and parsed, in listing order; a file that fails to parse is skipped. */
  method ParseExtracted(dir: Storage.Store, names: seq<string>, parse: Bytes -> Option<ConnectorUtils.ParsedMail>,
                        sha256: Bytes -> string, now: nat)
    returns (emails: seq<IngestionTypes.EmailObject>)
    requires Listed(names, dir.objects)
    ensures emails == Emails(names, dir.objects, parse, sha256, now)
  {
    emails := [];
    for i := 0 to |names|
      invariant Listed(names[..i], dir.objects)
      invariant emails == Emails(names[..i], dir.objects, parse, sha256, now)
    {
      EmailsStep(names, i, dir.objects, parse, sha256, now);
      var name := names[i];
      if JsStrings.EndsWith(name, ".eml") {
        var content := dir.objects[name];
        var parsed := parse(content);
        if parsed.Some? {
          emails := emails + [ParseMessage(parsed.value, content, RelativeDir(name), sha256, now)];
        }
      }
    }
    assert names[..|names|] == names;
  }

  /** What the name at `i` adds to the messages of the names before it. */
  lemma EmailsStep(names: seq<string>, i: nat, files: map<string, Bytes>,
                   parse: Bytes -> Option<ConnectorUtils.ParsedMail>, sha256: Bytes -> string, now: nat)
    requires Listed(names, files) && i < |names|
    ensures Listed(names[..i], files) && Listed(names[..i + 1], files)
    ensures Emails(names[..i + 1], files, parse, sha256, now) ==
      Emails(names[..i], files, parse, sha256, now) + FileEmails(names[i], files[names[i]], parse, sha256, now)
  {
    assert names[..i + 1][..i] == names[..i];
  }
}
