/** The ingestion service: the life cycle of an ingestion source (create,
    update, delete, initial import, forced sync, bulk import) and the archiving
    of one email (`processEmail`). */
module IngestionService {
  import opened Wrappers
  import Json
  import JsStrings
  import Base64
  import Utf8
  import opened IngestionTypes
  import opened ArchiveStore
  import Storage
  import EmailProviderFactory
  import PstConnector
  import EmlConnector
  import MboxConnector

  type Bytes = Base64.Bytes

  /** `returnFileBasedIngestions`: the providers whose uploaded file is
      removed with the source. */
  function ReturnFileBasedIngestions(): (r: seq<Provider>)
    ensures forall p :: p in r <==> p == PstImport || p == EmlImport
    ensures MboxImport !in r
  {
    [PstImport, EmlImport]
  }

  // ---------------------------------------------------------------------------
  // Identity and storage paths of an archived email
  // ---------------------------------------------------------------------------

  /** The raw message that is stored and hashed: the connector's `eml`, or
      the UTF-8 text body when there is none. */
  function EmlBuffer(email: EmailObject): Bytes {
    email.eml.GetOr(Utf8.Encode(email.body))
  }

  /** The value of the `message-id` header: its first element when it is an
      array, the string itself when it is one, `""` otherwise. */
  function HeaderMessageId(headers: map<string, Json.Value>): (r: string)
    ensures r != "" ==> "message-id" in headers
  {
    if "message-id" !in headers then ""
    else
      match headers["message-id"]
      case Arr(items) => if items != [] && items[0].Str? then items[0].s else ""
      case Str(s) => s
      case _ => ""
  }

  /** The message identity `processEmail` deduplicates on: the header value,
      or, when it is missing or empty, one derived from the content hash, the
      source and the connector's email id. */
  function MessageIdOf(email: EmailObject, sourceId: string, sha256: Bytes -> string): (r: string)
    ensures r != ""
    ensures HeaderMessageId(email.headers) != "" ==> r == HeaderMessageId(email.headers)
    ensures HeaderMessageId(email.headers) == "" ==>
      r == "generated-" + sha256(EmlBuffer(email)) + "-" + sourceId + "-" + email.id &&
      JsStrings.StartsWith(r, "generated-")
  {
    var header := HeaderMessageId(email.headers);
    if header != "" then header
    else
      var generated := "generated-" + sha256(EmlBuffer(email)) + "-" + sourceId + "-" + email.id;
      assert generated == "generated-" + (sha256(EmlBuffer(email)) + "-" + sourceId + "-" + email.id);
      JsStrings.StartsWithAppend("generated-", sha256(EmlBuffer(email)) + "-" + sourceId + "-" + email.id, "generated-");
      generated
  }

  /** The storage folder of a source: `<root>/<name with spaces as dashes>-<id>/`. */
  function SourceFolder(root: string, name: string, sourceId: string): string {
    root + "/" + JsStrings.ReplaceChar(name, ' ', '-') + "-" + sourceId + "/"
  }

  /** Where an email is stored: its folder path and id are written one after
      the other, with no separator. */
  function EmailPath(root: string, name: string, sourceId: string, path: string, emailId: string): string {
    SourceFolder(root, name, sourceId) + "emails/" + path + emailId + ".eml"
  }

  /** Where an attachment is stored: by file name only. */
  function AttachmentPath(root: string, name: string, sourceId: string, filename: string): string {
    SourceFolder(root, name, sourceId) + "attachments/" + filename
  }

  /** Two different emails of one source, in folders `Inbox` and `Inbox1`,
      are written to the same storage object. */
  lemma EmailPathsCollide(root: string, name: string, sourceId: string)
    ensures EmailPath(root, name, sourceId, "Inbox", "12") == EmailPath(root, name, sourceId, "Inbox1", "2")
  {
    assert "Inbox" + "12" == "Inbox1" + "2";
    var folder := SourceFolder(root, name, sourceId) + "emails/";
    assert EmailPath(root, name, sourceId, "Inbox", "12") == folder + ("Inbox" + "12") + ".eml";
    assert EmailPath(root, name, sourceId, "Inbox1", "2") == folder + ("Inbox1" + "2") + ".eml";
  }

  /** The path with a `/` between the folder path and the email id. */
  function IntendedEmailPath(root: string, name: string, sourceId: string, path: string, emailId: string): string {
    SourceFolder(root, name, sourceId) + "emails/" + (if path == "" then "" else path + "/") + emailId + ".eml"
  }

  /** Within `p + "/" + i`, with no `/` in `i`, the last `/` sits at `|p|`. */
  lemma SlashSplitsUniquely(p1: string, i1: string, p2: string, i2: string)
    requires '/' !in i1 && '/' !in i2
    requires p1 + "/" + i1 == p2 + "/" + i2
    ensures p1 == p2 && i1 == i2
  {
    var s1, s2 := p1 + "/" + i1, p2 + "/" + i2;
    forall k | |p1| < k < |s1| ensures s1[k] != '/' {
      assert s1[k] == i1[k - |p1| - 1] && i1[k - |p1| - 1] in i1;
    }
    forall k | |p2| < k < |s2| ensures s2[k] != '/' {
      assert s2[k] == i2[k - |p2| - 1] && i2[k - |p2| - 1] in i2;
    }
    assert s1[|p1|] == '/' && s2[|p2|] == '/';
    assert |p1| == |p2|;
    assert p1 == s1[..|p1|] && p2 == s2[..|p2|];
    assert i1 == s1[|p1| + 1..] && i2 == s2[|p2| + 1..];
  }

  /** The part of an intended path between the folder and `.eml`. */
  function EmailKey(path: string, emailId: string): string {
    (if path == "" then "" else path + "/") + emailId
  }

  /** A key holds a `/` exactly when it has a folder path. */
  lemma EmailKeySlash(path: string, emailId: string)
    requires '/' !in emailId
    ensures '/' in EmailKey(path, emailId) <==> path != ""
  {
    if path != "" {
      assert EmailKey(path, emailId)[|path|] == '/';
    } else {
      assert EmailKey(path, emailId) == emailId;
    }
  }

  lemma EmailKeyInjective(p1: string, i1: string, p2: string, i2: string)
    requires '/' !in i1 && '/' !in i2
    requires EmailKey(p1, i1) == EmailKey(p2, i2)
    ensures p1 == p2 && i1 == i2
  {
    EmailKeySlash(p1, i1);
    EmailKeySlash(p2, i2);
    assert (p1 == "") == (p2 == "");
    if p1 != "" {
      assert EmailKey(p1, i1) == p1 + "/" + i1 && EmailKey(p2, i2) == p2 + "/" + i2;
      SlashSplitsUniquely(p1, i1, p2, i2);
    } else {
      assert EmailKey(p1, i1) == i1 && EmailKey(p2, i2) == i2;
    }
  }

  /** With the separator, distinct (folder path, email id) pairs of one source
      never share a storage object, provided ids contain no `/`. */
  lemma IntendedEmailPathInjective(root: string, name: string, sourceId: string,
                                   p1: string, i1: string, p2: string, i2: string)
    requires '/' !in i1 && '/' !in i2
    requires IntendedEmailPath(root, name, sourceId, p1, i1) == IntendedEmailPath(root, name, sourceId, p2, i2)
    ensures p1 == p2 && i1 == i2
  {
    var folder := SourceFolder(root, name, sourceId) + "emails/";
    var s1, s2 := IntendedEmailPath(root, name, sourceId, p1, i1), IntendedEmailPath(root, name, sourceId, p2, i2);
    assert s1 == folder + EmailKey(p1, i1) + ".eml";
    assert s2 == folder + EmailKey(p2, i2) + ".eml";
    assert EmailKey(p1, i1) == s1[|folder|..|s1| - 4];
    assert EmailKey(p2, i2) == s2[|folder|..|s2| - 4];
    EmailKeyInjective(p1, i1, p2, i2);
  }

  /** An attachment stored by its content hash and file name. */
  function IntendedAttachmentPath(root: string, name: string, sourceId: string, hash: string, filename: string): string {
    SourceFolder(root, name, sourceId) + "attachments/" + hash + "/" + filename
  }

  /** Attachments with different hashes of the same length (SHA-256 digests
      are 64 hex digits) never share a storage object. */
  lemma IntendedAttachmentPathsDistinct(root: string, name: string, sourceId: string,
                                        h1: string, f1: string, h2: string, f2: string)
    requires |h1| == |h2| && h1 != h2
    ensures IntendedAttachmentPath(root, name, sourceId, h1, f1) != IntendedAttachmentPath(root, name, sourceId, h2, f2)
  {
    var folder := SourceFolder(root, name, sourceId) + "attachments/";
    var s1, s2 := IntendedAttachmentPath(root, name, sourceId, h1, f1), IntendedAttachmentPath(root, name, sourceId, h2, f2);
    assert s1 == folder + h1 + ("/" + f1);
    assert s2 == folder + h2 + ("/" + f2);
    assert s1[|folder|..|folder| + |h1|] == h1;
    assert s2[|folder|..|folder| + |h2|] == h2;
  }

  // ---------------------------------------------------------------------------
  // Attachment rows and links written by processEmail
  // ---------------------------------------------------------------------------

  /** The attachment row `processEmail` inserts for one attachment. */
  function AttachmentRowFor(folder: string, a: EmailAttachment, sha256: Bytes -> string): AttachmentRow {
    AttachmentRow(a.filename, a.contentType, a.size, sha256(a.content), folder + "attachments/" + a.filename)
  }

  /** The `attachments` table after upserting the rows in order. */
  function UpsertAll(table: map<string, AttachmentRow>, rows: seq<AttachmentRow>): map<string, AttachmentRow>
  {
    if rows == [] then table else UpsertOne(UpsertAll(table, rows[..|rows| - 1]), rows[|rows| - 1])
  }

  /** One more row upserts onto what the earlier rows left. */
  lemma UpsertAllStep(table: map<string, AttachmentRow>, rows: seq<AttachmentRow>, i: nat)
    requires i < |rows|
    ensures UpsertAll(table, rows[..i + 1]) == UpsertOne(UpsertAll(table, rows[..i]), rows[i])
  {
    assert rows[..i + 1][..i] == rows[..i];
  }

  /** Upserting adds exactly the new hashes: never a second row for a hash. */
  lemma {:induction false} UpsertAllKeys(table: map<string, AttachmentRow>, rows: seq<AttachmentRow>)
    ensures UpsertAll(table, rows).Keys == table.Keys + set r | r in rows :: r.contentHashSha256
  {
    if rows != [] {
      var init, last := rows[..|rows| - 1], rows[|rows| - 1];
      UpsertAllKeys(table, init);
      assert rows == init + [last];
      assert (set r | r in rows :: r.contentHashSha256) == (set r | r in init :: r.contentHashSha256) + {last.contentHashSha256};
    }
  }

  /** A row that was already there keeps everything but its file name. */
  lemma {:induction false} UpsertAllKeepsRows(table: map<string, AttachmentRow>, rows: seq<AttachmentRow>, h: string)
    requires h in table
    ensures h in UpsertAll(table, rows)
    ensures UpsertAll(table, rows)[h] == table[h].(filename := UpsertAll(table, rows)[h].filename)
  {
    if rows != [] {
      UpsertAllKeepsRows(table, rows[..|rows| - 1], h);
    }
  }

  /** The rows for an email's attachments, in order. */
  function AttachmentRows(folder: string, atts: seq<EmailAttachment>, sha256: Bytes -> string): (r: seq<AttachmentRow>)
    ensures |r| == |atts|
    ensures forall i :: 0 <= i < |atts| ==> r[i] == AttachmentRowFor(folder, atts[i], sha256)
  {
    seq(|atts|, i requires 0 <= i < |atts| => AttachmentRowFor(folder, atts[i], sha256))
  }

  /** The storage objects after writing each attachment at its path. */
  function PutAll(objects: map<string, Bytes>, rows: seq<AttachmentRow>, atts: seq<EmailAttachment>): map<string, Bytes>
    requires |rows| == |atts|
  {
    if rows == [] then objects
    else PutAll(objects, rows[..|rows| - 1], atts[..|atts| - 1])[rows[|rows| - 1].storagePath := atts[|atts| - 1].content]
  }

  /** The `email_attachments` rows linking an email to its attachments. */
  function LinksFor(emailId: string, rows: seq<AttachmentRow>): set<(string, string)> {
    set row | row in rows :: (emailId, row.contentHashSha256)
  }

  /** Two attachments with the same file name but different contents: the
      second overwrites the object the first one's row points to, so that
      row's object no longer holds its content. */
  lemma SameFileNameOverwrites(folder: string, a1: EmailAttachment, a2: EmailAttachment, sha256: Bytes -> string,
                               table: map<string, AttachmentRow>, objects: map<string, Bytes>)
    requires a1.filename == a2.filename && a1.content != a2.content
    requires sha256(a1.content) != sha256(a2.content) && sha256(a1.content) !in table
    ensures var rows := AttachmentRows(folder, [a1, a2], sha256);
      var after := UpsertAll(table, rows);
      var stored := PutAll(objects, rows, [a1, a2]);
      sha256(a1.content) in after && after[sha256(a1.content)].storagePath in stored &&
      stored[after[sha256(a1.content)].storagePath] == a2.content
  {
    var rows, atts := AttachmentRows(folder, [a1, a2], sha256), [a1, a2];
    assert rows[..0] == [] && atts[..0] == [];
    assert rows[..2] == rows && atts[..2] == atts;
    AttachmentStep(table, objects, "", rows, atts, 0);
    AttachmentStep(table, objects, "", rows, atts, 1);
  }

  // ---------------------------------------------------------------------------
  // processEmail
  // ---------------------------------------------------------------------------

  /** Whether the source already holds an email with this identity. */
  predicate IsDuplicate(emails: map<string, EmailRow>, messageId: string, sourceId: string) {
    exists id :: id in emails && emails[id].messageIdHeader == messageId && emails[id].sourceId == sourceId
  }

  /** The row `processEmail` inserts. */
  function EmailRowFor(email: EmailObject, source: IngestionSource, userEmail: string, messageId: string,
                       storagePath: string, hash: string): EmailRow
    requires email.from != []
  {
    EmailRow(source.id, userEmail, email.threadId, messageId, email.receivedAt, email.subject,
             email.from[0].name, email.from[0].address, Recipients(email.to, email.cc, email.bcc),
             storagePath, hash, |EmlBuffer(email)|, |email.attachments| > 0, email.path, email.tags)
  }

  /** The attachment loop of `processEmail`: each attachment is written to
      storage, upserted by hash and linked to the email. */
  method StoreAttachments(db: Archive, storage: Storage.Store, emailId: string,
                          rows: seq<AttachmentRow>, atts: seq<EmailAttachment>)
    requires |rows| == |atts|
    requires db.Valid() && emailId in db.emails && db.emails[emailId].hasAttachments
    modifies db, storage
    ensures db.Valid()
    ensures db.attachments == UpsertAll(old(db.attachments), rows)
    ensures db.links == old(db.links) + LinksFor(emailId, rows)
    ensures storage.objects == PutAll(old(storage.objects), rows, atts)
    ensures db.sources == old(db.sources) && db.emails == old(db.emails)
    ensures db.index == old(db.index) && db.queue == old(db.queue)
  {
    for i := 0 to |atts|
      invariant db.Valid() && db.emails == old(db.emails)
      invariant db.attachments == UpsertAll(old(db.attachments), rows[..i])
      invariant db.links == old(db.links) + LinksFor(emailId, rows[..i])
      invariant storage.objects == PutAll(old(storage.objects), rows[..i], atts[..i])
      invariant db.sources == old(db.sources) && db.index == old(db.index) && db.queue == old(db.queue)
    {
      storage.Put(rows[i].storagePath, atts[i].content);
      db.Attach(emailId, rows[i]);
      AttachmentStep(old(db.attachments), old(storage.objects), emailId, rows, atts, i);
    }
    assert rows[..|atts|] == rows && atts[..|atts|] == atts;
  }

  /** What one more attachment adds to the three folds. */
  lemma AttachmentStep(table: map<string, AttachmentRow>, objects: map<string, Bytes>, emailId: string,
                       rows: seq<AttachmentRow>, atts: seq<EmailAttachment>, i: nat)
    requires |rows| == |atts| && i < |rows|
    ensures UpsertAll(table, rows[..i + 1]) == UpsertOne(UpsertAll(table, rows[..i]), rows[i])
    ensures PutAll(objects, rows[..i + 1], atts[..i + 1]) == PutAll(objects, rows[..i], atts[..i])[rows[i].storagePath := atts[i].content]
    ensures LinksFor(emailId, rows[..i + 1]) == LinksFor(emailId, rows[..i]) + {(emailId, rows[i].contentHashSha256)}
  {
    assert rows[..i + 1][..i] == rows[..i];
    assert atts[..i + 1][..i] == atts[..i];
    assert rows[..i + 1] == rows[..i] + [rows[i]];
  }

  /** `processEmail`. A duplicate of an email the source already holds
      changes nothing. Otherwise the raw message is stored; an email without
      a sender, or one whose source row is gone, stops there (the row's
      sender column is required and its source id is a foreign key, so the
      insert fails, which is caught); any other email gets a new row, its
      attachments and links, and a search document. The value is the
      `undefined` of a `Promise<void>`. `newId` is the id the database
      generates for the new row. */
  method ProcessEmail(db: Archive, storage: Storage.Store, email: EmailObject, source: IngestionSource,
                      userEmail: string, root: string, sha256: Bytes -> string, newId: string)
    returns (r: Option<EmailObject>)
    requires db.Valid() && newId !in db.emails
    modifies db, storage
    ensures db.Valid() && r.None?
    ensures db.sources == old(db.sources) && db.queue == old(db.queue)
    ensures IsDuplicate(old(db.emails), MessageIdOf(email, source.id, sha256), source.id) ==>
      db.emails == old(db.emails) && db.attachments == old(db.attachments) && db.links == old(db.links) &&
      db.index == old(db.index) && storage.objects == old(storage.objects)
    ensures (!IsDuplicate(old(db.emails), MessageIdOf(email, source.id, sha256), source.id) &&
             (email.from == [] || source.id !in old(db.sources))) ==>
      db.emails == old(db.emails) && db.attachments == old(db.attachments) && db.links == old(db.links) &&
      db.index == old(db.index) &&
      storage.objects == old(storage.objects)[EmailPath(root, source.name, source.id, email.path, email.id) := EmlBuffer(email)]
    ensures (!IsDuplicate(old(db.emails), MessageIdOf(email, source.id, sha256), source.id) &&
             email.from != [] && source.id in old(db.sources)) ==>
      var path := EmailPath(root, source.name, source.id, email.path, email.id);
      var rows := AttachmentRows(SourceFolder(root, source.name, source.id), email.attachments, sha256);
      db.emails == old(db.emails)[newId := EmailRowFor(email, source, userEmail, MessageIdOf(email, source.id, sha256),
                                                      path, sha256(EmlBuffer(email)))] &&
      db.attachments == UpsertAll(old(db.attachments), rows) &&
      db.links == old(db.links) + LinksFor(newId, rows) &&
      db.index == old(db.index)[newId := source.id] &&
      storage.objects == PutAll(old(storage.objects)[path := EmlBuffer(email)], rows, email.attachments)
  {
    r := None;
    var messageId := MessageIdOf(email, source.id, sha256);
    if IsDuplicate(db.emails, messageId, source.id) {
      return;
    }
    var emlBuffer := EmlBuffer(email);
    var emailHash := sha256(emlBuffer);
    var folder := SourceFolder(root, source.name, source.id);
    var emailPath := EmailPath(root, source.name, source.id, email.path, email.id);
    storage.Put(emailPath, emlBuffer);
    if email.from == [] || source.id !in db.sources {
      return;
    }
    var id := newId;
    db.InsertEmail(id, EmailRowFor(email, source, userEmail, messageId, emailPath, emailHash));
    if |email.attachments| > 0 {
      StoreAttachments(db, storage, id, AttachmentRows(folder, email.attachments, sha256), email.attachments);
    } else {
      assert AttachmentRows(folder, email.attachments, sha256) == [];
    }
    db.Index(id, source.id);
  }


  // ---------------------------------------------------------------------------
  // Source life cycle
  // ---------------------------------------------------------------------------

  /** `UpdateIngestionSourceDto`: every field optional. */
  datatype SourceUpdate = SourceUpdate(
    name: Option<string>,
    provider: Option<Provider>,
    status: Option<Status>,
    providerConfig: Option<Credentials>,
    lastSyncStartedAt: Option<nat>,
    lastSyncFinishedAt: Option<nat>,
    lastSyncStatusMessage: Option<string>,
    syncState: Option<SyncState>)

  const NoUpdate := SourceUpdate(None, None, None, None, None, None, None, None)

  /** The row after `set(valuesToUpdate)`: given fields replace the stored
      ones, and new credentials are encrypted before they are stored. */
  function ApplyUpdate(row: SourceRow, dto: SourceUpdate): (r: SourceRow)
    ensures r.id == row.id && r.userId == row.userId
    ensures r.status == dto.status.GetOr(row.status)
    ensures dto.providerConfig.None? ==> r.credentials == row.credentials
    ensures dto.providerConfig.Some? ==> r.credentials == Encrypt(dto.providerConfig.value)
  {
    row.(name := dto.name.GetOr(row.name),
         provider := dto.provider.GetOr(row.provider),
         status := dto.status.GetOr(row.status),
         credentials := if dto.providerConfig.Some? then Encrypt(dto.providerConfig.value) else row.credentials,
         lastSyncStartedAt := if dto.lastSyncStartedAt.Some? then dto.lastSyncStartedAt else row.lastSyncStartedAt,
         lastSyncFinishedAt := if dto.lastSyncFinishedAt.Some? then dto.lastSyncFinishedAt else row.lastSyncFinishedAt,
         lastSyncStatusMessage := if dto.lastSyncStatusMessage.Some? then dto.lastSyncStatusMessage else row.lastSyncStatusMessage,
         syncState := dto.syncState.GetOr(row.syncState))
  }

  /** An update with no fields leaves the row as it was. */
  lemma ApplyNoUpdate(row: SourceRow)
    ensures ApplyUpdate(row, NoUpdate) == row
  {
  }

  /** Applying the same update twice is applying it once. */
  lemma ApplyUpdateIdempotent(row: SourceRow, dto: SourceUpdate)
    ensures ApplyUpdate(ApplyUpdate(row, dto), dto) == ApplyUpdate(row, dto)
  {
  }

  /** `findById`: the decrypted source, or why there is none. */
  function FindById(db: Archive, id: string): (r: Result<IngestionSource>)
    requires db.Valid()
    reads db
    ensures id !in db.sources ==> r == Err("Ingestion source not found")
    ensures id in db.sources && db.sources[id].credentials.Unreadable? ==>
      r == Err("Failed to decrypt ingestion source credentials.")
    ensures r.Ok? <==> id in db.sources && db.sources[id].credentials.Sealed?
    ensures r.Ok? ==> DecryptSource(db.sources[id]) == Some(r.value) && r.value.id == id
  {
    if id !in db.sources then Err("Ingestion source not found")
    else
      match DecryptSource(db.sources[id])
      case None => Err("Failed to decrypt ingestion source credentials.")
      case Some(source) => Ok(source)
  }

  /** `update`: applies the update to the stored row and returns it
      decrypted; when the status moves into `auth_success` from any other
      status, an initial import is queued. */
  method Update(db: Archive, id: string, dto: SourceUpdate) returns (r: Result<IngestionSource>)
    requires db.Valid()
    modifies db
    ensures db.Valid()
    ensures db.emails == old(db.emails) && db.attachments == old(db.attachments)
    ensures db.links == old(db.links) && db.index == old(db.index)
    ensures old(FindById(db, id)).Err? ==>
      r == Err(old(FindById(db, id)).error) && db.sources == old(db.sources) && db.queue == old(db.queue)
    ensures old(FindById(db, id)).Ok? ==>
      db.sources == old(db.sources)[id := ApplyUpdate(old(db.sources)[id], dto)] &&
      r.Ok? && DecryptSource(db.sources[id]) == Some(r.value) &&
      db.queue == old(db.queue) +
        (if old(db.sources)[id].status != AuthSuccess && dto.status == Some(AuthSuccess)
         then [QueuedJob(InitialImport(id), Waiting)] else [])
  {
    var originalSource :- FindById(db, id);
    var updated := ApplyUpdate(db.sources[id], dto);
    db.PutSource(id, updated);
    var decrypted := DecryptSource(updated);
    if decrypted.None? {
      return Err("Failed to process updated ingestion source due to a decryption error.");
    }
    var decryptedSource := decrypted.value;
    if originalSource.status != AuthSuccess && decryptedSource.status == AuthSuccess {
      var _ := TriggerInitialImport(db, decryptedSource.id);
    }
    return Ok(decryptedSource);
  }

  /** `triggerInitialImport`: queues an initial import for an existing source. */
  method TriggerInitialImport(db: Archive, id: string) returns (r: Outcome)
    requires db.Valid()
    modifies db
    ensures db.Valid()
    ensures db.sources == old(db.sources) && db.emails == old(db.emails) && db.attachments == old(db.attachments)
    ensures db.links == old(db.links) && db.index == old(db.index)
    ensures old(FindById(db, id)).Err? ==> r == Fail(old(FindById(db, id)).error) && db.queue == old(db.queue)
    ensures old(FindById(db, id)).Ok? ==> r == Pass && db.queue == old(db.queue) + [QueuedJob(InitialImport(id), Waiting)]
  {
    var source := FindById(db, id);
    if source.Err? {
      return Fail(source.error);
    }
    db.Enqueue(InitialImport(source.value.id));
    return Pass;
  }

  /** `CreateIngestionSourceDto` */
  datatype CreateSourceDto = CreateSourceDto(name: string, provider: Provider, providerConfig: Credentials)

  /** The uploaded file a credentials object names; `""` (as falsy as the
      missing property) for the providers that upload none. */
  function UploadedFilePath(c: Credentials): string {
    match c
    case PstImportCredentials(_, path) => path
    case EmlImportCredentials(_, path) => path
    case MboxImportCredentials(_, path) => path
    case _ => ""
  }

  /** `connector.testConnection()`: the file-based connectors check the
      upload against the stored objects; the others ask their remote service,
      whose answer is `remote`. */
  function ConnectionTest(connector: EmailProviderFactory.Connector, stored: set<string>, remote: Outcome): (r: Outcome)
    ensures connector.Serves() in ReturnFileBasedIngestions() ==> (r.Pass? ==> UploadedFilePath(connector.credentials) in stored)
  {
    match connector
    case PstConnector(c) => PstConnector.TestConnection(UploadedFilePath(c), stored)
    case EmlConnector(c) => EmlConnector.TestConnection(UploadedFilePath(c), stored)
    case MboxConnector(c) => MboxConnector.TestConnection(UploadedFilePath(c), stored)
    case _ => remote
  }

  /** The objects left after a source is deleted: everything in its folder
      goes, and so does the upload of a PST or EML source if it is there. */
  function ObjectsAfterDelete(objects: map<string, Bytes>, root: string, source: IngestionSource): (r: map<string, Bytes>)
    ensures forall p :: p in r ==> p in objects && r[p] == objects[p]
    ensures forall p :: p in r ==> !JsStrings.StartsWith(p, SourceFolder(root, source.name, source.id))
    ensures forall p ::
      p in objects && p != UploadedFilePath(source.credentials) &&
      !JsStrings.StartsWith(p, SourceFolder(root, source.name, source.id))
      ==> p in r
    ensures source.credentials.Type() in ReturnFileBasedIngestions() && UploadedFilePath(source.credentials) != "" ==>
      UploadedFilePath(source.credentials) !in r
    ensures source.credentials.Type() !in ReturnFileBasedIngestions() || UploadedFilePath(source.credentials) == "" ==>
      forall p :: p in objects && !JsStrings.StartsWith(p, SourceFolder(root, source.name, source.id)) ==> p in r
  {
    var kept := map p | p in objects && !JsStrings.StartsWith(p, SourceFolder(root, source.name, source.id)) :: objects[p];
    var path := UploadedFilePath(source.credentials);
    if source.credentials.Type() in ReturnFileBasedIngestions() && path != "" && path in kept then kept - {path} else kept
  }

  /** The source `create` inserts: `pending_auth`, never synced. */
  function PendingSource(dto: CreateSourceDto, userId: string, newId: string): IngestionSource {
    IngestionSource(newId, userId, dto.name, dto.provider, PendingAuth, dto.providerConfig, None, None, None, Json.Null)
  }

  /** The row stored for a source: its credentials sealed, every other
      column as it is. */
  function SealedRow(s: IngestionSource): SourceRow {
    SourceRow(s.id, s.userId, s.name, s.provider, s.status, Encrypt(s.credentials), s.lastSyncStartedAt,
              s.lastSyncFinishedAt, s.lastSyncStatusMessage, s.syncState)
  }

  /** `create`: stores the source as `pending_auth` and tests the
      connection; on success the status becomes `auth_success`, which queues
      the initial import; on failure the source is deleted again and the
      test's error is returned. */
  method Create(db: Archive, storage: Storage.Store, dto: CreateSourceDto, userId: string, remote: Outcome, root: string,
                newId: string)
    returns (r: Result<IngestionSource>)
    requires db.Valid() && newId !in db.sources
    modifies db, storage
    ensures db.Valid()
    ensures db.attachments == old(db.attachments) && db.queue == old(db.queue) + (if r.Ok? then [QueuedJob(InitialImport(newId), Waiting)] else [])
    ensures var test := ConnectionTest(EmailProviderFactory.ConnectorFor(dto.provider, dto.providerConfig),
                                       old(storage.objects).Keys, remote);
      (r.Ok? <==> test.Pass?) && (r.Err? ==> r.error == test.error)
    ensures r.Ok? ==>
      r.value == PendingSource(dto, userId, newId).(status := AuthSuccess) &&
      db.sources == old(db.sources)[newId := SealedRow(PendingSource(dto, userId, newId)).(status := AuthSuccess)] &&
      storage.objects == old(storage.objects) && db.emails == old(db.emails) && db.links == old(db.links) &&
      db.index == old(db.index)
    ensures r.Err? ==>
      db.sources == old(db.sources) &&
      db.emails == EmailsNotOf(old(db.emails), newId) && db.links == LinksAmong(old(db.links), db.emails) &&
      db.index == IndexNotOf(old(db.index), newId) &&
      storage.objects == ObjectsAfterDelete(old(storage.objects), root, PendingSource(dto, userId, newId))
  {
    var source := PendingSource(dto, userId, newId);
    InsertPending(db, source);
    ghost var added := db.sources;
    r := TestNewSource(db, storage, source, remote, root);
    if r.Ok? {
      UpdateTwice(old(db.sources), newId, SealedRow(source), SealedRow(source).(status := AuthSuccess));
    } else {
      RemoveAdded(old(db.sources), newId, SealedRow(source));
    }
  }

  lemma UpdateTwice<V>(m: map<string, V>, k: string, a: V, b: V)
    ensures m[k := a][k := b] == m[k := b]
  {
  }

  lemma RemoveAdded<V>(m: map<string, V>, k: string, v: V)
    requires k !in m
    ensures m[k := v] - {k} == m
  {
  }

  /** The insert of `create`: the row is stored with its credentials
      sealed, and reading it back gives the source. */
  method InsertPending(db: Archive, source: IngestionSource)
    requires db.Valid() && source.id !in db.sources
    modifies db
    ensures db.Valid() && FindById(db, source.id) == Ok(source)
    ensures db.sources == old(db.sources)[source.id := SealedRow(source)]
    ensures db.emails == old(db.emails) && db.attachments == old(db.attachments) && db.links == old(db.links)
    ensures db.index == old(db.index) && db.queue == old(db.queue)
  {
    db.PutSource(source.id, SealedRow(source));
    assert DecryptSource(SealedRow(source)) == Some(source);
  }

  /** The `try`/`catch` of `create`: a source whose connection test passes
      becomes `auth_success`; one whose test fails is deleted and the test's
      error is returned. */
  method TestNewSource(db: Archive, storage: Storage.Store, source: IngestionSource, remote: Outcome, root: string)
    returns (r: Result<IngestionSource>)
    requires db.Valid() && FindById(db, source.id) == Ok(source)
    modifies db, storage
    ensures db.Valid()
    ensures db.attachments == old(db.attachments) &&
      db.queue == old(db.queue) + (if r.Ok? && source.status != AuthSuccess then [QueuedJob(InitialImport(source.id), Waiting)] else [])
    ensures var test := ConnectionTest(EmailProviderFactory.ConnectorFor(source.provider, source.credentials),
                                       old(storage.objects).Keys, remote);
      (r.Ok? <==> test.Pass?) && (r.Err? ==> r.error == test.error)
    ensures r.Ok? ==>
      r.value == source.(status := AuthSuccess) &&
      db.sources == old(db.sources)[source.id := old(db.sources)[source.id].(status := AuthSuccess)] &&
      storage.objects == old(storage.objects) && db.emails == old(db.emails) && db.links == old(db.links) &&
      db.index == old(db.index)
    ensures r.Err? ==>
      db.sources == old(db.sources) - {source.id} &&
      db.emails == EmailsNotOf(old(db.emails), source.id) && db.links == LinksAmong(old(db.links), db.emails) &&
      db.index == IndexNotOf(old(db.index), source.id) &&
      storage.objects == ObjectsAfterDelete(old(storage.objects), root, source)
  {
    var connector := EmailProviderFactory.ConnectorFor(source.provider, source.credentials);
    var test := ConnectionTest(connector, storage.objects.Keys, remote);
    if test.Pass? {
      r := Update(db, source.id, NoUpdate.(status := Some(AuthSuccess)));
      return;
    }
    var _ := Delete(db, storage, source.id, root);
    return Err(test.error);
  }

  /** `delete`: removes the source's stored emails and attachments, its
      upload (PST and EML only), its search documents and its row; its
      emails follow the row by cascade. */
  method Delete(db: Archive, storage: Storage.Store, id: string, root: string) returns (r: Result<IngestionSource>)
    requires db.Valid()
    modifies db, storage
    ensures db.Valid()
    ensures r == old(FindById(db, id))
    ensures db.attachments == old(db.attachments) && db.queue == old(db.queue)
    ensures r.Err? ==>
      db.sources == old(db.sources) && db.emails == old(db.emails) && db.links == old(db.links) &&
      db.index == old(db.index) && storage.objects == old(storage.objects)
    ensures r.Ok? ==>
      db.sources == old(db.sources) - {id} &&
      db.emails == EmailsNotOf(old(db.emails), id) && db.links == LinksAmong(old(db.links), db.emails) &&
      db.index == IndexNotOf(old(db.index), id) &&
      storage.objects == ObjectsAfterDelete(old(storage.objects), root, r.value)
  {
    r := FindById(db, id);
    if r.Err? {
      return;
    }
    var source := r.value;
    storage.DeletePrefix(SourceFolder(root, source.name, source.id));
    var path := UploadedFilePath(source.credentials);
    if source.credentials.Type() in ReturnFileBasedIngestions() && path != "" && storage.Exists(path) {
      storage.Delete(path);
    }
    db.UnindexSource(id);
    db.RemoveSource(id);
  }

  /** A queued job that a forced sync removes: any job of the source in one
      of the states `active`, `waiting`, `failed`, `delayed` or `paused`. */
  predicate Stale(q: QueuedJob, id: string) {
    q.job.SourceId() == id && q.state in {JobState.Active, JobState.Waiting, JobState.Failed, JobState.Delayed, JobState.Paused}
  }

  /** The queue after the clean-up loop, in order: the source's stale jobs
      are removed, except those in `locked`, whose `job.remove()` throws (a
      job a worker holds, say) and is only logged. */
  function WithoutStale(queue: seq<QueuedJob>, id: string, locked: set<QueuedJob>): (r: seq<QueuedJob>)
    ensures forall q :: q in r <==> q in queue && (!Stale(q, id) || q in locked)
    ensures |r| <= |queue|
  {
    if queue == [] then []
    else
      var last := queue[|queue| - 1];
      WithoutStale(queue[..|queue| - 1], id, locked) + (if Stale(last, id) && last !in locked then [] else [last])
  }

  /** The clean-up works job by job: on a concatenation it cleans each part. */
  lemma {:induction false} WithoutStaleAppend(a: seq<QueuedJob>, b: seq<QueuedJob>, id: string, locked: set<QueuedJob>)
    ensures WithoutStale(a + b, id, locked) == WithoutStale(a, id, locked) + WithoutStale(b, id, locked)
    decreases |b|
  {
    if b != [] {
      var init, last := b[..|b| - 1], b[|b| - 1];
      assert (a + b)[..|a + b| - 1] == a + init;
      WithoutStaleAppend(a, init, id, locked);
    } else {
      assert a + b == a;
    }
  }

  /** Cleaning an already cleaned queue changes nothing. */
  lemma {:induction false} WithoutStaleIdempotent(queue: seq<QueuedJob>, id: string, locked: set<QueuedJob>)
    ensures WithoutStale(WithoutStale(queue, id, locked), id, locked) == WithoutStale(queue, id, locked)
    decreases |queue|
  {
    if queue != [] {
      var init, last := queue[..|queue| - 1], queue[|queue| - 1];
      WithoutStaleIdempotent(init, id, locked);
      var kept := if Stale(last, id) && last !in locked then [] else [last];
      WithoutStaleAppend(WithoutStale(init, id, locked), kept, id, locked);
      if kept != [] {
        assert WithoutStale(kept, id, locked) == WithoutStale([], id, locked) + kept by {
          assert kept[..0] == [];
        }
      }
    }
  }

  /** Two forced syncs in a row, with no removal failing, leave the queue as
      one does: the second removes the cycle the first queued, so only one
      `continuous-sync` job of the source is pending, and it is the last job. */
  lemma ForceSyncTwiceQueuesOneCycle(queue: seq<QueuedJob>, id: string)
    ensures var once := WithoutStale(queue, id, {}) + [QueuedJob(ContinuousSync(id), Waiting)];
      WithoutStale(once, id, {}) + [QueuedJob(ContinuousSync(id), Waiting)] == once &&
      forall i :: 0 <= i < |once| && Stale(once[i], id) ==> i == |once| - 1
  {
    var cycle := QueuedJob(ContinuousSync(id), Waiting);
    var cleaned := WithoutStale(queue, id, {});
    WithoutStaleAppend(cleaned, [cycle], id, {});
    WithoutStaleIdempotent(queue, id, {});
    assert WithoutStale([cycle], id, {}) == [] by {
      assert [cycle][..0] == [];
    }
    forall i | 0 <= i < |cleaned| ensures !Stale(cleaned[i], id) {
      assert cleaned[i] in cleaned;
    }
  }

  /** The clean-up loop of `triggerForceSync`. */
  method RemoveStaleJobs(db: Archive, id: string, locked: set<QueuedJob>)
    requires db.Valid()
    modifies db
    ensures db.Valid()
    ensures db.queue == WithoutStale(old(db.queue), id, locked)
    ensures db.sources == old(db.sources) && db.emails == old(db.emails) && db.attachments == old(db.attachments)
    ensures db.links == old(db.links) && db.index == old(db.index)
  {
    var jobs := db.queue;
    var kept := [];
    for i := 0 to |jobs|
      invariant kept == WithoutStale(jobs[..i], id, locked)
    {
      assert jobs[..i + 1][..i] == jobs[..i];
      if !Stale(jobs[i], id) || jobs[i] in locked {
        kept := kept + [jobs[i]];
      }
    }
    assert jobs[..|jobs|] == jobs;
    db.SetQueue(kept);
  }

  /** The update `triggerForceSync` applies. */
  const ForceSyncUpdate := NoUpdate.(status := Some(Status.Active), lastSyncStatusMessage := Some("Force sync triggered by user."))

  /** `triggerForceSync`: drops the source's stale jobs, sets it `active`
      with a message, and queues exactly one continuous sync. */
  method TriggerForceSync(db: Archive, id: string, locked: set<QueuedJob>) returns (r: Outcome)
    requires db.Valid()
    modifies db
    ensures db.Valid()
    ensures db.emails == old(db.emails) && db.attachments == old(db.attachments)
    ensures db.links == old(db.links) && db.index == old(db.index)
    ensures old(FindById(db, id)).Err? ==>
      r == Fail(old(FindById(db, id)).error) && db.sources == old(db.sources) && db.queue == old(db.queue)
    ensures old(FindById(db, id)).Ok? ==>
      r == Pass &&
      db.sources == old(db.sources)[id := ApplyUpdate(old(db.sources)[id], ForceSyncUpdate)] &&
      db.queue == WithoutStale(old(db.queue), id, locked) + [QueuedJob(ContinuousSync(id), Waiting)]
  {
    var source := FindById(db, id);
    if source.Err? {
      return Fail(source.error);
    }
    RemoveStaleJobs(db, id, locked);
    var _ := Update(db, id, ForceSyncUpdate);
    db.Enqueue(ContinuousSync(source.value.id));
    return Pass;
  }

  /** The `process-mailbox` jobs for the listed mailboxes: one per mailbox
      with a primary address, in listing order. */
  function MailboxJobs(sourceId: string, users: seq<MailboxUser>): (r: seq<Job>)
    ensures |r| <= |users|
  {
    if users == [] then []
    else
      MailboxJobs(sourceId, users[..|users| - 1]) +
        (if users[|users| - 1].primaryEmail != "" then [ProcessMailbox(sourceId, users[|users| - 1].primaryEmail)] else [])
  }

  /** Exactly the listed mailboxes with a primary address get a job, and
      every job is a `process-mailbox` job of the source. */
  lemma {:induction false} MailboxJobsMembers(sourceId: string, users: seq<MailboxUser>)
    ensures forall j :: j in MailboxJobs(sourceId, users) <==>
      exists u :: u in users && u.primaryEmail != "" && j == ProcessMailbox(sourceId, u.primaryEmail)
  {
    if users != [] {
      var init, last := users[..|users| - 1], users[|users| - 1];
      MailboxJobsMembers(sourceId, init);
      assert users == init + [last];
      forall j ensures j in MailboxJobs(sourceId, users) <==>
        exists u :: u in users && u.primaryEmail != "" && j == ProcessMailbox(sourceId, u.primaryEmail)
      {
        if j in MailboxJobs(sourceId, init) {
          var u :| u in init && u.primaryEmail != "" && j == ProcessMailbox(sourceId, u.primaryEmail);
          assert u in users;
        }
        if last.primaryEmail != "" && j == ProcessMailbox(sourceId, last.primaryEmail) {
          assert last in users;
        }
      }
    }
  }

  /** One more listed mailbox adds at most one job at the end. */
  lemma QueuedMailboxJobsStep(sourceId: string, users: seq<MailboxUser>, i: nat)
    requires i < |users|
    ensures Queued(MailboxJobs(sourceId, users[..i + 1])) ==
      Queued(MailboxJobs(sourceId, users[..i])) +
        (if users[i].primaryEmail != "" then [QueuedJob(ProcessMailbox(sourceId, users[i].primaryEmail), Waiting)] else [])
  {
    assert users[..i + 1][..i] == users[..i];
  }

  /** The loop over the listed mailboxes: queues their jobs in order. */
  method QueueMailboxJobs(db: Archive, sourceId: string, users: seq<MailboxUser>)
    requires db.Valid()
    modifies db
    ensures db.Valid()
    ensures db.queue == old(db.queue) + Queued(MailboxJobs(sourceId, users))
    ensures db.sources == old(db.sources) && db.emails == old(db.emails) && db.attachments == old(db.attachments)
    ensures db.links == old(db.links) && db.index == old(db.index)
  {
    for i := 0 to |users|
      invariant db.Valid()
      invariant db.queue == old(db.queue) + Queued(MailboxJobs(sourceId, users[..i]))
      invariant db.sources == old(db.sources) && db.emails == old(db.emails) && db.attachments == old(db.attachments)
      invariant db.links == old(db.links) && db.index == old(db.index)
    {
      QueuedMailboxJobsStep(sourceId, users, i);
      if users[i].primaryEmail != "" {
        db.Enqueue(ProcessMailbox(sourceId, users[i].primaryEmail));
      }
    }
    assert users[..|users|] == users;
  }

  /** The mailboxes a connector lists, and the error that ended the listing
      early, if one did. */
  datatype Listing = Listing(users: seq<MailboxUser>, failure: Option<string>)

  /** `performBulkImport`: marks the source `importing`, queues one
      `process-mailbox` job per listed mailbox with an address, and on a
      listing error marks the source `error` with the message and fails. */
  method PerformBulkImport(db: Archive, sourceId: string, listing: Listing, now: nat) returns (r: Outcome)
    requires db.Valid()
    modifies db
    ensures db.Valid()
    ensures db.emails == old(db.emails) && db.attachments == old(db.attachments)
    ensures db.links == old(db.links) && db.index == old(db.index)
    ensures old(FindById(db, sourceId)).Err? ==>
      r == Fail(old(FindById(db, sourceId)).error) && db.sources == old(db.sources) && db.queue == old(db.queue)
    ensures old(FindById(db, sourceId)).Ok? ==>
      var importing := ApplyUpdate(old(db.sources)[sourceId], NoUpdate.(status := Some(Importing), lastSyncStartedAt := Some(now)));
      db.queue == old(db.queue) + Queued(MailboxJobs(sourceId, listing.users)) &&
      (listing.failure.None? ==> r == Pass && db.sources == old(db.sources)[sourceId := importing]) &&
      (listing.failure.Some? ==>
        r == Fail(listing.failure.value) &&
        db.sources == old(db.sources)[sourceId := ApplyUpdate(importing, ErrorUpdate(now, listing.failure.value))])
  {
    var found := FindById(db, sourceId);
    if found.Err? {
      return Fail(found.error);
    }
    var source := found.value;
    var _ := Update(db, sourceId, NoUpdate.(status := Some(Importing), lastSyncStartedAt := Some(now)));
    QueueMailboxJobs(db, source.id, listing.users);
    if listing.failure.Some? {
      var _ := Update(db, sourceId, ErrorUpdate(now, listing.failure.value));
      return Fail(listing.failure.value);
    }
    return Pass;
  }

  /** The update a failed sync or import applies. */
  function ErrorUpdate(now: nat, message: string): SourceUpdate {
    NoUpdate.(status := Some(Error), lastSyncFinishedAt := Some(now), lastSyncStatusMessage := Some(message))
  }
}
