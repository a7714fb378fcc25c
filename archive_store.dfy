/** The persistent state the ingestion and archive services work on, kept in
    memory: the `ingestion_sources`, `archived_emails`, `attachments` and
    `email_attachments` tables, the search index's `emails` documents and the
    `ingestion` job queue. Each method below is one database, index or queue
    statement. */
module ArchiveStore {
  import opened Wrappers
  import opened IngestionTypes

  /** The `credentials` column: `encryptObject` seals a credentials object;
      a value sealed under another key, or damaged, cannot be read back. */
  datatype Cipher = Sealed(credentials: Credentials) | Unreadable

  function Encrypt(c: Credentials): Cipher {
    Sealed(c)
  }

  /** `decryptObject`: `None` when the column cannot be read. */
  function Decrypt(c: Cipher): (r: Option<Credentials>)
    ensures r.Some? <==> c.Sealed?
  {
    match c
    case Sealed(credentials) => Some(credentials)
    case Unreadable => None
  }

  /** What is encrypted decrypts to itself. */
  lemma DecryptEncrypt(c: Credentials)
    ensures Decrypt(Encrypt(c)) == Some(c)
  {
  }

  /** A row of `ingestion_sources`. */
  datatype SourceRow = SourceRow(
    id: string,
    userId: string,
    name: string,
    provider: Provider,
    status: Status,
    credentials: Cipher,
    lastSyncStartedAt: Option<nat>,
    lastSyncFinishedAt: Option<nat>,
    lastSyncStatusMessage: Option<string>,
    syncState: SyncState)

  /** `decryptSource`: the row with its credentials decrypted, or `None` when
      they cannot be. */
  function DecryptSource(row: SourceRow): (r: Option<IngestionSource>)
    ensures r.Some? <==> row.credentials.Sealed?
    ensures r.Some? ==> (r.value.id == row.id && r.value.name == row.name && r.value.status == row.status &&
                         r.value.provider == row.provider && Encrypt(r.value.credentials) == row.credentials &&
                         r.value.syncState == row.syncState)
  {
    match Decrypt(row.credentials)
    case None => None
    case Some(c) =>
      Some(IngestionSource(row.id, row.userId, row.name, row.provider, row.status, c,
                           row.lastSyncStartedAt, row.lastSyncFinishedAt, row.lastSyncStatusMessage, row.syncState))
  }

  /** The `recipients` column. */
  datatype Recipients = Recipients(to: seq<EmailAddress>, cc: seq<EmailAddress>, bcc: seq<EmailAddress>)

  /** A row of `archived_emails`. */
  datatype EmailRow = EmailRow(
    sourceId: string,
    userEmail: string,
    threadId: Option<string>,
    messageIdHeader: string,
    sentAt: nat,
    subject: string,
    senderName: string,
    senderEmail: string,
    recipients: Recipients,
    storagePath: string,
    storageHashSha256: string,
    sizeBytes: nat,
    hasAttachments: bool,
    path: string,
    tags: Option<seq<string>>)

  /** A row of `attachments`; its content hash is unique, so the table is
      keyed by it. */
  datatype AttachmentRow = AttachmentRow(
    filename: string, mimeType: string, sizeBytes: nat, contentHashSha256: string, storagePath: string)

  /** The states a queued job can be in; a flow's parent waits for its
      children in `WaitingChildren`. */
  datatype JobState = Active | Waiting | WaitingChildren | Failed | Delayed | Paused | Completed

  datatype QueuedJob = QueuedJob(job: Job, state: JobState)

  /** Jobs as they sit in the queue right after being added. */
  function Queued(jobs: seq<Job>): (r: seq<QueuedJob>)
    ensures |r| == |jobs|
    ensures forall i :: 0 <= i < |jobs| ==> r[i] == QueuedJob(jobs[i], Waiting)
  {
    seq(|jobs|, i requires 0 <= i < |jobs| => QueuedJob(jobs[i], Waiting))
  }

  /** Insert-or-rename of one attachment row, keyed by its content hash
      (`onConflictDoUpdate` on the hash, setting only the file name). */
  function UpsertOne(table: map<string, AttachmentRow>, row: AttachmentRow): (r: map<string, AttachmentRow>)
    ensures r.Keys == table.Keys + {row.contentHashSha256}
  {
    var h := row.contentHashSha256;
    if h in table then table[h := table[h].(filename := row.filename)] else table[h := row]
  }

  /** The emails that link the attachment `h`. */
  function Referrers(links: set<(string, string)>, h: string): (r: set<string>)
    ensures forall e :: e in r <==> (e, h) in links
  {
    set l | l in links && l.1 == h :: l.0
  }

  /** The email rows that survive deleting the source `id`: the foreign key
      from an email to its source cascades. */
  function EmailsNotOf(emails: map<string, EmailRow>, id: string): (r: map<string, EmailRow>)
    ensures forall e :: e in r <==> e in emails && emails[e].sourceId != id
    ensures forall e :: e in r ==> r[e] == emails[e]
  {
    map e | e in emails && emails[e].sourceId != id :: emails[e]
  }

  /** The search documents that survive deleting those of the source `id`. */
  function IndexNotOf(index: map<string, string>, id: string): (r: map<string, string>)
    ensures forall e :: e in r <==> e in index && index[e] != id
    ensures forall e :: e in r ==> r[e] == index[e]
  {
    map e | e in index && index[e] != id :: index[e]
  }

  /** The links whose email is still among `emails`: the foreign key from a
      link to its email cascades. */
  function LinksAmong(links: set<(string, string)>, emails: map<string, EmailRow>): (r: set<(string, string)>)
    ensures forall l :: l in r <==> l in links && l.0 in emails
  {
    set l | l in links && l.0 in emails
  }

  /** Deleting a source no email or search document belongs to leaves the
      emails, the links and the index as they were. */
  lemma CascadeOfUnusedSource(emails: map<string, EmailRow>, links: set<(string, string)>,
                              index: map<string, string>, id: string)
    requires forall e :: e in emails ==> emails[e].sourceId != id
    requires forall e :: e in index ==> index[e] != id
    requires forall l :: l in links ==> l.0 in emails
    ensures EmailsNotOf(emails, id) == emails
    ensures LinksAmong(links, EmailsNotOf(emails, id)) == links
    ensures IndexNotOf(index, id) == index
  {
  }

  class Archive {
    var sources: map<string, SourceRow>
    var emails: map<string, EmailRow>
    var attachments: map<string, AttachmentRow>
    /** `email_attachments`: (email id, attachment content hash) pairs. */
    var links: set<(string, string)>
    /** The `emails` search documents: email id to its source id. */
    var index: map<string, string>
    var queue: seq<QueuedJob>

    /** Referential integrity: each source row is stored under its own id,
        every email belongs to an existing source, every link joins an
        existing email that has attachments to an existing attachment, and
        each attachment is stored under its own hash. */
    ghost predicate Valid()
      reads this
    {
      (forall id :: id in sources ==> sources[id].id == id) &&
      (forall e :: e in emails ==> emails[e].sourceId in sources) &&
      (forall l :: l in links ==> l.0 in emails && emails[l.0].hasAttachments && l.1 in attachments) &&
      (forall h :: h in attachments ==> attachments[h].contentHashSha256 == h)
    }

    constructor ()
      ensures Valid()
      ensures sources == map[] && emails == map[] && attachments == map[] && links == {} && index == map[] && queue == []
    {
      sources := map[];
      emails := map[];
      attachments := map[];
      links := {};
      index := map[];
      queue := [];
    }

    /** The ids of the attachments linked to `emailId`. */
    function LinkedTo(emailId: string): (r: set<string>)
      reads this
      ensures forall h :: h in r <==> (emailId, h) in links
    {
      set l | l in links && l.0 == emailId :: l.1
    }

    /** How many emails link the attachment `h` (the `count` query). */
    function RefCount(h: string): nat
      reads this
    {
      |Referrers(links, h)|
    }

    /** Insert or update of a source row. */
    method PutSource(id: string, row: SourceRow)
      requires Valid() && row.id == id
      modifies this
      ensures Valid()
      ensures sources == old(sources)[id := row]
      ensures emails == old(emails) && attachments == old(attachments) && links == old(links)
      ensures index == old(index) && queue == old(queue)
    {
      sources := sources[id := row];
    }

    /** Deletes a source row; its emails, and their links, go with it (the
        foreign keys cascade). */
    method RemoveSource(id: string)
      requires Valid()
      modifies this
      ensures Valid()
      ensures sources == old(sources) - {id}
      ensures emails == EmailsNotOf(old(emails), id)
      ensures links == LinksAmong(old(links), emails)
      ensures attachments == old(attachments) && index == old(index) && queue == old(queue)
    {
      sources := sources - {id};
      emails := EmailsNotOf(emails, id);
      links := LinksAmong(links, emails);
    }

    /** Inserts an email row under a new id; its source must exist. */
    method InsertEmail(id: string, row: EmailRow)
      requires Valid() && id !in emails && row.sourceId in sources
      modifies this
      ensures Valid()
      ensures emails == old(emails)[id := row]
      ensures sources == old(sources) && attachments == old(attachments) && links == old(links)
      ensures index == old(index) && queue == old(queue)
    {
      emails := emails[id := row];
    }

    /** Deletes an email row that no link mentions any more. */
    method RemoveEmail(id: string)
      requires Valid() && LinkedTo(id) == {}
      modifies this
      ensures Valid()
      ensures emails == old(emails) - {id}
      ensures sources == old(sources) && attachments == old(attachments) && links == old(links)
      ensures index == old(index) && queue == old(queue)
    {
      emails := emails - {id};
    }

    /** Upserts an attachment row and links it to an email (the link insert
        ignores a conflict). */
    method Attach(emailId: string, row: AttachmentRow)
      requires Valid() && emailId in emails && emails[emailId].hasAttachments
      modifies this
      ensures Valid()
      ensures attachments == UpsertOne(old(attachments), row)
      ensures links == old(links) + {(emailId, row.contentHashSha256)}
      ensures sources == old(sources) && emails == old(emails)
      ensures index == old(index) && queue == old(queue)
    {
      attachments := UpsertOne(attachments, row);
      links := links + {(emailId, row.contentHashSha256)};
    }

    /** Deletes an attachment row that no link mentions any more. */
    method RemoveAttachment(h: string)
      requires Valid() && RefCount(h) == 0
      modifies this
      ensures Valid()
      ensures attachments == old(attachments) - {h}
      ensures sources == old(sources) && emails == old(emails) && links == old(links)
      ensures index == old(index) && queue == old(queue)
    {
      assert Referrers(links, h) == {};
      forall l | l in links ensures l.1 != h {
        assert l.1 == h ==> l.0 in Referrers(links, h);
      }
      attachments := attachments - {h};
    }

    /** Deletes one `email_attachments` row. */
    method Unlink(emailId: string, h: string)
      requires Valid()
      modifies this
      ensures Valid()
      ensures links == old(links) - {(emailId, h)}
      ensures sources == old(sources) && emails == old(emails) && attachments == old(attachments)
      ensures index == old(index) && queue == old(queue)
    {
      links := links - {(emailId, h)};
    }

    /** `indexByEmail`: adds or replaces the email's search document. */
    method Index(emailId: string, sourceId: string)
      modifies this
      ensures index == old(index)[emailId := sourceId]
      ensures sources == old(sources) && emails == old(emails) && attachments == old(attachments)
      ensures links == old(links) && queue == old(queue)
    {
      index := index[emailId := sourceId];
    }

    /** `deleteDocuments('emails', [emailId])` */
    method Unindex(emailId: string)
      modifies this
      ensures index == old(index) - {emailId}
      ensures sources == old(sources) && emails == old(emails) && attachments == old(attachments)
      ensures links == old(links) && queue == old(queue)
    {
      index := index - {emailId};
    }

    /** `deleteDocumentsByFilter('emails', 'ingestionSourceId = <id>')` */
    method UnindexSource(sourceId: string)
      modifies this
      ensures index == IndexNotOf(old(index), sourceId)
      ensures sources == old(sources) && emails == old(emails) && attachments == old(attachments)
      ensures links == old(links) && queue == old(queue)
    {
      index := IndexNotOf(index, sourceId);
    }

    /** `ingestionQueue.add`: a new waiting job. */
    method Enqueue(job: Job)
      requires Valid()
      modifies this
      ensures Valid()
      ensures queue == old(queue) + [QueuedJob(job, Waiting)]
      ensures sources == old(sources) && emails == old(emails) && attachments == old(attachments)
      ensures links == old(links) && index == old(index)
    {
      queue := queue + [QueuedJob(job, Waiting)];
    }

    /** `flowProducer.add`: the children are queued as waiting jobs and the
        parent waits for them. */
    method EnqueueFlow(parent: Job, children: seq<Job>)
      requires Valid()
      modifies this
      ensures Valid()
      ensures queue == old(queue) + Queued(children) +
                                    [QueuedJob(parent, WaitingChildren)]
      ensures sources == old(sources) && emails == old(emails) && attachments == old(attachments)
      ensures links == old(links) && index == old(index)
    {
      queue := queue + Queued(children) +
               [QueuedJob(parent, WaitingChildren)];
    }

    /** Replaces the queue with what is left after removing jobs. */
    method SetQueue(jobs: seq<QueuedJob>)
      requires Valid()
      modifies this
      ensures Valid()
      ensures queue == jobs
      ensures sources == old(sources) && emails == old(emails) && attachments == old(attachments)
      ensures links == old(links) && index == old(index)
    {
      queue := jobs;
    }
  }
}
