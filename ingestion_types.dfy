/** The shared vocabulary of ingestion: providers, source statuses, the
    credentials each provider takes, the mailboxes a connector lists, the
    emails it yields and the result a mailbox job returns. */
module IngestionTypes {
  import opened Wrappers
  import Json
  import Base64

  type Bytes = Base64.Bytes

  /** `IngestionProvider` */
  datatype Provider = GoogleWorkspace | Microsoft365 | GenericImap | PstImport | EmlImport | MboxImport

  /** `IngestionStatus` */
  datatype Status = Active | Paused | Error | PendingAuth | Syncing | Importing | AuthSuccess | Imported

  /** `IngestionCredentials`, one variant per provider. */
  datatype Credentials =
    | GoogleWorkspaceCredentials(serviceAccountKeyJson: string, impersonatedAdminEmail: string)
    | Microsoft365Credentials(clientId: string, clientSecret: string, tenantId: string)
    | GenericImapCredentials(host: string, port: int, secure: bool, allowInsecureCert: bool,
                             username: string, password: Option<string>)
    | PstImportCredentials(uploadedFileName: string, uploadedFilePath: string)
    | EmlImportCredentials(uploadedFileName: string, uploadedFilePath: string)
    | MboxImportCredentials(uploadedFileName: string, uploadedFilePath: string)
  {
    /** The `type` tag every credentials object carries. */
    function Type(): Provider {
      match this
      case GoogleWorkspaceCredentials(_, _) => GoogleWorkspace
      case Microsoft365Credentials(_, _, _) => Microsoft365
      case GenericImapCredentials(_, _, _, _, _, _) => GenericImap
      case PstImportCredentials(_, _) => PstImport
      case EmlImportCredentials(_, _) => EmlImport
      case MboxImportCredentials(_, _) => MboxImport
    }
  }

  /** `SyncState`: a JSON object of per-provider cursors and an optional
      `statusMessage`; the model keeps it as a JSON value. */
  type SyncState = Json.Value

  /** An ingestion source with its credentials decrypted. Timestamps are
      opaque ticks supplied by the caller. */
  datatype IngestionSource = IngestionSource(
    id: string,
    userId: string,
    name: string,
    provider: Provider,
    status: Status,
    credentials: Credentials,
    lastSyncStartedAt: Option<nat>,
    lastSyncFinishedAt: Option<nat>,
    lastSyncStatusMessage: Option<string>,
    syncState: SyncState)

  /** `MailboxUser` */
  datatype MailboxUser = MailboxUser(id: string, primaryEmail: string, displayName: string)

  /** `ProcessMailboxError` */
  datatype ProcessMailboxError = ProcessMailboxError(error: bool, message: string)

  /** `EmailAddress` as the connectors build it. */
  datatype EmailAddress = EmailAddress(name: string, address: string)

  /** An attachment as the connectors hand it over. */
  datatype EmailAttachment = EmailAttachment(filename: string, contentType: string, size: nat, content: Bytes)

  /** `EmailObject`: one message yielded by a connector. `eml` is absent for
      connectors that do not keep the raw message. */
  datatype EmailObject = EmailObject(
    id: string,
    threadId: Option<string>,
    from: seq<EmailAddress>,
    to: seq<EmailAddress>,
    cc: seq<EmailAddress>,
    bcc: seq<EmailAddress>,
    subject: string,
    body: string,
    html: string,
    headers: map<string, Json.Value>,
    attachments: seq<EmailAttachment>,
    receivedAt: nat,
    eml: Option<Bytes>,
    path: string,
    tags: Option<seq<string>>)

  /** The jobs the ingestion queue and the flow producer carry. */
  datatype Job =
    | InitialImport(sourceId: string)
    | ContinuousSync(sourceId: string)
    | ProcessMailbox(sourceId: string, userEmail: string)
    | SyncCycleFinished(sourceId: string, isInitialImport: bool, children: seq<Job>)
  {
    /** The source the job is about (`job.data.ingestionSourceId`). */
    function SourceId(): string {
      match this
      case InitialImport(s) => s
      case ContinuousSync(s) => s
      case ProcessMailbox(s, _) => s
      case SyncCycleFinished(s, _, _) => s
    }
  }
}
