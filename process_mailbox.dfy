/** The `process-mailbox` job: archives every email a connector yields for
    one mailbox, collecting what `processEmail` hands back into batches for
    the search index, and turns any error into a result value so that the
    sync cycle's barrier can report it. */
module ProcessMailboxProcessor {
  import opened Wrappers
  import Json
  import opened IngestionTypes
  import opened ArchiveStore
  import Storage
  import EmailProviderFactory
  import IngestionService
  import SyncCycleFinishedProcessor

  type Bytes = IngestionTypes.Bytes

  // ---------------------------------------------------------------------------
  // Batches
  // ---------------------------------------------------------------------------

  /** The batches concatenated. */
  function Flatten<T>(blocks: seq<seq<T>>): (r: seq<T>)
  {
    if blocks == [] then [] else blocks[0] + Flatten(blocks[1..])
  }

  lemma {:induction false} FlattenAppend<T>(blocks: seq<seq<T>>, b: seq<T>)
    ensures Flatten(blocks + [b]) == Flatten(blocks) + b
  {
    if blocks == [] {
      assert [] + [b] == [b];
      assert Flatten([b]) == b + Flatten([b][1..]);
    } else {
      assert (blocks + [b])[1..] == blocks[1..] + [b];
      FlattenAppend(blocks[1..], b);
    }
  }

  /** The batch length at which the batch is sent: `length >= BATCH_SIZE`
      holds after the first push for any size below 2. */
  function Threshold(batchSize: int): (t: nat)
    ensures t >= 1 && (batchSize >= 1 ==> t == batchSize)
  {
    if batchSize <= 1 then 1 else batchSize
  }

  /** `items` cut into batches of `t`, the last one possibly shorter. */
  function Chunks<T>(items: seq<T>, t: nat): (r: seq<seq<T>>)
    requires t >= 1
    decreases |items|
  {
    if items == [] then []
    else if |items| <= t then [items]
    else [items[..t]] + Chunks(items[t..], t)
  }

  /** Cutting into batches loses, repeats and reorders nothing, and every
      batch holds between one and `t` items. */
  lemma {:induction false} ChunksSpec<T>(items: seq<T>, t: nat)
    requires t >= 1
    ensures Flatten(Chunks(items, t)) == items
    ensures forall i :: 0 <= i < |Chunks(items, t)| ==> 1 <= |Chunks(items, t)[i]| <= t
    decreases |items|
  {
    if items != [] && |items| > t {
      ChunksSpec(items[t..], t);
      assert items == items[..t] + items[t..];
      var r := Chunks(items, t);
      assert r[1..] == Chunks(items[t..], t);
      forall i | 0 <= i < |r| ensures 1 <= |r[i]| <= t {
        if i > 0 {
          assert r[i] == Chunks(items[t..], t)[i - 1];
        }
      }
    } else if items != [] {
      assert Chunks(items, t) == [items];
      assert [items][1..] == [];
    }
  }

  /** Every batch is full. */
  predicate AllFull<T>(blocks: seq<seq<T>>, t: nat) {
    forall i :: 0 <= i < |blocks| ==> |blocks[i]| == t
  }

  /** Full batches followed by a short remainder are the batches of what they hold. */
  lemma {:induction false} ChunksOfFull<T>(blocks: seq<seq<T>>, tail: seq<T>, t: nat)
    requires t >= 1 && AllFull(blocks, t) && |tail| < t
    ensures Chunks(Flatten(blocks) + tail, t) == blocks + (if tail == [] then [] else [tail])
  {
    if blocks == [] {
      assert Flatten(blocks) + tail == tail;
    } else {
      ChunksOfFull(blocks[1..], tail, t);
      var items := Flatten(blocks) + tail;
      assert items == blocks[0] + (Flatten(blocks[1..]) + tail);
      if blocks[1..] == [] && tail == [] {
        assert items == blocks[0] && blocks == [blocks[0]];
        return;
      }
      if blocks[1..] != [] {
        assert Flatten(blocks[1..]) == blocks[1..][0] + Flatten(blocks[1..][1..]);
        assert |blocks[1..][0]| == t;
      }
      assert |items| > t;
      assert items[..t] == blocks[0];
      assert items[t..] == Flatten(blocks[1..]) + tail;
      assert blocks == [blocks[0]] + blocks[1..];
    }
  }

  /** The items `processEmail` handed back so far are the sent batches
      followed by the open one; every sent batch is full and the open one
      is shorter. */
  ghost predicate Batching<T>(pushed: seq<T>, sent: seq<seq<T>>, batch: seq<T>, t: nat) {
    AllFull(sent, t) && |batch| < t && Flatten(sent) + batch == pushed
  }

  /** What a present value adds to the batch. */
  function Items<T>(o: Option<T>): (r: seq<T>)
    ensures |r| <= 1
  {
    match o
    case Some(v) => [v]
    case None => []
  }

  /** `if (processedEmail) { push; if (length >= BATCH_SIZE) { index; reset } }` */
  method Collect<T>(batch: seq<T>, sent: seq<seq<T>>, processed: Option<T>, t: nat)
    returns (batch': seq<T>, sent': seq<seq<T>>)
    requires t >= 1 && Batching(Flatten(sent) + batch, sent, batch, t)
    ensures Batching(Flatten(sent) + batch + Items(processed), sent', batch', t)
    ensures processed.None? ==> batch' == batch && sent' == sent
  {
    batch', sent' := batch, sent;
    if processed.Some? {
      batch' := batch' + [processed.value];
      if |batch'| >= t {
        FlattenAppend(sent', batch');
        sent' := sent' + [batch'];
        batch' := [];
      }
    }
  }

  /** The flush after the stream, and in the catch block: a non-empty batch
      is sent. */
  method Flush<T>(batch: seq<T>, sent: seq<seq<T>>, ghost pushed: seq<T>, t: nat) returns (sent': seq<seq<T>>)
    requires t >= 1 && Batching(pushed, sent, batch, t)
    ensures sent' == Chunks(pushed, t)
  {
    sent' := sent;
    if |batch| > 0 {
      sent' := sent' + [batch];
    }
    ChunksOfFull(sent, batch, t);
  }

  // ---------------------------------------------------------------------------
  // Results
  // ---------------------------------------------------------------------------

  /** The `ProcessMailboxError` the job returns instead of throwing. */
  function Descriptor(userEmail: string, t: Thrown): (d: ProcessMailboxError)
    ensures d.error
  {
    ProcessMailboxError(true, "Failed to process mailbox for " + userEmail + ": " + t.Message("An unknown error occurred"))
  }

  /** The job's return value: the mailbox's new sync state, or an error descriptor. */
  datatype MailboxResult = State(state: SyncState) | Failure(descriptor: ProcessMailboxError)

  /** The return value as the barrier reads it. */
  function ReturnValue(r: MailboxResult): Json.Value {
    match r
    case State(s) => s
    case Failure(d) => Json.Obj([("error", Json.Bool(d.error)), ("message", Json.Str(d.message))])
  }

  /** `getUpdatedSyncState(userEmail)`: the file connectors keep no cursor
      and return `{}`; the others report the state the fetch left behind. */
  function UpdatedSyncState(connector: EmailProviderFactory.Connector, remote: SyncState): SyncState {
    if connector.PstConnector? || connector.EmlConnector? || connector.MboxConnector? then Json.Obj([])
    else remote
  }

  /** The barrier counts an error descriptor as a failure and lists its
      message; the empty state of a file import is a success that adds
      nothing to the merged sync state. */
  lemma BarrierReadsResults(d: ProcessMailboxError, connector: EmailProviderFactory.Connector, remote: SyncState)
    requires d.error
    ensures SyncCycleFinishedProcessor.Failed(ReturnValue(Failure(d)))
    ensures SyncCycleFinishedProcessor.JoinText(
              SyncCycleFinishedProcessor.Member(ReturnValue(Failure(d)), "message")) == d.message
    ensures connector.PstConnector? || connector.EmlConnector? || connector.MboxConnector? ==>
      !SyncCycleFinishedProcessor.Failed(ReturnValue(State(UpdatedSyncState(connector, remote)))) &&
      !SyncCycleFinishedProcessor.NonEmpty(ReturnValue(State(UpdatedSyncState(connector, remote))))
  {
    var fields := [("error", Json.Bool(d.error)), ("message", Json.Str(d.message))];
    assert Json.Lookup(fields, "error") == Some(Json.Bool(true));
    assert fields[1..][0].0 == "message";
    assert Json.Lookup(fields, "message") == Json.Lookup(fields[1..], "message") == Some(Json.Str(d.message));
  }

  // ---------------------------------------------------------------------------
  // Archiving
  // ---------------------------------------------------------------------------

  /** Rows are only ever added. */
  predicate Grows(before: map<string, EmailRow>, after: map<string, EmailRow>) {
    forall k :: k in before ==> k in after && after[k] == before[k]
  }

  /** Every streamed email before `n` that has a sender is held by the
      source, as a new row or as the duplicate that was already there. */
  predicate ArchivedUpTo(emails: map<string, EmailRow>, stream: seq<Option<EmailObject>>, n: nat,
                         sourceId: string, sha256: Bytes -> string)
    requires n <= |stream|
  {
    forall j :: 0 <= j < n && stream[j].Some? && stream[j].value.from != [] ==>
      IngestionService.IsDuplicate(emails, IngestionService.MessageIdOf(stream[j].value, sourceId, sha256), sourceId)
  }

  lemma ArchivedPersists(before: map<string, EmailRow>, after: map<string, EmailRow>,
                         stream: seq<Option<EmailObject>>, n: nat, sourceId: string, sha256: Bytes -> string)
    requires n <= |stream| && Grows(before, after) && ArchivedUpTo(before, stream, n, sourceId, sha256)
    ensures ArchivedUpTo(after, stream, n, sourceId, sha256)
  {
    forall j | 0 <= j < n && stream[j].Some? && stream[j].value.from != []
      ensures IngestionService.IsDuplicate(after, IngestionService.MessageIdOf(stream[j].value, sourceId, sha256), sourceId)
    {
      var m := IngestionService.MessageIdOf(stream[j].value, sourceId, sha256);
      var id :| id in before && before[id].messageIdHeader == m && before[id].sourceId == sourceId;
      assert id in after && after[id] == before[id];
    }
  }

  /** The part of the store a mailbox job changes: the email, attachment
      and link tables, the search documents and the stored objects. */
  datatype Snapshot = Snapshot(emails: map<string, EmailRow>, attachments: map<string, AttachmentRow>,
                               links: set<(string, string)>, index: map<string, string>,
                               objects: map<string, Bytes>)

  function SnapshotOf(db: Archive, storage: Storage.Store): Snapshot
    reads db, storage
  {
    Snapshot(db.emails, db.attachments, db.links, db.index, storage.objects)
  }

  /** What `processEmail` does to the store for one stream entry, `newId`
      being the id the database would give a new row: a null entry, a
      duplicate, and an email that cannot be inserted (no sender) change
      nothing but, in the last case, the stored `.eml`; any other email adds
      its row, attachments, links and search document. */
  function AfterEntry(s: Snapshot, entry: Option<EmailObject>, source: IngestionSource, userEmail: string,
                      root: string, sha256: Bytes -> string, newId: string): (r: Snapshot)
    ensures forall e :: e in r.emails ==> e in s.emails || e == newId
    ensures newId !in s.emails ==> Grows(s.emails, r.emails)
    ensures entry.None? ==> r == s
    ensures newId in r.emails && newId !in s.emails ==>
      entry.Some? && entry.value.from != [] && r.emails[newId].sourceId == source.id &&
      r.emails[newId].messageIdHeader == IngestionService.MessageIdOf(entry.value, source.id, sha256)
  {
    match entry
    case None => s
    case Some(email) =>
      var m := IngestionService.MessageIdOf(email, source.id, sha256);
      if IngestionService.IsDuplicate(s.emails, m, source.id) then s
      else
        var path := IngestionService.EmailPath(root, source.name, source.id, email.path, email.id);
        var objects := s.objects[path := IngestionService.EmlBuffer(email)];
        if email.from == [] then s.(objects := objects)
        else
          var rows := IngestionService.AttachmentRows(IngestionService.SourceFolder(root, source.name, source.id),
                                                      email.attachments, sha256);
          Snapshot(s.emails[newId := IngestionService.EmailRowFor(email, source, userEmail, m, path,
                                                                  sha256(IngestionService.EmlBuffer(email)))],
                   IngestionService.UpsertAll(s.attachments, rows),
                   s.links + IngestionService.LinksFor(newId, rows),
                   s.index[newId := source.id],
                   IngestionService.PutAll(objects, rows, email.attachments))
  }

  /** `AfterEntry` over the stream in order, entry `i` getting the id `ids[i]`. */
  function AfterStream(s: Snapshot, stream: seq<Option<EmailObject>>, ids: seq<string>, source: IngestionSource,
                       userEmail: string, root: string, sha256: Bytes -> string): (r: Snapshot)
    requires |ids| == |stream|
  {
    if stream == [] then s
    else
      var n := |stream| - 1;
      AfterEntry(AfterStream(s, stream[..n], ids[..n], source, userEmail, root, sha256), stream[n], source,
                 userEmail, root, sha256, ids[n])
  }

  /** One more entry of the stream, for the loop. */
  lemma AfterStreamStep(s: Snapshot, stream: seq<Option<EmailObject>>, ids: seq<string>, source: IngestionSource,
                        userEmail: string, root: string, sha256: Bytes -> string, i: nat)
    requires |ids| == |stream| && i < |stream|
    ensures AfterStream(s, stream[..i + 1], ids[..i + 1], source, userEmail, root, sha256) ==
      AfterEntry(AfterStream(s, stream[..i], ids[..i], source, userEmail, root, sha256), stream[i], source,
                 userEmail, root, sha256, ids[i])
  {
    assert stream[..i + 1][..i] == stream[..i] && ids[..i + 1][..i] == ids[..i];
  }

  /** Ids that are fresh: distinct and unused. */
  predicate FreshIds(ids: seq<string>, emails: map<string, EmailRow>) {
    (forall i, j :: 0 <= i < j < |ids| ==> ids[i] != ids[j]) && (forall i :: 0 <= i < |ids| ==> ids[i] !in emails)
  }

  /** The `i`-th of fresh ids is neither used nor one of the earlier ids. */
  lemma FreshAt(ids: seq<string>, emails: map<string, EmailRow>, i: nat)
    requires FreshIds(ids, emails) && i < |ids|
    ensures ids[i] !in emails && ids[i] !in ids[..i]
  {
  }

  /** Row `e` of `emails` was added for stream entry `i`: it got that
      entry's id, the entry is an email with a sender, and the row carries
      the source's id and the email's message id. */
  predicate RowFromEntry(emails: map<string, EmailRow>, e: string, stream: seq<Option<EmailObject>>, ids: seq<string>,
                         i: int, sourceId: string, sha256: Bytes -> string)
  {
    0 <= i < |stream| && i < |ids| && ids[i] == e && stream[i].Some? && stream[i].value.from != [] &&
    e in emails && emails[e].sourceId == sourceId &&
    emails[e].messageIdHeader == IngestionService.MessageIdOf(stream[i].value, sourceId, sha256)
  }

  /** A row added for an earlier entry is still one once more entries and
      rows follow. */
  lemma RowFromEntryLifts(mid: map<string, EmailRow>, r: map<string, EmailRow>, e: string,
                          stream: seq<Option<EmailObject>>, ids: seq<string>, n: nat, i: int,
                          sourceId: string, sha256: Bytes -> string)
    requires n <= |stream| && n <= |ids| && Grows(mid, r)
    requires RowFromEntry(mid, e, stream[..n], ids[..n], i, sourceId, sha256)
    ensures RowFromEntry(r, e, stream, ids, i, sourceId, sha256)
  {
    assert stream[..n][i] == stream[i] && ids[..n][i] == ids[i];
  }

  /** Over fresh ids, the stream only adds rows: the old rows stay as they
      were, and every new row was given the id of a streamed email with a
      sender and carries that email's identity and the source's id. */
  lemma {:induction false} AfterStreamAddsStreamedRows(s: Snapshot, stream: seq<Option<EmailObject>>, ids: seq<string>,
                                                       source: IngestionSource, userEmail: string, root: string,
                                                       sha256: Bytes -> string)
    requires |ids| == |stream| && FreshIds(ids, s.emails)
    ensures var r := AfterStream(s, stream, ids, source, userEmail, root, sha256);
      Grows(s.emails, r.emails) &&
      forall e :: e in r.emails && e !in s.emails ==>
        exists i :: RowFromEntry(r.emails, e, stream, ids, i, source.id, sha256)
    decreases |stream|
  {
    if stream != [] {
      var n := |stream| - 1;
      var mid := AfterStream(s, stream[..n], ids[..n], source, userEmail, root, sha256);
      assert FreshIds(ids[..n], s.emails);
      AfterStreamAddsStreamedRows(s, stream[..n], ids[..n], source, userEmail, root, sha256);
      forall e | e in mid.emails ensures e != ids[n] {
        if e !in s.emails {
          var i :| RowFromEntry(mid.emails, e, stream[..n], ids[..n], i, source.id, sha256);
          assert ids[..n][i] == ids[i];
        }
      }
      var r := AfterEntry(mid, stream[n], source, userEmail, root, sha256, ids[n]);
      forall e | e in r.emails && e !in s.emails
        ensures exists i :: RowFromEntry(r.emails, e, stream, ids, i, source.id, sha256)
      {
        if e == ids[n] {
          assert RowFromEntry(r.emails, e, stream, ids, n, source.id, sha256);
        } else {
          var i :| RowFromEntry(mid.emails, e, stream[..n], ids[..n], i, source.id, sha256);
          RowFromEntryLifts(mid.emails, r.emails, e, stream, ids, n, i, source.id, sha256);
        }
      }
    }
  }

  /** One stream entry: a null entry is skipped, an email is handed to
      `processEmail`. */
  method ArchiveEntry(db: Archive, storage: Storage.Store, entry: Option<EmailObject>, source: IngestionSource,
                      userEmail: string, root: string, sha256: Bytes -> string, newId: string)
    returns (processed: Option<EmailObject>)
    requires db.Valid() && newId !in db.emails && source.id in db.sources
    modifies db, storage
    ensures db.Valid() && processed.None?
    ensures db.sources == old(db.sources) && db.queue == old(db.queue)
    ensures SnapshotOf(db, storage) == AfterEntry(old(SnapshotOf(db, storage)), entry, source, userEmail, root, sha256, newId)
    ensures entry.Some? && entry.value.from != [] ==>
      IngestionService.IsDuplicate(db.emails, IngestionService.MessageIdOf(entry.value, source.id, sha256), source.id)
  {
    processed := None;
    if entry.Some? {
      var email := entry.value;
      var m := IngestionService.MessageIdOf(email, source.id, sha256);
      ghost var wasDuplicate := IngestionService.IsDuplicate(db.emails, m, source.id);
      processed := IngestionService.ProcessEmail(db, storage, email, source, userEmail, root, sha256, newId);
      if !wasDuplicate && email.from != [] {
        assert db.emails[newId].messageIdHeader == m && db.emails[newId].sourceId == source.id;
      }
    }
  }

  // ---------------------------------------------------------------------------
  // The processor
  // ---------------------------------------------------------------------------

  /** One turn of the stream loop: entry `i` goes through `processEmail`
      with the id `ids[i]`, after the entries before it. */
  method ArchiveStep(db: Archive, storage: Storage.Store, stream: seq<Option<EmailObject>>, source: IngestionSource,
                     userEmail: string, root: string, sha256: Bytes -> string, ids: seq<string>, i: nat,
                     ghost s0: Snapshot, ghost emails0: map<string, EmailRow>)
    returns (processed: Option<EmailObject>)
    requires |ids| == |stream| && i < |stream| && FreshIds(ids, emails0)
    requires db.Valid() && source.id in db.sources
    requires SnapshotOf(db, storage) == AfterStream(s0, stream[..i], ids[..i], source, userEmail, root, sha256)
    requires forall e :: e in db.emails ==> e in emails0 || e in ids[..i]
    requires ArchivedUpTo(db.emails, stream, i, source.id, sha256)
    modifies db, storage
    ensures db.Valid() && db.sources == old(db.sources) && db.queue == old(db.queue) && processed.None?
    ensures SnapshotOf(db, storage) == AfterStream(s0, stream[..i + 1], ids[..i + 1], source, userEmail, root, sha256)
    ensures forall e :: e in db.emails ==> e in emails0 || e in ids[..i + 1]
    ensures ArchivedUpTo(db.emails, stream, i + 1, source.id, sha256)
  {
    ghost var before := db.emails;
    FreshAt(ids, emails0, i);
    processed := ArchiveEntry(db, storage, stream[i], source, userEmail, root, sha256, ids[i]);
    AfterStreamStep(s0, stream, ids, source, userEmail, root, sha256, i);
    assert ids[..i + 1] == ids[..i] + [ids[i]];
    ArchivedPersists(before, db.emails, stream, i, source.id, sha256);
  }

  /** The stream loop of the job: every entry goes through `processEmail`
      in order, and what it hands back is collected into batches. */
  method ArchiveStream(db: Archive, storage: Storage.Store, stream: seq<Option<EmailObject>>, source: IngestionSource,
                       userEmail: string, root: string, sha256: Bytes -> string, ids: seq<string>, t: nat)
    returns (batch: seq<EmailObject>, pushed: seq<EmailObject>, sent: seq<seq<EmailObject>>)
    requires db.Valid() && source.id in db.sources && |ids| == |stream| && FreshIds(ids, db.emails) && t >= 1
    modifies db, storage
    ensures db.Valid() && db.sources == old(db.sources) && db.queue == old(db.queue)
    ensures SnapshotOf(db, storage) == AfterStream(old(SnapshotOf(db, storage)), stream, ids, source, userEmail, root, sha256)
    ensures ArchivedUpTo(db.emails, stream, |stream|, source.id, sha256)
    ensures Batching(pushed, sent, batch, t) && pushed == []
  {
    batch, pushed, sent := [], [], [];
    ghost var s0 := SnapshotOf(db, storage);
    ghost var emails0 := db.emails;
    for i := 0 to |stream|
      invariant db.Valid() && db.sources == old(db.sources) && db.queue == old(db.queue)
      invariant SnapshotOf(db, storage) == AfterStream(s0, stream[..i], ids[..i], source, userEmail, root, sha256)
      invariant forall e :: e in db.emails ==> e in emails0 || e in ids[..i]
      invariant ArchivedUpTo(db.emails, stream, i, source.id, sha256)
      invariant Batching(pushed, sent, batch, t) && pushed == []
    {
      var processed := ArchiveStep(db, storage, stream, source, userEmail, root, sha256, ids, i, s0, emails0);
      batch, sent := Collect(batch, sent, processed, t);
      pushed := pushed + Items(processed);
    }
    assert stream[..|stream|] == stream && ids[..|ids|] == ids;
  }

  /** The job for mailbox `userEmail` of source `sourceId`. The connector
      yields `stream` (null entries included) and then ends, or throws
      `thrown`; `remote` is the state a remote connector reports after the
      fetch; `batchSize` is the configured indexing batch size; `ids` are
      the ids the database generates for new rows, one per entry. Besides
      the result, the method returns what `processEmail` handed back
      (`pushed`) and the batches sent to the index (`sent`). */
  method Process(db: Archive, storage: Storage.Store, sourceId: string, userEmail: string,
                 stream: seq<Option<EmailObject>>, thrown: Option<Thrown>, remote: SyncState, batchSize: int,
                 root: string, sha256: Bytes -> string, ids: seq<string>)
    returns (r: MailboxResult, pushed: seq<EmailObject>, sent: seq<seq<EmailObject>>)
    requires db.Valid() && |ids| == |stream| && FreshIds(ids, db.emails)
    modifies db, storage
    ensures db.Valid()
    ensures db.sources == old(db.sources) && db.queue == old(db.queue)
    ensures sent == Chunks(pushed, Threshold(batchSize))
    ensures pushed == []
    ensures r.Failure? ==> r.descriptor.error
    ensures old(IngestionService.FindById(db, sourceId)).Err? ==>
      r == Failure(Descriptor(userEmail, ErrorThrown(old(IngestionService.FindById(db, sourceId)).error))) &&
      SnapshotOf(db, storage) == old(SnapshotOf(db, storage))
    ensures old(IngestionService.FindById(db, sourceId)).Ok? ==>
      var source := old(IngestionService.FindById(db, sourceId)).value;
      SnapshotOf(db, storage) == AfterStream(old(SnapshotOf(db, storage)), stream, ids, source, userEmail, root, sha256) &&
      ArchivedUpTo(db.emails, stream, |stream|, sourceId, sha256) &&
      (thrown.None? ==>
        r == State(UpdatedSyncState(EmailProviderFactory.ConnectorFor(source.provider, source.credentials), remote))) &&
      (thrown.Some? ==> r == Failure(Descriptor(userEmail, thrown.value)))
  {
    var t := Threshold(batchSize);
    var batch: seq<EmailObject> := [];
    pushed, sent := [], [];
    var found := IngestionService.FindById(db, sourceId);
    if found.Err? {
      sent := Flush(batch, sent, pushed, t);
      return Failure(Descriptor(userEmail, ErrorThrown(found.error))), pushed, sent;
    }
    var source := found.value;
    EmailProviderFactory.SourceGetsItsConnector(source);
    var connector := EmailProviderFactory.CreateConnector(EmailProviderFactory.ProviderTag(source.provider),
                                                          source.credentials).value;
    batch, pushed, sent := ArchiveStream(db, storage, stream, source, userEmail, root, sha256, ids, t);
    sent := Flush(batch, sent, pushed, t);
    if thrown.Some? {
      return Failure(Descriptor(userEmail, thrown.value)), pushed, sent;
    }
    return State(UpdatedSyncState(connector, remote)), pushed, sent;
  }
}
