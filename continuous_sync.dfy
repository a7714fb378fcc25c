/** The `continuous-sync` job: for a source that is `active` or in `error`,
    marks it `syncing`, lists its mailboxes and fans out one
    `process-mailbox` child per mailbox with an address under a
    `sync-cycle-finished` barrier. */
module ContinuousSyncProcessor {
  import opened Wrappers
  import opened IngestionTypes
  import opened ArchiveStore
  import IngestionService

  /** The statuses a continuous sync starts from. */
  predicate Syncable(s: Status) {
    s == Status.Active || s == Error
  }

  /** The update made before the mailboxes are listed. */
  function SyncingUpdate(now: nat): IngestionService.SourceUpdate {
    IngestionService.NoUpdate.(status := Some(Syncing), lastSyncStartedAt := Some(now))
  }

  const UnknownSyncError := "An unknown error occurred during sync."

  /** The children and their barrier, as queued: nothing when there are no
      children. */
  function Fanout(sourceId: string, jobs: seq<Job>): (r: seq<QueuedJob>)
    ensures jobs == [] ==> r == []
    ensures jobs != [] ==> r == Queued(jobs) + [QueuedJob(SyncCycleFinished(sourceId, false, jobs), WaitingChildren)]
  {
    if jobs == [] then [] else Queued(jobs) + [QueuedJob(SyncCycleFinished(sourceId, false, jobs), WaitingChildren)]
  }

  /** The loop over the listed mailboxes: a `process-mailbox` job for each
      one with an address, in listing order. */
  method CollectJobs(sourceId: string, users: seq<MailboxUser>) returns (jobs: seq<Job>)
    ensures jobs == IngestionService.MailboxJobs(sourceId, users)
  {
    jobs := [];
    for i := 0 to |users|
      invariant jobs == IngestionService.MailboxJobs(sourceId, users[..i])
    {
      assert users[..i + 1][..i] == users[..i];
      if users[i].primaryEmail != "" {
        jobs := jobs + [ProcessMailbox(sourceId, users[i].primaryEmail)];
      }
    }
    assert users[..|users|] == users;
  }

  /** The barrier is created exactly when some listed mailbox has an
      address, and it waits for exactly those mailboxes' jobs. */
  lemma BarrierIffSomeAddress(sourceId: string, users: seq<MailboxUser>)
    ensures IngestionService.MailboxJobs(sourceId, users) != [] <==> exists u :: u in users && u.primaryEmail != ""
  {
    IngestionService.MailboxJobsMembers(sourceId, users);
    var jobs := IngestionService.MailboxJobs(sourceId, users);
    if jobs != [] {
      assert jobs[0] in jobs;
    }
  }

  /** The job for source `sourceId`. `users` are the mailboxes the
      connector lists before it ends, or before it throws `failure`; `now`
      is the clock. A source that cannot be loaded fails the job with the
      loading error; a listing failure is recorded on the source and thrown
      again. */
  method Process(db: Archive, sourceId: string, users: seq<MailboxUser>, failure: Option<Thrown>, now: nat)
    returns (r: Outcome)
    requires db.Valid()
    modifies db
    ensures db.Valid()
    ensures db.emails == old(db.emails) && db.attachments == old(db.attachments)
    ensures db.links == old(db.links) && db.index == old(db.index)
    ensures old(IngestionService.FindById(db, sourceId)).Err? ==>
      r == Fail(old(IngestionService.FindById(db, sourceId)).error) &&
      db.sources == old(db.sources) && db.queue == old(db.queue)
    ensures old(IngestionService.FindById(db, sourceId)).Ok? && !Syncable(old(db.sources)[sourceId].status) ==>
      r == Pass && db.sources == old(db.sources) && db.queue == old(db.queue)
    ensures old(IngestionService.FindById(db, sourceId)).Ok? && Syncable(old(db.sources)[sourceId].status) ==>
      var syncing := IngestionService.ApplyUpdate(old(db.sources)[sourceId], SyncingUpdate(now));
      (failure.None? ==>
        r == Pass && db.sources == old(db.sources)[sourceId := syncing] &&
        db.queue == old(db.queue) + Fanout(sourceId, IngestionService.MailboxJobs(sourceId, users))) &&
      (failure.Some? ==>
        var message := failure.value.Message(UnknownSyncError);
        r == Fail(message) && db.queue == old(db.queue) &&
        db.sources == old(db.sources)[sourceId := IngestionService.ApplyUpdate(syncing,
          IngestionService.ErrorUpdate(now, message))])
  {
    var found := IngestionService.FindById(db, sourceId);
    if found.Err? {
      return Fail(found.error);
    }
    var source := found.value;
    if !Syncable(source.status) {
      return Pass;
    }
    var _ := IngestionService.Update(db, sourceId, SyncingUpdate(now));
    var jobs := CollectJobs(source.id, users);
    if failure.Some? {
      var message := failure.value.Message(UnknownSyncError);
      var _ := IngestionService.Update(db, sourceId, IngestionService.ErrorUpdate(now, message));
      return Fail(message);
    }
    if |jobs| > 0 {
      db.EnqueueFlow(SyncCycleFinished(sourceId, false, jobs), jobs);
    }
    return Pass;
  }
}
