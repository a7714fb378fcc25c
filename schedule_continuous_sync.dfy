/** The scheduler job: queues one `continuous-sync` job for every source
    that is `active` or in `error`. */
module ScheduleContinuousSyncProcessor {
  import opened IngestionTypes
  import opened ArchiveStore
  import ContinuousSyncProcessor

  /** The ids the `select … where status in ('active', 'error')` returns. */
  function Selected(sources: map<string, SourceRow>): (r: set<string>)
    ensures forall id :: id in r <==> id in sources && ContinuousSyncProcessor.Syncable(sources[id].status)
  {
    set id | id in sources && ContinuousSyncProcessor.Syncable(sources[id].status)
  }

  /** One `continuous-sync` job per id, in the given order. */
  function SyncJobs(ids: seq<string>): (r: seq<Job>)
    ensures |r| == |ids|
    ensures forall i :: 0 <= i < |ids| ==> r[i] == ContinuousSync(ids[i])
  {
    if ids == [] then [] else SyncJobs(ids[..|ids| - 1]) + [ContinuousSync(ids[|ids| - 1])]
  }

  /** No id twice. */
  predicate Distinct(ids: seq<string>) {
    forall i, j :: 0 <= i < j < |ids| ==> ids[i] != ids[j]
  }

  /** The scheduler. `order` is the order in which the query returned the
      selected sources: each of them exactly once. */
  method Schedule(db: Archive) returns (order: seq<string>)
    requires db.Valid()
    modifies db
    ensures db.Valid()
    ensures Distinct(order) && forall id :: id in order <==> id in Selected(old(db.sources))
    ensures db.queue == old(db.queue) + Queued(SyncJobs(order))
    ensures db.sources == old(db.sources) && db.emails == old(db.emails) && db.attachments == old(db.attachments)
    ensures db.links == old(db.links) && db.index == old(db.index)
  {
    order := Enumerate(Selected(db.sources));
    EnqueueSyncJobs(db, order);
  }

  /** The loop over the selected rows: one `continuous-sync` job each, in
      order. */
  method EnqueueSyncJobs(db: Archive, ids: seq<string>)
    requires db.Valid()
    modifies db
    ensures db.Valid()
    ensures db.queue == old(db.queue) + Queued(SyncJobs(ids))
    ensures db.sources == old(db.sources) && db.emails == old(db.emails) && db.attachments == old(db.attachments)
    ensures db.links == old(db.links) && db.index == old(db.index)
  {
    ghost var start := db.queue;
    for i := 0 to |ids|
      invariant db.Valid()
      invariant db.queue == start + Queued(SyncJobs(ids[..i]))
      invariant db.sources == old(db.sources) && db.emails == old(db.emails) && db.attachments == old(db.attachments)
      invariant db.links == old(db.links) && db.index == old(db.index)
    {
      db.Enqueue(ContinuousSync(ids[i]));
      QueuedSyncJobsStep(ids[..i], ids[i]);
      assert ids[..i + 1] == ids[..i] + [ids[i]];
    }
    assert ids[..|ids|] == ids;
  }

  /** The rows of the query, in the order the database returns them. */
  method Enumerate(ids: set<string>) returns (order: seq<string>)
    ensures Distinct(order) && forall id :: id in order <==> id in ids
  {
    var remaining := ids;
    order := [];
    while remaining != {}
      invariant Enumerates(order, remaining, ids)
      decreases |remaining|
    {
      var id :| id in remaining;
      EnumeratesStep(order, remaining, ids, id);
      order := order + [id];
      remaining := remaining - {id};
    }
  }

  /** `order` lists, each once, the selected ids that are no longer `remaining`. */
  ghost predicate Enumerates(order: seq<string>, remaining: set<string>, selected: set<string>) {
    Distinct(order) &&
    (forall id :: id in order ==> id !in remaining) &&
    (forall id :: id in order || id in remaining <==> id in selected)
  }

  lemma EnumeratesStep(order: seq<string>, remaining: set<string>, selected: set<string>, id: string)
    requires Enumerates(order, remaining, selected) && id in remaining
    ensures Enumerates(order + [id], remaining - {id}, selected)
  {
  }

  /** What one more id adds to the queued jobs. */
  lemma QueuedSyncJobsStep(ids: seq<string>, id: string)
    ensures Queued(SyncJobs(ids + [id])) == Queued(SyncJobs(ids)) + [QueuedJob(ContinuousSync(id), Waiting)]
  {
    assert (ids + [id])[..|ids|] == ids;
  }

  /** A source gets a job exactly when it is `active` or in `error`; a
      source in any other status, or an id that names no source, gets none. */
  lemma JobsExactlyForSyncable(sources: map<string, SourceRow>, order: seq<string>, id: string)
    requires forall x :: x in order <==> x in Selected(sources)
    ensures ContinuousSync(id) in SyncJobs(order) <==>
      id in sources && (sources[id].status == Status.Active || sources[id].status == Error)
  {
    if ContinuousSync(id) in SyncJobs(order) {
      var i :| 0 <= i < |order| && SyncJobs(order)[i] == ContinuousSync(id);
      assert order[i] == id;
    }
    if id in sources && (sources[id].status == Status.Active || sources[id].status == Error) {
      assert id in Selected(sources);
      var i :| 0 <= i < |order| && order[i] == id;
      assert SyncJobs(order)[i] == ContinuousSync(id);
    }
  }
}
