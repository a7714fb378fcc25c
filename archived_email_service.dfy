/** `ArchivedEmailService`: the paged listing of a source's archived emails,
    reading one email with its thread and attachments, and deleting an email
    together with the attachments no other email still links. */
module ArchivedEmailService {
  import opened Wrappers
  import opened IngestionTypes
  import opened ArchiveStore
  import Storage

  // ---------------------------------------------------------------------------
  // Recipients
  // ---------------------------------------------------------------------------

  /** `Recipient` as the API returns it. */
  datatype Recipient = Recipient(name: string, email: string)

  /** Each address as a recipient, in order. */
  function ToRecipients(xs: seq<EmailAddress>): (r: seq<Recipient>)
    ensures |r| == |xs|
    ensures forall i :: 0 <= i < |xs| ==> r[i] == Recipient(xs[i].name, xs[i].address)
  {
    if xs == [] then [] else [Recipient(xs[0].name, xs[0].address)] + ToRecipients(xs[1..])
  }

  /** `mapRecipients`: the `to`, then `cc`, then `bcc` addresses of the
      stored column, a missing group counting as empty. */
  function MapRecipients(to: Option<seq<EmailAddress>>, cc: Option<seq<EmailAddress>>, bcc: Option<seq<EmailAddress>>)
    : (r: seq<Recipient>)
    ensures var t, c, b := to.GetOr([]), cc.GetOr([]), bcc.GetOr([]);
      |r| == |t| + |c| + |b| &&
      (forall i :: 0 <= i < |t| ==> r[i] == Recipient(t[i].name, t[i].address)) &&
      (forall i :: 0 <= i < |c| ==> r[|t| + i] == Recipient(c[i].name, c[i].address)) &&
      (forall i :: 0 <= i < |b| ==> r[|t| + |c| + i] == Recipient(b[i].name, b[i].address))
  {
    var t, c, b := to.GetOr([]), cc.GetOr([]), bcc.GetOr([]);
    var all := t + c + b;
    assert forall i :: 0 <= i < |c| ==> all[|t| + i] == c[i];
    assert forall i :: 0 <= i < |b| ==> all[|t| + |c| + i] == b[i];
    ToRecipients(all)
  }

  /** The recipients of a stored row, whose groups are all present. */
  function RowRecipients(row: EmailRow): seq<Recipient> {
    MapRecipients(Some(row.recipients.to), Some(row.recipients.cc), Some(row.recipients.bcc))
  }

  /** An archived email as the API returns it: the row, its recipients in
      API form, and its folder path, an empty path becoming `null`. */
  datatype EmailView = EmailView(id: string, row: EmailRow, recipients: seq<Recipient>, path: Option<string>)

  function View(id: string, row: EmailRow): (r: EmailView)
    ensures r.id == id && r.row == row
    ensures r.path.None? <==> row.path == ""
    ensures r.path.Some? ==> r.path.value == row.path
    ensures |r.recipients| == |row.recipients.to| + |row.recipients.cc| + |row.recipients.bcc|
  {
    EmailView(id, row, RowRecipients(row), if row.path == "" then None else Some(row.path))
  }

  // ---------------------------------------------------------------------------
  // Paging
  // ---------------------------------------------------------------------------

  /** `(page - 1) * limit` */
  function Offset(page: int, limit: int): int {
    (page - 1) * limit
  }

  /** `LIMIT limit OFFSET offset` over rows the database has ordered. */
  function Window<T>(xs: seq<T>, offset: nat, limit: nat): (r: seq<T>)
    ensures |r| <= limit
    ensures |r| == if offset >= |xs| then 0 else if |xs| - offset < limit then |xs| - offset else limit
    ensures forall i :: 0 <= i < |r| ==> r[i] == xs[offset + i]
  {
    if offset >= |xs| then []
    else if |xs| - offset < limit then xs[offset..]
    else xs[offset..offset + limit]
  }

  /** What the listing query selects: every email of the source that the
      caller's filter admits, each once, newest first. */
  ghost predicate OrderedSelection(emails: map<string, EmailRow>, sourceId: string, visible: string -> bool,
                                   ordered: seq<string>)
  {
    (forall i, j :: 0 <= i < j < |ordered| ==> ordered[i] != ordered[j]) &&
    (forall id :: id in ordered <==> id in emails && emails[id].sourceId == sourceId && visible(id)) &&
    (forall i, j :: 0 <= i < j < |ordered| ==> emails[ordered[i]].sentAt >= emails[ordered[j]].sentAt)
  }

  /** `PaginatedArchivedEmails` */
  datatype Paginated = Paginated(items: seq<EmailView>, total: nat, page: int, limit: int)

  /** `getArchivedEmails`: one page of the ordered selection, its size and
      the page and limit asked for; `None` where the database rejects a
      negative offset or limit. */
  function GetArchivedEmails(emails: map<string, EmailRow>, sourceId: string, visible: string -> bool,
                             ordered: seq<string>, page: int, limit: int): (r: Option<Paginated>)
    requires OrderedSelection(emails, sourceId, visible, ordered)
    ensures r.None? <==> Offset(page, limit) < 0 || limit < 0
    ensures r.Some? ==>
      r.value.page == page && r.value.limit == limit && r.value.total == |ordered| && |r.value.items| <= limit &&
      forall i :: 0 <= i < |r.value.items| ==>
        Offset(page, limit) + i < |ordered| &&
        r.value.items[i] == View(ordered[Offset(page, limit) + i], emails[ordered[Offset(page, limit) + i]])
  {
    var offset := Offset(page, limit);
    if offset < 0 || limit < 0 then None
    else
      var ids := Window(ordered, offset, limit);
      Some(Paginated(seq(|ids|, i requires 0 <= i < |ids| => View(ids[i], emails[ids[i]])), |ordered|, page, limit))
  }

  /** The ids on pages `1..n` of a listing, in order. */
  function Pages<T>(xs: seq<T>, limit: nat, n: nat): seq<T> {
    if n == 0 then [] else Pages(xs, limit, n - 1) + Window(xs, Offset(n, limit), limit)
  }

  /** Consecutive pages tile the listing: pages `1..n` are exactly its first
      `n * limit` entries, so every email is on exactly one page. */
  lemma {:induction false} PagesTile<T>(xs: seq<T>, limit: nat, n: nat)
    ensures Pages(xs, limit, n) == xs[..Clip(n * limit, |xs|)]
  {
    if n > 0 {
      PagesTile(xs, limit, n - 1);
      var lo := (n - 1) * limit;
      assert n * limit == lo + limit;
      WindowSlice(xs, lo, limit);
      var a, b := Clip(lo, |xs|), Clip(lo + limit, |xs|);
      assert xs[..b] == xs[..a] + xs[a..b];
    }
  }

  function Clip(x: nat, bound: nat): nat {
    if x < bound then x else bound
  }

  /** A window is the slice between its clipped ends. */
  lemma WindowSlice<T>(xs: seq<T>, offset: nat, limit: nat)
    ensures Window(xs, offset, limit) == xs[Clip(offset, |xs|)..Clip(offset + limit, |xs|)]
  {
  }

  /** A sequence without repetitions has as many elements as its set. */
  lemma {:induction false} DistinctCount(xs: seq<string>)
    requires forall i, j :: 0 <= i < j < |xs| ==> xs[i] != xs[j]
    ensures |set x | x in xs| == |xs|
  {
    if xs != [] {
      var rest := xs[1..];
      DistinctCount(rest);
      assert (set x | x in xs) == {xs[0]} + (set x | x in rest);
      assert xs[0] !in (set x | x in rest);
    }
  }

  /** The reported total is the number of the source's emails the filter
      admits. */
  lemma TotalCountsSelection(emails: map<string, EmailRow>, sourceId: string, visible: string -> bool,
                             ordered: seq<string>, page: int, limit: int)
    requires OrderedSelection(emails, sourceId, visible, ordered)
    requires Offset(page, limit) >= 0 && limit >= 0
    ensures GetArchivedEmails(emails, sourceId, visible, ordered, page, limit).value.total ==
      |set id | id in emails && emails[id].sourceId == sourceId && visible(id)|
  {
    DistinctCount(ordered);
    assert (set x | x in ordered) == (set id | id in emails && emails[id].sourceId == sourceId && visible(id));
  }

  // ---------------------------------------------------------------------------
  // Reading one email
  // ---------------------------------------------------------------------------

  /** What `getArchivedEmailById` returns: the email, its raw `.eml`, the
      ids of its thread, and, when it has attachments, their rows. */
  datatype EmailDetail = EmailDetail(view: EmailView, raw: Storage.Bytes, thread: seq<string>,
                                     attachments: Option<set<AttachmentRow>>)

  /** The emails of the same source that share a non-empty thread id. */
  function Thread(emails: map<string, EmailRow>, row: EmailRow): (r: set<string>)
    ensures row.threadId.None? || row.threadId == Some("") ==> r == {}
    ensures forall e :: e in r <==>
      e in emails && row.threadId.Some? && row.threadId.value != "" &&
      emails[e].threadId == row.threadId && emails[e].sourceId == row.sourceId
  {
    if row.threadId.Some? && row.threadId.value != "" then
      set e | e in emails && emails[e].threadId == row.threadId && emails[e].sourceId == row.sourceId
    else {}
  }

  /** What the thread query returns: every email of the thread, each once,
      oldest first (`orderBy(asc(sentAt))`); the order among emails sent at
      the same time is the database's. */
  ghost predicate OrderedThread(emails: map<string, EmailRow>, row: EmailRow, thread: seq<string>) {
    (forall i, j :: 0 <= i < j < |thread| ==> thread[i] != thread[j]) &&
    (forall e :: e in thread <==> e in Thread(emails, row)) &&
    (forall i, j :: 0 <= i < j < |thread| && thread[i] in emails && thread[j] in emails ==>
       emails[thread[i]].sentAt <= emails[thread[j]].sentAt)
  }

  /** `getArchivedEmailById`: `null` for a missing email and for one the
      caller may not read; otherwise the email with its raw content read from
      `objects`, whose absence makes `storage.get` throw (the error carries the
      missing path). `thread` is the
      thread query's answer. */
  function GetArchivedEmailById(db: Archive, objects: map<string, Storage.Bytes>, emailId: string,
                                canRead: EmailRow -> bool, thread: seq<string>): (r: Result<Option<EmailDetail>>)
    requires db.Valid()
    requires emailId in db.emails ==> OrderedThread(db.emails, db.emails[emailId], thread)
    reads db
    ensures r.Ok? && r.value.None? <==> emailId !in db.emails || !canRead(db.emails[emailId])
    ensures r.Err? <==> emailId in db.emails && canRead(db.emails[emailId]) && db.emails[emailId].storagePath !in objects
    ensures r.Ok? && r.value.Some? ==>
      var row := db.emails[emailId];
      var detail := r.value.value;
      detail.view == View(emailId, row) &&
      detail.raw == objects[row.storagePath] &&
      detail.thread == thread && |detail.thread| == |Thread(db.emails, row)| &&
      (detail.attachments.Some? <==> row.hasAttachments) &&
      (detail.attachments.Some? ==> forall a :: a in detail.attachments.value <==>
         exists h :: (emailId, h) in db.links && a == db.attachments[h])
  {
    if emailId !in db.emails then Ok(None)
    else
      var row := db.emails[emailId];
      if !canRead(row) then Ok(None)
      else if row.storagePath !in objects then Err(row.storagePath)
      else
        DistinctCount(thread);
        assert (set x | x in thread) == Thread(db.emails, row);
        var attachments := if row.hasAttachments then Some(set h | h in db.LinkedTo(emailId) :: db.attachments[h]) else None;
        Ok(Some(EmailDetail(View(emailId, row), objects[row.storagePath], thread, attachments)))
  }

  /** An email with a non-empty thread id is part of its own thread. */
  lemma OwnThread(emails: map<string, EmailRow>, id: string)
    requires id in emails && emails[id].threadId.Some? && emails[id].threadId.value != ""
    ensures id in Thread(emails, emails[id])
  {
  }

  // ---------------------------------------------------------------------------
  // Deleting an email
  // ---------------------------------------------------------------------------

  /** `emailId` is the only email that links the attachment `h`: the count
      query returns 1. */
  predicate SoleReferrer(links: set<(string, string)>, emailId: string, h: string) {
    (emailId, h) in links && |Referrers(links, h)| == 1
  }

  /** The attachments among `hs` that `emailId` alone links. */
  function Orphans(links: set<(string, string)>, emailId: string, hs: set<string>): (r: set<string>)
    ensures forall h :: h in r <==> h in hs && SoleReferrer(links, emailId, h)
  {
    set h | h in hs && SoleReferrer(links, emailId, h)
  }

  /** The storage paths of the attachment rows `hs`. */
  function PathsOf(attachments: map<string, AttachmentRow>, hs: set<string>): (r: set<string>)
    ensures forall p :: p in r <==> exists h :: h in hs && h in attachments && attachments[h].storagePath == p
  {
    set h | h in hs && h in attachments :: attachments[h].storagePath
  }

  /** The only referrer of `h` is `emailId` exactly when the count is 1 and
      `emailId` is a referrer. */
  lemma SoleReferrerIff(links: set<(string, string)>, emailId: string, h: string)
    ensures SoleReferrer(links, emailId, h) <==> Referrers(links, h) == {emailId}
  {
    var rs := Referrers(links, h);
    if SoleReferrer(links, emailId, h) {
      assert emailId in rs;
      if rs != {emailId} {
        var other :| other in rs && other != emailId;
        assert {emailId, other} <= rs;
        assert |{emailId, other}| == 2;
        SubsetCount({emailId, other}, rs);
        assert false;
      }
    }
    if rs == {emailId} {
      assert |rs| == 1;
    }
  }

  lemma {:induction false} SubsetCount(a: set<string>, b: set<string>)
    requires a <= b
    ensures |a| <= |b|
    decreases |b|
  {
    if a != {} {
      var x :| x in a;
      SubsetCount(a - {x}, b - {x});
    }
  }

  /** Removing links of `emailId` to other attachments does not change who
      links `h`. */
  lemma ReferrersFrame(links: set<(string, string)>, emailId: string, gone: set<string>, h: string)
    requires h !in gone
    ensures Referrers(LinksWithout(links, emailId, gone), h) == Referrers(links, h)
  {
    var kept := LinksWithout(links, emailId, gone);
    forall e ensures e in Referrers(kept, h) <==> e in Referrers(links, h) {
      assert (e, h) in kept <==> (e, h) in links;
    }
  }

  /** Deleting the link from `emailId` to `h` removes exactly that referrer. */
  lemma ReferrersUnlink(links: set<(string, string)>, emailId: string, h: string)
    ensures Referrers(links - {(emailId, h)}, h) == Referrers(links, h) - {emailId}
  {
    forall e ensures e in Referrers(links - {(emailId, h)}, h) <==> e in Referrers(links, h) - {emailId} {
    }
  }

  /** One pass of the loop in `deleteArchivedEmail`, for the attachment `h`
      linked to `emailId`: if the email is its only referrer the stored
      object, the link and the row are deleted, otherwise only the link.
      Returns `false` when deleting the stored object fails (its path is in
      `failing`), in which case nothing has changed. */
  method DetachAttachment(db: Archive, storage: Storage.Store, emailId: string, h: string, failing: set<string>)
    returns (ok: bool)
    requires db.Valid() && (emailId, h) in db.links
    modifies db, storage
    ensures db.Valid()
    ensures db.sources == old(db.sources) && db.emails == old(db.emails)
    ensures db.index == old(db.index) && db.queue == old(db.queue)
    ensures var sole := SoleReferrer(old(db.links), emailId, h);
      var path := old(db.attachments)[h].storagePath;
      (ok <==> !(sole && path in failing)) &&
      (ok ==>
        db.links == old(db.links) - {(emailId, h)} &&
        db.attachments == (if sole then old(db.attachments) - {h} else old(db.attachments)) &&
        storage.objects == (if sole then old(storage.objects) - {path} else old(storage.objects))) &&
      (!ok ==>
        db.links == old(db.links) && db.attachments == old(db.attachments) && storage.objects == old(storage.objects))
  {
    var path := db.attachments[h].storagePath;
    if db.RefCount(h) == 1 {
      if path in failing {
        return false;
      }
      storage.Delete(path);
      db.Unlink(emailId, h);
      SoleReferrerIff(old(db.links), emailId, h);
      ReferrersUnlink(old(db.links), emailId, h);
      db.RemoveAttachment(h);
    } else {
      db.Unlink(emailId, h);
    }
    return true;
  }

  /** The links left after the pass over `visited`. */
  function LinksWithout(links: set<(string, string)>, emailId: string, visited: set<string>): set<(string, string)> {
    set l | l in links && !(l.0 == emailId && l.1 in visited)
  }

  /** The loop of `deleteArchivedEmail` over the attachments linked to
      `emailId`, in whatever order the database returns them. `false` when a
      stored object could not be deleted; the passes before it stay done. */
  method DetachAll(db: Archive, storage: Storage.Store, emailId: string, failing: set<string>) returns (ok: bool)
    requires db.Valid()
    modifies db, storage
    ensures db.Valid()
    ensures db.sources == old(db.sources) && db.queue == old(db.queue)
    ensures db.emails == old(db.emails) && db.index == old(db.index)
    ensures var linked := old(db.LinkedTo(emailId));
      var orphans := Orphans(old(db.links), emailId, linked);
      (ok <==> forall h :: h in orphans ==> old(db.attachments)[h].storagePath !in failing) &&
      (!ok ==>
        exists visited :: visited <= linked && db.links == LinksWithout(old(db.links), emailId, visited) &&
          db.attachments == old(db.attachments) - Orphans(old(db.links), emailId, visited) &&
          storage.objects == old(storage.objects) - PathsOf(old(db.attachments), Orphans(old(db.links), emailId, visited))) &&
      (ok ==>
        db.links == LinksWithout(old(db.links), emailId, linked) &&
        db.attachments == old(db.attachments) - orphans &&
        storage.objects == old(storage.objects) - PathsOf(old(db.attachments), orphans))
  {
    ghost var links0, attachments0, objects0 := db.links, db.attachments, storage.objects;
    ghost var linked := db.LinkedTo(emailId);
    ghost var orphans := Orphans(links0, emailId, linked);
    var remaining := db.LinkedTo(emailId);
    ghost var visited: set<string> := {};
    while remaining != {}
      invariant db.Valid()
      invariant remaining + visited == linked && remaining !! visited
      invariant db.sources == old(db.sources) && db.queue == old(db.queue)
      invariant db.emails == old(db.emails) && db.index == old(db.index)
      invariant db.links == LinksWithout(links0, emailId, visited)
      invariant db.attachments == attachments0 - Orphans(links0, emailId, visited)
      invariant storage.objects == objects0 - PathsOf(attachments0, Orphans(links0, emailId, visited))
      invariant forall h :: h in Orphans(links0, emailId, visited) ==> attachments0[h].storagePath !in failing
      decreases remaining
    {
      var h :| h in remaining;
      DetachStep(links0, attachments0, objects0, emailId, visited, h);
      ok := DetachAttachment(db, storage, emailId, h, failing);
      if !ok {
        assert visited <= linked;
        return;
      }
      visited := visited + {h};
      remaining := remaining - {h};
    }
    assert visited == linked;
    assert Orphans(links0, emailId, visited) == orphans;
    return true;
  }

  /** `deleteArchivedEmail`: visits the attachments of an email that has
      any, deleting those no other email links; a failed object deletion
      there ends the operation with `Failed to delete email attachments`
      and the email stays. Then the email's own object is deleted, outside
      any `try`: when that fails (its path is in `failing`) the storage
      provider's error, `storageError`, propagates and the row and search
      document stay, while the attachment passes already done stay done.
      Otherwise the email's search document and row are deleted. */
  method DeleteArchivedEmail(db: Archive, storage: Storage.Store, emailId: string, failing: set<string>,
                             storageError: string)
    returns (r: Outcome)
    requires db.Valid()
    modifies db, storage
    ensures db.Valid()
    ensures db.sources == old(db.sources) && db.queue == old(db.queue)
    ensures emailId !in old(db.emails) ==>
      r == Fail("Archived email not found") && db.emails == old(db.emails) && db.links == old(db.links) &&
      db.attachments == old(db.attachments) && db.index == old(db.index) && storage.objects == old(storage.objects)
    ensures emailId in old(db.emails) ==>
      var email := old(db.emails)[emailId];
      var linked := old(db.LinkedTo(emailId));
      var orphans := Orphans(old(db.links), emailId, linked);
      var detached := forall h :: h in orphans ==> old(db.attachments)[h].storagePath !in failing;
      (!detached ==>
        r == Fail("Failed to delete email attachments") &&
        db.emails == old(db.emails) && db.index == old(db.index) &&
        exists visited :: visited <= linked && db.links == LinksWithout(old(db.links), emailId, visited) &&
          db.attachments == old(db.attachments) - Orphans(old(db.links), emailId, visited) &&
          storage.objects == old(storage.objects) - PathsOf(old(db.attachments), Orphans(old(db.links), emailId, visited))) &&
      (detached ==>
        db.links == LinksWithout(old(db.links), emailId, linked) &&
        db.attachments == old(db.attachments) - orphans) &&
      (detached && email.storagePath in failing ==>
        r == Fail(storageError) &&
        db.emails == old(db.emails) && db.index == old(db.index) &&
        storage.objects == old(storage.objects) - PathsOf(old(db.attachments), orphans)) &&
      (detached && email.storagePath !in failing ==>
        r == Pass &&
        db.emails == old(db.emails) - {emailId} && db.index == old(db.index) - {emailId} &&
        storage.objects == old(storage.objects) - PathsOf(old(db.attachments), orphans) - {email.storagePath})
  {
    if emailId !in db.emails {
      return Fail("Archived email not found");
    }
    var email := db.emails[emailId];
    ghost var links0, attachments0 := db.links, db.attachments;
    ghost var linked := db.LinkedTo(emailId);
    if email.hasAttachments {
      var ok := DetachAll(db, storage, emailId, failing);
      if !ok {
        return Fail("Failed to delete email attachments");
      }
    } else {
      assert linked == {};
      assert LinksWithout(links0, emailId, linked) == links0;
      assert Orphans(links0, emailId, linked) == {};
      assert PathsOf(attachments0, {}) == {};
    }
    if email.storagePath in failing {
      return Fail(storageError);
    }
    storage.Delete(email.storagePath);
    db.Unindex(emailId);
    assert db.LinkedTo(emailId) == {};
    db.RemoveEmail(emailId);
    return Pass;
  }

  /** One pass of the loop, on values: unlinking `h` from `emailId` after
      the pass over `visited` leaves what the pass over `visited + {h}`
      leaves, and `emailId` is still the sole referrer of `h` exactly when
      it was at the start. */
  lemma DetachStep(links0: set<(string, string)>, attachments0: map<string, AttachmentRow>, objects0: map<string, Storage.Bytes>,
                   emailId: string, visited: set<string>, h: string)
    requires h !in visited && (emailId, h) in links0
    ensures (emailId, h) in LinksWithout(links0, emailId, visited)
    ensures SoleReferrer(LinksWithout(links0, emailId, visited), emailId, h) <==> SoleReferrer(links0, emailId, h)
    ensures LinksWithout(links0, emailId, visited) - {(emailId, h)} == LinksWithout(links0, emailId, visited + {h})
    ensures SoleReferrer(links0, emailId, h) ==>
      (attachments0 - Orphans(links0, emailId, visited)) - {h} == attachments0 - Orphans(links0, emailId, visited + {h})
    ensures !SoleReferrer(links0, emailId, h) ==>
      attachments0 - Orphans(links0, emailId, visited) == attachments0 - Orphans(links0, emailId, visited + {h})
    ensures SoleReferrer(links0, emailId, h) && h in attachments0 ==>
      (objects0 - PathsOf(attachments0, Orphans(links0, emailId, visited))) - {attachments0[h].storagePath} ==
        objects0 - PathsOf(attachments0, Orphans(links0, emailId, visited + {h}))
    ensures !SoleReferrer(links0, emailId, h) ==>
      objects0 - PathsOf(attachments0, Orphans(links0, emailId, visited)) ==
        objects0 - PathsOf(attachments0, Orphans(links0, emailId, visited + {h}))
  {
    ReferrersFrame(links0, emailId, visited, h);
    OrphansStep(links0, attachments0, emailId, visited, h);
  }

  /** Visiting one more attachment extends the orphans, and their paths,
      by that attachment alone. */
  lemma OrphansStep(links: set<(string, string)>, attachments: map<string, AttachmentRow>, emailId: string,
                    visited: set<string>, h: string)
    ensures Orphans(links, emailId, visited + {h}) ==
      Orphans(links, emailId, visited) + (if SoleReferrer(links, emailId, h) then {h} else {})
    ensures h in attachments && SoleReferrer(links, emailId, h) ==>
      PathsOf(attachments, Orphans(links, emailId, visited + {h})) ==
        PathsOf(attachments, Orphans(links, emailId, visited)) + {attachments[h].storagePath}
    ensures !SoleReferrer(links, emailId, h) ==>
      PathsOf(attachments, Orphans(links, emailId, visited + {h})) == PathsOf(attachments, Orphans(links, emailId, visited))
  {
  }
}
