/**
 * The relationship store and the interaction recorder (record_comment).
 * The Mongo collection is a sequence of user records in its natural order,
 * taken to be insertion order; each record maps the partners its commenter
 * has replied to onto reply counts.
 */
module Store {
  import opened Wrappers
  import opened BestieTable

  /** What a comment replies to: the submission itself, or another comment whose author may be gone. */
  datatype Parent = Submission | Comment(author: Option<string>)

  /** A comment from the stream; author None is a deleted or anonymous account. */
  datatype Event = Event(createdUtc: int, author: Option<string>, parent: Parent, body: string)

  /** One document of the collection: {'commenter': ..., 'besties': {...}}. */
  datatype UserRecord = UserRecord(commenter: string, besties: Table)

  function Commenters(db: seq<UserRecord>): (cs: seq<string>)
    ensures |cs| == |db|
    ensures forall i :: 0 <= i < |db| ==> cs[i] == db[i].commenter
  {
    seq(|db|, i requires 0 <= i < |db| => db[i].commenter)
  }

  /**
   * What the recorder keeps true of the collection: one record per commenter,
   * each besties table a dict, and every count at least 1.
   */
  predicate WellFormed(db: seq<UserRecord>)
  {
    && Distinct(Commenters(db))
    && forall i :: 0 <= i < |db| ==> UniqueKeys(db[i].besties) && Positive(db[i].besties)
  }

  /** find_one({'commenter': name})['besties'], with an exact match on the name. */
  function Lookup(db: seq<UserRecord>, name: string): (r: Option<Table>)
    ensures r.Some? <==> name in Commenters(db)
    ensures r.Some? ==> exists i :: 0 <= i < |db| && db[i] == UserRecord(name, r.value)
  {
    match IndexOf(Commenters(db), name)
    case None => None
    case Some(i) => Some(db[i].besties)
  }

  /** The count stored for partner in name's record; 0 when either is missing. */
  function Count(db: seq<UserRecord>, name: string, partner: string): int
  {
    match Lookup(db, name)
    case None => 0
    case Some(t) => CountOf(t, partner)
  }

  /** record_comment acts only on a comment newer than startup, with an author, that is not top-level. */
  predicate Eligible(e: Event, startupTime: int)
  {
    e.createdUtc > startupTime && !e.parent.Submission? && e.author.Some?
  }

  /** The comment is one more reply by author to a comment of partner. */
  predicate Qualifies(e: Event, startupTime: int, author: string, partner: string)
  {
    Eligible(e, startupTime) && e.author == Some(author) && e.parent == Comment(Some(partner))
  }

  /** insert_one({'commenter': name, 'besties': {}}) unless a record for name exists. */
  function EnsureRecord(db: seq<UserRecord>, name: string): (r: seq<UserRecord>)
    ensures Commenters(r) == if name in Commenters(db) then Commenters(db) else Commenters(db) + [name]
  {
    if IndexOf(Commenters(db), name).Some? then db
    else
      assert Commenters(db + [UserRecord(name, [])]) == Commenters(db) + [name];
      db + [UserRecord(name, [])]
  }

  /** $set besties.partner to 1 the first time, $inc it by 1 afterwards. */
  function Bump(t: Table, partner: string): (r: Table)
    ensures CountOf(r, partner) == CountOf(t, partner) + 1
    ensures forall q :: q != partner ==> Get(r, q) == Get(t, q)
    ensures Partners(r) == if partner in Partners(t) then Partners(t) else Partners(t) + [partner]
    ensures UniqueKeys(t) ==> UniqueKeys(r)
    ensures Positive(t) ==> Positive(r)
  {
    match Get(t, partner)
    case None => Put(t, Entry(partner, 1))
    case Some(c) => Put(t, Entry(partner, c + 1))
  }

  /** Bumps partner in the record of name, which must exist. */
  function AddInteraction(db: seq<UserRecord>, name: string, partner: string): (r: seq<UserRecord>)
    requires name in Commenters(db)
  {
    var i := IndexOf(Commenters(db), name).value;
    db[i := db[i].(besties := Bump(db[i].besties, partner))]
  }

  /** The collection after record_comment has processed one comment. */
  function Apply(db: seq<UserRecord>, e: Event, startupTime: int): seq<UserRecord>
  {
    if !Eligible(e, startupTime) then db
    else
      var author := e.author.value;
      var withRecord := EnsureRecord(db, author);
      if e.parent.author.Some? then AddInteraction(withRecord, author, e.parent.author.value)
      else withRecord
  }

  /** The collection after record_comment has processed each comment of events in turn. */
  function Replay(db: seq<UserRecord>, events: seq<Event>, startupTime: int): seq<UserRecord>
  {
    if events == [] then db
    else Apply(Replay(db, events[..|events| - 1], startupTime), events[|events| - 1], startupTime)
  }

  /** How many of events are replies by author to a comment of partner that the recorder counts. */
  function Qualifying(events: seq<Event>, startupTime: int, author: string, partner: string): nat
  {
    if events == [] then 0
    else
      Qualifying(events[..|events| - 1], startupTime, author, partner)
      + (if Qualifies(events[|events| - 1], startupTime, author, partner) then 1 else 0)
  }

  lemma LookupEnsureRecord(db: seq<UserRecord>, name: string, other: string)
    ensures Lookup(EnsureRecord(db, name), other)
         == if other == name && name !in Commenters(db) then Some([]) else Lookup(db, other)
  {
    if name !in Commenters(db) {
      var r := db + [UserRecord(name, [])];
      IndexOfAppend(Commenters(db), name, other);
    }
  }

  lemma LookupAddInteraction(db: seq<UserRecord>, name: string, partner: string, other: string)
    requires name in Commenters(db)
    ensures Lookup(AddInteraction(db, name, partner), other)
         == if other == name then Some(Bump(Lookup(db, name).value, partner)) else Lookup(db, other)
  {
    var i := IndexOf(Commenters(db), name).value;
    var r := AddInteraction(db, name, partner);
    CommentersUpdate(db, i, Bump(db[i].besties, partner));
    match IndexOf(Commenters(db), other)
    case None =>
    case Some(j) =>
      assert Commenters(db)[j] == other && Commenters(db)[i] == name;
  }

  /** Replacing a table leaves the commenters as they were. */
  lemma CommentersUpdate(db: seq<UserRecord>, i: nat, t: Table)
    requires i < |db|
    ensures Commenters(db[i := db[i].(besties := t)]) == Commenters(db)
  {
    assert forall j :: 0 <= j < |db| ==> db[i := db[i].(besties := t)][j].commenter == db[j].commenter;
  }

  /**
   * One comment changes at most one record, the author's: it is created empty
   * when missing, and its table gains one reply to the parent's author when
   * the parent comment has one. Every other commenter's table is untouched.
   */
  lemma ApplyLookup(db: seq<UserRecord>, e: Event, startupTime: int, name: string)
    ensures Lookup(Apply(db, e, startupTime), name)
         == if Eligible(e, startupTime) && e.author == Some(name) then
              var before := if name in Commenters(db) then Lookup(db, name).value else [];
              Some(if e.parent.author.Some? then Bump(before, e.parent.author.value) else before)
            else Lookup(db, name)
  {
    if Eligible(e, startupTime) {
      var author := e.author.value;
      var withRecord := EnsureRecord(db, author);
      LookupEnsureRecord(db, author, name);
      LookupEnsureRecord(db, author, author);
      if e.parent.author.Some? {
        LookupAddInteraction(withRecord, author, e.parent.author.value, name);
      }
    }
  }

  /**
   * Recording counts exactly: the count of partner in author's record goes up
   * by one for a qualifying reply and stays as it was for every other comment.
   */
  lemma ApplyCounts(db: seq<UserRecord>, e: Event, startupTime: int, author: string, partner: string)
    ensures Count(Apply(db, e, startupTime), author, partner)
         == Count(db, author, partner) + (if Qualifies(e, startupTime, author, partner) then 1 else 0)
  {
    ApplyLookup(db, e, startupTime, author);
    if Eligible(e, startupTime) && e.author == Some(author) {
      var before := if author in Commenters(db) then Lookup(db, author).value else [];
      assert Count(db, author, partner) == CountOf(before, partner) by {
        if author !in Commenters(db) {
          assert Partners([]) == [];
        }
      }
      if e.parent.author.Some? {
        assert Count(Apply(db, e, startupTime), author, partner) == CountOf(Bump(before, e.parent.author.value), partner);
      }
    }
  }

  /**
   * A record is created only for an eligible author who has none, and it is
   * appended: existing records keep their place and are never inserted twice.
   */
  lemma ApplyCommenters(db: seq<UserRecord>, e: Event, startupTime: int)
    ensures Commenters(Apply(db, e, startupTime))
         == if Eligible(e, startupTime) && e.author.value !in Commenters(db)
            then Commenters(db) + [e.author.value]
            else Commenters(db)
  {
    if Eligible(e, startupTime) {
      var withRecord := EnsureRecord(db, e.author.value);
      if e.parent.author.Some? {
        var i := IndexOf(Commenters(withRecord), e.author.value).value;
        CommentersUpdate(withRecord, i, Bump(withRecord[i].besties, e.parent.author.value));
      }
    }
  }

  /**
   * A reply to a comment whose author is gone still creates the replier's
   * record when missing, and changes nothing else.
   */
  lemma ApplyAuthorlessParent(db: seq<UserRecord>, e: Event, startupTime: int)
    requires Eligible(e, startupTime) && e.parent == Comment(None)
    ensures Apply(db, e, startupTime) == EnsureRecord(db, e.author.value)
    ensures e.author.value in Commenters(db) ==> Apply(db, e, startupTime) == db
  {
  }

  /** Recording keeps the collection well formed. */
  lemma ApplyWellFormed(db: seq<UserRecord>, e: Event, startupTime: int)
    requires WellFormed(db)
    ensures WellFormed(Apply(db, e, startupTime))
  {
    if Eligible(e, startupTime) {
      var author := e.author.value;
      var withRecord := EnsureRecord(db, author);
      assert WellFormed(withRecord) by {
        if author !in Commenters(db) {
          assert withRecord == db + [UserRecord(author, [])];
        }
      }
      if e.parent.author.Some? {
        var i := IndexOf(Commenters(withRecord), author).value;
        var r := AddInteraction(withRecord, author, e.parent.author.value);
        CommentersUpdate(withRecord, i, Bump(withRecord[i].besties, e.parent.author.value));
      }
    }
  }

  /** Comments from before startup never change the collection: a restart does not re-count history. */
  lemma {:induction false} ReplayStale(db: seq<UserRecord>, events: seq<Event>, startupTime: int)
    requires forall k :: 0 <= k < |events| ==> events[k].createdUtc <= startupTime
    ensures Replay(db, events, startupTime) == db
  {
    if events != [] {
      ReplayStale(db, events[..|events| - 1], startupTime);
    }
  }

  /**
   * After any sequence of comments, the count of partner in author's record
   * has grown by exactly the number of qualifying replies among them; from a
   * collection without that count, N replies give the count N.
   */
  lemma {:induction false} ReplayCounts(db: seq<UserRecord>, events: seq<Event>, startupTime: int, author: string, partner: string)
    ensures Count(Replay(db, events, startupTime), author, partner)
         == Count(db, author, partner) + Qualifying(events, startupTime, author, partner)
  {
    if events != [] {
      var prefix := events[..|events| - 1];
      ReplayCounts(db, prefix, startupTime, author, partner);
      ApplyCounts(Replay(db, prefix, startupTime), events[|events| - 1], startupTime, author, partner);
    }
  }

  /** The in-memory stand-in for the Mongo collection raw_besties. */
  class BestieStore {
    var records: seq<UserRecord>

    ghost predicate Valid()
      reads this
    {
      WellFormed(records)
    }

    constructor ()
      ensures Valid() && records == []
    {
      records := [];
    }

    /** record_comment: filter the comment, create the author's record if absent, then $set or $inc. */
    method RecordComment(comment: Event, startupTime: int)
      requires Valid()
      modifies this
      ensures Valid()
      ensures records == Apply(old(records), comment, startupTime)
    {
      ApplyWellFormed(records, comment, startupTime);
      if comment.createdUtc > startupTime {
        if comment.parent.Submission? {
          return;
        }
        if comment.author.None? {
          return;
        }
        var author := comment.author.value;
        if IndexOf(Commenters(records), author).None? {
          records := records + [UserRecord(author, [])];
        }
        assert records == EnsureRecord(old(records), author);
        // the parent is a comment here
        if comment.parent.author.Some? {
          var parentAuthor := comment.parent.author.value;
          ghost var withRecord := records;
          var i := IndexOf(Commenters(records), author).value;
          var besties := records[i].besties;
          if Get(besties, parentAuthor).None? {
            records := records[i := records[i].(besties := Put(besties, Entry(parentAuthor, 1)))];
          } else {
            var c := Get(besties, parentAuthor).value;
            records := records[i := records[i].(besties := Put(besties, Entry(parentAuthor, c + 1)))];
          }
          assert records == AddInteraction(withRecord, author, parentAuthor);
        }
      }
    }
  }
}
