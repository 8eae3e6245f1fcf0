/**
 * main(): every comment of the stream is first recorded and then answered,
 * so the reply to a comment reads the collection with that comment already
 * counted. The endless stream is modelled by a finite sequence of comments.
 */
module Driver {
  import opened Wrappers
  import opened Store
  import opened Commands

  /** The replies sent for events, in order, starting from collection db. */
  function Replies(db: seq<UserRecord>, events: seq<Event>, startupTime: int): (rs: seq<Option<Reply>>)
    ensures |rs| == |events|
  {
    if events == [] then []
    else
      Replies(db, events[..|events| - 1], startupTime)
      + [Respond(Replay(db, events, startupTime), events[|events| - 1], startupTime)]
  }

  lemma RepliesPrefix(db: seq<UserRecord>, events: seq<Event>, startupTime: int, k: nat)
    requires k < |events| - 1
    ensures Replies(db, events, startupTime)[k] == Replies(db, events[..|events| - 1], startupTime)[k]
  {
  }

  lemma RepliesLast(db: seq<UserRecord>, events: seq<Event>, startupTime: int)
    requires events != []
    ensures Replies(db, events, startupTime)[|events| - 1]
         == Respond(Replay(db, events, startupTime), events[|events| - 1], startupTime)
  {
  }

  /** Later comments do not change earlier replies. */
  lemma {:induction false} RepliesStable(db: seq<UserRecord>, events: seq<Event>, startupTime: int, k: nat)
    requires k < |events|
    ensures Replies(db, events, startupTime)[k] == Replies(db, events[..k + 1], startupTime)[k]
    decreases |events|
  {
    var prefix := events[..|events| - 1];
    if k < |prefix| {
      RepliesPrefix(db, events, startupTime, k);
      RepliesStable(db, prefix, startupTime, k);
      assert prefix[..k + 1] == events[..k + 1];
    } else {
      assert events[..k + 1] == events;
    }
  }

  /** The k-th reply answers the k-th comment against the collection as recorded up to and including it. */
  lemma RepliesAt(db: seq<UserRecord>, events: seq<Event>, startupTime: int, k: nat)
    requires k < |events|
    ensures Replies(db, events, startupTime)[k] == Respond(Replay(db, events[..k + 1], startupTime), events[k], startupTime)
  {
    RepliesStable(db, events, startupTime, k);
    RepliesLast(db, events[..k + 1], startupTime);
  }

  /** A stream of comments all older than startup leaves the collection alone and gets no reply. */
  lemma {:induction false} StaleStreamIgnored(db: seq<UserRecord>, events: seq<Event>, startupTime: int)
    requires forall k :: 0 <= k < |events| ==> events[k].createdUtc <= startupTime
    ensures Replay(db, events, startupTime) == db
    ensures forall k :: 0 <= k < |events| ==> Replies(db, events, startupTime)[k].None?
  {
    ReplayStale(db, events, startupTime);
    forall k | 0 <= k < |events| ensures Replies(db, events, startupTime)[k].None? {
      RepliesAt(db, events, startupTime, k);
    }
  }

  /** The stream loop of main() over finitely many comments: record_comment, then handle_comment. */
  method Run(store: BestieStore, events: seq<Event>, startupTime: int) returns (replies: seq<Option<Reply>>)
    requires store.Valid()
    modifies store
    ensures store.Valid()
    ensures store.records == Replay(old(store.records), events, startupTime)
    ensures replies == Replies(old(store.records), events, startupTime)
  {
    ghost var db := store.records;
    replies := [];
    for k := 0 to |events|
      invariant store.Valid()
      invariant store.records == Replay(db, events[..k], startupTime)
      invariant replies == Replies(db, events[..k], startupTime)
    {
      assert events[..k + 1][..k] == events[..k];
      store.RecordComment(events[k], startupTime);
      var reply := HandleComment(store.records, events[k], startupTime);
      replies := replies + [reply];
    }
    assert events[..|events|] == events;
  }
}
