/**
 * handle_comment: recognise `!my_bestie` and `!their_bestie(<name>)` in a
 * fresh, authored comment, look the target up, pop the three largest
 * entries off the sorted table and build the reply's figures. Every failure
 * inside the try block (unknown user, popitem on an empty dict, an unbound
 * local, a division by zero) is swallowed and means no reply.
 */
module Commands {
  import opened Wrappers
  import opened Text
  import opened BestieTable
  import opened Store
  import opened Ranking

  const MyTrigger: string := "!my_bestie"
  const TheirTrigger: string := "!their_bestie("

  datatype Command = MyBestie | TheirBestie(user: string) | NoCommand

  /**
   * The figures the reply reports: the name it addresses, the top entries in
   * the order they were popped, the total number of replies counted before
   * the pops, and len(all_besties) after them, reported as "unique users".
   */
  datatype Reply = Reply(name: string, top: Table, totalComments: int, uniqueUsers: int)

  /**
   * lowered.split('!their_bestie(')[1].split(')')[0]: the text right after the
   * first trigger, up to the next `)`, the next trigger, or the end.
   */
  function TheirTarget(lowered: string): (user: string)
    requires Contains(lowered, TheirTrigger)
    ensures var start := AfterFirst(lowered, TheirTrigger);
      && OccursAt(lowered, user, start)
      && !Contains(user, ")")
      && !Contains(user, TheirTrigger)
      && var end := start + |user|;
         end == |lowered| || OccursAt(lowered, ")", end) || OccursAt(lowered, TheirTrigger, end)
  {
    SecondPieceUpTo(lowered, TheirTrigger, ")");
    Split(Split(lowered, TheirTrigger)[1], ")")[0]
  }

  /** Which command a comment body carries; `!my_bestie` is looked for first. */
  function ParseCommand(body: string): (c: Command)
    ensures c.MyBestie? <==> Contains(Lower(body), MyTrigger)
    ensures c.TheirBestie? <==> !Contains(Lower(body), MyTrigger) && Contains(Lower(body), TheirTrigger)
    ensures c.TheirBestie? ==> c.user == TheirTarget(Lower(body))
  {
    var lowered := Lower(body);
    if Contains(lowered, MyTrigger) then MyBestie
    else if Contains(lowered, TheirTrigger) then TheirBestie(TheirTarget(lowered))
    else NoCommand
  }

  /** How many entries the pop loop ends up holding: three, or all of a shorter table. */
  function Taken(n: nat): nat
  {
    if n < 3 then n else 3
  }

  /**
   * The outcome of the try block for one lookup. With lenient set (the
   * `!my_bestie` branch, whose popitem() sits in its own try) a table of one
   * or two partners still gives a reply; otherwise fewer than three partners
   * raise out of the loop. An empty table leaves `bestie` unbound.
   */
  function Answer(db: seq<UserRecord>, pattern: string, name: string, lenient: bool): (r: Option<Reply>)
  {
    match GetAllBesties(db, pattern)
    case None => None
    case Some(sorted) =>
      var n := |sorted|;
      if n == 0 || (!lenient && n < 3) then None
      else if Sum(sorted) == 0 then None
      else Some(Reply(name, TopEntries(sorted, Taken(n)), Sum(sorted), n - Taken(n)))
  }

  /** What handle_comment replies to one comment, given the collection it reads. */
  function Respond(db: seq<UserRecord>, comment: Event, startupTime: int): (r: Option<Reply>)
    ensures r.Some? ==> comment.createdUtc > startupTime && comment.author.Some?
    ensures r.Some? ==> ParseCommand(comment.body) != NoCommand
  {
    if comment.createdUtc <= startupTime || comment.author.None? then None
    else
      var author := comment.author.value;
      match ParseCommand(comment.body)
      case MyBestie => Answer(db, author, author, true)
      case TheirBestie(user) => Answer(db, user, user, false)
      case NoCommand => None
  }

  /** Putting the entry popped m-th (from the end) onto the m entries popped before appends it. */
  lemma PutPopped(t: Table, m: nat)
    requires UniqueKeys(t) && m < |t|
    ensures Put(TopEntries(t, m), t[|t| - 1 - m]) == TopEntries(t, m + 1)
  {
    var top := TopEntries(t, m);
    var e := t[|t| - 1 - m];
    forall i | 0 <= i < m ensures Partners(top)[i] != e.partner {
      TopEntriesAt(t, m, i);
      assert Partners(t)[|t| - 1 - i] != Partners(t)[|t| - 1 - m];
    }
    assert e.partner !in Partners(top);
  }

  /** Putting the last popped entry again, as the lenient loop does once the table is empty, changes nothing. */
  lemma PutRepeated(t: Table)
    requires UniqueKeys(t) && 0 < |t|
    ensures Put(TopEntries(t, |t|), t[0]) == TopEntries(t, |t|)
  {
    var top := TopEntries(t, |t|);
    TopEntriesAt(t, |t|, |t| - 1);
    forall i, j | 0 <= i < j < |top| ensures Partners(top)[i] != Partners(top)[j] {
      TopEntriesAt(t, |t|, i);
      TopEntriesAt(t, |t|, j);
      assert Partners(t)[|t| - 1 - j] != Partners(t)[|t| - 1 - i];
    }
    PutPresent(top, |t| - 1);
  }

  /** Popping the last item of what is left after m pops. */
  lemma PopLast(t: Table, m: nat)
    requires m < |t|
    ensures t[..|t| - m][|t| - m - 1] == t[|t| - m - 1]
    ensures t[..|t| - m][..|t| - m - 1] == t[..|t| - m - 1]
  {
  }

  /**
   * The loop `for i in range(3): bestie = all_besties.popitem(); top_besties[bestie[0]] = bestie[1]`
   * over the sorted table. With lenient set the popitem() failure on an empty
   * dict is swallowed and the previous bestie is put again; without it the
   * failure ends the try block (ok false), and so does a bestie never bound.
   * Returns the dict top_besties and what is left of all_besties.
   */
  method PopTopThree(sorted: Table, lenient: bool) returns (ok: bool, topBesties: Table, allBesties: Table)
    requires UniqueKeys(sorted)
    ensures ok <==> |sorted| > 0 && (lenient || |sorted| >= 3)
    ensures ok ==> topBesties == TopEntries(sorted, Taken(|sorted|))
    ensures ok ==> allBesties == sorted[..|sorted| - Taken(|sorted|)]
  {
    var n := |sorted|;
    allBesties := sorted;
    topBesties := [];
    var bestie: Option<Entry> := None;
    ghost var m: nat := 0;
    for i := 0 to 3
      invariant m <= n && m <= i && (m < i ==> m == n)
      invariant !lenient ==> m == i
      invariant 0 < i ==> 0 < m
      invariant allBesties == sorted[..n - m]
      invariant topBesties == TopEntries(sorted, m)
      invariant bestie == if m == 0 then None else Some(sorted[n - m])
    {
      if |allBesties| == 0 {
        if !lenient {
          return false, topBesties, allBesties;
        }
      } else {
        PopLast(sorted, m);
        bestie := Some(allBesties[|allBesties| - 1]);
        allBesties := allBesties[..|allBesties| - 1];
        m := m + 1;
      }
      if bestie.None? {
        return false, topBesties, allBesties;
      }
      if m == i + 1 {
        assert bestie.value == sorted[n - 1 - i];
        PutPopped(sorted, i);
      } else {
        assert m == n && bestie.value == sorted[0];
        PutRepeated(sorted);
      }
      topBesties := Put(topBesties, bestie.value);
      assert topBesties == TopEntries(sorted, m);
    }
    ok := true;
  }

  /**
   * The try block of either command branch: get_all_besties, the total, the
   * pop loop, and the figures of the reply; the division by the total fails
   * when it is 0.
   */
  method AnswerQuery(db: seq<UserRecord>, pattern: string, name: string, lenient: bool) returns (reply: Option<Reply>)
    requires WellFormed(db)
    ensures reply == Answer(db, pattern, name, lenient)
  {
    var found := GetAllBesties(db, pattern);
    if found.None? {
      return None;
    }
    var allBesties := found.value;
    var totalComments := Sum(allBesties);
    var ok, topBesties, rest := PopTopThree(allBesties, lenient);
    if !ok {
      return None;
    }
    if totalComments == 0 {
      return None;
    }
    reply := Some(Reply(name, topBesties, totalComments, |rest|));
  }

  /** handle_comment: the freshness and author checks, command dispatch and the query. */
  method HandleComment(db: seq<UserRecord>, comment: Event, startupTime: int) returns (reply: Option<Reply>)
    requires WellFormed(db)
    ensures reply == Respond(db, comment, startupTime)
  {
    reply := None;
    if comment.createdUtc > startupTime {
      if comment.author.None? {
        return;
      }
      var author := comment.author.value;
      var lowered := Lower(comment.body);
      if Contains(lowered, MyTrigger) {
        reply := AnswerQuery(db, author, author, true);
      } else if Contains(lowered, TheirTrigger) {
        var user := Split(Split(lowered, TheirTrigger)[1], ")")[0];
        reply := AnswerQuery(db, user, user, false);
      }
    }
  }

  /** Reordering a table keeps every count positive. */
  lemma PositivePermuted(a: Table, b: Table)
    requires multiset(a) == multiset(b) && Positive(a)
    ensures Positive(b)
  {
    forall i | 0 <= i < |b| ensures b[i].count >= 1 {
      assert b[i] in multiset(a);
      var j :| 0 <= j < |a| && a[j] == b[i];
    }
  }

  /** The popped entries keep the distinct partners of the table they came from. */
  lemma TopEntriesUnique(t: Table, k: nat)
    requires UniqueKeys(t) && k <= |t|
    ensures UniqueKeys(TopEntries(t, k))
  {
    var top := TopEntries(t, k);
    forall i, j | 0 <= i < j < k ensures Partners(top)[i] != Partners(top)[j] {
      TopEntriesAt(t, k, i);
      TopEntriesAt(t, k, j);
      assert Partners(t)[|t| - 1 - j] != Partners(t)[|t| - 1 - i];
    }
  }

  /**
   * The reply to a lookup that found record i: the entries popped off its
   * sorted table and the total of the whole table, unless the table is empty
   * or, for `!their_bestie`, holds fewer than three partners.
   */
  lemma AnswerFound(db: seq<UserRecord>, pattern: string, name: string, lenient: bool, i: nat)
    requires WellFormed(db) && FindOne(db, pattern) == Some(i)
    ensures var sorted := GetAllBesties(db, pattern).value;
      var n := |db[i].besties|;
      && |sorted| == n
      && Answer(db, pattern, name, lenient) ==
         if n == 0 || (!lenient && n < 3) then None
         else Some(Reply(name, TopEntries(sorted, Taken(n)), Sum(db[i].besties), n - Taken(n)))
  {
    var sorted := GetAllBesties(db, pattern).value;
    assert |sorted| == |multiset(sorted)| == |db[i].besties|;
    SumPositive(db[i].besties);
  }

  /**
   * Whether a found user gets a reply: exactly when their table is non-empty
   * and, for `!their_bestie`, holds at least three partners.
   */
  lemma AnswerOutcome(db: seq<UserRecord>, pattern: string, name: string, lenient: bool, i: nat)
    requires WellFormed(db) && FindOne(db, pattern) == Some(i)
    ensures Answer(db, pattern, name, lenient).Some? <==> |db[i].besties| > 0 && (lenient || |db[i].besties| >= 3)
  {
    AnswerFound(db, pattern, name, lenient, i);
  }

  /** Counts that never increase from left to right. */
  predicate Descending(top: Table)
  {
    forall a, b :: 0 <= a < b < |top| ==> top[a].count >= top[b].count
  }

  /**
   * top holds k of the entries of stored, with distinct partners, in
   * descending order of count; the first is a maximum of stored and every
   * entry left out counts no more than the last one taken.
   */
  predicate TopOf(top: Table, stored: Table, k: nat)
  {
    && |top| == k
    && Descending(top)
    && UniqueKeys(top)
    && multiset(top) <= multiset(stored)
    && (0 < k ==> forall e :: e in stored ==> e.count <= top[0].count)
    && (0 < k ==> forall e :: e in multiset(stored) - multiset(top) ==> e.count <= top[k - 1].count)
  }

  /** The entries popped off a table sorted by ascending count are its largest. */
  lemma {:induction false} PoppedAreTop(sorted: Table, stored: Table, k: nat)
    requires SortedByCount(sorted) && multiset(sorted) == multiset(stored)
    requires UniqueKeys(sorted) && 0 < k <= |sorted|
    ensures TopOf(TopEntries(sorted, k), stored, k)
  {
    var n := |sorted|;
    var top := TopEntries(sorted, k);
    var rest := sorted[..n - k];
    TopEntriesAreLargest(sorted, k);
    TopEntriesSplit(sorted, k);
    TopEntriesUnique(sorted, k);
    CountsBounded(sorted, top[0].count);
    assert forall e :: e in stored ==> e in multiset(sorted);
    CountsBounded(rest, top[k - 1].count);
    MultisetRemainder(multiset(top), multiset(rest), multiset(stored));
  }

  lemma MultisetRemainder(taken: multiset<Entry>, left: multiset<Entry>, whole: multiset<Entry>)
    requires taken + left == whole
    ensures whole - taken == left
  {
  }

  /** A bound on every count of t holds for each entry of the multiset of t. */
  lemma CountsBounded(t: Table, m: int)
    requires forall j :: 0 <= j < |t| ==> t[j].count <= m
    ensures forall e :: e in multiset(t) ==> e.count <= m
  {
    forall e: Entry | e in multiset(t) ensures e.count <= m {
      var j :| 0 <= j < |t| && t[j] == e;
    }
  }

  /** The popped entries of a table of positive counts sum to at least their number and at most the total. */
  lemma {:induction false} PoppedSum(sorted: Table, stored: Table, k: nat)
    requires multiset(sorted) == multiset(stored) && Positive(stored) && k <= |sorted|
    ensures k <= Sum(TopEntries(sorted, k)) <= Sum(sorted)
  {
    var top := TopEntries(sorted, k);
    PositivePermuted(stored, sorted);
    TopEntriesSplit(sorted, k);
    assert Positive(sorted[..|sorted| - k]);
    SumPositive(sorted[..|sorted| - k]);
    forall j | 0 <= j < k ensures top[j].count >= 1 {
      TopEntriesAt(sorted, k, j);
    }
    SumPositive(top);
  }

  /**
   * A reply about a user with at least three partners reports their three
   * largest counts, the total of the whole table taken before the pops, which
   * bounds the top three's share, and as "unique users" the number of
   * partners left after the pops.
   */
  lemma {:induction false} TopThreeReply(db: seq<UserRecord>, pattern: string, name: string, lenient: bool, i: nat)
    requires WellFormed(db) && FindOne(db, pattern) == Some(i) && |db[i].besties| >= 3
    ensures var r := Answer(db, pattern, name, lenient);
      && r.Some? && r.value.name == name
      && TopOf(r.value.top, db[i].besties, 3)
      && r.value.totalComments == Sum(db[i].besties)
      && 3 <= Sum(r.value.top) <= r.value.totalComments
      && r.value.uniqueUsers == |db[i].besties| - 3
  {
    var stored := db[i].besties;
    var sorted := GetAllBesties(db, pattern).value;
    AnswerFound(db, pattern, name, lenient, i);
    PoppedSum(sorted, stored, 3);
    PoppedAreTop(sorted, stored, 3);
  }

  /**
   * `!my_bestie` from a user with one or two partners lists exactly those
   * partners, in descending order of count, and reports no further users.
   */
  lemma {:induction false} FewPartnersMyBestie(db: seq<UserRecord>, name: string, i: nat)
    requires WellFormed(db) && FindOne(db, name) == Some(i) && 1 <= |db[i].besties| <= 2
    ensures var r := Answer(db, name, name, true);
      && r.Some? && r.value.name == name
      && TopOf(r.value.top, db[i].besties, |db[i].besties|)
      && multiset(r.value.top) == multiset(db[i].besties)
      && r.value.totalComments == Sum(db[i].besties) == Sum(r.value.top)
      && r.value.uniqueUsers == 0
  {
    var stored := db[i].besties;
    var sorted := GetAllBesties(db, name).value;
    var n := |sorted|;
    AnswerFound(db, name, name, true, i);
    PoppedAreTop(sorted, stored, n);
    TopEntriesSplit(sorted, n);
    assert sorted[..0] == [];
  }

  /**
   * Dispatch on a fresh comment with an author: `!my_bestie` wins over
   * `!their_bestie(` when both appear, and a comment with neither gets no
   * reply. Whether the comment is top-level plays no part.
   */
  lemma RespondDispatch(db: seq<UserRecord>, comment: Event, startupTime: int, parent: Parent)
    requires comment.createdUtc > startupTime && comment.author.Some?
    ensures var lowered := Lower(comment.body);
      && (Contains(lowered, MyTrigger) ==>
            Respond(db, comment, startupTime) == Answer(db, comment.author.value, comment.author.value, true))
      && (!Contains(lowered, MyTrigger) && Contains(lowered, TheirTrigger) ==>
            Respond(db, comment, startupTime) == Answer(db, TheirTarget(lowered), TheirTarget(lowered), false))
      && (!Contains(lowered, MyTrigger) && !Contains(lowered, TheirTrigger) ==> Respond(db, comment, startupTime) == None)
    ensures Respond(db, comment.(parent := parent), startupTime) == Respond(db, comment, startupTime)
  {
  }

  /** The user named in `!their_bestie(...)` is read from the lowered body, so it is in lower case. */
  lemma {:induction false} TheirTargetLowered(body: string)
    requires Contains(Lower(body), TheirTrigger)
    ensures Lower(TheirTarget(Lower(body))) == TheirTarget(Lower(body))
  {
    var lowered := Lower(body);
    var user := TheirTarget(lowered);
    var start := AfterFirst(lowered, TheirTrigger);
    forall j | 0 <= j < |user| ensures LowerChar(user[j]) == user[j] {
      assert user[j] == lowered[start + j] == LowerChar(body[start + j]);
    }
  }

  /** `!their_bestie(...)` about a user no record matches gets no reply. */
  lemma UnknownTargetNoReply(db: seq<UserRecord>, comment: Event, startupTime: int)
    requires ParseCommand(comment.body).TheirBestie?
    requires forall j :: 0 <= j < |db| ==> !Matches(ParseCommand(comment.body).user, db[j].commenter)
    ensures Respond(db, comment, startupTime) == None
  {
  }

  /** `!my_bestie` from an author no record matches, or whose table is empty, gets no reply. */
  lemma MyBestieNoPartners(db: seq<UserRecord>, comment: Event, startupTime: int)
    requires WellFormed(db) && ParseCommand(comment.body).MyBestie? && comment.author.Some?
    requires match FindOne(db, comment.author.value)
      case None => true
      case Some(i) => db[i].besties == []
    ensures Respond(db, comment, startupTime) == None
  {
    if FindOne(db, comment.author.value).Some? {
      AnswerFound(db, comment.author.value, comment.author.value, true, FindOne(db, comment.author.value).value);
    }
  }
}
